/** How each implementation reads a 20-byte address from text. */
module Addresses {
  import opened ByteStrings
  import opened Hex

  function AddressFromDigits(s: string): Option<Address> {
    if |s| != 40 || DecodeString(s).None? then None else Some(DecodeString(s).value)
  }

  /** Web3.to_checksum_address: one optional prefix in either case, no trimming. */
  function PythonAddress(s: string): Option<Address> {
    AddressFromDigits(if "0X" <= s then s[2..] else DropPrefix("0x", s))
  }

  /** strictAddress: trims, then drops "0x" and after it "0X". */
  function GoAddress(s: string): Option<Address> {
    AddressFromDigits(DropPrefix("0X", DropPrefix("0x", TrimSpace(s))))
  }

  /** addrTo20. */
  function WasmAddress(s: string): Option<Address> {
    match HexToBytes(s)
    case None => None
    case Some(b) => if |b| == 20 then Some(b) else None
  }

  /** _addr_to_32 of the batch builder and of the Python library: any decoded length passes. */
  function BuilderAddressWord(s: string): Option<Bytes> {
    var t := DropPrefix("0x", Lower(s));
    if |t| != 40 || FromHex(t).None? then None else Some(Zeros(12) + FromHex(t).value)
  }

  /** _addr_to_32 of the verification engine: the prefix is dropped before lowering. */
  function EngineAddressWord(s: string): Option<Bytes> {
    var t := DropPrefix("0x", s);
    if |t| != 40 || FromHex(Lower(t)).None? then None else Some(Zeros(12) + FromHex(Lower(t)).value)
  }

  /** The form all implementations read alike: forty hex digits after an optional "0x". */
  function PlainAddress(s: string): Option<Address> {
    AddressFromDigits(DropPrefix("0x", s))
  }

  lemma HexDigitsHaveNoSpace(s: string)
    requires DecodeString(s).Some?
    ensures forall c :: c in s ==> !PythonSpace(c) && c != 'x' && c != 'X'
    ensures FromHex(Lower(s)) == DecodeString(s)
  {
    DecodedIsHex(s);
    DecodeIgnoresCase(s);
    DecodedIsHex(Lower(s));
    FromHexWithoutSpace(Lower(s));
  }

  lemma PlainTextShape(s: string)
    requires PlainAddress(s).Some?
    ensures var t := DropPrefix("0x", s);
            |t| == 40 && DecodeString(t).Some? && (s == t || s == "0x" + t)
            && t[0] !in "xX" && t[1] !in "xX" && TrimSpace(s) == s
  {
    var t := DropPrefix("0x", s);
    HexDigitsHaveNoSpace(t);
    assert t[0] in t && t[1] in t && t[39] in t && s[|s| - 1] == t[39];
    hide DecodeString;
    TrimSpaceKeeps(s);
  }

  /** Text in plain form reads as the same address in every implementation. */
  lemma PlainAddressesAgree(s: string)
    requires PlainAddress(s).Some?
    ensures PythonAddress(s) == GoAddress(s) == WasmAddress(s) == PlainAddress(s)
    ensures BuilderAddressWord(s) == EngineAddressWord(s) == Some(Zeros(12) + PlainAddress(s).value)
  {
    var t := DropPrefix("0x", s);
    PlainTextShape(s);
    HexDigitsHaveNoSpace(t);
    LowerOfPrefix(s, t);
    DecodeIgnoresCase(t);
    assert s[1] == 'x' || s[1] == t[1];
    hide DecodeString, FromHex, TrimSpace, Lower;
  }

  /** The Python node reads exactly what the WASM node reads without trimming. */
  lemma PythonAddressExactly(s: string)
    ensures PythonAddress(s) == WasmAddress(s) <==> WasmAddress(s).None? || TrimSpace(s) == s
  {
    PythonReadsTrimmed(TrimSpace(s));
    if PythonAddress(s).Some? { PythonAddressHasNoEdge(s); }
    TrimSpaceIdempotent(s);
  }

  lemma TrimSpaceIdempotent(s: string)
    ensures TrimSpace(TrimSpace(s)) == TrimSpace(s)
  {
  }

  lemma PythonAddressHasNoEdge(s: string)
    requires PythonAddress(s).Some?
    ensures TrimSpace(s) == s
  {
    var t := if "0X" <= s then s[2..] else DropPrefix("0x", s);
    HexDigitsHaveNoSpace(t);
    assert t[0] in t && t[39] in t && s[|s| - 1] == t[39];
    TrimSpaceKeeps(s);
  }

  /** On trimmed text the Python and the WASM readers agree. */
  lemma {:induction false} PythonReadsTrimmed(s: string)
    requires TrimSpace(s) == s
    ensures PythonAddress(s) == WasmAddress(s)
  {
    var t := if "0X" <= s then s[2..] else DropPrefix("0x", s);
    LowerCoreAgrees(s);
    hide Lower, TrimSpace;
    DecodeIgnoresCase(t);
    hide DecodeString;
  }

  lemma {:induction false} LowerOfTail(s: string)
    requires |s| >= 2
    ensures Lower(s)[2..] == Lower(s[2..])
    ensures "0x" <= Lower(s) <==> "0x" <= s || "0X" <= s
  {
    var l := Lower(s);
    assert l[0] == LowerChar(s[0]) && l[1] == LowerChar(s[1]);
    assert "0x" <= l <==> l[0] == '0' && l[1] == 'x';
    assert "0x" <= s <==> s[0] == '0' && s[1] == 'x';
    assert "0X" <= s <==> s[0] == '0' && s[1] == 'X';
  }

  lemma {:induction false} LowerCoreAgrees(s: string)
    ensures DropPrefix("0x", Lower(s)) == Lower(if "0X" <= s then s[2..] else DropPrefix("0x", s))
  {
    if |s| >= 2 { LowerOfTail(s); }
    hide Lower;
  }

  lemma SecondCharacterRejects(t: string)
    requires |t| >= 2 && t[1] in "xX"
    ensures DecodeString(t).None?
  {
  }

  /** What Go's two prefix drops leave, against Python's one. */
  lemma {:induction false} CoreOfGo(t: string)
    ensures var go := DropPrefix("0X", DropPrefix("0x", t));
            var python := if "0X" <= t then t[2..] else DropPrefix("0x", t);
            if "0x0X" <= t then go == t[4..] && python == t[2..] && t[3] == 'X' else go == python
  {
    if "0x0X" <= t {
      assert t[1] == 'x' && t[3] == 'X' && t[2] == '0';
      assert t[2..][2..] == t[4..] && t[2..][0] == '0' && t[2..][1] == 'X';
    } else if "0x" <= t {
      assert t[1] == 'x';
      assert t == "0x" + t[2..];
    }
  }

  /** Go alone lets a second, upper-case prefix through, and that is its only difference. */
  lemma {:induction false} GoAddressExactly(s: string)
    ensures GoAddress(s) == WasmAddress(s)
            <==> !("0x0X" <= TrimSpace(s) && AddressFromDigits(TrimSpace(s)[4..]).Some?)
  {
    var t := TrimSpace(s);
    TrimSpaceIdempotent(s);
    PythonReadsTrimmed(t);
    CoreOfGo(t);
    assert WasmAddress(s) == PythonAddress(t);
    hide WasmAddress, TrimSpace, DropPrefix;
    if "0x0X" <= t { SecondCharacterRejects(t[2..]); }
    hide DecodeString;
  }

  /** What Python reads every node reads; what Go reads Python reads unless trimmed or prefixed twice. */
  lemma {:induction false} PythonAgainstGo(s: string)
    ensures PythonAddress(s).Some? ==> GoAddress(s) == WasmAddress(s) == PythonAddress(s)
    ensures GoAddress(s).Some? ==> (PythonAddress(s).Some? <==> TrimSpace(s) == s && !("0x0X" <= s))
    ensures WasmAddress(s).Some? ==> (PythonAddress(s).Some? <==> TrimSpace(s) == s && !("0x0X" <= s))
  {
    WasmAgainstGo(s);
    PythonAddressExactly(s);
    if PythonAddress(s).Some? { PythonAddressHasNoEdge(s); }
    hide TrimSpace, WasmAddress, GoAddress;
    if "0x0X" <= s {
      assert s[2..][1] == 'X' && s[1] == 'x';
      SecondCharacterRejects(s[2..]);
    }
  }

  /** What WASM reads Go reads; what Go reads WASM reads unless prefixed twice. */
  lemma {:induction false} WasmAgainstGo(s: string)
    ensures WasmAddress(s).Some? ==> GoAddress(s) == WasmAddress(s)
    ensures GoAddress(s).Some? ==> (WasmAddress(s).Some? <==> !("0x0X" <= TrimSpace(s)))
  {
    var t := TrimSpace(s);
    GoAddressExactly(s);
    TrimSpaceIdempotent(s);
    PythonReadsTrimmed(t);
    if "0x0X" <= t {
      assert t[2..][1] == 'X' && t[1] == 'x';
      SecondCharacterRejects(t[2..]);
    }
    hide DecodeString;
  }

  /** The two Python libraries read an argument alike unless its prefix is "0X", which only one of them drops. */
  lemma {:induction false} AddressWordsExactly(s: string)
    ensures BuilderAddressWord(s) == EngineAddressWord(s)
            <==> !("0X" <= s && BuilderAddressWord(s).Some?)
  {
    if |s| >= 2 { LowerOfTail(s); }
    assert "0X" <= s ==> s[1] == 'X' && Lower(s)[1] == 'x';
    if "0X" <= s { PrefixedHasNoDigits(Lower(s)); }
    hide FromHex, Lower;
  }

  /** A printed address, with its prefix or without, is read back by every implementation. */
  lemma {:induction false} PrintedAddressIsRead(a: Address)
    ensures PlainAddress(HexOf(a)) == PlainAddress("0x" + HexOf(a)) == Some(a)
  {
    DecodeHexOf(a);
    PrintedHasNoPrefix(a);
    hide HexOf, DecodeString;
    assert ("0x" + HexOf(a))[2..] == HexOf(a);
  }
}
