/** The hex reader of the TypeScript verifier, which is laxer than the others. */
module TypeScriptHex {
  import opened ByteStrings
  import opened Hex

  /**
   * parseInt of a two-character slice in base 16, stored into a byte. It skips a leading
   * space, takes a sign, drops a "0x" and stops at the first other character; None is NaN.
   */
  function ParsePair(a: char, b: char): Option<byte> {
    if HexVal(a) >= 0 then
      if a == '0' && b in "xX" then None
      else if HexVal(b) >= 0 then Some(16 * HexVal(a) + HexVal(b))
      else Some(HexVal(a))
    else if HexVal(b) < 0 then None
    else if AsciiSpace(a) || a == '+' then Some(HexVal(b))
    else if a == '-' then Some((256 - HexVal(b)) % 256)
    else None
  }

  function ParsePairs(s: string): (r: Option<Bytes>)
    requires |s| % 2 == 0
    ensures r.Some? ==> |s| == 2 * |r.value|
  {
    if s == "" then Some([])
    else
      match ParsePairs(s[2..])
      case None => None
      case Some(b) => if ParsePair(s[0], s[1]).None? then None else Some([ParsePair(s[0], s[1]).value] + b)
  }

  /** The text behind a prefix in either case. */
  function Clean(s: string): string {
    if "0x" <= Lower(s) then s[2..] else s
  }

  /** What hexToBytes reads; None is a thrown error. */
  function TypeScriptBytes(s: string): (r: Option<Bytes>)
    ensures r.Some? ==> |Clean(s)| == 2 * |r.value|
  {
    if |Clean(s)| % 2 != 0 then None else ParsePairs(Clean(s))
  }

  lemma {:induction false} FirstPair(s: string, i: nat)
    requires |s| % 2 == 0 && 2 * i + 2 <= |s|
    ensures ParsePairs(s[2 * i..]) ==
            match ParsePairs(s[2 * (i + 1)..])
            case None => None
            case Some(b) =>
              if ParsePair(s[2 * i], s[2 * i + 1]).None? then None
              else Some([ParsePair(s[2 * i], s[2 * i + 1]).value] + b)
  {
    hide ParsePair;
    assert s[2 * i..][2..] == s[2 * (i + 1)..];
  }

  /** One turn of the loop: a good pair moves behind what is done, a bad one fails the whole text. */
  lemma {:induction false} PairMoves(s: string, i: nat, done: Bytes)
    requires |s| % 2 == 0 && 2 * i + 2 <= |s|
    requires ParsePairs(s) == Behind(done, ParsePairs(s[2 * i..]))
    ensures var v := ParsePair(s[2 * i], s[2 * i + 1]);
            if v.None? then ParsePairs(s).None?
            else ParsePairs(s) == Behind(done + [v.value], ParsePairs(s[2 * (i + 1)..]))
  {
    FirstPair(s, i);
    hide ParsePair, ParsePairs;
    var r, v := ParsePairs(s[2 * (i + 1)..]), ParsePair(s[2 * i], s[2 * i + 1]);
    if r.Some? && v.Some? {
      assert done + ([v.value] + r.value) == (done + [v.value]) + r.value;
    }
  }

  method TypeScriptHexToBytes(hex: string) returns (r: Option<Bytes>)
    ensures r == TypeScriptBytes(hex)
  {
    hide Clean, ParsePair, ParsePairs;
    var clean := Clean(hex);
    if |clean| % 2 != 0 { return None; }
    var out := new byte[|clean| / 2](_ => 0);
    assert clean[0..] == clean;
    assert ParsePairs(clean).Some? ==> out[..0] + ParsePairs(clean).value == ParsePairs(clean).value;
    for i := 0 to out.Length
      invariant ParsePairs(clean) == Behind(out[..i], ParsePairs(clean[2 * i..]))
    {
      PairMoves(clean, i, out[..i]);
      var value := ParsePair(clean[2 * i], clean[2 * i + 1]);
      if value.None? { return None; }
      ghost var done := out[..i];
      out[i] := value.value;
      assert out[..i + 1] == done + [value.value];
    }
    assert clean[2 * out.Length..] == "" && out[..out.Length] + [] == out[..];
    NoPairs();
    r := Some(out[..]);
  }

  lemma NoPairs()
    ensures ParsePairs("") == Some([])
  {
  }

  predicate AllHex(s: string) {
    forall i :: 0 <= i < |s| ==> HexVal(s[i]) >= 0
  }

  lemma {:induction false} ParsePairsDecodes(s: string)
    requires |s| % 2 == 0 && AllHex(s)
    ensures DecodeString(s).Some? && ParsePairs(s) == DecodeString(s)
  {
    if s != "" {
      assert HexVal(s[0]) >= 0 && HexVal(s[1]) >= 0;
      ParsePairsDecodes(s[2..]);
      assert HexVal('x') < 0 && HexVal('X') < 0;
    }
  }

  lemma {:induction false} DecodedIsAllHex(s: string)
    requires DecodeString(s).Some?
    ensures |s| % 2 == 0 && AllHex(s)
  {
    DecodedIsHex(s);
    hide DecodeString;
    forall i | 0 <= i < |s| ensures HexVal(s[i]) >= 0 { assert s[i] in s; }
  }

  lemma {:induction false} CleanIsLowerCore(s: string)
    ensures DropPrefix("0x", Lower(s)) == Lower(Clean(s))
  {
  }

  /** On text that needs no trimming, the strict readers decode exactly the clean text. */
  lemma {:induction false} StrictOnTrimmed(s: string)
    requires TrimSpace(s) == s
    ensures HexToBytes(s) == DecodeString(Clean(s))
  {
    hide TrimSpace;
    CleanIsLowerCore(s);
    DecodeIgnoresCase(Clean(s));
    hide Clean, Lower;
  }

  lemma {:induction false} HexCoreIsTrimmed(s: string)
    requires AllHex(Clean(s))
    ensures TrimSpace(s) == s
  {
    if s != "" {
      var c := Clean(s);
      var l := Lower(s);
      assert l[0] == LowerChar(s[0]);
      assert "0x" <= l ==> l[0] == '0' && l[1] == 'x' && l[1] == LowerChar(s[1]);
      assert c != "" ==> HexVal(c[|c| - 1]) >= 0 && HexVal(c[0]) >= 0 && c[|c| - 1] == s[|s| - 1];
      TrimSpaceKeeps(s);
    }
  }

  /** Trimming shortens, so what needs it decodes to fewer bytes than the lax reader could give. */
  lemma {:induction false} TrimmedIsShorter(s: string)
    requires HexToBytes(s).Some? && TrimSpace(s) != s
    ensures 2 * |HexToBytes(s).value| < |Clean(s)|
  {
    var t, l := TrimSpace(s), Lower(s);
    TrimSpaceShortens(s);
    if "0x" <= l {
      assert l[0] == '0' && l[1] == 'x';
      assert s[0] == '0' && !AsciiSpace(s[0]);
      var k := |t|;
      assert t == s[..k] by { TrimSpaceIsPrefix(s); }
      TrimSpaceKeepsPrefix(s);
    }
    hide DecodeString, TrimSpace;
  }

  lemma {:induction false} TrimLeftShortens(s: string)
    ensures |TrimLeft(AsciiSpace, s)| <= |s|
    ensures |TrimLeft(AsciiSpace, s)| == |s| ==> TrimLeft(AsciiSpace, s) == s
  {
    if s != "" && AsciiSpace(s[0]) { TrimLeftShortens(s[1..]); }
  }

  lemma {:induction false} TrimSpaceShortens(s: string)
    ensures |TrimSpace(s)| <= |s|
    ensures TrimSpace(s) != s ==> |TrimSpace(s)| < |s|
  {
    TrimLeftShortens(s);
  }

  lemma TrimSpaceIsPrefix(s: string)
    requires s != "" && !AsciiSpace(s[0])
    ensures TrimSpace(s) == s[..|TrimSpace(s)|]
  {
  }

  lemma {:induction false} TrimSpaceKeepsPrefix(s: string)
    requires "0x" <= Lower(s)
    ensures "0x" <= Lower(TrimSpace(s))
  {
    var l := Lower(s);
    assert l[0] == '0' && l[1] == 'x' && s[0] == '0' && s[1] in "xX";
    TrimRightKeepsSolid(s, 2);
  }

  lemma {:induction false} TrimRightKeepsSolid(s: string, k: nat)
    requires 0 < k <= |s| && !AsciiSpace(s[k - 1])
    ensures |TrimRight(AsciiSpace, s)| >= k
  {
    if AsciiSpace(s[|s| - 1]) { TrimRightKeepsSolid(s[..|s| - 1], k); }
  }

  /**
   * The TypeScript reader and the strict one agree on every string except two families:
   * text with a character that is no hex digit, which only the lax reader gets through, and
   * text that needs trimming, which only the strict reader trims.
   */
  lemma {:induction false} ReadersAgreeExactly(s: string)
    ensures TypeScriptBytes(s) == HexToBytes(s) <==>
      !(TypeScriptBytes(s).Some? && !AllHex(Clean(s))) && !(HexToBytes(s).Some? && TrimSpace(s) != s)
  {
    if TrimSpace(s) == s { StrictOnTrimmed(s); }
    if AllHex(Clean(s)) {
      HexCoreIsTrimmed(s);
      if |Clean(s)| % 2 == 0 { ParsePairsDecodes(Clean(s)); }
    }
    if DecodeString(Clean(s)).Some? { DecodedIsAllHex(Clean(s)); }
    if HexToBytes(s).Some? && TrimSpace(s) != s { TrimmedIsShorter(s); }
    hide TrimSpace, HexToBytes, Clean, AllHex, DecodeString, ParsePairs;
  }

  /** What the lax reader makes of a pair: two digits, one digit before or behind something else, or nothing. */
  lemma {:induction false} PairsMeant(v: nat, u: nat, c: char)
    requires v < 16 && u < 16 && HexVal(c) < 0
    ensures ParsePair(HexDigit(v), HexDigit(u)) == Some(16 * v + u)
    ensures ParsePair(HexDigit(v), c) == if v == 0 && c in "xX" then None else Some(v)
    ensures ParsePair(c, HexDigit(u)) ==
            if c in "\t\n\U{000B}\U{000C}\r +" then Some(u)
            else if c == '-' then Some(if u == 0 then 0 else 256 - u) else None
    ensures ParsePair(c, c).None?
  {
    CharactersMeant(c);
    DigitsMeant(v, HexDigit(v));
    DigitsMeant(u, HexDigit(u));
    hide HexVal, HexDigit, AsciiSpace;
  }
}
