/** Hexadecimal text as the Python, Go and WASM nodes read it. Strings are ASCII. */
module Hex {
  import opened ByteStrings

  // ---------- characters ----------

  /** The value of a hex digit in either case, or -1. */
  function HexVal(c: char): (v: int)
    ensures -1 <= v < 16
  {
    if '0' <= c <= '9' then c as int - '0' as int
    else if 'a' <= c <= 'f' then c as int - 'a' as int + 10
    else if 'A' <= c <= 'F' then c as int - 'A' as int + 10
    else -1
  }

  function HexDigit(v: int): (c: char)
    requires 0 <= v < 16
    ensures HexVal(c) == v && !('A' <= c <= 'Z')
  {
    if v < 10 then (v + '0' as int) as char else (v - 10 + 'a' as int) as char
  }

  /** Tab, line feed, vertical tab, form feed, carriage return and space. */
  predicate AsciiSpace(c: char) { 9 <= c as int <= 13 || c == ' ' }

  /** The information separators U+001C to U+001F, white space to Python only. */
  predicate Separator(c: char) { 28 <= c as int <= 31 }

  predicate PythonSpace(c: char) { AsciiSpace(c) || Separator(c) }

  function LowerChar(c: char): char {
    if 'A' <= c <= 'Z' then (c as int + 32) as char else c
  }

  // ---------- trimming, case and prefix ----------

  function Lower(s: string): (t: string)
    ensures |t| == |s|
    ensures forall i :: 0 <= i < |s| ==> t[i] == LowerChar(s[i])
  {
    seq(|s|, i requires 0 <= i < |s| => LowerChar(s[i]))
  }

  function TrimLeft(space: char -> bool, s: string): (t: string)
    ensures t == "" || !space(t[0])
  {
    if s != "" && space(s[0]) then TrimLeft(space, s[1..]) else s
  }

  function TrimRight(space: char -> bool, s: string): (t: string)
    ensures t == "" || !space(t[|t| - 1])
    ensures t <= s
  {
    if s != "" && space(s[|s| - 1]) then TrimRight(space, s[..|s| - 1]) else s
  }

  /** Go's strings.TrimSpace. */
  function TrimSpace(s: string): (t: string)
    ensures t == "" || (!AsciiSpace(t[0]) && !AsciiSpace(t[|t| - 1]))
  {
    TrimRight(AsciiSpace, TrimLeft(AsciiSpace, s))
  }

  /** Python's str.strip. */
  function Strip(s: string): string {
    TrimRight(PythonSpace, TrimLeft(PythonSpace, s))
  }

  function DropPrefix(p: string, s: string): string {
    if p <= s then s[|p|..] else s
  }

  // ---------- printing and parsing ----------

  function HexOf(b: Bytes): (s: string)
    ensures |s| == 2 * |b|
  {
    if b == [] then "" else [HexDigit(b[0] / 16), HexDigit(b[0] % 16)] + HexOf(b[1..])
  }

  /** Go's hex.DecodeString: digit pairs and nothing else. */
  function DecodeString(s: string): (r: Option<Bytes>)
    ensures r.Some? ==> |s| == 2 * |r.value|
  {
    if s == "" then Some([])
    else if |s| == 1 || HexVal(s[0]) < 0 || HexVal(s[1]) < 0 then None
    else match DecodeString(s[2..])
      case None => None
      case Some(b) => Some([16 * HexVal(s[0]) + HexVal(s[1])] + b)
  }

  /** Python's bytes.fromhex: digit pairs, with white space skipped between them. */
  function FromHex(s: string): Option<Bytes> {
    if s == "" then Some([])
    else if AsciiSpace(s[0]) then FromHex(s[1..])
    else if |s| == 1 || HexVal(s[0]) < 0 || HexVal(s[1]) < 0 then None
    else match FromHex(s[2..])
      case None => None
      case Some(b) => Some([16 * HexVal(s[0]) + HexVal(s[1])] + b)
  }

  lemma HexDigitsAreLower(x: byte)
    ensures var hi, lo := HexDigit(x / 16), HexDigit(x % 16);
            LowerChar(hi) == hi && LowerChar(lo) == lo && !AsciiSpace(hi)
            && HexVal(hi) == x / 16 && HexVal(lo) == x % 16
  {
  }

  lemma {:induction false} DecodeHexOf(b: Bytes)
    ensures DecodeString(HexOf(b)) == Some(b)
    ensures FromHex(HexOf(b)) == Some(b)
    ensures Lower(HexOf(b)) == HexOf(b)
    ensures forall c :: c in HexOf(b) ==> HexVal(c) >= 0
  {
    if b != [] {
      DecodeHexOf(b[1..]);
      HexDigitsAreLower(b[0]);
      var s := HexOf(b);
      var hi, lo := HexDigit(b[0] / 16), HexDigit(b[0] % 16);
      assert s == [hi, lo] + HexOf(b[1..]) && s[0] == hi && s[1] == lo && s[2..] == HexOf(b[1..]);
      assert b == [b[0]] + b[1..];
      hide HexDigit, HexVal, LowerChar, AsciiSpace, HexOf;
      assert DecodeString(s) == Some(b) && FromHex(s) == Some(b);
      hide DecodeString, FromHex;
      forall i | 0 <= i < |s| ensures Lower(s)[i] == s[i] {
        if i >= 2 { assert s[i] == Lower(HexOf(b[1..]))[i - 2]; }
      }
    }
  }

  predicate NoCapitals(s: string) {
    forall i :: 0 <= i < |s| ==> !('A' <= s[i] <= 'Z')
  }

  lemma LowerHasNoCapitals(s: string)
    ensures NoCapitals(Lower(s))
    ensures NoCapitals(s) ==> Lower(s) == s
  {
  }

  lemma HexPairInverts(hi: char, lo: char)
    requires HexVal(hi) >= 0 && HexVal(lo) >= 0 && NoCapitals([hi, lo])
    ensures var v := 16 * HexVal(hi) + HexVal(lo);
            0 <= v < 256 && hi == HexDigit(v / 16) && lo == HexDigit(v % 16)
  {
    assert NoCapitals([hi, lo]) ==> !('A' <= [hi, lo][0] <= 'Z') && !('A' <= [hi, lo][1] <= 'Z');
  }

  lemma {:induction false} DecodedTextIsPrinted(s: string, b: Bytes)
    requires NoCapitals(s) && DecodeString(s) == Some(b)
    ensures s == HexOf(b)
  {
    if s != "" {
      var t := s[2..];
      var x := 16 * HexVal(s[0]) + HexVal(s[1]);
      assert DecodeString(t).Some? && b == [x] + DecodeString(t).value;
      assert s == [s[0], s[1]] + t;
      hide DecodeString, HexVal, HexDigit;
      HexPairInverts(s[0], s[1]);
      DecodedTextIsPrinted(t, b[1..]);
    }
  }

  /** Lower-case text decodes to b exactly when it is the printed form of b. */
  lemma DecodeStringInverts(s: string, b: Bytes)
    requires NoCapitals(s)
    ensures DecodeString(s) == Some(b) <==> s == HexOf(b)
  {
    hide DecodeString, HexOf;
    DecodeHexOf(b);
    if DecodeString(s) == Some(b) { DecodedTextIsPrinted(s, b); }
  }

  lemma {:induction false} DecodeIgnoresCase(s: string)
    ensures DecodeString(Lower(s)) == DecodeString(s)
  {
    if |s| >= 2 {
      DecodeIgnoresCase(s[2..]);
      assert Lower(s)[2..] == Lower(s[2..]);
    }
  }

  lemma {:induction false} DecodedIsHex(s: string)
    requires DecodeString(s).Some?
    ensures forall c :: c in s ==> HexVal(c) >= 0
  {
    if s != "" {
      DecodedIsHex(s[2..]);
      assert s == [s[0], s[1]] + s[2..];
    }
  }

  lemma {:induction false} FromHexWithoutSpace(s: string)
    requires forall c :: c in s ==> !AsciiSpace(c)
    ensures FromHex(s) == DecodeString(s)
  {
    if |s| >= 2 { FromHexWithoutSpace(s[2..]); }
  }

  // ---------- a published 32-byte hash against the recomputed one ----------

  /** hexToBytes of the Go and WASM nodes. */
  function HexToBytes(s: string): Option<Bytes> {
    DecodeString(DropPrefix("0x", Lower(TrimSpace(s))))
  }

  predicate DecodedMatches(s: string, w: Bytes) {
    HexToBytes(s) == Some(w)
  }

  function WithPrefix(s: string): string {
    if "0x" <= s then s else "0x" + s
  }

  /** The Python node compares text: strip, lower, prefix, then string equality. */
  predicate TextMatches(s: string, w: Bytes) {
    Strip(s) != "" && WithPrefix(Lower(Strip(s))) == "0x" + HexOf(w)
  }

  /** What Go's trim leaves still starts or ends with an information separator. */
  predicate SeparatorEdge(s: string) {
    var t := TrimSpace(s);
    t != "" && (Separator(t[0]) || Separator(t[|t| - 1]))
  }

  lemma {:induction false} TrimLeftTwice(s: string)
    ensures TrimLeft(PythonSpace, TrimLeft(AsciiSpace, s)) == TrimLeft(PythonSpace, s)
  {
    if s != "" && AsciiSpace(s[0]) { TrimLeftTwice(s[1..]); }
  }

  lemma {:induction false} TrimRightTwice(s: string)
    ensures TrimRight(PythonSpace, TrimRight(AsciiSpace, s)) == TrimRight(PythonSpace, s)
  {
    if s != "" && AsciiSpace(s[|s| - 1]) { TrimRightTwice(s[..|s| - 1]); }
  }

  lemma TrimsAgree(s: string)
    requires !SeparatorEdge(s)
    ensures Strip(s) == TrimSpace(s)
  {
    var u := TrimLeft(AsciiSpace, s);
    TrimLeftTwice(s);
    TrimRightTwice(u);
    if TrimSpace(s) == "" {
      TrimLeftKeepsOrEmpties(u);
    }
  }

  /** If nothing but white space remains, stripping it on the left first changes nothing. */
  lemma TrimLeftKeepsOrEmpties(u: string)
    requires u == "" || !AsciiSpace(u[0])
    requires TrimRight(AsciiSpace, u) == ""
    ensures u == ""
  {
  }

  lemma {:induction false} TrimRightKeepsHead(u: string)
    requires u != "" && !AsciiSpace(u[0])
    ensures TrimRight(AsciiSpace, u) != ""
  {
    if AsciiSpace(u[|u| - 1]) { TrimRightKeepsHead(u[..|u| - 1]); }
  }

  lemma PrefixedTextIsDecoding(t: string, w: Bytes)
    requires NoCapitals(t) && w != []
    ensures (t != "" && WithPrefix(t) == "0x" + HexOf(w))
            <==> DecodeString(DropPrefix("0x", t)) == Some(w)
  {
    var u := DropPrefix("0x", t);
    DecodeStringInverts(u, w);
    assert "0x" <= t ==> t == "0x" + u;
    assert ("0x" + u)[2..] == u && ("0x" + HexOf(w))[2..] == HexOf(w);
  }

  lemma EmptyDecodesEmpty()
    ensures DecodeString("") == Some([])
  {
  }

  lemma DecodedEdgesAreClean(s: string, w: Bytes)
    requires w != [] && DecodedMatches(s, w)
    ensures !SeparatorEdge(s)
  {
    hide DecodeString, FromHex, TrimSpace;
    var t := TrimSpace(s);
    var l := Lower(t);
    var u := DropPrefix("0x", l);
    DecodedIsHex(u);
    EmptyDecodesEmpty();
    hide Lower;
    assert u[|u| - 1] in u && u[0] in u;
    assert l[|l| - 1] == u[|u| - 1] && l[|l| - 1] == LowerChar(t[|t| - 1]);
    assert l[0] == LowerChar(t[0]) && ("0x" <= l || u == l);
  }

  /**
   * The text comparison and the byte comparison agree on every string and every
   * non-empty hash, except the family whose edge carries an information separator:
   * there the byte comparison always rejects.
   */
  lemma HexComparisonsAgree(s: string, w: Bytes)
    requires w != []
    ensures DecodedMatches(s, w) <==> TextMatches(s, w) && !SeparatorEdge(s)
  {
    var t := TrimSpace(s);
    var l := Lower(t);
    LowerHasNoCapitals(t);
    if DecodedMatches(s, w) { DecodedEdgesAreClean(s, w); }
    if !SeparatorEdge(s) {
      TrimsAgree(s);
      PrefixedTextIsDecoding(l, w);
    }
  }

  lemma TrimSpaceKeeps(s: string)
    requires s != "" && !AsciiSpace(s[0]) && !AsciiSpace(s[|s| - 1])
    ensures TrimSpace(s) == s
  {
  }

  lemma LowerOfPrefix(s: string, t: string)
    requires s == "0x" + t || s == "0X" + t || (s == t && (|t| < 2 || t[1] !in "xX"))
    ensures DropPrefix("0x", Lower(s)) == Lower(t)
  {
  }

  lemma PrintedIsLower(b: Bytes)
    ensures Lower("0x" + HexOf(b)) == "0x" + HexOf(b)
  {
    DecodeHexOf(b);
    var x := HexOf(b);
    var s := "0x" + x;
    forall i | 0 <= i < |s| ensures LowerChar(s[i]) == s[i] {
      if i >= 2 { assert s[i] == Lower(x)[i - 2]; }
    }
  }

  /** A printed hash, behind "0x", is read back by every reader. */
  lemma {:induction false} PrintedHashParses(b: Bytes)
    requires b != []
    ensures var s := "0x" + HexOf(b);
            Lower(s) == s && DropPrefix("0x", s) == HexOf(b)
            && Strip(s) == s && TrimSpace(s) == s && HexToBytes(s) == Some(b) && TextMatches(s, b)
  {
    var x := HexOf(b);
    var s := "0x" + x;
    DecodeHexOf(b);
    PrintedIsLower(b);
    hide HexOf, DecodeString, FromHex, Lower;
    assert s[2..] == x;
    assert s[0] == '0' && s[|s| - 1] == x[|x| - 1] && x[|x| - 1] in x;
    TrimSpaceKeeps(s);
    TrimsAgree(s);
  }

  // ---------- a proof item, with and without trimming ----------

  /** _to_bytes of the Python engine: no trimming, but bytes.fromhex skips spaces. */
  function EngineBytes(s: string): Option<Bytes> {
    FromHex(DropPrefix("0x", Lower(s)))
  }

  predicate HasSpace(s: string) {
    exists c :: c in s && AsciiSpace(c)
  }

  lemma {:induction false} FromHexIgnoresTail(x: string, c: char)
    requires AsciiSpace(c)
    ensures FromHex(x + [c]) == FromHex(x)
  {
    var y := x + [c];
    if x == "" {
      assert y[1..] == "";
    } else if AsciiSpace(x[0]) {
      assert y[1..] == x[1..] + [c];
      FromHexIgnoresTail(x[1..], c);
    } else if |x| >= 2 {
      assert y[2..] == x[2..] + [c];
      FromHexIgnoresTail(x[2..], c);
    }
  }

  lemma LowerOfLast(s: string)
    requires s != ""
    ensures var n := |s| - 1; Lower(s) == Lower(s[..n]) + [LowerChar(s[n])]
  {
  }

  /** What the engine reads does not depend on trailing white space. */
  lemma {:induction false} EngineIgnoresTail(s: string)
    ensures EngineBytes(TrimRight(AsciiSpace, s)) == EngineBytes(s)
  {
    if s != "" && AsciiSpace(s[|s| - 1]) {
      var n := |s| - 1;
      EngineIgnoresTail(s[..n]);
      LowerOfLast(s);
      var u, l := Lower(s[..n]), Lower(s);
      assert l == u + [s[n]] && l[n] == s[n];
      assert DropPrefix("0x", l) == DropPrefix("0x", u) + [s[n]];
      hide FromHex, DropPrefix;
      FromHexIgnoresTail(DropPrefix("0x", u), s[n]);
    }
  }

  /** Behind leading white space the engine sees no prefix, only digits. */
  lemma {:induction false} EngineAfterSpace(s: string)
    requires s != "" && AsciiSpace(s[0])
    ensures EngineBytes(s) == FromHex(Lower(TrimLeft(AsciiSpace, s)))
  {
    var l := Lower(s);
    assert l[0] == s[0] && DropPrefix("0x", l) == l && l[1..] == Lower(s[1..]);
    if s[1..] != "" && AsciiSpace(s[1]) {
      EngineAfterSpace(s[1..]);
      assert Lower(s[1..])[0] == s[1];
    }
  }

  lemma PrefixedHasNoDigits(l: string)
    requires "0x" <= l
    ensures FromHex(l).None?
  {
  }

  /** On text without inner spaces the untrimmed reader differs at most by a hidden prefix. */
  lemma EngineOnSolidCore(s: string)
    requires !HasSpace(TrimSpace(s))
    ensures EngineBytes(s) == if s != "" && AsciiSpace(s[0]) then DecodeString(Lower(TrimSpace(s))) else HexToBytes(s)
  {
    var t := TrimSpace(s);
    var l := Lower(t);
    forall c | c in l ensures !AsciiSpace(c) {
      var i :| 0 <= i < |l| && l[i] == c;
      assert t[i] in t;
    }
    if s != "" && AsciiSpace(s[0]) {
      var u := TrimLeft(AsciiSpace, s);
      EngineAfterSpace(s);
      LowerTrimsLike(u);
      FromHexWithoutSpace(l);
    } else {
      EngineIgnoresTail(s);
      var d := DropPrefix("0x", l);
      assert forall c :: c in d ==> c in l;
      FromHexWithoutSpace(d);
    }
  }

  lemma {:induction false} LowerTrimsLike(u: string)
    ensures FromHex(Lower(u)) == FromHex(Lower(TrimRight(AsciiSpace, u)))
  {
    if u != "" && AsciiSpace(u[|u| - 1]) {
      var n := |u| - 1;
      LowerTrimsLike(u[..n]);
      LowerOfLast(u);
      FromHexIgnoresTail(Lower(u[..n]), u[n]);
    }
  }

  /**
   * The two readers of a proof item agree on every string except two families: digits with
   * spaces inside, which only Python reads, and a prefixed item behind white space, which
   * only Go reads.
   */
  lemma {:induction false} ProofItemReadersAgreeExactly(s: string)
    ensures EngineBytes(s) == HexToBytes(s) <==>
      !(HasSpace(TrimSpace(s)) && EngineBytes(s).Some?)
      && !(s != "" && AsciiSpace(s[0]) && "0x" <= Lower(TrimSpace(s)) && HexToBytes(s).Some?)
  {
    hide TrimSpace, EngineBytes, HexToBytes, Lower, HasSpace;
    ProofItemReaders(s);
  }

  lemma InnerSpaceIsNotHex(t: string)
    requires HasSpace(t)
    ensures DecodeString(DropPrefix("0x", Lower(t))).None?
  {
    var c :| c in t && AsciiSpace(c);
    var i :| 0 <= i < |t| && t[i] == c;
    var l := Lower(t);
    var u := DropPrefix("0x", l);
    assert l[i] == c && HexVal(c) < 0;
    assert "0x" <= l ==> i >= 2 && l[i] == u[i - 2] by {
      if "0x" <= l { assert l[0] == '0' && l[1] == 'x'; }
    }
    assert c in u;
    if DecodeString(u).Some? { DecodedIsHex(u); }
  }

  lemma {:induction false} FromHexIgnoresCase(s: string)
    ensures FromHex(Lower(s)) == FromHex(s)
  {
    var l := Lower(s);
    if s != "" {
      assert l[0] == LowerChar(s[0]);
      if AsciiSpace(s[0]) {
        FromHexIgnoresCase(s[1..]);
        assert l[1..] == Lower(s[1..]);
      } else if |s| >= 2 {
        assert l[1] == LowerChar(s[1]);
        FromHexIgnoresCase(s[2..]);
        assert l[2..] == Lower(s[2..]);
      }
    }
  }

  lemma {:induction false} FromHexIgnoresHead(s: string)
    ensures FromHex(TrimLeft(AsciiSpace, s)) == FromHex(s)
  {
    if s != "" && AsciiSpace(s[0]) { FromHexIgnoresHead(s[1..]); }
  }

  lemma {:induction false} FromHexIgnoresEnd(s: string)
    ensures FromHex(TrimRight(AsciiSpace, s)) == FromHex(s)
  {
    if s != "" && AsciiSpace(s[|s| - 1]) {
      var n := |s| - 1;
      FromHexIgnoresEnd(s[..n]);
      assert s == s[..n] + [s[n]];
      FromHexIgnoresTail(s[..n], s[n]);
    }
  }

  /**
   * A signature is read by bytes.fromhex alone in Python and by hexToBytes in Go and WASM:
   * they agree on every string except digits with spaces inside and a prefixed core.
   */
  lemma {:induction false} SignatureReadersAgreeExactly(s: string)
    ensures FromHex(s) == HexToBytes(s) <==>
      !(HasSpace(TrimSpace(s)) && FromHex(s).Some?)
      && !("0x" <= Lower(TrimSpace(s)) && HexToBytes(s).Some?)
  {
    SignatureReaders(s);
  }

  /** The same, reader by reader. */
  lemma {:induction false} SignatureReaders(s: string)
    ensures HasSpace(TrimSpace(s)) ==> HexToBytes(s).None?
    ensures "0x" <= Lower(TrimSpace(s)) ==> FromHex(s).None?
    ensures !HasSpace(TrimSpace(s)) && !("0x" <= Lower(TrimSpace(s))) ==> FromHex(s) == HexToBytes(s)
  {
    var t := TrimSpace(s);
    FromHexIgnoresHead(s);
    FromHexIgnoresEnd(TrimLeft(AsciiSpace, s));
    FromHexIgnoresCase(t);
    assert FromHex(s) == FromHex(Lower(t));
    hide TrimSpace, TrimLeft, TrimRight;
    if HasSpace(t) {
      InnerSpaceIsNotHex(t);
    } else {
      FromHexWithoutSpace(t);
      DecodeIgnoresCase(t);
    }
    if "0x" <= Lower(t) { PrefixedHasNoDigits(Lower(t)); }
    hide FromHex, DecodeString, Lower;
  }

  /** And the readers of a proof item, reader by reader. */
  lemma {:induction false} ProofItemReaders(s: string)
    ensures HasSpace(TrimSpace(s)) ==> HexToBytes(s).None?
    ensures s != "" && AsciiSpace(s[0]) && "0x" <= Lower(TrimSpace(s)) ==>
      EngineBytes(s).None? || HasSpace(TrimSpace(s))
    ensures !HasSpace(TrimSpace(s)) && !(s != "" && AsciiSpace(s[0]) && "0x" <= Lower(TrimSpace(s))) ==>
      EngineBytes(s) == HexToBytes(s)
  {
    var t := TrimSpace(s);
    if HasSpace(t) {
      InnerSpaceIsNotHex(t);
    } else {
      EngineOnSolidCore(s);
      if "0x" <= Lower(t) {
        PrefixedHasNoDigits(Lower(t));
        DecodedPrefixRejects(Lower(t));
      }
    }
    hide FromHex, DecodeString, Lower, TrimSpace;
  }

  lemma DecodedPrefixRejects(l: string)
    requires "0x" <= l
    ensures DecodeString(l).None?
  {
    assert l[1] == 'x' && HexVal('x') < 0;
  }

  lemma SeparatorInFront(c: char, x: string)
    requires Separator(c) && x != "" && !PythonSpace(x[0]) && !PythonSpace(x[|x| - 1])
    ensures Strip([c] + x) == x && TrimSpace([c] + x) == [c] + x
  {
    var s := [c] + x;
    assert s[0] == c && s[1..] == x && s[|s| - 1] == x[|x| - 1];
    assert TrimLeft(PythonSpace, s) == TrimLeft(PythonSpace, x) == x;
    assert TrimRight(PythonSpace, x) == x;
    assert TrimLeft(AsciiSpace, s) == s;
    assert TrimRight(AsciiSpace, s) == s;
  }

  lemma PrintedHasNoPrefix(w: Bytes)
    requires w != []
    ensures var x := HexOf(w); !("0x" <= x) && !PythonSpace(x[0]) && !PythonSpace(x[|x| - 1])
  {
    hide DecodeString, FromHex, Lower;
    var x := HexOf(w);
    DecodeHexOf(w);
    assert x[0] in x && x[1] in x && x[|x| - 1] in x;
  }

  /** The disagreeing family is not empty: any hash behind U+001C belongs to it. */
  lemma {:induction false} SeparatorSplitsTheNodes(w: Bytes)
    requires w != []
    ensures var s := ['\U{001C}'] + HexOf(w); TextMatches(s, w) && !DecodedMatches(s, w)
  {
    hide HexOf, DecodeString, FromHex, HexToBytes, Lower, Strip, TrimSpace;
    PrintedHasNoPrefix(w);
    DecodeHexOf(w);
    SeparatorInFront('\U{001C}', HexOf(w));
    HexComparisonsAgree(['\U{001C}'] + HexOf(w), w);
  }

  // ---------- the readers in terms of characters ----------

  /** The characters meant by space, separator and lower case. */
  lemma {:induction false} CharactersMeant(c: char)
    ensures AsciiSpace(c) <==> c in "\t\n\U{000B}\U{000C}\r "
    ensures PythonSpace(c) <==> c in "\t\n\U{000B}\U{000C}\r " || c in "\U{001C}\U{001D}\U{001E}\U{001F}"
    ensures var upper, lower := "ABCDEFGHIJKLMNOPQRSTUVWXYZ", "abcdefghijklmnopqrstuvwxyz";
            if c in upper then exists k :: 0 <= k < 26 && upper[k] == c && lower[k] == LowerChar(c)
            else LowerChar(c) == c
  {
    var upper, lower := "ABCDEFGHIJKLMNOPQRSTUVWXYZ", "abcdefghijklmnopqrstuvwxyz";
    assert forall k :: 0 <= k < 26 ==> upper[k] as int == 65 + k && lower[k] as int == 97 + k;
    if 'A' <= c <= 'Z' { assert upper[c as int - 65] == c; }
  }

  /** Sixteen digits print; these and the six capitals are read, each as its place. */
  lemma {:induction false} DigitsMeant(v: nat, c: char)
    requires v < 16
    ensures HexDigit(v) == "0123456789abcdef"[v]
    ensures HexVal(c) == v <==> c == "0123456789abcdef"[v] || c == "0123456789ABCDEF"[v]
  {
  }

  /** Byte i is printed as its high digit and then its low digit. */
  lemma {:induction false} PrintedDigits(b: Bytes, i: nat)
    requires i < |b|
    ensures HexOf(b)[2 * i] == "0123456789abcdef"[b[i] / 16]
    ensures HexOf(b)[2 * i + 1] == "0123456789abcdef"[b[i] % 16]
  {
    DigitsMeant(b[0] / 16, '0');
    DigitsMeant(b[0] % 16, '0');
    if i > 0 { PrintedDigits(b[1..], i - 1); }
  }

  predicate AllIn(space: char -> bool, s: string) {
    forall i :: 0 <= i < |s| ==> space(s[i])
  }

  lemma {:induction false} TrimLeftDrops(space: char -> bool, s: string)
    ensures var t := TrimLeft(space, s);
            |t| <= |s| && t == s[|s| - |t|..] && AllIn(space, s[..|s| - |t|])
  {
    if s != "" && space(s[0]) {
      TrimLeftDrops(space, s[1..]);
      var t := TrimLeft(space, s[1..]);
      var k := |s| - |t|;
      assert s[..k] == [s[0]] + s[1..][..k - 1];
    }
  }

  lemma {:induction false} TrimRightDrops(space: char -> bool, s: string)
    ensures var t := TrimRight(space, s); t == s[..|t|] && AllIn(space, s[|t|..])
  {
    if s != "" && space(s[|s| - 1]) {
      var n := |s| - 1;
      TrimRightDrops(space, s[..n]);
      var t := TrimRight(space, s[..n]);
      assert s[|t|..] == s[..n][|t|..] + [s[n]];
    }
  }

  lemma {:induction false} TrimDrops(space: char -> bool, s: string) returns (i: nat, j: nat)
    ensures i <= j <= |s| && TrimRight(space, TrimLeft(space, s)) == s[i..j]
    ensures AllIn(space, s[..i]) && AllIn(space, s[j..])
    ensures i < j ==> !space(s[i]) && !space(s[j - 1])
  {
    TrimLeftDrops(space, s);
    var u := TrimLeft(space, s);
    TrimRightDrops(space, u);
    i := |s| - |u|;
    j := i + |TrimRight(space, u)|;
    hide TrimLeft, TrimRight, AllIn;
    assert s[j..] == u[j - i..];
    assert s[i..j] == u[..j - i];
  }

  /** Trimming takes white space off both ends, all of it, and nothing else. */
  lemma {:induction false} TrimmedText(s: string) returns (i: nat, j: nat)
    ensures i <= j <= |s| && TrimSpace(s) == s[i..j]
    ensures AllIn(AsciiSpace, s[..i]) && AllIn(AsciiSpace, s[j..])
    ensures i < j ==> !AsciiSpace(s[i]) && !AsciiSpace(s[j - 1])
  {
    hide TrimLeft, TrimRight, AllIn, AsciiSpace;
    i, j := TrimDrops(AsciiSpace, s);
  }

  /** So does stripping, of what is white space to Python. */
  lemma {:induction false} StrippedText(s: string) returns (i: nat, j: nat)
    ensures i <= j <= |s| && Strip(s) == s[i..j]
    ensures AllIn(PythonSpace, s[..i]) && AllIn(PythonSpace, s[j..])
    ensures i < j ==> !PythonSpace(s[i]) && !PythonSpace(s[j - 1])
  {
    hide TrimLeft, TrimRight, AllIn, PythonSpace;
    i, j := TrimDrops(PythonSpace, s);
  }

  lemma DigitsOrPrefixed(t: string, b: Bytes)
    requires NoCapitals(t)
    ensures DecodeString(DropPrefix("0x", t)) == Some(b) <==> t == HexOf(b) || t == "0x" + HexOf(b)
  {
    var u := DropPrefix("0x", t);
    assert "0x" <= t ==> t == "0x" + u;
    assert ("0x" + HexOf(b))[2..] == HexOf(b);
    assert NoCapitals(u) by { assert "0x" <= t ==> forall i :: 0 <= i < |u| ==> u[i] == t[i + 2]; }
    DecodeStringInverts(u, b);
    if b != [] { PrintedHasNoPrefix(b); }
    hide DecodeString, NoCapitals;
  }

  /** hexToBytes reads b exactly where the trimmed text prints b, in either case, behind "0x" or not. */
  lemma {:induction false} HexToBytesReads(s: string, b: Bytes)
    ensures HexToBytes(s) == Some(b) <==>
      Lower(TrimSpace(s)) == HexOf(b) || Lower(TrimSpace(s)) == "0x" + HexOf(b)
  {
    LowerHasNoCapitals(TrimSpace(s));
    DigitsOrPrefixed(Lower(TrimSpace(s)), b);
  }

  /** And the Python comparison likewise, with the white space that Python strips. */
  lemma {:induction false} TextMatchesReads(s: string, w: Bytes)
    requires w != []
    ensures TextMatches(s, w) <==> Lower(Strip(s)) == HexOf(w) || Lower(Strip(s)) == "0x" + HexOf(w)
  {
    var t := Lower(Strip(s));
    LowerHasNoCapitals(Strip(s));
    PrefixedTextIsDecoding(t, w);
    DigitsOrPrefixed(t, w);
    hide DecodeString, Strip, HexOf, Lower;
  }

  lemma {:induction false} FromHexSkipsGap(gap: string, t: string)
    requires AllIn(AsciiSpace, gap)
    ensures FromHex(gap + t) == FromHex(t)
  {
    if gap == "" {
      assert gap + t == t;
    } else {
      assert AsciiSpace(gap[0]) && (gap + t)[0] == gap[0] && (gap + t)[1..] == gap[1..] + t;
      FromHexSkipsGap(gap[1..], t);
    }
  }

  function Behind(done: Bytes, r: Option<Bytes>): Option<Bytes> {
    if r.None? then None else Some(done + r.value)
  }

  lemma {:induction false} FromHexOfPair(x: byte, t: string)
    ensures FromHex([HexDigit(x / 16), HexDigit(x % 16)] + t) == Behind([x], FromHex(t))
  {
    HexDigitsAreLower(x);
    var s := [HexDigit(x / 16), HexDigit(x % 16)] + t;
    assert s[0] == HexDigit(x / 16) && s[1] == HexDigit(x % 16) && s[2..] == t;
    hide HexDigit, HexVal, AsciiSpace, LowerChar;
  }

  /** bytes.fromhex goes on behind printed bytes, and past white space there, whatever follows. */
  lemma {:induction false} FromHexOfPrinted(a: Bytes, gap: string, t: string)
    requires AllIn(AsciiSpace, gap)
    ensures FromHex(HexOf(a) + gap + t) == Behind(a, FromHex(t))
  {
    hide FromHex, AllIn, HexDigit;
    if a == [] {
      FromHexSkipsGap(gap, t);
      assert HexOf(a) + gap + t == gap + t;
      assert FromHex(t).Some? ==> a + FromHex(t).value == FromHex(t).value;
    } else {
      var rest := HexOf(a[1..]) + gap + t;
      FromHexOfPrinted(a[1..], gap, t);
      FromHexOfPair(a[0], rest);
      assert HexOf(a) + gap + t == [HexDigit(a[0] / 16), HexDigit(a[0] % 16)] + rest;
      assert FromHex(t).Some? ==> a + FromHex(t).value == [a[0]] + (a[1..] + FromHex(t).value);
    }
  }

  /** But not past white space inside a pair, or past any other character. */
  lemma {:induction false} FromHexStopsInsidePair(a: Bytes, v: nat, c: char, t: string)
    requires v < 16 && HexVal(c) < 0
    ensures FromHex(HexOf(a) + [HexDigit(v), c] + t).None?
    ensures !AsciiSpace(c) ==> FromHex(HexOf(a) + [c] + t).None?
  {
    var broken, other := [HexDigit(v), c] + t, [c] + t;
    assert FromHex(broken).None? && (!AsciiSpace(c) ==> FromHex(other).None?);
    hide FromHex, HexOf, HexDigit, HexVal;
    FromHexOfPrinted(a, "", broken);
    FromHexOfPrinted(a, "", other);
    assert HexOf(a) + "" + broken == HexOf(a) + [HexDigit(v), c] + t;
    assert HexOf(a) + "" + other == HexOf(a) + [c] + t;
  }
}
