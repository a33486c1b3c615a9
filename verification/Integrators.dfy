/** The verifiers handed to integrators: one in Python, one in TypeScript. */
module Integrators {
  import opened ByteStrings
  import opened Hex
  import opened Addresses
  import opened LeafEncoding
  import opened MerkleTree
  import opened Inclusion
  import opened Published
  import opened BatchAssembly
  import opened TypeScriptHex

  /** A library answer; Thrown is an exception. */
  datatype Answer = Answer(ok: bool) | Thrown

  // ---------- the Python library ----------

  /** The proof as words; siblings of another length do not survive the length check. */
  function Words(proof: seq<Bytes>): (w: seq<Word>)
    ensures |w| == |proof|
  {
    seq(|proof|, i requires 0 <= i < |proof| => if |proof[i]| == 32 then proof[i] else Zeros(32))
  }

  /** What verify_merkle of the Python library owes for an encoded record, or None if that raised. */
  ghost function PythonAnswer(h: Hash, record: Option<Bytes>, proof: seq<Bytes>, root: Bytes): Answer {
    if |root| != 32 then Answer(false)
    else if record.None? then Thrown
    else Answer((forall i :: 0 <= i < |proof| ==> |proof[i]| == 32)
                && Replay(h, h(record.value), Words(proof)) == root)
  }

  lemma WordsGrow(proof: seq<Bytes>, i: nat)
    requires i < |proof| && |proof[i]| == 32
    ensures Words(proof[..i + 1]) == Words(proof[..i]) + [proof[i]]
    ensures Words(proof[..i + 1])[..i] == Words(proof[..i])
  {
  }

  /** NoethrionVerifier.verify_merkle. */
  method PythonVerifyMerkle(h: Hash, chainId: int, attester: string, beneficiary: string, amount: int, epoch: int,
                            proof: seq<Bytes>, root: Bytes)
    returns (r: Answer)
    ensures r == PythonAnswer(h, BuilderEncode(chainId, attester, beneficiary, amount, epoch), proof, root)
  {
    hide BuilderEncode, Less;
    if |root| != 32 { return Answer(false); }
    var record := BuilderEncode(chainId, attester, beneficiary, amount, epoch);
    if record.None? { return Thrown; }
    var leaf := h(record.value);
    var computed := leaf;
    for i := 0 to |proof|
      invariant forall j :: 0 <= j < i ==> |proof[j]| == 32
      invariant computed == Replay(h, leaf, Words(proof[..i]))
    {
      if |proof[i]| != 32 { return Answer(false); }
      WordsGrow(proof, i);
      var sibling := proof[i];
      computed := if Less(computed, sibling) then h(computed + sibling) else h(sibling + computed);
    }
    assert proof[..|proof|] == proof;
    r := Answer(computed == root);
  }

  // ---------- the TypeScript verifier ----------

  datatype Siblings = Read(words: seq<Word>) | WrongLength | Unreadable

  /** The siblings in order, up to the first that throws or has another length. */
  function ReadSiblings(proofHex: seq<string>): (r: Siblings)
    ensures r.Read? ==> |r.words| == |proofHex|
  {
    if proofHex == [] then Read([])
    else
      match ReadSiblings(proofHex[..|proofHex| - 1])
      case WrongLength => WrongLength
      case Unreadable => Unreadable
      case Read(words) =>
        var b := TypeScriptBytes(proofHex[|proofHex| - 1]);
        if b.None? then Unreadable else if |b.value| != 32 then WrongLength else Read(words + [b.value])
  }

  lemma {:induction false} FirstBadSiblingStops(proofHex: seq<string>, k: nat)
    requires k <= |proofHex| && !ReadSiblings(proofHex[..k]).Read?
    ensures ReadSiblings(proofHex) == ReadSiblings(proofHex[..k])
  {
    hide TypeScriptBytes;
    if k == |proofHex| {
      assert proofHex[..k] == proofHex;
    } else {
      assert proofHex[..|proofHex| - 1][..k] == proofHex[..k];
      FirstBadSiblingStops(proofHex[..|proofHex| - 1], k);
    }
  }

  /** The record that computeLeaf encodes from its textual arguments. */
  function TypeScriptRecord(chainId: int, attester: string, beneficiary: string, amount: int, epoch: int)
    : Option<Bytes>
  {
    var a, b := TypeScriptBytes(attester), TypeScriptBytes(beneficiary);
    if a.None? || b.None? then None else TypeScriptEncode(chainId, a.value, b.value, amount, epoch)
  }

  /** What verifyMerkle of the TypeScript verifier owes for its record and texts. */
  function TypeScriptAnswer(h: Hash, record: Option<Bytes>, proofHex: seq<string>, rootHex: string): Answer {
    var root := TypeScriptBytes(rootHex);
    if root.None? then Thrown
    else if |root.value| != 32 then Answer(false)
    else if record.None? then Thrown
    else
      match ReadSiblings(proofHex)
      case Unreadable => Thrown
      case WrongLength => Answer(false)
      case Read(words) => Answer(Replay(h, h(record.value), words) == root.value)
  }

  /** hashPair of the TypeScript verifier: sorted by compareBytes into a 64-byte buffer. */
  method TypeScriptHashPair(h: Hash, a: Word, b: Word) returns (r: Word)
    ensures r == HashPair(h, a, b)
  {
    var order := CompareBytes(a, b);
    var lo, hi := if order < 0 then a else b, if order < 0 then b else a;
    var merged := new byte[64](_ => 0);
    forall i | 0 <= i < 32 { merged[i] := lo[i]; }
    forall i | 0 <= i < 32 { merged[32 + i] := hi[i]; }
    assert merged[..] == lo + hi;
    r := h(merged[..]);
  }

  /** verifyMerkle of the TypeScript verifier, on its textual arguments. */
  method TypeScriptVerifyMerkle(h: Hash, chainId: int, attester: string, beneficiary: string, amount: int, epoch: int,
                                proofHex: seq<string>, rootHex: string)
    returns (r: Answer)
    ensures r == TypeScriptAnswer(h, TypeScriptRecord(chainId, attester, beneficiary, amount, epoch), proofHex, rootHex)
  {
    hide TypeScriptEncode, HashPair, TypeScriptBytes;
    var root := TypeScriptHexToBytes(rootHex);
    if root.None? { return Thrown; }
    if |root.value| != 32 { return Answer(false); }
    var attesterBytes := TypeScriptHexToBytes(attester);
    if attesterBytes.None? { return Thrown; }
    var beneficiaryBytes := TypeScriptHexToBytes(beneficiary);
    if beneficiaryBytes.None? { return Thrown; }
    var record := TypeScriptComputeRecord(chainId, attesterBytes.value, beneficiaryBytes.value, amount, epoch);
    if record.None? { return Thrown; }
    var leaf := h(record.value);
    var computed := leaf;
    ghost var words: seq<Word> := [];
    for i := 0 to |proofHex|
      invariant ReadSiblings(proofHex[..i]) == Read(words)
      invariant computed == Replay(h, leaf, words)
    {
      assert proofHex[..i + 1][..i] == proofHex[..i];
      var sibling := TypeScriptHexToBytes(proofHex[i]);
      if sibling.None? || |sibling.value| != 32 {
        FirstBadSiblingStops(proofHex, i + 1);
        return if sibling.None? then Thrown else Answer(false);
      }
      assert (words + [sibling.value])[..|words|] == words;
      words := words + [sibling.value];
      computed := TypeScriptHashPair(h, computed, sibling.value);
    }
    assert proofHex[..|proofHex|] == proofHex;
    r := Answer(computed == root.value);
  }

  // ---------- both accept what was built ----------

  lemma {:induction false} PrintedWordIsReadByTypeScript(w: Word)
    ensures TypeScriptBytes(Printed(w)) == Some(w)
  {
    var x := HexOf(w);
    var s := Printed(w);
    hide HexOf, ParsePairs, DecodeString, FromHex, Lower, HexVal;
    PrintedIsLower(w);
    DecodeHexOf(w);
    assert Clean(s) == x;
    assert AllHex(x) by { forall i | 0 <= i < |x| ensures HexVal(x[i]) >= 0 { assert x[i] in x; } }
    ParsePairsDecodes(x);
  }

  lemma {:induction false} PrintedProofIsReadByTypeScript(proof: seq<Word>)
    ensures ReadSiblings(PrintedProof(proof)) == Read(proof)
  {
    hide TypeScriptBytes, Printed;
    if proof != [] {
      var n := |proof| - 1;
      PrintedProofIsReadByTypeScript(proof[..n]);
      PrintedWordIsReadByTypeScript(proof[n]);
      assert PrintedProof(proof)[..n] == PrintedProof(proof[..n]);
      assert proof == proof[..n] + [proof[n]];
    }
  }

  lemma {:induction false} CleanIsPlainText(s: string)
    requires PlainAddress(s).Some?
    ensures Clean(s) == DropPrefix("0x", s)
  {
    PlainTextShape(s);
    hide PlainAddress, DecodeString, TrimSpace, Lower;
    var l := Lower(s);
    assert l[1] == LowerChar(s[1]) && l[0] == LowerChar(s[0]);
    assert "0x" <= s ==> s[0] == '0' && s[1] == 'x';
    assert "0x" <= s ==> l == "0x" + l[2..];
  }

  lemma {:induction false} PlainAddressIsReadByTypeScript(s: string)
    requires PlainAddress(s).Some?
    ensures TypeScriptBytes(s) == Some(PlainAddress(s).value)
  {
    var t := DropPrefix("0x", s);
    PlainTextShape(s);
    CleanIsPlainText(s);
    hide DropPrefix, Clean, DecodeString, ParsePairs, AllHex, TrimSpace;
    DecodedIsAllHex(t);
    ParsePairsDecodes(t);
  }

  /**
   * Given the arguments of a claim in a built batch, its built proof and the root, both
   * libraries answer that it is included.
   */
  lemma {:induction false} LibrariesAcceptBuiltProofs(h: Hash, claims: seq<Claim>, j: nat, attester: string,
                                                      beneficiary: string)
    requires j < |claims| && InRange(claims[j])
    requires PlainAddress(attester) == Some(claims[j].attester)
    requires PlainAddress(beneficiary) == Some(claims[j].beneficiary)
    ensures var c, root := claims[j], ClaimsRoot(h, claims);
            var proof := Proofs(h, Hashes(h, Encodings(claims)))[j];
            PythonAnswer(h, BuilderEncode(c.chainId, attester, beneficiary, c.amount, c.epoch), proof, root)
              == Answer(true)
            && TypeScriptAnswer(h, TypeScriptRecord(c.chainId, attester, beneficiary, c.amount, c.epoch),
                                PrintedProof(proof), Printed(root)) == Answer(true)
  {
    hide AbiEncode, Replay, Root, BuilderEncode, TypeScriptEncode, TypeScriptBytes, Printed, PrintedProof, ReadSiblings,
      PlainAddress, InRange;
    var c, leaves := claims[j], Hashes(h, Encodings(claims));
    var proof := Proofs(h, leaves)[j];
    assert leaves[j] == h(AbiEncode(c)) && ClaimsRoot(h, claims) == Root(h, leaves);
    BuiltProofsReplay(h, leaves, j);
    hide Proofs, Hashes, Encodings, ClaimsRoot;
    EncodersAgree(c, attester, beneficiary);
    assert Words(proof) == proof;
    PlainAddressIsReadByTypeScript(attester);
    PlainAddressIsReadByTypeScript(beneficiary);
    PrintedProofIsReadByTypeScript(proof);
    PrintedWordIsReadByTypeScript(ClaimsRoot(h, claims));
  }

  // ---------- what either accepts was committed ----------

  /** Five slots whose address parts are at most 32 bytes never have 64 bytes in all. */
  lemma {:induction false} BuilderRecordLength(chainId: int, attester: string, beneficiary: string, amount: int,
                                               epoch: int)
    requires BuilderEncode(chainId, attester, beneficiary, amount, epoch).Some?
    ensures var a, b := BuilderAddressWord(attester), BuilderAddressWord(beneficiary);
            a.Some? && b.Some?
            && |BuilderEncode(chainId, attester, beneficiary, amount, epoch).value| == 96 + |a.value| + |b.value|
            && |a.value| <= 32 && |b.value| <= 32
  {
    AddressWordLength(attester);
    AddressWordLength(beneficiary);
    hide BuilderAddressWord;
  }

  lemma {:induction false} AddressWordLength(s: string)
    ensures BuilderAddressWord(s).Some? ==> |BuilderAddressWord(s).value| <= 32
  {
    FromHexLength(DropPrefix("0x", Lower(s)));
  }

  lemma {:induction false} FromHexLength(s: string)
    ensures FromHex(s).Some? ==> 2 * |FromHex(s).value| <= |s|
  {
    if s != "" && AsciiSpace(s[0]) {
      FromHexLength(s[1..]);
    } else if |s| >= 2 {
      FromHexLength(s[2..]);
    }
  }

  /** The record names the claim: same numbers, same address words. */
  ghost predicate SameRecord(c: Claim, chainId: int, attester: string, beneficiary: string, amount: int, epoch: int) {
    c.chainId == chainId && c.amount == amount && c.epoch == epoch
    && BuilderAddressWord(attester) == Some(Zeros(12) + c.attester)
    && BuilderAddressWord(beneficiary) == Some(Zeros(12) + c.beneficiary)
  }

  lemma {:induction false} SlotsAreUnique(a: Word, b: Bytes, c: Bytes, d: Word, e: Word,
                                          p: Word, q: Word, r: Word, s: Word, t: Word)
    requires |b| <= 32 && |c| <= 32 && a + b + c + d + e == p + q + r + s + t
    ensures a == p && b == q && c == r && d == s && e == t
  {
    var x, y := a + b + c + d + e, p + q + r + s + t;
    assert |x| == 96 + |b| + |c| && |y| == 160;
    assert x[..32] == a && x[32..64] == b && x[64..96] == c && x[96..128] == d && x[128..] == e;
    assert y[..32] == p && y[32..64] == q && y[64..96] == r && y[96..128] == s && y[128..] == t;
  }

  lemma {:induction false} RecordNamesClaim(c: Claim, chainId: int, attester: string, beneficiary: string, amount: int,
                                            epoch: int)
    requires FitsSlots(c) && BuilderEncode(chainId, attester, beneficiary, amount, epoch) == Some(AbiEncode(c))
    ensures SameRecord(c, chainId, attester, beneficiary, amount, epoch)
  {
    BuilderRecordLength(chainId, attester, beneficiary, amount, epoch);
    hide BuilderAddressWord, ToBE, FromBE;
    var a, b := BuilderAddressWord(attester).value, BuilderAddressWord(beneficiary).value;
    SlotsAreUnique(ToBE(chainId, 32), a, b, ToBE(amount, 32), ToBE(epoch, 32), ToBE(c.chainId, 32),
                   Zeros(12) + c.attester, Zeros(12) + c.beneficiary, ToBE(c.amount, 32), ToBE(c.epoch, 32));
    SlotRoundTrip(chainId);
    SlotRoundTrip(c.chainId);
    SlotRoundTrip(amount);
    SlotRoundTrip(c.amount);
    SlotRoundTrip(epoch);
    SlotRoundTrip(c.epoch);
  }

  /**
   * Whatever arguments the Python library accepts against a built root, they name a committed
   * claim, or its proof yields a hash collision.
   */
  lemma {:induction false} PythonAcceptsCommitted(h: Hash, claims: seq<Claim>, chainId: int, attester: string,
                                                  beneficiary: string, amount: int, epoch: int, proof: seq<Bytes>)
    requires claims != [] && forall i :: 0 <= i < |claims| ==> FitsSlots(claims[i])
    requires PythonAnswer(h, BuilderEncode(chainId, attester, beneficiary, amount, epoch), proof, ClaimsRoot(h, claims))
             == Answer(true)
    ensures var record := BuilderEncode(chainId, attester, beneficiary, amount, epoch);
            record.Some? && |record.value| != 64
            && match JustifyRecord(h, claims, record.value, Words(proof))
               case Collision(x, y) => Collides(h, x, y)
               case Member(i) =>
                 i < |claims| && SameRecord(claims[i], chainId, attester, beneficiary, amount, epoch)
  {
    BuilderRecordLength(chainId, attester, beneficiary, amount, epoch);
    hide BuilderEncode, AbiEncode, Replay, ClaimsRoot, FitsSlots, JustifyRecord, SameRecord, BuilderAddressWord;
    var record := BuilderEncode(chainId, attester, beneficiary, amount, epoch).value;
    var e := JustifyRecord(h, claims, record, Words(proof));
    if e.Member? { RecordNamesClaim(claims[e.index], chainId, attester, beneficiary, amount, epoch); }
  }

  /** The same of the TypeScript verifier, for whatever texts it accepts. */
  lemma {:induction false} TypeScriptAcceptsCommitted(h: Hash, claims: seq<Claim>, chainId: int, attester: string,
                                                      beneficiary: string, amount: int, epoch: int,
                                                      proofHex: seq<string>, rootHex: string)
    requires claims != [] && forall i :: 0 <= i < |claims| ==> FitsSlots(claims[i])
    requires TypeScriptBytes(rootHex) == Some(ClaimsRoot(h, claims))
    requires TypeScriptAnswer(h, TypeScriptRecord(chainId, attester, beneficiary, amount, epoch), proofHex, rootHex)
             == Answer(true)
    ensures var a, b := TypeScriptBytes(attester), TypeScriptBytes(beneficiary);
            a.Some? && b.Some? && |a.value| == 20 && |b.value| == 20 && ReadSiblings(proofHex).Read?
            && chainId >= 0 && amount >= 0 && epoch >= 0
            && var c := Claim(chainId, a.value, b.value, amount, epoch);
               FitsSlots(c)
               && match Justify(h, claims, c, ReadSiblings(proofHex).words)
                  case Collision(x, y) => Collides(h, x, y)
                  case Member(i) => i < |claims| && claims[i] == c
  {
    hide AbiEncode, Replay, ClaimsRoot, TypeScriptBytes, ReadSiblings, Justify;
  }

  // ---------- what either refuses ----------

  /** The Python library says yes to one root only, and never with a root or sibling that is not a word. */
  lemma {:induction false} PythonRefuses(h: Hash, record: Option<Bytes>, proof: seq<Bytes>, root: Bytes, other: Bytes)
    ensures |root| != 32 ==> PythonAnswer(h, record, proof, root) == Answer(false)
    ensures (exists i :: 0 <= i < |proof| && |proof[i]| != 32) ==> PythonAnswer(h, record, proof, root) != Answer(true)
    ensures record.None? && |root| == 32 <==> PythonAnswer(h, record, proof, root) == Thrown
    ensures PythonAnswer(h, record, proof, root) == PythonAnswer(h, record, proof, other) == Answer(true) ==>
      root == other
  {
    hide Replay;
  }

  lemma {:induction false} LastSibling(proofHex: seq<string>, words: seq<Word>)
    requires |words| == |proofHex| > 0
    ensures var n := |words| - 1;
            ReadSiblings(proofHex) == Read(words) <==>
              ReadSiblings(proofHex[..n]) == Read(words[..n]) && TypeScriptBytes(proofHex[n]) == Some(words[n])
  {
    hide TypeScriptBytes;
    var n := |words| - 1;
    assert words == words[..n] + [words[n]];
    if ReadSiblings(proofHex) == Read(words) {
      assert ReadSiblings(proofHex[..n]).Read? && TypeScriptBytes(proofHex[n]).Some?;
      assert words == ReadSiblings(proofHex[..n]).words + [TypeScriptBytes(proofHex[n]).value];
    }
  }

  ghost predicate EachReads(proofHex: seq<string>, words: seq<Word>) {
    |words| == |proofHex| && forall i :: 0 <= i < |words| ==> TypeScriptBytes(proofHex[i]) == Some(words[i])
  }

  lemma EachReadsLast(proofHex: seq<string>, words: seq<Word>)
    requires |words| == |proofHex| > 0
    ensures var n := |words| - 1;
            EachReads(proofHex, words) <==>
              EachReads(proofHex[..n], words[..n]) && TypeScriptBytes(proofHex[n]) == Some(words[n])
  {
    hide TypeScriptBytes;
    var n := |words| - 1;
    assert forall i :: 0 <= i < n ==> proofHex[..n][i] == proofHex[i] && words[..n][i] == words[i];
    if EachReads(proofHex[..n], words[..n]) && TypeScriptBytes(proofHex[n]) == Some(words[n]) {
      forall i | 0 <= i < |words| ensures TypeScriptBytes(proofHex[i]) == Some(words[i]) {
        if i < n { assert TypeScriptBytes(proofHex[..n][i]) == Some(words[..n][i]); }
      }
    }
  }

  lemma {:induction false} SiblingsReadExactly(proofHex: seq<string>, words: seq<Word>)
    ensures ReadSiblings(proofHex) == Read(words) <==> EachReads(proofHex, words)
  {
    hide TypeScriptBytes;
    if |words| == |proofHex| > 0 {
      var n := |words| - 1;
      SiblingsReadExactly(proofHex[..n], words[..n]);
      LastSibling(proofHex, words);
      EachReadsLast(proofHex, words);
      hide ReadSiblings, EachReads;
    }
  }

  /** Neither does the TypeScript verifier, which throws on what it cannot read or encode. */
  lemma {:induction false} TypeScriptRefuses(h: Hash, record: Option<Bytes>, proofHex: seq<string>, rootHex: string,
                                             otherHex: string)
    ensures TypeScriptBytes(rootHex).None? ==> TypeScriptAnswer(h, record, proofHex, rootHex) == Thrown
    ensures TypeScriptBytes(rootHex).Some? && |TypeScriptBytes(rootHex).value| != 32 ==>
      TypeScriptAnswer(h, record, proofHex, rootHex) == Answer(false)
    ensures TypeScriptAnswer(h, record, proofHex, rootHex) == Answer(true) ==>
      record.Some? && ReadSiblings(proofHex).Read?
    ensures TypeScriptAnswer(h, record, proofHex, rootHex) == TypeScriptAnswer(h, record, proofHex, otherHex)
              == Answer(true) ==>
      TypeScriptBytes(rootHex) == TypeScriptBytes(otherHex)
  {
    hide Replay, TypeScriptBytes, ReadSiblings;
  }

  /** The first sibling that is not a word decides: unreadable text throws, another length is a no. */
  lemma {:induction false} FirstBadSiblingDecides(h: Hash, record: Bytes, proofHex: seq<string>, rootHex: string,
                                                  k: nat)
    requires TypeScriptBytes(rootHex).Some? && |TypeScriptBytes(rootHex).value| == 32 && k < |proofHex|
    requires ReadSiblings(proofHex[..k]).Read?
    requires var b := TypeScriptBytes(proofHex[k]); b.None? || |b.value| != 32
    ensures TypeScriptAnswer(h, Some(record), proofHex, rootHex)
            == if TypeScriptBytes(proofHex[k]).None? then Thrown else Answer(false)
  {
    hide TypeScriptBytes, Replay;
    assert proofHex[..k + 1][..k] == proofHex[..k];
    FirstBadSiblingStops(proofHex, k + 1);
  }
}
