/** What a verdict tells about the files and the chain, in plain terms. */
module Verdicts {
  import opened ByteStrings
  import opened Hex
  import opened Addresses
  import opened LeafEncoding
  import opened MerkleTree
  import opened Inclusion
  import opened ChainCodec
  import opened Published
  import opened Readings
  import opened Agreement

  // ---------- the readings ----------

  /** A file is used exactly if it is for the epoch and the node's candidate order comes to it. */
  lemma LoadsExactly(dir: DataDir, epoch: Epoch, b: Batch)
    ensures LoadBatch(Python, dir, epoch) == Some(b) <==>
      b.epoch == epoch && (dir.named == Json(b) || (dir.named.Absent? && dir.generic == Json(b)))
    ensures LoadBatch(Go, dir, epoch) == Some(b) <==>
      b.epoch == epoch
      && (dir.named == Json(b)
          || (dir.generic == Json(b) && !(dir.named.Json? && dir.named.batch.epoch == epoch)))
    ensures LoadBatch(Wasm, dir, epoch) == Some(b) <==> b.epoch == epoch && dir.generic == Json(b)
  {
  }

  /** A published hash is taken exactly where, trimmed and in lower case, it prints the word. */
  lemma {:induction false} HashReadsExactly(node: Node, s: string, w: Word)
    ensures var t := Lower(if node.Python? then Strip(s) else TrimSpace(s));
            HashMatches(node, s, w) <==> t == HexOf(w) || t == "0x" + HexOf(w)
  {
    HexToBytesReads(s, w);
    TextMatchesReads(s, w);
    hide HexToBytes, TextMatches, Strip, TrimSpace, Lower, HexOf;
  }

  /** A proof is read exactly as the words its items are read as, in order. */
  lemma {:induction false} ProofReadsExactly(node: Node, proof: seq<string>, words: seq<Word>)
    ensures ReadProof(node, proof) == Some(words) <==>
      |words| == |proof| && forall i :: 0 <= i < |proof| ==> ReadSibling(node, proof[i]) == Some(words[i])
  {
    hide ReadSibling;
    if proof != [] {
      var n := |proof| - 1;
      if |words| == |proof| {
        ProofReadsExactly(node, proof[..n], words[..n]);
        assert words == words[..n] + [words[n]];
      }
    }
  }

  /** The chain ids a node takes: any of 256 bits, with a sign for Go, and everything for WASM. */
  lemma ChainIdsTaken(w: World)
    ensures TakesChainId(Python, w) <==> 0 <= w.chainId < TWO_256
    ensures TakesChainId(Go, w) <==> w.chainId + TWO_256 > 0 && w.chainId < TWO_256
    ensures TakesChainId(Wasm, w)
  {
  }

  lemma SumOfLeaves(leaves: seq<Leaf>, lf: Leaf)
    ensures SumOf([]) == 0
    ensures AmountOf(lf).Some? ==> SumOf(leaves + [lf]) == SumOf(leaves) + AmountOf(lf).value
  {
    assert (leaves + [lf])[..|leaves|] == leaves;
  }

  // ---------- one leaf ----------

  /** The claim of a leaf: amount_wei counts before amount, and a sign of the chain id is dropped. */
  lemma {:induction false} ClaimFields(node: Node, w: World, epoch: Epoch, lf: Leaf)
    requires Readable(node, lf)
    ensures var c := ClaimOf(node, w, epoch, lf);
            c.chainId == (if w.chainId < 0 then -w.chainId else w.chainId) % TWO_256
            && c.attester == w.attester && ReadAddress(node, lf.beneficiary) == Some(c.beneficiary)
            && (if lf.amountWei.Some? then lf.amountWei else lf.amount) == Some(c.amount)
            && c.epoch == epoch
  {
    hide ReadAddress;
  }

  /**
   * Whichever encoder a node has, a leaf is good exactly if it is readable and its claim
   * hashes in ABI form to the published hash and from there along the siblings to the root.
   */
  lemma {:induction false} GoodLeafExactly(node: Node, w: World, epoch: Epoch, root: Word, lf: Leaf)
    requires TakesChainId(node, w) && (AmountOf(lf).Some? ==> AmountOf(lf).value < TWO_128)
    ensures LeafOk(node, w, epoch, root, lf) <==>
      Readable(node, lf)
      && var leaf := w.h(AbiEncode(ClaimOf(node, w, epoch, lf)));
         HashMatches(node, lf.leaf, leaf) && ReadProof(node, lf.proof).Some?
         && Replay(w.h, leaf, ReadProof(node, lf.proof).value) == root
  {
    assert Readable(node, lf) ==> AmountOf(lf).Some?;
    hide TakesChainId, HashMatches, ReadAddress, ReadProof, Replay, RecordOf, Readable, AbiEncode, ClaimOf, InRange;
    if Readable(node, lf) { RecordIsAbi(node, w, epoch, lf); }
  }

  /** A leaf is readable exactly with an amount, not negative, and an address. */
  lemma ReadableExactly(node: Node, lf: Leaf)
    ensures Readable(node, lf) <==>
      (if lf.amountWei.Some? then lf.amountWei.value >= 0 else lf.amount.Some? && lf.amount.value >= 0)
      && ReadAddress(node, lf.beneficiary).Some?
  {
  }

  /** The published hash binds the claim: two good leaves that publish one hash make one claim, or collide. */
  lemma {:induction false} LeafHashBindsClaim(node: Node, w: World, epoch: Epoch, root: Word, lf: Leaf, other: Leaf)
    requires TakesChainId(node, w) && lf.leaf == other.leaf
    requires LeafOk(node, w, epoch, root, lf) && LeafOk(node, w, epoch, root, other)
    requires AmountOf(lf).value < TWO_128 && AmountOf(other).value < TWO_128
    ensures var c, d := ClaimOf(node, w, epoch, lf), ClaimOf(node, w, epoch, other);
            c == d || Collides(w.h, AbiEncode(c), AbiEncode(d))
  {
    RecordIsAbi(node, w, epoch, lf);
    RecordIsAbi(node, w, epoch, other);
    var c, d := ClaimOf(node, w, epoch, lf), ClaimOf(node, w, epoch, other);
    InRangeFits(c);
    InRangeFits(d);
    AbiInjective(c, d);
    MatchDeterminesHash(node, lf.leaf, w.h(AbiEncode(c)), w.h(AbiEncode(d)));
    hide ReadAddress, HashMatches, AbiEncode, ReadProof, Replay, LeafRecord, TakesChainId, InRange, FitsSlots;
  }

  lemma {:induction false} MatchDeterminesHash(node: Node, s: string, v: Word, w: Word)
    requires HashMatches(node, s, v) && HashMatches(node, s, w)
    ensures v == w
  {
    HexComparisonsAgree(s, v);
    HexComparisonsAgree(s, w);
    HashReadsExactly(node, s, v);
    HashReadsExactly(node, s, w);
    DecodeHexOf(v);
    DecodeHexOf(w);
    PrintedHasNoPrefix(v);
    PrintedHasNoPrefix(w);
    assert ("0x" + HexOf(v))[2..] == HexOf(v) && ("0x" + HexOf(w))[2..] == HexOf(w);
    hide HashMatches, DecodedMatches, TextMatches, Strip, TrimSpace, Lower, HexOf, DecodeString, FromHex;
  }

  // ---------- the verdict ----------

  /** SKIP is for epochs not proposed or not finalized, and for nothing else; only Python can end in an error. */
  lemma VerdictKinds(node: Node, w: World, chain: ChainRecord, epoch: Epoch, dir: DataDir)
    ensures var v := VerdictOf(node, w, chain, epoch, dir);
            (v == Skip <==> chain.timestamp == 0 || !chain.finalized)
            && (v == Error ==> node.Python? && !w.rangeErrorCaught)
  {
    hide Accepts, ReachesRangeError;
  }

  /**
   * The cases of the parity test, on a finalized epoch: no file for it, no leaves, another
   * root, a total that is not the sum, or a leaf without a usable amount, address or hash.
   * No node says OK or SKIP, and without a leaf to encode every node says ALARM.
   */
  lemma {:induction false} FailsClosed(node: Node, w: World, chain: ChainRecord, epoch: Epoch, dir: DataDir)
    requires chain.timestamp != 0 && chain.finalized
    ensures var v := VerdictOf(node, w, chain, epoch, dir);
            var file := LoadBatch(node, dir, epoch);
            (file.None? ==> v == Alarm)
            && (file.Some? ==>
                  (file.value.leaves == [] ==> v == Alarm)
                  && (!HashMatches(node, file.value.root, chain.root) ==> v == Alarm)
                  && (SumOf(file.value.leaves) != chain.totalKwh ==> v == Alarm || v == Error)
                  && (!SignatureOk(node, w, dir.attestation, dir.key) ==> v == Alarm || v == Error)
                  && forall i :: 0 <= i < |file.value.leaves| ==>
                       var lf := file.value.leaves[i];
                       lf.leaf == "" || (lf.amountWei.None? && lf.amount.None?)
                       || (lf.amountWei.Some? && lf.amountWei.value < 0) || ReadAddress(node, lf.beneficiary).None? ==>
                         v == Alarm || v == Error)
  {
    hide LoadBatch, ReadAddress, RecordOf, ReadProof, Replay, SignatureOk, SumOf;
    if LoadBatch(node, dir, epoch).Some? {
      EmptyTextIsNoHash(node);
      hide HashMatches;
      var b := LoadBatch(node, dir, epoch).value;
      forall i | 0 <= i < |b.leaves| && LeafOk(node, w, epoch, chain.root, b.leaves[i])
        ensures b.leaves[i].leaf != "" && Readable(node, b.leaves[i])
      {
      }
      assert Python.Python? && TextMatches(b.root, chain.root) <==> HashMatches(Python, b.root, chain.root);
      if b.leaves == [] { assert !exists i: nat :: RangeErrorAt(w, chain, epoch, b.leaves, i); }
    }
  }

  lemma EmptyTextIsNoHash(node: Node)
    ensures forall w: Word :: !HashMatches(node, "", w)
  {
  }

  /** The files that a node accepts fix the root and the total that the chain must hold. */
  lemma {:induction false} AcceptanceFixesCommitment(node: Node, w: World, epoch: Epoch, dir: DataDir,
                                                     chain: ChainRecord, other: ChainRecord)
    requires VerdictOf(node, w, chain, epoch, dir) == VerdictOf(node, w, other, epoch, dir) == Ok
    ensures chain.root == other.root && chain.totalKwh == other.totalKwh
  {
    hide LoadBatch, LeafOk, HashMatches, SignatureOk, SumOf, ReachesRangeError;
    MatchDeterminesHash(node, LoadBatch(node, dir, epoch).value.root, chain.root, other.root);
  }

  // ---------- the signature ----------

  /** No material passes; a broken part, with the other there, passes nowhere; what passes in print is what verifies. */
  lemma {:induction false} SignatureIsJudged(node: Node, w: World, payload: string, sig: Bytes, id: int)
    requires payload != ""
    ensures SignatureOk(node, w, NoAttestation, NoKey)
    ensures !SignatureOk(node, w, BadAttestation, P256Key(id, false))
    ensures !SignatureOk(node, w, Attestation(payload, HexOf(sig), "ES256", false), BadKey)
    ensures SignatureOk(node, w, Attestation(payload, HexOf(sig), "ES256", false), P256Key(id, false))
            <==> |sig| == 64 && w.ecdsa(id, payload, sig)
  {
    if sig != [] { PrintedSignatureIsRead(sig); } else { EmptyTextHasNoSignature(); }
    hide FromHex, HexToBytes;
  }

  /** Whatever its text, an attestation that is not skipped passes only with 64 bytes that verify. */
  lemma {:induction false} PassedSignatureVerifies(node: Node, w: World, att: Attestation, key: PublicKey)
    returns (sig: Bytes)
    requires SignatureOk(node, w, att, key) && att.Attestation? && key.P256Key?
    ensures |sig| == 64 && w.ecdsa(key.id, att.payload, sig)
    ensures (if node.Python? then FromHex(att.sigHex) else HexToBytes(att.sigHex)) == Some(sig)
    ensures !node.Wasm? ==> att.alg == "ES256"
  {
    hide FromHex, HexToBytes;
    sig := (if node.Python? then FromHex(att.sigHex) else HexToBytes(att.sigHex)).value;
  }

  // ---------- the browser ----------

  /**
   * The browser build skips exactly on an attester text that prints no address, on a short
   * answer, and on an answer with a zero timestamp or a zero flag word.
   */
  lemma {:induction false} BrowserSkipsExactly(w: World, raw: Bytes, attester: string, epoch: Epoch, dir: DataDir)
    ensures var t := Lower(TrimSpace(attester));
            WasmVerdict(w, raw, attester, epoch, dir) == Skip <==>
              (forall a: Address :: t != HexOf(a) && t != "0x" + HexOf(a))
              || |raw| < 256
              || (forall i :: 120 <= i < 128 ==> raw[i] == 0)
              || (forall i :: 160 <= i < 192 ==> raw[i] == 0)
  {
    AddressTextExactly(attester);
    if |raw| >= 256 { ZeroFields(raw); }
    if WasmAddress(attester).Some? && |raw| >= 256 {
      var u, chain := w.(attester := WasmAddress(attester).value), DecodeBatches(raw).value;
      VerdictKinds(Wasm, u, chain, epoch, dir);
    }
    hide VerdictOf, WasmAddress, TrimSpace, Lower, HexOf, DecodeBatches;
  }

  lemma {:induction false} AddressTextExactly(s: string)
    ensures var t := Lower(TrimSpace(s));
            WasmAddress(s).None? <==> forall a: Address :: t != HexOf(a) && t != "0x" + HexOf(a)
  {
    forall a: Address
      ensures HexToBytes(s) == Some(a) <==> Lower(TrimSpace(s)) == HexOf(a) || Lower(TrimSpace(s)) == "0x" + HexOf(a)
    {
      HexToBytesReads(s, a);
    }
    hide HexToBytes, TrimSpace, Lower, HexOf;
    if WasmAddress(s).Some? {
      HexToBytesReads(s, WasmAddress(s).value);
    }
  }

  lemma {:induction false} ZeroFields(raw: Bytes)
    requires |raw| >= 256
    ensures var r := DecodeBatches(raw).value;
            (r.timestamp == 0 <==> forall i :: 120 <= i < 128 ==> raw[i] == 0)
            && (r.finalized <==> exists i :: 160 <= i < 192 && raw[i] != 0)
  {
    AnswerLayout(raw);
    ZeroWritesZero(raw[120..128]);
    hide DecodeBatches, FromBE;
    assert forall i :: 120 <= i < 128 ==> raw[120..128][i - 120] == raw[i];
  }

  /** On the encoded record of a chain it skips where the other nodes do. */
  lemma {:induction false} BrowserSkipsOnRecord(w: World, chain: ChainRecord, rest: Rest, tail: Bytes, attester: string,
                                                epoch: Epoch, dir: DataDir)
    requires chain.totalKwh < TWO_128 && chain.timestamp < TWO_64 && WasmAddress(attester).Some?
    ensures WasmVerdict(w, EncodeRecord(chain, rest) + tail, attester, epoch, dir) == Skip
            <==> chain.timestamp == 0 || !chain.finalized
  {
    RecordRoundTrip(chain, rest, tail);
    hide EncodeRecord, DecodeBatches, WasmAddress, Accepts;
  }

  /** It derives every leaf for the attester it was given as text, whatever attester the other nodes serve. */
  lemma {:induction false} BrowserJudgesItsAttester(w: World, chain: ChainRecord, rest: Rest, tail: Bytes, a: Address,
                                                    epoch: Epoch, dir: DataDir)
    requires chain.totalKwh < TWO_128 && chain.timestamp < TWO_64
    ensures WasmVerdict(w, EncodeRecord(chain, rest) + tail, "0x" + HexOf(a), epoch, dir)
            == VerdictOf(Wasm, w.(attester := a), chain, epoch, dir)
  {
    hide EncodeRecord, DecodeBatches, HexToBytes, HexOf, VerdictOf, Lower, Strip, TrimSpace, TextMatches;
    RecordRoundTrip(chain, rest, tail);
    PrintedHashParses(a);
  }

  // ---------- the range error ----------

  lemma RangeErrorExactly(w: World, epoch: Epoch, lf: Leaf)
    requires Readable(Python, lf)
    ensures RecordOf(Python, w, epoch, lf).None? <==>
      !(0 <= w.chainId < TWO_256) || (if lf.amountWei.Some? then lf.amountWei else lf.amount).value >= TWO_128
  {
    hide PythonAddress;
  }

  /** Leaf i, behind good leaves only, can be read and not encoded. */
  ghost predicate TooLargeAt(w: World, chain: ChainRecord, epoch: Epoch, leaves: seq<Leaf>, i: nat) {
    i < |leaves| && Readable(Python, leaves[i])
    && (forall j :: 0 <= j < i ==> LeafOk(Python, w, epoch, chain.root, leaves[j]))
    && (!(0 <= w.chainId < TWO_256) || AmountOf(leaves[i]).value >= TWO_128)
  }

  /**
   * The error leaves the Python node exactly if it is not caught and, under a matching root,
   * the first leaf that is not good is readable and too large to encode, or the chain id is.
   */
  lemma {:induction false} PythonErrsExactly(w: World, chain: ChainRecord, epoch: Epoch, dir: DataDir)
    requires chain.timestamp != 0 && chain.finalized && LoadBatch(Python, dir, epoch).Some?
    ensures var b := LoadBatch(Python, dir, epoch).value;
            VerdictOf(Python, w, chain, epoch, dir) == Error <==>
              !w.rangeErrorCaught && HashMatches(Python, b.root, chain.root)
              && exists i: nat :: TooLargeAt(w, chain, epoch, b.leaves, i)
  {
    var b := LoadBatch(Python, dir, epoch).value;
    AcceptedOrErring(w, chain, epoch, dir);
    hide Accepts, LoadBatch, TextMatches;
    forall i: nat | i < |b.leaves| && Readable(Python, b.leaves[i])
      ensures RecordOf(Python, w, epoch, b.leaves[i]).None? <==>
        !(0 <= w.chainId < TWO_256) || AmountOf(b.leaves[i]).value >= TWO_128
    {
      RangeErrorExactly(w, epoch, b.leaves[i]);
    }
    hide LeafOk, RecordOf, Readable;
    assert forall i: nat :: TooLargeAt(w, chain, epoch, b.leaves, i) <==> RangeErrorAt(w, chain, epoch, b.leaves, i);
  }

  lemma AcceptedOrErring(w: World, chain: ChainRecord, epoch: Epoch, dir: DataDir)
    ensures Accepts(Python, w, chain, epoch, dir) ==> !ReachesRangeError(w, chain, epoch, dir)
  {
    if Accepts(Python, w, chain, epoch, dir) { AcceptedRaisesNothing(w, chain, epoch, dir); }
    hide Accepts, ReachesRangeError;
  }
}
