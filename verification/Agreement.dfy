/** Accepted amounts stay in range, and exactly when the verdicts of two nodes are equal. */
module Agreement {
  import opened ByteStrings
  import opened Hex
  import opened Addresses
  import opened LeafEncoding
  import opened MerkleTree
  import opened ChainCodec
  import opened Published
  import opened Readings

  // ---------- the sum check closes the width gap ----------

  /** The claim a readable leaf stands for under a node's reading of the address; Go and WASM drop a sign. */
  function ClaimOf(node: Node, w: World, epoch: Epoch, lf: Leaf): Claim
    requires Readable(node, lf)
  {
    Claim(Abs(w.chainId) % TWO_256, w.attester, ReadAddress(node, lf.beneficiary).value, AmountOf(lf).value, epoch)
  }

  lemma {:induction false} SumBoundsAmounts(leaves: seq<Leaf>)
    requires forall i :: 0 <= i < |leaves| ==> AmountOf(leaves[i]).Some? && AmountOf(leaves[i]).value >= 0
    ensures SumOf(leaves) >= 0
    ensures forall i :: 0 <= i < |leaves| ==> AmountOf(leaves[i]).value <= SumOf(leaves)
  {
    if leaves != [] {
      var init := leaves[..|leaves| - 1];
      SumBoundsAmounts(init);
      forall i | 0 <= i < |leaves|
        ensures AmountOf(leaves[i]).value <= SumOf(leaves)
      {
        assert i < |init| ==> leaves[i] == init[i];
      }
    }
  }

  lemma RecordIsAbi(node: Node, w: World, epoch: Epoch, lf: Leaf)
    requires Readable(node, lf) && TakesChainId(node, w) && AmountOf(lf).value < TWO_128
    ensures InRange(ClaimOf(node, w, epoch, lf))
    ensures RecordOf(node, w, epoch, lf) == Some(AbiEncode(ClaimOf(node, w, epoch, lf)))
  {
    var c := ClaimOf(node, w, epoch, lf);
    hide AbiEncode, ReadAddress, GoEncode, WasmEncode;
    match node
    case Python => ModUnique(w.chainId, TWO_256, 0, w.chainId);
    case Go => GoReadsMagnitude(w.chainId, c.attester, c.beneficiary, c.amount, c.epoch);
    case Wasm => WasmReadsMagnitude(w.chainId, c.attester, c.beneficiary, c.amount, c.epoch);
  }

  lemma RecordNeedsChainId(node: Node, w: World, epoch: Epoch, lf: Leaf)
    requires Readable(node, lf) && RecordOf(node, w, epoch, lf).Some?
    ensures node.Python? || node.Wasm? ==> TakesChainId(node, w)
  {
  }

  /**
   * Go and WASM bound no amount by themselves. An accepted batch with a uint128 total is
   * still made of in-range claims, each hashed in its exact ABI form.
   */
  lemma AcceptedAmountsFit(node: Node, w: World, chain: ChainRecord, epoch: Epoch, dir: DataDir)
    requires Accepts(node, w, chain, epoch, dir)
    requires chain.totalKwh < TWO_128 && (node.Go? ==> TakesChainId(Go, w))
    ensures TakesChainId(node, w)
    ensures var leaves := LoadBatch(node, dir, epoch).value.leaves;
            forall i :: 0 <= i < |leaves| ==>
              Readable(node, leaves[i])
              && InRange(ClaimOf(node, w, epoch, leaves[i]))
              && RecordOf(node, w, epoch, leaves[i]) == Some(AbiEncode(ClaimOf(node, w, epoch, leaves[i])))
  {
    hide HashMatches, ReadAddress, LeafRecord, ReadProof, Replay, SignatureOk, LoadBatch, InRange, AbiEncode, SumOf;
    var leaves := LoadBatch(node, dir, epoch).value.leaves;
    SumBoundsAmounts(leaves);
    assert LeafOk(node, w, epoch, chain.root, leaves[0]);
    RecordNeedsChainId(node, w, epoch, leaves[0]);
    forall i | 0 <= i < |leaves|
      ensures Readable(node, leaves[i])
      ensures InRange(ClaimOf(node, w, epoch, leaves[i]))
      ensures RecordOf(node, w, epoch, leaves[i]) == Some(AbiEncode(ClaimOf(node, w, epoch, leaves[i])))
    {
      assert LeafOk(node, w, epoch, chain.root, leaves[i]);
      RecordIsAbi(node, w, epoch, leaves[i]);
    }
  }

  // ---------- carrying acceptance over ----------

  /** What the first node reads and the second does not: a chain id, another file, a field, or the signature. */
  predicate OnlyFor(from: Node, to: Node, w: World, dir: DataDir, epoch: Epoch) {
    (TakesChainId(from, w) && !TakesChainId(to, w))
    || LoadBatch(to, dir, epoch) != LoadBatch(from, dir, epoch)
    || (LoadBatch(from, dir, epoch).Some? && BatchOnlyFor(from, to, LoadBatch(from, dir, epoch).value))
    || SignatureOnlyFor(from, to, w, dir.attestation, dir.key)
  }

  /** A good in-range leaf is good for another node exactly outside the families. */
  lemma {:induction false} LeafCarriesOver(from: Node, to: Node, w: World, epoch: Epoch, root: Word, lf: Leaf)
    requires TakesChainId(to, w) && LeafOk(from, w, epoch, root, lf)
    requires RecordOf(from, w, epoch, lf) == Some(AbiEncode(ClaimOf(from, w, epoch, lf)))
    requires InRange(ClaimOf(from, w, epoch, lf))
    ensures LeafOk(to, w, epoch, root, lf) <==> !LeafOnlyFor(from, to, lf)
  {
    hide ReadAddress, ReadProof, HashMatches, Replay, AbiEncode, LeafRecord, RecordOf,
      HashOnlyFor, AddressOnlyFor, ItemOnlyFor;
    AddressCarriesOver(from, to, lf.beneficiary);
    ProofCarriesOver(from, to, lf.proof);
    HashCarriesOver(from, to, lf.leaf, w.h(AbiEncode(ClaimOf(from, w, epoch, lf))));
    if ReadAddress(to, lf.beneficiary).Some? { RecordIsAbi(to, w, epoch, lf); }
  }

  /** Of two nodes that load no different batches, the second accepts what the first does, exactly outside OnlyFor. */
  lemma {:induction false} AcceptanceCarriesOver(from: Node, to: Node, w: World, chain: ChainRecord, epoch: Epoch,
                                                 dir: DataDir)
    requires chain.totalKwh < TWO_128 && (from.Go? || to.Go? ==> TakesChainId(Go, w))
    requires LoadBatch(to, dir, epoch).Some? ==> LoadBatch(to, dir, epoch) == LoadBatch(from, dir, epoch)
    requires Accepts(from, w, chain, epoch, dir)
    ensures Accepts(to, w, chain, epoch, dir) <==> !OnlyFor(from, to, w, dir, epoch)
  {
    hide LeafOk, HashMatches, RecordOf, Readable, ClaimOf, SignatureOk, AbiEncode, SumOf, LoadBatch, InRange,
      LeafOnlyFor, HashOnlyFor, SignatureOnlyFor, TakesChainId;
    AcceptedAmountsFit(from, w, chain, epoch, dir);
    if Accepts(to, w, chain, epoch, dir) { AcceptedAmountsFit(to, w, chain, epoch, dir); }
    SignatureCarriesOver(from, to, w, dir.attestation, dir.key);
    var b := LoadBatch(from, dir, epoch).value;
    HashCarriesOver(from, to, b.root, chain.root);
    forall i | 0 <= i < |b.leaves| && TakesChainId(to, w)
      ensures LeafOk(to, w, epoch, chain.root, b.leaves[i]) <==> !LeafOnlyFor(from, to, b.leaves[i])
    {
      assert LeafOk(from, w, epoch, chain.root, b.leaves[i]);
      LeafCarriesOver(from, to, w, epoch, chain.root, b.leaves[i]);
    }
  }

  // ---------- when two verdicts are equal ----------

  /** One of the two nodes is Python, and its encoder's range error is reached and not caught. */
  ghost predicate RangeErrorEscapes(a: Node, b: Node, w: World, chain: ChainRecord, epoch: Epoch, dir: DataDir) {
    (a.Python? || b.Python?) && !w.rangeErrorCaught && ReachesRangeError(w, chain, epoch, dir)
  }

  /** The verdicts of a and b part: one accepts what only it reads, or the range error escapes. */
  ghost predicate Split(a: Node, b: Node, w: World, chain: ChainRecord, epoch: Epoch, dir: DataDir) {
    Finalized(chain)
    && ((Accepts(a, w, chain, epoch, dir) && OnlyFor(a, b, w, dir, epoch))
        || (Accepts(b, w, chain, epoch, dir) && OnlyFor(b, a, w, dir, epoch))
        || RangeErrorEscapes(a, b, w, chain, epoch, dir))
  }

  lemma {:induction false} AcceptedRaisesNothing(w: World, chain: ChainRecord, epoch: Epoch, dir: DataDir)
    requires Accepts(Python, w, chain, epoch, dir)
    ensures !ReachesRangeError(w, chain, epoch, dir)
  {
    hide TextMatches, NodeEncode, PythonAddress, Replay, ReadProof, SignatureOk, SumOf;
    var leaves := LoadBatch(Python, dir, epoch).value.leaves;
    forall i: nat ensures !RangeErrorAt(w, chain, epoch, leaves, i) {
      assert i < |leaves| ==> LeafOk(Python, w, epoch, chain.root, leaves[i]);
    }
  }

  /**
   * Two different nodes that load no different batches give equal verdicts exactly when they
   * do not split. No field of the batch, no file beside it and no amount is restricted.
   */
  lemma {:induction false} VerdictsAgreeExactly(a: Node, b: Node, w: World, chain: ChainRecord, epoch: Epoch,
                                                dir: DataDir)
    requires a != b && chain.totalKwh < TWO_128 && (a.Go? || b.Go? ==> TakesChainId(Go, w))
    requires LoadBatch(a, dir, epoch).Some? && LoadBatch(b, dir, epoch).Some? ==>
               LoadBatch(a, dir, epoch) == LoadBatch(b, dir, epoch)
    ensures VerdictOf(a, w, chain, epoch, dir) == VerdictOf(b, w, chain, epoch, dir)
            <==> !Split(a, b, w, chain, epoch, dir)
  {
    AcceptsLoads(a, w, chain, epoch, dir);
    AcceptsLoads(b, w, chain, epoch, dir);
    hide Accepts, ReachesRangeError, OnlyFor, LoadBatch;
    if Accepts(a, w, chain, epoch, dir) {
      AcceptanceCarriesOver(a, b, w, chain, epoch, dir);
      if a.Python? { AcceptedRaisesNothing(w, chain, epoch, dir); }
    }
    if Accepts(b, w, chain, epoch, dir) {
      AcceptanceCarriesOver(b, a, w, chain, epoch, dir);
      if b.Python? { AcceptedRaisesNothing(w, chain, epoch, dir); }
    }
  }

  lemma AcceptsLoads(node: Node, w: World, chain: ChainRecord, epoch: Epoch, dir: DataDir)
    ensures Accepts(node, w, chain, epoch, dir) ==> LoadBatch(node, dir, epoch).Some?
  {
    hide LeafOk, HashMatches, SignatureOk, LoadBatch;
  }

  /** The loaders of Python and Go agree exactly unless Python stops at a bad first file. */
  lemma LoadersAgreeExactly(dir: DataDir, epoch: Epoch)
    ensures LoadBatch(Python, dir, epoch) == LoadBatch(Go, dir, epoch)
            <==> !((dir.named.Garbage? || (dir.named.Json? && dir.named.batch.epoch != epoch))
                   && dir.generic.Json? && dir.generic.batch.epoch == epoch)
    ensures LoadBatch(Python, dir, epoch).Some? ==> LoadBatch(Python, dir, epoch) == LoadBatch(Go, dir, epoch)
  {
  }

  /** So on every directory the Python and Go verdicts are equal exactly when they do not split. */
  lemma {:induction false} PythonAndGoAgreeExactly(w: World, chain: ChainRecord, epoch: Epoch, dir: DataDir)
    requires chain.totalKwh < TWO_128 && TakesChainId(Go, w)
    ensures VerdictOf(Python, w, chain, epoch, dir) == VerdictOf(Go, w, chain, epoch, dir)
            <==> !Split(Python, Go, w, chain, epoch, dir)
  {
    LoadersAgreeExactly(dir, epoch);
    hide VerdictOf, Split, LoadBatch;
    VerdictsAgreeExactly(Python, Go, w, chain, epoch, dir);
  }

  /** Every amount in the file that Python loads fits a uint128. */
  predicate AmountsFit(dir: DataDir, epoch: Epoch) {
    LoadBatch(Python, dir, epoch).Some? ==>
      var leaves := LoadBatch(Python, dir, epoch).value.leaves;
      forall i :: 0 <= i < |leaves| && AmountOf(leaves[i]).Some? ==> AmountOf(leaves[i]).value < TWO_128
  }

  lemma SmallAmountsRaiseNothing(w: World, chain: ChainRecord, epoch: Epoch, dir: DataDir)
    requires TakesChainId(Python, w) && AmountsFit(dir, epoch)
    ensures !ReachesRangeError(w, chain, epoch, dir)
  {
    hide LoadBatch, TextMatches, LeafOk, ReadAddress, AbiEncode;
  }

  /**
   * What can be checked on the files, before any node judges them: nothing is read by one of
   * the two nodes only, and no amount is oversized. Then the verdicts are equal on any chain.
   */
  lemma {:induction false} SameReadingsSameVerdict(a: Node, b: Node, w: World, chain: ChainRecord, epoch: Epoch,
                                                   dir: DataDir)
    requires chain.totalKwh < TWO_128 && (a.Go? || b.Go? ==> TakesChainId(Go, w))
    requires !OnlyFor(a, b, w, dir, epoch) && !OnlyFor(b, a, w, dir, epoch)
    requires a.Python? || b.Python? ==> AmountsFit(dir, epoch)
    ensures VerdictOf(a, w, chain, epoch, dir) == VerdictOf(b, w, chain, epoch, dir)
  {
    hide VerdictOf, LoadBatch, BatchOnlyFor, SignatureOnlyFor, AmountsFit, ReachesRangeError, Accepts;
    if a != b {
      VerdictsAgreeExactly(a, b, w, chain, epoch, dir);
      if a.Python? || b.Python? { SmallAmountsRaiseNothing(w, chain, epoch, dir); }
    }
  }

  /** Both Go nodes judge under a negative chain id as under its magnitude; Python accepts nothing there. */
  lemma {:induction false} NegativeChainIdVerdict(node: Node, w: World, chain: ChainRecord, epoch: Epoch, dir: DataDir)
    requires w.chainId < 0
    ensures !node.Python? ==>
              VerdictOf(node, w, chain, epoch, dir) == VerdictOf(node, w.(chainId := -w.chainId), chain, epoch, dir)
    ensures node.Python? ==> !Accepts(Python, w, chain, epoch, dir)
  {
    hide HashMatches, ReadAddress, ReadProof, Replay, SignatureOk, LoadBatch, SumOf, GoEncode, WasmEncode, AbiEncode;
    var m := w.(chainId := -w.chainId);
    if LoadBatch(node, dir, epoch).Some? {
      var leaves := LoadBatch(node, dir, epoch).value.leaves;
      SignatureIgnoresChainId(node, w, m, dir.attestation, dir.key);
      forall i | 0 <= i < |leaves|
        ensures !node.Python? ==>
                  LeafOk(node, w, epoch, chain.root, leaves[i]) == LeafOk(node, m, epoch, chain.root, leaves[i])
        ensures node.Python? ==> !LeafOk(Python, w, epoch, chain.root, leaves[i])
      {
        if Readable(node, leaves[i]) {
          NegativeChainId(w.chainId, w.attester, ReadAddress(node, leaves[i].beneficiary).value,
                          AmountOf(leaves[i]).value, epoch);
        }
      }
      hide LeafOk;
      assert node.Python? && leaves != [] ==> !LeafOk(Python, w, epoch, chain.root, leaves[0]);
    }
  }

  lemma SignatureIgnoresChainId(node: Node, w: World, m: World, att: Attestation, key: PublicKey)
    requires m == w.(chainId := m.chainId)
    ensures SignatureOk(node, w, att, key) == SignatureOk(node, m, att, key)
  {
  }

  /**
   * Fed the chain's answer as bytes, the attester as text and, if anything, the file that the
   * native node loads, the browser build gives the native verdict exactly when they do not split.
   */
  lemma {:induction false} BrowserAgreesExactly(w: World, chain: ChainRecord, rest: Rest, tail: Bytes, attester: string,
                                                epoch: Epoch, dir: DataDir)
    requires chain.totalKwh < TWO_128 && chain.timestamp < TWO_64 && TakesChainId(Go, w)
    requires WasmAddress(attester) == Some(w.attester)
    requires LoadBatch(Wasm, dir, epoch).Some? ==> LoadBatch(Wasm, dir, epoch) == LoadBatch(Go, dir, epoch)
    ensures WasmVerdict(w, EncodeRecord(chain, rest) + tail, attester, epoch, dir)
              == VerdictOf(Go, w, chain, epoch, dir)
            <==> !Split(Go, Wasm, w, chain, epoch, dir)
  {
    hide VerdictOf, Split, DecodeBatches, EncodeRecord, WasmAddress, LoadBatch;
    RecordRoundTrip(chain, rest, tail);
    VerdictsAgreeExactly(Go, Wasm, w, chain, epoch, dir);
  }

  // ---------- the signature rules ----------

  /** The native and the browser rule differ exactly on half-published material and unchecked fields. */
  lemma {:induction false} GoWasmSignaturesAgreeExactly(w: World, att: Attestation, key: PublicKey)
    ensures SignatureOk(Go, w, att, key) == SignatureOk(Wasm, w, att, key) <==>
      !HalfPublished(att, key)
      && !(att.Attestation? && (att.alg != "ES256" || att.payload == "" || Lax(att, key))
           && SignatureChecks(Wasm, w, att.payload, HexToBytes(att.sigHex), key))
  {
    EmptyTextHasNoSignature();
    hide HexToBytes;
  }

  /**
   * The Python and native rules differ exactly on valid ES256 signatures over an empty payload,
   * with spaces between the digits or under a padded key, which pass Python, and on prefixed
   * ones, which pass Go.
   */
  lemma {:induction false} PythonGoSignaturesAgreeExactly(w: World, att: Attestation, key: PublicKey)
    ensures SignatureOk(Python, w, att, key) == SignatureOk(Go, w, att, key) <==>
      !(att.Attestation? && !att.lax && att.alg == "ES256"
        && (((att.payload == "" || HasSpace(TrimSpace(att.sigHex)) || Lax(att, key))
             && SignatureChecks(Python, w, att.payload, FromHex(att.sigHex), key))
            || (att.payload != "" && Prefixed(att.sigHex)
                && SignatureChecks(Go, w, att.payload, HexToBytes(att.sigHex), key))))
  {
    if att.Attestation? { SignatureReaders(att.sigHex); }
    EmptyTextHasNoSignature();
    hide FromHex, HexToBytes, TrimSpace, Lower, HasSpace;
  }

  /** A valid signature printed with "0x" passes the Go node and fails the Python node. */
  lemma {:induction false} PrefixedSignatureSplits(w: World, payload: string, sig: Bytes, id: int)
    requires payload != "" && |sig| == 64 && w.ecdsa(id, payload, sig)
    ensures var att := Attestation(payload, "0x" + HexOf(sig), "ES256", false);
            SignatureOk(Go, w, att, P256Key(id, false)) && !SignatureOk(Python, w, att, P256Key(id, false))
  {
    hide FromHex, HexToBytes, HexOf, TextMatches, Strip, TrimSpace, Lower, DropPrefix;
    PrintedHashParses(sig);
    PrefixedHasNoDigits("0x" + HexOf(sig));
  }

  /** A valid signature over an empty payload passes Python and WASM and fails Go. */
  lemma {:induction false} EmptyPayloadSplits(w: World, sig: Bytes, id: int)
    requires |sig| == 64 && w.ecdsa(id, "", sig)
    ensures var att := Attestation("", HexOf(sig), "ES256", false);
            SignatureOk(Python, w, att, P256Key(id, false)) && SignatureOk(Wasm, w, att, P256Key(id, false))
            && !SignatureOk(Go, w, att, P256Key(id, false))
  {
    hide FromHex, HexToBytes, HexOf;
    PrintedSignatureIsRead(sig);
  }

  /** A valid signature under another algorithm's name passes WASM only. */
  lemma {:induction false} OtherAlgorithmSplits(w: World, payload: string, alg: string, sig: Bytes, id: int)
    requires alg != "ES256" && |sig| == 64 && w.ecdsa(id, payload, sig)
    ensures var att := Attestation(payload, HexOf(sig), alg, false);
            SignatureOk(Wasm, w, att, P256Key(id, false))
            && !SignatureOk(Python, w, att, P256Key(id, false)) && !SignatureOk(Go, w, att, P256Key(id, false))
  {
    hide FromHex, HexToBytes, HexOf;
    PrintedSignatureIsRead(sig);
  }

  /** With a part of the signature material absent or blank only the WASM node goes on, whatever the other is. */
  lemma HalfSignatureSplits(w: World, att: Attestation, key: PublicKey)
    requires HalfPublished(att, key)
    ensures SignatureOk(Wasm, w, att, key)
    ensures !SignatureOk(Python, w, att, key) && !SignatureOk(Go, w, att, key)
  { }

  /** A valid signature in a lax attestation or under a padded key passes WASM and, at most under the key, Python. */
  lemma {:induction false} LaxSignatureSplits(w: World, payload: string, sig: Bytes, id: int, p: bool, q: bool)
    requires |sig| == 64 && w.ecdsa(id, payload, sig) && (p || q)
    ensures var att, key := Attestation(payload, HexOf(sig), "ES256", p), P256Key(id, q);
            SignatureOk(Wasm, w, att, key) && !SignatureOk(Go, w, att, key)
            && (SignatureOk(Python, w, att, key) <==> !p && w.pemSkipsPadding)
  {
    hide FromHex, HexToBytes, HexOf;
    PrintedSignatureIsRead(sig);
  }

  lemma {:induction false} PrintedSignatureIsRead(sig: Bytes)
    requires sig != []
    ensures FromHex(HexOf(sig)) == HexToBytes(HexOf(sig)) == Some(sig)
  {
    var x := HexOf(sig);
    DecodeHexOf(sig);
    PrintedHasNoPrefix(sig);
    hide HexOf, DecodeString, FromHex, Lower;
    TrimSpaceKeeps(x);
  }

  // ---------- where the nodes part ----------

  /**
   * The range error is reachable: an amount of 2^128 or more on the first leaf escapes the
   * Python node as an error, while Go, and WASM on the same file, raise the alarm.
   */
  lemma {:induction false} OverflowingAmountEscapes(w: World, chain: ChainRecord, epoch: Epoch, dir: DataDir)
    requires chain.totalKwh < TWO_128 && Finalized(chain) && !w.rangeErrorCaught
    requires LoadBatch(Python, dir, epoch).Some?
    requires LoadBatch(Wasm, dir, epoch).Some? ==> LoadBatch(Wasm, dir, epoch) == LoadBatch(Python, dir, epoch)
    requires var b := LoadBatch(Python, dir, epoch).value;
             TextMatches(b.root, chain.root) && b.leaves != []
             && Readable(Python, b.leaves[0]) && AmountOf(b.leaves[0]).value >= TWO_128
    ensures VerdictOf(Python, w, chain, epoch, dir) == Error
    ensures VerdictOf(Go, w, chain, epoch, dir) == VerdictOf(Wasm, w, chain, epoch, dir) == Alarm
  {
    var b := LoadBatch(Python, dir, epoch).value;
    LoadersAgreeExactly(dir, epoch);
    hide TextMatches, ReadAddress, LoadBatch;
    assert RangeErrorAt(w, chain, epoch, b.leaves, 0);
    assert ReachesRangeError(w, chain, epoch, dir);
    hide RecordOf, ReachesRangeError, RangeErrorAt, Readable;
    forall node: Node
      ensures LoadBatch(node, dir, epoch).None? || LoadBatch(node, dir, epoch) == Some(b) ==>
        !Accepts(node, w, chain, epoch, dir)
    {
      AcceptsLoads(node, w, chain, epoch, dir);
      if LoadBatch(node, dir, epoch) == Some(b) { OversizedIsNotAccepted(node, w, chain, epoch, dir); }
    }
    hide Accepts;
  }

  lemma {:induction false} OversizedIsNotAccepted(node: Node, w: World, chain: ChainRecord, epoch: Epoch, dir: DataDir)
    requires chain.totalKwh < TWO_128 && LoadBatch(node, dir, epoch).Some?
    requires var leaves := LoadBatch(node, dir, epoch).value.leaves;
             leaves != [] && AmountOf(leaves[0]).Some? && AmountOf(leaves[0]).value >= TWO_128
    ensures !Accepts(node, w, chain, epoch, dir)
  {
    hide HashMatches, ReadAddress, RecordOf, ReadProof, Replay, SignatureOk, LoadBatch, SumOf;
    var leaves := LoadBatch(node, dir, epoch).value.leaves;
    if forall i :: 0 <= i < |leaves| ==> LeafOk(node, w, epoch, chain.root, leaves[i]) {
      SumBoundsAmounts(leaves);
    }
  }
}
