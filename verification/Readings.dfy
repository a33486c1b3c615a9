/**
 * Where the readings of two nodes part. Each family is a property of the published text
 * alone; given that one node reads a field, it says whether another node reads it too.
 */
module Readings {
  import opened ByteStrings
  import opened Hex
  import opened Addresses
  import opened MerkleTree
  import opened ChainCodec
  import opened Published

  // ---------- the families ----------

  /** Trimmed, the text starts with a prefix in either case. */
  predicate Prefixed(s: string) { "0x" <= Lower(TrimSpace(s)) }

  predicate LeadingSpace(s: string) { s != "" && AsciiSpace(s[0]) }

  /**
   * Proof items that the first node may read and the second cannot: Python skips spaces inside,
   * and misses a prefix behind them.
   */
  predicate ItemOnlyFor(from: Node, to: Node, s: string) {
    if from.Python? then !to.Python? && HasSpace(TrimSpace(s))
    else to.Python? && LeadingSpace(s) && Prefixed(s)
  }

  predicate AddressOnlyFor(from: Node, to: Node, s: string) {
    match to
    case Python => !from.Python? && (TrimSpace(s) != s || "0x0X" <= s)
    case Wasm => from.Go? && "0x0X" <= TrimSpace(s)
    case Go => false
  }

  predicate HashOnlyFor(from: Node, to: Node, s: string) {
    from.Python? && !to.Python? && SeparatorEdge(s)
  }

  predicate LeafOnlyFor(from: Node, to: Node, lf: Leaf) {
    HashOnlyFor(from, to, lf.leaf) || AddressOnlyFor(from, to, lf.beneficiary)
    || exists i :: 0 <= i < |lf.proof| && ItemOnlyFor(from, to, lf.proof[i])
  }

  predicate BatchOnlyFor(from: Node, to: Node, b: Batch) {
    HashOnlyFor(from, to, b.root) || exists i :: 0 <= i < |b.leaves| && LeafOnlyFor(from, to, b.leaves[i])
  }

  /** Some part is absent or blank, but not both absent: WASM skips the check, the others refuse. */
  predicate HalfPublished(att: Attestation, key: PublicKey) {
    (att.NoAttestation? || att.BlankAttestation? || key.NoKey? || key.BlankKey?)
    && !(att.NoAttestation? && key.NoKey?)
  }

  /** Both parts can be read, one of them not by every node. */
  predicate Lax(att: Attestation, key: PublicKey) {
    att.Attestation? && key.P256Key? && (att.lax || key.padded)
  }

  /**
   * Signature material that passes the first node and cannot pass the second: WASM goes on
   * with half of it, trims what it reads and asks for no field or algorithm, only Go wants a
   * payload, Python reads spaces between the signature's digits but no prefix.
   */
  predicate SignatureOnlyFor(from: Node, to: Node, w: World, att: Attestation, key: PublicKey) {
    (from.Wasm? && !to.Wasm? && HalfPublished(att, key))
    || (att.Attestation?
        && ((Lax(att, key) && !(ReadsAttestation(to, att) && ReadsKey(to, w, key)))
            || (from.Wasm? && !to.Wasm? && att.alg != "ES256")
            || (!from.Go? && to.Go? && att.payload == "")
            || (from.Python? && !to.Python? && HasSpace(TrimSpace(att.sigHex)))
            || (!from.Python? && to.Python? && Prefixed(att.sigHex))))
  }

  // ---------- field by field ----------

  lemma {:induction false} HashCarriesOver(from: Node, to: Node, s: string, w: Word)
    requires HashMatches(from, s, w)
    ensures HashMatches(to, s, w) <==> !HashOnlyFor(from, to, s)
  {
    HexComparisonsAgree(s, w);
    hide TextMatches, DecodedMatches, SeparatorEdge;
  }

  lemma {:induction false} AddressCarriesOver(from: Node, to: Node, s: string)
    requires ReadAddress(from, s).Some?
    ensures ReadAddress(to, s).Some? <==> !AddressOnlyFor(from, to, s)
    ensures ReadAddress(to, s).Some? ==> ReadAddress(to, s) == ReadAddress(from, s)
  {
    PythonAgainstGo(s);
    WasmAgainstGo(s);
    hide PythonAddress, GoAddress, WasmAddress, TrimSpace;
  }

  lemma {:induction false} ItemCarriesOver(from: Node, to: Node, s: string)
    requires ReadSibling(from, s).Some?
    ensures ReadSibling(to, s).Some? <==> !ItemOnlyFor(from, to, s)
    ensures ReadSibling(to, s).Some? ==> ReadSibling(to, s) == ReadSibling(from, s)
  {
    ProofItemReaders(s);
    hide EngineBytes, HexToBytes, TrimSpace, Lower, HasSpace;
  }

  lemma {:induction false} ProofCarriesOver(from: Node, to: Node, proof: seq<string>)
    requires ReadProof(from, proof).Some?
    ensures ReadProof(to, proof).Some? <==> !exists i :: 0 <= i < |proof| && ItemOnlyFor(from, to, proof[i])
    ensures ReadProof(to, proof).Some? ==> ReadProof(to, proof) == ReadProof(from, proof)
  {
    hide ReadSibling, ItemOnlyFor;
    if proof != [] {
      var n := |proof| - 1;
      ProofCarriesOver(from, to, proof[..n]);
      ItemCarriesOver(from, to, proof[n]);
      assert forall i :: 0 <= i < n ==> proof[..n][i] == proof[i];
    }
  }

  /** Signature material that passes one node passes another exactly outside the family. */
  lemma {:induction false} SignatureCarriesOver(from: Node, to: Node, w: World, att: Attestation, key: PublicKey)
    requires SignatureOk(from, w, att, key)
    ensures SignatureOk(to, w, att, key) <==> !SignatureOnlyFor(from, to, w, att, key)
  {
    if att.Attestation? { SignatureReaders(att.sigHex); }
    EmptyTextHasNoSignature();
    hide FromHex, HexToBytes, TrimSpace, Lower, HasSpace;
  }

  lemma EmptyTextHasNoSignature()
    ensures FromHex("") == HexToBytes("") == Some([])
  {
  }
}
