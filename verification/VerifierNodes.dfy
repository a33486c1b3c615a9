/**
 * The three watchdog nodes as they run: early returns, accumulating loops and, in Python,
 * exceptions. Each is proved to return the verdict that Published states.
 */
module VerifierNodes {
  import opened ByteStrings
  import opened Hex
  import opened Addresses
  import opened LeafEncoding
  import opened MerkleTree
  import opened ChainCodec
  import opened Published

  /** EncodingError is the range error of the ABI encoder. */
  datatype Exception = MalformedBatch | SystemExit | ValueError | EncodingError

  datatype Outcome<+T> = Returned(value: T) | Raised(error: Exception) {
    predicate IsFailure() { Raised? }
    function PropagateFailure<U>(): Outcome<U>
      requires Raised?
    { Raised(error) }
    function Extract(): T
      requires Returned?
    { value }
  }

  // ---------- proof replay ----------

  lemma {:induction false} ProofPrefixReads(node: Node, proof: seq<string>, k: nat)
    requires k <= |proof| && ReadProof(node, proof).Some?
    ensures ReadProof(node, proof[..k]).Some?
  {
    hide ReadSibling;
    if k == |proof| {
      assert proof[..k] == proof;
    } else {
      var init := proof[..|proof| - 1];
      ProofPrefixReads(node, init, k);
      assert init[..k] == proof[..k];
    }
  }

  lemma ProofGrows(node: Node, proof: seq<string>, i: nat)
    requires i < |proof|
    ensures ReadProof(node, proof[..i + 1]) ==
            if ReadProof(node, proof[..i]).None? || ReadSibling(node, proof[i]).None? then None
            else Some(ReadProof(node, proof[..i]).value + [ReadSibling(node, proof[i]).value])
    ensures ReadProof(node, proof[..i + 1]).None? ==> ReadProof(node, proof).None?
  {
    assert proof[..i + 1][..i] == proof[..i];
    if ReadProof(node, proof).Some? { ProofPrefixReads(node, proof, i + 1); }
  }

  /** _verify_merkle_proof_impl: parse everything, then fold the siblings. */
  method EngineVerifyMerkle(h: Hash, leafHex: string, proofHex: seq<string>, rootHex: string)
    returns (r: Outcome<bool>)
    ensures var leaf, root := AsWord(EngineBytes(leafHex)), AsWord(EngineBytes(rootHex));
            var proof := ReadProof(Python, proofHex);
            r == if leaf.None? || root.None? || proof.None? then Raised(SystemExit)
                 else Returned(Replay(h, leaf.value, proof.value) == root.value)
  {
    var leaf, root := AsWord(EngineBytes(leafHex)), AsWord(EngineBytes(rootHex));
    if leaf.None? || root.None? { return Raised(SystemExit); }
    var proof: seq<Word> := [];
    for i := 0 to |proofHex|
      invariant ReadProof(Python, proofHex[..i]) == Some(proof)
    {
      ProofGrows(Python, proofHex, i);
      var sibling := ReadSibling(Python, proofHex[i]);
      if sibling.None? { return Raised(SystemExit); }
      proof := proof + [sibling.value];
    }
    assert proofHex[..|proofHex|] == proofHex;
    var computed: Word := leaf.value;
    for i := 0 to |proof|
      invariant computed == Replay(h, leaf.value, proof[..i])
    {
      assert proof[..i + 1][..i] == proof[..i];
      var pair := if Less(computed, proof[i]) then computed + proof[i] else proof[i] + computed;
      computed := h(pair);
    }
    assert proof[..|proof|] == proof;
    r := Returned(computed == root.value);
  }

  /** verifyMerkle of the Go and WASM nodes: parse and fold in one pass; None is an error. */
  method GoVerifyMerkle(node: Node, h: Hash, leaf: Word, proofHex: seq<string>, root: Word) returns (r: Option<bool>)
    requires !node.Python?
    ensures var proof := ReadProof(node, proofHex);
            r == if proof.None? then None else Some(Replay(h, leaf, proof.value) == root)
  {
    hide HexToBytes, Less;
    var acc: Word := leaf;
    ghost var proof: seq<Word> := [];
    for i := 0 to |proofHex|
      invariant ReadProof(node, proofHex[..i]) == Some(proof)
      invariant acc == Replay(h, leaf, proof)
    {
      ProofGrows(node, proofHex, i);
      var p := HexToBytes(proofHex[i]);
      if p.None? || |p.value| != 32 { return None; }
      var lo, hi := if Less(acc, p.value) then acc else p.value, if Less(acc, p.value) then p.value else acc;
      assert (proof + [p.value])[..|proof|] == proof;
      acc := h(lo + hi);
      proof := proof + [p.value];
    }
    assert proofHex[..|proofHex|] == proofHex;
    r := Some(acc == root);
  }

  // ---------- leaf totals ----------

  lemma SumGrows(leaves: seq<Leaf>, i: nat)
    requires i < |leaves| && AmountOf(leaves[i]).Some?
    ensures SumOf(leaves[..i + 1]) == SumOf(leaves[..i]) + AmountOf(leaves[i]).value
  {
    assert leaves[..i + 1][..i] == leaves[..i];
  }

  // ---------- the Python node ----------

  /** _load_batch_file: None when no file is for this epoch, an exception when one is unusable. */
  method LoadBatchFile(dir: DataDir, epoch: Epoch) returns (r: Outcome<Option<Batch>>)
    ensures LoadBatch(Python, dir, epoch).Some? ==> r == Returned(LoadBatch(Python, dir, epoch))
    ensures LoadBatch(Python, dir, epoch).None? ==>
      r == if dir.named.Absent? && !dir.generic.Garbage? then Returned(None) else Raised(MalformedBatch)
  {
    var files := [dir.named, dir.generic];
    for i := 0 to 2
      invariant i >= 1 ==> dir.named.Absent?
      invariant i == 2 ==> LoadBatch(Python, dir, epoch).None? && !dir.generic.Garbage?
    {
      if files[i].Absent? { continue; }
      if files[i].Garbage? { return Raised(MalformedBatch); }
      if files[i].batch.epoch == epoch { return Returned(Some(files[i].batch)); }
      if i == 0 { return Raised(MalformedBatch); }
    }
    r := Returned(None);
  }

  /** The signature block of _verify_finalized_epoch with the engine's loaders. */
  method PythonCheckSignature(w: World, att: Attestation, key: PublicKey) returns (r: Outcome<bool>)
    ensures r == Returned(true) <==> SignatureOk(Python, w, att, key)
    ensures r.Raised? ==> r.error == SystemExit
  {
    if !att.NoAttestation? && !key.NoKey? {
      if !att.Attestation? || att.lax || att.alg != "ES256" { return Raised(SystemExit); }
      if !key.P256Key? || (key.padded && !w.pemSkipsPadding) { return Raised(SystemExit); }
      var sig := FromHex(att.sigHex);
      if sig.None? || |sig.value| != 64 { return Returned(false); }
      return Returned(w.ecdsa(key.id, att.payload, sig.value));
    } else if !att.NoAttestation? || !key.NoKey? {
      return Returned(false);
    }
    r := Returned(true);
  }

  /** One leaf of the Python loop: the amount to add, an alarm (None), or an exception. */
  method PythonCheckLeaf(w: World, epoch: Epoch, root: Word, lf: Leaf) returns (r: Outcome<Option<int>>)
    ensures r.Returned? && r.value.Some? <==> LeafOk(Python, w, epoch, root, lf)
    ensures r.Returned? && r.value.Some? ==> r.value == AmountOf(lf)
    ensures r == Raised(EncodingError) <==> Readable(Python, lf) && RecordOf(Python, w, epoch, lf).None?
  {
    hide WithPrefix, Lower, HexOf, EngineBytes, Strip, PythonAddress, NodeEncode, Replay, ReadProof;
    var amount := if lf.amountWei.Some? then lf.amountWei else lf.amount;
    if amount.None? { return Raised(MalformedBatch); }
    if amount.value < 0 { return Raised(MalformedBatch); }
    var beneficiary := PythonAddress(lf.beneficiary);
    if beneficiary.None? { return Raised(ValueError); }
    var record := NodeEncode(w.chainId, w.attester, beneficiary.value, amount.value, epoch);
    if record.None? { return Raised(EncodingError); }
    var recomputed := w.h(record.value);
    if Strip(lf.leaf) == "" { return Raised(MalformedBatch); }
    var claimed := WithPrefix(Lower(Strip(lf.leaf)));
    if claimed != Printed(recomputed) { return Returned(None); }
    PrintedWordIsRead(Python, recomputed);
    PrintedWordIsRead(Python, root);
    var ok :- EngineVerifyMerkle(w.h, Printed(recomputed), lf.proof, Printed(root));
    r := Returned(if ok then amount else None);
  }

  /** A bad leaf that raises no range error stops the loop before any later one could. */
  lemma OnlyFirstBadLeaf(w: World, chain: ChainRecord, epoch: Epoch, leaves: seq<Leaf>, i: nat)
    requires i < |leaves| && !LeafOk(Python, w, epoch, chain.root, leaves[i])
    requires forall j :: 0 <= j < i ==> LeafOk(Python, w, epoch, chain.root, leaves[j])
    requires !(Readable(Python, leaves[i]) && RecordOf(Python, w, epoch, leaves[i]).None?)
    ensures !exists k: nat :: RangeErrorAt(w, chain, epoch, leaves, k)
  {
  }

  lemma GoodLeavesRaiseNothing(w: World, chain: ChainRecord, epoch: Epoch, leaves: seq<Leaf>)
    requires forall j :: 0 <= j < |leaves| ==> LeafOk(Python, w, epoch, chain.root, leaves[j])
    ensures !exists k: nat :: RangeErrorAt(w, chain, epoch, leaves, k)
  {
  }

  /** The leaf loop of _verify_finalized_epoch: the sum of the amounts, or an alarm (None). */
  method PythonCheckLeaves(w: World, chain: ChainRecord, epoch: Epoch, leaves: seq<Leaf>)
    returns (r: Outcome<Option<int>>)
    ensures r.Returned? && r.value.Some? <==>
            forall i :: 0 <= i < |leaves| ==> LeafOk(Python, w, epoch, chain.root, leaves[i])
    ensures r.Returned? && r.value.Some? ==> r.value.value == SumOf(leaves)
    ensures r == Raised(EncodingError) <==> exists i: nat :: RangeErrorAt(w, chain, epoch, leaves, i)
  {
    hide LeafOk, RecordOf, Readable;
    var sum := 0;
    for i := 0 to |leaves|
      invariant forall j :: 0 <= j < i ==> LeafOk(Python, w, epoch, chain.root, leaves[j])
      invariant sum == SumOf(leaves[..i])
    {
      var leaf := PythonCheckLeaf(w, epoch, chain.root, leaves[i]);
      if leaf == Raised(EncodingError) {
        assert RangeErrorAt(w, chain, epoch, leaves, i);
        return Raised(EncodingError);
      }
      if leaf.Raised? || leaf.value.None? {
        OnlyFirstBadLeaf(w, chain, epoch, leaves, i);
        return leaf;
      }
      SumGrows(leaves, i);
      sum := sum + leaf.value.value;
    }
    assert leaves[..|leaves|] == leaves;
    GoodLeavesRaiseNothing(w, chain, epoch, leaves);
    r := Returned(Some(sum));
  }

  /** _verify_finalized_epoch. */
  method PythonVerifyFinalizedEpoch(w: World, chain: ChainRecord, epoch: Epoch, dir: DataDir)
    returns (r: Outcome<Verdict>)
    ensures r == Returned(Ok) <==> Accepts(Python, w, chain, epoch, dir)
    ensures r.Returned? ==> r.value == Ok || r.value == Alarm
    ensures r == Raised(EncodingError) <==> ReachesRangeError(w, chain, epoch, dir)
  {
    hide LeafOk, Readable, RecordOf, Strip, Lower, WithPrefix, HexOf, LoadBatch, SumOf, SignatureOk;
    var batch :- LoadBatchFile(dir, epoch);
    if batch.None? { return Returned(Alarm); }
    var b := batch.value;
    if Strip(b.root) == "" { return Raised(MalformedBatch); }
    var published := WithPrefix(Lower(Strip(b.root)));
    if published != "0x" + HexOf(chain.root) { return Returned(Alarm); }
    if b.leaves == [] { return Returned(Alarm); }
    var sum :- PythonCheckLeaves(w, chain, epoch, b.leaves);
    if sum.None? || sum.value != chain.totalKwh { return Returned(Alarm); }
    var signature :- PythonCheckSignature(w, dir.attestation, dir.key);
    r := Returned(if signature then Ok else Alarm);
  }

  /** verify_epoch of the Python node. Error is an exception that reaches the caller. */
  method PythonVerifyEpoch(w: World, chain: ChainRecord, epoch: Epoch, dir: DataDir) returns (v: Verdict)
    ensures v == VerdictOf(Python, w, chain, epoch, dir)
    ensures v == Skip <==> chain.timestamp == 0 || !chain.finalized
  {
    if chain.timestamp == 0 { return Skip; }
    if !chain.finalized { return Skip; }
    var r := PythonVerifyFinalizedEpoch(w, chain, epoch, dir);
    match r
    case Returned(verdict) => v := verdict;
    case Raised(EncodingError) => v := if w.rangeErrorCaught then Alarm else Error;
    case Raised(_) => v := Alarm;
  }

  // ---------- the native Go node ----------

  /** loadBatch: an unreadable file is noted and the next candidate is tried. */
  method GoLoadBatch(dir: DataDir, epoch: Epoch) returns (b: Option<Batch>, malformed: bool)
    ensures b == LoadBatch(Go, dir, epoch)
    ensures malformed <==> b.None? && (!dir.named.Absent? || dir.generic.Garbage?)
  {
    malformed := false;
    var files := [dir.named, dir.generic];
    for i := 0 to 2
      invariant malformed <==> (i >= 1 && !dir.named.Absent?) || (i == 2 && dir.generic.Garbage?)
      invariant i >= 1 ==> !(dir.named.Json? && dir.named.batch.epoch == epoch)
      invariant i == 2 ==> LoadBatch(Go, dir, epoch).None?
    {
      if files[i].Absent? { continue; }
      if files[i].Garbage? { malformed := true; continue; }
      if files[i].batch.epoch == epoch { return Some(files[i].batch), false; }
      if i == 0 { malformed := true; }
    }
    b := None;
  }

  /** verifySig of the native node. */
  method GoCheckSignature(w: World, att: Attestation, key: PublicKey) returns (ok: bool)
    ensures ok == SignatureOk(Go, w, att, key)
  {
    if att.NoAttestation? && key.NoKey? { return true; }
    if att.NoAttestation? || key.NoKey? { return false; }
    if !att.Attestation? || att.lax { return false; }
    if att.alg != "ES256" { return false; }
    if att.payload == "" || att.sigHex == "" { return false; }
    if !key.P256Key? || key.padded { return false; }
    var sig := HexToBytes(att.sigHex);
    if sig.None? || |sig.value| != 64 { return false; }
    ok := w.ecdsa(key.id, att.payload, sig.value);
  }

  lemma EmptyTextIsNoHash()
    ensures HexToBytes("") == Some([])
  {
  }

  /** One leaf of the native Go loop: the amount to add, or an alarm (None). */
  method GoCheckLeaf(w: World, epoch: Epoch, root: Word, lf: Leaf) returns (r: Option<int>)
    ensures r.Some? <==> LeafOk(Go, w, epoch, root, lf)
    ensures r.Some? ==> r == AmountOf(lf)
  {
    hide HexToBytes, GoAddress, GoEncode, Replay, ReadProof;
    EmptyTextIsNoHash();
    var amount := if lf.amountWei.Some? then lf.amountWei else lf.amount;
    if amount.None? || amount.value < 0 { return None; }
    var beneficiary := GoAddress(lf.beneficiary);
    if beneficiary.None? { return None; }
    var recomputed := w.h(GoEncode(w.chainId, w.attester, beneficiary.value, amount.value, epoch));
    if lf.leaf == "" { return None; }
    if HexToBytes(lf.leaf) != Some(recomputed) { return None; }
    var ok := GoVerifyMerkle(Go, w.h, recomputed, lf.proof, root);
    r := if ok == Some(true) then amount else None;
  }

  /** The native Go leaf loop: the sum of the amounts, or an alarm (None). */
  method GoCheckLeaves(w: World, epoch: Epoch, root: Word, leaves: seq<Leaf>) returns (r: Option<int>)
    ensures r.Some? <==> forall i :: 0 <= i < |leaves| ==> LeafOk(Go, w, epoch, root, leaves[i])
    ensures r.Some? ==> r.value == SumOf(leaves)
  {
    hide LeafOk, RecordOf, Readable;
    var sum := 0;
    for i := 0 to |leaves|
      invariant forall j :: 0 <= j < i ==> LeafOk(Go, w, epoch, root, leaves[j])
      invariant sum == SumOf(leaves[..i])
    {
      var amount := GoCheckLeaf(w, epoch, root, leaves[i]);
      if amount.None? { return None; }
      SumGrows(leaves, i);
      sum := sum + amount.value;
    }
    assert leaves[..|leaves|] == leaves;
    r := Some(sum);
  }

  method GoVerifyEpoch(w: World, chain: ChainRecord, epoch: Epoch, dir: DataDir) returns (v: Verdict)
    ensures v == VerdictOf(Go, w, chain, epoch, dir)
    ensures v == Skip <==> chain.timestamp == 0 || !chain.finalized
  {
    hide LeafOk, HexToBytes, LoadBatch, SumOf, SignatureOk;
    if chain.timestamp == 0 { return Skip; }
    if !chain.finalized { return Skip; }
    var found, _ := GoLoadBatch(dir, epoch);
    if found.None? { return Alarm; }
    var b := found.value;
    if HexToBytes(b.root) != Some(chain.root) { return Alarm; }
    if |b.leaves| == 0 { return Alarm; }
    var sum := GoCheckLeaves(w, epoch, chain.root, b.leaves);
    if sum.None? || sum.value != chain.totalKwh { return Alarm; }
    var signature := GoCheckSignature(w, dir.attestation, dir.key);
    v := if signature then Ok else Alarm;
  }

  // ---------- the WASM node ----------

  /** verifySig of the browser build, on trimmed texts: one missing or blank part skips the check. */
  method WasmCheckSignature(w: World, att: Attestation, key: PublicKey) returns (ok: bool)
    ensures ok == SignatureOk(Wasm, w, att, key)
  {
    if att.NoAttestation? || att.BlankAttestation? || key.NoKey? || key.BlankKey? { return true; }
    if att.BadAttestation? { return false; }
    if key.BadKey? { return false; }
    var sig := HexToBytes(att.sigHex);
    if sig.None? || |sig.value| != 64 { return false; }
    ok := w.ecdsa(key.id, att.payload, sig.value);
  }

  /** One leaf of the browser loop: the amount to add, or an alarm (None). */
  method WasmCheckLeaf(w: World, epoch: Epoch, root: Word, lf: Leaf) returns (r: Option<int>)
    ensures r.Some? <==> LeafOk(Wasm, w, epoch, root, lf)
    ensures r.Some? ==> r == AmountOf(lf)
  {
    hide HexToBytes, WasmAddress, WasmEncode, Replay, ReadProof;
    EmptyTextIsNoHash();
    var amount := if lf.amountWei.Some? then lf.amountWei else lf.amount;
    if amount.None? || amount.value < 0 { return None; }
    var beneficiary := WasmAddress(lf.beneficiary);
    if beneficiary.None? { return None; }
    var recomputed := w.h(WasmEncode(w.chainId, w.attester, beneficiary.value, amount.value, epoch));
    if lf.leaf == "" { return None; }
    if HexToBytes(lf.leaf) != Some(recomputed) { return None; }
    var ok := GoVerifyMerkle(Wasm, w.h, recomputed, lf.proof, root);
    r := if ok == Some(true) then amount else None;
  }

  /** The browser leaf loop: the sum of the amounts, or an alarm (None). */
  method WasmCheckLeaves(w: World, epoch: Epoch, root: Word, leaves: seq<Leaf>) returns (r: Option<int>)
    ensures r.Some? <==> forall i :: 0 <= i < |leaves| ==> LeafOk(Wasm, w, epoch, root, leaves[i])
    ensures r.Some? ==> r.value == SumOf(leaves)
  {
    hide LeafOk, RecordOf, Readable;
    var sum := 0;
    for i := 0 to |leaves|
      invariant forall j :: 0 <= j < i ==> LeafOk(Wasm, w, epoch, root, leaves[j])
      invariant sum == SumOf(leaves[..i])
    {
      var amount := WasmCheckLeaf(w, epoch, root, leaves[i]);
      if amount.None? { return None; }
      SumGrows(leaves, i);
      sum := sum + amount.value;
    }
    assert leaves[..|leaves|] == leaves;
    r := Some(sum);
  }

  /** The browser build decodes the chain's answer and the attester address itself. */
  method WasmVerifyEpoch(w: World, raw: Bytes, attester: string, epoch: Epoch, batch: File,
                         att: Attestation, key: PublicKey)
    returns (v: Verdict)
    ensures v == WasmVerdict(w, raw, attester, epoch, DataDir(Absent, batch, att, key))
    ensures v == Skip <==>
      WasmAddress(attester).None? || DecodeBatches(raw).None?
      || DecodeBatches(raw).value.timestamp == 0 || !DecodeBatches(raw).value.finalized
  {
    hide LeafOk, HexToBytes, WasmAddress, DecodeBatches, SumOf, SignatureOk;
    var address := WasmAddress(attester);
    if address.None? { return Skip; }
    var decoded := DecodeBatches(raw);
    if decoded.None? { return Skip; }
    var chain := decoded.value;
    if chain.timestamp == 0 { return Skip; }
    if !chain.finalized { return Skip; }
    if batch.Absent? || batch.Garbage? { return Alarm; }
    var b := batch.batch;
    if b.epoch != epoch { return Alarm; }
    if HexToBytes(b.root) != Some(chain.root) { return Alarm; }
    if |b.leaves| == 0 { return Alarm; }
    var u := w.(attester := address.value);
    var sum := WasmCheckLeaves(u, epoch, chain.root, b.leaves);
    if sum.None? || sum.value != chain.totalKwh { return Alarm; }
    var signature := WasmCheckSignature(u, att, key);
    v := if signature then Ok else Alarm;
  }
}
