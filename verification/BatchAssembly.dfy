/** The batch file the builder writes, and its acceptance by every node. */
module BatchAssembly {
  import opened ByteStrings
  import opened Hex
  import opened Addresses
  import opened LeafEncoding
  import opened MerkleTree
  import opened Inclusion
  import opened ChainCodec
  import opened Published
  import opened Agreement
  import opened Completeness

  /** One input row of the builder. */
  datatype Entry = Entry(beneficiary: string, amountWei: int)

  function TotalOf(entries: seq<Entry>): int {
    if entries == [] then 0 else TotalOf(entries[..|entries| - 1]) + entries[|entries| - 1].amountWei
  }

  function PrintedProof(proof: seq<Word>): seq<string> {
    seq(|proof|, k requires 0 <= k < |proof| => Printed(proof[k]))
  }

  /** The published file for the given rows and their encoded records. */
  ghost function PrintedBatch(h: Hash, epoch: int, entries: seq<Entry>, records: seq<Bytes>): Batch
    requires entries != [] && |records| == |entries|
  {
    var leaves := Hashes(h, records);
    Batch(epoch, Printed(Root(h, leaves)),
          seq(|entries|, i requires 0 <= i < |entries| =>
            Leaf(entries[i].beneficiary, Some(entries[i].amountWei), None, Printed(leaves[i]),
                 PrintedProof(Proofs(h, leaves)[i]))))
  }

  /** The encoded rows in order; None if some row raises in the encoder. */
  function EncodedRows(chainId: int, attester: string, epoch: int, entries: seq<Entry>): (r: Option<seq<Bytes>>)
    ensures r.Some? ==> |r.value| == |entries|
  {
    if entries == [] then Some([])
    else
      var n := |entries| - 1;
      var init := EncodedRows(chainId, attester, epoch, entries[..n]);
      var last := BuilderEncode(chainId, attester, entries[n].beneficiary, entries[n].amountWei, epoch);
      if init.None? || last.None? then None else Some(init.value + [last.value])
  }

  lemma {:induction false} RowsPrefix(chainId: int, attester: string, epoch: int, entries: seq<Entry>, k: nat)
    requires k <= |entries| && EncodedRows(chainId, attester, epoch, entries).Some?
    ensures EncodedRows(chainId, attester, epoch, entries[..k]).Some?
  {
    hide BuilderEncode;
    if k == |entries| {
      assert entries[..k] == entries;
    } else {
      RowsPrefix(chainId, attester, epoch, entries[..|entries| - 1], k);
      assert entries[..|entries| - 1][..k] == entries[..k];
    }
  }

  /** What main of the builder writes: the batch and its total; None stands for an exception. */
  ghost function Assembled(h: Hash, chainId: int, attester: string, epoch: int, entries: seq<Entry>)
    : Option<(Batch, int)>
  {
    var rows := EncodedRows(chainId, attester, epoch, entries);
    if entries == [] || rows.None? then None
    else Some((PrintedBatch(h, epoch, entries, rows.value), TotalOf(entries)))
  }

  method AssembleBatch(h: Hash, chainId: int, attester: string, epoch: int, entries: seq<Entry>)
    returns (r: Option<(Batch, int)>)
    ensures r == Assembled(h, chainId, attester, epoch, entries)
  {
    hide BuilderEncode, Root, Proofs, HexOf;
    var leaves: seq<Word>, total := [], 0;
    ghost var rows: seq<Bytes> := [];
    for i := 0 to |entries|
      invariant EncodedRows(chainId, attester, epoch, entries[..i]) == Some(rows)
      invariant leaves == Hashes(h, rows)
      invariant total == TotalOf(entries[..i])
    {
      var record := BuilderEncode(chainId, attester, entries[i].beneficiary, entries[i].amountWei, epoch);
      assert entries[..i + 1][..i] == entries[..i];
      if record.None? {
        if EncodedRows(chainId, attester, epoch, entries).Some? {
          RowsPrefix(chainId, attester, epoch, entries, i + 1);
        }
        return None;
      }
      leaves := leaves + [h(record.value)];
      rows := rows + [record.value];
      total := total + entries[i].amountWei;
    }
    assert entries[..|entries|] == entries;
    var tree := BuildTree(h, leaves);
    if tree.None? { return None; }
    var (root, proofs) := tree.value;
    var published := seq(|entries|, i requires 0 <= i < |entries| =>
      Leaf(entries[i].beneficiary, Some(entries[i].amountWei), None, Printed(leaves[i]), PrintedProof(proofs[i])));
    r := Some((Batch(epoch, Printed(root), published), total));
  }

  // ---------- round trip ----------

  lemma {:induction false} PrintedProofIsRead(node: Node, proof: seq<Word>)
    ensures ReadProof(node, PrintedProof(proof)) == Some(proof)
  {
    hide Printed, ReadSibling, HashMatches;
    if proof != [] {
      var init := proof[..|proof| - 1];
      PrintedProofIsRead(node, init);
      PrintedWordIsRead(node, proof[|proof| - 1]);
      assert PrintedProof(proof)[..|proof| - 1] == PrintedProof(init);
      assert proof == init + [proof[|proof| - 1]];
    }
  }

  /** The rows are in-range claims of one deployment and epoch, with plainly written addresses. */
  ghost predicate Represents(entries: seq<Entry>, claims: seq<Claim>, chainId: int, attester: Address, epoch: int) {
    |entries| == |claims|
    && forall i :: 0 <= i < |claims| ==>
         InRange(claims[i])
         && claims[i].chainId == chainId && claims[i].attester == attester && claims[i].epoch == epoch
         && claims[i].amount == entries[i].amountWei
         && PlainAddress(entries[i].beneficiary) == Some(claims[i].beneficiary)
  }

  /** For such rows the builder succeeds, and publishes over the ABI records of the claims. */
  lemma {:induction false} BuilderEncodesClaims(entries: seq<Entry>, claims: seq<Claim>, chainId: int,
                                                attester: string, epoch: int)
    requires PlainAddress(attester).Some?
    requires Represents(entries, claims, chainId, PlainAddress(attester).value, epoch)
    ensures EncodedRows(chainId, attester, epoch, entries) == Some(Encodings(claims))
  {
    hide BuilderEncode, AbiEncode, PlainAddress, InRange;
    if entries != [] {
      var n := |entries| - 1;
      BuilderEncodesClaims(entries[..n], claims[..n], chainId, attester, epoch);
      StringEncodersAgree(claims[n], attester, entries[n].beneficiary);
      assert Encodings(claims) == Encodings(claims[..n]) + [AbiEncode(claims[n])];
    }
  }

  lemma ReadsPlainAddress(node: Node, s: string)
    requires PlainAddress(s).Some?
    ensures ReadAddress(node, s) == PlainAddress(s)
  {
    PlainAddressesAgree(s);
  }

  lemma RangeOf(c: Claim)
    ensures InRange(c) <==> c.chainId < TWO_256 && c.amount < TWO_128 && c.epoch < TWO_64
  {
  }

  /** A published row reads back as its claim and its proof, whichever node reads it. */
  lemma PublishedLeafReadsBack(node: Node, w: World, epoch: Epoch, entries: seq<Entry>, claims: seq<Claim>, i: nat)
    requires i < |claims| && Represents(entries, claims, w.chainId, w.attester, epoch)
    ensures var lf := PrintedBatch(w.h, epoch, entries, Encodings(claims)).leaves[i];
            Readable(node, lf) && ClaimOf(node, w, epoch, lf) == claims[i]
            && ReadProof(node, lf.proof) == Some(Proofs(w.h, Hashes(w.h, Encodings(claims)))[i])
  {
    hide Printed, PrintedProof, ReadProof, Root, Proofs, AbiEncode, ReadAddress, InRange;
    RangeOf(claims[i]);
    ModUnique(w.chainId, TWO_256, 0, w.chainId);
    ReadsPlainAddress(node, entries[i].beneficiary);
    PrintedProofIsRead(node, Proofs(w.h, Hashes(w.h, Encodings(claims)))[i]);
  }

  /** The claims and proofs read from an assembled batch are those it was assembled from. */
  lemma AssembledBatchPublishes(node: Node, w: World, epoch: Epoch, entries: seq<Entry>, claims: seq<Claim>)
    requires entries != [] && Represents(entries, claims, w.chainId, w.attester, epoch)
    ensures Publishes(node, w, epoch, PrintedBatch(w.h, epoch, entries, Encodings(claims)).leaves,
                      claims, Proofs(w.h, Hashes(w.h, Encodings(claims))))
  {
    hide Readable, ClaimOf, ReadProof, Root, Proofs, AbiEncode, InRange, Printed, PrintedProof;
    assert claims[0].chainId == w.chainId;
    forall i | 0 <= i < |claims|
      ensures var lf := PrintedBatch(w.h, epoch, entries, Encodings(claims)).leaves[i];
              Readable(node, lf) && claims[i] == ClaimOf(node, w, epoch, lf)
              && ReadProof(node, lf.proof) == Some(Proofs(w.h, Hashes(w.h, Encodings(claims)))[i])
    {
      PublishedLeafReadsBack(node, w, epoch, entries, claims, i);
    }
  }

  lemma PublishedLeafIsGood(node: Node, w: World, epoch: Epoch, entries: seq<Entry>, claims: seq<Claim>, i: nat)
    requires i < |claims| && Represents(entries, claims, w.chainId, w.attester, epoch)
    ensures LeafOk(node, w, epoch, ClaimsRoot(w.h, claims),
                   PrintedBatch(w.h, epoch, entries, Encodings(claims)).leaves[i])
  {
    hide Printed, PrintedProof, HashMatches, ReadProof, Replay, Root, Proofs, AbiEncode, LeafRecord,
      ReadAddress, InRange;
    var leaves := Hashes(w.h, Encodings(claims));
    var lf := PrintedBatch(w.h, epoch, entries, Encodings(claims)).leaves[i];
    PublishedLeafReadsBack(node, w, epoch, entries, claims, i);
    RangeOf(claims[i]);
    RecordIsAbi(node, w, epoch, lf);
    BuiltProofsReplay(w.h, leaves, i);
    PrintedWordIsRead(node, leaves[i]);
  }

  lemma {:induction false} PublishedSum(h: Hash, epoch: int, entries: seq<Entry>, records: seq<Bytes>, k: nat)
    requires entries != [] && |records| == |entries| && k <= |entries|
    ensures SumOf(PrintedBatch(h, epoch, entries, records).leaves[..k]) == TotalOf(entries[..k])
  {
    hide Root, Proofs, PrintedProof, Printed;
    if k > 0 {
      var leaves := PrintedBatch(h, epoch, entries, records).leaves;
      PublishedSum(h, epoch, entries, records, k - 1);
      assert leaves[..k][..k - 1] == leaves[..k - 1] && entries[..k][..k - 1] == entries[..k - 1];
    }
  }

  lemma SameLengths(entries: seq<Entry>, claims: seq<Claim>, chainId: int, attester: Address, epoch: int)
    requires Represents(entries, claims, chainId, attester, epoch)
    ensures |entries| == |claims|
  {
  }

  /** The file is where the node looks for it: under its epoch's name, or alone as batch.json. */
  predicate Holds(node: Node, dir: DataDir, b: Batch) {
    if node.Wasm? then dir.generic == Json(b)
    else dir.named == Json(b) || (dir.named.Absent? && dir.generic == Json(b))
  }

  lemma PrintedBatchShape(h: Hash, epoch: int, entries: seq<Entry>, records: seq<Bytes>)
    requires entries != [] && |records| == |entries|
    ensures var b := PrintedBatch(h, epoch, entries, records);
            b.epoch == epoch && b.root == Printed(Root(h, Hashes(h, records))) && |b.leaves| == |entries|
  {
    hide Root, Proofs, Printed, PrintedProof;
  }

  /** The fields of the file: prefixed hex for every hash, amounts under amount_wei only, rows in order. */
  lemma {:induction false} BuiltFileFields(h: Hash, epoch: int, entries: seq<Entry>, records: seq<Bytes>, i: nat)
    requires i < |entries| == |records|
    ensures var b, leaves := PrintedBatch(h, epoch, entries, records), Hashes(h, records);
            b.epoch == epoch && b.root == "0x" + HexOf(Root(h, leaves)) && |b.leaves| == |entries|
            && var lf := b.leaves[i];
               lf.beneficiary == entries[i].beneficiary
               && lf.amountWei == Some(entries[i].amountWei) && lf.amount == None
               && lf.leaf == "0x" + HexOf(h(records[i])) && |lf.proof| == |Proofs(h, leaves)[i]|
               && forall k :: 0 <= k < |lf.proof| ==> lf.proof[k] == "0x" + HexOf(Proofs(h, leaves)[i][k])
  {
    hide Root, Proofs, HexOf;
  }

  /** What the builder writes for an epoch is loaded for that epoch, and for no other. */
  lemma BuiltFileIsLoaded(node: Node, dir: DataDir, h: Hash, built: Epoch, epoch: Epoch, entries: seq<Entry>,
                          records: seq<Bytes>)
    requires entries != [] && |records| == |entries|
    requires Holds(node, dir, PrintedBatch(h, built, entries, records))
    ensures LoadBatch(node, dir, epoch) == Some(PrintedBatch(h, built, entries, records)) <==> epoch == built
  {
    PrintedBatchShape(h, built, entries, records);
    hide PrintedBatch;
  }

  /**
   * What the builder publishes for in-range rows is judged OK by every node against the
   * root and total it committed, whenever the signature material passes that node.
   */
  lemma AssembledBatchIsAccepted(node: Node, w: World, chain: ChainRecord, epoch: Epoch, dir: DataDir,
                                 entries: seq<Entry>, claims: seq<Claim>)
    requires entries != [] && Represents(entries, claims, w.chainId, w.attester, epoch)
    requires Holds(node, dir, PrintedBatch(w.h, epoch, entries, Encodings(claims)))
    requires chain.timestamp != 0 && chain.finalized
    requires chain.root == ClaimsRoot(w.h, claims) && chain.totalKwh == TotalOf(entries)
    requires SignatureOk(node, w, dir.attestation, dir.key)
    ensures VerdictOf(node, w, chain, epoch, dir) == Ok
  {
    hide LeafOk, HashMatches, SignatureOk, SumOf, TotalOf, Root, Printed, LoadBatch, Represents, Holds, Encodings,
      PrintedBatch, Accepts, Hashes, VerdictOf;
    SameLengths(entries, claims, w.chainId, w.attester, epoch);
    BuiltFileIsLoaded(node, dir, w.h, epoch, epoch, entries, Encodings(claims));
    PrintedBatchShape(w.h, epoch, entries, Encodings(claims));
    PublishedSum(w.h, epoch, entries, Encodings(claims), |entries|);
    var b := PrintedBatch(w.h, epoch, entries, Encodings(claims));
    PrintedWordIsRead(node, chain.root);
    assert b.leaves[..|entries|] == b.leaves && entries[..|entries|] == entries;
    forall i | 0 <= i < |b.leaves|
      ensures LeafOk(node, w, epoch, chain.root, b.leaves[i])
    {
      PublishedLeafIsGood(node, w, epoch, entries, claims, i);
    }
    AcceptsGoodBatch(node, w, chain, epoch, dir, b);
  }

  lemma AcceptsGoodBatch(node: Node, w: World, chain: ChainRecord, epoch: Epoch, dir: DataDir, b: Batch)
    requires LoadBatch(node, dir, epoch) == Some(b) && HashMatches(node, b.root, chain.root) && b.leaves != []
    requires forall i :: 0 <= i < |b.leaves| ==> LeafOk(node, w, epoch, chain.root, b.leaves[i])
    requires SumOf(b.leaves) == chain.totalKwh && SignatureOk(node, w, dir.attestation, dir.key)
    requires chain.timestamp != 0 && chain.finalized
    ensures VerdictOf(node, w, chain, epoch, dir) == Ok
  {
    hide LeafOk, HashMatches, SignatureOk, SumOf, LoadBatch;
    assert Accepts(node, w, chain, epoch, dir);
  }

  /**
   * From rows to verdict: for in-range rows the builder's main succeeds, and once its file is
   * published under either name and a chain finalizes its root and total, every node that
   * finds the signature material in order says OK.
   */
  lemma {:induction false} BuiltBatchIsAccepted(node: Node, w: World, chain: ChainRecord, epoch: Epoch,
                                                attester: string, entries: seq<Entry>, claims: seq<Claim>,
                                                other: File, att: Attestation, key: PublicKey)
    requires entries != [] && PlainAddress(attester) == Some(w.attester)
    requires Represents(entries, claims, w.chainId, w.attester, epoch)
    requires chain.timestamp != 0 && chain.finalized && SignatureOk(node, w, att, key)
    ensures var r := Assembled(w.h, w.chainId, attester, epoch, entries);
            r.Some?
            && var (b, total) := r.value;
               b.root == Printed(chain.root) && total == chain.totalKwh ==>
                 VerdictOf(node, w, chain, epoch, DataDir(Absent, Json(b), att, key)) == Ok
                 && (!node.Wasm? ==> VerdictOf(node, w, chain, epoch, DataDir(Json(b), other, att, key)) == Ok)
  {
    BuilderEncodesClaims(entries, claims, w.chainId, attester, epoch);
    SameLengths(entries, claims, w.chainId, w.attester, epoch);
    hide EncodedRows, Represents, PlainAddress, SignatureOk, LoadBatch, VerdictOf, TotalOf, Printed, Root, Proofs,
      PrintedProof;
    var (b, total) := Assembled(w.h, w.chainId, attester, epoch, entries).value;
    if b.root == Printed(chain.root) && total == chain.totalKwh {
      PrintedIsInjective(chain.root, ClaimsRoot(w.h, claims));
      AssembledBatchIsAccepted(node, w, chain, epoch, DataDir(Absent, Json(b), att, key), entries, claims);
      if !node.Wasm? {
        AssembledBatchIsAccepted(node, w, chain, epoch, DataDir(Json(b), other, att, key), entries, claims);
      }
    }
  }

  /** The rows that an operator writes for given claims. */
  function RowsOf(claims: seq<Claim>): (rows: seq<Entry>)
    ensures |rows| == |claims|
  {
    seq(|claims|, i requires 0 <= i < |claims| => Entry("0x" + HexOf(claims[i].beneficiary), claims[i].amount))
  }

  /** Any in-range claims of one deployment and epoch can be written as rows that stand for them. */
  lemma {:induction false} RowsRepresent(claims: seq<Claim>, chainId: int, attester: Address, epoch: int)
    requires forall i :: 0 <= i < |claims| ==>
               claims[i].chainId == chainId < TWO_256 && claims[i].amount < TWO_128 && claims[i].epoch == epoch < TWO_64
               && claims[i].attester == attester
    ensures Represents(RowsOf(claims), claims, chainId, attester, epoch)
  {
    hide HexOf, PlainAddress;
    forall i | 0 <= i < |claims|
      ensures PlainAddress(RowsOf(claims)[i].beneficiary) == Some(claims[i].beneficiary)
    {
      PrintedAddressIsRead(claims[i].beneficiary);
    }
  }

  lemma {:induction false} PrintedIsInjective(a: Word, b: Word)
    ensures Printed(a) == Printed(b) ==> a == b
  {
    PrintedWordIsRead(Go, a);
    PrintedWordIsRead(Go, b);
    hide Printed, ReadSibling;
  }
}
