/** The hand-written ABI codec of the WASM node for the batches(uint64) call. */
module ChainCodec {
  import opened ByteStrings
  import opened LeafEncoding

  /** The part of the on-chain record that the verifiers read. */
  datatype ChainRecord = ChainRecord(root: Word, totalKwh: nat, timestamp: nat, finalized: bool)

  /** The five further fields of the record, in declaration order of the getter. */
  datatype Rest = Rest(epoch: nat, proposer: Address, threshold: nat, challengeWindow: nat)

  /** abi.encode of the eight static fields of the batches getter. */
  function EncodeRecord(r: ChainRecord, rest: Rest): (b: Bytes)
    ensures |b| == 256
  {
    r.root + ToBE(rest.epoch, 32) + ToBE(r.totalKwh, 32) + ToBE(r.timestamp, 32)
    + (Zeros(12) + rest.proposer) + ToBE(if r.finalized then 1 else 0, 32)
    + ToBE(rest.threshold, 32) + ToBE(rest.challengeWindow, 32)
  }

  function WordAt(res: Bytes, i: nat): (w: Word)
    requires 32 * (i + 1) <= |res|
  {
    res[32 * i..32 * (i + 1)]
  }

  function DecodeBatches(res: Bytes): (r: Option<ChainRecord>)
    ensures r.None? <==> |res| < 256
  {
    if |res| < 256 then None
    else Some(ChainRecord(WordAt(res, 0), FromBE(WordAt(res, 2)),
                          FromBE(WordAt(res, 3)) % TWO_64, FromBE(WordAt(res, 5)) != 0))
  }

  /** Every well-formed response is read back; trailing bytes are ignored. */
  lemma RecordRoundTrip(r: ChainRecord, rest: Rest, tail: Bytes)
    requires r.totalKwh < TWO_128 && r.timestamp < TWO_64
    ensures DecodeBatches(EncodeRecord(r, rest) + tail) == Some(r)
  {
    var b := EncodeRecord(r, rest) + tail;
    var f := if r.finalized then 1 else 0;
    assert WordAt(b, 0) == r.root;
    assert WordAt(b, 2) == ToBE(r.totalKwh, 32);
    assert WordAt(b, 3) == ToBE(r.timestamp, 32);
    assert WordAt(b, 5) == ToBE(f, 32);
    SlotRoundTrip(r.totalKwh);
    SlotRoundTrip(r.timestamp);
    SlotRoundTrip(f);
    ModUnique(r.timestamp, TWO_64, 0, r.timestamp);
  }

  /** encodeBatchesCall: the selector is the head of the signature's hash. */
  function EncodeBatchesCall(h: Hash, signature: Bytes, epoch: nat): Bytes {
    h(signature)[..4] + LeftPad32(MinBytes(epoch))
  }

  /** The call data is 36 bytes and names the epoch: different epochs, different calls. */
  lemma BatchesCallNamesEpoch(h: Hash, signature: Bytes, epoch: nat)
    requires epoch < TWO_64
    ensures var d := EncodeBatchesCall(h, signature, epoch);
            |d| == 36 && d[..4] == h(signature)[..4] && FromBE(d[4..]) == epoch
  {
    LeftPad32IsModulo(epoch);
    ModUnique(epoch, TWO_256, 0, epoch);
    assert EncodeBatchesCall(h, signature, epoch)[4..] == LeftPad32(MinBytes(epoch));
  }

  /** Where the answer holds what the node reads: bytes 0, 64, 96 and 160, a word each. */
  lemma {:induction false} AnswerLayout(res: Bytes)
    requires |res| >= 256
    ensures var r := DecodeBatches(res);
            r.Some? && r.value.root == res[..32]
            && r.value.totalKwh == FromBE(res[64..96])
            && r.value.timestamp == FromBE(res[120..128])
            && (r.value.finalized <==> exists i :: 160 <= i < 192 && res[i] != 0)
  {
    hide FromBE, Pow256;
    LowBytes(res[96..120], res[120..128]);
    PowerValues();
    assert res[96..128] == res[96..120] + res[120..128];
    ZeroWritesZero(res[160..192]);
    assert forall i :: 160 <= i < 192 ==> res[160..192][i - 160] == res[i];
  }

  lemma {:induction false} LowBytes(hi: Bytes, lo: Bytes)
    ensures FromBE(hi + lo) % Pow256(|lo|) == FromBE(lo)
  {
    ToFromBE(lo);
    ConcatWrites(hi, lo);
    ModUnique(FromBE(hi + lo), Pow256(|lo|), FromBE(hi), FromBE(lo));
  }

  lemma {:induction false} ConcatWrites(hi: Bytes, lo: Bytes)
    ensures FromBE(hi + lo) == Pow256(|lo|) * FromBE(hi) + FromBE(lo)
  {
    if lo == [] {
      assert hi + lo == hi;
    } else {
      var n := |lo| - 1;
      ConcatWrites(hi, lo[..n]);
      assert (hi + lo)[..|hi + lo| - 1] == hi + lo[..n];
      assert 256 * (Pow256(n) * FromBE(hi)) == (256 * Pow256(n)) * FromBE(hi);
    }
  }

  lemma {:induction false} ZeroWritesZero(b: Bytes)
    ensures FromBE(b) == 0 <==> forall i :: 0 <= i < |b| ==> b[i] == 0
  {
    if b != [] {
      var n := |b| - 1;
      ZeroWritesZero(b[..n]);
      assert forall i :: 0 <= i < n ==> b[..n][i] == b[i];
    }
  }
}
