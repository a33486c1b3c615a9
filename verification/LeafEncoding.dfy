/** The 160-byte claim record and the encoders that produce it. */
module LeafEncoding {
  import opened ByteStrings
  import opened Hex
  import opened Addresses

  datatype Claim = Claim(chainId: nat, attester: Address, beneficiary: Address, amount: nat, epoch: nat)

  /** uint256 chain id, uint128 amount, uint64 epoch. */
  predicate InRange(c: Claim) {
    c.chainId < TWO_256 && c.amount < TWO_128 && c.epoch < TWO_64
  }

  /** Every number fits one 32-byte slot. */
  predicate FitsSlots(c: Claim) {
    c.chainId < TWO_256 && c.amount < TWO_256 && c.epoch < TWO_256
  }

  lemma InRangeFits(c: Claim)
    requires InRange(c)
    ensures FitsSlots(c)
  {
  }

  /** abi.encode(uint256, address, address, uint128, uint64): five right-aligned slots. */
  function AbiEncode(c: Claim): (b: Bytes)
    ensures |b| == 160
  {
    ToBE(c.chainId, 32) + (Zeros(12) + c.attester) + (Zeros(12) + c.beneficiary)
    + ToBE(c.amount, 32) + ToBE(c.epoch, 32)
  }

  function AbiDecode(b: Bytes): Claim
    requires |b| == 160
  {
    Claim(FromBE(b[..32]), b[44..64], b[76..96], FromBE(b[96..128]), FromBE(b[128..]))
  }

  lemma SlotRoundTrip(n: nat)
    requires n < TWO_256
    ensures FromBE(ToBE(n, 32)) == n
  {
    PowerValues();
    FromToBE(n, 32);
    ModUnique(n, TWO_256, 0, n);
  }

  /** Decoding undoes encoding, so equal records come only from equal claims. */
  lemma AbiRoundTrip(c: Claim)
    requires FitsSlots(c)
    ensures AbiDecode(AbiEncode(c)) == c
  {
    var b := AbiEncode(c);
    SlotRoundTrip(c.chainId);
    SlotRoundTrip(c.amount);
    SlotRoundTrip(c.epoch);
    assert b[..32] == ToBE(c.chainId, 32);
    assert b[44..64] == c.attester;
    assert b[76..96] == c.beneficiary;
    assert b[96..128] == ToBE(c.amount, 32);
    assert b[128..] == ToBE(c.epoch, 32);
  }

  lemma AbiInjective(c: Claim, d: Claim)
    requires FitsSlots(c) && FitsSlots(d)
    ensures AbiEncode(c) == AbiEncode(d) <==> c == d
  {
    AbiRoundTrip(c);
    AbiRoundTrip(d);
  }

  // ---------- Python encoders ----------

  /** n.to_bytes(32, "big"); None is the OverflowError. */
  function ToBytes32(n: int): Option<Bytes> {
    if 0 <= n < TWO_256 then Some(ToBE(n, 32)) else None
  }

  function Slots(chainId: Option<Bytes>, attester: Option<Bytes>, beneficiary: Option<Bytes>,
                 amount: Option<Bytes>, epoch: Option<Bytes>): Option<Bytes> {
    if chainId.None? || attester.None? || beneficiary.None? || amount.None? || epoch.None? then None
    else Some(chainId.value + attester.value + beneficiary.value + amount.value + epoch.value)
  }

  /** abi_encode_leaf of the builder; _compute_leaf of the Python library is the same text. */
  function BuilderEncode(chainId: int, attester: string, beneficiary: string, amount: int, epoch: int): Option<Bytes> {
    Slots(ToBytes32(chainId), BuilderAddressWord(attester), BuilderAddressWord(beneficiary),
          ToBytes32(amount), ToBytes32(epoch))
  }

  /** _compute_leaf_impl: three range guards, then the slots. */
  function EngineEncode(chainId: int, attester: string, beneficiary: string, amount: int, epoch: int): Option<Bytes> {
    if chainId < 0 || chainId >= TWO_256 then None
    else if amount < 0 || amount >= TWO_128 then None
    else if epoch < 0 || epoch >= TWO_64 then None
    else Slots(ToBytes32(chainId), EngineAddressWord(attester), EngineAddressWord(beneficiary),
               ToBytes32(amount), ToBytes32(epoch))
  }

  /** compute_leaf of the Python node: eth_abi checks each field against its declared type. */
  function NodeEncode(chainId: int, attester: Address, beneficiary: Address, amount: int, epoch: nat): Option<Bytes> {
    if 0 <= chainId < TWO_256 && 0 <= amount < TWO_128 && epoch < TWO_64
    then Some(AbiEncode(Claim(chainId, attester, beneficiary, amount, epoch)))
    else None
  }

  // ---------- Go encoders ----------

  function Abs(n: int): nat { if n < 0 then -n else n }

  /** big.Int.Bytes for n >= 0: big-endian without leading zeros. */
  function MinBytes(n: nat): Bytes {
    if n == 0 then [] else MinBytes(n / 256) + [n % 256]
  }

  /** leftPad32 of the WASM node: keeps the last 32 bytes of a longer input. */
  function LeftPad32(b: Bytes): (w: Bytes)
    ensures |w| == 32
  {
    if |b| >= 32 then b[|b| - 32..] else Zeros(32 - |b|) + b
  }

  /** common.LeftPadBytes of go-ethereum at width 32: returns a longer input unchanged. */
  function LeftPadBytes(b: Bytes): Bytes {
    if |b| >= 32 then b else Zeros(32 - |b|) + b
  }

  function WasmEncode(chainId: int, attester: Address, beneficiary: Address, amount: int, epoch: nat): Bytes {
    LeftPad32(MinBytes(Abs(chainId))) + LeftPad32(attester) + LeftPad32(beneficiary)
    + LeftPad32(MinBytes(Abs(amount))) + LeftPad32(MinBytes(epoch))
  }

  function GoEncode(chainId: int, attester: Address, beneficiary: Address, amount: int, epoch: nat): Bytes {
    LeftPadBytes(MinBytes(Abs(chainId))) + LeftPadBytes(attester) + LeftPadBytes(beneficiary)
    + LeftPadBytes(MinBytes(Abs(amount))) + LeftPadBytes(MinBytes(epoch))
  }

  /** The bytes of MinBytes(n) fit k places exactly when n < 256^k. */
  lemma {:induction false} MinBytesLength(n: nat, k: nat)
    ensures |MinBytes(n)| <= k <==> n < Pow256(k)
    decreases k
  {
    if n > 0 && k > 0 { MinBytesLength(n / 256, k - 1); }
  }

  /** The last k bytes of b, or b behind zeros up to k bytes. */
  function FitTo(b: Bytes, k: nat): (r: Bytes)
    ensures |r| == k
  {
    if |b| >= k then b[|b| - k..] else Zeros(k - |b|) + b
  }

  lemma FitAppends(b: Bytes, x: byte, k: nat)
    ensures FitTo(b + [x], k + 1) == FitTo(b, k) + [x]
  {
  }

  /** The minimal form fitted to k bytes is the number mod 256^k. */
  lemma {:induction false} PaddedMinBytes(n: nat, k: nat)
    ensures ToBE(n, k) == FitTo(MinBytes(n), k)
    decreases k
  {
    if k > 0 {
      PaddedMinBytes(n / 256, k - 1);
      if n == 0 {
        assert FitTo([], k) == FitTo([], k - 1) + [0];
      } else {
        FitAppends(MinBytes(n / 256), n % 256, k - 1);
      }
    }
  }

  /** leftPad32 writes every natural number modulo 2^256. */
  lemma LeftPad32IsModulo(n: nat)
    ensures LeftPad32(MinBytes(n)) == ToBE(n, 32)
    ensures FromBE(LeftPad32(MinBytes(n))) == n % TWO_256
  {
    PowerValues();
    PaddedMinBytes(n, 32);
    FromToBE(n, 32);
  }

  /** go-ethereum's padding gives the 32-byte slot exactly for numbers below 2^256. */
  lemma LeftPadBytesExactly(n: nat)
    ensures LeftPadBytes(MinBytes(n)) == ToBE(n, 32) <==> n < TWO_256
    ensures |LeftPadBytes(MinBytes(n))| == 32 <==> n < TWO_256
    ensures |LeftPadBytes(MinBytes(n))| >= 32
  {
    PowerValues();
    PaddedMinBytes(n, 32);
    MinBytesLength(n, 32);
  }

  /** WASM always encodes the claim whose numbers are reduced modulo 2^256. */
  lemma WasmEncodesModulo(c: Claim)
    ensures WasmEncode(c.chainId, c.attester, c.beneficiary, c.amount, c.epoch) == AbiEncode(c)
  {
    LeftPad32IsModulo(c.chainId);
    LeftPad32IsModulo(c.amount);
    LeftPad32IsModulo(c.epoch);
  }

  lemma SlotIsModulo(n: nat)
    ensures ToBE(n % TWO_256, 32) == ToBE(n, 32)
  {
    PowerValues();
    FromToBE(n, 32);
    ToFromBE(ToBE(n, 32));
  }

  /** Any chain id, a negative one too, reads in the WASM record as its magnitude mod 2^256. */
  lemma {:induction false} WasmReadsMagnitude(chainId: int, attester: Address, beneficiary: Address, amount: nat,
                                              epoch: nat)
    ensures WasmEncode(chainId, attester, beneficiary, amount, epoch)
            == AbiEncode(Claim(Abs(chainId) % TWO_256, attester, beneficiary, amount, epoch))
  {
    WasmEncodesModulo(Claim(Abs(chainId), attester, beneficiary, amount, epoch));
    SlotIsModulo(Abs(chainId));
    hide ToBE;
  }

  /** The native Go encoder matches the ABI exactly when every number fits its slot. */
  lemma GoEncodesExactly(c: Claim)
    ensures GoEncode(c.chainId, c.attester, c.beneficiary, c.amount, c.epoch) == AbiEncode(c)
            <==> FitsSlots(c)
  {
    LeftPadBytesExactly(c.chainId);
    LeftPadBytesExactly(c.amount);
    LeftPadBytesExactly(c.epoch);
  }

  /** In the native record too, as long as the numbers fit. */
  lemma {:induction false} GoReadsMagnitude(chainId: int, attester: Address, beneficiary: Address, amount: nat,
                                            epoch: nat)
    requires FitsSlots(Claim(Abs(chainId), attester, beneficiary, amount, epoch))
    ensures GoEncode(chainId, attester, beneficiary, amount, epoch)
            == AbiEncode(Claim(Abs(chainId) % TWO_256, attester, beneficiary, amount, epoch))
  {
    GoEncodesExactly(Claim(Abs(chainId), attester, beneficiary, amount, epoch));
    hide ToBE, MinBytes, LeftPadBytes;
    ModUnique(Abs(chainId), TWO_256, 0, Abs(chainId));
  }

  /** A negative chain id reads as its magnitude in both Go nodes and is refused everywhere else. */
  lemma NegativeChainId(chainId: int, a: Address, b: Address, amount: int, epoch: nat)
    requires chainId < 0
    ensures GoEncode(chainId, a, b, amount, epoch) == GoEncode(-chainId, a, b, amount, epoch)
    ensures WasmEncode(chainId, a, b, amount, epoch) == WasmEncode(-chainId, a, b, amount, epoch)
    ensures NodeEncode(chainId, a, b, amount, epoch) == TypeScriptEncode(chainId, a, b, amount, epoch) == None
    ensures forall s, t :: BuilderEncode(chainId, s, t, amount, epoch) == None
    ensures forall s, t :: EngineEncode(chainId, s, t, amount, epoch) == None
  {
  }

  lemma StringEncodersAgree(c: Claim, attester: string, beneficiary: string)
    requires InRange(c)
    requires PlainAddress(attester) == Some(c.attester) && PlainAddress(beneficiary) == Some(c.beneficiary)
    ensures BuilderEncode(c.chainId, attester, beneficiary, c.amount, c.epoch) == Some(AbiEncode(c))
    ensures EngineEncode(c.chainId, attester, beneficiary, c.amount, c.epoch) == Some(AbiEncode(c))
  {
    hide PlainAddress, BuilderAddressWord, EngineAddressWord, ToBE;
    PlainAddressesAgree(attester);
    PlainAddressesAgree(beneficiary);
  }

  /** On in-range claims with plainly written addresses every encoder gives the ABI record. */
  lemma EncodersAgree(c: Claim, attester: string, beneficiary: string)
    requires InRange(c)
    requires PlainAddress(attester) == Some(c.attester) && PlainAddress(beneficiary) == Some(c.beneficiary)
    ensures BuilderEncode(c.chainId, attester, beneficiary, c.amount, c.epoch) == Some(AbiEncode(c))
    ensures EngineEncode(c.chainId, attester, beneficiary, c.amount, c.epoch) == Some(AbiEncode(c))
    ensures NodeEncode(c.chainId, c.attester, c.beneficiary, c.amount, c.epoch) == Some(AbiEncode(c))
    ensures TypeScriptEncode(c.chainId, c.attester, c.beneficiary, c.amount, c.epoch) == Some(AbiEncode(c))
    ensures GoEncode(c.chainId, c.attester, c.beneficiary, c.amount, c.epoch) == AbiEncode(c)
    ensures WasmEncode(c.chainId, c.attester, c.beneficiary, c.amount, c.epoch) == AbiEncode(c)
  {
    StringEncodersAgree(c, attester, beneficiary);
    GoEncodesExactly(c);
    WasmEncodesModulo(c);
  }

  // ---------- TypeScript encoder, writing in place ----------

  /** What computeLeaf of the TypeScript verifier encodes; None is a thrown error. */
  function TypeScriptEncode(chainId: int, attester: Bytes, beneficiary: Bytes, amount: int, epoch: int): Option<Bytes> {
    if |attester| == 20 && |beneficiary| == 20
       && 0 <= chainId < TWO_256 && 0 <= amount < TWO_256 && 0 <= epoch < TWO_256
    then Some(AbiEncode(Claim(chainId, attester, beneficiary, amount, epoch)))
    else None
  }

  lemma LowByteMoves(v: int, i: nat, done: Bytes)
    ensures ToBE(v, i + 1) + done == ToBE(v / 256, i) + ([v % 256] + done)
    ensures 0 <= v / 256 < Pow256(i) <==> 0 <= v < Pow256(i + 1)
  {
  }

  lemma PowerOfZero()
    ensures Pow256(0) == 1 && forall v :: ToBE(v, 0) == []
  {
  }

  /**
   * Writes n big-endian into 32 bytes and reports whether it fitted: it succeeds for
   * exactly 0 <= n < 2^256, and touches no byte outside its slot either way.
   */
  method BigIntToBytes32(n: int, out: array<byte>, offset: nat) returns (ok: bool)
    requires offset + 32 <= out.Length
    modifies out
    ensures ok <==> 0 <= n < TWO_256
    ensures out[offset..offset + 32] == ToBE(n, 32)
    ensures out[..offset] == old(out[..offset]) && out[offset + 32..] == old(out[offset + 32..])
  {
    PowerValues();
    hide ToBE, Pow256;
    PowerOfZero();
    var v, i := n, 32;
    assert ToBE(n, 32) == ToBE(v, 32) + [];
    while i > 0
      invariant 0 <= i <= 32
      invariant 0 <= v < Pow256(i) <==> 0 <= n < TWO_256
      invariant ToBE(n, 32) == ToBE(v, i) + out[offset + i..offset + 32]
      invariant out[..offset] == old(out[..offset]) && out[offset + 32..] == old(out[offset + 32..])
    {
      i := i - 1;
      ghost var done := out[offset + i + 1..offset + 32];
      out[offset + i] := v % 256;
      assert out[offset + i..offset + 32] == [v % 256] + done;
      LowByteMoves(v, i, done);
      v := v / 256;
    }
    ok := v == 0;
  }

  method TypeScriptComputeRecord(chainId: int, attester: Bytes, beneficiary: Bytes, amount: int, epoch: int)
    returns (r: Option<Bytes>)
    ensures r == TypeScriptEncode(chainId, attester, beneficiary, amount, epoch)
  {
    hide ToBE;
    if |attester| != 20 || |beneficiary| != 20 { return None; }
    var buf := new byte[160](_ => 0);
    var fits := BigIntToBytes32(chainId, buf, 0);
    if !fits { return None; }
    assert buf[32..] == Zeros(128);
    forall i | 0 <= i < 20 { buf[44 + i] := attester[i]; }
    forall i | 0 <= i < 20 { buf[76 + i] := beneficiary[i]; }
    ghost var slots := ToBE(chainId, 32) + (Zeros(12) + attester) + (Zeros(12) + beneficiary);
    assert buf[..96] == slots by {
      assert buf[..32] == ToBE(chainId, 32);
      assert buf[32..64] == Zeros(12) + attester;
      assert buf[64..96] == Zeros(12) + beneficiary;
      assert buf[..96] == buf[..32] + buf[32..64] + buf[64..96];
    }
    fits := BigIntToBytes32(amount, buf, 96);
    if !fits { return None; }
    assert buf[..128] == slots + ToBE(amount, 32);
    fits := BigIntToBytes32(epoch, buf, 128);
    if !fits { return None; }
    r := Some(buf[..]);
    assert buf[..] == buf[..128] + buf[128..160];
  }

  // ---------- what the encoders take, and where the fields are ----------

  /** Each encoder refuses exactly what its source refuses; only the engine and the node bound the narrow fields. */
  lemma {:induction false} EncodersTakeExactly(chainId: int, s: string, t: string, a: Address, b: Address, amount: int,
                                               epoch: nat)
    ensures BuilderEncode(chainId, s, t, amount, epoch).Some? <==>
      0 <= chainId < TWO_256 && 0 <= amount < TWO_256 && epoch < TWO_256
      && BuilderAddressWord(s).Some? && BuilderAddressWord(t).Some?
    ensures EngineEncode(chainId, s, t, amount, epoch).Some? <==>
      0 <= chainId < TWO_256 && 0 <= amount < TWO_128 && epoch < TWO_64
      && EngineAddressWord(s).Some? && EngineAddressWord(t).Some?
    ensures NodeEncode(chainId, a, b, amount, epoch).Some? <==>
      0 <= chainId < TWO_256 && 0 <= amount < TWO_128 && epoch < TWO_64
    ensures TypeScriptEncode(chainId, a, b, amount, epoch).Some? <==>
      0 <= chainId < TWO_256 && 0 <= amount < TWO_256 && epoch < TWO_256
  {
    hide BuilderAddressWord, EngineAddressWord, ToBE;
  }

  /** The 160 bytes, slot by slot: chain, attester, beneficiary, amount, epoch, each right-aligned in 32. */
  lemma {:induction false} RecordLayout(c: Claim)
    requires FitsSlots(c)
    ensures var b := AbiEncode(c);
            |b| == 160 && FromBE(b[..32]) == c.chainId
            && (forall i :: 32 <= i < 44 || 64 <= i < 76 ==> b[i] == 0)
            && b[44..64] == c.attester && b[76..96] == c.beneficiary
            && FromBE(b[96..128]) == c.amount && FromBE(b[128..160]) == c.epoch
  {
    var b := AbiEncode(c);
    SlotRoundTrip(c.chainId);
    SlotRoundTrip(c.amount);
    SlotRoundTrip(c.epoch);
    hide ToBE, FromBE;
    assert b[..32] == ToBE(c.chainId, 32);
    assert b[32..44] == Zeros(12) && b[64..76] == Zeros(12);
    assert forall i :: 32 <= i < 44 ==> b[i] == b[32..44][i - 32];
    assert forall i :: 64 <= i < 76 ==> b[i] == b[64..76][i - 64];
    assert b[44..64] == c.attester;
    assert b[76..96] == c.beneficiary;
    assert b[96..128] == ToBE(c.amount, 32);
    assert b[128..160] == ToBE(c.epoch, 32);
  }
}
