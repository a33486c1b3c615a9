/**
 * What the operator publishes, how each of the three nodes reads it, and the verdict
 * each of them owes, stated without any order of checks.
 */
module Published {
  import opened ByteStrings
  import opened Hex
  import opened Addresses
  import opened LeafEncoding
  import opened MerkleTree
  import opened ChainCodec

  /** A missing text field reads as the empty string, a missing list as the empty list. */
  datatype Leaf = Leaf(beneficiary: string, amountWei: Option<int>, amount: Option<int>,
                       leaf: string, proof: seq<string>)

  datatype Batch = Batch(epoch: int, root: string, leaves: seq<Leaf>)

  /** Garbage: present, but not JSON of the expected shape. */
  datatype File = Absent | Garbage | Json(batch: Batch)

  /**
   * The signature files. Blank: present, with nothing but white space in it. Padded: the text
   * parses only once the white space around it is trimmed. Lax: padded, or short of a field,
   * which then reads as the empty string.
   */
  datatype Attestation = NoAttestation | BlankAttestation | BadAttestation
                       | Attestation(payload: string, sigHex: string, alg: string, lax: bool)

  datatype PublicKey = NoKey | BlankKey | BadKey | P256Key(id: int, padded: bool)

  /** named is batch-<epoch>.json, generic is batch.json; the WASM node is handed generic. */
  datatype DataDir = DataDir(named: File, generic: File, attestation: Attestation, key: PublicKey)

  type Epoch = e: int | 0 <= e < TWO_64

  /**
   * The libraries and the deployment. rangeErrorCaught says whether the exception that the
   * Python ABI encoder raises on an out-of-range number is one that verify_epoch catches;
   * pemSkipsPadding, whether the Python key loader finds a PEM header behind white space.
   */
  datatype World = World(h: Hash, ecdsa: (int, string, Bytes) -> bool,
                         chainId: int, attester: Address, rangeErrorCaught: bool, pemSkipsPadding: bool)

  datatype Verdict = Ok | Alarm | Skip | Error

  datatype Node = Python | Go | Wasm

  // ---------- reading, node by node ----------

  function LoadBatch(node: Node, dir: DataDir, epoch: Epoch): Option<Batch> {
    match node
    case Python =>
      if dir.named.Json? then (if dir.named.batch.epoch == epoch then Some(dir.named.batch) else None)
      else if dir.named.Garbage? then None
      else FromGeneric(dir.generic, epoch)
    case Go =>
      if dir.named.Json? && dir.named.batch.epoch == epoch then Some(dir.named.batch)
      else FromGeneric(dir.generic, epoch)
    case Wasm => FromGeneric(dir.generic, epoch)
  }

  function FromGeneric(f: File, epoch: Epoch): Option<Batch> {
    if f.Json? && f.batch.epoch == epoch then Some(f.batch) else None
  }

  predicate HashMatches(node: Node, s: string, w: Word) {
    if node.Python? then TextMatches(s, w) else DecodedMatches(s, w)
  }

  function ReadAddress(node: Node, s: string): Option<Address> {
    match node
    case Python => PythonAddress(s)
    case Go => GoAddress(s)
    case Wasm => WasmAddress(s)
  }

  function AsWord(b: Option<Bytes>): Option<Word> {
    if b.Some? && |b.value| == 32 then Some(b.value) else None
  }

  function ReadSibling(node: Node, s: string): Option<Word> {
    AsWord(if node.Python? then EngineBytes(s) else HexToBytes(s))
  }

  function ReadProof(node: Node, proof: seq<string>): (r: Option<seq<Word>>)
    ensures r.Some? ==> |r.value| == |proof|
  {
    if proof == [] then Some([])
    else
      var init := ReadProof(node, proof[..|proof| - 1]);
      var last := ReadSibling(node, proof[|proof| - 1]);
      if init.None? || last.None? then None else Some(init.value + [last.value])
  }

  /** A word as the builder and the Python node print it. */
  function Printed(w: Word): string {
    "0x" + HexOf(w)
  }

  /** Every node reads a printed word back, as a hash and as a proof item. */
  lemma {:induction false} PrintedWordIsRead(node: Node, w: Word)
    ensures HashMatches(node, Printed(w), w)
    ensures ReadSibling(node, Printed(w)) == Some(w)
  {
    PrintedHashParses(w);
    DecodeHexOf(w);
    hide HexOf;
  }

  /** The record a node hashes for a leaf; None is the Python encoder's range error. */
  function LeafRecord(node: Node, w: World, beneficiary: Address, amount: int, epoch: Epoch): Option<Bytes> {
    match node
    case Python => NodeEncode(w.chainId, w.attester, beneficiary, amount, epoch)
    case Go => Some(GoEncode(w.chainId, w.attester, beneficiary, amount, epoch))
    case Wasm => Some(WasmEncode(w.chainId, w.attester, beneficiary, amount, epoch))
  }

  /** The chain ids for which a node hashes a 160-byte record; Go's flag is an int64. */
  predicate TakesChainId(node: Node, w: World) {
    match node
    case Python => 0 <= w.chainId < TWO_256
    case Go => Abs(w.chainId) < TWO_256
    case Wasm => true
  }

  function AmountOf(lf: Leaf): Option<int> {
    if lf.amountWei.Some? then lf.amountWei else lf.amount
  }

  function SumOf(leaves: seq<Leaf>): int {
    if leaves == [] then 0
    else SumOf(leaves[..|leaves| - 1]) + (match AmountOf(leaves[|leaves| - 1]) case Some(a) => a case None => 0)
  }

  /** Only the WASM node trims the text of an attestation or a key, and asks for no field. */
  predicate ReadsAttestation(node: Node, att: Attestation) {
    att.Attestation? && (att.lax ==> node.Wasm?)
  }

  predicate ReadsKey(node: Node, w: World, key: PublicKey) {
    key.P256Key? && (key.padded ==> node.Wasm? || (node.Python? && w.pemSkipsPadding))
  }

  predicate SignatureChecks(node: Node, w: World, payload: string, sig: Option<Bytes>, key: PublicKey) {
    ReadsKey(node, w, key) && sig.Some? && |sig.value| == 64 && w.ecdsa(key.id, payload, sig.value)
  }

  predicate SignatureOk(node: Node, w: World, att: Attestation, key: PublicKey) {
    match node
    case Python =>
      (att.NoAttestation? && key.NoKey?)
      || (ReadsAttestation(Python, att) && att.alg == "ES256"
          && SignatureChecks(Python, w, att.payload, FromHex(att.sigHex), key))
    case Go =>
      (att.NoAttestation? && key.NoKey?)
      || (ReadsAttestation(Go, att) && att.alg == "ES256" && att.payload != "" && att.sigHex != ""
          && SignatureChecks(Go, w, att.payload, HexToBytes(att.sigHex), key))
    case Wasm =>
      att.NoAttestation? || att.BlankAttestation? || key.NoKey? || key.BlankKey?
      || (ReadsAttestation(Wasm, att) && SignatureChecks(Wasm, w, att.payload, HexToBytes(att.sigHex), key))
  }

  // ---------- the verdict owed ----------

  /** A readable leaf: a non-negative amount and a well-formed address. */
  predicate Readable(node: Node, lf: Leaf) {
    AmountOf(lf).Some? && AmountOf(lf).value >= 0 && ReadAddress(node, lf.beneficiary).Some?
  }

  function RecordOf(node: Node, w: World, epoch: Epoch, lf: Leaf): Option<Bytes>
    requires Readable(node, lf)
  {
    LeafRecord(node, w, ReadAddress(node, lf.beneficiary).value, AmountOf(lf).value, epoch)
  }

  /** The leaf re-derives to its published hash and its proof replays to the root. */
  predicate LeafOk(node: Node, w: World, epoch: Epoch, root: Word, lf: Leaf) {
    Readable(node, lf) && RecordOf(node, w, epoch, lf).Some?
    && var leaf := w.h(RecordOf(node, w, epoch, lf).value);
       HashMatches(node, lf.leaf, leaf)
       && ReadProof(node, lf.proof).Some?
       && Replay(w.h, leaf, ReadProof(node, lf.proof).value) == root
  }

  ghost predicate Accepts(node: Node, w: World, chain: ChainRecord, epoch: Epoch, dir: DataDir) {
    LoadBatch(node, dir, epoch).Some?
    && var b := LoadBatch(node, dir, epoch).value;
       HashMatches(node, b.root, chain.root)
       && b.leaves != []
       && (forall i :: 0 <= i < |b.leaves| ==> LeafOk(node, w, epoch, chain.root, b.leaves[i]))
       && SumOf(b.leaves) == chain.totalKwh
       && SignatureOk(node, w, dir.attestation, dir.key)
  }

  /** Leaf i, reached after good leaves only, holds a number the Python encoder refuses. */
  ghost predicate RangeErrorAt(w: World, chain: ChainRecord, epoch: Epoch, leaves: seq<Leaf>, i: nat) {
    i < |leaves|
    && (forall j :: 0 <= j < i ==> LeafOk(Python, w, epoch, chain.root, leaves[j]))
    && Readable(Python, leaves[i]) && RecordOf(Python, w, epoch, leaves[i]).None?
  }

  ghost predicate ReachesRangeError(w: World, chain: ChainRecord, epoch: Epoch, dir: DataDir) {
    LoadBatch(Python, dir, epoch).Some?
    && var b := LoadBatch(Python, dir, epoch).value;
       TextMatches(b.root, chain.root)
       && exists i: nat :: RangeErrorAt(w, chain, epoch, b.leaves, i)
  }

  predicate Finalized(chain: ChainRecord) {
    chain.timestamp != 0 && chain.finalized
  }

  ghost function VerdictOf(node: Node, w: World, chain: ChainRecord, epoch: Epoch, dir: DataDir): Verdict {
    if !Finalized(chain) then Skip
    else if Accepts(node, w, chain, epoch, dir) then Ok
    else if node.Python? && !w.rangeErrorCaught && ReachesRangeError(w, chain, epoch, dir) then Error
    else Alarm
  }

  /** The verdict of the browser build, which also decodes the attester and the chain's answer. */
  ghost function WasmVerdict(w: World, raw: Bytes, attester: string, epoch: Epoch, dir: DataDir): Verdict {
    if WasmAddress(attester).None? || DecodeBatches(raw).None? then Skip
    else VerdictOf(Wasm, w.(attester := WasmAddress(attester).value), DecodeBatches(raw).value, epoch, dir)
  }
}
