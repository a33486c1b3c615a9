# Noethrion batch verification, modelled in Dafny

Noethrion commits, once per epoch, the Merkle root and the total of a batch of energy claims
on a chain. The operator publishes the batch; independent watchdogs written in Python, Go and
Go compiled to WASM re-derive every leaf and replay every proof. This project models the
batch builder, the leaf encoders, the proof replayers, the three watchdogs and their loops,
the JavaScript glue that carries the browser watchdog, and the firmware's tick schedule. It
proves what an OK verdict means and where the implementations agree.

`dafny verify dfyconfig.toml` checks the whole project.

## How it is laid out

| file | what it models |
|---|---|
| ByteStrings.dfy | bytes, the bytewise order, big-endian numbers |
| Hex.dfy, Addresses.dfy | how each implementation reads hashes, proof items and addresses from text |
| LeafEncoding.dfy | the 160-byte claim record and its encoders |
| MerkleTree.dfy, Inclusion.dfy | the level-by-level builder, replay, and soundness of inclusion |
| ChainCodec.dfy | the hand-written ABI codec of the WASM node |
| Published.dfy | the published data, the readings of the three nodes, the verdict owed |
| Readings.dfy | the families of text that one node reads and another does not |
| VerifierNodes.dfy | the three nodes as they run, proved against that verdict |
| Verdicts.dfy | what the readings and verdicts mean in plain terms of text, bytes and fields |
| Agreement.dfy, Completeness.dfy, BatchAssembly.dfy | agreement, completeness and round trip |
| WatchdogRun.dfy | the epoch loops of the Python and Go nodes |
| TypeScriptHex.dfy, Integrators.dfy | the Python and TypeScript verifiers for integrators |
| JsMemory.dfy, GoRefs.dfy, GoCells.dfy, GoInstance.dfy | linear memory and the reference table of the Go runtime glue |
| Scheduler.dfy | the firmware's 32-bit schedule |

## Conventions

- The hash is a parameter: any total function from byte strings to 32-byte words. It is never
  assumed injective. Where a proof of inclusion could fail only by a collision, an ordinary
  (compilable) function computes the two colliding byte strings from the batch and the proof.
- Signature checking is a parameter too, a predicate on key, payload and the 64 signature bytes.
- `pemSkipsPadding` is a parameter: whether the Python key loader finds a PEM header that white
  space precedes on its line. Otherwise the JSON and PEM parsers of the nodes read one text alike.
- `rangeErrorCaught` is a parameter: the source does not show whether the exception that the
  Python ABI encoder raises on an out-of-range number is one of those that
  node/verifier_node.py:205-220 catches. Both answers are covered.
- The three nodes share one declarative verdict, `Published.VerdictOf`, indexed by the node for
  the readings in which they differ. Each node's own control flow is a method proved equal to it.
- Library behaviour the nodes rely on is taken as follows. Web3's address check drops one
  prefix in either case and wants forty hex digits. go-ethereum's LeftPadBytes returns a longer
  slice unchanged. `bytes.fromhex` skips ASCII white space between digit pairs. `str.strip`
  also strips U+001C to U+001F, which Go's TrimSpace does not.

## What the code does not do

These are results of the model; each has its lemmas in the table below.

- The three verdicts are not always equal, as node/_parity_test.sh:3-24 and the comment at
  node/go/wasm/main_wasm.go:16-22 have it. They are equal exactly when no node accepts
  something that only it reads and no range error escapes (`Agreement.VerdictsAgreeExactly`).
  What only one node reads is a property of the files and the chain id, next; where there is
  no such thing the verdicts are equal on any chain (`Agreement.SameReadingsSameVerdict`).
- Text: Python alone accepts hashes framed by information separators and proof items with
  spaces inside; it alone misses prefixed proof items behind white space and addresses that need
  trimming. Go alone accepts an address with the two prefixes `0x0X`.
- Files: a bad `batch-<epoch>.json` beside a good `batch.json` stops Python and not Go.
- Signatures: WASM skips the check when either file is absent or blank, where the others refuse
  unless both are absent. It trims texts that Go parses as they stand, asks for no field, and
  checks no algorithm. Only Go refuses an empty payload; Python and WASM do not look. Python
  alone reads signature digits with spaces between them, and it alone refuses a signature
  printed with `0x`.
- Chain id: both Go nodes read a negative one as its magnitude, Python refuses it
  (`Agreement.NegativeChainIdVerdict`).
- A root does not bind how often a claim occurs (`Completeness.PaddedClaimsKeepRoot`), only the
  set of claims.
- The docstring at node/verifier_node.py:170-177 promises an ALARM for any unusable data on a
  finalized epoch. If the encoder's range error is not caught, an amount of 2^128 or more
  leaves `verify_epoch` as an exception instead (`Agreement.OverflowingAmountEscapes`).
- No node looks for a leaf published twice. A repeat in place of another leaf of the same amount
  keeps the verdict OK (`Completeness.RepeatedLeafIsAccepted`), so completeness of publication
  holds exactly for batches without repeats.
- The TypeScript hex reader gets through malformed digit pairs
  (`TypeScriptHex.ReadersAgreeExactly`), because parseInt stops at the first bad character.

## Model

| member | source | states |
|---|---|---|
| ByteStrings.LessIsStrictTotalOrder | tools/verify_attestation.py:135-139 | the bytewise comparison that sorts a pair is irreflexive, asymmetric, transitive and total on all byte strings |
| ByteStrings.LessIsNumericOrder | examples/lifecycle/03_build_merkle_tree.py:91-93 | among strings of one length the smaller is the one that writes the smaller number |
| ByteStrings.LessPartsSomewhere | node/go/main.go:112-118 | on all strings the smaller has the smaller byte at the first difference, or is a proper prefix |
| ByteStrings.CompareBytes | examples/integrators/javascript_verifier.ts:216-222 | the loop's sign decides the same order, and 0 means equality, also for different lengths |
| ByteStrings.FromToBE | examples/lifecycle/03_build_merkle_tree.py:69-73 | k big-endian bytes of any integer read back as that integer mod 256^k |
| ByteStrings.ToFromBE | examples/lifecycle/03_build_merkle_tree.py:69-73 | every byte string is the big-endian form of the number it reads as: the form is unique |
| Hex.DecodeHexOf | examples/lifecycle/03_build_merkle_tree.py:177-184 | printed bytes are read back by hex.DecodeString and by bytes.fromhex |
| Hex.PrintedDigits | examples/lifecycle/03_build_merkle_tree.py:177-184 | byte i prints as two of the sixteen lower-case digits, high digit first |
| Hex.DigitsMeant | node/go/main.go:61-64 | a digit is read as its place among 0-9a-f or 0-9A-F |
| Hex.CharactersMeant | node/go/main.go:61-64 | which characters are white space to Go and to Python, and which are lowered |
| Hex.TrimmedText | node/go/main.go:61-64 | TrimSpace cuts white space off both ends, all of it and nothing else |
| Hex.StrippedText | node/verifier_node.py:246-255 | so does strip, with the white space of Python |
| Hex.HexToBytesReads | node/go/main.go:61-64 | hexToBytes gives b exactly where the trimmed, lowered text prints b, behind 0x or not |
| Hex.TextMatchesReads | node/verifier_node.py:246-255 | the Python comparison accepts exactly where the stripped, lowered text does |
| Hex.FromHexOfPrinted | tools/verify_attestation.py:77-85 | bytes.fromhex goes on behind printed bytes and white space, whatever follows |
| Hex.FromHexStopsInsidePair | tools/verify_attestation.py:77-85 | it refuses white space inside a pair and any other character |
| Hex.DecodeStringInverts | node/go/main.go:61-64 | lower-case text decodes to given bytes exactly when it is their printed form |
| Hex.HexComparisonsAgree | node/verifier_node.py:246-255 | for every string and hash the Go byte comparison accepts exactly when the Python text comparison does and no information separator is at the edge |
| Hex.SeparatorSplitsTheNodes | node/verifier_node.py:287-293 | the excepted family is inhabited: a hash behind U+001C passes Python and fails Go |
| Hex.PrintedHashParses | examples/lifecycle/03_build_merkle_tree.py:177-184 | a hash printed behind 0x passes both comparisons |
| Hex.ProofItemReadersAgreeExactly | tools/verify_attestation.py:102-110 | the Python and Go readers of a proof item agree on exactly the strings outside two families: inner spaces, and a prefix behind white space |
| Hex.SignatureReadersAgreeExactly | tools/verify_attestation.py:77-85 | the Python and Go readers of a signature agree on exactly the strings outside two families: inner spaces, and a prefix |
| Readings.HashCarriesOver | node/verifier_node.py:246-255 | a hash one node accepts another accepts exactly outside the family of separator edges |
| Readings.AddressCarriesOver | node/go/main.go:66-83 | an address one node reads another reads, to the same bytes, exactly outside trimming (Python) and double prefixes |
| Readings.ProofCarriesOver | tools/verify_attestation.py:102-114 | a proof one node reads another reads, to the same words, exactly when no item is in the family |
| Readings.SignatureCarriesOver | node/go/wasm/main_wasm.go:208-245 | signature material that passes one node passes another exactly outside the stated family |
| Addresses.PlainAddressesAgree | tools/verify_attestation.py:163-198 | forty hex digits after an optional 0x read as the same address, or padded word, in all five readers |
| Addresses.PythonAddressExactly | node/verifier_node.py:99-113 | Python reads an address as the WASM node does, exactly unless trimming was needed |
| Addresses.GoAddressExactly | node/go/main.go:73-83 | the native Go reader differs from the WASM one exactly on 0x0X followed by forty digits |
| Addresses.AddressWordsExactly | tools/verify_attestation.py:163-198 | the builder and the engine read an address argument alike exactly unless its prefix is 0X |
| LeafEncoding.AbiRoundTrip | examples/lifecycle/03_build_merkle_tree.py:59-74 | the five fields are recovered from the 160 bytes |
| LeafEncoding.AbiInjective | examples/lifecycle/03_build_merkle_tree.py:59-74 | two records are equal exactly when chain, attester, beneficiary, amount and epoch are |
| LeafEncoding.RecordLayout | examples/lifecycle/03_build_merkle_tree.py:59-74 | the record byte for byte: which 32-byte slot holds which field, and its leading zeros |
| LeafEncoding.EncodersTakeExactly | tools/verify_attestation.py:163-198 | exactly which numbers and addresses each Python and TypeScript encoder takes |
| LeafEncoding.LeftPad32IsModulo | node/go/wasm/main_wasm.go:61-69 | padding the minimal bytes writes every natural number mod 2^256 |
| LeafEncoding.LeftPadBytesExactly | node/go/main.go:87-95 | the native padding yields the 32-byte slot exactly below 2^256, and more bytes otherwise |
| LeafEncoding.WasmEncodesModulo | node/go/wasm/main_wasm.go:83-93 | the WASM record is the ABI record of the claim with its numbers mod 2^256 |
| LeafEncoding.GoEncodesExactly | node/go/main.go:85-95 | the native record is the ABI record exactly when every number fits its slot |
| LeafEncoding.WasmReadsMagnitude | node/go/wasm/main_wasm.go:83-93 | for every chain id, negative or too wide, the WASM record is the ABI record of its magnitude mod 2^256 |
| LeafEncoding.NegativeChainId | node/go/main.go:85-95 | a negative chain id encodes as its magnitude in both Go nodes and is refused by the Python and TypeScript encoders |
| LeafEncoding.EncodersAgree | examples/integrators/python_verifier_library.py:171-193 | all six encoders yield the same 160 bytes on in-range claims with plainly written addresses |
| LeafEncoding.BigIntToBytes32 | examples/integrators/javascript_verifier.ts:224-232 | succeeds for exactly 0 <= n < 2^256, writes the low 32 big-endian bytes, touches no other byte |
| LeafEncoding.TypeScriptComputeRecord | examples/integrators/javascript_verifier.ts:151-180 | the buffer filled in place is the ABI record, or the call throws |
| MerkleTree.SortedPairDeterminesPair | examples/lifecycle/03_build_merkle_tree.py:91-93 | two sorted 64-byte preimages are equal exactly when the unordered pairs are |
| MerkleTree.HashPairCommutes | examples/lifecycle/03_build_merkle_tree.py:91-93 | the pair hash does not depend on the order of its arguments |
| MerkleTree.SmallerWordFirst | spec/noethrion-attestation-v0.1.md:262-268 | what is hashed is the 64 bytes with the word of the smaller number first |
| MerkleTree.ReplayFromLeaf | node/go/main.go:97-121 | a replay hashes the first sibling with the leaf and goes on from there |
| MerkleTree.PowersOfTwo | examples/lifecycle/03_build_merkle_tree.py:111-115 | the numbers called powers of two are the repeated doublings of 1, and Log2 is their exponent |
| MerkleTree.BitTestIsPow2 | examples/lifecycle/03_build_merkle_tree.py:111-115 | the loop's bit test fails exactly on powers of two |
| MerkleTree.PaddedSizeIsLeast | examples/lifecycle/03_build_merkle_tree.py:111-115 | the padded size is the least power of two that holds the leaves |
| MerkleTree.PadLeaves | examples/lifecycle/03_build_merkle_tree.py:111-115 | the loop appends the last leaf up to that size and stops there |
| MerkleTree.FoldLevel | examples/lifecycle/03_build_merkle_tree.py:123-134 | one pass pairs up the level and appends to each proof the sibling on its path |
| MerkleTree.LevelKeepsRoot | examples/lifecycle/03_build_merkle_tree.py:123-137 | pairing up a level keeps the root of the recursive tree |
| MerkleTree.LevelSplitsPath | examples/lifecycle/03_build_merkle_tree.py:123-137 | a leaf's path is its sibling followed by its path in the next level |
| MerkleTree.PathReplays | spec/noethrion-attestation-v0.1.md:262-268 | every path of the recursive tree replays its leaf to the root, whichever side the siblings are on |
| MerkleTree.BuildTree | examples/lifecycle/03_build_merkle_tree.py:100-137 | the loop returns the root of the recursive tree over the padded leaves and each leaf's path, for every non-empty list; no leaves is the error |
| MerkleTree.BuiltProofsReplay | examples/lifecycle/03_build_merkle_tree.py:100-137 | every returned proof has log2 of the padded size and replays its own leaf to the root |
| MerkleTree.TreeOfThree | examples/lifecycle/03_build_merkle_tree.py:100-137 | over three leaves the third is paired with itself; the root and the three proofs, word by word |
| Inclusion.Extract | spec/noethrion-attestation-v0.1.md:270 | an accepted proof of any length names a member preimage or computes two byte strings with equal hash, using 64-byte nodes against other leaf sizes |
| Inclusion.JustifyRecord | spec/noethrion-attestation-v0.1.md:270 | the same for any record but a 64-byte one against a builder's root: it is a committed claim's record or here is a collision |
| Inclusion.Justify | spec/noethrion-attestation-v0.1.md:304-310 | the same for claims: the claim is in the batch or here is a collision |
| ChainCodec.RecordRoundTrip | node/go/wasm/main_wasm.go:145-164 | every well-formed eight-word answer, with any tail, decodes to its root, total, timestamp and finality |
| ChainCodec.DecodeBatches | node/go/wasm/main_wasm.go:147-154 | exactly the answers under 256 bytes are rejected |
| ChainCodec.AnswerLayout | node/go/wasm/main_wasm.go:145-164 | at which bytes of any long enough answer the root, total, timestamp and flag are read |
| ChainCodec.BatchesCallNamesEpoch | node/go/wasm/main_wasm.go:130-136 | the call data is selector and epoch: 36 bytes from which the epoch reads back |
| Published.PrintedWordIsRead | examples/lifecycle/03_build_merkle_tree.py:177-184 | every node accepts a printed word as that hash and reads it as that proof item |
| Verdicts.LoadsExactly | node/verifier_node.py:127-163 | for each node, exactly which file of the directory it uses for an epoch |
| Verdicts.HashReadsExactly | node/verifier_node.py:246-255 | for each node, exactly which published texts are taken as a given hash |
| Verdicts.ProofReadsExactly | tools/verify_attestation.py:102-114 | a proof reads as the words of its items in order, and not at all if one item fails |
| Verdicts.ClaimFields | node/go/main.go:263-280 | the claim a leaf stands for, field by field: amount_wei before amount, the chain id without sign |
| Verdicts.GoodLeafExactly | node/verifier_node.py:270-303 | whichever encoder a node has, a leaf is good exactly if it is readable and its claim hashes in ABI form to the published hash and on to the root |
| Verdicts.LeafHashBindsClaim | node/verifier_node.py:287-296 | two good leaves with one published hash make the same claim or collide |
| Verdicts.VerdictKinds | node/verifier_node.py:186-194 | SKIP exactly when the epoch is not proposed or not finalized, on every node; an error in Python only |
| Verdicts.FailsClosed | node/_parity_test.sh:8-18 | on a finalized epoch, absent or unusable data, no leaves, another root, another total, a failed signature or an unusable leaf never yields OK or SKIP |
| Verdicts.AcceptanceFixesCommitment | node/verifier_node.py:246-255 | the files that a node accepts determine the root and total of the chain |
| Verdicts.SignatureIsJudged | node/go/main.go:123-185 | on every node no material passes, a broken part is refused, and a printed signature passes exactly if it has 64 bytes and verifies |
| Verdicts.PassedSignatureVerifies | node/verifier_node.py:315-347 | an attestation that passes beside a key, whatever its text, holds 64 bytes that verify |
| Verdicts.BrowserSkipsExactly | node/go/wasm/main_wasm.go:253-268 | the browser build skips exactly on an attester that prints no address, an answer under 256 bytes, or zero bytes in the timestamp or flag |
| Verdicts.BrowserSkipsOnRecord | node/go/wasm/main_wasm.go:253-268 | on the encoded record of a chain it skips exactly where the other nodes do |
| Verdicts.BrowserJudgesItsAttester | node/go/wasm/main_wasm.go:253-357 | it derives every leaf for the attester it was given as text |
| Verdicts.PythonErrsExactly | node/verifier_node.py:205-220 | the range error ends a check exactly if not caught and, under the right root, the first leaf that is not good is readable and too large, or the chain id is |
| VerifierNodes.EngineVerifyMerkle | tools/verify_attestation.py:96-143 | parse-all-then-fold, with keccak256, accepts exactly when the parsed proof replays to the parsed root, and exits on any unreadable item |
| VerifierNodes.GoVerifyMerkle | node/go/main.go:97-121 | the one-pass fold, also of the WASM node, gives the same answer, with an error for any unreadable item |
| VerifierNodes.LoadBatchFile | node/verifier_node.py:127-163 | which candidate file is used, and when the result is absent or malformed |
| VerifierNodes.PythonCheckSignature | node/verifier_node.py:315-347 | passes exactly when both parts are absent, or both are present and the signature is valid |
| VerifierNodes.PythonCheckLeaf | node/verifier_node.py:270-303 | adds the amount exactly when the leaf is readable, re-derives to its published hash and replays; names when the encoder's range error leaves it |
| VerifierNodes.PythonVerifyFinalizedEpoch | node/verifier_node.py:223-347 | the early-return loop says OK exactly on the declarative acceptance, else ALARM or an exception, the range error exactly when the first bad leaf raises it |
| VerifierNodes.PythonVerifyEpoch | node/verifier_node.py:166-220 | the verdict: SKIP exactly for a zero timestamp or an epoch not finalized, OK exactly when accepted, error exactly on an uncaught range error, else ALARM |
| VerifierNodes.GoLoadBatch | node/go/main.go:187-213 | which candidate file is used, and when a problem is reported |
| VerifierNodes.GoCheckSignature | node/go/main.go:123-185 | the native signature rule |
| VerifierNodes.GoVerifyEpoch | node/go/main.go:215-316 | the native node's early returns and loop give the declarative verdict, SKIP exactly for a zero timestamp or an epoch not finalized |
| VerifierNodes.WasmCheckSignature | node/go/wasm/main_wasm.go:208-245 | the browser signature rule, which skips half-published material |
| VerifierNodes.WasmVerifyEpoch | node/go/wasm/main_wasm.go:253-357 | the browser node's verdict from the raw answer and the attester text, SKIP exactly if one does not decode or the epoch is not final |
| Agreement.AcceptedAmountsFit | node/go/main.go:263-300 | an accepted batch with a uint128 total has only in-range amounts, each hashed in exact ABI form, although Go and WASM bound none |
| Agreement.AcceptanceCarriesOver | node/_parity_test.sh:3-24 | what one node accepts another accepts exactly when nothing in the directory is read by the first only |
| Agreement.VerdictsAgreeExactly | node/_parity_test.sh:3-24 | any two nodes on the same batch give equal verdicts exactly when neither accepts what only it reads and no range error escapes; no field, file or amount is restricted, and the chain id only to a native flag's width |
| Agreement.SameReadingsSameVerdict | node/_parity_test.sh:3-24 | checked on the files alone: nothing read by one node only and no amount of 2^128 or more give equal verdicts on any chain |
| Agreement.NegativeChainIdVerdict | node/go/main.go:321-344 | under a negative chain id the Go and WASM verdicts are those for its magnitude, and Python accepts nothing |
| Agreement.PythonAndGoAgreeExactly | node/_parity_test.sh:3-24 | the same of Python and Go on every directory, batch-<epoch>.json included |
| Agreement.BrowserAgreesExactly | node/go/wasm/main_wasm.go:253-269 | fed the encoded answer, the attester text and the native node's file, the browser verdict equals the native one exactly outside the Go/WASM families |
| Agreement.OverflowingAmountEscapes | node/verifier_node.py:205-220 | an oversized first amount escapes Python as an error while Go and WASM raise ALARM |
| Agreement.LoadersAgreeExactly | node/go/main.go:192-212 | the loaders agree exactly unless a bad named file precedes a matching generic one |
| Agreement.GoWasmSignaturesAgreeExactly | node/go/wasm/main_wasm.go:208-245 | the native and browser rules agree exactly outside material with a part absent or blank and valid signatures with another algorithm, an empty payload or a lax file |
| Agreement.PythonGoSignaturesAgreeExactly | tools/verify_attestation.py:46-93 | the Python and native rules agree exactly outside valid ES256 signatures over an empty payload, with inner spaces, under a padded key, or with a prefix |
| Agreement.PrefixedSignatureSplits | tools/verify_attestation.py:77-86 | a valid signature printed with 0x passes Go and fails Python |
| Agreement.EmptyPayloadSplits | node/go/main.go:159-161 | a valid signature over an empty payload passes Python and WASM and fails Go |
| Agreement.OtherAlgorithmSplits | node/go/wasm/main_wasm.go:214-244 | a valid signature under another algorithm's name passes WASM only |
| Agreement.HalfSignatureSplits | node/go/wasm/main_wasm.go:208-213 | material with a part absent or blank, but not both absent, passes WASM only |
| Agreement.LaxSignatureSplits | node/go/wasm/main_wasm.go:208-244 | a valid signature in files that parse only once trimmed, or in an attestation short of a field, passes WASM, fails Go, and passes Python exactly if the key alone is padded and its loader skips the padding |
| BatchAssembly.AssembleBatch | examples/lifecycle/03_build_merkle_tree.py:155-187 | the assembled file is the printed tree over the encoded rows, with their total; an unencodable row is the error |
| BatchAssembly.BuilderEncodesClaims | examples/lifecycle/03_build_merkle_tree.py:167-170 | for in-range rows the builder's records are the ABI records of the claims |
| BatchAssembly.RowsRepresent | examples/lifecycle/03_build_merkle_tree.py:155-170 | any in-range claims of one deployment and epoch can be written as input rows that stand for them |
| BatchAssembly.BuiltFileFields | examples/lifecycle/03_build_merkle_tree.py:174-186 | the file field by field: 0x-prefixed hashes and siblings, amounts under amount_wei only, rows in order |
| BatchAssembly.BuiltFileIsLoaded | examples/lifecycle/03_build_merkle_tree.py:174-186 | every node loads the file built for an epoch for that epoch, under either name, and for no other |
| BatchAssembly.AssembledBatchIsAccepted | examples/lifecycle/03_build_merkle_tree.py:167-187 | the printed batch of in-range claims, where a node looks for it, is judged OK against its root and total |
| BatchAssembly.BuiltBatchIsAccepted | examples/lifecycle/03_build_merkle_tree.py:155-187 | from rows to verdict: main succeeds, and its file, published as batch.json or under its epoch, is judged OK by every node on a final chain with its root and total |
| BatchAssembly.AssembledBatchPublishes | examples/lifecycle/03_build_merkle_tree.py:178-186 | every node reads the claims and proofs of an assembled batch back as those it was assembled from |
| Completeness.AcceptedBatchPublishes | node/verifier_node.py:269-304 | an accepted batch determines a claim and a readable proof for every leaf |
| Completeness.FindCollision | node/verifier_node.py:297-302 | over a whole batch: every published claim is committed, or a collision is computed |
| Completeness.SameTotalSameClaims | node/verifier_node.py:306-312 | distinct members with the whole total are all the members when every amount is positive |
| Completeness.PublicationIsComplete | node/verifier_node.py:269-313 | for an accepted batch over distinct positive claims: a collision, or the published claims are a permutation of the committed ones exactly when none repeats |
| Completeness.RepeatedLeafIsAccepted | node/go/main.go:263-300 | a repeat in place of a leaf of equal amount keeps the verdict OK on every node |
| Completeness.RootBindsClaims | spec/noethrion-attestation-v0.1.md:270 | two lists of claims with one root have the same members, or a collision is computed from the built proofs |
| Completeness.PaddedClaimsKeepRoot | examples/lifecycle/03_build_merkle_tree.py:111-115 | repeats of the last claim up to the padded size keep the root |
| WatchdogRun.PythonRun | node/verifier_node.py:357-400 | the loop with its three variables and early returns computes the fold of the verdicts it meets |
| WatchdogRun.GoRun | node/go/main.go:347-393 | the Go loop computes the same fold without a last verified epoch |
| WatchdogRun.RunningState | node/verifier_node.py:357-400 | epoch, last verified epoch and alarm count are determined by the trace; a daemon never exits |
| WatchdogRun.CountIsMultiplicity | node/verifier_node.py:357-400 | the counts in it are multiplicities in the trace |
| WatchdogRun.OnceExitCode | node/README.md:60-62 | a --once run ends exactly at the first verdict that is not OK, with 0, 1 or 2 exactly for SKIP, ALARM or error |
| WatchdogRun.EpochMovesOnOkOnly | node/verifier_node.py:385-400 | the epoch polled moves by one on OK and stays on anything else |
| WatchdogRun.PassedEpochGotOk | node/verifier_node.py:385-389 | every epoch passed got OK at some tick and is never polled again |
| WatchdogRun.PassedEpochWasAccepted | node/verifier_node.py:357-400 | of a run still going: at that tick it was finalized on chain and accepted against the data published then |
| WatchdogRun.ExitMeans | node/README.md:60-62 | of a finished --once run: every epoch before the last was finalized and accepted at its tick, and the last was not finalized, finalized and refused, or without a verdict, as the code says |
| WatchdogRun.MetDecides | node/verifier_node.py:357-400 | the verdicts met before the exit decide the result; a daemon meets the whole trace |
| WatchdogRun.RunsAgreeExactly | node/README.md:60-62 | over any world, --once or as daemons, the Python and Go loops meet the same verdicts exactly when their verdicts split at no tick the Go loop reaches |
| Integrators.PythonVerifyMerkle | examples/integrators/python_verifier_library.py:104-127 | the answer is root and sibling lengths plus replay of the encoded claim |
| Integrators.TypeScriptHashPair | examples/integrators/javascript_verifier.ts:182-188 | compareBytes and the merged buffer give the common pair hash |
| TypeScriptHex.TypeScriptHexToBytes | examples/integrators/javascript_verifier.ts:194-204 | the loop over pairs reads what parseInt leaves of each, or throws |
| TypeScriptHex.PairsMeant | examples/integrators/javascript_verifier.ts:194-204 | what two digits, a digit and another character, or two other characters read as |
| TypeScriptHex.ReadersAgreeExactly | examples/integrators/javascript_verifier.ts:194-204 | the lax and the strict reader agree on exactly the strings outside two families: non-hex characters, and text that needs trimming |
| Integrators.TypeScriptVerifyMerkle | examples/integrators/javascript_verifier.ts:119-149 | from textual arguments: the in-place record replayed over the siblings read in order, with each throw and each wrong length |
| Integrators.LibrariesAcceptBuiltProofs | examples/integrators/python_verifier_library.py:104-127 | given the textual arguments of a claim in a built batch and its built proof, both libraries accept |
| Integrators.PythonAcceptsCommitted | examples/integrators/python_verifier_library.py:104-127 | whatever arguments the Python library accepts name a committed claim, or the proof yields a collision |
| Integrators.TypeScriptAcceptsCommitted | examples/integrators/javascript_verifier.ts:119-149 | the same of the TypeScript verifier for whatever texts it accepts |
| Integrators.PythonRefuses | examples/integrators/python_verifier_library.py:104-127 | one root at most is accepted, wrong lengths never; when it answers no and when it raises |
| Integrators.TypeScriptRefuses | examples/integrators/javascript_verifier.ts:119-149 | the same of the TypeScript verifier and its throws |
| Integrators.FirstBadSiblingDecides | examples/integrators/javascript_verifier.ts:119-149 | the first sibling that is not a word decides: unreadable text throws, another length is a no |
| JsMemory.ReadBack | docs/network/wasm_exec.js:119-122 | a stored word reads back mod 2^32 |
| JsMemory.LittleEndian | docs/network/wasm_exec.js:119-122 | the lowest byte of a word comes first |
| JsMemory.WordsOfI64 | docs/network/wasm_exec.js:119-132 | the low word is at the address, the high word behind it, and no other byte changes |
| JsMemory.Int64RoundTrip | docs/network/wasm_exec.js:119-132 | getInt64 after setInt64 is the identity on exactly the signed 64-bit integers |
| GoRefs.InitialIsValid | docs/network/wasm_exec.js:485-503 | the initial table satisfies the invariant |
| GoRefs.ReservedIds | docs/network/wasm_exec.js:485-503 | in every valid table the first seven ids hold their fixed values, six of them found by value |
| GoRefs.KeysOfValues | docs/network/wasm_exec.js:165-175 | every value is its own key but -0, which has the key of 0 |
| GoRefs.FreedIdComesBack | docs/network/wasm_exec.js:165-175 | a new value takes the id freed last, or a fresh one at the end |
| GoRefs.FloatClasses | docs/network/wasm_exec.js:134-142 | by magnitude the 64 bits are zero, a number up to infinity, or a NaN |
| GoRefs.AcquireKeepsValid | docs/network/wasm_exec.js:165-175 | finding or allocating an id keeps counts, pool and inverse index consistent |
| GoRefs.ReleaseKeepsValid | docs/network/wasm_exec.js:313-323 | dropping a counted reference keeps them consistent |
| GoCells.CountsAreOutstanding | docs/network/wasm_exec.js:494-503 | over every run each count is the number of references handed out and not finalized |
| GoCells.TableInvariant | docs/network/wasm_exec.js:485-503 | over every run the seven reserved values stay, pool ids hold null and are exactly the unreferenced ones, and ids and values are inverse, both ways, on the rest |
| GoCells.NoReissueWhileReferenced | docs/network/wasm_exec.js:165-175 | a referenced id is issued again only for the value it names |
| GoCells.StoredCell | docs/network/wasm_exec.js:147-195 | what storeValue leaves in the cell: a tagged NaN with the id, a plain NaN, zero, or the number |
| GoCells.CellOfValue | docs/network/wasm_exec.js:147-195 | the two words of the cell, literally, for each kind of value, with the type flag and an id that names the value |
| GoCells.LegalExactly | docs/network/wasm_exec.js:313-323 | from the initial table a call is legal exactly if in bounds and, for a finalize, of a reserved or outstanding id |
| GoCells.LoadAtOnce | docs/network/wasm_exec.js:134-195 | with nothing in between every value but -0 is loaded back as itself |
| GoCells.LoadFromBits | docs/network/wasm_exec.js:134-145 | any cell by its bits: zero is undefined, a number itself, a NaN the value its low word names |
| GoCells.LoadAfterStore | docs/network/wasm_exec.js:134-195 | loadValue returns the stored value, -0 as 0, through any later stores and writes elsewhere and finalizes that leave it a reference |
| GoCells.KeptExactly | docs/network/wasm_exec.js:313-323 | keeping a reference is having a count other than zero after every step |
| GoInstance.Go.constructor | docs/network/wasm_exec.js:485-503 | run sets up the initial table |
| GoInstance.Go.SetInt64 | docs/network/wasm_exec.js:119-122 | writes the two words of the value and nothing else |
| GoInstance.Go.GetInt64 | docs/network/wasm_exec.js:128-132 | reads them back as one signed number |
| GoInstance.Go.LoadValue | docs/network/wasm_exec.js:134-145 | the method refines the load step |
| GoInstance.Go.StoreValue | docs/network/wasm_exec.js:147-195 | the method refines the store step on table and memory and keeps the table valid |
| GoInstance.Go.FinalizeRef | docs/network/wasm_exec.js:313-323 | the method refines the release step, leaves memory alone and keeps the table valid for a counted reference |
| Scheduler.Firmware.Loop | firmware/src/main.cpp:145-155 | one poll: a tick exactly if the signed 32-bit lag is not negative, then 10000 ms and 250 Wh more, else no change, and that this is the true schedule's step where the counter tells the truth |
| Scheduler.Firmware.ReadMeterWhStub | firmware/src/main.cpp:99-104 | adds 250 Wh mod 2^64 and returns the new total |
| Scheduler.DueSeesLagModulo | firmware/src/main.cpp:149-151 | the signed test sees only the true lag mod 2^32 |
| Scheduler.LagInvariant | firmware/src/main.cpp:145-155 | after every paced poll the lag is between one tick ahead and the lag at the start |
| Scheduler.ScheduleIsExact | firmware/src/main.cpp:149-154 | after every poll the ticks, due time and meter are those of the unbounded schedule exactly as long as each lag mod 2^32 tells the truth |
| Scheduler.LagInRangeTellsTruth | firmware/src/main.cpp:149-151 | a lag within 2^31 either way always does |
| Scheduler.PacedScheduleIsIdeal | firmware/src/main.cpp:145-155 | so a first poll before 2^31 ms and gaps of at most 10000 ms keep due time and meter those of the ticks due, forever |
| Scheduler.PromptScheduleIsOnTime | firmware/src/main.cpp:149-154 | started within the first interval, the ticks after a poll at T are T / 10000 + 1 |
| Scheduler.TenSecondTicks | firmware/src/main.cpp:16 | in numbers: polled every 10 s or faster from the first 10 s on, after time T there were T / 10000 + 1 ticks of 250 Wh on 1000000 Wh |
| Scheduler.NextTick | firmware/src/main.cpp:149-154 | however it is paced, a poll at t adds a tick to k of them exactly if t >= 10000 * k |
| Scheduler.LateFirstPoll | firmware/src/main.cpp:146-151 | the pace is needed: a first poll fires exactly in the lower half of the counter |

## Left out

- NoethrionAttester.sol and NoethrionToken.sol: only the record that the batches getter returns is modelled.
- Keccak-256, SHA-256, ECDSA P-256, PEM and X.509: parameters, or the outcome of parsing a key.
- RPC, file reading, JSON text, command lines, sleeping and log messages: a tick shows typed data or nothing.
- JSON nulls, floats and numeric strings: amounts are JSON integers or absent, a missing text field of a batch is the empty string.
- A batch without an epoch counts as unusable; both Go nodes read it as a batch for epoch 0, below the default first epoch.
- Non-ASCII text: white space, case and prefixes are those of ASCII strings.
- Detail lines beside a verdict, with their labels "fully verified" and "signature not checked": they add no branch.
- The signature half of the integrator libraries and the sha256 option of the engine: library code and a second value of the hash parameter.
- Epochs of 2^64 and above: runs are shorter than the counter.
- JavaScript numbers in setInt64 and getInt64 are exact integers; fractional arguments are not modelled.
- The rest of wasm_exec.js, including memory growth and finalizes of ids with no counted reference: the invariant is about legal runs.
- The rest of the firmware, key provisioning, EIP-55 warnings, pages and installers: no state worth a proof.
- VerifierNodes.PythonVerifyFinalizedEpoch: which of the caught exceptions is raised is not stated, because every one of them ends in ALARM.
