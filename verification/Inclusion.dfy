/**
 * Soundness of inclusion, by extraction: an accepted proof of any length names a member
 * of the batch or yields two different byte strings with the same hash. The extraction is
 * an ordinary function, so the collision is computed from the batch and the proof.
 */
module Inclusion {
  import opened ByteStrings
  import opened LeafEncoding
  import opened MerkleTree

  datatype Evidence = Member(index: nat) | Collision(x: Bytes, y: Bytes)

  predicate Collides(h: Hash, x: Bytes, y: Bytes) {
    x != y && h(x) == h(y)
  }

  function Hashes(h: Hash, preimages: seq<Bytes>): (s: seq<Word>)
    ensures |s| == |preimages|
  {
    seq(|preimages|, i requires 0 <= i < |preimages| => h(preimages[i]))
  }

  /** No leaf preimage has the 64 bytes of an interior node's preimage. */
  ghost predicate LeafSized(preimages: seq<Bytes>) {
    forall i :: 0 <= i < |preimages| ==> |preimages[i]| != 64
  }

  /** The 64 bytes whose hash is the root of a tree with more than one leaf. */
  function RootPreimage(h: Hash, preimages: seq<Bytes>): (p: Bytes)
    requires IsPow2(|preimages|) && |preimages| > 1
    ensures |p| == 64 && h(p) == TreeRoot(h, Hashes(h, preimages))
  {
    var m := |preimages| / 2;
    hide SortedPair;
    assert Hashes(h, preimages)[..m] == Hashes(h, preimages[..m]);
    assert Hashes(h, preimages)[m..] == Hashes(h, preimages[m..]);
    SortedPair(TreeRoot(h, Hashes(h, preimages[..m])), TreeRoot(h, Hashes(h, preimages[m..])))
  }

  /** The 64 bytes hashed by the last step of a replay. */
  function LastPreimage(h: Hash, c: Bytes, proof: seq<Word>): (p: Bytes)
    requires proof != []
    ensures |p| == 64 && h(p) == Replay(h, h(c), proof)
  {
    hide SortedPair;
    SortedPair(Replay(h, h(c), proof[..|proof| - 1]), proof[|proof| - 1])
  }

  /** Where the last step and the root hash the same 64 bytes, the shorter proof reaches a half. */
  lemma ReachesHalf(h: Hash, preimages: seq<Bytes>, c: Bytes, proof: seq<Word>)
    requires IsPow2(|preimages|) && |preimages| > 1 && proof != []
    requires LastPreimage(h, c, proof) == RootPreimage(h, preimages)
    ensures var m, y := |preimages| / 2, Replay(h, h(c), proof[..|proof| - 1]);
            IsPow2(m) && |preimages| == 2 * m
            && (y == TreeRoot(h, Hashes(h, preimages[..m])) || y == TreeRoot(h, Hashes(h, preimages[m..])))
  {
    hide TreeRoot, Replay, SortedPair, Less, Hashes;
    var m := |preimages| / 2;
    SortedPairDeterminesPair(
      Replay(h, h(c), proof[..|proof| - 1]), proof[|proof| - 1],
      TreeRoot(h, Hashes(h, preimages[..m])), TreeRoot(h, Hashes(h, preimages[m..])));
  }

  /** Walks the proof from the root down, comparing preimages level by level. */
  function Extract(h: Hash, preimages: seq<Bytes>, c: Bytes, proof: seq<Word>): (e: Evidence)
    requires IsPow2(|preimages|) && LeafSized(preimages) && |c| != 64
    requires Replay(h, h(c), proof) == TreeRoot(h, Hashes(h, preimages))
    ensures e.Member? ==> e.index < |preimages| && preimages[e.index] == c
    ensures e.Collision? ==> Collides(h, e.x, e.y)
    decreases |preimages|
  {
    var m := |preimages| / 2;
    if proof == [] then
      if |preimages| > 1 then Collision(c, RootPreimage(h, preimages))
      else if preimages[0] == c then Member(0)
      else Collision(c, preimages[0])
    else if |preimages| == 1 then Collision(LastPreimage(h, c, proof), preimages[0])
    else
      hide TreeRoot, Replay, LastPreimage, RootPreimage, Hashes;
      if LastPreimage(h, c, proof) != RootPreimage(h, preimages)
      then Collision(LastPreimage(h, c, proof), RootPreimage(h, preimages))
      else
        ReachesHalf(h, preimages, c, proof);
        var rest := proof[..|proof| - 1];
        if Replay(h, h(c), rest) == TreeRoot(h, Hashes(h, preimages[..m]))
        then Extract(h, preimages[..m], c, rest)
        else match Extract(h, preimages[m..], c, rest)
          case Member(i) => Member(m + i)
          case Collision(x, y) => Collision(x, y)
  }

  function Encodings(claims: seq<Claim>): (s: seq<Bytes>)
    ensures |s| == |claims|
  {
    seq(|claims|, i requires 0 <= i < |claims| => AbiEncode(claims[i]))
  }

  /** The root that the builder commits for a list of claims. */
  function ClaimsRoot(h: Hash, claims: seq<Claim>): Word
    requires claims != []
  {
    Root(h, Hashes(h, Encodings(claims)))
  }

  lemma PadCommutesWithHashes(h: Hash, claims: seq<Claim>)
    requires claims != []
    ensures Pad(Hashes(h, Encodings(claims))) == Hashes(h, Encodings(Pad(claims)))
  {
  }

  /** What an accepted proof for any record but a 64-byte one shows about the claims behind the root. */
  function JustifyRecord(h: Hash, claims: seq<Claim>, record: Bytes, proof: seq<Word>): (e: Evidence)
    requires claims != [] && |record| != 64
    requires Replay(h, h(record), proof) == ClaimsRoot(h, claims)
    ensures e.Member? ==> e.index < |claims| && AbiEncode(claims[e.index]) == record
    ensures e.Collision? ==> Collides(h, e.x, e.y)
  {
    hide AbiEncode, Replay, TreeRoot;
    PadCommutesWithHashes(h, claims);
    match Extract(h, Encodings(Pad(claims)), record, proof)
    case Collision(x, y) => Collision(x, y)
    case Member(i) => Member(if i < |claims| then i else |claims| - 1)
  }

  /** What an accepted proof for claim c shows about the claims behind the root. */
  function Justify(h: Hash, claims: seq<Claim>, c: Claim, proof: seq<Word>): (e: Evidence)
    requires claims != [] && FitsSlots(c)
    requires forall i :: 0 <= i < |claims| ==> FitsSlots(claims[i])
    requires Replay(h, h(AbiEncode(c)), proof) == ClaimsRoot(h, claims)
    ensures e.Member? ==> e.index < |claims| && claims[e.index] == c
    ensures e.Collision? ==> Collides(h, e.x, e.y)
  {
    hide AbiEncode, FitsSlots, Replay, ClaimsRoot;
    match JustifyRecord(h, claims, AbiEncode(c), proof)
    case Collision(x, y) => Collision(x, y)
    case Member(i) =>
      AbiInjective(claims[i], c);
      Member(i)
  }
}
