/** An accepted batch publishes everything behind the root, if it repeats nothing. */
module Completeness {
  import opened ByteStrings
  import opened LeafEncoding
  import opened MerkleTree
  import opened Inclusion
  import opened ChainCodec
  import opened Published
  import opened Agreement

  // ---------- totals ----------

  function ClaimsTotal(claims: seq<Claim>): nat {
    if claims == [] then 0 else ClaimsTotal(claims[..|claims| - 1]) + claims[|claims| - 1].amount
  }

  predicate Distinct(claims: seq<Claim>) {
    forall i, j :: 0 <= i < j < |claims| ==> claims[i] != claims[j]
  }

  lemma {:induction false} TotalOfConcat(a: seq<Claim>, b: seq<Claim>)
    ensures ClaimsTotal(a + b) == ClaimsTotal(a) + ClaimsTotal(b)
  {
    if b == [] {
      assert a + b == a;
    } else {
      TotalOfConcat(a, b[..|b| - 1]);
      assert (a + b)[..|a + b| - 1] == a + b[..|b| - 1];
    }
  }

  lemma WithoutOne(all: seq<Claim>, k: nat)
    requires k < |all|
    ensures var rest := all[..k] + all[k + 1..];
            ClaimsTotal(all) == ClaimsTotal(rest) + all[k].amount
            && multiset(all) == multiset(rest) + multiset{all[k]}
            && (forall c :: c in all && c != all[k] ==> c in rest)
            && (forall c :: c in rest ==> c in all)
  {
    assert all == all[..k] + [all[k]] + all[k + 1..];
    TotalOfConcat(all[..k], [all[k]]);
    TotalOfConcat(all[..k] + [all[k]], all[k + 1..]);
    TotalOfConcat(all[..k], all[k + 1..]);
    assert [all[k]][..0] == [];
  }

  lemma PositiveTotal(claims: seq<Claim>)
    requires forall c :: c in claims ==> c.amount > 0
    ensures ClaimsTotal(claims) == 0 ==> claims == []
  {
  }

  /** Distinct members with the whole total are all the members, when every amount counts. */
  lemma {:induction false} SameTotalSameClaims(some: seq<Claim>, all: seq<Claim>)
    requires Distinct(some) && forall c :: c in some ==> c in all
    requires forall c :: c in all ==> c.amount > 0
    requires ClaimsTotal(some) == ClaimsTotal(all)
    ensures multiset(some) == multiset(all)
  {
    if some == [] {
      PositiveTotal(all);
    } else {
      var n := |some| - 1;
      var init, last := some[..n], some[n];
      assert last in some;
      var k :| 0 <= k < |all| && all[k] == last;
      WithoutOne(all, k);
      WithoutOne(some, n);
      assert some[..n] + some[n + 1..] == init;
      forall c | c in init ensures c in all && c != last {
        var i :| 0 <= i < n && some[i] == c;
      }
      SameTotalSameClaims(init, all[..k] + all[k + 1..]);
    }
  }

  lemma PermutationOfDistinct(some: seq<Claim>, all: seq<Claim>)
    requires Distinct(all) && multiset(some) == multiset(all)
    ensures Distinct(some)
  {
    forall i, j | 0 <= i < j < |some| ensures some[i] != some[j] {
      if some[i] == some[j] {
        RepeatCounts(some, i, j);
        assert some[i] in multiset(all);
        var k :| 0 <= k < |all| && all[k] == some[i];
        SingleCounts(all, k);
        assert false;
      }
    }
  }

  lemma RepeatCounts(s: seq<Claim>, i: nat, j: nat)
    requires i < j < |s| && s[i] == s[j]
    ensures multiset(s)[s[i]] >= 2
  {
    assert s == s[..j] + s[j..];
    assert s[i] in s[..j] && s[i] in s[j..];
  }

  lemma SingleCounts(s: seq<Claim>, k: nat)
    requires Distinct(s) && k < |s|
    ensures multiset(s)[s[k]] == 1
  {
    assert s == s[..k] + [s[k]] + s[k + 1..];
    assert s[k] !in s[..k] && s[k] !in s[k + 1..];
  }

  // ---------- what an accepted batch publishes ----------

  /** The claims and proofs that a node reads from the published leaves. */
  ghost predicate Publishes(node: Node, w: World, epoch: Epoch, leaves: seq<Leaf>, claims: seq<Claim>,
                            proofs: seq<seq<Word>>)
  {
    |claims| == |leaves| == |proofs|
    && forall i :: 0 <= i < |leaves| ==>
         Readable(node, leaves[i]) && claims[i] == ClaimOf(node, w, epoch, leaves[i])
         && ReadProof(node, leaves[i].proof) == Some(proofs[i])
  }

  lemma {:induction false} TotalIsSum(node: Node, w: World, epoch: Epoch, leaves: seq<Leaf>, claims: seq<Claim>,
                                      proofs: seq<seq<Word>>)
    requires Publishes(node, w, epoch, leaves, claims, proofs)
    ensures ClaimsTotal(claims) == SumOf(leaves)
  {
    if leaves != [] {
      var n := |leaves| - 1;
      TotalIsSum(node, w, epoch, leaves[..n], claims[..n], proofs[..n]);
    }
  }

  /** Every published claim replays to the root of the committed ones. */
  ghost predicate ReplaysTo(h: Hash, committed: seq<Claim>, published: seq<Claim>, proofs: seq<seq<Word>>) {
    committed != [] && |published| == |proofs|
    && (forall i :: 0 <= i < |committed| ==> FitsSlots(committed[i]))
    && forall i :: 0 <= i < |published| ==>
         FitsSlots(published[i]) && Replay(h, h(AbiEncode(published[i])), proofs[i]) == ClaimsRoot(h, committed)
  }

  /** The first collision that justifying the published claims turns up, if any. */
  function FindCollision(h: Hash, committed: seq<Claim>, published: seq<Claim>, proofs: seq<seq<Word>>)
    : (r: Option<(Bytes, Bytes)>)
    requires ReplaysTo(h, committed, published, proofs)
    ensures r.Some? ==> Collides(h, r.value.0, r.value.1)
    ensures r.None? ==> forall c :: c in published ==> c in committed
  {
    if published == [] then None
    else
      match Justify(h, committed, published[0], proofs[0])
      case Collision(x, y) => Some((x, y))
      case Member(i) =>
        assert published == [published[0]] + published[1..];
        FindCollision(h, committed, published[1..], proofs[1..])
  }

  /** The proofs that the builder publishes for a list of claims. */
  ghost function BuiltProofs(h: Hash, claims: seq<Claim>): seq<seq<Word>>
    requires claims != []
  {
    Proofs(h, Hashes(h, Encodings(claims)))
  }

  lemma BuiltProofsReplayTo(h: Hash, some: seq<Claim>, all: seq<Claim>)
    requires some != [] && all != [] && ClaimsRoot(h, some) == ClaimsRoot(h, all)
    requires forall i :: 0 <= i < |some| ==> FitsSlots(some[i])
    requires forall i :: 0 <= i < |all| ==> FitsSlots(all[i])
    ensures ReplaysTo(h, all, some, BuiltProofs(h, some))
  {
    hide Replay, Proofs, Root, AbiEncode, FitsSlots;
    forall i | 0 <= i < |some|
      ensures Replay(h, h(AbiEncode(some[i])), BuiltProofs(h, some)[i]) == ClaimsRoot(h, all)
    {
      BuiltProofsReplay(h, Hashes(h, Encodings(some)), i);
    }
  }

  /** Two lists with one root have the same members, or here is a collision: a root binds the set of claims. */
  lemma RootBindsClaims(h: Hash, a: seq<Claim>, b: seq<Claim>)
    requires a != [] && b != [] && ClaimsRoot(h, a) == ClaimsRoot(h, b)
    requires forall i :: 0 <= i < |a| ==> FitsSlots(a[i])
    requires forall i :: 0 <= i < |b| ==> FitsSlots(b[i])
    ensures ReplaysTo(h, b, a, BuiltProofs(h, a)) && ReplaysTo(h, a, b, BuiltProofs(h, b))
    ensures var there, back := FindCollision(h, b, a, BuiltProofs(h, a)), FindCollision(h, a, b, BuiltProofs(h, b));
            if there.Some? then Collides(h, there.value.0, there.value.1)
            else if back.Some? then Collides(h, back.value.0, back.value.1)
            else forall c :: c in a <==> c in b
  {
    hide FitsSlots, ClaimsRoot, ReplaysTo, BuiltProofs, FindCollision;
    BuiltProofsReplayTo(h, a, b);
    BuiltProofsReplayTo(h, b, a);
  }

  /** It does not bind how often a claim occurs: padding repeats the last one and keeps the root. */
  lemma {:induction false} PaddedClaimsKeepRoot(h: Hash, claims: seq<Claim>)
    requires claims != []
    ensures forall i :: |claims| <= i < |Pad(claims)| ==> Pad(claims)[i] == claims[|claims| - 1]
    ensures ClaimsRoot(h, Pad(claims)) == ClaimsRoot(h, claims)
  {
    PadCommutesWithHashes(h, claims);
    PadIsIdempotent(claims);
    PadCommutesWithHashes(h, Pad(claims));
    hide TreeRoot, Encodings, Hashes, PaddedSize;
  }

  lemma PadIsIdempotent(claims: seq<Claim>)
    requires claims != []
    ensures Pad(Pad(claims)) == Pad(claims)
  {
    PaddedSizeIsLeast(|Pad(claims)|, |Pad(claims)|);
    assert |Pad(Pad(claims))| == |Pad(claims)|;
  }

  /** An accepted batch publishes claims and proofs, and all of them replay to the chain's root. */
  lemma AcceptedBatchPublishes(node: Node, w: World, chain: ChainRecord, epoch: Epoch, dir: DataDir)
    returns (claims: seq<Claim>, proofs: seq<seq<Word>>)
    requires Accepts(node, w, chain, epoch, dir)
    ensures Publishes(node, w, epoch, LoadBatch(node, dir, epoch).value.leaves, claims, proofs)
  {
    hide HashMatches, ReadAddress, LeafRecord, ReadProof, Replay, SignatureOk, SumOf, LoadBatch;
    var leaves := LoadBatch(node, dir, epoch).value.leaves;
    claims, proofs := [], [];
    for n := 0 to |leaves|
      invariant Publishes(node, w, epoch, leaves[..n], claims, proofs)
    {
      assert LeafOk(node, w, epoch, chain.root, leaves[n]);
      claims := claims + [ClaimOf(node, w, epoch, leaves[n])];
      proofs := proofs + [ReadProof(node, leaves[n].proof).value];
    }
    assert leaves[..|leaves|] == leaves;
  }

  lemma GoodLeafReplays(node: Node, w: World, epoch: Epoch, root: Word, lf: Leaf)
    requires LeafOk(node, w, epoch, root, lf)
    requires RecordOf(node, w, epoch, lf) == Some(AbiEncode(ClaimOf(node, w, epoch, lf)))
    ensures Replay(w.h, w.h(AbiEncode(ClaimOf(node, w, epoch, lf))), ReadProof(node, lf.proof).value) == root
  {
  }

  lemma AcceptedClaimsReplay(node: Node, w: World, chain: ChainRecord, epoch: Epoch, dir: DataDir,
                             committed: seq<Claim>, claims: seq<Claim>, proofs: seq<seq<Word>>)
    requires Accepts(node, w, chain, epoch, dir) && chain.totalKwh < TWO_128 && (node.Go? ==> TakesChainId(Go, w))
    requires Publishes(node, w, epoch, LoadBatch(node, dir, epoch).value.leaves, claims, proofs)
    requires committed != [] && chain.root == ClaimsRoot(w.h, committed)
    requires forall i :: 0 <= i < |committed| ==> InRange(committed[i])
    ensures ReplaysTo(w.h, committed, claims, proofs)
  {
    AcceptedAmountsFit(node, w, chain, epoch, dir);
    hide HashMatches, LeafOk, Readable, RecordOf, ClaimOf, ReadProof, Replay, SignatureOk, AbiEncode, SumOf,
      LoadBatch, ClaimsRoot, InRange, FitsSlots;
    forall i | 0 <= i < |committed| ensures FitsSlots(committed[i]) { InRangeFits(committed[i]); }
    var leaves := LoadBatch(node, dir, epoch).value.leaves;
    forall i | 0 <= i < |claims|
      ensures FitsSlots(claims[i]) && Replay(w.h, w.h(AbiEncode(claims[i])), proofs[i]) == chain.root
    {
      assert LeafOk(node, w, epoch, chain.root, leaves[i]);
      GoodLeafReplays(node, w, epoch, chain.root, leaves[i]);
      InRangeFits(claims[i]);
    }
  }

  /**
   * A root and total committed over distinct positive claims, and an accepting node: either
   * the published claims yield a hash collision, or they are a permutation of the committed
   * ones exactly when none is published twice.
   */
  lemma PublicationIsComplete(node: Node, w: World, chain: ChainRecord, epoch: Epoch, dir: DataDir,
                              committed: seq<Claim>, claims: seq<Claim>, proofs: seq<seq<Word>>)
    requires Accepts(node, w, chain, epoch, dir) && (node.Go? ==> TakesChainId(Go, w))
    requires Publishes(node, w, epoch, LoadBatch(node, dir, epoch).value.leaves, claims, proofs)
    requires committed != [] && Distinct(committed)
    requires forall i :: 0 <= i < |committed| ==> InRange(committed[i]) && committed[i].amount > 0
    requires chain.root == ClaimsRoot(w.h, committed) && chain.totalKwh == ClaimsTotal(committed) < TWO_128
    ensures ReplaysTo(w.h, committed, claims, proofs)
    ensures var found := FindCollision(w.h, committed, claims, proofs);
            if found.Some? then Collides(w.h, found.value.0, found.value.1)
            else multiset(claims) == multiset(committed) <==> Distinct(claims)
  {
    AcceptedClaimsReplay(node, w, chain, epoch, dir, committed, claims, proofs);
    TotalIsSum(node, w, epoch, LoadBatch(node, dir, epoch).value.leaves, claims, proofs);
    hide LeafOk, HashMatches, SignatureOk, LoadBatch, Publishes, ReplaysTo, FindCollision, ClaimsRoot, InRange;
    if FindCollision(w.h, committed, claims, proofs).None? {
      forall c | c in committed ensures c.amount > 0 {
        var i :| 0 <= i < |committed| && committed[i] == c;
      }
      if Distinct(claims) { SameTotalSameClaims(claims, committed); }
      if multiset(claims) == multiset(committed) { PermutationOfDistinct(claims, committed); }
    }
  }

  // ---------- the repeated leaf ----------

  lemma {:induction false} SumOfUpdate(leaves: seq<Leaf>, i: nat, lf: Leaf)
    requires i < |leaves| && AmountOf(lf) == AmountOf(leaves[i])
    ensures SumOf(leaves[i := lf]) == SumOf(leaves)
  {
    var n := |leaves| - 1;
    var t := leaves[i := lf];
    if i < n {
      SumOfUpdate(leaves[..n], i, lf);
      assert t[..n] == leaves[..n][i := lf];
    } else {
      assert t[..n] == leaves[..n];
    }
  }

  /**
   * No node looks for repeats: publishing leaf j again in place of a leaf i of the same
   * amount keeps the verdict OK, so the distinctness above cannot be dropped.
   */
  lemma RepeatedLeafIsAccepted(node: Node, w: World, chain: ChainRecord, epoch: Epoch, dir: DataDir, altered: DataDir,
                               i: nat, j: nat)
    requires Finalized(chain) && VerdictOf(node, w, chain, epoch, dir) == Ok
    requires var b := LoadBatch(node, dir, epoch).value;
             i < |b.leaves| && j < |b.leaves| && AmountOf(b.leaves[i]) == AmountOf(b.leaves[j])
             && LoadBatch(node, altered, epoch) == Some(b.(leaves := b.leaves[i := b.leaves[j]]))
    requires altered.attestation == dir.attestation && altered.key == dir.key
    ensures VerdictOf(node, w, chain, epoch, altered) == Ok
  {
    hide LeafOk, HashMatches, SignatureOk, LoadBatch, ReachesRangeError, SumOf;
    var leaves := LoadBatch(node, dir, epoch).value.leaves;
    SumOfUpdate(leaves, i, leaves[j]);
    assert LeafOk(node, w, epoch, chain.root, leaves[j]);
    assert Accepts(node, w, chain, epoch, altered);
  }
}
