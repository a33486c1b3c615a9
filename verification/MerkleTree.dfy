/** The sorted-pair hash, the tree over a padded leaf list, and the level-by-level builder. */
module MerkleTree {
  import opened ByteStrings

  // ---------- pair hash and proof replay ----------

  function SortedPair(a: Word, b: Word): (p: Bytes)
    ensures |p| == 64
  {
    if Less(a, b) then a + b else b + a
  }

  function HashPair(h: Hash, a: Word, b: Word): Word {
    h(SortedPair(a, b))
  }

  /** The 64-byte preimage determines the unordered pair, and nothing more. */
  lemma SortedPairDeterminesPair(a: Word, b: Word, c: Word, d: Word)
    ensures SortedPair(a, b) == SortedPair(c, d) <==> (a == c && b == d) || (a == d && b == c)
  {
    var p, q := SortedPair(a, b), SortedPair(c, d);
    LessIsStrictTotalOrder(a, b, a);
    LessIsStrictTotalOrder(c, d, c);
    assert (p[..32] == a && p[32..] == b) || (p[..32] == b && p[32..] == a);
    assert (q[..32] == c && q[32..] == d) || (q[..32] == d && q[32..] == c);
  }

  /** The word that writes the smaller number comes first in the 64 bytes that are hashed. */
  lemma {:induction false} SmallerWordFirst(h: Hash, a: Word, b: Word)
    ensures HashPair(h, a, b) == if FromBE(a) <= FromBE(b) then h(a + b) else h(b + a)
  {
    LessIsNumericOrder(a, b);
    if FromBE(a) == FromBE(b) {
      ToFromBE(a);
      ToFromBE(b);
    }
    hide Less, FromBE, ToBE;
  }

  lemma HashPairCommutes(h: Hash, a: Word, b: Word)
    ensures HashPair(h, a, b) == HashPair(h, b, a)
  {
    SortedPairDeterminesPair(a, b, b, a);
  }

  /** The value a verifier holds after folding the siblings from first to last. */
  function Replay(h: Hash, leaf: Word, proof: seq<Word>): Word {
    if proof == [] then leaf
    else HashPair(h, Replay(h, leaf, proof[..|proof| - 1]), proof[|proof| - 1])
  }

  /** The first sibling is hashed with the leaf, and the rest replay from there. */
  lemma {:induction false} ReplayFromLeaf(h: Hash, leaf: Word, sibling: Word, rest: seq<Word>)
    ensures Replay(h, leaf, []) == leaf
    ensures Replay(h, leaf, [sibling] + rest) == Replay(h, HashPair(h, leaf, sibling), rest)
  {
    hide HashPair;
    var p := [sibling] + rest;
    if rest == [] {
      assert p[..0] == [];
    } else {
      var n := |rest| - 1;
      ReplayFromLeaf(h, leaf, sibling, rest[..n]);
      assert p[..|p| - 1] == [sibling] + rest[..n];
    }
  }

  // ---------- powers of two and padding ----------

  predicate IsPow2(n: nat) {
    n == 1 || (n > 1 && n % 2 == 0 && IsPow2(n / 2))
  }

  ghost function Log2(n: nat): nat {
    if n <= 1 then 0 else 1 + Log2(n / 2)
  }

  function Exp2(k: nat): nat {
    if k == 0 then 1 else 2 * Exp2(k - 1)
  }

  /** The powers of two are 1, 2, 4 and so on, and Log2 is their exponent. */
  lemma {:induction false} PowersOfTwo(n: nat)
    ensures IsPow2(n) <==> n == Exp2(Log2(n))
    ensures IsPow2(Exp2(n)) && Log2(Exp2(n)) == n
  {
    if n > 1 { PowersOfTwo(n / 2); }
    PowersAreReached(n);
  }

  lemma {:induction false} PowersAreReached(k: nat)
    ensures Exp2(k) >= 1 && IsPow2(Exp2(k)) && Log2(Exp2(k)) == k
  {
    if k > 0 { PowersAreReached(k - 1); }
  }

  function BitAnd(a: nat, b: nat): nat {
    if a == 0 || b == 0 then 0
    else 2 * BitAnd(a / 2, b / 2) + (if a % 2 == 1 && b % 2 == 1 then 1 else 0)
  }

  lemma {:induction false} BitAndSelf(n: nat)
    ensures BitAnd(n, n) == n
  {
    if n > 0 { BitAndSelf(n / 2); }
  }

  /** The builder's test "n & (n - 1) != 0" asks whether n is not a power of two. */
  lemma {:induction false} BitTestIsPow2(n: nat)
    requires n > 0
    ensures BitAnd(n, n - 1) == 0 <==> IsPow2(n)
  {
    if n % 2 == 0 {
      BitTestIsPow2(n / 2);
      assert (n - 1) / 2 == n / 2 - 1;
    } else if n > 1 {
      assert (n - 1) / 2 == n / 2;
      BitAndSelf(n / 2);
    }
  }

  function PaddedSize(n: nat): nat {
    if n <= 1 then 1 else 2 * PaddedSize((n + 1) / 2)
  }

  /** The padded size is the least power of two that holds n leaves. */
  lemma {:induction false} PaddedSizeIsLeast(n: nat, m: nat)
    ensures IsPow2(PaddedSize(n)) && n <= PaddedSize(n)
    ensures IsPow2(m) && n <= m ==> PaddedSize(n) <= m
  {
    if n > 1 { PaddedSizeIsLeast((n + 1) / 2, m / 2); }
  }

  /** Padding to a power of two by repeating the last leaf. */
  function Pad<T>(leaves: seq<T>): (s: seq<T>)
    requires leaves != []
    ensures leaves <= s && |s| == PaddedSize(|leaves|) && IsPow2(|s|)
  {
    PaddedSizeIsLeast(|leaves|, 1);
    leaves + seq(PaddedSize(|leaves|) - |leaves|, _ => leaves[|leaves| - 1])
  }

  // ---------- the tree, read from the root down ----------

  function TreeRoot(h: Hash, s: seq<Word>): Word
    requires IsPow2(|s|)
  {
    if |s| == 1 then s[0]
    else HashPair(h, TreeRoot(h, s[..|s| / 2]), TreeRoot(h, s[|s| / 2..]))
  }

  ghost function TreePath(h: Hash, s: seq<Word>, j: nat): (p: seq<Word>)
    requires IsPow2(|s|) && j < |s|
    ensures |p| == Log2(|s|)
  {
    var m := |s| / 2;
    if |s| == 1 then []
    else if j < m then TreePath(h, s[..m], j) + [TreeRoot(h, s[m..])]
    else TreePath(h, s[m..], j - m) + [TreeRoot(h, s[..m])]
  }

  /** Every path of the tree replays its leaf to the root. */
  lemma {:induction false} PathReplays(h: Hash, s: seq<Word>, j: nat)
    requires IsPow2(|s|) && j < |s|
    ensures Replay(h, s[j], TreePath(h, s, j)) == TreeRoot(h, s)
  {
    hide HashPair;
    if |s| > 1 {
      var m, p := |s| / 2, TreePath(h, s, j);
      var a, b := TreeRoot(h, s[..m]), TreeRoot(h, s[m..]);
      if j < m {
        PathReplays(h, s[..m], j);
        assert p[..|p| - 1] == TreePath(h, s[..m], j);
      } else {
        PathReplays(h, s[m..], j - m);
        assert p[..|p| - 1] == TreePath(h, s[m..], j - m);
        HashPairCommutes(h, a, b);
      }
    }
  }

  // ---------- the tree, built level by level ----------

  ghost function PairUp(h: Hash, level: seq<Word>): seq<Word> {
    seq(|level| / 2, i requires 0 <= i < |level| / 2 => HashPair(h, level[2 * i], level[2 * i + 1]))
  }

  ghost function Sibling(level: seq<Word>, j: nat): Word
    requires j < |level| && |level| % 2 == 0
  {
    if j % 2 == 0 then level[j + 1] else level[j - 1]
  }

  lemma PairUpOfConcat(h: Hash, s: seq<Word>, t: seq<Word>)
    requires |s| % 2 == 0
    ensures PairUp(h, s + t) == PairUp(h, s) + PairUp(h, t)
  {
  }

  lemma HalvesPairUp(h: Hash, s: seq<Word>)
    requires IsPow2(|s|) && |s| >= 4
    ensures var u, m := PairUp(h, s), |s| / 2;
            IsPow2(m) && |u| == m && m % 2 == 0
            && u[..m / 2] == PairUp(h, s[..m]) && u[m / 2..] == PairUp(h, s[m..])
  {
    var m := |s| / 2;
    assert m % 2 == 0;
    assert s == s[..m] + s[m..];
    PairUpOfConcat(h, s[..m], s[m..]);
  }

  lemma {:induction false} LevelKeepsRoot(h: Hash, s: seq<Word>)
    requires IsPow2(|s|) && |s| > 1
    ensures IsPow2(|PairUp(h, s)|)
    ensures TreeRoot(h, PairUp(h, s)) == TreeRoot(h, s)
  {
    if |s| >= 4 {
      var m := |s| / 2;
      HalvesPairUp(h, s);
      LevelKeepsRoot(h, s[..m]);
      LevelKeepsRoot(h, s[m..]);
    }
  }

  lemma SiblingInHalf(s: seq<Word>, m: nat, j: nat)
    requires |s| == 2 * m && m % 2 == 0 && j < |s|
    ensures Sibling(s, j) == if j < m then Sibling(s[..m], j) else Sibling(s[m..], j - m)
    ensures j >= m ==> (j - m) / 2 == j / 2 - m / 2
  {
  }

  /** Position j of s is position i of one half; the other half is its sibling subtree. */
  ghost predicate Halves(s: seq<Word>, j: nat, half: seq<Word>, other: seq<Word>, i: nat) {
    var m := |s| / 2;
    if j < m then half == s[..m] && other == s[m..] && i == j
    else half == s[m..] && other == s[..m] && i == j - m
  }

  lemma PathUnfolds(h: Hash, s: seq<Word>, j: nat, half: seq<Word>, other: seq<Word>, i: nat)
    requires IsPow2(|s|) && |s| > 1 && j < |s| && Halves(s, j, half, other, i)
    ensures IsPow2(|half|) && IsPow2(|other|) && i < |half|
    ensures TreePath(h, s, j) == TreePath(h, half, i) + [TreeRoot(h, other)]
  {
    hide TreeRoot, HashPair;
  }

  lemma HalvesOfNextLevel(h: Hash, s: seq<Word>, j: nat, half: seq<Word>, other: seq<Word>, i: nat)
    requires IsPow2(|s|) && |s| >= 4 && j < |s| && Halves(s, j, half, other, i)
    ensures i < |half| && |half| % 2 == 0 && |s| % 2 == 0 && Sibling(s, j) == Sibling(half, i)
    ensures j / 2 < |PairUp(h, s)|
    ensures Halves(PairUp(h, s), j / 2, PairUp(h, half), PairUp(h, other), i / 2)
  {
    HalvesPairUp(h, s);
    SiblingInHalf(s, |s| / 2, j);
  }

  /** A path through one half of the tree, given the path through that half's next level. */
  lemma HalfSplitsPath(h: Hash, s: seq<Word>, j: nat, half: seq<Word>, other: seq<Word>, i: nat)
    requires IsPow2(|s|) && |s| >= 4 && j < |s| && Halves(s, j, half, other, i)
    requires i < |half| && |half| % 2 == 0 && IsPow2(|half|) && IsPow2(|PairUp(h, half)|)
    requires TreePath(h, half, i) == [Sibling(half, i)] + TreePath(h, PairUp(h, half), i / 2)
    ensures IsPow2(|PairUp(h, s)|)
    ensures TreePath(h, s, j) == [Sibling(s, j)] + TreePath(h, PairUp(h, s), j / 2)
  {
    hide TreePath, TreeRoot, Sibling;
    HalvesOfNextLevel(h, s, j, half, other, i);
    PathUnfolds(h, s, j, half, other, i);
    LevelKeepsRoot(h, s);
    LevelKeepsRoot(h, other);
    PathUnfolds(h, PairUp(h, s), j / 2, PairUp(h, half), PairUp(h, other), i / 2);
    var a := TreePath(h, PairUp(h, half), i / 2);
    assert ([Sibling(half, i)] + a) + [TreeRoot(h, other)] == [Sibling(half, i)] + (a + [TreeRoot(h, other)]);
  }

  lemma PairSplitsPath(h: Hash, s: seq<Word>, j: nat)
    requires |s| == 2 && j < 2
    ensures IsPow2(|PairUp(h, s)|)
    ensures TreePath(h, s, j) == [Sibling(s, j)] + TreePath(h, PairUp(h, s), j / 2)
  {
  }

  lemma {:induction false} LevelSplitsPath(h: Hash, s: seq<Word>, j: nat)
    requires IsPow2(|s|) && |s| > 1 && j < |s|
    ensures IsPow2(|PairUp(h, s)|)
    ensures TreePath(h, s, j) == [Sibling(s, j)] + TreePath(h, PairUp(h, s), j / 2)
  {
    hide TreePath, TreeRoot, PairUp, Sibling;
    var m := |s| / 2;
    if |s| == 2 {
      PairSplitsPath(h, s, j);
    } else if j < m {
      LevelSplitsPath(h, s[..m], j);
      HalfSplitsPath(h, s, j, s[..m], s[m..], j);
    } else {
      LevelSplitsPath(h, s[m..], j - m);
      HalfSplitsPath(h, s, j, s[m..], s[..m], j - m);
    }
  }

  function Root(h: Hash, leaves: seq<Word>): Word
    requires leaves != []
  {
    TreeRoot(h, Pad(leaves))
  }

  ghost function Proofs(h: Hash, leaves: seq<Word>): (p: seq<seq<Word>>)
    requires leaves != []
    ensures |p| == |leaves|
  {
    seq(|leaves|, j requires 0 <= j < |leaves| => TreePath(h, Pad(leaves), j))
  }

  method PadLeaves(leaves: seq<Word>) returns (padded: seq<Word>)
    requires leaves != []
    ensures padded == Pad(leaves)
  {
    padded := leaves;
    hide BitAnd, IsPow2, PaddedSize;
    PaddedSizeIsLeast(|leaves|, |padded|);
    BitTestIsPow2(|padded|);
    while BitAnd(|padded|, |padded| - 1) != 0
      invariant |leaves| <= |padded| <= PaddedSize(|leaves|)
      invariant padded == leaves + seq(|padded| - |leaves|, _ => leaves[|leaves| - 1])
      invariant BitAnd(|padded|, |padded| - 1) == 0 <==> IsPow2(|padded|)
      decreases PaddedSize(|leaves|) - |padded|
    {
      padded := padded + [padded[|padded| - 1]];
      PaddedSizeIsLeast(|leaves|, |padded|);
      BitTestIsPow2(|padded|);
    }
    PaddedSizeIsLeast(|leaves|, |padded|);
  }

  /** One pass over a level: the next level, and one more sibling on every proof. */
  method FoldLevel(h: Hash, level: seq<Word>, proofs: seq<seq<Word>>, nextIndices: seq<nat>)
    returns (newLevel: seq<Word>, grown: seq<seq<Word>>)
    requires |level| % 2 == 0 && |proofs| <= |nextIndices|
    requires forall j :: 0 <= j < |proofs| ==> nextIndices[j] < |level|
    ensures newLevel == PairUp(h, level)
    ensures |grown| == |proofs|
    ensures forall j :: 0 <= j < |proofs| ==> grown[j] == proofs[j] + [Sibling(level, nextIndices[j])]
  {
    hide HashPair;
    newLevel, grown := [], proofs;
    var i := 0;
    while i < |level|
      invariant 0 <= i <= |level| && i % 2 == 0
      invariant newLevel == PairUp(h, level)[..i / 2]
      invariant |grown| == |proofs|
      invariant forall j :: 0 <= j < |proofs| ==>
        grown[j] == if nextIndices[j] < i then proofs[j] + [Sibling(level, nextIndices[j])] else proofs[j]
    {
      var left, right := level[i], level[i + 1];
      newLevel := newLevel + [HashPair(h, left, right)];
      for orig := 0 to |proofs|
        invariant |grown| == |proofs|
        invariant forall j :: 0 <= j < |proofs| ==>
          grown[j] == if nextIndices[j] < i || (j < orig && nextIndices[j] < i + 2)
                      then proofs[j] + [Sibling(level, nextIndices[j])] else proofs[j]
      {
        var cur := nextIndices[orig];
        if cur == i {
          grown := grown[orig := grown[orig] + [right]];
        } else if cur == i + 1 {
          grown := grown[orig := grown[orig] + [left]];
        }
      }
      i := i + 2;
    }
  }

  /** The proofs collected so far, completed by the paths through the current level. */
  ghost predicate Tracks(h: Hash, padded: seq<Word>, level: seq<Word>, proofs: seq<seq<Word>>, indices: seq<nat>) {
    && IsPow2(|padded|) && IsPow2(|level|)
    && |proofs| <= |indices| && |proofs| <= |padded|
    && TreeRoot(h, level) == TreeRoot(h, padded)
    && forall j :: 0 <= j < |proofs| ==>
         indices[j] < |level| && proofs[j] + TreePath(h, level, indices[j]) == TreePath(h, padded, j)
  }

  lemma PathAdvances(h: Hash, level: seq<Word>, proof: seq<Word>, index: nat, whole: seq<Word>)
    requires IsPow2(|level|) && |level| > 1 && index < |level|
    requires proof + TreePath(h, level, index) == whole
    ensures index / 2 < |PairUp(h, level)| && IsPow2(|PairUp(h, level)|)
    ensures (proof + [Sibling(level, index)]) + TreePath(h, PairUp(h, level), index / 2) == whole
  {
    LevelSplitsPath(h, level, index);
    assert (proof + [Sibling(level, index)]) + TreePath(h, PairUp(h, level), index / 2)
        == proof + ([Sibling(level, index)] + TreePath(h, PairUp(h, level), index / 2));
  }

  lemma LevelKeepsTracks(h: Hash, padded: seq<Word>, level: seq<Word>, proofs: seq<seq<Word>>,
                         indices: seq<nat>, grown: seq<seq<Word>>, halved: seq<nat>)
    requires Tracks(h, padded, level, proofs, indices) && |level| > 1
    requires |grown| == |proofs| && |halved| == |indices|
    requires forall j :: 0 <= j < |indices| ==> halved[j] == indices[j] / 2
    requires forall j :: 0 <= j < |proofs| ==> grown[j] == proofs[j] + [Sibling(level, indices[j])]
    ensures Tracks(h, padded, PairUp(h, level), grown, halved)
  {
    LevelKeepsRoot(h, level);
    forall j | 0 <= j < |grown|
      ensures halved[j] < |PairUp(h, level)|
      ensures grown[j] + TreePath(h, PairUp(h, level), halved[j]) == TreePath(h, padded, j)
    {
      PathAdvances(h, level, proofs[j], indices[j], TreePath(h, padded, j));
    }
  }

  /** build_tree: the root of the padded tree and, for every leaf, its path; None on no leaves. */
  method BuildTree(h: Hash, leaves: seq<Word>) returns (r: Option<(Word, seq<seq<Word>>)>)
    ensures leaves == [] ==> r.None?
    ensures leaves != [] ==> r == Some((Root(h, leaves), Proofs(h, leaves)))
  {
    if leaves == [] { return None; }
    if |leaves| == 1 {
      assert Pad(leaves) == leaves;
      assert Proofs(h, leaves) == [[]];
      return Some((leaves[0], [[]]));
    }
    var padded := PadLeaves(leaves);
    var proofs: seq<seq<Word>> := seq(|leaves|, _ => []);
    var level := padded;
    var nextIndices: seq<nat> := seq(|padded|, i => i);
    while |level| > 1
      invariant |proofs| == |leaves| && Tracks(h, padded, level, proofs, nextIndices)
    {
      var newLevel, grown := FoldLevel(h, level, proofs, nextIndices);
      var halved := seq(|nextIndices|, k requires 0 <= k < |nextIndices| => nextIndices[k] / 2);
      LevelKeepsTracks(h, padded, level, proofs, nextIndices, grown, halved);
      proofs, nextIndices, level := grown, halved, newLevel;
    }
    assert proofs == Proofs(h, leaves) by {
      forall j | 0 <= j < |leaves| ensures proofs[j] == Proofs(h, leaves)[j] {
        assert proofs[j] + [] == proofs[j];
      }
    }
    r := Some((level[0], proofs));
  }

  /** What build_tree returns verifies: each proof has tree depth and replays its own leaf. */
  lemma BuiltProofsReplay(h: Hash, leaves: seq<Word>, j: nat)
    requires j < |leaves|
    ensures |Proofs(h, leaves)[j]| == Log2(PaddedSize(|leaves|))
    ensures Replay(h, leaves[j], Proofs(h, leaves)[j]) == Root(h, leaves)
  {
    PathReplays(h, Pad(leaves), j);
    PaddedSizeIsLeast(|leaves|, 1);
  }

  /** The tree over three leaves: the third is paired with itself, and each path starts at the leaf's neighbour. */
  lemma {:induction false} TreeOfThree(h: Hash, a: Word, b: Word, c: Word)
    ensures var left, right := HashPair(h, a, b), HashPair(h, c, c);
            Root(h, [a, b, c]) == HashPair(h, left, right)
            && Proofs(h, [a, b, c]) == [[b, right], [a, right], [c, left]]
  {
    hide HashPair;
    var s := [a, b, c, c];
    assert PaddedSize(3) == 2 * PaddedSize(2) && PaddedSize(2) == 2 * PaddedSize(1);
    assert Pad([a, b, c]) == s;
    assert s[..2] == [a, b] && s[2..] == [c, c];
    PathOfTwo(h, a, b);
    PathOfTwo(h, c, c);
    assert TreePath(h, s, 0) == TreePath(h, [a, b], 0) + [TreeRoot(h, [c, c])];
    assert TreePath(h, s, 1) == TreePath(h, [a, b], 1) + [TreeRoot(h, [c, c])];
    assert TreePath(h, s, 2) == TreePath(h, [c, c], 0) + [TreeRoot(h, [a, b])];
    assert Proofs(h, [a, b, c]) == [TreePath(h, s, 0), TreePath(h, s, 1), TreePath(h, s, 2)];
    hide TreePath, TreeRoot;
    var left, right := HashPair(h, a, b), HashPair(h, c, c);
    assert [b] + [right] == [b, right] && [a] + [right] == [a, right] && [c] + [left] == [c, left];
  }

  lemma {:induction false} PathOfTwo(h: Hash, a: Word, b: Word)
    ensures TreeRoot(h, [a, b]) == HashPair(h, a, b)
    ensures TreePath(h, [a, b], 0) == [b] && TreePath(h, [a, b], 1) == [a]
  {
    hide HashPair;
    assert [a, b][..1] == [a] && [a, b][1..] == [b];
  }
}
