/** Bytes, 32-byte words, addresses, the bytewise order, and big-endian numbers. */
module ByteStrings {

  datatype Option<+T> = None | Some(value: T)

  type byte = x: int | 0 <= x < 256
  type Bytes = seq<byte>

  function Zeros(k: nat): (b: Bytes)
    ensures |b| == k
  {
    seq(k, _ => 0)
  }

  type Word = b: Bytes | |b| == 32 witness Zeros(32)
  type Address = b: Bytes | |b| == 20 witness Zeros(20)

  /** A 256-bit digest. Nothing is assumed of it beyond being a total function. */
  type Hash = Bytes -> Word

  // ---------- bytewise lexicographic order ----------

  predicate Less(a: Bytes, b: Bytes) {
    if a == [] || b == [] then b != []
    else a[0] < b[0] || (a[0] == b[0] && Less(a[1..], b[1..]))
  }

  lemma {:induction false} LessIsStrictTotalOrder(a: Bytes, b: Bytes, c: Bytes)
    ensures !Less(a, a)
    ensures a == b || Less(a, b) || Less(b, a)
    ensures !(Less(a, b) && Less(b, a))
    ensures Less(a, b) && Less(b, c) ==> Less(a, c)
  {
    var ta := if a == [] then a else a[1..];
    var tb := if b == [] then b else b[1..];
    var tc := if c == [] then c else c[1..];
    if a != [] || b != [] || c != [] {
      LessIsStrictTotalOrder(ta, tb, tc);
      if a != [] && b != [] && a[0] == b[0] && ta == tb {
        assert a == [a[0]] + ta && b == [b[0]] + tb;
      }
    }
  }

  lemma {:induction false} LessSkipsCommonPrefix(p: Bytes, a: Bytes, b: Bytes)
    ensures Less(p + a, p + b) == Less(a, b)
  {
    if p == [] {
      assert p + a == a && p + b == b;
    } else {
      assert (p + a)[1..] == p[1..] + a && (p + b)[1..] == p[1..] + b;
      LessSkipsCommonPrefix(p[1..], a, b);
    }
  }

  /** The strings part at k: the first ends there, or has the smaller byte there. */
  predicate PartsAt(a: Bytes, b: Bytes, k: nat) {
    k <= |a| && k < |b| && a[..k] == b[..k] && (k == |a| || a[k] < b[k])
  }

  /** The smaller string is the one with the smaller byte where they first differ, or a proper prefix. */
  lemma {:induction false} LessPartsSomewhere(a: Bytes, b: Bytes)
    ensures Less(a, b) <==> exists k: nat :: PartsAt(a, b, k)
  {
    forall k: nat | PartsAt(a, b, k) ensures Less(a, b) {
      assert a == a[..k] + a[k..] && b == a[..k] + b[k..];
      LessSkipsCommonPrefix(a[..k], a[k..], b[k..]);
    }
    if Less(a, b) {
      if a == [] || a[0] < b[0] {
        assert PartsAt(a, b, 0);
      } else {
        LessPartsSomewhere(a[1..], b[1..]);
        var k: nat :| PartsAt(a[1..], b[1..], k);
        assert a[..k + 1] == [a[0]] + a[1..][..k] && b[..k + 1] == [b[0]] + b[1..][..k];
        assert PartsAt(a, b, k + 1);
      }
    }
  }

  /** The byte comparison of the TypeScript verifier: its sign decides the same order. */
  method CompareBytes(a: Bytes, b: Bytes) returns (n: int)
    ensures n < 0 <==> Less(a, b)
    ensures n == 0 <==> a == b
  {
    var len := if |a| < |b| then |a| else |b|;
    for i := 0 to len
      invariant a[..i] == b[..i]
    {
      assert a == a[..i] + a[i..] && b == a[..i] + b[i..];
      LessSkipsCommonPrefix(a[..i], a[i..], b[i..]);
      if a[i] != b[i] {
        n := a[i];
        n := n - b[i];
        return;
      }
    }
    assert a == a[..len] + a[len..] && b == a[..len] + b[len..];
    LessSkipsCommonPrefix(a[..len], a[len..], b[len..]);
    n := |a| - |b|;
  }

  // ---------- numbers ----------

  /** A 32-bit word read as two's complement. */
  function Signed32(u: int): int {
    if u < 0x8000_0000 then u else u - TWO_32
  }

  const TWO_32: nat := 0x1_0000_0000
  const TWO_64: nat := 0x1_0000_0000_0000_0000
  const TWO_128: nat := 0x1_00000000_00000000_00000000_00000000
  const TWO_256: nat := 0x1_00000000_00000000_00000000_00000000_00000000_00000000_00000000_00000000

  function Pow256(k: nat): (p: nat)
    ensures p >= 1
  {
    if k == 0 then 1 else 256 * Pow256(k - 1)
  }

  lemma {:induction false} Pow256Sum(i: nat, j: nat)
    ensures Pow256(i + j) == Pow256(i) * Pow256(j)
  {
    if i > 0 {
      Pow256Sum(i - 1, j);
      assert 256 * (Pow256(i - 1) * Pow256(j)) == (256 * Pow256(i - 1)) * Pow256(j);
    }
  }

  lemma PowerValues()
    ensures Pow256(4) == TWO_32 && Pow256(8) == TWO_64
    ensures Pow256(16) == TWO_128 && Pow256(32) == TWO_256
  {
    assert Pow256(4) == TWO_32;
    Pow256Sum(4, 4);
    Pow256Sum(8, 8);
    Pow256Sum(16, 16);
  }

  /** The low k bytes of n, most significant first. */
  function ToBE(n: int, k: nat): (b: Bytes)
    ensures |b| == k
    decreases k, n  // naming n keeps the verifier from unrolling all 32 bytes
  {
    if k == 0 then [] else ToBE(n / 256, k - 1) + [n % 256]
  }

  function FromBE(b: Bytes): (n: nat) {
    if b == [] then 0 else 256 * FromBE(b[..|b| - 1]) + b[|b| - 1]
  }

  lemma MultipleAtLeast(m: nat, d: int)
    requires d >= 1
    ensures m * d >= m
  {
  }

  lemma ModUnique(n: int, m: int, q: int, r: int)
    requires n == m * q + r && 0 <= r < m
    ensures n % m == r && n / m == q
  {
    var q', r' := n / m, n % m;
    var d, e := q - q', q' - q;
    assert m * d == m * q - m * q' && m * e == m * q' - m * q;
    assert m * d == r' - r;
    if d >= 1 { MultipleAtLeast(m, d); }
    if e >= 1 { MultipleAtLeast(m, e); }
  }

  lemma ModOfQuotient(n: int, p: nat)
    requires p >= 1
    ensures n % (256 * p) == 256 * (n / 256 % p) + n % 256
  {
    var m := n / 256;
    var a, b := m / p, m % p;
    assert m == p * a + b;
    assert (256 * p) * a == 256 * (p * a);
    ModUnique(n, 256 * p, a, 256 * b + n % 256);
  }

  lemma {:induction false} FromToBE(n: int, k: nat)
    ensures FromBE(ToBE(n, k)) == n % Pow256(k)
    decreases k, n  // naming n keeps the verifier from unrolling all 32 bytes
  {
    if k > 0 {
      FromToBE(n / 256, k - 1);
      assert ToBE(n, k)[..k - 1] == ToBE(n / 256, k - 1);
      ModOfQuotient(n, Pow256(k - 1));
    }
  }

  lemma {:induction false} ToFromBE(b: Bytes)
    ensures FromBE(b) < Pow256(|b|)
    ensures ToBE(FromBE(b), |b|) == b
  {
    if b != [] {
      ToFromBE(b[..|b| - 1]);
      assert b == b[..|b| - 1] + [b[|b| - 1]];
    }
  }

  lemma {:induction false} LessOfLast(a: Bytes, b: Bytes, x: byte, y: byte)
    requires |a| == |b|
    ensures Less(a + [x], b + [y]) <==> Less(a, b) || (a == b && x < y)
  {
    if a != [] {
      LessOfLast(a[1..], b[1..], x, y);
      assert (a + [x])[1..] == a[1..] + [x] && (b + [y])[1..] == b[1..] + [y];
      assert a == [a[0]] + a[1..] && b == [b[0]] + b[1..];
    }
  }

  /** Among strings of one length the smaller is the one that writes the smaller number. */
  lemma {:induction false} LessIsNumericOrder(a: Bytes, b: Bytes)
    requires |a| == |b|
    ensures Less(a, b) <==> FromBE(a) < FromBE(b)
  {
    if a != [] {
      var n := |a| - 1;
      assert a == a[..n] + [a[n]] && b == b[..n] + [b[n]];
      LessIsNumericOrder(a[..n], b[..n]);
      LessOfLast(a[..n], b[..n], a[n], b[n]);
      ToFromBE(a[..n]);
      ToFromBE(b[..n]);
      hide Less, ToBE;
    }
  }
}
