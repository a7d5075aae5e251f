/** Bytes, fixed-width integers, and how concatenations of byte strings come apart. */
module ByteStrings {

  import opened GoTypes

  /** 32 bytes: a hash, a public key or an ABI word. */
  type Word = s: seq<byte> | |s| == 32
    witness [0, 0, 0, 0, 0, 0, 0, 0, 0, 0, 0, 0, 0, 0, 0, 0, 0, 0, 0, 0, 0, 0, 0, 0, 0, 0, 0, 0, 0, 0, 0, 0]

  /** What a reader finds at the front of its input, and the bytes behind it. */
  datatype Parse<+T> = Parsed(value: T, rest: seq<byte>) | Malformed

  lemma {:induction false} Assoc<T>(a: seq<T>, b: seq<T>, c: seq<T>)
    ensures a + b + c == a + (b + c)
  {
  }

  lemma {:induction false} Regroup<T>(a: seq<T>, b: seq<T>, c: seq<T>, d: seq<T>)
    ensures a + b + c + d == a + (b + (c + d))
  {
  }

  lemma {:induction false} AppendPair<T>(a: seq<T>, x: T, y: T)
    ensures a + [x] + [y] == a + [x, y]
  {
  }

  /** Fronts of equal length can be compared apart from what follows. */
  lemma {:induction false} Cut<T>(a: seq<T>, s: seq<T>, b: seq<T>, t: seq<T>)
    requires |a| == |b|
    ensures a + s == b + t <==> a == b && s == t
  {
    assert (a + s)[..|a|] == a && (a + s)[|a|..] == s;
    assert (b + t)[..|b|] == b && (b + t)[|b|..] == t;
  }

  lemma {:induction false} CutAt<T>(a: seq<T>, s: seq<T>)
    ensures (a + s)[..|a|] == a && (a + s)[|a|..] == s
  {
  }

  /** The common piece is last on both sides, or it is nothing. */
  lemma {:induction false} DropMiddle<T>(a: seq<T>, b: seq<T>, m: seq<T>, v: seq<T>)
    requires a + m == b + m + v && (m == [] || v == [])
    ensures a == b + v && (m != [] ==> a == b)
  {
    if m == [] {
      assert a + m == a && b + m == b;
    } else {
      assert b + m + v == b + m && b + v == b;
      Cut(a, m, b, m);
    }
  }

  lemma {:induction false} SameFirstAndRest<T>(a: seq<T>, b: seq<T>)
    requires |a| == |b| > 0 && a[0] == b[0] && a[1..] == b[1..]
    ensures a == b
  {
    assert a == [a[0]] + a[1..] && b == [b[0]] + b[1..];
  }

  function Pow256(k: nat): (p: nat)
    ensures p > 0
  {
    if k == 0 then 1 else 256 * Pow256(k - 1)
  }

  lemma {:induction false} PowersOf256()
    ensures Pow256(4) == TWO32
    ensures Pow256(5) == 0x100_0000_0000 && Pow256(8) == TWO64
  {
    assert Pow256(4) == TWO32;
  }

  /** The low k bytes, lowest first. */
  function LittleEndian(n: nat, k: nat): (r: seq<byte>)
    ensures |r| == k
  {
    if k == 0 then [] else [n % 256] + LittleEndian(n / 256, k - 1)
  }

  /** The low k bytes, highest first. */
  function BigEndian(n: nat, k: nat): (r: seq<byte>)
    ensures |r| == k
  {
    if k == 0 then [] else BigEndian(n / 256, k - 1) + [n % 256]
  }

  lemma {:induction false} BigEndianInjective(m: nat, n: nat, k: nat)
    requires m < Pow256(k) && n < Pow256(k)
    ensures BigEndian(m, k) == BigEndian(n, k) <==> m == n
    decreases k
  {
    if k > 0 && BigEndian(m, k) == BigEndian(n, k) {
      Cut(BigEndian(m / 256, k - 1), [m % 256], BigEndian(n / 256, k - 1), [n % 256]);
      BigEndianInjective(m / 256, n / 256, k - 1);
      assert [m % 256][0] == [n % 256][0];
    }
  }

  function Zeros(k: nat): (r: seq<byte>)
    ensures |r| == k
  {
    seq(k, _ => 0)
  }

  lemma {:induction false} BigEndianOfZero(k: nat)
    ensures BigEndian(0, k) == Zeros(k)
  {
    if k > 0 {
      BigEndianOfZero(k - 1);
    }
  }

  /** Multiplying by a power of 256 puts zeros behind. */
  lemma {:induction false} BigEndianShift(n: nat, j: nat, k: nat)
    ensures BigEndian(n * Pow256(k), j + k) == BigEndian(n, j) + Zeros(k)
    decreases k
  {
    if k > 0 {
      BigEndianShift(n, j, k - 1);
      var p := Pow256(k - 1);
      var m := n * p;
      assert n * Pow256(k) == 256 * m by {
        assert Pow256(k) == 256 * p;
      }
      hide Pow256;
      assert BigEndian(256 * m, j + k) == BigEndian(m, j + k - 1) + [0];
      assert Zeros(k) == Zeros(k - 1) + [0];
    } else {
      assert n * Pow256(0) == n && BigEndian(n, j) + Zeros(0) == BigEndian(n, j);
    }
  }

  lemma {:induction false} PowerOf28()
    ensures Pow256(28) == 0x1_00000000_00000000_00000000_00000000_00000000_00000000_00000000
  {
    assert Pow256(4) == 0x1_00000000;
    assert Pow256(8) == 0x1_00000000_00000000;
    assert Pow256(12) == 0x1_00000000_00000000_00000000;
    assert Pow256(16) == 0x1_00000000_00000000_00000000_00000000;
    assert Pow256(20) == 0x1_00000000_00000000_00000000_00000000_00000000;
    assert Pow256(24) == 0x1_00000000_00000000_00000000_00000000_00000000_00000000;
  }

  /** A number is read back from its bytes, lowest first. */
  function FromLittleEndian(b: seq<byte>): nat {
    if b == [] then 0 else b[0] + 256 * FromLittleEndian(b[1..])
  }

  lemma {:induction false} LittleEndianBelow(b: seq<byte>)
    ensures FromLittleEndian(b) < Pow256(|b|)
  {
    if b != [] {
      LittleEndianBelow(b[1..]);
    }
  }

  /** A number is read back from its bytes, highest first. */
  function FromBigEndian(b: seq<byte>): nat {
    if b == [] then 0 else 256 * FromBigEndian(b[..|b| - 1]) + b[|b| - 1]
  }

  lemma {:induction false} LittleEndianValue(n: nat, k: nat)
    requires n < Pow256(k)
    ensures FromLittleEndian(LittleEndian(n, k)) == n
    decreases k
  {
    if k > 0 {
      LittleEndianValue(n / 256, k - 1);
    }
  }

  lemma {:induction false} BigEndianValue(n: nat, k: nat)
    requires n < Pow256(k)
    ensures FromBigEndian(BigEndian(n, k)) == n
    decreases k
  {
    if k > 0 {
      BigEndianValue(n / 256, k - 1);
      assert BigEndian(n, k)[..k - 1] == BigEndian(n / 256, k - 1);
    }
  }

  /** Leading zeros do not count. */
  lemma {:induction false} ZerosInFront(k: nat, b: seq<byte>)
    ensures FromBigEndian(Zeros(k) + b) == FromBigEndian(b)
    decreases |b| + k
  {
    var z := Zeros(k) + b;
    if b != [] {
      ZerosInFront(k, b[..|b| - 1]);
      assert z[..|z| - 1] == Zeros(k) + b[..|b| - 1];
    } else if k > 0 {
      ZerosInFront(k - 1, []);
      assert z[..k - 1] == Zeros(k - 1) + [];
    }
  }

  /** A small number has zeros in front. */
  lemma {:induction false} BigEndianPadding(n: nat, k: nat, j: nat)
    requires n < Pow256(j)
    ensures BigEndian(n, k + j) == Zeros(k) + BigEndian(n, j)
    decreases j
  {
    if j == 0 {
      BigEndianOfZero(k);
    } else {
      BigEndianPadding(n / 256, k, j - 1);
    }
  }
}
