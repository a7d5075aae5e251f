/** Cutting a sequence into pieces of a given size. */
module Chunking {

  /** Pieces of `size` elements, and what is left. */
  ghost function Split<T>(payload: seq<T>, size: nat): seq<seq<T>>
    requires size > 0
    decreases |payload|
  {
    if payload == [] then []
    else if |payload| <= size then [payload]
    else [payload[..size]] + Split(payload[size..], size)
  }

  ghost function Joined<T>(pieces: seq<seq<T>>): seq<T> {
    if pieces == [] then [] else pieces[0] + Joined(pieces[1..])
  }

  lemma {:induction false} SplitNothing<T>(size: nat)
    requires size > 0
    ensures Split<T>([], size) == []
  {
  }

  lemma {:induction false} SplitStep<T>(rest: seq<T>, size: nat)
    requires size > 0 && rest != []
    ensures var n := if size > |rest| then |rest| else size;
      Split(rest, size) == [rest[..n]] + Split(rest[n..], size)
  {
    if |rest| <= size {
      assert rest[..|rest|] == rest && rest[|rest|..] == [];
    }
  }

  lemma {:induction false} MulAtLeast(m: nat, d: nat)
    requires d >= 1
    ensures m * d >= m
  {
    if d > 1 {
      MulAtLeast(m, d - 1);
      assert m * d == m * (d - 1) + m;
    }
  }

  lemma {:induction false} DivUnique(m: nat, k: int, t: int, k': int, t': int)
    requires m * k + t == m * k' + t' && 0 <= t < m && 0 <= t' < m
    ensures k == k' && t == t'
  {
    if k < k' {
      assert m * (k' - k) == m * k' - m * k;
      MulAtLeast(m, k' - k);
    } else if k > k' {
      assert m * (k - k') == m * k - m * k';
      MulAtLeast(m, k - k');
    }
  }

  lemma {:induction false} ModLess(n: nat, m: nat)
    requires 0 < m < n
    ensures (n - m) % m == n % m
  {
    assert m * (n / m - 1) == m * (n / m) - m;
    DivUnique(m, (n - m) / m, (n - m) % m, n / m - 1, n % m);
  }

  /** The pieces concatenate to the payload. */
  lemma {:induction false} SplitJoins<T>(payload: seq<T>, size: nat)
    requires size > 0
    ensures Joined(Split(payload, size)) == payload
    decreases |payload|
  {
    if payload != [] && |payload| <= size {
      assert Joined([payload]) == payload + Joined([]);
    } else if payload != [] {
      SplitJoins(payload[size..], size);
      assert Split(payload, size)[1..] == Split(payload[size..], size);
    }
  }

  /** The size of the last piece of `n` bytes, by repeated subtraction. */
  ghost function LastSize(n: nat, size: nat): nat
    requires size > 0
  {
    if n <= size then n else LastSize(n - size, size)
  }

  lemma {:induction false} LastSizeIsRemainder(n: nat, size: nat)
    requires size > 0 && n > 0
    ensures LastSize(n, size) == if n % size == 0 then size else n % size
    decreases n
  {
    if n < size {
      DivUnique(size, n / size, n % size, 0, n);
    } else if n == size {
      DivUnique(size, n / size, n % size, 1, 0);
    } else {
      ModLess(n, size);
      LastSizeIsRemainder(n - size, size);
    }
  }

  /** All pieces but the last have the searched size, and the last one has what is left. */
  lemma {:induction false} SplitSizes<T>(payload: seq<T>, size: nat, k: nat)
    requires size > 0 && k < |Split(payload, size)|
    ensures |Split(payload, size)[k]| == if k < |Split(payload, size)| - 1 then size else LastSize(|payload|, size)
    decreases |payload|
  {
    if |payload| > size {
      var rest := payload[size..];
      assert Split(payload, size) == [payload[..size]] + Split(rest, size);
      SplitSizes(rest, size, if k == 0 then 0 else k - 1);
    }
  }

  /** One piece for every `size` elements begun. */
  lemma {:induction false} SplitCount<T>(payload: seq<T>, size: nat)
    requires size > 0
    ensures |Split(payload, size)| == (|payload| + size - 1) / size
    decreases |payload|
  {
    var n := |payload| + size - 1;
    if |payload| <= size {
      DivUnique(size, n / size, n % size, if payload == [] then 0 else 1, if payload == [] then n else |payload| - 1);
    } else {
      SplitCount(payload[size..], size);
      var m := n - size;
      assert size * (m / size + 1) == size * (m / size) + size;
      DivUnique(size, n / size, n % size, m / size + 1, m % size);
    }
  }
}
