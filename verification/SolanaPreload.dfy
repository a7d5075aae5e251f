/** Uploading signatures to a Solana account with bounded retries over an unreliable link
    (sdk/solana/executor.go, sdk/solana/common.go). */
module SolanaPreload {

  import opened GoTypes

  datatype Signature = Signature(r: nat, s: nat, v: uint8)

  const MAX_ATTEMPTS := 3
  const V_THRESHOLD := 2
  const V_OFFSET := 27

  /** The recovery id as the program expects it. */
  function Convert(sig: Signature): Signature {
    if sig.v < V_THRESHOLD then sig.(v := sig.v + V_OFFSET) else sig
  }

  ghost function ConvertAll(sigs: seq<Signature>): (r: seq<Signature>)
    ensures |r| == |sigs|
  {
    seq(|sigs|, i requires 0 <= i < |sigs| => Convert(sigs[i]))
  }

  method SolanaSignatures(sigs: seq<Signature>) returns (out: seq<Signature>)
    ensures out == ConvertAll(sigs)
  {
    var a := new Signature[|sigs|](_ => Signature(0, 0, 0));
    for i := 0 to |sigs|
      invariant forall k :: 0 <= k < i ==> a[k] == Convert(sigs[k])
    {
      var v: int := sigs[i].v;
      if v < V_THRESHOLD {
        v := v + V_OFFSET;
      }
      a[i] := Signature(sigs[i].r, sigs[i].s, v);
    }
    return a[..];
  }

  /** Every signature keeps its place, its r and its s; a recovery id 0 or 1 becomes 27 or 28. */
  lemma {:induction false} ConvertedIs(sigs: seq<Signature>, i: nat)
    requires i < |sigs|
    ensures |ConvertAll(sigs)| == |sigs|
    ensures ConvertAll(sigs)[i].r == sigs[i].r && ConvertAll(sigs)[i].s == sigs[i].s
    ensures ConvertAll(sigs)[i].v == if sigs[i].v < 2 then sigs[i].v + 27 else sigs[i].v
  {
  }

  /** Converting twice changes nothing more, and 0, 1 and 27, 28 are the same recovery ids. */
  lemma {:induction false} ConvertIsCanonical(x: Signature, y: Signature)
    ensures Convert(Convert(x)) == Convert(x)
    ensures Convert(x) == Convert(y) <==>
      (x.r == y.r && x.s == y.s && (x.v == y.v || (x.v < 2 && y.v == x.v + 27) || (y.v < 2 && x.v == y.v + 27)))
  {
  }

  // ----- chunk indexes

  /** Consecutive ranges of `size` items from `i` up to `n`, the last one cut short. */
  ghost function Ranges(i: nat, n: nat, size: nat): seq<(nat, nat)>
    requires size > 0
    decreases n - i
  {
    if i >= n then [] else [(i, if i + size > n then n else i + size)] + Ranges(i + size, n, size)
  }

  method ChunkIndexes(numItems: nat, chunkSize: nat) returns (indexes: seq<(nat, nat)>)
    requires chunkSize > 0
    ensures indexes == Ranges(0, numItems, chunkSize)
  {
    indexes := [];
    var i := 0;
    while i < numItems
      invariant indexes + Ranges(i, numItems, chunkSize) == Ranges(0, numItems, chunkSize)
      decreases numItems - i
    {
      var end := i + chunkSize;
      if end > numItems {
        end := numItems;
      }
      ghost var rest := Ranges(i + chunkSize, numItems, chunkSize);
      assert indexes + ([(i, end)] + rest) == indexes + [(i, end)] + rest;
      indexes := indexes + [(i, end)];
      i := i + chunkSize;
    }
  }

  /** The ranges are non-empty, `size` long but for the last, which may be shorter, and tile `[i, n)` in order. */
  lemma {:induction false} RangesTile(i: nat, n: nat, size: nat, k: nat)
    requires size > 0 && k < |Ranges(i, n, size)|
    ensures var r := Ranges(i, n, size);
      && r[0].0 == i && r[|r| - 1].1 == n
      && r[k].0 < r[k].1 <= n && r[k].1 - r[k].0 <= size
      && (k + 1 < |r| ==> r[k + 1].0 == r[k].1 && r[k].1 - r[k].0 == size)
    decreases n - i
  {
    var rest := Ranges(i + size, n, size);
    if rest != [] {
      RangesTile(i + size, n, size, if k == 0 then 0 else k - 1);
    }
  }

  // ----- the program and the link

  datatype Instruction =
    | Init(total: uint8)
    | Append(signatures: seq<Signature>)
    | Finalize
    | Clear

  datatype Account = Absent | Open(total: nat, signatures: seq<Signature>) | Finalized(signatures: seq<Signature>)

  datatype Applied = Accepted(account: Account) | Rejected

  /** The on-chain program: init needs an unused address, append an open account with room,
      finalize a full one, and clear closes any account. */
  function Apply(ix: Instruction, a: Account): Applied {
    match ix
    case Init(n) => if a.Absent? then Accepted(Open(n, [])) else Rejected
    case Append(more) =>
      if a.Open? && |a.signatures| + |more| <= a.total
      then Accepted(a.(signatures := a.signatures + more)) else Rejected
    case Finalize =>
      if a.Open? && |a.signatures| == a.total then Accepted(Finalized(a.signatures)) else Rejected
    case Clear => if a.Absent? then Rejected else Accepted(Absent)
  }

  /** Only a full account is finalized, with the signatures it holds, and an open one never holds too many. */
  lemma {:induction false} FinalizedWhenFull(ix: Instruction, a: Account, s: seq<Signature>)
    ensures Apply(ix, a) == Accepted(Finalized(s)) <==> ix.Finalize? && a == Open(|s|, s)
    ensures (a.Open? ==> |a.signatures| <= a.total) && Apply(ix, a).Accepted? && Apply(ix, a).account.Open? ==>
      |Apply(ix, a).account.signatures| <= Apply(ix, a).account.total
  {
  }

  /** What the link does to a send: deliver it, or report an error with any text, the instruction applied or not. */
  datatype Link = Delivers | Fails(applied: bool, saysInUse: bool)

  datatype Outcome = Ok | Error(accountInUse: bool)

  /** Init and clear, `k` times over. */
  ghost function Cycles(total: uint8, k: nat): seq<Instruction> {
    if k == 0 then [] else [Init(total), Clear] + Cycles(total, k - 1)
  }

  ghost function Appends(sols: seq<Signature>, ranges: seq<(nat, nat)>): seq<Instruction>
    requires forall i :: 0 <= i < |ranges| ==> ranges[i].0 <= ranges[i].1 <= |sols|
  {
    seq(|ranges|, i requires 0 <= i < |ranges| => Append(sols[ranges[i].0..ranges[i].1]))
  }

  ghost function Upload(sols: seq<Signature>, size: nat): seq<Instruction>
    requires size > 0 && |sols| <= 255
  {
    RangesInside(0, |sols|, size);
    [Init(|sols|)] + Appends(sols, Ranges(0, |sols|, size)) + [Finalize]
  }

  lemma {:induction false} RangesInside(i: nat, n: nat, size: nat)
    requires size > 0
    ensures forall k :: 0 <= k < |Ranges(i, n, size)| ==> Ranges(i, n, size)[k].0 <= Ranges(i, n, size)[k].1 <= n
  {
    forall k | 0 <= k < |Ranges(i, n, size)|
      ensures Ranges(i, n, size)[k].0 <= Ranges(i, n, size)[k].1 <= n
    {
      RangesTile(i, n, size, k);
    }
  }

  /** `k` init-clear cycles and then the upload, cut off at some point. */
  ghost predicate IsAttempt(sent: seq<Instruction>, sols: seq<Signature>, size: nat, k: nat, done: bool)
    requires size > 0 && |sols| <= 255
  {
    var cycles, upload := Cycles(|sols|, k), Upload(sols, size);
    && cycles <= sent && sent[|cycles|..] <= upload
    && (done ==> sent[|cycles|..] == upload)
  }

  ghost predicate IsBoundedAttempt(sent: seq<Instruction>, sols: seq<Signature>, size: nat, bound: int, done: bool)
    requires size > 0 && |sols| <= 255
  {
    exists k: nat :: k <= bound && IsAttempt(sent, sols, size, k, done)
  }

  /** An init that is not followed up. */
  lemma {:induction false} InitOnly(sols: seq<Signature>, size: nat, bound: nat)
    requires size > 0 && |sols| <= 255
    ensures IsBoundedAttempt([Init(|sols|)], sols, size, bound, false)
  {
    assert IsAttempt([Init(|sols|)], sols, size, 0, false);
  }

  lemma {:induction false} InitAndClear(sols: seq<Signature>, size: nat, bound: nat)
    requires size > 0 && |sols| <= 255 && bound >= 1
    ensures IsBoundedAttempt([Init(|sols|), Clear], sols, size, bound, false)
  {
    assert Cycles(|sols|, 0) == [];
    assert [Init(|sols|), Clear] + [] == [Init(|sols|), Clear];
    assert IsAttempt([Init(|sols|), Clear], sols, size, 1, false);
  }

  lemma {:induction false} OneMoreCycle(rest: seq<Instruction>, sols: seq<Signature>, size: nat, bound: nat, done: bool)
    requires size > 0 && |sols| <= 255 && IsBoundedAttempt(rest, sols, size, bound, done)
    ensures IsBoundedAttempt([Init(|sols|), Clear] + rest, sols, size, bound + 1, done)
  {
    hide Upload;
    var k: nat :| k <= bound && IsAttempt(rest, sols, size, k, done);
    var all := [Init(|sols|), Clear] + rest;
    assert all[|Cycles(|sols|, k)| + 2..] == rest[|Cycles(|sols|, k)|..];
    assert all[..2] == [Init(|sols|), Clear];
    assert IsAttempt(all, sols, size, k + 1, done);
  }

  /** Occurrences of init and of clear instructions. */
  ghost function Count(sent: seq<Instruction>): (nat, nat) {
    if sent == [] then (0, 0)
    else
      var (inits, clears) := Count(sent[..|sent| - 1]);
      var last := sent[|sent| - 1];
      (if last.Init? then inits + 1 else inits, if last.Clear? then clears + 1 else clears)
  }

  ghost function InitsAt(sent: seq<Instruction>): set<nat> {
    set k: nat | k < |sent| && sent[k].Init?
  }

  ghost function ClearsAt(sent: seq<Instruction>): set<nat> {
    set k: nat | k < |sent| && sent[k].Clear?
  }

  lemma {:induction false} LastAt(sent: seq<Instruction>)
    requires sent != []
    ensures var n := |sent| - 1;
      && InitsAt(sent) == InitsAt(sent[..n]) + (if sent[n].Init? then {n} else {})
      && ClearsAt(sent) == ClearsAt(sent[..n]) + (if sent[n].Clear? then {n} else {})
  {
  }

  lemma {:induction false} CountIsCardinality(sent: seq<Instruction>)
    ensures Count(sent) == (|InitsAt(sent)|, |ClearsAt(sent)|)
    decreases |sent|
  {
    if sent != [] {
      CountIsCardinality(sent[..|sent| - 1]);
      LastAt(sent);
    }
  }

  lemma {:induction false} CountConcat(s: seq<Instruction>, t: seq<Instruction>)
    ensures Count(s + t) == (Count(s).0 + Count(t).0, Count(s).1 + Count(t).1)
    decreases |t|
  {
    if t == [] {
      assert s + t == s;
    } else {
      CountConcat(s, t[..|t| - 1]);
      assert (s + t)[..|s + t| - 1] == s + t[..|t| - 1];
    }
  }

  lemma {:induction false} CountCycles(total: uint8, k: nat)
    ensures Count(Cycles(total, k)) == (k, k)
  {
    if k > 0 {
      var once: seq<Instruction> := [Init(total), Clear];
      CountCycles(total, k - 1);
      CountConcat(once, Cycles(total, k - 1));
      assert once[..1] == [Init(total)] && once[..1][..0] == [];
      assert Count(once[..1]) == (1, 0) && Count(once) == (1, 1);
    }
  }

  lemma {:induction false} CountUploadPrefix(sols: seq<Signature>, size: nat, n: nat)
    requires size > 0 && |sols| <= 255 && n <= |Upload(sols, size)|
    ensures Count(Upload(sols, size)[..n]) == (if n == 0 then 0 else 1, 0)
  {
    if n > 0 {
      CountUploadPrefix(sols, size, n - 1);
      assert Upload(sols, size)[..n][..n - 1] == Upload(sols, size)[..n - 1];
    }
  }

  /** A bounded run sends at most one more init than there are cycles, and one clear a cycle. */
  lemma {:induction false} AttemptCounts(sent: seq<Instruction>, sols: seq<Signature>, size: nat, bound: nat,
        done: bool)
    requires size > 0 && |sols| <= 255 && IsBoundedAttempt(sent, sols, size, bound, done)
    ensures Count(sent).0 <= bound + 1 && Count(sent).1 <= bound
    ensures done ==> Count(sent).0 == Count(sent).1 + 1
  {
    var k: nat :| k <= bound && IsAttempt(sent, sols, size, k, done);
    var cycles, upload := Cycles(|sols|, k), Upload(sols, size);
    var tail := sent[|cycles|..];
    assert sent == cycles + tail && tail == upload[..|tail|];
    CountConcat(cycles, tail);
    CountCycles(|sols|, k);
    CountUploadPrefix(sols, size, |tail|);
  }

  /** A whole run, which starts with attempt 0, sends at most four inits and three clears. */
  lemma {:induction false} WholeRunCounts(sent: seq<Instruction>, sols: seq<Signature>, size: nat, done: bool)
    requires size > 0 && |sols| <= 255 && IsBoundedAttempt(sent, sols, size, MAX_ATTEMPTS - 0, done)
    ensures |set k: nat | k < |sent| && sent[k].Init?| <= 4 && |set k: nat | k < |sent| && sent[k].Clear?| <= 3
  {
    hide IsBoundedAttempt;
    AttemptCounts(sent, sols, size, MAX_ATTEMPTS, done);
    CountIsCardinality(sent);
    assert InitsAt(sent) == set k: nat | k < |sent| && sent[k].Init?;
    assert ClearsAt(sent) == set k: nat | k < |sent| && sent[k].Clear?;
  }

  class Executor {
    var account: Account
    var sent: seq<Instruction>
    const link: nat -> Link
    const batchSize: nat

    constructor (account: Account, link: nat -> Link, batchSize: nat)
      ensures this.account == account && this.link == link && this.batchSize == batchSize && sent == []
    {
      this.account, this.link, this.batchSize := account, link, batchSize;
      sent := [];
    }

    method SendAndConfirm(ix: Instruction) returns (r: Outcome)
      modifies this
      ensures sent == old(sent) + [ix]
      ensures r.Ok? ==> Apply(ix, old(account)) == Accepted(account)
      ensures link(|old(sent)|).Delivers? ==>
        if Apply(ix, old(account)).Accepted? then r == Ok
        else r == Error(ix.Init?) && account == old(account)
    {
      var l := link(|sent|);
      var applied := Apply(ix, account);
      sent := sent + [ix];
      if (l.Delivers? || l.applied) && applied.Accepted? {
        account := applied.account;
      }
      if l.Fails? {
        return Error(l.saysInUse);
      }
      return if applied.Accepted? then Ok else Error(ix.Init?);
    }

    /** Sends the append instructions in order and stops at the first error. */
    method AppendAll(sols: seq<Signature>, ranges: seq<(nat, nat)>) returns (ok: bool)
      requires batchSize > 0 && |sols| <= 255 && ranges == Ranges(0, |sols|, batchSize)
      requires forall i :: 0 <= i < |ranges| ==> ranges[i].0 <= ranges[i].1 <= |sols|
      requires account == Open(|sols|, [])
      modifies this
      ensures exists n :: 0 <= n <= |ranges| && sent == old(sent) + Appends(sols, ranges)[..n] && (ok ==> n == |ranges|)
      ensures ok ==> account == Open(|sols|, sols)
      ensures (forall k :: link(k).Delivers?) ==> ok
    {
      ghost var appends, before := Appends(sols, ranges), sent;
      ghost var reached := 0;
      assert sols[..0] == [];
      for i := 0 to |ranges|
        invariant sent == before + appends[..i]
        invariant reached == (if i < |ranges| then ranges[i].0 else |sols|)
        invariant account == Open(|sols|, sols[..reached])
      {
        RangesTile(0, |sols|, batchSize, i);
        var r := SendAndConfirm(Append(sols[ranges[i].0..ranges[i].1]));
        assert appends[..i + 1] == appends[..i] + [appends[i]];
        if r.Error? {
          return false;
        }
        assert sols[..reached] + sols[reached..ranges[i].1] == sols[..ranges[i].1];
        reached := ranges[i].1;
      }
      assert sols[..|sols|] == sols;
      return true;
    }

    /** For every prior account and every pattern of failures: at most three more init-clear cycles, then one upload;
        success means the account is finalized with exactly the converted signatures, in order. */
    method PreloadSignatures(sigs: seq<Signature>, attempt: nat) returns (ok: bool)
      requires batchSize > 0 && |sigs| <= 255 && attempt <= MAX_ATTEMPTS
      modifies this
      ensures ok ==> account == Finalized(ConvertAll(sigs))
      ensures old(sent) <= sent
      ensures IsBoundedAttempt(sent[|old(sent)|..], ConvertAll(sigs), batchSize, MAX_ATTEMPTS - attempt, ok)
      ensures (forall k :: link(k).Delivers?) && (old(account).Absent? || attempt < MAX_ATTEMPTS) ==> ok
      decreases MAX_ATTEMPTS - attempt, 1
    {
      hide ConvertAll, Ranges, Convert;
      ghost var sols, before := ConvertAll(sigs), sent;
      ghost var upload := Upload(sols, batchSize);
      var r := SendAndConfirm(Init(|sigs|));
      if r.Error? {
        if r.accountInUse {
          ok := RetryPreloadSignatures(sigs, attempt);
          return;
        }
        assert IsAttempt(sent[|before|..], sols, batchSize, 0, false);
        return false;
      }
      var converted := SolanaSignatures(sigs);
      var ranges := ChunkIndexes(|converted|, batchSize);
      RangesInside(0, |converted|, batchSize);
      ok := AppendAll(converted, ranges);
      if !ok {
        assert IsAttempt(sent[|before|..], sols, batchSize, 0, false);
        return;
      }
      r := SendAndConfirm(Finalize);
      assert sent[|before|..] == upload;
      ok := r.Ok?;
      assert IsAttempt(sent[|before|..], sols, batchSize, 0, ok);
    }

    method RetryPreloadSignatures(sigs: seq<Signature>, attempt: nat) returns (ok: bool)
      requires batchSize > 0 && |sigs| <= 255 && attempt <= MAX_ATTEMPTS
      requires sent != [] && sent[|sent| - 1] == Init(|sigs|)
      modifies this
      ensures ok ==> account == Finalized(ConvertAll(sigs))
      ensures old(sent) <= sent
      ensures IsBoundedAttempt(sent[|old(sent)| - 1..], ConvertAll(sigs), batchSize, MAX_ATTEMPTS - attempt, ok)
      ensures (forall k :: link(k).Delivers?) && !old(account).Absent? && attempt < MAX_ATTEMPTS ==> ok
      decreases MAX_ATTEMPTS - attempt, 0
    {
      hide ConvertAll, Convert, IsBoundedAttempt;
      ghost var sols, start, bound := ConvertAll(sigs), |sent| - 1, MAX_ATTEMPTS - attempt;
      assert sent[start..] == [Init(|sols|)];
      if attempt >= MAX_ATTEMPTS {
        InitOnly(sols, batchSize, bound);
        return false;
      }
      var r := SendAndConfirm(Clear);
      assert sent[start..] == [Init(|sols|), Clear];
      if r.Error? {
        InitAndClear(sols, batchSize, bound);
        return false;
      }
      ghost var base := |sent|;
      ok := PreloadSignatures(sigs, attempt + 1);
      OneMoreCycle(sent[base..], sols, batchSize, bound - 1, ok);
      assert sent[start..] == [Init(|sols|), Clear] + sent[base..];
    }
  }
}
