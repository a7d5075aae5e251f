/** Nonce allocation per chain, within a proposal and over a queue of proposals (proposal.go, utils.go). */
module Nonces {

  import opened GoTypes

  type Selector = nat

  /** Go's wrapping addition. */
  function Add64(a: int, b: int): uint64 {
    (a + b) % TWO64
  }

  datatype Operation = Operation(chain: Selector, data: seq<int>)

  /** `starts` is the starting op count in each chain's metadata. */
  datatype Proposal = Proposal(starts: map<Selector, uint64>, operations: seq<Operation>)

  /** Every operation's chain has metadata, as `Validate` demands. */
  ghost predicate Valid(p: Proposal) {
    forall i :: 0 <= i < |p.operations| ==> p.operations[i].chain in p.starts
  }

  function Count(ops: seq<Operation>, chain: Selector): nat {
    if ops == [] then 0
    else Count(ops[..|ops| - 1], chain) + if ops[|ops| - 1].chain == chain then 1 else 0
  }

  method TransactionCounts(p: Proposal) returns (counts: map<Selector, int>)
    ensures forall c :: Lookup(counts, c) == Count(p.operations, c)
    ensures forall c :: c in counts <==> Count(p.operations, c) > 0
  {
    counts := map[];
    var ops := p.operations;
    for i := 0 to |ops|
      invariant forall c :: Lookup(counts, c) == Count(ops[..i], c)
      invariant forall c :: c in counts <==> Count(ops[..i], c) > 0
    {
      assert ops[..i + 1][..i] == ops[..i];
      counts := counts[ops[i].chain := Lookup(counts, ops[i].chain) + 1];
    }
    assert ops[..|ops|] == ops;
  }

  /** The start of its chain plus the number of earlier operations on that chain. */
  ghost function NonceAt(p: Proposal, i: nat): uint64
    requires i < |p.operations|
  {
    var chain := p.operations[i].chain;
    Add64(Count(p.operations[..i], chain), Lookup(p.starts, chain))
  }

  datatype NonceResult = Nonces(nonces: seq<uint64>) | ChainMetadataNotFound(chain: Selector)

  method TransactionNonces(p: Proposal) returns (r: NonceResult)
    ensures r.Nonces? <==> Valid(p)
    ensures r.Nonces? ==> |r.nonces| == |p.operations|
    ensures r.Nonces? ==> forall i :: 0 <= i < |p.operations| ==> r.nonces[i] == NonceAt(p, i)
    ensures !r.Nonces? ==> r.chain !in p.starts && Count(p.operations, r.chain) > 0
  {
    var chainIndex: map<Selector, int> := map[];
    var nonces: seq<uint64> := [];
    var ops := p.operations;
    for i := 0 to |ops|
      invariant forall k :: 0 <= k < i ==> ops[k].chain in p.starts
      invariant |nonces| == i && forall k :: 0 <= k < i ==> nonces[k] == NonceAt(p, k)
      invariant forall c :: Lookup(chainIndex, c) == Count(ops[..i], c)
    {
      var chain := ops[i].chain;
      var localIndex := Lookup(chainIndex, chain);
      if chain !in p.starts {
        CountMember(ops, i);
        return ChainMetadataNotFound(chain);
      }
      nonces := nonces + [Add64(localIndex, p.starts[chain])];
      assert ops[..i + 1][..i] == ops[..i];
      chainIndex := chainIndex[chain := localIndex + 1];
    }
    return Nonces(nonces);
  }

  lemma {:induction false} CountMember(ops: seq<Operation>, i: nat)
    requires i < |ops|
    ensures Count(ops, ops[i].chain) > 0
    decreases |ops|
  {
    if i < |ops| - 1 {
      CountMember(ops[..|ops| - 1], i);
    }
  }

  /** Where the operations of a chain stand. */
  ghost function PlacesOf(ops: seq<Operation>, chain: Selector): set<nat> {
    set k: nat | k < |ops| && ops[k].chain == chain
  }

  lemma {:induction false} PlacesLast(ops: seq<Operation>, chain: Selector)
    requires ops != []
    ensures var n := |ops| - 1;
      PlacesOf(ops, chain) == PlacesOf(ops[..n], chain) + if ops[n].chain == chain then {n} else {}
  {
  }

  lemma {:induction false} CountIsCardinality(ops: seq<Operation>, chain: Selector)
    ensures Count(ops, chain) == |PlacesOf(ops, chain)|
    decreases |ops|
  {
    if ops != [] {
      CountIsCardinality(ops[..|ops| - 1], chain);
      PlacesLast(ops, chain);
    }
  }

  /** An operation's nonce is the number of operations of its chain in front of it, from the chain's start, as a
      64-bit number. */
  lemma {:induction false} NonceIs(p: Proposal, i: nat)
    requires i < |p.operations|
    ensures var ops, chain := p.operations, p.operations[i].chain;
      NonceAt(p, i) == (|set k: nat | k < i && ops[k].chain == chain|
                        + if chain in p.starts then p.starts[chain] else 0) % 0x1_0000_0000_0000_0000
  {
    var ops, chain := p.operations, p.operations[i].chain;
    CountIsCardinality(ops[..i], chain);
    assert (set k: nat | k < i && ops[k].chain == chain) == PlacesOf(ops[..i], chain);
  }

  // ----- one proposal's window

  /** The chain's nonces, in operation order. */
  ghost function NoncesOnChain(p: Proposal, chain: Selector, n: nat): seq<uint64>
    requires n <= |p.operations|
  {
    if n == 0 then []
    else NoncesOnChain(p, chain, n - 1) + if p.operations[n - 1].chain == chain then [NonceAt(p, n - 1)] else []
  }

  ghost function Window(start: int, count: nat): seq<uint64> {
    seq(count, k => Add64(start, k))
  }

  /** A chain's nonces are exactly its window, in order. */
  lemma {:induction false} NoncesFillWindow(p: Proposal, chain: Selector, n: nat)
    requires n <= |p.operations|
    ensures NoncesOnChain(p, chain, n) == Window(Lookup(p.starts, chain), Count(p.operations[..n], chain))
  {
    if n > 0 {
      NoncesFillWindow(p, chain, n - 1);
      assert p.operations[..n][..n - 1] == p.operations[..n - 1];
    }
  }

  ghost function AllNonces(p: Proposal, chain: Selector): seq<uint64> {
    NoncesOnChain(p, chain, |p.operations|)
  }

  // ----- queued proposals

  /** The start announced by the first proposal that uses the chain; 0 stands in when none does. */
  ghost function FirstStart(queue: seq<Proposal>, chain: Selector): int {
    if queue == [] then 0
    else
      var front, last := queue[..|queue| - 1], queue[|queue| - 1];
      if Total(front, chain) > 0 then FirstStart(front, chain) else Lookup(last.starts, chain)
  }

  ghost function Total(queue: seq<Proposal>, chain: Selector): nat {
    if queue == [] then 0
    else Total(queue[..|queue| - 1], chain) + Count(queue[|queue| - 1].operations, chain)
  }

  /** The op counts after the predecessors have run. */
  ghost predicate IsQueuedStart(queue: seq<Proposal>, starts: map<Selector, int>) {
    && (forall c :: c in starts <==> Total(queue, c) > 0)
    && (forall c :: c in starts ==> starts[c] == Add64(FirstStart(queue, c), Total(queue, c)))
  }

  method GenerateQueuedStartingOpCounts(queue: seq<Proposal>) returns (starts: map<Selector, int>)
    ensures IsQueuedStart(queue, starts)
  {
    starts := map[];
    for i := 0 to |queue|
      invariant IsQueuedStart(queue[..i], starts)
    {
      var pred := queue[i];
      var counts := TransactionCounts(pred);
      ghost var before := starts;
      var todo := counts.Keys;
      while todo != {}
        invariant todo <= counts.Keys
        invariant forall c :: c in starts <==> c in before || (c in counts && c !in todo)
        invariant forall c :: c in starts ==>
          (starts[c] == if c !in counts || c in todo then before[c]
            else Add64(if c in before then before[c] else Lookup(pred.starts, c), counts[c]))
        decreases todo
      {
        var c :| c in todo;
        if c !in starts {
          starts := starts[c := Lookup(pred.starts, c)];
        }
        starts := starts[c := Add64(starts[c], counts[c])];
        todo := todo - {c};
      }
      assert queue[..i + 1][..i] == queue[..i];
      QueuedStartStep(queue[..i + 1], before, counts, starts);
    }
    assert queue[..|queue|] == queue;
  }

  lemma {:induction false} QueuedStartStep(queue: seq<Proposal>, before: map<Selector, int>,
        counts: map<Selector, int>, starts: map<Selector, int>)
    requires queue != [] && IsQueuedStart(queue[..|queue| - 1], before)
    requires var pred := queue[|queue| - 1];
      && (forall c :: Lookup(counts, c) == Count(pred.operations, c))
      && (forall c :: c in counts <==> Count(pred.operations, c) > 0)
      && (forall c :: c in starts <==> c in before || c in counts)
      && (forall c :: c in starts ==>
            (starts[c] == if c !in counts then before[c]
              else Add64(if c in before then before[c] else Lookup(pred.starts, c), counts[c])))
    ensures IsQueuedStart(queue, starts)
  {
    hide Count;
  }

  /** Loading a proposal behind its predecessors rewrites the start of every chain they use. */
  method NewProposal(p: Proposal, predecessors: seq<Proposal>) returns (r: Proposal)
    ensures r == Loaded(p, predecessors)
  {
    var starts := GenerateQueuedStartingOpCounts(predecessors);
    var updated: map<Selector, uint64> := p.starts;
    var todo := p.starts.Keys;
    while todo != {}
      invariant todo <= p.starts.Keys == updated.Keys
      invariant forall c :: c in updated ==> updated[c] == if c in todo || c !in starts then p.starts[c] else starts[c]
      decreases todo
    {
      var c :| c in todo;
      if c in starts {
        updated := updated[c := starts[c]];
      }
      todo := todo - {c};
    }
    assert updated == Loaded(p, predecessors).starts;
    return p.(starts := updated);
  }

  ghost function Loaded(p: Proposal, predecessors: seq<Proposal>): Proposal {
    p.(starts := map c | c in p.starts ::
      if Total(predecessors, c) > 0 then Add64(FirstStart(predecessors, c), Total(predecessors, c)) else p.starts[c])
  }

  /** The nonces a chain sees when the queue's proposals, each loaded behind the ones before it, run in order. */
  ghost function QueueNonces(queue: seq<Proposal>, chain: Selector): seq<uint64> {
    if queue == [] then []
    else
      var front, last := queue[..|queue| - 1], queue[|queue| - 1];
      QueueNonces(front, chain) + AllNonces(Loaded(last, front), chain)
  }

  lemma {:induction false} WindowConcat(start: int, a: nat, b: nat)
    ensures Window(start, a) + Window(Add64(start, a), b) == Window(start, a + b)
  {
    var s, t := Window(start, a) + Window(Add64(start, a), b), Window(start, a + b);
    forall k | 0 <= k < a + b
      ensures s[k] == t[k]
    {
      if k >= a {
        AddTwice(start, a, k - a);
      }
    }
  }

  lemma {:induction false} AddTwice(s: int, a: int, b: int)
    ensures Add64(Add64(s, a), b) == Add64(s, a + b)
  {
  }

  /** One proposal more continues the window. */
  lemma {:induction false} LoadedContinues(front: seq<Proposal>, last: Proposal, chain: Selector)
    requires Valid(last)
    ensures var n := Count(last.operations, chain);
      AllNonces(Loaded(last, front), chain)
      == if Total(front, chain) > 0 then Window(Add64(FirstStart(front, chain), Total(front, chain)), n)
         else Window(Lookup(last.starts, chain), n)
  {
    NoncesFillWindow(Loaded(last, front), chain, |last.operations|);
    assert last.operations[..|last.operations|] == last.operations;
    if Count(last.operations, chain) > 0 {
      CountedHasStart(last, chain);
    }
  }

  /** The windows abut: together they are one window from the first user's start, with nothing skipped or repeated. */
  lemma {:induction false} QueueFillsOneWindow(queue: seq<Proposal>, chain: Selector)
    requires forall i :: 0 <= i < |queue| ==> Valid(queue[i])
    ensures QueueNonces(queue, chain) == Window(FirstStart(queue, chain), Total(queue, chain))
  {
    if queue != [] {
      var front, last := queue[..|queue| - 1], queue[|queue| - 1];
      QueueFillsOneWindow(front, chain);
      LoadedContinues(front, last, chain);
      if Total(front, chain) > 0 {
        WindowConcat(FirstStart(front, chain), Total(front, chain), Count(last.operations, chain));
      } else {
        assert QueueNonces(front, chain) == [];
        assert [] + AllNonces(Loaded(last, front), chain) == AllNonces(Loaded(last, front), chain);
      }
    }
  }

  lemma {:induction false} CountedInOps(ops: seq<Operation>, chain: Selector) returns (i: nat)
    requires Count(ops, chain) > 0
    ensures i < |ops| && ops[i].chain == chain
  {
    i := |ops| - 1;
    if ops[i].chain != chain {
      i := CountedInOps(ops[..i], chain);
    }
  }

  lemma {:induction false} CountedHasStart(p: Proposal, chain: Selector)
    requires Valid(p) && Count(p.operations, chain) > 0
    ensures chain in p.starts
  {
    var i := CountedInOps(p.operations, chain);
  }

  lemma {:induction false} AddDistinct(s: int, i: nat, j: nat)
    requires i < j < i + TWO64
    ensures Add64(s, i) != Add64(s, j)
  {
  }

  /** No nonce is used twice on a chain over the whole queue, wrap-around included, up to 2^64 transactions. */
  lemma {:induction false} QueueNoncesDistinct(queue: seq<Proposal>, chain: Selector, i: nat, j: nat)
    requires forall k :: 0 <= k < |queue| ==> Valid(queue[k])
    requires Total(queue, chain) <= TWO64
    requires i < j < |QueueNonces(queue, chain)|
    ensures QueueNonces(queue, chain)[i] != QueueNonces(queue, chain)[j]
  {
    QueueFillsOneWindow(queue, chain);
    AddDistinct(FirstStart(queue, chain), i, j);
  }

  /** The post op count a proposal signs for a chain: its start plus its own transactions. */
  ghost function PostOpCount(p: Proposal, chain: Selector): uint64 {
    Add64(Lookup(p.starts, chain), Count(p.operations, chain))
  }

  lemma {:induction false} IdleProposalsKeepTotals(queue: seq<Proposal>, j: nat, k: nat, chain: Selector)
    requires j < k <= |queue|
    requires forall i :: j < i < k ==> Count(queue[i].operations, chain) == 0
    requires Count(queue[j].operations, chain) > 0
    ensures Total(queue[..k], chain) == Total(queue[..j + 1], chain)
    ensures FirstStart(queue[..k], chain) == FirstStart(queue[..j + 1], chain)
    ensures Total(queue[..j + 1], chain) == Total(queue[..j], chain) + Count(queue[j].operations, chain)
    decreases k
  {
    assert queue[..j + 1][..j] == queue[..j];
    if j < k - 1 {
      assert queue[..k][..k - 1] == queue[..k - 1];
      IdleProposalsKeepTotals(queue, j, k - 1, chain);
    }
  }

  /** Each proposal starts a chain where the last proposal that used it ended. */
  lemma {:induction false} StartsWherePreviousEnded(queue: seq<Proposal>, j: nat, k: nat, chain: Selector)
    requires j < k < |queue| && Valid(queue[j])
    requires Count(queue[j].operations, chain) > 0 && chain in queue[k].starts
    requires forall i :: j < i < k ==> Count(queue[i].operations, chain) == 0
    ensures Loaded(queue[k], queue[..k]).starts[chain] == PostOpCount(Loaded(queue[j], queue[..j]), chain)
  {
    IdleProposalsKeepTotals(queue, j, k, chain);
    CountedHasStart(queue[j], chain);
    assert queue[..j + 1][..j] == queue[..j];
    AddTwice(FirstStart(queue[..j], chain), Total(queue[..j], chain), Count(queue[j].operations, chain));
  }
}
