/** The leaves of a proposal's Merkle tree (proposal.go): one per chain and one per operation, sorted. */
module MerkleLeaves {

  import ByteStrings
  import opened GoTypes
  import opened Nonces
  import Sorting

  /** A leaf hash, as the number whose order is that of its fixed-width hex text. */
  type Hash = nat

  /** The chain encoders, closed over the chains' metadata; a chain or an operation may have no encoding. */
  datatype Env = Env(
    metadataLeaf: (Selector, uint64, nat) -> Option<Hash>,
    operationLeaf: (uint64, Operation) -> Option<Hash>)

  /** The leaf of a chain: its starting op count and its number of transactions. */
  function ChainLeaf(env: Env, p: Proposal, chain: Selector): Option<Hash> {
    env.metadataLeaf(chain, Lookup(p.starts, chain), Count(p.operations, chain))
  }

  /** The leaf of an operation; nonces must fit 32 bits. */
  function OperationLeaf(env: Env, nonce: uint64, op: Operation): Option<Hash> {
    if nonce < TWO32 then env.operationLeaf(nonce, op) else None
  }

  ghost function ChainLeaves(env: Env, p: Proposal, chains: seq<Selector>): seq<Option<Hash>> {
    seq(|chains|, i requires 0 <= i < |chains| => ChainLeaf(env, p, chains[i]))
  }

  /** The operation that follows the given ones. */
  ghost function NextLeaf(env: Env, starts: map<Selector, uint64>, before: seq<Operation>, op: Operation): Option<Hash>
  {
    OperationLeaf(env, Add64(Count(before, op.chain), Lookup(starts, op.chain)), op)
  }

  ghost function OperationLeaves(env: Env, starts: map<Selector, uint64>, ops: seq<Operation>): (r: seq<Option<Hash>>)
    ensures |r| == |ops|
  {
    if ops == [] then []
    else
      var front, last := ops[..|ops| - 1], ops[|ops| - 1];
      OperationLeaves(env, starts, front) + [NextLeaf(env, starts, front, last)]
  }

  ghost function AllLeaves(env: Env, p: Proposal, chains: seq<Selector>): seq<Option<Hash>> {
    ChainLeaves(env, p, chains) + OperationLeaves(env, p.starts, p.operations)
  }

  // ----- the leaf list

  ghost predicate Sorted(s: seq<Hash>) {
    forall i, j :: 0 <= i < j < |s| ==> s[i] <= s[j]
  }

  ghost function Somes(s: seq<Hash>): seq<Option<Hash>> {
    seq(|s|, i requires 0 <= i < |s| => Some(s[i]))
  }

  datatype Leaves = Leaves(hashes: seq<Hash>) | NoTree

  /** Every leaf is there, in ascending order; without all of them there is no tree. */
  ghost predicate IsLeafList(env: Env, p: Proposal, chains: seq<Selector>, r: Leaves) {
    var all := AllLeaves(env, p, chains);
    if Valid(p) && None !in all then r.Leaves? && Sorted(r.hashes) && multiset(Somes(r.hashes)) == multiset(all)
    else r == NoTree
  }

  lemma {:induction false} LeafAt(env: Env, p: Proposal, i: nat)
    requires i < |p.operations|
    ensures OperationLeaves(env, p.starts, p.operations)[i] == OperationLeaf(env, NonceAt(p, i), p.operations[i])
    decreases |p.operations|
  {
    var ops := p.operations;
    if i < |ops| - 1 {
      LeafAt(env, p.(operations := ops[..|ops| - 1]), i);
      assert ops[..|ops| - 1][..i] == ops[..i];
    }
  }

  lemma {:induction false} SomesAppend(s: seq<Hash>, h: Hash)
    ensures Somes(s + [h]) == Somes(s) + [Some(h)]
  {
  }

  method HashMetadata(env: Env, p: Proposal, chains: seq<Selector>) returns (r: Option<seq<Hash>>)
    ensures r.Some? ==> Somes(r.value) == ChainLeaves(env, p, chains)
    ensures r.None? ==> None in ChainLeaves(env, p, chains)
  {
    var txCounts := TransactionCounts(p);
    var hashLeaves: seq<Hash> := [];
    for i := 0 to |chains|
      invariant |hashLeaves| == i && Somes(hashLeaves) == ChainLeaves(env, p, chains)[..i]
    {
      var leaf := env.metadataLeaf(chains[i], Lookup(p.starts, chains[i]), Lookup(txCounts, chains[i]));
      assert leaf == ChainLeaves(env, p, chains)[i];
      if leaf == None {
        return None;
      }
      SomesAppend(hashLeaves, leaf.value);
      hashLeaves := hashLeaves + [leaf.value];
    }
    return Some(hashLeaves);
  }

  /** The nonces are worked out again for every operation; with no operations they are not looked at. */
  method HashOperations(env: Env, p: Proposal) returns (r: Option<seq<Hash>>)
    ensures r.Some? ==> Valid(p) && Somes(r.value) == OperationLeaves(env, p.starts, p.operations)
    ensures r.None? ==> !Valid(p) || None in OperationLeaves(env, p.starts, p.operations)
  {
    hide OperationLeaves;
    var hashLeaves: seq<Hash> := [];
    ghost var all := OperationLeaves(env, p.starts, p.operations);
    for i := 0 to |p.operations|
      invariant |hashLeaves| == i && Somes(hashLeaves) == all[..i]
      invariant i > 0 ==> Valid(p)
    {
      var txNonces := TransactionNonces(p);
      if !txNonces.Nonces? {
        return None;
      }
      LeafAt(env, p, i);
      var leaf := OperationLeaf(env, txNonces.nonces[i], p.operations[i]);
      if leaf == None {
        return None;
      }
      SomesAppend(hashLeaves, leaf.value);
      hashLeaves := hashLeaves + [leaf.value];
    }
    assert all[..|all|] == all;
    return Some(hashLeaves);
  }

  lemma {:induction false} IsSorted(s: seq<Hash>)
    requires Sorting.Sorted(s, (h: Hash) => h)
    ensures Sorted(s)
  {
  }

  /** `MerkleTree` up to the tree itself. */
  method MerkleTreeLeaves(env: Env, p: Proposal, chains: seq<Selector>) returns (r: Leaves)
    ensures IsLeafList(env, p, chains, r)
  {
    hide ChainLeaves, OperationLeaves, Sorted;
    var chainLeaves := HashMetadata(env, p, chains);
    if chainLeaves.None? {
      return NoTree;
    }
    var operationLeaves := HashOperations(env, p);
    if operationLeaves.None? {
      return NoTree;
    }
    var hashLeaves := chainLeaves.value + operationLeaves.value;
    assert Somes(hashLeaves) == AllLeaves(env, p, chains);
    var sorted := Sorting.Sort(hashLeaves, (h: Hash) => h);
    IsSorted(sorted);
    SomesOfBag(sorted, hashLeaves);
    return Leaves(sorted);
  }

  lemma {:induction false} SomesCount(s: seq<Hash>, h: Hash)
    ensures multiset(Somes(s))[Some(h)] == multiset(s)[h]
  {
    if s != [] {
      var n := |s| - 1;
      SomesCount(s[..n], h);
      assert s == s[..n] + [s[n]] && Somes(s) == Somes(s[..n]) + [Some(s[n])];
    }
  }

  lemma {:induction false} SomesOfBag(s: seq<Hash>, t: seq<Hash>)
    ensures multiset(Somes(s)) == multiset(Somes(t)) <==> multiset(s) == multiset(t)
  {
    forall h: Hash
      ensures multiset(Somes(s))[Some(h)] == multiset(s)[h] && multiset(Somes(t))[Some(h)] == multiset(t)[h]
    {
      SomesCount(s, h);
      SomesCount(t, h);
    }
    assert None !in Somes(s) && None !in Somes(t);
    if multiset(s) == multiset(t) {
      forall o: Option<Hash>
        ensures multiset(Somes(s))[o] == multiset(Somes(t))[o]
      {
        assert o.Some? ==> o == Some(o.value);
      }
    }
  }

  // ----- what the leaves are

  /** An operation's leaf is made under its nonce, which must fit 32 bits. */
  lemma {:induction false} OperationLeafIs(env: Env, p: Proposal, i: nat)
    requires i < |p.operations|
    ensures var ops, chain := p.operations, p.operations[i].chain;
      var nonce := (|set k: nat | k < i && ops[k].chain == chain|
                    + if chain in p.starts then p.starts[chain] else 0) % 0x1_0000_0000_0000_0000;
      OperationLeaves(env, p.starts, ops)[i] == if nonce < 0x1_0000_0000 then env.operationLeaf(nonce, ops[i]) else None
  {
    hide OperationLeaves, NonceAt;
    LeafAt(env, p, i);
    NonceIs(p, i);
  }

  /** A chain's leaf is made from the start in its metadata, 0 without metadata, and its number of operations. */
  lemma {:induction false} ChainLeafIs(env: Env, p: Proposal, chains: seq<Selector>, i: nat)
    requires i < |chains|
    ensures var c := chains[i];
      ChainLeaves(env, p, chains)[i]
      == env.metadataLeaf(c, if c in p.starts then p.starts[c] else 0,
                          |set k: nat | k < |p.operations| && p.operations[k].chain == c|)
  {
    CountIsCardinality(p.operations, chains[i]);
    assert (set k: nat | k < |p.operations| && p.operations[k].chain == chains[i])
        == PlacesOf(p.operations, chains[i]);
  }

  /** A leaf list holds the leaf of every chain and of every operation, and as many leaves as there are of both. */
  lemma {:induction false} LeafListHolds(env: Env, p: Proposal, chains: seq<Selector>, hashes: seq<Hash>)
    requires IsLeafList(env, p, chains, Leaves(hashes))
    ensures |hashes| == |chains| + |p.operations|
    ensures forall i :: 0 <= i < |chains| ==> exists h :: h in hashes && ChainLeaves(env, p, chains)[i] == Some(h)
    ensures forall i :: 0 <= i < |p.operations| ==>
      exists h :: h in hashes && OperationLeaves(env, p.starts, p.operations)[i] == Some(h)
  {
    hide ChainLeaf, OperationLeaves, Sorted, Valid;
    var all := AllLeaves(env, p, chains);
    assert |multiset(all)| == |all| && |multiset(Somes(hashes))| == |hashes|;
    forall i | 0 <= i < |all|
      ensures exists h :: h in hashes && all[i] == Some(h)
    {
      assert all[i] in multiset(all);
      var k :| 0 <= k < |hashes| && Somes(hashes)[k] == all[i];
    }
    forall i | 0 <= i < |chains|
      ensures exists h :: h in hashes && ChainLeaves(env, p, chains)[i] == Some(h)
    {
      assert all[i] == ChainLeaves(env, p, chains)[i];
    }
    forall i | 0 <= i < |p.operations|
      ensures exists h :: h in hashes && OperationLeaves(env, p.starts, p.operations)[i] == Some(h)
    {
      assert all[|chains| + i] == OperationLeaves(env, p.starts, p.operations)[i];
    }
  }

  // ----- the leaves do not depend on how chains are interleaved

  ghost function OnChain(ops: seq<Operation>, chain: Selector): (r: seq<Operation>)
    ensures |r| == Count(ops, chain)
  {
    if ops == [] then []
    else
      var front, last := ops[..|ops| - 1], ops[|ops| - 1];
      OnChain(front, chain) + if last.chain == chain then [last] else []
  }

  /** Each chain sees the same operations in the same order. */
  ghost predicate SameByChain(s: seq<Operation>, t: seq<Operation>) {
    forall c :: OnChain(s, c) == OnChain(t, c)
  }

  lemma {:induction false} OnChainConcat(s: seq<Operation>, t: seq<Operation>, c: Selector)
    ensures OnChain(s + t, c) == OnChain(s, c) + OnChain(t, c)
    decreases |t|
  {
    if t == [] {
      assert s + t == s;
    } else {
      OnChainConcat(s, t[..|t| - 1], c);
      assert (s + t)[..|s + t| - 1] == s + t[..|t| - 1];
    }
  }

  lemma {:induction false} LeavesSnoc(env: Env, starts: map<Selector, uint64>, ops: seq<Operation>, y: Operation)
    ensures OperationLeaves(env, starts, ops + [y])
         == OperationLeaves(env, starts, ops) + [NextLeaf(env, starts, ops, y)]
  {
    hide NextLeaf;
    assert (ops + [y])[..|ops + [y]| - 1] == ops;
  }

  /** Operations of another chain do not move a nonce. */
  lemma {:induction false} SameNext(env: Env, starts: map<Selector, uint64>, u: seq<Operation>, x: Operation,
        v: seq<Operation>, y: Operation)
    requires x.chain != y.chain
    ensures NextLeaf(env, starts, u + [x] + v, y) == NextLeaf(env, starts, u + v, y)
  {
    OnChainConcat(u + [x], v, y.chain);
    OnChainConcat(u, [x], y.chain);
    OnChainConcat(u, v, y.chain);
    assert [x][..0] == [];
  }

  lemma {:induction false} BagsAppend<T>(s: seq<T>, t: seq<T>, x: T, y: T)
    requires multiset(s) == multiset(t) + multiset{x}
    ensures multiset(s + [y]) == multiset(t + [y]) + multiset{x}
  {
  }

  lemma {:induction false} LastApart<T>(s: seq<T>, v: seq<T>)
    requires v != []
    ensures s + v == s + v[..|v| - 1] + [v[|v| - 1]]
  {
  }

  /** Taking out an operation that is the last of its chain takes out its leaf and changes no other operation's leaf;
      only the chain's own leaf, which holds the number of transactions, changes as well. */
  lemma {:induction false} LeavesWithout(env: Env, starts: map<Selector, uint64>, u: seq<Operation>, x: Operation,
        v: seq<Operation>)
    requires OnChain(v, x.chain) == []
    ensures multiset(OperationLeaves(env, starts, u + [x] + v))
         == multiset(OperationLeaves(env, starts, u + v)) + multiset{NextLeaf(env, starts, u, x)}
    decreases |v|
  {
    hide OperationLeaves, NextLeaf;
    if v == [] {
      LeavesSnoc(env, starts, u, x);
      assert u + [x] + v == u + [x] && u + v == u;
    } else {
      var front, y := v[..|v| - 1], v[|v| - 1];
      LeavesWithout(env, starts, u, x, front);
      SameNext(env, starts, u, x, front, y);
      LeavesSnoc(env, starts, u + [x] + front, y);
      LeavesSnoc(env, starts, u + front, y);
      BagsAppend(OperationLeaves(env, starts, u + [x] + front), OperationLeaves(env, starts, u + front),
                 NextLeaf(env, starts, u, x), NextLeaf(env, starts, u + front, y));
      LastApart(u + [x], v);
      LastApart(u, v);
    }
  }

  /** Where the last operation of a chain sits. */
  lemma {:induction false} LastOfChain(ops: seq<Operation>, c: Selector) returns (k: nat)
    requires OnChain(ops, c) != []
    ensures k < |ops| && ops[k].chain == c && OnChain(ops[k + 1..], c) == []
    ensures ops[k] == OnChain(ops, c)[|OnChain(ops, c)| - 1]
    decreases |ops|
  {
    var n := |ops| - 1;
    if ops[n].chain == c {
      k := n;
    } else {
      k := LastOfChain(ops[..n], c);
      assert ops[k + 1..] == ops[..n][k + 1..] + [ops[n]];
      OnChainConcat(ops[..n][k + 1..], [ops[n]], c);
      assert [ops[n]][..0] == [];
    }
  }

  lemma {:induction false} OnChainOne(x: Operation, c: Selector)
    ensures OnChain([x], c) == if x.chain == c then [x] else []
  {
    assert [x][..0] == [];
  }

  /** Dropping the last operation `x` of its chain from both lists leaves every chain the same. */
  lemma {:induction false} SameWithout(front: seq<Operation>, x: Operation, u: seq<Operation>, v: seq<Operation>,
        c: Selector)
    requires OnChain(front + [x], c) == OnChain(u + [x] + v, c) && OnChain(v, x.chain) == []
    ensures OnChain(front, c) == OnChain(u + v, c)
    ensures c == x.chain ==> OnChain(front, c) == OnChain(u, c)
  {
    hide OnChain;
    OnChainOne(x, c);
    OnChainConcat(front, [x], c);
    OnChainConcat(u + [x], v, c);
    OnChainConcat(u, [x], c);
    OnChainConcat(u, v, c);
    ByteStrings.DropMiddle(OnChain(front, c), OnChain(u, c), OnChain([x], c), OnChain(v, c));
  }

  /** The other list without the last operation `x` of the first, at its place in its own chain. */
  lemma {:induction false} SameByChainWithout(front: seq<Operation>, x: Operation, t: seq<Operation>)
    returns (u: seq<Operation>, v: seq<Operation>)
    requires SameByChain(front + [x], t)
    ensures t == u + [x] + v && OnChain(v, x.chain) == []
    ensures OnChain(u, x.chain) == OnChain(front, x.chain) && SameByChain(front, u + v)
  {
    hide OnChain;
    var c := x.chain;
    OnChainOne(x, c);
    OnChainConcat(front, [x], c);
    assert OnChain(front + [x], c) == OnChain(t, c);
    var k := LastOfChain(t, c);
    u, v := t[..k], t[k + 1..];
    assert t == u + [t[k]] + v;
    forall d: Selector
      ensures OnChain(front, d) == OnChain(u + v, d)
    {
      assert OnChain(front + [x], d) == OnChain(t, d);
      SameWithout(front, x, u, v, d);
    }
    SameWithout(front, x, u, v, c);
  }

  lemma {:induction false} LeavesBagOfChains(env: Env, starts: map<Selector, uint64>, s: seq<Operation>,
        t: seq<Operation>)
    requires SameByChain(s, t)
    ensures multiset(OperationLeaves(env, starts, s)) == multiset(OperationLeaves(env, starts, t))
    decreases |s|
  {
    if s == [] {
      EmptyByChain(t);
    } else {
      hide OperationLeaves, SameByChain;
      var front, x := s[..|s| - 1], s[|s| - 1];
      assert s == front + [x];
      var u, v := SameByChainWithout(front, x, t);
      LeavesBagOfChains(env, starts, front, u + v);
      LeavesWithout(env, starts, u, x, v);
      LeavesSnoc(env, starts, front, x);
    }
  }

  lemma {:induction false} CountByChain(s: seq<Operation>, t: seq<Operation>, c: Selector)
    requires SameByChain(s, t)
    ensures Count(s, c) == Count(t, c)
  {
    assert OnChain(s, c) == OnChain(t, c);
  }

  lemma {:induction false} EmptyByChain(t: seq<Operation>)
    requires SameByChain([], t)
    ensures t == []
  {
    if t != [] {
      var c := t[|t| - 1].chain;
      CountByChain([], t, c);
      assert false;
    }
  }

  lemma {:induction false} WithoutLast<T>(s: seq<T>)
    requires s != []
    ensures multiset(s[..|s| - 1]) == multiset(s) - multiset{s[|s| - 1]}
  {
    assert s == s[..|s| - 1] + [s[|s| - 1]];
  }

  lemma {:induction false} LastIsMax(s: seq<Hash>, h: Hash)
    requires Sorted(s) && s != []
    ensures h in multiset(s) ==> h <= s[|s| - 1]
    ensures s[|s| - 1] in multiset(s)
  {
  }

  lemma {:induction false} LastsAgree(s: seq<Hash>, t: seq<Hash>)
    requires Sorted(s) && Sorted(t) && multiset(s) == multiset(t) && s != [] && t != []
    ensures s[|s| - 1] == t[|t| - 1]
  {
    hide Sorted;
    LastIsMax(s, t[|t| - 1]);
    LastIsMax(t, t[|t| - 1]);
    LastIsMax(s, s[|s| - 1]);
    LastIsMax(t, s[|s| - 1]);
  }

  lemma {:induction false} SortedFront(s: seq<Hash>)
    requires Sorted(s) && s != []
    ensures Sorted(s[..|s| - 1])
  {
  }

  lemma {:induction false} SortedUnique(s: seq<Hash>, t: seq<Hash>)
    requires Sorted(s) && Sorted(t) && multiset(s) == multiset(t)
    ensures s == t
    decreases |s|
  {
    hide Sorted;
    assert |multiset(s)| == |s| && |multiset(t)| == |t|;
    if s != [] {
      LastsAgree(s, t);
      WithoutLast(s);
      WithoutLast(t);
      SortedFront(s);
      SortedFront(t);
      SortedUnique(s[..|s| - 1], t[..|t| - 1]);
      assert s == s[..|s| - 1] + [s[|s| - 1]] && t == t[..|t| - 1] + [t[|t| - 1]];
    }
  }

  lemma {:induction false} ValidByChain(p: Proposal, q: Proposal)
    requires p.starts == q.starts && SameByChain(p.operations, q.operations) && Valid(p)
    ensures Valid(q)
  {
    forall i | 0 <= i < |q.operations|
      ensures q.operations[i].chain in q.starts
    {
      var c := q.operations[i].chain;
      CountMember(q.operations, i);
      assert OnChain(p.operations, c) == OnChain(q.operations, c);
      CountedHasStart(p, c);
    }
  }

  lemma {:induction false} LeavesOfChains(env: Env, p: Proposal, q: Proposal, chains: seq<Selector>)
    requires p.starts == q.starts && SameByChain(p.operations, q.operations)
    ensures multiset(AllLeaves(env, p, chains)) == multiset(AllLeaves(env, q, chains))
  {
    hide OperationLeaves;
    LeavesBagOfChains(env, p.starts, p.operations, q.operations);
    forall i | 0 <= i < |chains|
      ensures ChainLeaf(env, p, chains[i]) == ChainLeaf(env, q, chains[i])
    {
      assert OnChain(p.operations, chains[i]) == OnChain(q.operations, chains[i]);
    }
    assert ChainLeaves(env, p, chains) == ChainLeaves(env, q, chains);
  }

  /** Two proposals with the same metadata whose chains each see the same operations in the same order have the same
      leaves, hence the same root, however the chains are interleaved. */
  lemma {:induction false} InterleavingKeepsLeaves(env: Env, p: Proposal, q: Proposal, chains: seq<Selector>,
        l: Leaves, m: Leaves)
    requires p.starts == q.starts && SameByChain(p.operations, q.operations)
    requires IsLeafList(env, p, chains, l) && IsLeafList(env, q, chains, m)
    ensures l == m
  {
    hide AllLeaves, Valid, SameByChain, Sorted, Somes;
    LeavesOfChains(env, p, q, chains);
    SameByChainSymmetric(p.operations, q.operations);
    if Valid(p) {
      ValidByChain(p, q);
    }
    if Valid(q) {
      ValidByChain(q, p);
    }
    var x, y := AllLeaves(env, p, chains), AllLeaves(env, q, chains);
    assert (None in x <==> None in multiset(x)) && (None in y <==> None in multiset(y));
    if l.Leaves? {
      SomesOfBag(l.hashes, m.hashes);
      SortedUnique(l.hashes, m.hashes);
    }
  }

  lemma {:induction false} SameByChainSymmetric(s: seq<Operation>, t: seq<Operation>)
    requires SameByChain(s, t)
    ensures SameByChain(t, s)
  {
    hide OnChain;
  }
}
