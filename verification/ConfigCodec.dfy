/** Flattening a signer tree into the on-chain arrays (sdk/confighelpers.go) and rebuilding it
    (sdk/evm, sdk/ton and sdk/canton). */
module ConfigCodec {
  import opened Configs
  import opened GoTypes
  import ConfigEquality
  import Sorting

  const GROUPS := 32

  datatype SignerEntry = SignerEntry(addr: Address, group: nat)

  /** `ManyChainMultiSigConfig` without the signers' `Index`, which is their position. */
  datatype ChainConfig = ChainConfig(quorums: seq<uint8>, parents: seq<nat>, signers: seq<SignerEntry>)

  // ----- the pre-order layout

  function Size(c: Config): (n: nat)
    ensures n >= 1
    decreases c, 1
  {
    1 + SizeOf(c.groups)
  }

  function SizeOf(gs: seq<Config>): nat
    decreases gs, 0
  {
    if gs == [] then 0 else Size(gs[0]) + SizeOf(gs[1..])
  }

  /** Group quorums, parent indices and tagged signers, each in pre-order. */
  datatype Layout = Layout(quorums: seq<uint8>, parents: seq<nat>, entries: seq<SignerEntry>)

  ghost function Join(l: Layout, m: Layout): Layout {
    Layout(l.quorums + m.quorums, l.parents + m.parents, l.entries + m.entries)
  }

  lemma {:induction false} JoinAssociative(l: Layout, m: Layout, n: Layout)
    ensures Join(Join(l, m), n) == Join(l, Join(m, n))
  {
    assert (l.quorums + m.quorums) + n.quorums == l.quorums + (m.quorums + n.quorums);
    assert (l.parents + m.parents) + n.parents == l.parents + (m.parents + n.parents);
    assert (l.entries + m.entries) + n.entries == l.entries + (m.entries + n.entries);
  }

  ghost function Tagged(signers: seq<Address>, group: nat): seq<SignerEntry> {
    seq(|signers|, i requires 0 <= i < |signers| => SignerEntry(signers[i], group))
  }

  /** The layout of the subtree whose root sits at index `base`. */
  ghost function LayoutOf(c: Config, parent: nat, base: nat): Layout
    decreases c, 1
  {
    Join(Layout([c.quorum], [parent], Tagged(c.signers, base)), LayoutOfAll(c.groups, base, base + 1))
  }

  ghost function LayoutOfAll(gs: seq<Config>, parent: nat, base: nat): Layout
    decreases gs, 0
  {
    if gs == [] then Layout([], [], [])
    else Join(LayoutOf(gs[0], parent, base), LayoutOfAll(gs[1..], parent, base + Size(gs[0])))
  }

  lemma {:induction false} LayoutLengths(c: Config, parent: nat, base: nat)
    ensures var l := LayoutOf(c, parent, base);
      |l.quorums| == |l.parents| == Size(c) && |l.entries| == |Roster(c)|
    decreases c, 1
  {
    LayoutLengthsAll(c.groups, base, base + 1);
  }

  lemma {:induction false} LayoutLengthsAll(gs: seq<Config>, parent: nat, base: nat)
    ensures var l := LayoutOfAll(gs, parent, base);
      |l.quorums| == |l.parents| == SizeOf(gs) && |l.entries| == |RosterOf(gs)|
    decreases gs, 0
  {
    if gs != [] {
      LayoutLengths(gs[0], parent, base);
      LayoutLengthsAll(gs[1..], parent, base + Size(gs[0]));
    }
  }

  // ----- flattening

  /** The four slices that `extractGroupsAndSigners` appends to. */
  class Flattener {
    var groupQuorums: seq<uint8>
    var groupParents: seq<nat>
    var signerAddrs: seq<Address>
    var signerGroups: seq<nat>

    ghost predicate Valid()
      reads this
    {
      |groupQuorums| == |groupParents| && |signerAddrs| == |signerGroups|
    }

    function Signers(): seq<SignerEntry>
      requires Valid()
      reads this
    {
      seq(|signerAddrs|, i requires 0 <= i < |signerAddrs| reads this requires Valid() =>
        SignerEntry(signerAddrs[i], signerGroups[i]))
    }

    ghost function View(): Layout
      requires Valid()
      reads this
    {
      Layout(groupQuorums, groupParents, Signers())
    }

    constructor ()
      ensures Valid() && View() == Layout([], [], [])
    {
      groupQuorums, groupParents, signerAddrs, signerGroups := [], [], [], [];
    }

    /** Appends one group: its quorum, its parent and its direct signers. */
    method AppendGroup(quorum: uint8, parent: nat, signers: seq<Address>)
      requires Valid()
      modifies this
      ensures Valid()
      ensures View() == Join(old(View()), Layout([quorum], [parent], Tagged(signers, |old(groupQuorums)|)))
    {
      ghost var before, group := Signers(), |groupQuorums|;
      var current := |groupQuorums|;
      groupQuorums := groupQuorums + [quorum];
      groupParents := groupParents + [parent];
      for i := 0 to |signers|
        invariant Valid() && Signers() == before + Tagged(signers[..i], current)
        invariant groupQuorums == old(groupQuorums) + [quorum] && groupParents == old(groupParents) + [parent]
      {
        signerAddrs := signerAddrs + [signers[i]];
        signerGroups := signerGroups + [current];
        assert Signers() == before + Tagged(signers[..i], current) + [SignerEntry(signers[i], current)];
      }
      assert signers[..|signers|] == signers;
    }

    /** Appends the subtree in pre-order; fails when a group index does not fit in a uint8. */
    method Extract(c: Config, parent: nat) returns (ok: bool)
      requires Valid()
      modifies this
      ensures ok <==> |old(groupQuorums)| + Size(c) <= 256
      ensures ok ==> Valid() && View() == Join(old(View()), LayoutOf(c, parent, |old(groupQuorums)|))
      decreases c
    {
      ghost var base, target := |groupQuorums|, Join(View(), LayoutOf(c, parent, |groupQuorums|));
      var current := |groupQuorums|;
      ghost var head := Layout([c.quorum], [parent], Tagged(c.signers, current));
      JoinAssociative(View(), head, LayoutOfAll(c.groups, current, current + 1));
      AppendGroup(c.quorum, parent, c.signers);
      if current > 255 {
        return false;
      }
      var gs := c.groups;
      assert gs[0..] == gs;
      for i := 0 to |gs|
        invariant Valid() && |groupQuorums| <= 256
        invariant target == Join(View(), LayoutOfAll(gs[i..], current, |groupQuorums|))
        invariant base + Size(c) == |groupQuorums| + SizeOf(gs[i..])
      {
        assert gs[i..][1..] == gs[i + 1..];
        LayoutLengths(gs[i], current, |groupQuorums|);
        JoinAssociative(View(), LayoutOf(gs[i], current, |groupQuorums|),
                        LayoutOfAll(gs[i + 1..], current, |groupQuorums| + Size(gs[i])));
        ok := Extract(gs[i], current);
        if !ok {
          return false;
        }
      }
      return true;
    }
  }

  // ----- ExtractSetConfigInputs and the EVM encoder

  ghost predicate Ascending(s: seq<SignerEntry>) {
    forall i, j :: 0 <= i < j < |s| ==> s[i].addr <= s[j].addr
  }

  /** Zero padding to 32 entries; the slice-to-array conversion keeps only the first 32. */
  ghost function ToArray32<T>(s: seq<T>, zero: T): (r: seq<T>)
    ensures |r| == GROUPS
  {
    seq(GROUPS, i requires 0 <= i < GROUPS => if i < |s| then s[i] else zero)
  }

  /** `chain` is what the tree is stored as; only the order of equal addresses is left open. */
  ghost predicate IsEncoding(c: Config, chain: ChainConfig) {
    && chain.quorums == ToArray32(LayoutOf(c, 0, 0).quorums, 0)
    && chain.parents == ToArray32(LayoutOf(c, 0, 0).parents, 0)
    && Ascending(chain.signers)
    && multiset(chain.signers) == multiset(LayoutOf(c, 0, 0).entries)
  }

  datatype Encoded = Encoded(chain: ChainConfig) | TooManyGroups | TooManySigners(n: nat)

  method Pad<T>(s: seq<T>, zero: T) returns (r: seq<T>)
    ensures |r| >= GROUPS && r[..GROUPS] == ToArray32(s, zero)
  {
    r := s;
    while |r| < GROUPS
      invariant |s| <= |r| && (|s| < GROUPS ==> |r| <= GROUPS)
      invariant forall k :: 0 <= k < |r| ==> r[k] == if k < |s| then s[k] else zero
      decreases GROUPS - |r|
    {
      r := r + [zero];
    }
  }

  method ExtractSetConfigInputs(c: Config) returns (r: Encoded)
    ensures r == TooManyGroups || r.Encoded?
    ensures r.Encoded? <==> Size(c) <= 256
    ensures r.Encoded? ==> IsEncoding(c, r.chain) && |r.chain.signers| == |Roster(c)|
  {
    LayoutLengths(c, 0, 0);
    var flat := new Flattener();
    var ok := flat.Extract(c, 0);
    if !ok {
      return TooManyGroups;
    }
    var groupQuorums := Pad(flat.groupQuorums, 0);
    var groupParents := Pad(flat.groupParents, 0);
    var unsorted := flat.Signers();
    var signers := Sorting.Sort(unsorted, (e: SignerEntry) => e.addr);
    assert Ascending(signers);
    assert |multiset(signers)| == |multiset(unsorted)|;
    return Encoded(ChainConfig(groupQuorums[..GROUPS], groupParents[..GROUPS], signers));
  }

  method ToChainConfig(c: Config) returns (r: Encoded)
    ensures r.TooManyGroups? <==> Size(c) > 256
    ensures r.TooManySigners? <==> Size(c) <= 256 && |Roster(c)| > 255
    ensures r.Encoded? ==> IsEncoding(c, r.chain)
  {
    r := ExtractSetConfigInputs(c);
    if r.Encoded? && |r.chain.signers| > 255 {
      r := TooManySigners(|r.chain.signers|);
    }
  }

  // ----- rebuilding

  /** Addresses filed under group `g`, in table order. */
  function Pick(signers: seq<SignerEntry>, g: nat): seq<Address> {
    if signers == [] then []
    else
      var front, last := signers[..|signers| - 1], signers[|signers| - 1];
      Pick(front, g) + if last.group == g then [last.addr] else []
  }

  /** Links group `i` in front of its parent's groups; slot 0 and empty slots are skipped. */
  function LinkOne(groups: seq<Config>, parents: seq<nat>, i: nat): (r: seq<Config>)
    requires i < |groups| == |parents|
    requires i > 0 && groups[i].quorum > 0 ==> parents[i] < |groups|
    ensures |r| == |groups|
    ensures forall k :: 0 <= k < |r| ==> r[k].quorum == groups[k].quorum
  {
    if i > 0 && groups[i].quorum > 0 then
      var p := groups[parents[i]];
      groups[parents[i] := p.(groups := [groups[i]] + p.groups)]
    else groups
  }

  ghost predicate ParentsInRange(groups: seq<Config>, parents: seq<nat>)
    requires |groups| == |parents|
  {
    forall i :: 1 <= i < |groups| && groups[i].quorum > 0 ==> parents[i] < |groups|
  }

  /** The downward loop over the indices `hi - 1` to `lo`. */
  function Link(groups: seq<Config>, parents: seq<nat>, lo: nat, hi: nat): (r: seq<Config>)
    requires lo <= hi <= |groups| == |parents| && ParentsInRange(groups, parents)
    ensures |r| == |groups|
    ensures forall k :: 0 <= k < |r| ==> r[k].quorum == groups[k].quorum
    decreases hi - lo
  {
    if lo == hi then groups else Link(LinkOne(groups, parents, hi - 1), parents, lo, hi - 1)
  }

  ghost function Nodes(chain: ChainConfig): seq<Config> {
    seq(|chain.quorums|, i requires 0 <= i < |chain.quorums| => Config(chain.quorums[i], Pick(chain.signers, i), []))
  }

  datatype Decoded = Decoded(config: Config) | IndexOutOfRange | InvalidConfig

  /** Collects each group's addresses; fails on a group index past the table. */
  method GroupSigners(signers: seq<SignerEntry>) returns (ok: bool, groupToSigners: seq<seq<Address>>)
    ensures ok <==> forall s :: s in signers ==> s.group < GROUPS
    ensures ok ==> |groupToSigners| == GROUPS && forall g :: 0 <= g < GROUPS ==> groupToSigners[g] == Pick(signers, g)
  {
    var table := new seq<Address>[GROUPS](_ => []);
    for i := 0 to |signers|
      invariant forall k :: 0 <= k < i ==> signers[k].group < GROUPS
      invariant forall g :: 0 <= g < GROUPS ==> table[g] == Pick(signers[..i], g)
    {
      var signer := signers[i];
      if signer.group >= GROUPS {
        return false, [];
      }
      assert signers[..i + 1][..i] == signers[..i];
      table[signer.group] := table[signer.group] + [signer.addr];
    }
    assert signers[..|signers|] == signers;
    return true, table[..];
  }

  method InitGroups(quorums: seq<uint8>, groupToSigners: seq<seq<Address>>) returns (groups: array<Config>)
    requires |quorums| == |groupToSigners|
    ensures fresh(groups) && groups.Length == |quorums|
    ensures forall i :: 0 <= i < |quorums| ==> groups[i] == Config(quorums[i], groupToSigners[i], [])
  {
    groups := new Config[|quorums|](_ => Config(0, [], []));
    for i := 0 to |quorums|
      invariant forall k :: 0 <= k < i ==> groups[k] == Config(quorums[k], groupToSigners[k], [])
    {
      groups[i] := Config(quorums[i], groupToSigners[i], []);
    }
  }

  /** The loop has linked the indices from `i` on, and the ones below are still to do. */
  ghost predicate LinkedDownTo(nodes: seq<Config>, now: seq<Config>, parents: seq<nat>, i: nat)
    requires i <= |nodes| == |parents|
  {
    && |now| == |nodes|
    && (forall k :: 0 <= k < |nodes| ==> now[k].quorum == nodes[k].quorum)
    && (forall k :: i <= k < |nodes| && k > 0 && nodes[k].quorum > 0 ==> parents[k] < |nodes|)
    && (ParentsInRange(nodes, parents) ==> Link(nodes, parents, 0, |nodes|) == Link(now, parents, 0, i))
  }

  lemma {:induction false} LinkedDownOne(nodes: seq<Config>, now: seq<Config>, parents: seq<nat>, i: nat)
    requires i < |nodes| == |parents| && LinkedDownTo(nodes, now, parents, i + 1)
    requires i > 0 && nodes[i].quorum > 0 ==> parents[i] < |nodes|
    ensures LinkedDownTo(nodes, LinkOne(now, parents, i), parents, i)
  {
  }

  /** Links every group into its parent, highest index first, in place. */
  method LinkGroups(groups: array<Config>, parents: seq<nat>) returns (ok: bool)
    requires groups.Length == |parents|
    modifies groups
    ensures ok <==> ParentsInRange(old(groups[..]), parents)
    ensures ok ==> groups[..] == Link(old(groups[..]), parents, 0, |parents|)
  {
    ghost var nodes := groups[..];
    var i := groups.Length;
    while i > 0
      invariant 0 <= i <= groups.Length
      invariant LinkedDownTo(nodes, groups[..], parents, i)
    {
      i := i - 1;
      ghost var before := groups[..];
      if i > 0 && groups[i].quorum > 0 {
        if parents[i] >= groups.Length {
          return false;
        }
        groups[parents[i]] := groups[parents[i]].(groups := [groups[i]] + groups[parents[i]].groups);
      }
      assert groups[..] == LinkOne(before, parents, i);
      LinkedDownOne(nodes, before, parents, i);
    }
    ok := true;
  }

  /** Links the nodes and validates the root. */
  ghost function DecodeNodes(nodes: seq<Config>, parents: seq<nat>): Decoded
    requires |nodes| == |parents| > 0
  {
    if !ParentsInRange(nodes, parents) then IndexOutOfRange
    else
      var root := Link(nodes, parents, 0, |nodes|)[0];
      if Valid(root) then Decoded(root) else InvalidConfig
  }

  /** The tree an on-chain config stands for. */
  ghost function Decode(chain: ChainConfig): Decoded
    requires |chain.quorums| == |chain.parents| == GROUPS
  {
    if exists s :: s in chain.signers && s.group >= GROUPS then IndexOutOfRange
    else DecodeNodes(Nodes(chain), chain.parents)
  }

  method LinkAndValidate(groups: array<Config>, parents: seq<nat>) returns (r: Decoded)
    requires groups.Length == |parents| > 0
    modifies groups
    ensures r == DecodeNodes(old(groups[..]), parents)
  {
    var ok := LinkGroups(groups, parents);
    if !ok {
      return IndexOutOfRange;
    }
    var root := groups[0];
    return if Valid(root) then Decoded(root) else InvalidConfig;
  }

  /** The EVM `ToConfig`; an out-of-range index is a Go panic. */
  method ToConfig(chain: ChainConfig) returns (r: Decoded)
    requires |chain.quorums| == |chain.parents| == GROUPS
    ensures r == Decode(chain)
    ensures r.Decoded? ==> forall g :: g in Within(r.config) ==> 0 < g.quorum <= |g.signers| + |g.groups|
  {
    var ok, groupToSigners := GroupSigners(chain.signers);
    if !ok {
      return IndexOutOfRange;
    }
    var groups := InitGroups(chain.quorums, groupToSigners);
    assert groups[..] == Nodes(chain);
    r := LinkAndValidate(groups, chain.parents);
    if r.Decoded? {
      ValidIff(r.config);
    }
  }

  // ----- what is read, without the loops

  /** Index `i` is a child of group `k`: it has a quorum, a larger index and `k` as its parent. */
  predicate IsChild(chain: ChainConfig, k: nat, i: nat)
    requires k < i < |chain.quorums| == |chain.parents|
  {
    chain.quorums[i] > 0 && chain.parents[i] == k
  }

  /** The group at index `k` with its own signers in table order and its children in index order. */
  ghost function TreeAt(chain: ChainConfig, k: nat): Config
    requires k < |chain.quorums| == |chain.parents|
    decreases |chain.quorums| - k, 0
  {
    Config(chain.quorums[k], Pick(chain.signers, k), ChildrenFrom(chain, k, k + 1))
  }

  /** Those of its children whose index is `i` or larger. */
  ghost function ChildrenFrom(chain: ChainConfig, k: nat, i: nat): seq<Config>
    requires k < i <= |chain.quorums| == |chain.parents|
    decreases |chain.quorums| - i, 1
  {
    if i == |chain.quorums| then []
    else (if IsChild(chain, k, i) then [TreeAt(chain, i)] else []) + ChildrenFrom(chain, k, i + 1)
  }

  /** Every group but the root that has a quorum has its parent at a smaller index. */
  ghost predicate ParentsFirst(chain: ChainConfig)
    requires |chain.quorums| == |chain.parents|
  {
    forall i :: 1 <= i < |chain.quorums| && chain.quorums[i] > 0 ==> chain.parents[i] < i
  }

  /** The state of the loop when the indices from `hi` on have been linked. */
  ghost predicate LinkedFrom(chain: ChainConfig, groups: seq<Config>, hi: nat)
    requires |groups| == |chain.quorums| == |chain.parents|
  {
    forall k :: 0 <= k < |groups| ==> groups[k] == PartialTree(chain, k, hi)
  }

  ghost function PartialTree(chain: ChainConfig, k: nat, hi: nat): Config
    requires k < |chain.quorums| == |chain.parents|
  {
    var from := if hi <= k then k + 1 else hi;
    Config(chain.quorums[k], Pick(chain.signers, k),
           if from <= |chain.quorums| then ChildrenFrom(chain, k, from) else [])
  }

  lemma {:induction false} PartialTreeStep(chain: ChainConfig, k: nat, i: nat)
    requires k < |chain.quorums| == |chain.parents| && i < |chain.quorums|
    ensures PartialTree(chain, k, i)
         == if k < i && IsChild(chain, k, i)
            then PartialTree(chain, k, i + 1).(groups := [TreeAt(chain, i)] + PartialTree(chain, k, i + 1).groups)
            else PartialTree(chain, k, i + 1)
    ensures PartialTree(chain, i, i + 1) == TreeAt(chain, i)
  {
    hide Pick;
    if k < i {
      assert ChildrenFrom(chain, k, i)
          == (if IsChild(chain, k, i) then [TreeAt(chain, i)] else []) + ChildrenFrom(chain, k, i + 1);
    }
  }

  lemma {:induction false} LinkOneExtends(chain: ChainConfig, groups: seq<Config>, i: nat)
    requires i < |groups| == |chain.quorums| == |chain.parents| && ParentsFirst(chain)
    requires LinkedFrom(chain, groups, i + 1)
    ensures i > 0 && groups[i].quorum > 0 ==> chain.parents[i] < |groups|
    ensures LinkedFrom(chain, LinkOne(groups, chain.parents, i), i)
  {
    assert groups[i] == PartialTree(chain, i, i + 1);
    assert groups[i].quorum == chain.quorums[i];
    hide PartialTree, TreeAt;
    var after := LinkOne(groups, chain.parents, i);
    forall k | 0 <= k < |groups|
      ensures after[k] == PartialTree(chain, k, i)
    {
      PartialTreeStep(chain, k, i);
      assert groups[k] == PartialTree(chain, k, i + 1);
    }
  }

  lemma {:induction false} LinkBuildsTrees(chain: ChainConfig, groups: seq<Config>, hi: nat)
    requires hi <= |groups| == |chain.quorums| == |chain.parents| && ParentsFirst(chain)
    requires LinkedFrom(chain, groups, hi) && ParentsInRange(groups, chain.parents)
    ensures LinkedFrom(chain, Link(groups, chain.parents, 0, hi), 0)
    decreases hi
  {
    if hi > 0 {
      LinkOneExtends(chain, groups, hi - 1);
      LinkBuildsTrees(chain, LinkOne(groups, chain.parents, hi - 1), hi - 1);
    }
  }

  /** The linked root, before it is validated. */
  ghost function Root(chain: ChainConfig): Config
    requires |chain.quorums| == |chain.parents| == GROUPS && InRange(chain)
  {
    Link(Nodes(chain), chain.parents, 0, GROUPS)[0]
  }

  /** Every index that is followed fits the table. */
  ghost predicate InRange(chain: ChainConfig)
    requires |chain.quorums| == |chain.parents| == GROUPS
  {
    && (forall i :: 0 <= i < |chain.signers| ==> chain.signers[i].group < GROUPS)
    && (forall i :: 1 <= i < GROUPS && chain.quorums[i] > 0 ==> chain.parents[i] < GROUPS)
  }

  /** Where parents come first, as the loop assumes, the linked root is the tree that the parent indices describe,
      whatever wrote them. */
  lemma {:induction false} RootIsTree(chain: ChainConfig)
    requires |chain.quorums| == |chain.parents| == GROUPS && InRange(chain) && ParentsFirst(chain)
    ensures Root(chain) == TreeAt(chain, 0)
  {
    hide Pick;
    var nodes := Nodes(chain);
    assert ParentsInRange(nodes, chain.parents);
    assert LinkedFrom(chain, nodes, GROUPS);
    LinkBuildsTrees(chain, nodes, GROUPS);
    assert PartialTree(chain, 0, 0) == TreeAt(chain, 0);
  }

  /** The three outcomes: an index out of range, a linked root that has somewhere a quorum of 0 or one above the number
      of signers and groups, and otherwise the linked root. */
  lemma {:induction false} DecodeCases(chain: ChainConfig)
    requires |chain.quorums| == |chain.parents| == GROUPS
    ensures Decode(chain) == IndexOutOfRange <==> !InRange(chain)
    ensures Decode(chain) == InvalidConfig <==>
      (InRange(chain) && exists g :: g in Within(Root(chain)) && !(0 < g.quorum <= |g.signers| + |g.groups|))
    ensures Decode(chain).Decoded? ==> InRange(chain) && Decode(chain).config == Root(chain)
  {
    hide Pick, Link, Valid, Within;
    assert (exists s :: s in chain.signers && s.group >= GROUPS)
      <==> exists i :: 0 <= i < |chain.signers| && chain.signers[i].group >= GROUPS;
    assert ParentsInRange(Nodes(chain), chain.parents)
      <==> forall i :: 1 <= i < GROUPS && chain.quorums[i] > 0 ==> chain.parents[i] < GROUPS by {
      hide InRange;
    }
    if InRange(chain) {
      ValidIff(Root(chain));
    }
  }

  // ----- rebuilding undoes flattening

  ghost predicate SortedAddresses(s: seq<Address>) {
    forall i, j :: 0 <= i < j < |s| ==> s[i] <= s[j]
  }

  /** `r` is `c` with each group's own signers put in ascending order, and nothing else changed. */
  ghost predicate SortedCopy(c: Config, r: Config) {
    && r.quorum == c.quorum
    && multiset(r.signers) == multiset(c.signers) && SortedAddresses(r.signers)
    && |r.groups| == |c.groups|
    && forall i :: 0 <= i < |c.groups| ==> SortedCopy(c.groups[i], r.groups[i])
  }

  ghost predicate SortedCopies(cs: seq<Config>, rs: seq<Config>) {
    |cs| == |rs| && forall i :: 0 <= i < |cs| ==> SortedCopy(cs[i], rs[i])
  }

  /** The unlinked nodes of a subtree occupy the indices from `base` on, in pre-order. */
  ghost predicate Laid(nodes: seq<Config>, parents: seq<nat>, c: Config, parent: nat, base: nat)
    requires |nodes| == |parents|
    decreases c, 1
  {
    && base < |nodes| && parents[base] == parent && c.quorum > 0
    && nodes[base].quorum == c.quorum && nodes[base].groups == []
    && multiset(nodes[base].signers) == multiset(c.signers) && SortedAddresses(nodes[base].signers)
    && LaidAll(nodes, parents, c.groups, base, base + 1)
  }

  ghost predicate LaidAll(nodes: seq<Config>, parents: seq<nat>, gs: seq<Config>, parent: nat, base: nat)
    requires |nodes| == |parents|
    decreases gs, 0
  {
    gs != [] ==>
      && Laid(nodes, parents, gs[0], parent, base)
      && LaidAll(nodes, parents, gs[1..], parent, base + Size(gs[0]))
  }

  lemma {:induction false} LaidFrame(m: seq<Config>, n: seq<Config>, parents: seq<nat>, c: Config, parent: nat,
        base: nat)
    requires |m| == |n| == |parents| && Laid(m, parents, c, parent, base)
    requires forall k :: base <= k < base + Size(c) && k < |m| ==> m[k] == n[k]
    ensures Laid(n, parents, c, parent, base)
    decreases c, 1
  {
    LaidAllFrame(m, n, parents, c.groups, base, base + 1);
  }

  lemma {:induction false} LaidAllFrame(m: seq<Config>, n: seq<Config>, parents: seq<nat>,
                                        gs: seq<Config>, parent: nat, base: nat)
    requires |m| == |n| == |parents| && LaidAll(m, parents, gs, parent, base)
    requires forall k :: base <= k < base + SizeOf(gs) && k < |m| ==> m[k] == n[k]
    ensures LaidAll(n, parents, gs, parent, base)
    decreases gs, 0
  {
    if gs != [] {
      LaidFrame(m, n, parents, gs[0], parent, base);
      LaidAllFrame(m, n, parents, gs[1..], parent, base + Size(gs[0]));
    }
  }

  /** Every parent index is in bounds, whatever the groups' quorums. */
  ghost predicate InBounds(parents: seq<nat>) {
    forall i :: 0 <= i < |parents| ==> parents[i] < |parents|
  }

  lemma {:induction false} LinkSplit(groups: seq<Config>, parents: seq<nat>, lo: nat, mid: nat, hi: nat)
    requires lo <= mid <= hi <= |groups| == |parents| && ParentsInRange(groups, parents)
    ensures Link(groups, parents, lo, hi) == Link(Link(groups, parents, mid, hi), parents, lo, mid)
    decreases hi - mid
  {
    if mid < hi {
      LinkSplit(LinkOne(groups, parents, hi - 1), parents, lo, mid, hi - 1);
    }
  }

  /** What linking the index range of a forest does: the parent gains the forest, in order, in front of what it had. */
  ghost predicate Linked(before: seq<Config>, after: seq<Config>, gs: seq<Config>, parent: nat, base: nat, hi: nat)
    requires parent < |before| == |after|
  {
    && (exists rs :: SortedCopies(gs, rs) && after[parent] == Gained(before[parent], rs))
    && forall k :: 0 <= k < |before| && k != parent && !(base <= k < hi) ==> after[k] == before[k]
  }

  ghost function Gained(c: Config, rs: seq<Config>): Config {
    c.(groups := rs + c.groups)
  }

  lemma {:induction false} SortedCopiesCons(cs: seq<Config>, r: seq<Config>, rs: seq<Config>)
    requires cs != [] && SortedCopies([cs[0]], r) && SortedCopies(cs[1..], rs)
    ensures SortedCopies(cs, r + rs)
  {
    forall i | 0 <= i < |cs|
      ensures SortedCopy(cs[i], (r + rs)[i])
    {
      if i > 0 {
        assert SortedCopy(cs[1..][i - 1], rs[i - 1]);
      }
    }
  }

  lemma {:induction false} LinkedNil(groups: seq<Config>, gs: seq<Config>, parent: nat, base: nat)
    requires parent < |groups| && gs == []
    ensures Linked(groups, groups, gs, parent, base, base)
  {
    assert SortedCopies(gs, []);
    assert [] + groups[parent].groups == groups[parent].groups;
  }

  lemma {:induction false} LinkedCons(before: seq<Config>, middle: seq<Config>, after: seq<Config>,
                   gs: seq<Config>, parent: nat, base: nat, mid: nat, hi: nat)
    requires parent < |before| == |middle| == |after| && base <= mid <= hi && gs != []
    requires Linked(before, middle, gs[1..], parent, mid, hi) && Linked(middle, after, [gs[0]], parent, base, mid)
    ensures Linked(before, after, gs, parent, base, hi)
  {
    var rs :| SortedCopies(gs[1..], rs) && middle[parent] == Gained(before[parent], rs);
    var r :| SortedCopies([gs[0]], r) && after[parent] == Gained(middle[parent], r);
    SortedCopiesCons(gs, r, rs);
    assert (r + rs) + before[parent].groups == r + (rs + before[parent].groups);
    assert after[parent] == Gained(before[parent], r + rs);
  }

  /** Pre-order numbering puts every child above its parent, so the downward loop finishes a group before using it. */
  lemma {:induction false} LinkTree(groups: seq<Config>, parents: seq<nat>, c: Config, parent: nat, base: nat)
    requires |groups| == |parents| && InBounds(parents)
    requires parent < base && base + Size(c) <= |groups|
    requires Laid(groups, parents, c, parent, base)
    ensures Linked(groups, Link(groups, parents, base, base + Size(c)), [c], parent, base, base + Size(c))
    decreases c, 1
  {
    var hi := base + Size(c);
    LinkForest(groups, parents, c.groups, base, base + 1, hi);
    LinkedTree(groups, Link(groups, parents, base + 1, hi), parents, c, parent, base, hi);
    LinkSplit(groups, parents, base, base + 1, hi);
  }

  lemma {:induction false} LinkedTree(groups: seq<Config>, inner: seq<Config>, parents: seq<nat>, c: Config,
        parent: nat, base: nat, hi: nat)
    requires parent < base < hi <= |groups| == |inner| == |parents| && InBounds(parents)
    requires Laid(groups, parents, c, parent, base)
    requires Linked(groups, inner, c.groups, base, base + 1, hi)
    ensures Linked(groups, Link(inner, parents, base, base + 1), [c], parent, base, hi)
  {
    var rs :| SortedCopies(c.groups, rs) && inner[base] == Gained(groups[base], rs);
    assert rs + groups[base].groups == rs;
    assert SortedCopies([c], [inner[base]]);
    assert Link(inner, parents, base, base + 1) == LinkOne(inner, parents, base);
    assert LinkOne(inner, parents, base)[parent] == Gained(groups[parent], [inner[base]]);
  }

  lemma {:induction false} LinkForest(groups: seq<Config>, parents: seq<nat>, gs: seq<Config>,
                                      parent: nat, base: nat, hi: nat)
    requires |groups| == |parents| && InBounds(parents)
    requires parent < base && base + SizeOf(gs) == hi <= |groups|
    requires LaidAll(groups, parents, gs, parent, base)
    ensures Linked(groups, Link(groups, parents, base, hi), gs, parent, base, hi)
    decreases gs, 0
  {
    if gs == [] {
      LinkedNil(groups, gs, parent, base);
    } else {
      var mid := base + Size(gs[0]);
      var middle := Link(groups, parents, mid, hi);
      assert Linked(groups, middle, gs[1..], parent, mid, hi) by {
        LinkForest(groups, parents, gs[1..], parent, mid, hi);
      }
      assert Linked(groups, Link(middle, parents, base, mid), gs, parent, base, hi) by {
        LinkForestHead(groups, middle, parents, gs, parent, base, mid, hi);
      }
      LinkSplit(groups, parents, base, mid, hi);
    }
  }

  lemma {:induction false} LinkForestHead(groups: seq<Config>, middle: seq<Config>, parents: seq<nat>,
                                          gs: seq<Config>, parent: nat, base: nat, mid: nat, hi: nat)
    requires |groups| == |middle| == |parents| && InBounds(parents) && gs != []
    requires parent < base && base + Size(gs[0]) == mid <= hi <= |groups|
    requires Laid(groups, parents, gs[0], parent, base)
    requires Linked(groups, middle, gs[1..], parent, mid, hi)
    ensures Linked(groups, Link(middle, parents, base, mid), gs, parent, base, hi)
    decreases gs[0], 2
  {
    LaidFrame(groups, middle, parents, gs[0], parent, base);
    LinkTree(middle, parents, gs[0], parent, base);
    LinkedCons(groups, middle, Link(middle, parents, base, mid), gs, parent, base, mid, hi);
  }

  // ----- the stored table holds each group's own signers

  lemma {:induction false} PickConcat(s: seq<SignerEntry>, t: seq<SignerEntry>, g: nat)
    ensures Pick(s + t, g) == Pick(s, g) + Pick(t, g)
    decreases |t|
  {
    if t == [] {
      assert s + t == s;
    } else {
      PickConcat(s, t[..|t| - 1], g);
      assert (s + t)[..|s + t| - 1] == s + t[..|t| - 1];
    }
  }

  lemma {:induction false} PickTagged(signers: seq<Address>, group: nat, g: nat)
    ensures Pick(Tagged(signers, group), g) == if g == group then signers else []
    decreases |signers|
  {
    if signers != [] {
      var front := signers[..|signers| - 1];
      PickTagged(front, group, g);
      assert Tagged(signers, group)[..|signers| - 1] == Tagged(front, group);
    }
  }

  /** A subtree tags signers with its own indices only. */
  lemma {:induction false} PickOutside(c: Config, parent: nat, base: nat, g: nat)
    requires g < base || base + Size(c) <= g
    ensures Pick(LayoutOf(c, parent, base).entries, g) == []
    decreases c, 1
  {
    PickTagged(c.signers, base, g);
    PickOutsideAll(c.groups, base, base + 1, g);
    PickConcat(Tagged(c.signers, base), LayoutOfAll(c.groups, base, base + 1).entries, g);
  }

  lemma {:induction false} PickOutsideAll(gs: seq<Config>, parent: nat, base: nat, g: nat)
    requires g < base || base + SizeOf(gs) <= g
    ensures Pick(LayoutOfAll(gs, parent, base).entries, g) == []
    decreases gs, 0
  {
    if gs != [] {
      PickOutside(gs[0], parent, base, g);
      PickOutsideAll(gs[1..], parent, base + Size(gs[0]), g);
      PickConcat(LayoutOf(gs[0], parent, base).entries, LayoutOfAll(gs[1..], parent, base + Size(gs[0])).entries, g);
    }
  }

  /** Node `i` is the group at `i` of a layout starting at `base`, with its own signers in ascending order. */
  ghost predicate StoredAt(nodes: seq<Config>, parents: seq<nat>, l: Layout, base: nat, i: nat)
    requires |l.quorums| == |l.parents| && base <= i < base + |l.quorums| <= |nodes| == |parents|
  {
    && nodes[i].quorum == l.quorums[i - base] && nodes[i].groups == [] && parents[i] == l.parents[i - base]
    && multiset(nodes[i].signers) == multiset(Pick(l.entries, i)) && SortedAddresses(nodes[i].signers)
  }

  ghost predicate Stored(nodes: seq<Config>, parents: seq<nat>, l: Layout, base: nat) {
    && |nodes| == |parents| && base + |l.quorums| <= |nodes| && |l.quorums| == |l.parents|
    && forall i :: base <= i < base + |l.quorums| ==> StoredAt(nodes, parents, l, base, i)
  }

  /** No signer is tagged with an index outside `[lo, hi)`. */
  ghost predicate Confined(l: Layout, lo: nat, hi: nat) {
    forall g: nat :: g < lo || hi <= g ==> Pick(l.entries, g) == []
  }

  lemma {:induction false} StoredLeft(nodes: seq<Config>, parents: seq<nat>, l: Layout, m: Layout, base: nat)
    requires Stored(nodes, parents, Join(l, m), base) && |l.quorums| == |l.parents|
    requires forall g: nat :: g < base + |l.quorums| ==> Pick(m.entries, g) == []
    ensures Stored(nodes, parents, l, base)
  {
    forall i | base <= i < base + |l.quorums|
      ensures StoredAt(nodes, parents, l, base, i)
    {
      assert StoredAt(nodes, parents, Join(l, m), base, i);
      PickConcat(l.entries, m.entries, i);
    }
  }

  lemma {:induction false} StoredRight(nodes: seq<Config>, parents: seq<nat>, l: Layout, m: Layout, base: nat, mid: nat)
    requires Stored(nodes, parents, Join(l, m), base) && |l.quorums| == |l.parents| == mid - base
    requires forall g: nat :: mid <= g ==> Pick(l.entries, g) == []
    ensures Stored(nodes, parents, m, mid)
  {
    forall i | mid <= i < mid + |m.quorums|
      ensures StoredAt(nodes, parents, m, mid, i)
    {
      assert StoredAt(nodes, parents, Join(l, m), base, i);
      PickConcat(l.entries, m.entries, i);
    }
  }

  lemma {:induction false} StoredSplit(nodes: seq<Config>, parents: seq<nat>, l: Layout, m: Layout, base: nat, hi: nat)
    requires Stored(nodes, parents, Join(l, m), base) && |l.quorums| == |l.parents|
    requires Confined(l, base, base + |l.quorums|) && Confined(m, base + |l.quorums|, hi)
    ensures Stored(nodes, parents, l, base) && Stored(nodes, parents, m, base + |l.quorums|)
  {
    StoredLeft(nodes, parents, l, m, base);
    StoredRight(nodes, parents, l, m, base, base + |l.quorums|);
  }

  lemma {:induction false} ForestConfined(gs: seq<Config>, parent: nat, base: nat)
    ensures Confined(LayoutOfAll(gs, parent, base), base, base + SizeOf(gs))
  {
    forall g: nat | g < base || base + SizeOf(gs) <= g
      ensures Pick(LayoutOfAll(gs, parent, base).entries, g) == []
    {
      PickOutsideAll(gs, parent, base, g);
    }
  }

  lemma {:induction false} TreeConfined(c: Config, parent: nat, base: nat)
    ensures Confined(LayoutOf(c, parent, base), base, base + Size(c))
  {
    forall g: nat | g < base || base + Size(c) <= g
      ensures Pick(LayoutOf(c, parent, base).entries, g) == []
    {
      PickOutside(c, parent, base, g);
    }
  }

  lemma {:induction false} StoredTreeParts(nodes: seq<Config>, parents: seq<nat>, c: Config, parent: nat, base: nat)
    requires Stored(nodes, parents, LayoutOf(c, parent, base), base)
    ensures Stored(nodes, parents, Layout([c.quorum], [parent], Tagged(c.signers, base)), base)
    ensures Stored(nodes, parents, LayoutOfAll(c.groups, base, base + 1), base + 1)
  {
    var own := Layout([c.quorum], [parent], Tagged(c.signers, base));
    forall g: nat | g != base
      ensures Pick(own.entries, g) == []
    {
      PickTagged(c.signers, base, g);
    }
    ForestConfined(c.groups, base, base + 1);
    LayoutLengthsAll(c.groups, base, base + 1);
    StoredSplit(nodes, parents, own, LayoutOfAll(c.groups, base, base + 1), base, base + Size(c));
  }

  lemma {:induction false} StoredTreeIsLaid(nodes: seq<Config>, parents: seq<nat>, c: Config, parent: nat, base: nat)
    requires Valid(c) && Stored(nodes, parents, LayoutOf(c, parent, base), base)
    ensures Laid(nodes, parents, c, parent, base)
    decreases c, 1
  {
    StoredTreeParts(nodes, parents, c, parent, base);
    StoredForestIsLaid(nodes, parents, c.groups, base, base + 1);
    assert StoredAt(nodes, parents, Layout([c.quorum], [parent], Tagged(c.signers, base)), base, base);
    PickTagged(c.signers, base, base);
  }

  lemma {:induction false} StoredForestIsLaid(nodes: seq<Config>, parents: seq<nat>, gs: seq<Config>, parent: nat,
        base: nat)
    requires forall i :: 0 <= i < |gs| ==> Valid(gs[i])
    requires Stored(nodes, parents, LayoutOfAll(gs, parent, base), base)
    ensures LaidAll(nodes, parents, gs, parent, base)
    decreases gs, 0
  {
    if gs != [] {
      var mid := base + Size(gs[0]);
      LayoutLengths(gs[0], parent, base);
      LayoutLengthsAll(gs[1..], parent, mid);
      TreeConfined(gs[0], parent, base);
      ForestConfined(gs[1..], parent, mid);
      StoredSplit(nodes, parents, LayoutOf(gs[0], parent, base), LayoutOfAll(gs[1..], parent, mid),
                  base, base + SizeOf(gs));
      StoredTreeIsLaid(nodes, parents, gs[0], parent, base);
      StoredForestIsLaid(nodes, parents, gs[1..], parent, mid);
    }
  }

  // ----- the round trip

  lemma {:induction false} PickOfBag(s: seq<SignerEntry>, t: seq<SignerEntry>, g: nat)
    requires multiset(s) == multiset(t)
    ensures multiset(Pick(s, g)) == multiset(Pick(t, g))
    decreases |s|
  {
    if s == [] {
      assert |multiset(t)| == 0;
    } else {
      var k := ConfigEquality.MatchHead(s, t);
      var u, v := t[..k], t[k + 1..];
      assert s == [s[0]] + s[1..] && t == u + ([t[k]] + v);
      PickConcat([s[0]], s[1..], g);
      PickConcat(u, [t[k]] + v, g);
      PickConcat([t[k]], v, g);
      PickConcat(u, v, g);
      PickOfBag(s[1..], u + v, g);
    }
  }

  /** The order signers are picked in is the order of the table. */
  lemma {:induction false} PickAscending(s: seq<SignerEntry>, g: nat)
    requires Ascending(s)
    ensures SortedAddresses(Pick(s, g))
    ensures s != [] ==> forall k :: 0 <= k < |Pick(s, g)| ==> Pick(s, g)[k] <= s[|s| - 1].addr
  {
    if s != [] {
      PickAscending(s[..|s| - 1], g);
    }
  }

  lemma {:induction false} PickEmptyBeyond(s: seq<SignerEntry>, bound: nat)
    requires forall g: nat :: bound <= g ==> Pick(s, g) == []
    ensures forall e :: e in s ==> e.group < bound
  {
    forall e | e in s
      ensures e.group < bound
    {
      PickMember(s, e);
    }
  }

  lemma {:induction false} PickMember(s: seq<SignerEntry>, e: SignerEntry)
    requires e in s
    ensures e.addr in Pick(s, e.group)
  {
    if e != s[|s| - 1] {
      PickMember(s[..|s| - 1], e);
    }
  }

  lemma {:induction false} ParentsBelow(c: Config, parent: nat, base: nat, k: nat)
    requires parent <= base && k < |LayoutOf(c, parent, base).parents|
    ensures LayoutOf(c, parent, base).parents[k] <= base + k
    decreases c, 1
  {
    if k > 0 {
      ParentsBelowAll(c.groups, base, base + 1, k - 1);
    }
  }

  lemma {:induction false} ParentsBelowAll(gs: seq<Config>, parent: nat, base: nat, k: nat)
    requires parent <= base && k < |LayoutOfAll(gs, parent, base).parents|
    ensures LayoutOfAll(gs, parent, base).parents[k] <= base + k
    decreases gs, 0
  {
    LayoutLengths(gs[0], parent, base);
    if k < Size(gs[0]) {
      ParentsBelow(gs[0], parent, base, k);
    } else {
      ParentsBelowAll(gs[1..], parent, base + Size(gs[0]), k - Size(gs[0]));
    }
  }

  /** Slots with quorum 0 are left alone. */
  lemma {:induction false} LinkEmptySlots(groups: seq<Config>, parents: seq<nat>, lo: nat, hi: nat)
    requires lo <= hi <= |groups| == |parents| && ParentsInRange(groups, parents)
    requires forall k :: lo <= k < hi ==> groups[k].quorum == 0
    ensures Link(groups, parents, lo, hi) == groups
    decreases hi - lo
  {
    if lo < hi {
      LinkEmptySlots(groups, parents, lo, hi - 1);
    }
  }

  lemma {:induction false} EncodingIsStored(c: Config, chain: ChainConfig)
    requires IsEncoding(c, chain) && Size(c) <= GROUPS
    ensures Stored(Nodes(chain), chain.parents, LayoutOf(c, 0, 0), 0)
  {
    hide LayoutOf, Ascending, SortedAddresses, Pick;
    var l, nodes := LayoutOf(c, 0, 0), Nodes(chain);
    LayoutLengths(c, 0, 0);
    forall i | 0 <= i < Size(c)
      ensures StoredAt(nodes, chain.parents, l, 0, i)
    {
      PickOfBag(chain.signers, l.entries, i);
      PickAscending(chain.signers, i);
    }
  }

  lemma {:induction false} EncodedGroupsBelowSize(c: Config, signers: seq<SignerEntry>)
    requires multiset(signers) == multiset(LayoutOf(c, 0, 0).entries)
    ensures forall e :: e in signers ==> e.group < Size(c)
  {
    var entries := LayoutOf(c, 0, 0).entries;
    TreeConfined(c, 0, 0);
    PickEmptyBeyond(entries, Size(c));
    forall e | e in signers
      ensures e in entries
    {
      assert e in multiset(signers);
    }
  }

  lemma {:induction false} EncodedParentsInBounds(c: Config, parents: seq<nat>)
    requires parents == ToArray32(LayoutOf(c, 0, 0).parents, 0)
    requires Size(c) <= GROUPS
    ensures InBounds(parents)
  {
    LayoutLengths(c, 0, 0);
    forall k | 0 <= k < Size(c)
      ensures parents[k] < |parents|
    {
      ParentsBelow(c, 0, 0, k);
    }
  }

  lemma {:induction false} SortedCopyIsValid(c: Config, r: Config)
    requires Valid(c) && SortedCopy(c, r)
    ensures Valid(r)
  {
    assert |multiset(c.signers)| == |multiset(r.signers)|;
    forall i | 0 <= i < |r.groups|
      ensures Valid(r.groups[i])
    {
      SortedCopyIsValid(c.groups[i], r.groups[i]);
    }
  }

  lemma {:induction false} SortedCopyIsReordering(c: Config, r: Config)
    requires SortedCopy(c, r)
    ensures ConfigEquality.SameUnordered(c, r)
    decreases c
  {
    forall i | 0 <= i < |c.groups|
      ensures ConfigEquality.Forget(c.groups[i]) == ConfigEquality.Forget(r.groups[i])
    {
      SortedCopyIsReordering(c.groups[i], r.groups[i]);
    }
    assert ConfigEquality.ForgetAll(c.groups) == ConfigEquality.ForgetAll(r.groups);
  }

  lemma {:induction false} PickEither(s: seq<SignerEntry>, t: seq<SignerEntry>, g: nat)
    requires Pick(s, g) != [] || Pick(t, g) != []
    ensures Pick(s + t, g) != []
  {
    PickConcat(s, t, g);
  }

  /** The last group in pre-order is a leaf, and a validated leaf has a signer. */
  lemma {:induction false} LastGroupHasSigner(c: Config, parent: nat, base: nat, last: nat)
    requires Valid(c) && last + 1 == base + Size(c)
    ensures Pick(LayoutOf(c, parent, base).entries, last) != []
    decreases c, 1
  {
    if c.groups == [] {
      PickTagged(c.signers, base, base);
    } else {
      LastGroupOfForestHasSigner(c.groups, base, base + 1, last);
    }
    PickEither(Tagged(c.signers, base), LayoutOfAll(c.groups, base, base + 1).entries, last);
  }

  lemma {:induction false} LastGroupOfForestHasSigner(gs: seq<Config>, parent: nat, base: nat, last: nat)
    requires gs != [] && last + 1 == base + SizeOf(gs) && forall i :: 0 <= i < |gs| ==> Valid(gs[i])
    ensures Pick(LayoutOfAll(gs, parent, base).entries, last) != []
    decreases gs, 0
  {
    var c, rest, mid := gs[0], gs[1..], base + Size(gs[0]);
    assert Pick(LayoutOf(c, parent, base).entries, last) != []
           || Pick(LayoutOfAll(rest, parent, mid).entries, last) != [] by {
      if rest == [] {
        assert SizeOf(rest) == 0;
        LastGroupHasSigner(c, parent, base, last);
      } else {
        LastGroupOfForestHasSigner(rest, parent, mid, last);
      }
    }
    PickEither(LayoutOf(c, parent, base).entries, LayoutOfAll(rest, parent, mid).entries, last);
  }

  lemma {:induction false} LinkWhole(nodes: seq<Config>, parents: seq<nat>, c: Config)
    requires |nodes| == |parents| && InBounds(parents) && Size(c) <= |nodes|
    requires Laid(nodes, parents, c, 0, 0)
    requires forall k :: Size(c) <= k < |nodes| ==> nodes[k].quorum == 0
    ensures SortedCopy(c, Link(nodes, parents, 0, |nodes|)[0])
  {
    var n := Size(c);
    LinkEmptySlots(nodes, parents, n, |nodes|);
    LinkSplit(nodes, parents, 0, n, |nodes|);
    LinkSplit(nodes, parents, 0, 1, n);
    LinkForest(nodes, parents, c.groups, 0, 1, n);
    var linked := Link(nodes, parents, 1, n);
    var rs :| SortedCopies(c.groups, rs) && linked[0] == Gained(nodes[0], rs);
    assert rs + nodes[0].groups == rs;
    assert Link(linked, parents, 0, 1) == LinkOne(linked, parents, 0) == linked;
  }

  /** Flattening then rebuilding a validated config gives back the same tree with each group's signers sorted,
      if and only if it has at most 32 groups; a larger one is stored but cannot be read back. */
  lemma {:induction false} RoundTrip(c: Config, chain: ChainConfig)
    requires Valid(c) && IsEncoding(c, chain)
    ensures Size(c) <= GROUPS ==> Decode(chain).Decoded? && SortedCopy(c, Decode(chain).config)
    ensures Size(c) > GROUPS ==> Decode(chain) == IndexOutOfRange
  {
    hide Valid, SortedCopy, DecodeNodes, Size;
    if Size(c) <= GROUPS {
      RoundTripSmall(c, chain, Nodes(chain));
    } else {
      RoundTripLarge(c, chain.signers);
    }
  }

  lemma {:induction false} RoundTripSmall(c: Config, chain: ChainConfig, nodes: seq<Config>)
    requires Valid(c) && IsEncoding(c, chain) && Size(c) <= |nodes| == GROUPS && nodes == Nodes(chain)
    ensures forall e :: e in chain.signers ==> e.group < GROUPS
    ensures DecodeNodes(nodes, chain.parents).Decoded?
    ensures SortedCopy(c, DecodeNodes(nodes, chain.parents).config)
  {
    EncodingIsStored(c, chain);
    EncodedGroupsBelowSize(c, chain.signers);
    EncodedParentsInBounds(c, chain.parents);
    StoredTreeIsLaid(nodes, chain.parents, c, 0, 0);
    assert forall k :: Size(c) <= k < |nodes| ==> nodes[k].quorum == 0 by {
      LayoutLengths(c, 0, 0);
    }
    LinkWhole(nodes, chain.parents, c);
    SortedCopyIsValid(c, Link(nodes, chain.parents, 0, |nodes|)[0]);
  }

  lemma {:induction false} LastEntry(c: Config) returns (e: SignerEntry)
    requires Valid(c)
    ensures e in LayoutOf(c, 0, 0).entries && e.group == Size(c) - 1
  {
    LastGroupHasSigner(c, 0, 0, Size(c) - 1);
    e := PickHasEntry(LayoutOf(c, 0, 0).entries, Size(c) - 1);
  }

  lemma {:induction false} RoundTripLarge(c: Config, signers: seq<SignerEntry>)
    requires Valid(c) && Size(c) > GROUPS
    requires multiset(signers) == multiset(LayoutOf(c, 0, 0).entries)
    ensures exists e :: e in signers && e.group >= GROUPS
  {
    var e := LastEntry(c);
    assert e in multiset(signers);
  }

  lemma {:induction false} PickHasEntry(s: seq<SignerEntry>, g: nat) returns (e: SignerEntry)
    requires Pick(s, g) != []
    ensures e in s && e.group == g
  {
    e := s[|s| - 1];
    if e.group != g {
      e := PickHasEntry(s[..|s| - 1], g);
    }
  }

  /** The rebuilt config is equal to the original and reaches quorum on the same signatures. */
  lemma {:induction false} RoundTripKeepsMeaning(c: Config, chain: ChainConfig, recovered: seq<Address>)
    requires Valid(c) && IsEncoding(c, chain) && Size(c) <= GROUPS
    ensures Decode(chain).Decoded?
    ensures ConfigEquality.EqualTo(c, Decode(chain).config) && ConfigEquality.EqualTo(Decode(chain).config, c)
    ensures AtConsensus(Decode(chain).config, recovered) == AtConsensus(c, recovered)
  {
    RoundTrip(c, chain);
    var r := Decode(chain).config;
    SortedCopyIsReordering(c, r);
    ConfigEquality.SameUnorderedIsEqual(c, r);
    ConfigEquality.SameUnorderedIsEqual(r, c);
    ConfigEquality.SameUnorderedSameQuorum(c, r, recovered);
  }

  /** Two validated configs stored alike are the same tree up to signer order. */
  lemma {:induction false} EncodingIsInjective(c: Config, d: Config, chain: ChainConfig)
    requires Valid(c) && Valid(d) && Size(c) <= GROUPS && Size(d) <= GROUPS
    requires IsEncoding(c, chain) && IsEncoding(d, chain)
    ensures exists r :: SortedCopy(c, r) && SortedCopy(d, r)
  {
    RoundTrip(c, chain);
    RoundTrip(d, chain);
  }

  // ----- configs that are stored but cannot be read back

  /** A root that needs one of `n` groups, each with one signer of its own. */
  function Wide(n: nat): Config {
    Config(1, [], seq(n, i requires 0 <= i < n => OneSigner(i)))
  }

  function OneSigner(signer: Address): Config {
    Config(1, [signer], [])
  }

  lemma {:induction false} LeavesSize(gs: seq<Config>)
    requires forall i :: 0 <= i < |gs| ==> |gs[i].signers| == 1 && gs[i].groups == []
    ensures SizeOf(gs) == |gs| == |RosterOf(gs)|
  {
    if gs != [] {
      assert SizeOf(gs[0].groups) == 0 && RosterOf(gs[0].groups) == [];
      LeavesSize(gs[1..]);
    }
  }

  /** With 32 to 255 such groups, the config is validated and within the signer limit, so it is stored without an error,
      and no stored form of it can be read back. */
  lemma {:induction false} WideIsLost(n: nat)
    requires 32 <= n <= 255
    ensures Valid(Wide(n)) && Size(Wide(n)) == n + 1 <= 256 && |Roster(Wide(n))| == n
    ensures forall chain :: IsEncoding(Wide(n), chain) ==> Decode(chain) == IndexOutOfRange
  {
    hide LayoutOf, Ascending, DecodeNodes;
    LeavesSize(Wide(n).groups);
    forall chain | IsEncoding(Wide(n), chain)
      ensures Decode(chain) == IndexOutOfRange
    {
      RoundTrip(Wide(n), chain);
    }
  }

  /** The encoder succeeds on such a config, and the decoder fails on what it returns. */
  method EncodeWide(n: nat) returns (r: Encoded, d: Decoded)
    requires 32 <= n <= 255
    ensures r.Encoded? && IsEncoding(Wide(n), r.chain) && d == IndexOutOfRange
  {
    WideIsLost(n);
    r := ToChainConfig(Wide(n));
    d := ToConfig(r.chain);
  }

  // ----- the signer table follows the roster

  ghost function Addresses(entries: seq<SignerEntry>): seq<Address> {
    seq(|entries|, i requires 0 <= i < |entries| => entries[i].addr)
  }

  /** The flattened signers are the roster in its order. */
  lemma {:induction false} EntriesAreRoster(c: Config, parent: nat, base: nat)
    ensures Addresses(LayoutOf(c, parent, base).entries) == Roster(c)
    decreases c, 1
  {
    EntriesAreRosterOf(c.groups, base, base + 1);
    assert Addresses(Tagged(c.signers, base)) == c.signers;
    AddressesConcat(Tagged(c.signers, base), LayoutOfAll(c.groups, base, base + 1).entries);
  }

  lemma {:induction false} EntriesAreRosterOf(gs: seq<Config>, parent: nat, base: nat)
    ensures Addresses(LayoutOfAll(gs, parent, base).entries) == RosterOf(gs)
    decreases gs, 0
  {
    if gs != [] {
      EntriesAreRoster(gs[0], parent, base);
      EntriesAreRosterOf(gs[1..], parent, base + Size(gs[0]));
      AddressesConcat(LayoutOf(gs[0], parent, base).entries, LayoutOfAll(gs[1..], parent, base + Size(gs[0])).entries);
    }
  }

  lemma {:induction false} AddressesConcat(s: seq<SignerEntry>, t: seq<SignerEntry>)
    ensures Addresses(s + t) == Addresses(s) + Addresses(t)
  {
  }
}
