/** The signer tree of an MCMS contract and its quorum rule (types/config.go). */
module Configs {

  import opened GoTypes

  /** A 20-byte signer address, read as the big-endian number that signers are sorted by. */
  type Address = nat

  datatype Config = Config(quorum: uint8, signers: seq<Address>, groups: seq<Config>)

  /** `Validate` succeeds. */
  predicate Valid(c: Config) {
    && c.quorum != 0
    && |c.signers| + |c.groups| != 0
    && c.quorum <= |c.signers| + |c.groups|
    && forall i :: 0 <= i < |c.groups| ==> Valid(c.groups[i])
  }

  // ----- the signer roster

  /** Every signer of the tree in tree order, repeats included. */
  function Roster(c: Config): seq<Address>
    decreases c, 1
  {
    c.signers + RosterOf(c.groups)
  }

  function RosterOf(gs: seq<Config>): seq<Address>
    decreases gs, 0
  {
    if gs == [] then [] else Roster(gs[0]) + RosterOf(gs[1..])
  }

  lemma {:induction false} RosterOfSnoc(gs: seq<Config>, g: Config)
    ensures RosterOf(gs + [g]) == RosterOf(gs) + Roster(g)
  {
    if gs == [] {
      assert RosterOf([g]) == Roster(g) + RosterOf([]);
      assert gs + [g] == [g];
    } else {
      RosterOfSnoc(gs[1..], g);
      assert (gs + [g])[1..] == gs[1..] + [g];
    }
  }

  lemma {:induction false} RosterOfTake(gs: seq<Config>, i: nat)
    requires i < |gs|
    ensures RosterOf(gs[..i + 1]) == RosterOf(gs[..i]) + Roster(gs[i])
  {
    assert gs[..i + 1] == gs[..i] + [gs[i]];
    RosterOfSnoc(gs[..i], gs[i]);
  }

  lemma {:induction false} RosterOfMember(gs: seq<Config>, i: nat)
    requires i < |gs|
    ensures forall a :: a in Roster(gs[i]) ==> a in RosterOf(gs)
  {
    if i != 0 {
      RosterOfMember(gs[1..], i - 1);
    }
  }

  method GetAllSigners(c: Config) returns (signers: seq<Address>)
    ensures signers == Roster(c)
    decreases c
  {
    signers := c.signers;
    assert c.groups[..0] == [];
    for i := 0 to |c.groups|
      invariant signers == c.signers + RosterOf(c.groups[..i])
    {
      var nested := GetAllSigners(c.groups[i]);
      RosterOfTake(c.groups, i);
      signers := signers + nested;
    }
    assert c.groups[..|c.groups|] == c.groups;
  }

  /** `acc` followed by the elements of `s` that were not seen before. */
  function DedupOnto(acc: seq<Address>, s: seq<Address>): seq<Address>
    decreases |s|
  {
    if s == [] then acc
    else DedupOnto(if s[0] in acc then acc else acc + [s[0]], s[1..])
  }

  lemma {:induction false} DedupOntoConcat(acc: seq<Address>, s: seq<Address>, t: seq<Address>)
    ensures DedupOnto(acc, s + t) == DedupOnto(DedupOnto(acc, s), t)
    decreases |s|
  {
    if s == [] {
      assert s + t == t;
    } else {
      assert (s + t)[1..] == s[1..] + t;
      DedupOntoConcat(if s[0] in acc then acc else acc + [s[0]], s[1..], t);
    }
  }

  ghost predicate NoRepeats(s: seq<Address>) {
    forall i, j :: 0 <= i < j < |s| ==> s[i] != s[j]
  }

  /** `s` with later repeats removed. */
  ghost function Firsts(s: seq<Address>): seq<Address> {
    if s == [] then []
    else
      var front, x := s[..|s| - 1], s[|s| - 1];
      Firsts(front) + if x in front then [] else [x]
  }

  /** More addresses behind add only at the end, so the first occurrences come in their order. */
  lemma {:induction false} FirstsPrefix(s: seq<Address>, t: seq<Address>)
    ensures Firsts(s) <= Firsts(s + t)
    decreases |t|
  {
    if t == [] {
      assert s + t == s;
    } else {
      FirstsPrefix(s, t[..|t| - 1]);
      assert (s + t)[..|s + t| - 1] == s + t[..|t| - 1];
    }
  }

  lemma {:induction false} FirstsDistinct(s: seq<Address>)
    ensures NoRepeats(Firsts(s))
    ensures forall a :: a in Firsts(s) <==> a in s
  {
    if s != [] {
      var front, x := s[..|s| - 1], s[|s| - 1];
      FirstsDistinct(front);
      assert s == front + [x];
    }
  }

  lemma {:induction false} DedupIsFirsts(s: seq<Address>)
    ensures DedupOnto([], s) == Firsts(s)
  {
    if s != [] {
      var front, x := s[..|s| - 1], s[|s| - 1];
      DedupIsFirsts(front);
      FirstsDistinct(front);
      DedupOntoConcat([], front, [x]);
      assert s == front + [x];
    }
  }

  lemma {:induction false} DedupNextGroup(acc: seq<Address>, c: Config, i: nat)
    requires i < |c.groups|
    ensures DedupOnto(DedupOnto(acc, c.signers + RosterOf(c.groups[..i])), Roster(c.groups[i]))
         == DedupOnto(acc, c.signers + RosterOf(c.groups[..i + 1]))
  {
    var done := c.signers + RosterOf(c.groups[..i]);
    DedupOntoConcat(acc, done, Roster(c.groups[i]));
    RosterOfTake(c.groups, i);
    assert c.signers + RosterOf(c.groups[..i + 1]) == done + Roster(c.groups[i]);
  }

  /** The state captured by the closure of `AllSigners`. */
  class Collector {
    var seen: set<Address>
    var signers: seq<Address>

    ghost predicate Consistent()
      reads this
    {
      forall a :: a in seen <==> a in signers
    }

    constructor ()
      ensures Consistent() && signers == []
    {
      seen, signers := {}, [];
    }

    method AddAll(more: seq<Address>)
      requires Consistent()
      modifies this
      ensures Consistent()
      ensures signers == DedupOnto(old(signers), more)
    {
      ghost var before := signers;
      for i := 0 to |more|
        invariant Consistent()
        invariant signers == DedupOnto(before, more[..i])
      {
        assert more[..i + 1] == more[..i] + [more[i]];
        DedupOntoConcat(before, more[..i], [more[i]]);
        if more[i] !in seen {
          seen := seen + {more[i]};
          signers := signers + [more[i]];
        }
      }
      assert more[..|more|] == more;
    }

    method Collect(c: Config)
      requires Consistent()
      modifies this
      ensures Consistent()
      ensures signers == DedupOnto(old(signers), Roster(c))
      decreases c
    {
      ghost var before := signers;
      AddAll(c.signers);
      assert c.signers + RosterOf(c.groups[..0]) == c.signers;
      for i := 0 to |c.groups|
        invariant Consistent()
        invariant signers == DedupOnto(before, c.signers + RosterOf(c.groups[..i]))
      {
        Collect(c.groups[i]);
        DedupNextGroup(before, c, i);
      }
      assert c.groups[..|c.groups|] == c.groups;
    }
  }

  /** The distinct signers: the roster with later repeats removed. */
  method AllSigners(c: Config) returns (signers: seq<Address>)
    ensures signers == Firsts(Roster(c))
  {
    var collector := new Collector();
    collector.Collect(c);
    signers := collector.signers;
    DedupIsFirsts(Roster(c));
  }

  // ----- quorum

  function CountSigned(signers: seq<Address>, recovered: seq<Address>): nat {
    if signers == [] then 0
    else CountSigned(signers[1..], recovered) + if signers[0] in recovered then 1 else 0
  }

  function AtConsensus(c: Config, recovered: seq<Address>): bool
    decreases c, 1
  {
    CountSigned(c.signers, recovered) + CountGroups(c.groups, recovered) >= c.quorum
  }

  function CountGroups(gs: seq<Config>, recovered: seq<Address>): nat
    decreases gs, 0
  {
    if gs == [] then 0
    else CountGroups(gs[1..], recovered) + if AtConsensus(gs[0], recovered) then 1 else 0
  }

  lemma {:induction false} CountSignedSnoc(signers: seq<Address>, x: Address, recovered: seq<Address>)
    ensures CountSigned(signers + [x], recovered)
         == CountSigned(signers, recovered) + if x in recovered then 1 else 0
  {
    if signers == [] {
      assert signers + [x] == [x] && [x][1..] == [];
    } else {
      assert (signers + [x])[1..] == signers[1..] + [x];
      CountSignedSnoc(signers[1..], x, recovered);
    }
  }

  lemma {:induction false} CountGroupsSnoc(gs: seq<Config>, g: Config, recovered: seq<Address>)
    ensures CountGroups(gs + [g], recovered)
         == CountGroups(gs, recovered) + if AtConsensus(g, recovered) then 1 else 0
  {
    if gs == [] {
      assert gs + [g] == [g] && [g][1..] == [];
    } else {
      assert (gs + [g])[1..] == gs[1..] + [g];
      CountGroupsSnoc(gs[1..], g, recovered);
    }
  }

  /** `QuorumMet`: two counters, one over direct signers and one over groups already at quorum. */
  method IsGroupAtConsensus(c: Config, recovered: seq<Address>) returns (met: bool)
    ensures met == AtConsensus(c, recovered)
    decreases c
  {
    var signerApprovals := 0;
    for i := 0 to |c.signers|
      invariant signerApprovals == CountSigned(c.signers[..i], recovered)
    {
      assert c.signers[..i + 1] == c.signers[..i] + [c.signers[i]];
      CountSignedSnoc(c.signers[..i], c.signers[i], recovered);
      if c.signers[i] in recovered {
        signerApprovals := signerApprovals + 1;
      }
    }
    var groupApprovals := 0;
    for i := 0 to |c.groups|
      invariant groupApprovals == CountGroups(c.groups[..i], recovered)
    {
      assert c.groups[..i + 1] == c.groups[..i] + [c.groups[i]];
      CountGroupsSnoc(c.groups[..i], c.groups[i], recovered);
      var groupMet := IsGroupAtConsensus(c.groups[i], recovered);
      if groupMet {
        groupApprovals := groupApprovals + 1;
      }
    }
    assert c.signers[..|c.signers|] == c.signers && c.groups[..|c.groups|] == c.groups;
    met := signerApprovals + groupApprovals >= c.quorum;
  }

  datatype SetRoot = Checked(met: bool) | UnknownSigner(who: Address)

  ghost predicate IsFirstUnknown(c: Config, recovered: seq<Address>, who: Address) {
    exists i :: 0 <= i < |recovered| && recovered[i] == who && who !in Roster(c)
      && forall k :: 0 <= k < i ==> recovered[k] in Roster(c)
  }

  /** The strict form: any recovered address outside the tree is an error, the first one reported. */
  method CanSetRoot(c: Config, recovered: seq<Address>) returns (r: SetRoot)
    ensures r.Checked? <==> forall a :: a in recovered ==> a in Roster(c)
    ensures r.Checked? ==> r.met == AtConsensus(c, recovered)
    ensures r.UnknownSigner? ==> IsFirstUnknown(c, recovered, r.who)
  {
    var allSigners := GetAllSigners(c);
    for i := 0 to |recovered|
      invariant forall k :: 0 <= k < i ==> recovered[k] in allSigners
    {
      if recovered[i] !in allSigners {
        return UnknownSigner(recovered[i]);
      }
    }
    var met := IsGroupAtConsensus(c, recovered);
    return Checked(met);
  }

  // ----- what quorum depends on

  lemma {:induction false} CountSignedMonotone(signers: seq<Address>, r1: seq<Address>, r2: seq<Address>)
    requires forall a :: a in signers && a in r1 ==> a in r2
    ensures CountSigned(signers, r1) <= CountSigned(signers, r2)
  {
    if signers != [] {
      CountSignedMonotone(signers[1..], r1, r2);
    }
  }

  /** More signatures from registered signers never lose a quorum. */
  lemma {:induction false} QuorumMonotone(c: Config, r1: seq<Address>, r2: seq<Address>)
    requires forall a :: a in Roster(c) && a in r1 ==> a in r2
    ensures AtConsensus(c, r1) ==> AtConsensus(c, r2)
    decreases c, 1
  {
    CountSignedMonotone(c.signers, r1, r2);
    CountGroupsMonotone(c.groups, r1, r2);
  }

  lemma {:induction false} CountGroupsMonotone(gs: seq<Config>, r1: seq<Address>, r2: seq<Address>)
    requires forall a :: a in RosterOf(gs) && a in r1 ==> a in r2
    ensures CountGroups(gs, r1) <= CountGroups(gs, r2)
    decreases gs, 0
  {
    if gs != [] {
      QuorumMonotone(gs[0], r1, r2);
      CountGroupsMonotone(gs[1..], r1, r2);
    }
  }

  /** Order, repeats and unregistered addresses are ignored: only which registered signers signed counts. */
  lemma {:induction false} QuorumDependsOnRegistered(c: Config, r1: seq<Address>, r2: seq<Address>)
    requires forall a :: a in Roster(c) ==> (a in r1 <==> a in r2)
    ensures AtConsensus(c, r1) == AtConsensus(c, r2)
  {
    QuorumMonotone(c, r1, r2);
    QuorumMonotone(c, r2, r1);
  }

  lemma {:induction false} CountSignedAll(signers: seq<Address>, recovered: seq<Address>)
    requires forall a :: a in signers ==> a in recovered
    ensures CountSigned(signers, recovered) == |signers|
  {
    if signers != [] {
      CountSignedAll(signers[1..], recovered);
    }
  }

  /** A validated config is satisfiable: its own signers reach quorum. */
  lemma {:induction false} ValidReachesQuorum(c: Config, recovered: seq<Address>)
    requires Valid(c)
    requires forall a :: a in Roster(c) ==> a in recovered
    ensures AtConsensus(c, recovered)
    decreases c, 1
  {
    CountSignedAll(c.signers, recovered);
    CountGroupsAll(c.groups, recovered);
  }

  lemma {:induction false} CountGroupsAll(gs: seq<Config>, recovered: seq<Address>)
    requires forall i :: 0 <= i < |gs| ==> Valid(gs[i])
    requires forall a :: a in RosterOf(gs) ==> a in recovered
    ensures CountGroups(gs, recovered) == |gs|
    decreases gs, 0
  {
    if gs != [] {
      ValidReachesQuorum(gs[0], recovered);
      CountGroupsAll(gs[1..], recovered);
    }
  }

  // ----- the rule, by cardinalities

  /** The places of direct signers that signed. */
  ghost function SignedAt(signers: seq<Address>, recovered: seq<Address>): set<nat> {
    set i: nat | i < |signers| && signers[i] in recovered
  }

  /** The places of groups at consensus. */
  ghost function MetAt(gs: seq<Config>, recovered: seq<Address>): set<nat> {
    set j: nat | j < |gs| && AtConsensus(gs[j], recovered)
  }

  lemma {:induction false} SignedAtLast(signers: seq<Address>, recovered: seq<Address>)
    requires signers != []
    ensures var n := |signers| - 1;
      |SignedAt(signers, recovered)|
      == |SignedAt(signers[..n], recovered)| + if signers[n] in recovered then 1 else 0
  {
    var n: nat := |signers| - 1;
    var front := SignedAt(signers[..n], recovered);
    assert n !in front;
    assert SignedAt(signers, recovered) == if signers[n] in recovered then front + {n} else front;
  }

  lemma {:induction false} MetAtLast(gs: seq<Config>, recovered: seq<Address>)
    requires gs != []
    ensures var n := |gs| - 1;
      |MetAt(gs, recovered)| == |MetAt(gs[..n], recovered)| + if AtConsensus(gs[n], recovered) then 1 else 0
  {
    hide AtConsensus;
    var n: nat := |gs| - 1;
    var front := MetAt(gs[..n], recovered);
    assert n !in front;
    assert MetAt(gs, recovered) == if AtConsensus(gs[n], recovered) then front + {n} else front;
  }

  lemma {:induction false} CountSignedIsCardinality(signers: seq<Address>, recovered: seq<Address>)
    ensures CountSigned(signers, recovered) == |SignedAt(signers, recovered)|
    decreases |signers|
  {
    if signers != [] {
      hide SignedAt;
      var n := |signers| - 1;
      CountSignedIsCardinality(signers[..n], recovered);
      CountSignedSnoc(signers[..n], signers[n], recovered);
      SignedAtLast(signers, recovered);
      assert signers == signers[..n] + [signers[n]];
    }
  }

  lemma {:induction false} CountGroupsIsCardinality(gs: seq<Config>, recovered: seq<Address>)
    ensures CountGroups(gs, recovered) == |MetAt(gs, recovered)|
    decreases |gs|
  {
    if gs != [] {
      hide MetAt, AtConsensus;
      var n := |gs| - 1;
      CountGroupsIsCardinality(gs[..n], recovered);
      CountGroupsSnoc(gs[..n], gs[n], recovered);
      MetAtLast(gs, recovered);
      assert gs == gs[..n] + [gs[n]];
    }
  }

  /** A group is at consensus if and only if the direct signers that signed, counted once for each place in the list,
      and the groups at consensus are together at least its quorum. */
  lemma {:induction false} ConsensusIsThreshold(c: Config, recovered: seq<Address>)
    ensures AtConsensus(c, recovered) <==>
      |set i: nat | i < |c.signers| && c.signers[i] in recovered|
      + |set j: nat | j < |c.groups| && AtConsensus(c.groups[j], recovered)| >= c.quorum
  {
    CountSignedIsCardinality(c.signers, recovered);
    CountGroupsIsCardinality(c.groups, recovered);
    assert (set i: nat | i < |c.signers| && c.signers[i] in recovered) == SignedAt(c.signers, recovered);
    assert (set j: nat | j < |c.groups| && AtConsensus(c.groups[j], recovered)) == MetAt(c.groups, recovered);
  }

  // ----- what validation accepts

  /** The group and all groups below it. */
  ghost function Within(c: Config): seq<Config>
    decreases c, 1
  {
    [c] + WithinAll(c.groups)
  }

  ghost function WithinAll(gs: seq<Config>): seq<Config>
    decreases gs, 0
  {
    if gs == [] then [] else Within(gs[0]) + WithinAll(gs[1..])
  }

  lemma {:induction false} WithinMember(gs: seq<Config>, g: Config)
    ensures g in WithinAll(gs) <==> exists i :: 0 <= i < |gs| && g in Within(gs[i])
  {
    if gs != [] {
      WithinMember(gs[1..], g);
      if i :| 0 <= i < |gs| && g in Within(gs[i]) {
        assert i > 0 ==> gs[i] == gs[1..][i - 1];
      }
      if i :| 0 <= i < |gs[1..]| && g in Within(gs[1..][i]) {
        assert g in Within(gs[i + 1]);
      }
    }
  }

  /** A group is within a config if it is the config or within one of its groups. */
  lemma {:induction false} WithinIs(c: Config, g: Config)
    ensures g in Within(c) <==> g == c || exists i :: 0 <= i < |c.groups| && g in Within(c.groups[i])
  {
    WithinMember(c.groups, g);
  }

  /** Validation accepts exactly the configs none of whose groups, at any depth, has a quorum of 0 or one above its
      number of signers and groups. */
  lemma {:induction false} ValidIff(c: Config)
    ensures Valid(c) <==> forall g :: g in Within(c) ==> 0 < g.quorum <= |g.signers| + |g.groups|
    decreases c
  {
    forall g
      ensures g in Within(c) <==> g == c || exists i :: 0 <= i < |c.groups| && g in Within(c.groups[i])
    {
      WithinIs(c, g);
    }
    forall i | 0 <= i < |c.groups|
      ensures Valid(c.groups[i]) <==> forall g :: g in Within(c.groups[i]) ==> 0 < g.quorum <= |g.signers| + |g.groups|
    {
      ValidIff(c.groups[i]);
    }
  }

  lemma {:induction false} CountBounds(c: Config, recovered: seq<Address>)
    ensures CountSigned(c.signers, recovered) <= |c.signers| && CountGroups(c.groups, recovered) <= |c.groups|
  {
    CountSignedIsCardinality(c.signers, recovered);
    CountGroupsIsCardinality(c.groups, recovered);
    IndicesAtMost(SignedAt(c.signers, recovered), |c.signers|);
    IndicesAtMost(MetAt(c.groups, recovered), |c.groups|);
  }

  lemma {:induction false} IndicesAtMost(s: set<nat>, n: nat)
    requires forall i :: i in s ==> i < n
    ensures |s| <= n
    decreases n
  {
    if n > 0 {
      IndicesAtMost(s - {n - 1}, n - 1);
      assert s <= (s - {n - 1}) + {n - 1};
      assert |s| <= |s - {n - 1}| + 1;
    } else {
      assert s == {};
    }
  }

  lemma {:induction false} WithinRoster(c: Config, g: Config, x: Address)
    requires g in Within(c) && x in Roster(g)
    ensures x in Roster(c)
    decreases c
  {
    WithinIs(c, g);
    if g != c {
      var i :| 0 <= i < |c.groups| && g in Within(c.groups[i]);
      WithinRoster(c.groups[i], g, x);
      RosterOfMember(c.groups, i);
    }
  }

  lemma {:induction false} WithinIsValid(c: Config, g: Config)
    requires Valid(c) && g in Within(c)
    ensures Valid(g)
    decreases c
  {
    WithinIs(c, g);
    if g != c {
      var i :| 0 <= i < |c.groups| && g in Within(c.groups[i]);
      WithinIsValid(c.groups[i], g);
    }
  }

  /** Validation accepts exactly the configs that can be satisfied everywhere: every group has a quorum other than 0 and
      reaches it when the whole roster signs. */
  lemma {:induction false} ValidIffSatisfiable(c: Config)
    ensures Valid(c) <==> forall g :: g in Within(c) ==> g.quorum != 0 && AtConsensus(g, Roster(c))
  {
    hide AtConsensus, Within, Valid, Roster;
    if Valid(c) {
      forall g | g in Within(c)
        ensures g.quorum != 0 && AtConsensus(g, Roster(c))
      {
        ValidIff(c);
        WithinIsValid(c, g);
        forall x | x in Roster(g)
          ensures x in Roster(c)
        {
          WithinRoster(c, g, x);
        }
        ValidReachesQuorum(g, Roster(c));
      }
    }
    if forall g :: g in Within(c) ==> g.quorum != 0 && AtConsensus(g, Roster(c)) {
      forall g | g in Within(c)
        ensures 0 < g.quorum <= |g.signers| + |g.groups|
      {
        ConsensusWithinCount(g, Roster(c));
      }
      ValidIff(c);
    }
  }

  lemma {:induction false} ConsensusWithinCount(c: Config, recovered: seq<Address>)
    requires AtConsensus(c, recovered)
    ensures c.quorum <= |c.signers| + |c.groups|
  {
    CountBounds(c, recovered);
  }

  // ----- the roster, group by group

  ghost function SignersOf(gs: seq<Config>): seq<Address> {
    if gs == [] then [] else gs[0].signers + SignersOf(gs[1..])
  }

  lemma {:induction false} SignersOfConcat(s: seq<Config>, t: seq<Config>)
    ensures SignersOf(s + t) == SignersOf(s) + SignersOf(t)
    decreases |s|
  {
    if s == [] {
      assert s + t == t;
    } else {
      SignersOfConcat(s[1..], t);
      assert (s + t)[1..] == s[1..] + t;
      assert s[0].signers + (SignersOf(s[1..]) + SignersOf(t)) == s[0].signers + SignersOf(s[1..]) + SignersOf(t);
    }
  }

  /** The roster is the direct signers of every group, each group in front of the groups below it. */
  lemma {:induction false} RosterIs(c: Config)
    ensures Roster(c) == SignersOf(Within(c))
    decreases c, 1
  {
    RosterOfIs(c.groups);
    assert ([c] + WithinAll(c.groups))[1..] == WithinAll(c.groups);
  }

  lemma {:induction false} RosterOfIs(gs: seq<Config>)
    ensures RosterOf(gs) == SignersOf(WithinAll(gs))
    decreases gs, 0
  {
    if gs != [] {
      RosterIs(gs[0]);
      RosterOfIs(gs[1..]);
      SignersOfConcat(Within(gs[0]), WithinAll(gs[1..]));
    }
  }

  lemma {:induction false} InSignersOf(gs: seq<Config>, x: Address)
    ensures x in SignersOf(gs) <==> exists g :: g in gs && x in g.signers
  {
    if gs != [] {
      InSignersOf(gs[1..], x);
      assert forall g :: g in gs <==> g == gs[0] || g in gs[1..];
    }
  }

  /** An address is registered if and only if some group of the tree lists it. */
  lemma {:induction false} RegisteredIff(c: Config, x: Address)
    ensures x in Roster(c) <==> exists g :: g in Within(c) && x in g.signers
  {
    hide Roster, Within, SignersOf;
    RosterIs(c);
    InSignersOf(Within(c), x);
  }
}
