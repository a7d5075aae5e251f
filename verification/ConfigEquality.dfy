/** `Config.Equals`, the unordered tree it is meant to compare, and `ValidateConfigs` (types/config.go, signable.go). */
module ConfigEquality {
  import opened Configs
  import opened GoTypes

  /** What `Equals` decides: signers as a bag, and every left group has some equal right group. */
  predicate EqualTo(a: Config, b: Config)
    decreases a, 0
  {
    && a.quorum == b.quorum
    && multiset(a.signers) == multiset(b.signers)
    && |a.groups| == |b.groups|
    && forall i :: 0 <= i < |a.groups| ==> HasEqual(a.groups[i], b.groups)
  }

  predicate HasEqual(g: Config, hs: seq<Config>)
    decreases g, 1
  {
    exists j :: 0 <= j < |hs| && EqualTo(g, hs[j])
  }

  method Tally(a: seq<Address>) returns (countMap: map<Address, int>)
    ensures forall x :: Lookup(countMap, x) == multiset(a)[x]
  {
    countMap := map[];
    for i := 0 to |a|
      invariant forall x :: Lookup(countMap, x) == multiset(a[..i])[x]
    {
      assert a[..i + 1] == a[..i] + [a[i]];
      countMap := countMap[a[i] := Lookup(countMap, a[i]) + 1];
    }
    assert a[..|a|] == a;
  }

  /** Counts occurrences in `a`, then uses them up with `b`. */
  method UnorderedArrayEquals(a: seq<Address>, b: seq<Address>) returns (equal: bool)
    ensures equal <==> multiset(a) == multiset(b)
  {
    if |a| != |b| {
      assert |multiset(a)| != |multiset(b)|;
      return false;
    }
    var countMap: map<Address, int> := Tally(a);
    for i := 0 to |b|
      invariant forall x :: Lookup(countMap, x) >= 0
      invariant forall x :: Lookup(countMap, x) + multiset(b[..i])[x] == multiset(a)[x]
    {
      if Lookup(countMap, b[i]) == 0 {
        UsedUp(a, b, i);
        return false;
      }
      assert b[..i + 1] == b[..i] + [b[i]];
      ghost var before := countMap;
      assert Lookup(before, b[i]) > 0;
      countMap := countMap[b[i] := Lookup(countMap, b[i]) - 1];
      assert forall x :: Lookup(countMap, x) == Lookup(before, x) - if x == b[i] then 1 else 0;
    }
    assert b[..|b|] == b;
    SubBagSameSize(multiset(b), multiset(a));
    return true;
  }

  /** The `i`-th element of `b` is one more than `a` has. */
  lemma {:induction false} UsedUp(a: seq<Address>, b: seq<Address>, i: nat)
    requires i < |b| && multiset(b[..i])[b[i]] == multiset(a)[b[i]]
    ensures multiset(a) != multiset(b)
  {
    assert b == b[..i] + [b[i]] + b[i + 1..];
  }

  lemma {:induction false} SubBagSameSize<T>(s: multiset<T>, t: multiset<T>)
    requires s <= t && |s| == |t|
    ensures s == t
  {
    assert t == s + (t - s);
    assert |t - s| == 0;
  }

  method Equals(a: Config, b: Config) returns (equal: bool)
    ensures equal == EqualTo(a, b)
    decreases a
  {
    if a.quorum != b.quorum {
      return false;
    }
    var sameSigners := UnorderedArrayEquals(a.signers, b.signers);
    if !sameSigners {
      return false;
    }
    if |a.groups| != |b.groups| {
      return false;
    }
    for i := 0 to |a.groups|
      invariant forall k :: 0 <= k < i ==> HasEqual(a.groups[k], b.groups)
    {
      var found := false;
      var j := 0;
      while j < |b.groups| && !found
        invariant 0 <= j <= |b.groups|
        invariant found <==> exists k :: 0 <= k < j && EqualTo(a.groups[i], b.groups[k])
      {
        found := Equals(a.groups[i], b.groups[j]);
        j := j + 1;
      }
      if !found {
        return false;
      }
    }
    return true;
  }

  lemma {:induction false} EqualsReflexive(a: Config)
    ensures EqualTo(a, a)
  {
    forall i | 0 <= i < |a.groups|
      ensures HasEqual(a.groups[i], a.groups)
    {
      EqualsReflexive(a.groups[i]);
    }
  }

  lemma {:induction false} EqualsTransitive(a: Config, b: Config, c: Config)
    requires EqualTo(a, b) && EqualTo(b, c)
    ensures EqualTo(a, c)
  {
    forall i | 0 <= i < |a.groups|
      ensures HasEqual(a.groups[i], c.groups)
    {
      assert HasEqual(a.groups[i], b.groups);
      var j :| 0 <= j < |b.groups| && EqualTo(a.groups[i], b.groups[j]);
      assert HasEqual(b.groups[j], c.groups);
      var k :| 0 <= k < |c.groups| && EqualTo(b.groups[j], c.groups[k]);
      EqualsTransitive(a.groups[i], b.groups[j], c.groups[k]);
    }
  }

  // ----- the intended meaning

  /** A config with the order of signers and of sibling groups forgotten. */
  datatype Unordered = Unordered(quorum: uint8, signers: multiset<Address>, groups: multiset<Unordered>)

  ghost function Forget(c: Config): Unordered
    decreases c, 1
  {
    Unordered(c.quorum, multiset(c.signers), multiset(ForgetAll(c.groups)))
  }

  ghost function ForgetAll(gs: seq<Config>): (us: seq<Unordered>)
    ensures |us| == |gs|
    ensures forall i :: 0 <= i < |gs| ==> us[i] == Forget(gs[i])
    decreases gs, 0
  {
    seq(|gs|, i requires 0 <= i < |gs| => Forget(gs[i]))
  }

  ghost predicate SameUnordered(a: Config, b: Config) {
    Forget(a) == Forget(b)
  }

  /** Nowhere in the tree are two sibling groups the same up to reordering. */
  ghost predicate NoTwinGroups(c: Config) {
    && (forall i, j :: 0 <= i < j < |c.groups| ==> !SameUnordered(c.groups[i], c.groups[j]))
    && (forall i :: 0 <= i < |c.groups| ==> NoTwinGroups(c.groups[i]))
  }

  /** `Equals` accepts every reordering. */
  lemma {:induction false} SameUnorderedIsEqual(a: Config, b: Config)
    requires SameUnordered(a, b)
    ensures EqualTo(a, b)
    decreases a
  {
    assert |multiset(ForgetAll(a.groups))| == |multiset(ForgetAll(b.groups))|;
    forall i | 0 <= i < |a.groups|
      ensures HasEqual(a.groups[i], b.groups)
    {
      assert ForgetAll(a.groups)[i] in multiset(ForgetAll(b.groups));
      var j :| 0 <= j < |b.groups| && ForgetAll(b.groups)[j] == ForgetAll(a.groups)[i];
      SameUnorderedIsEqual(a.groups[i], b.groups[j]);
    }
  }

  lemma {:induction false} DistinctMembersAreSubBag<T>(s: seq<T>, t: multiset<T>)
    requires forall i, j :: 0 <= i < j < |s| ==> s[i] != s[j]
    requires forall x :: x in s ==> x in t
    ensures multiset(s) <= t
  {
    if s != [] {
      var front := s[..|s| - 1];
      assert s == front + [s[|s| - 1]];
      DistinctMembersAreSubBag(front, t - multiset{s[|s| - 1]});
    }
  }

  /** Without twins the one-directional search finds a bijection, so `Equals` accepts nothing else. */
  lemma {:induction false} EqualIsSameUnordered(a: Config, b: Config)
    requires NoTwinGroups(a) && EqualTo(a, b)
    ensures SameUnordered(a, b)
    decreases a
  {
    var left, right := ForgetAll(a.groups), multiset(ForgetAll(b.groups));
    forall i | 0 <= i < |left|
      ensures left[i] in right
    {
      assert HasEqual(a.groups[i], b.groups);
      var j :| 0 <= j < |b.groups| && EqualTo(a.groups[i], b.groups[j]);
      EqualIsSameUnordered(a.groups[i], b.groups[j]);
      assert ForgetAll(b.groups)[j] == left[i];
    }
    forall i, j | 0 <= i < j < |left|
      ensures left[i] != left[j]
    {
      assert !SameUnordered(a.groups[i], a.groups[j]);
    }
    DistinctMembersAreSubBag(left, right);
    SubBagSameSize(multiset(left), right);
  }

  // ----- `Equals` decides equality up to reordering exactly when the left side has no twin groups

  /** `a` with its `k`-th group replaced. */
  ghost function WithGroup(a: Config, k: nat, g: Config): Config
    requires k < |a.groups|
  {
    a.(groups := a.groups[k := g])
  }

  lemma {:induction false} ReplacingChangesForget(a: Config, k: nat, g: Config)
    requires k < |a.groups| && !SameUnordered(a.groups[k], g)
    ensures !SameUnordered(a, WithGroup(a, k, g))
  {
    var before, after := ForgetAll(a.groups), ForgetAll(WithGroup(a, k, g).groups);
    assert after == before[k := Forget(g)];
    BagAfterUpdate(before, k, Forget(g));
    var x := Forget(a.groups[k]);
    assert multiset(after)[x] == multiset(before)[x] - 1;
  }

  lemma {:induction false} BagAfterUpdate<T>(s: seq<T>, k: nat, x: T)
    requires k < |s|
    ensures multiset(s[k := x]) == multiset(s) - multiset{s[k]} + multiset{x}
  {
  }

  /** The config that `Equals` wrongly accepts when `a` has twins; it can be given any further signer. */
  lemma {:induction false} TwinsAreConfused(a: Config, x: Address) returns (b: Config)
    requires !NoTwinGroups(a)
    ensures EqualTo(a, b) && !SameUnordered(a, b) && x in Roster(b)
    ensures Valid(a) ==> Valid(b)
    decreases a
  {
    if i, j :| 0 <= i < j < |a.groups| && SameUnordered(a.groups[i], a.groups[j]) {
      hide EqualTo, SameUnordered, NoTwinGroups, Roster, WithGroup;
      b := WithGroup(a, j, WithSigner(a.groups[j], x));
      TwinReplaced(a, i, j, x);
      WithSignerRoster(a.groups[j], x);
      WithGroupRoster(a, j, WithSigner(a.groups[j], x), x);
    } else {
      var k :| 0 <= k < |a.groups| && !NoTwinGroups(a.groups[k]);
      hide EqualTo, SameUnordered, NoTwinGroups, Roster, WithGroup;
      var g := TwinsAreConfused(a.groups[k], x);
      b := WithGroup(a, k, g);
      ReplacingChangesForget(a, k, g);
      ReplacedByEqual(a, k, g);
      WithGroupRoster(a, k, g, x);
    }
  }

  ghost function WithSigner(c: Config, x: Address): Config {
    c.(signers := c.signers + [x])
  }

  lemma {:induction false} WithSignerRoster(c: Config, x: Address)
    ensures x in Roster(WithSigner(c, x)) && (Valid(c) ==> Valid(WithSigner(c, x)))
  {
    assert WithSigner(c, x).signers[|c.signers|] == x;
  }

  lemma {:induction false} WithGroupRoster(a: Config, k: nat, g: Config, x: Address)
    requires k < |a.groups| && x in Roster(g)
    ensures x in Roster(WithGroup(a, k, g))
    ensures Valid(a) && (Valid(a.groups[k]) ==> Valid(g)) ==> Valid(WithGroup(a, k, g))
  {
    RosterOfMember(WithGroup(a, k, g).groups, k);
  }

  lemma {:induction false} ReplacedByEqual(a: Config, k: nat, g: Config)
    requires k < |a.groups| && EqualTo(a.groups[k], g)
    ensures EqualTo(a, WithGroup(a, k, g))
  {
    var b := WithGroup(a, k, g);
    forall l | 0 <= l < |a.groups|
      ensures HasEqual(a.groups[l], b.groups)
    {
      EqualsReflexive(a.groups[l]);
      assert EqualTo(a.groups[l], b.groups[l]);
    }
  }

  lemma {:induction false} TwinReplaced(a: Config, i: nat, j: nat, x: Address)
    requires i < j < |a.groups| && SameUnordered(a.groups[i], a.groups[j])
    ensures var b := WithGroup(a, j, WithSigner(a.groups[j], x)); EqualTo(a, b) && !SameUnordered(a, b)
  {
    var odd := WithSigner(a.groups[j], x);
    var b := WithGroup(a, j, odd);
    assert multiset(odd.signers)[x] == multiset(a.groups[j].signers)[x] + 1;
    ReplacingChangesForget(a, j, odd);
    forall k | 0 <= k < |a.groups|
      ensures HasEqual(a.groups[k], b.groups)
    {
      if k == j {
        SameUnorderedIsEqual(a.groups[j], a.groups[i]);
        assert b.groups[i] == a.groups[i];
      } else {
        EqualsReflexive(a.groups[k]);
        assert b.groups[k] == a.groups[k];
      }
    }
  }

  /** `Equals` agrees with equality up to reordering against every right side, if and only if the left has no twins. */
  lemma {:induction false} EqualsExactWhen(a: Config)
    ensures (forall b :: EqualTo(a, b) <==> SameUnordered(a, b)) <==> NoTwinGroups(a)
  {
    if NoTwinGroups(a) {
      forall b
        ensures EqualTo(a, b) <==> SameUnordered(a, b)
      {
        if EqualTo(a, b) { EqualIsSameUnordered(a, b); }
        if SameUnordered(a, b) { SameUnorderedIsEqual(a, b); }
      }
    } else {
      var b := TwinsAreConfused(a, 0);
    }
  }

  /** The search looks at every signer of the left side. */
  lemma {:induction false} EqualSubRoster(a: Config, b: Config, x: Address)
    requires EqualTo(a, b) && x in Roster(a)
    ensures x in Roster(b)
    decreases a
  {
    if x in a.signers {
      assert x in multiset(b.signers);
    } else {
      var i := GroupHolding(a.groups, x);
      assert HasEqual(a.groups[i], b.groups);
      var j :| 0 <= j < |b.groups| && EqualTo(a.groups[i], b.groups[j]);
      EqualSubRoster(a.groups[i], b.groups[j], x);
      RosterOfMember(b.groups, j);
    }
  }

  lemma {:induction false} FreshSigner(s: seq<Address>) returns (x: Address)
    ensures forall a :: a in s ==> a < x
  {
    x := 0;
    if s != [] {
      var y := FreshSigner(s[1..]);
      x := if s[0] < y then y else s[0] + 1;
      assert forall a :: a in s ==> a == s[0] || a in s[1..];
    }
  }

  lemma {:induction false} SameUnorderedSymmetric(a: Config, b: Config)
    requires SameUnordered(a, b)
    ensures SameUnordered(b, a)
  {
  }

  /** `Equals` is symmetric at `a` if and only if `a` has no twins. */
  lemma {:induction false} SymmetricExactWhen(a: Config)
    ensures (forall b :: EqualTo(a, b) ==> EqualTo(b, a)) <==> NoTwinGroups(a)
  {
    hide EqualTo, SameUnordered, NoTwinGroups, Roster;
    if NoTwinGroups(a) {
      forall b | EqualTo(a, b)
        ensures EqualTo(b, a)
      {
        EqualIsSameUnordered(a, b);
        assert SameUnordered(b, a) by { SameUnorderedSymmetric(a, b); }
        SameUnorderedIsEqual(b, a);
      }
    } else {
      var x := FreshSigner(Roster(a));
      var b := TwinsAreConfused(a, x);
      if EqualTo(b, a) {
        EqualSubRoster(b, a, x);
      }
    }
  }

  /** A validated group has a signer somewhere below it. */
  lemma {:induction false} ValidHasSigner(c: Config)
    requires Valid(c)
    ensures Roster(c) != []
  {
    if c.signers == [] {
      ValidHasSigner(c.groups[0]);
    }
  }

  lemma {:induction false} SameUnorderedSameRoster(a: Config, b: Config, x: Address)
    requires SameUnordered(a, b) && x in Roster(a)
    ensures x in Roster(b)
    decreases a
  {
    if x in a.signers {
      assert x in multiset(b.signers);
    } else {
      var i := GroupHolding(a.groups, x);
      assert ForgetAll(a.groups)[i] in multiset(ForgetAll(b.groups));
      var j :| 0 <= j < |b.groups| && ForgetAll(b.groups)[j] == ForgetAll(a.groups)[i];
      SameUnorderedSameRoster(a.groups[i], b.groups[j], x);
      RosterOfMember(b.groups, j);
    }
  }

  lemma {:induction false} GroupHolding(gs: seq<Config>, x: Address) returns (i: nat)
    requires x in RosterOf(gs)
    ensures i < |gs| && x in Roster(gs[i])
    decreases |gs|
  {
    if x in Roster(gs[0]) {
      return 0;
    }
    i := GroupHolding(gs[1..], x);
    i := i + 1;
  }

  lemma {:induction false} SiblingRostersDisjoint(gs: seq<Config>, i: nat, j: nat, x: Address)
    requires i < j < |gs| && NoRepeats(RosterOf(gs)) && x in Roster(gs[i])
    ensures x !in Roster(gs[j])
    ensures NoRepeats(Roster(gs[i])) && NoRepeats(Roster(gs[j]))
  {
    var head, tail := Roster(gs[0]), RosterOf(gs[1..]);
    assert RosterOf(gs) == head + tail;
    SplitNoRepeats(head, tail);
    RosterOfMember(gs[1..], j - 1);
    if i == 0 {
      MemberNoRepeats(gs[1..], j - 1);
    } else {
      SiblingRostersDisjoint(gs[1..], i - 1, j - 1, x);
    }
  }

  lemma {:induction false} SplitNoRepeats(s: seq<Address>, t: seq<Address>)
    requires NoRepeats(s + t)
    ensures NoRepeats(s) && NoRepeats(t)
    ensures forall x :: x in s ==> x !in t
  {
    var u := s + t;
    assert forall i :: 0 <= i < |s| ==> u[i] == s[i];
    assert forall i :: 0 <= i < |t| ==> u[|s| + i] == t[i];
  }

  lemma {:induction false} MemberNoRepeats(gs: seq<Config>, i: nat)
    requires i < |gs| && NoRepeats(RosterOf(gs))
    ensures NoRepeats(Roster(gs[i]))
  {
    SplitNoRepeats(Roster(gs[0]), RosterOf(gs[1..]));
    if i > 0 {
      MemberNoRepeats(gs[1..], i - 1);
    }
  }

  /** Validated and no signer listed twice anywhere: no twins, so `Equals` is exact. */
  lemma {:induction false} ValidDistinctHasNoTwins(c: Config)
    requires Valid(c) && NoRepeats(Roster(c))
    ensures NoTwinGroups(c)
    decreases c
  {
    SplitNoRepeats(c.signers, RosterOf(c.groups));
    forall i | 0 <= i < |c.groups|
      ensures NoTwinGroups(c.groups[i])
    {
      MemberNoRepeats(c.groups, i);
      ValidDistinctHasNoTwins(c.groups[i]);
    }
    forall i, j | 0 <= i < j < |c.groups|
      ensures !SameUnordered(c.groups[i], c.groups[j])
    {
      ValidHasSigner(c.groups[i]);
      var x := Roster(c.groups[i])[0];
      SiblingRostersDisjoint(c.groups, i, j, x);
      if SameUnordered(c.groups[i], c.groups[j]) {
        SameUnorderedSameRoster(c.groups[i], c.groups[j], x);
      }
    }
  }

  // ----- quorum is a property of the unordered tree

  /** Where the head of `s` sits in a bag-equal `t`, and what is left of both. */
  lemma {:induction false} MatchHead<T>(s: seq<T>, t: seq<T>) returns (k: nat)
    requires s != [] && multiset(s) == multiset(t)
    ensures k < |t| && t[k] == s[0]
    ensures multiset(s[1..]) == multiset(t[..k] + t[k + 1..])
  {
    assert s == [s[0]] + s[1..];
    assert s[0] in multiset(t);
    k :| 0 <= k < |t| && t[k] == s[0];
    assert t == t[..k] + [t[k]] + t[k + 1..];
    assert multiset(s) - multiset{s[0]} == multiset(s[1..]);
    assert multiset(t) - multiset{t[k]} == multiset(t[..k] + t[k + 1..]);
  }

  lemma {:induction false} CountSignedOfBag(s: seq<Address>, t: seq<Address>, recovered: seq<Address>)
    requires multiset(s) == multiset(t)
    ensures CountSigned(s, recovered) == CountSigned(t, recovered)
    decreases |s|
  {
    if s == [] {
      assert |multiset(t)| == 0;
    } else {
      var k := MatchHead(s, t);
      assert t == t[..k] + [t[k]] + t[k + 1..];
      CountSignedMove(t[..k], t[k], t[k + 1..], recovered);
      CountSignedOfBag(s[1..], t[..k] + t[k + 1..], recovered);
    }
  }

  lemma {:induction false} CountSignedMove(u: seq<Address>, x: Address, v: seq<Address>, recovered: seq<Address>)
    ensures CountSigned(u + [x] + v, recovered)
         == CountSigned(u + v, recovered) + if x in recovered then 1 else 0
  {
    if u == [] {
      assert u + [x] + v == [x] + v && u + v == v && ([x] + v)[1..] == v;
    } else {
      assert (u + [x] + v)[1..] == u[1..] + [x] + v && (u + v)[1..] == u[1..] + v;
      CountSignedMove(u[1..], x, v, recovered);
    }
  }

  lemma {:induction false} CountGroupsMove(u: seq<Config>, x: Config, v: seq<Config>, recovered: seq<Address>)
    ensures CountGroups(u + [x] + v, recovered)
         == CountGroups(u + v, recovered) + if AtConsensus(x, recovered) then 1 else 0
  {
    if u == [] {
      assert u + [x] + v == [x] + v && u + v == v && ([x] + v)[1..] == v;
    } else {
      assert (u + [x] + v)[1..] == u[1..] + [x] + v && (u + v)[1..] == u[1..] + v;
      CountGroupsMove(u[1..], x, v, recovered);
    }
  }

  /** Configs equal up to reordering reach quorum on the same recovered signers. */
  lemma {:induction false} SameUnorderedSameQuorum(a: Config, b: Config, recovered: seq<Address>)
    requires SameUnordered(a, b)
    ensures AtConsensus(a, recovered) == AtConsensus(b, recovered)
    decreases a, 1
  {
    CountSignedOfBag(a.signers, b.signers, recovered);
    CountGroupsOfBag(a.groups, b.groups, recovered);
  }

  lemma {:induction false} CountGroupsOfBag(s: seq<Config>, t: seq<Config>, recovered: seq<Address>)
    requires multiset(ForgetAll(s)) == multiset(ForgetAll(t))
    ensures CountGroups(s, recovered) == CountGroups(t, recovered)
    decreases s, 0
  {
    var us, ut := ForgetAll(s), ForgetAll(t);
    if s == [] {
      assert |multiset(ut)| == 0;
    } else {
      var k := MatchHead(us, ut);
      var rest := t[..k] + t[k + 1..];
      assert ForgetAll(s[1..]) == us[1..];
      assert ForgetAll(rest) == ut[..k] + ut[k + 1..];
      assert t == t[..k] + [t[k]] + t[k + 1..];
      CountGroupsMove(t[..k], t[k], t[k + 1..], recovered);
      SameUnorderedSameQuorum(s[0], t[k], recovered);
      CountGroupsOfBag(s[1..], rest, recovered);
    }
  }

  // ----- quorum checks over a proposal's chains

  datatype QuorumCheck = Reached | NotReached | InvalidSigner(index: nat)

  /** The first recovered signer outside the tree is reported; only then is the quorum looked at. */
  ghost predicate IsVerdict(c: Config, recovered: seq<Address>, r: QuorumCheck) {
    match r
    case InvalidSigner(i) =>
      i < |recovered| && recovered[i] !in Roster(c) && forall k :: 0 <= k < i ==> recovered[k] in Roster(c)
    case Reached => (forall a :: a in recovered ==> a in Roster(c)) && AtConsensus(c, recovered)
    case NotReached => (forall a :: a in recovered ==> a in Roster(c)) && !AtConsensus(c, recovered)
  }

  /** The address is a direct signer of some group of the tree. */
  ghost predicate Listed(c: Config, x: Address) {
    exists g :: g in Within(c) && x in g.signers
  }

  /** There is one verdict: the first stranger if there is one, and otherwise whether the members that approve, direct
      signers and groups together, are as many as the quorum. */
  lemma {:induction false} VerdictIs(c: Config, recovered: seq<Address>, r: QuorumCheck)
    ensures var approving := |set i: nat | i < |c.signers| && c.signers[i] in recovered|
                             + |set j: nat | j < |c.groups| && AtConsensus(c.groups[j], recovered)|;
      IsVerdict(c, recovered, r) <==>
        if forall k :: 0 <= k < |recovered| ==> Listed(c, recovered[k])
        then r == if approving >= c.quorum then Reached else NotReached
        else r.InvalidSigner? && r.index < |recovered| && !Listed(c, recovered[r.index])
             && forall k :: 0 <= k < r.index ==> Listed(c, recovered[k])
  {
    hide AtConsensus, Roster, Within;
    ConsensusIsThreshold(c, recovered);
    forall x: Address
      ensures Listed(c, x) <==> x in Roster(c)
    {
      RegisteredIff(c, x);
    }
  }

  method CheckQuorum(c: Config, recovered: seq<Address>) returns (r: QuorumCheck)
    ensures IsVerdict(c, recovered, r)
  {
    var allSigners := GetAllSigners(c);
    for i := 0 to |recovered|
      invariant forall k :: 0 <= k < i ==> recovered[k] in allSigners
    {
      if recovered[i] !in allSigners {
        return InvalidSigner(i);
      }
    }
    var setRoot := CanSetRoot(c, recovered);
    return if setRoot.met then Reached else NotReached;
  }

  datatype Consistency = Consistent | Inconsistent(index: nat)

  /** Compares each chain's config with the chain before it, in selector order. */
  method ValidateConfigs(configs: seq<Config>) returns (r: Consistency)
    ensures r.Consistent? <==> forall i :: 1 <= i < |configs| ==> EqualTo(configs[i], configs[i - 1])
    ensures r.Inconsistent? ==> 1 <= r.index < |configs| && !EqualTo(configs[r.index], configs[r.index - 1])
    ensures r.Inconsistent? ==> forall i :: 1 <= i < r.index ==> EqualTo(configs[i], configs[i - 1])
  {
    for i := 0 to |configs|
      invariant forall k :: 1 <= k < i ==> EqualTo(configs[k], configs[k - 1])
    {
      if i != 0 {
        var same := Equals(configs[i], configs[i - 1]);
        if !same {
          return Inconsistent(i);
        }
      }
    }
    return Consistent;
  }

  lemma {:induction false} SameUnorderedChain(configs: seq<Config>, i: nat, j: nat)
    requires i <= j < |configs|
    requires forall k :: 1 <= k < |configs| ==> SameUnordered(configs[k], configs[k - 1])
    ensures SameUnordered(configs[i], configs[j])
    decreases j - i
  {
    if i < j {
      assert SameUnordered(configs[j], configs[j - 1]);
      SameUnorderedChain(configs, i, j - 1);
    }
  }

  ghost predicate SameVerdicts(a: Config, b: Config) {
    forall recovered, r :: IsVerdict(a, recovered, r) <==> IsVerdict(b, recovered, r)
  }

  lemma {:induction false} SameUnorderedSameVerdicts(a: Config, b: Config)
    requires SameUnordered(a, b)
    ensures SameVerdicts(a, b)
  {
    forall x: Address
      ensures x in Roster(a) <==> x in Roster(b)
    {
      if x in Roster(a) { SameUnorderedSameRoster(a, b, x); }
      if x in Roster(b) { SameUnorderedSameRoster(b, a, x); }
    }
    forall recovered, r
      ensures IsVerdict(a, recovered, r) <==> IsVerdict(b, recovered, r)
    {
      SameUnorderedSameQuorum(a, b, recovered);
    }
  }

  /** A signer that only `b` knows is refused by `a`. */
  lemma {:induction false} ForeignSignerSeparates(a: Config, b: Config, x: Address)
    requires x !in Roster(a) && x in Roster(b)
    ensures !SameVerdicts(a, b)
  {
    assert IsVerdict(a, [x], InvalidSigner(0)) && !IsVerdict(b, [x], InvalidSigner(0));
  }

  /** The configs that the check accepts next to `a` all give its verdicts, if and only if `a` has no twins;
      for a validated `a` this is so even if only validated configs are considered. */
  lemma {:induction false} VerdictsAgreeExactWhen(a: Config)
    ensures (forall b :: EqualTo(a, b) ==> SameVerdicts(a, b)) <==> NoTwinGroups(a)
    ensures Valid(a) ==> ((forall b :: Valid(b) && EqualTo(a, b) ==> SameVerdicts(a, b)) <==> NoTwinGroups(a))
  {
    hide SameVerdicts, EqualTo, SameUnordered, NoTwinGroups, Roster;
    if NoTwinGroups(a) {
      forall b | EqualTo(a, b)
        ensures SameVerdicts(a, b)
      {
        EqualIsSameUnordered(a, b);
        SameUnorderedSameVerdicts(a, b);
      }
    } else {
      var x := FreshSigner(Roster(a));
      var b := TwinsAreConfused(a, x);
      ForeignSignerSeparates(a, b, x);
    }
  }

  /** Once the adjacent checks pass, a set of signatures reaches quorum on one chain iff it does on every chain. */
  lemma {:induction false} ConsistentChainsShareQuorum(configs: seq<Config>, recovered: seq<Address>, i: nat, j: nat)
    requires i < |configs| && j < |configs|
    requires forall k :: 1 <= k < |configs| ==> EqualTo(configs[k], configs[k - 1])
    requires forall k :: 1 <= k < |configs| ==> NoTwinGroups(configs[k])
    ensures SameUnordered(configs[i], configs[j])
    ensures AtConsensus(configs[i], recovered) == AtConsensus(configs[j], recovered)
    ensures SameVerdicts(configs[i], configs[j])
  {
    forall k | 1 <= k < |configs|
      ensures SameUnordered(configs[k], configs[k - 1])
    {
      EqualIsSameUnordered(configs[k], configs[k - 1]);
    }
    SameUnorderedChain(configs, if i <= j then i else j, if i <= j then j else i);
    SameUnorderedSameQuorum(configs[i], configs[j], recovered);
    SameUnorderedSameVerdicts(configs[i], configs[j]);
  }

  /** With twin groups the check passes on two validated chains that disagree on a quorum; nor is it symmetric. */
  lemma {:induction false} TwinChainsDisagree() returns (a: Config, b: Config, recovered: seq<Address>)
    ensures Valid(a) && Valid(b)
    ensures EqualTo(a, b) && !EqualTo(b, a)
    ensures AtConsensus(a, recovered) && !AtConsensus(b, recovered)
  {
    var x, y := Config(1, [1], []), Config(1, [2], []);
    a, b, recovered := Config(2, [], [x, x]), Config(2, [], [x, y]), [1];
    EqualsReflexive(x);
    assert b.groups[0] == x && b.groups[1] == y;
    assert !EqualTo(y, x) by { assert 2 in multiset(y.signers); }
    assert CountSigned([1], recovered) == 1 && CountSigned([2], recovered) == 0;
    assert AtConsensus(x, recovered) && !AtConsensus(y, recovered);
    assert a.groups[1..] == [x] && b.groups[1..] == [y] && [x][1..] == [] && [y][1..] == [];
    assert CountGroups([x], recovered) == 1 && CountGroups([y], recovered) == 0;
    assert CountGroups([x, x], recovered) == 2 && CountGroups([x, y], recovered) == 1;
  }

  // ----- the quorum alone can survive twins

  const LEAF := Config(1, [1], [])
  const PAIR := Config(2, [], [LEAF, LEAF])

  lemma {:induction false} CountGroupsPair(gs: seq<Config>, recovered: seq<Address>)
    requires |gs| == 2
    ensures CountGroups(gs, recovered)
         == (if AtConsensus(gs[0], recovered) then 1 else 0) + (if AtConsensus(gs[1], recovered) then 1 else 0)
  {
    var rest := gs[1..];
    assert rest[0] == gs[1] && rest[1..] == [];
    assert CountGroups(rest[1..], recovered) == 0;
    assert CountGroups(rest, recovered) == if AtConsensus(rest[0], recovered) then 1 else 0;
  }

  lemma {:induction false} LikeLeaf(h: Config, recovered: seq<Address>)
    requires EqualTo(LEAF, h)
    ensures h.groups == [] && (AtConsensus(h, recovered) <==> 1 in recovered)
  {
    assert |multiset(h.signers)| == |multiset(LEAF.signers)| == 1;
    assert h.signers[0] in multiset(h.signers);
    assert h.signers == [1] && [1][1..] == [];
    assert CountSigned([1], recovered) == if 1 in recovered then 1 else 0;
  }

  /** Both groups must agree, and one of them is a leaf. */
  lemma {:induction false} LikePair(h: Config, recovered: seq<Address>)
    requires EqualTo(PAIR, h)
    ensures |h.groups| == 2 && (AtConsensus(h, recovered) ==> 1 in recovered)
  {
    assert |multiset(h.signers)| == |multiset(PAIR.signers)| == 0;
    assert HasEqual(PAIR.groups[0], h.groups);
    var j :| 0 <= j < |h.groups| && EqualTo(PAIR.groups[0], h.groups[j]);
    LikeLeaf(h.groups[j], recovered);
    CountGroupsPair(h.groups, recovered);
  }

  lemma {:induction false} LikeLeafAndPair(b: Config, recovered: seq<Address>)
    requires EqualTo(Config(1, [], [LEAF, PAIR]), b)
    ensures AtConsensus(b, recovered) <==> 1 in recovered
  {
    hide EqualTo;
    var a := Config(1, [], [LEAF, PAIR]);
    assert multiset(b.signers) == multiset(a.signers) && b.quorum == 1 && |b.groups| == 2
           && HasEqual(a.groups[0], b.groups) && HasEqual(a.groups[1], b.groups) by {
      EqualParts(a, b);
    }
    assert |multiset(b.signers)| == 0;
    var j :| 0 <= j < |b.groups| && EqualTo(LEAF, b.groups[j]);
    var k :| 0 <= k < |b.groups| && EqualTo(PAIR, b.groups[k]);
    LikeLeaf(b.groups[j], recovered);
    LikePair(b.groups[k], recovered);
    CountGroupsPair(b.groups, recovered);
  }

  lemma {:induction false} EqualParts(a: Config, b: Config)
    requires EqualTo(a, b)
    ensures a.quorum == b.quorum && multiset(a.signers) == multiset(b.signers) && |a.groups| == |b.groups|
    ensures forall i :: 0 <= i < |a.groups| ==> HasEqual(a.groups[i], b.groups)
  {
  }

  /** A config with twins whose accepted neighbours all have its quorum: they need exactly signer 1. */
  lemma {:induction false} QuorumCanSurviveTwins() returns (a: Config)
    ensures Valid(a) && !NoTwinGroups(a)
    ensures forall b, recovered :: EqualTo(a, b) ==> AtConsensus(a, recovered) == AtConsensus(b, recovered)
  {
    hide EqualTo, AtConsensus, NoTwinGroups, Valid;
    a := Config(1, [], [LEAF, PAIR]);
    LeafAndPairHasTwins();
    EqualsReflexive(a);
    forall b, recovered | EqualTo(a, b)
      ensures AtConsensus(a, recovered) == AtConsensus(b, recovered)
    {
      LikeLeafAndPair(a, recovered);
      LikeLeafAndPair(b, recovered);
    }
  }

  lemma {:induction false} LeafAndPairHasTwins()
    ensures var a := Config(1, [], [LEAF, PAIR]); Valid(a) && !NoTwinGroups(a)
  {
    var a := Config(1, [], [LEAF, PAIR]);
    assert SameUnordered(PAIR.groups[0], PAIR.groups[1]);
    assert !NoTwinGroups(a.groups[1]);
  }
}
