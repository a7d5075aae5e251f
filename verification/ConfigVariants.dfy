/** The TON and Canton forms of the on-chain config (sdk/ton/config_transformer.go, sdk/canton/inspector.go). */
module ConfigVariants {
  import opened Configs
  import opened GoTypes
  import opened ConfigCodec

  // ----- TON: dictionaries cut off after the highest group with a direct signer

  /** Dictionaries keyed by index, listed in key order. */
  datatype TonConfig = TonConfig(
    signers: seq<(nat, SignerEntry)>, quorums: seq<(nat, uint8)>, parents: seq<(nat, nat)>)

  datatype TonEncoded = TonEncoded(config: TonConfig) | TonError(error: Encoded)

  function GroupMax(signers: seq<SignerEntry>): nat {
    if signers == [] then 0
    else
      var m, g := GroupMax(signers[..|signers| - 1]), signers[|signers| - 1].group;
      if g > m then g else m
  }

  lemma {:induction false} GroupMaxIsMax(signers: seq<SignerEntry>)
    ensures forall s :: s in signers ==> s.group <= GroupMax(signers)
    ensures GroupMax(signers) == 0 || exists s :: s in signers && s.group == GroupMax(signers)
  {
    if signers != [] {
      var front, last := signers[..|signers| - 1], signers[|signers| - 1];
      GroupMaxIsMax(front);
      assert signers == front + [last];
      assert last in signers;
    }
  }

  ghost predicate Keyed<T>(dict: seq<(nat, T)>, values: seq<T>) {
    |dict| == |values| && forall i :: 0 <= i < |dict| ==> dict[i] == (i, values[i])
  }

  /** The loops over an encoded config. */
  method Truncate(chain: ChainConfig) returns (t: TonConfig)
    requires |chain.quorums| == |chain.parents| == GROUPS
    ensures IsTruncation(chain, t)
  {
    var groupMax := 0;
    for i := 0 to |chain.signers|
      invariant groupMax == GroupMax(chain.signers[..i])
    {
      assert chain.signers[..i + 1][..i] == chain.signers[..i];
      if chain.signers[i].group > groupMax {
        groupMax := chain.signers[i].group;
      }
    }
    assert chain.signers[..|chain.signers|] == chain.signers;
    var signersDict: seq<(nat, SignerEntry)> := [];
    for i := 0 to |chain.signers|
      invariant Keyed(signersDict, chain.signers[..i])
    {
      signersDict := signersDict + [(i, chain.signers[i])];
    }
    var gqDict: seq<(nat, uint8)>, gpDict: seq<(nat, nat)> := [], [];
    for i := 0 to GROUPS
      invariant Keyed(gqDict, chain.quorums[..if i <= groupMax + 1 then i else groupMax + 1])
      invariant Keyed(gpDict, chain.parents[..if i <= groupMax + 1 then i else groupMax + 1])
    {
      if i <= groupMax {
        gqDict := gqDict + [(i, chain.quorums[i])];
        gpDict := gpDict + [(i, chain.parents[i])];
      }
    }
    t := TonConfig(signersDict, gqDict, gpDict);
  }

  method TonToChainConfig(c: Config) returns (r: TonEncoded)
    ensures r.TonEncoded? <==> Size(c) <= 256 && |Roster(c)| <= 255
    ensures r.TonEncoded? ==> exists chain: ChainConfig :: IsEncoding(c, chain) && IsTruncation(chain, r.config)
  {
    hide LayoutOf, Ascending, Size, Roster;
    var e := ToChainConfig(c);
    if !e.Encoded? {
      return TonError(e);
    }
    var t := Truncate(e.chain);
    return TonEncoded(t);
  }

  ghost predicate IsTruncation(chain: ChainConfig, t: TonConfig) {
    && |chain.quorums| == |chain.parents| == GROUPS
    && var kept := if GroupMax(chain.signers) + 1 <= GROUPS then GroupMax(chain.signers) + 1 else GROUPS;
    && Keyed(t.signers, chain.signers)
    && Keyed(t.quorums, chain.quorums[..kept]) && Keyed(t.parents, chain.parents[..kept])
  }

  /** Reads entries by position into zeroed arrays; more than 32 is a Go panic. */
  method TonToConfig(t: TonConfig) returns (r: Decoded)
    ensures |t.quorums| <= GROUPS && |t.parents| <= GROUPS ==> r == Decode(TonRead(t))
    ensures |t.quorums| > GROUPS || |t.parents| > GROUPS ==> r == IndexOutOfRange
    ensures r.Decoded? ==> forall g :: g in Within(r.config) ==> 0 < g.quorum <= |g.signers| + |g.groups|
  {
    if |t.quorums| > GROUPS || |t.parents| > GROUPS {
      return IndexOutOfRange;
    }
    r := ToConfig(TonRead(t));
  }

  function TonRead(t: TonConfig): (chain: ChainConfig)
    ensures |chain.quorums| == |chain.parents| == GROUPS
  {
    ChainConfig(
      seq(GROUPS, i requires 0 <= i < GROUPS => if i < |t.quorums| then t.quorums[i].1 else 0),
      seq(GROUPS, i requires 0 <= i < GROUPS => if i < |t.parents| then t.parents[i].1 else 0),
      seq(|t.signers|, i requires 0 <= i < |t.signers| => t.signers[i].1))
  }

  lemma {:induction false} LastGroupIsMax(c: Config, signers: seq<SignerEntry>)
    requires Valid(c) && multiset(signers) == multiset(LayoutOf(c, 0, 0).entries)
    ensures GroupMax(signers) == Size(c) - 1
  {
    GroupMaxIsMax(signers);
    EncodedGroupsBelowSize(c, signers);
    var e := LastEntry(c);
    assert e in multiset(signers);
  }

  lemma {:induction false} GroupMaxOfBag(s: seq<SignerEntry>, t: seq<SignerEntry>)
    requires multiset(s) == multiset(t)
    ensures GroupMax(s) == GroupMax(t)
  {
    hide GroupMax;
    GroupMaxIsMax(s);
    GroupMaxIsMax(t);
    forall e: SignerEntry
      ensures e in s <==> e in t
    {
      assert e in multiset(s) <==> e in multiset(t);
    }
  }

  /** Reading back restores the arrays exactly when all that was cut off were zeros. */
  lemma {:induction false} TruncationLosslessIff(chain: ChainConfig, t: TonConfig)
    requires IsTruncation(chain, t)
    ensures TonRead(t) == chain <==>
      forall i :: GroupMax(chain.signers) < i < GROUPS ==> chain.quorums[i] == 0 && chain.parents[i] == 0
  {
    hide GroupMax;
    var read, max := TonRead(t), GroupMax(chain.signers);
    assert read.signers == chain.signers;
    assert forall i :: 0 <= i < GROUPS ==>
      (read.quorums[i] == if i <= max then chain.quorums[i] else 0)
      && (read.parents[i] == if i <= max then chain.parents[i] else 0);
    if forall i :: max < i < GROUPS ==> chain.quorums[i] == 0 && chain.parents[i] == 0 {
      assert read.quorums == chain.quorums && read.parents == chain.parents;
    } else {
      var i :| max < i < GROUPS && !(chain.quorums[i] == 0 && chain.parents[i] == 0);
      assert read.quorums[i] != chain.quorums[i] || read.parents[i] != chain.parents[i];
    }
  }

  /** Behind the last group with a direct signer, every stored group has quorum 0 and hangs from the root. */
  ghost predicate TailIsEmpty(c: Config) {
    var l := LayoutOf(c, 0, 0);
    LayoutLengths(c, 0, 0);
    forall i :: GroupMax(l.entries) < i < Size(c) && i < GROUPS ==> l.quorums[i] == 0 && l.parents[i] == 0
  }

  /** Truncating the encoding of any config, validated or not, and reading it back restores the EVM arrays
      if and only if the config has such a tail. */
  lemma {:induction false} TruncationIsLosslessIff(c: Config, chain: ChainConfig, t: TonConfig)
    requires IsEncoding(c, chain) && IsTruncation(chain, t)
    ensures TonRead(t) == chain <==> TailIsEmpty(c)
  {
    hide GroupMax, LayoutOf, TonRead, Ascending, Size;
    var l := LayoutOf(c, 0, 0);
    LayoutLengths(c, 0, 0);
    GroupMaxOfBag(chain.signers, l.entries);
    TruncationLosslessIff(chain, t);
    assert forall i :: 0 <= i < GROUPS && i < Size(c) ==>
      chain.quorums[i] == l.quorums[i] && chain.parents[i] == l.parents[i];
    assert forall i :: Size(c) <= i < GROUPS ==> chain.quorums[i] == 0 && chain.parents[i] == 0;
    if TonRead(t) == chain {
      forall i | GroupMax(l.entries) < i < Size(c) && i < GROUPS
        ensures l.quorums[i] == 0 && l.parents[i] == 0
      {
        assert chain.quorums[i] == 0 && chain.parents[i] == 0;
      }
    }
  }

  /** A validated config always has one: its last group has a direct signer. */
  lemma {:induction false} TruncationIsLossless(c: Config, chain: ChainConfig, t: TonConfig)
    requires Valid(c) && IsEncoding(c, chain) && IsTruncation(chain, t)
    ensures TailIsEmpty(c) && TonRead(t) == chain
  {
    hide LayoutOf, GroupMax, IsTruncation, TonRead;
    LastGroupIsMax(c, LayoutOf(c, 0, 0).entries);
    TruncationIsLosslessIff(c, chain, t);
  }

  /** Without validation it does lose groups: a last group with a quorum but no direct signer is dropped. */
  lemma {:induction false} TruncationNeedsSigners() returns (c: Config)
    ensures !Valid(c) && !TailIsEmpty(c)
    ensures forall chain, t :: IsEncoding(c, chain) && IsTruncation(chain, t) ==> TonRead(t) != chain
  {
    c := Config(1, [7], [Config(1, [], [])]);
    assert LayoutOf(c, 0, 0).entries == [SignerEntry(7, 0)] && LayoutOf(c, 0, 0).quorums == [1, 1] by {
      var g := c.groups[0];
      assert LayoutOf(g, 0, 1) == Layout([1], [0], []);
      assert c.groups[1..] == [];
      assert LayoutOfAll(c.groups, 0, 1) == Join(LayoutOf(g, 0, 1), LayoutOfAll([], 0, 2));
      assert Tagged([7], 0) == [SignerEntry(7, 0)];
    }
    LayoutLengths(c, 0, 0);
    assert [SignerEntry(7, 0)][..0] == [];
    assert GroupMax([SignerEntry(7, 0)]) == 0;
    assert LayoutOf(c, 0, 0).quorums[1] != 0;
    forall chain, t | IsEncoding(c, chain) && IsTruncation(chain, t)
      ensures TonRead(t) != chain
    {
      TruncationIsLosslessIff(c, chain, t);
    }
  }

  // ----- Canton: 64-bit fields, range-checked

  datatype CantonConfig = CantonConfig(quorums: seq<int>, parents: seq<int>, signers: seq<(Address, int)>)

  datatype CantonDecoded =
    | CantonOk(config: Config)
    | SignerGroupOutOfRange(group: int)
    | TooManyQuorums
    | TooManyParents
    | BadQuorum(index: nat)
    | BadParent(index: nat)
    | ParentOutOfRange(parent: nat)
    | CantonInvalid

  predicate IsByte(x: int) {
    0 <= x <= 255
  }

  function ByteOr0(x: int): uint8 {
    if IsByte(x) then x else 0
  }

  function Padded(s: seq<int>): (r: seq<int>)
    ensures |r| == GROUPS
  {
    seq(GROUPS, i requires 0 <= i < GROUPS => if i < |s| then s[i] else 0)
  }

  /** Every field is in range, so the config has an EVM form. */
  ghost predicate Readable(b: CantonConfig) {
    && |b.quorums| <= GROUPS && |b.parents| <= GROUPS
    && (forall s :: s in b.signers ==> 0 <= s.1 < GROUPS)
    && (forall i :: 0 <= i < GROUPS ==> IsByte(Padded(b.quorums)[i]) && IsByte(Padded(b.parents)[i]))
  }

  function EvmQuorums(b: CantonConfig): (q: seq<uint8>)
    ensures |q| == GROUPS
  {
    seq(GROUPS, i requires 0 <= i < GROUPS => ByteOr0(Padded(b.quorums)[i]))
  }

  function Bytes(s: seq<int>): (r: seq<nat>)
    ensures |r| == |s|
    ensures forall i :: 0 <= i < |s| ==> r[i] == ByteOr0(s[i])
  {
    seq(|s|, i requires 0 <= i < |s| => ByteOr0(s[i]))
  }

  function EvmSigners(b: CantonConfig): seq<SignerEntry>
    requires forall s :: s in b.signers ==> 0 <= s.1 < GROUPS
  {
    seq(|b.signers|, i requires 0 <= i < |b.signers| => SignerEntry(b.signers[i].0, b.signers[i].1))
  }

  /** What the EVM reader makes of a readable Canton config. */
  ghost function EvmView(b: CantonConfig): Decoded
    requires Readable(b)
  {
    Decode(ChainConfig(EvmQuorums(b), Bytes(Padded(b.parents)), EvmSigners(b)))
  }

  method CheckSigners(signers: seq<(Address, int)>) returns (bad: seq<int>)
    ensures bad == [] <==> forall s :: s in signers ==> 0 <= s.1 < GROUPS
    ensures bad != [] ==> exists s :: s in signers && s.1 == bad[0] && !(0 <= s.1 < GROUPS)
  {
    for i := 0 to |signers|
      invariant forall k :: 0 <= k < i ==> 0 <= signers[k].1 < GROUPS
    {
      if !(0 <= signers[i].1 < GROUPS) {
        return [signers[i].1];
      }
    }
    return [];
  }

  /** The linking loop with each parent's width checked as it is met. */
  method CantonLink(groups: array<Config>, parents: seq<int>) returns (failure: seq<CantonDecoded>)
    requires groups.Length == |parents|
    modifies groups
    ensures (forall i :: 0 <= i < |parents| ==> IsByte(parents[i])) ==>
      && (failure == [] <==> ParentsInRange(old(groups[..]), Bytes(parents)))
      && (failure == [] ==> groups[..] == Link(old(groups[..]), Bytes(parents), 0, |parents|))
      && (failure != [] ==> failure[0].ParentOutOfRange?)
    ensures failure == [] ==> forall i :: 0 <= i < |parents| ==> IsByte(parents[i])
    ensures failure != [] ==> failure[0].BadParent? || failure[0].ParentOutOfRange?
    ensures failure != [] && failure[0].BadParent? ==>
      failure[0].index < |parents| && !IsByte(parents[failure[0].index])
  {
    ghost var nodes := groups[..];
    ghost var p := Bytes(parents);
    var i := groups.Length;
    while i > 0
      invariant 0 <= i <= groups.Length
      invariant forall k :: i <= k < |parents| ==> IsByte(parents[k])
      invariant LinkedDownTo(nodes, groups[..], p, i)
    {
      i := i - 1;
      if !IsByte(parents[i]) {
        return [BadParent(i)];
      }
      ghost var before := groups[..];
      if i > 0 && groups[i].quorum > 0 {
        if parents[i] >= groups.Length {
          return [ParentOutOfRange(parents[i])];
        }
        groups[parents[i]] := groups[parents[i]].(groups := [groups[i]] + groups[parents[i]].groups);
      }
      assert groups[..] == LinkOne(before, p, i);
      LinkedDownOne(nodes, before, p, i);
    }
    return [];
  }

  /** `r` is what Canton reports where the EVM reader gives `d`. */
  ghost predicate Agrees(d: Decoded, r: CantonDecoded) {
    match d
    case Decoded(c) => r == CantonOk(c)
    case IndexOutOfRange => r.ParentOutOfRange?
    case InvalidConfig => r.CantonInvalid?
  }

  method CantonLinkAndValidate(groups: array<Config>, parents: seq<int>) returns (r: CantonDecoded)
    requires groups.Length == |parents| > 0
    modifies groups
    ensures (forall i :: 0 <= i < |parents| ==> IsByte(parents[i])) ==>
      Agrees(DecodeNodes(old(groups[..]), Bytes(parents)), r)
    ensures r.CantonOk? ==> forall i :: 0 <= i < |parents| ==> IsByte(parents[i])
    ensures r.CantonOk? ==> Valid(r.config)
    ensures r.CantonOk? || r.BadParent? || r.ParentOutOfRange? || r.CantonInvalid?
    ensures r.BadParent? ==> r.index < |parents| && !IsByte(parents[r.index])
  {
    var failure := CantonLink(groups, parents);
    if failure != [] {
      return failure[0];
    }
    var root := groups[0];
    return if Valid(root) then CantonOk(root) else CantonInvalid;
  }

  /** The first padded quorum that does not fit a byte. */
  method CheckQuorums(quorums: seq<int>) returns (bad: Option<nat>)
    requires |quorums| <= GROUPS
    ensures bad == None <==> forall i :: 0 <= i < GROUPS ==> IsByte(Padded(quorums)[i])
    ensures bad.Some? ==> bad.value < |quorums| && !(0 <= quorums[bad.value] <= 255)
    ensures bad.Some? ==> forall k :: 0 <= k < bad.value ==> 0 <= quorums[k] <= 255
  {
    var padded := Padded(quorums);
    for i := 0 to |padded|
      invariant forall k :: 0 <= k < i ==> IsByte(padded[k])
    {
      if !IsByte(padded[i]) {
        assert forall k :: 0 <= k < i ==> padded[k] == quorums[k];
        return Some(i);
      }
    }
    return None;
  }

  /** Canton's reader accepts exactly the readable configs that the EVM reader accepts, gives the same tree,
      and turns an out-of-range parent into an error instead of a panic. */
  method CantonToConfig(b: CantonConfig) returns (r: CantonDecoded)
    ensures Readable(b) ==> Agrees(EvmView(b), r)
    ensures r.CantonOk? ==> Readable(b)
    ensures r.CantonOk? ==> forall g :: g in Within(r.config) ==> 0 < g.quorum <= |g.signers| + |g.groups|
    ensures r.SignerGroupOutOfRange? <==> exists s :: s in b.signers && !(0 <= s.1 < 32)
    ensures r.TooManyQuorums? <==> (forall s :: s in b.signers ==> 0 <= s.1 < 32) && |b.quorums| > 32
    ensures r.TooManyParents? <==>
      (forall s :: s in b.signers ==> 0 <= s.1 < 32) && |b.quorums| <= 32 && |b.parents| > 32
    ensures r.BadQuorum? ==> r.index < |b.quorums| && !(0 <= b.quorums[r.index] <= 255)
    ensures r.BadQuorum? ==> forall k :: 0 <= k < r.index ==> 0 <= b.quorums[k] <= 255
    ensures r.BadParent? ==> r.index < |b.parents| && !(0 <= b.parents[r.index] <= 255)
  {
    hide DecodeNodes, Within, Valid, Pick;
    var bad := CheckSigners(b.signers);
    if bad != [] {
      return SignerGroupOutOfRange(bad[0]);
    }
    if |b.quorums| > GROUPS {
      return TooManyQuorums;
    }
    if |b.parents| > GROUPS {
      return TooManyParents;
    }
    var parents := Padded(b.parents);
    var ok, groupToSigners := GroupSigners(EvmSigners(b));
    var badQuorum := CheckQuorums(b.quorums);
    if badQuorum.Some? {
      return BadQuorum(badQuorum.value);
    }
    var groups := InitGroups(EvmQuorums(b), groupToSigners);
    assert groups[..] == Nodes(ChainConfig(EvmQuorums(b), Bytes(parents), EvmSigners(b)));
    r := CantonLinkAndValidate(groups, parents);
    if r.CantonOk? {
      ValidIff(r.config);
    }
  }

  /** Missing entries read as 0, and otherwise the numbers and the signers are taken over as they are: a Canton config
      reads like the EVM arrays that hold the same. */
  lemma {:induction false} CantonReadsAsEvm(b: CantonConfig, chain: ChainConfig)
    requires |b.quorums| <= |chain.quorums| == 32 && |b.parents| <= |chain.parents| == 32
    requires forall i :: 0 <= i < 32 ==> chain.quorums[i] == if i < |b.quorums| then b.quorums[i] else 0
    requires forall i :: 0 <= i < 32 ==> chain.parents[i] == if i < |b.parents| then b.parents[i] else 0
    requires forall i :: 0 <= i < 32 ==> chain.parents[i] <= 255
    requires |b.signers| == |chain.signers|
    requires forall i :: 0 <= i < |b.signers| ==>
      b.signers[i] == (chain.signers[i].addr, chain.signers[i].group) && chain.signers[i].group < 32
    ensures Readable(b) && EvmView(b) == Decode(chain)
  {
    hide Decode;
    assert Padded(b.quorums) == chain.quorums && Padded(b.parents) == chain.parents;
    forall s | s in b.signers
      ensures 0 <= s.1 < GROUPS
    {
      var i :| 0 <= i < |b.signers| && b.signers[i] == s;
    }
    assert EvmQuorums(b) == chain.quorums && Bytes(Padded(b.parents)) == chain.parents;
    assert EvmSigners(b) == chain.signers;
  }
}
