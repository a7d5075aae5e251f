/** Merging timelock proposals (merge.go, types/chain.go). */
module Merge {

  import opened GoTypes

  /** Free-form proposal metadata. */
  datatype Json = Scalar(text: string) | Arr(items: seq<Json>) | Obj(fields: map<string, Json>)

  // ----- metadata

  /** What a key present on both sides becomes: lists append, objects merge, anything else is overwritten. */
  function MergeValue(x: Json, y: Json): Json
    decreases y
  {
    if x.Arr? && y.Arr? then Arr(x.items + y.items)
    else if x.Obj? && y.Obj? then
      Obj(map k | k in x.fields.Keys + y.fields.Keys ::
        if k !in y.fields then x.fields[k]
        else if k !in x.fields then y.fields[k]
        else MergeValue(x.fields[k], y.fields[k]))
    else y
  }

  function MergeMaps(a: map<string, Json>, b: map<string, Json>): map<string, Json> {
    MergeValue(Obj(a), Obj(b)).fields
  }

  /** Merging an empty map changes nothing, so the shortcut for empty metadata is no special case. */
  method MergeMetadata(a: map<string, Json>, b: map<string, Json>) returns (r: map<string, Json>)
    ensures r == MergeMaps(a, b)
  {
    if |b| == 0 {
      assert MergeMaps(a, b) == a;
      return a;
    }
    r := MergeMetadataMaps(a, b, Obj(b));
  }

  /** The loop over `b`'s keys, in some order, into a copy of `a`; `whole` only bounds the recursion. */
  method MergeMetadataMaps(a: map<string, Json>, b: map<string, Json>, ghost whole: Json)
    returns (out: map<string, Json>)
    requires whole == Obj(b)
    ensures out == MergeMaps(a, b)
    decreases whole
  {
    out := a;
    var todo := b.Keys;
    while todo != {}
      invariant todo <= b.Keys
      invariant out.Keys == a.Keys + (b.Keys - todo)
      invariant forall k :: k in out ==>
        (out[k] == if k !in b || k in todo then a[k] else if k !in a then b[k] else MergeValue(a[k], b[k]))
      decreases todo
    {
      var k :| k in todo;
      todo := todo - {k};
      if k !in out {
        out := out[k := b[k]];
      } else if out[k].Arr? && b[k].Arr? {
        out := out[k := Arr(out[k].items + b[k].items)];
      } else if out[k].Obj? && b[k].Obj? {
        assert whole.fields[k] == b[k];
        var merged := MergeMetadataMaps(out[k].fields, b[k].fields, b[k]);
        out := out[k := Obj(merged)];
      } else {
        out := out[k := b[k]];
      }
    }
  }

  /** `z` overwrites or already contains everything that `x` would add. */
  predicate Absorbed(x: Json, z: Json)
    decreases z
  {
    if x.Arr? && z.Arr? then x.items == []
    else if x.Obj? && z.Obj? then
      forall k :: k in x.fields ==> k in z.fields && Absorbed(x.fields[k], z.fields[k])
    else true
  }

  lemma {:induction false} AbsorbedIffMergeIsRight(x: Json, z: Json)
    ensures MergeValue(x, z) == z <==> Absorbed(x, z)
    decreases z
  {
    if x.Arr? && z.Arr? {
      if x.items + z.items == z.items {
        assert |x.items| == 0;
      } else {
        assert x.items != [];
      }
    } else if x.Obj? && z.Obj? {
      var m := MergeValue(x, z).fields;
      forall k | k in x.fields && k in z.fields
        ensures m[k] == z.fields[k] <==> Absorbed(x.fields[k], z.fields[k])
      {
        AbsorbedIffMergeIsRight(x.fields[k], z.fields[k]);
      }
      if Absorbed(x, z) {
        assert m == z.fields;
      } else {
        var k :| k in x.fields && !(k in z.fields && Absorbed(x.fields[k], z.fields[k]));
        assert k in m;
      }
    }
  }

  /** At no path does a value of another kind stand between two lists or two objects whose own merge would show. */
  predicate NoSandwich(x: Json, y: Json, z: Json)
    decreases z
  {
    if x.Obj? && y.Obj? && z.Obj? then
      forall k :: k in x.fields && k in y.fields && k in z.fields ==> NoSandwich(x.fields[k], y.fields[k], z.fields[k])
    else if (x.Arr? && !y.Arr? && z.Arr?) || (x.Obj? && !y.Obj? && z.Obj?) then Absorbed(x, z)
    else true
  }

  /** Metadata merging is associative exactly when there is no such sandwich. */
  lemma {:induction false} MergeValueAssociativeIff(x: Json, y: Json, z: Json)
    ensures MergeValue(MergeValue(x, y), z) == MergeValue(x, MergeValue(y, z)) <==> NoSandwich(x, y, z)
    decreases z
  {
    if x.Obj? && y.Obj? && z.Obj? {
      var l, r := MergeValue(MergeValue(x, y), z).fields, MergeValue(x, MergeValue(y, z)).fields;
      assert l.Keys == r.Keys;
      forall k | k in l
        ensures l[k] == r[k] <==>
          (k in x.fields && k in y.fields && k in z.fields ==> NoSandwich(x.fields[k], y.fields[k], z.fields[k]))
      {
        if k in x.fields && k in y.fields && k in z.fields {
          MergeValueAssociativeIff(x.fields[k], y.fields[k], z.fields[k]);
        }
      }
      if NoSandwich(x, y, z) {
        assert l == r;
      } else {
        var k :| k in x.fields && k in y.fields && k in z.fields && !NoSandwich(x.fields[k], y.fields[k], z.fields[k]);
        assert k in l && l[k] != r[k];
      }
    } else if x.Arr? && y.Arr? && z.Arr? {
      assert x.items + y.items + z.items == x.items + (y.items + z.items);
    } else {
      AbsorbedIffMergeIsRight(x, z);
    }
  }

  /** Values under the same path have the same kind: the usual way to have no sandwich. */
  predicate SameKinds(x: Json, y: Json)
    decreases y
  {
    if x.Obj? && y.Obj? then forall k :: k in x.fields && k in y.fields ==> SameKinds(x.fields[k], y.fields[k])
    else x.Arr? == y.Arr? && x.Obj? == y.Obj?
  }

  lemma {:induction false} SameKindsNoSandwich(x: Json, y: Json, z: Json)
    requires SameKinds(x, y)
    ensures NoSandwich(x, y, z)
    decreases z
  {
    if x.Obj? && y.Obj? && z.Obj? {
      forall k | k in x.fields && k in y.fields && k in z.fields
        ensures NoSandwich(x.fields[k], y.fields[k], z.fields[k])
      {
        SameKindsNoSandwich(x.fields[k], y.fields[k], z.fields[k]);
      }
    }
  }

  // ----- chain metadata

  /** The decoded additional fields; `Absent` is an empty document, which decodes to a nil map. */
  datatype Fields = Absent | Present(entries: map<string, Json>)

  datatype ChainMetadata = ChainMetadata(startingOpCount: nat, mcmAddress: string, fields: Fields)

  function Entries(f: Fields): map<string, Json> {
    if f.Absent? then map[] else f.entries
  }

  /** Comparing two lists or two objects panics; two scalars may be equal. */
  predicate Agree(x: Json, y: Json) {
    x == y && x.Scalar?
  }

  ghost predicate Compatible(a: map<string, Json>, b: map<string, Json>) {
    forall k :: k in a && k in b ==> Agree(a[k], b[k])
  }

  /** Every shared key agrees, and nothing is written into a nil map. */
  ghost predicate Mergeable(a: Fields, b: Fields) {
    (a.Absent? ==> Entries(b) == map[]) && Compatible(Entries(a), Entries(b))
  }

  /** An empty result is not written out. */
  function Stored(m: map<string, Json>): Fields {
    if m == map[] then Absent else Present(m)
  }

  ghost function MergeFields(a: Fields, b: Fields): Option<Fields> {
    if Mergeable(a, b) then Some(Stored(Entries(a) + Entries(b))) else None
  }

  datatype MergeResult<T> = Merged(value: T) | Conflict | Panic

  method MergeChainMetadata(a: ChainMetadata, b: ChainMetadata) returns (r: MergeResult<ChainMetadata>)
    ensures r.Merged? <==> CombineChain(a, b).Some?
    ensures r.Merged? ==> r.value == CombineChain(a, b).value
    ensures a.mcmAddress != b.mcmAddress ==> r.Conflict?
    ensures r.Panic? ==>
      (a.fields.Absent?
       || exists k :: k in Entries(a.fields) && k in Entries(b.fields) && !Entries(b.fields)[k].Scalar?)
  {
    if a.mcmAddress != b.mcmAddress {
      return Conflict;
    }
    var mine, theirs := Entries(a.fields), Entries(b.fields);
    var merged, todo := mine, theirs.Keys;
    while todo != {}
      invariant todo <= theirs.Keys
      invariant a.fields.Absent? ==> todo == theirs.Keys
      invariant forall k :: k in theirs && k !in todo && k in mine ==> Agree(mine[k], theirs[k])
      invariant merged.Keys == mine.Keys + (theirs.Keys - todo)
      invariant forall k :: k in merged ==> merged[k] == if k in mine then mine[k] else theirs[k]
      decreases todo
    {
      var k :| k in todo;
      if k !in merged {
        if a.fields.Absent? {
          return Panic;
        }
        merged := merged[k := theirs[k]];
      } else if (merged[k].Arr? && theirs[k].Arr?) || (merged[k].Obj? && theirs[k].Obj?) {
        return Panic;
      } else if merged[k] != theirs[k] {
        return Conflict;
      }
      todo := todo - {k};
    }
    assert merged == mine + theirs;
    var start := if a.startingOpCount <= b.startingOpCount then a.startingOpCount else b.startingOpCount;
    return Merged(ChainMetadata(start, a.mcmAddress, Stored(merged)));
  }

  function Min(a: int, b: int): int {
    if a <= b then a else b
  }

  function Max(a: int, b: int): int {
    if a >= b then a else b
  }

  ghost function CombineChain(a: ChainMetadata, b: ChainMetadata): Option<ChainMetadata> {
    if a.mcmAddress == b.mcmAddress && Mergeable(a.fields, b.fields)
    then
      var fields := MergeFields(a.fields, b.fields).value;
      Some(ChainMetadata(Min(a.startingOpCount, b.startingOpCount), a.mcmAddress, fields))
    else None
  }

  /** Where grouping matters: fields missing in the middle, or written empty twice before any content. */
  predicate FieldsGroupFreely(x: Fields, y: Fields, z: Fields) {
    && !(Entries(x) != map[] && y.Absent? && Entries(z) != map[])
    && !(x == Present(map[]) && y == Present(map[]) && Entries(z) != map[])
  }

  ghost function FieldsLeft(x: Fields, y: Fields, z: Fields): Option<Fields> {
    if Mergeable(x, y) then MergeFields(MergeFields(x, y).value, z) else None
  }

  ghost function FieldsRight(x: Fields, y: Fields, z: Fields): Option<Fields> {
    if Mergeable(y, z) then MergeFields(x, MergeFields(y, z).value) else None
  }

  lemma {:induction false} CompatibleUnions(x: map<string, Json>, y: map<string, Json>, z: map<string, Json>)
    ensures Compatible(x, y) ==> (Compatible(x + y, z) <==> Compatible(x, z) && Compatible(y, z))
    ensures Compatible(y, z) ==> (Compatible(x, y + z) <==> Compatible(x, y) && Compatible(x, z))
    ensures (x + y) + z == x + (y + z)
    ensures x + y == map[] <==> x == map[] && y == map[]
  {
    if Compatible(x, y) && Compatible(x + y, z) {
      assert forall k :: k in x && k in z ==> (x + y)[k] == x[k];
    }
    if x + y == map[] {
      assert (x + y).Keys == x.Keys + y.Keys;
    }
  }

  lemma {:induction false} EntriesStored(m: map<string, Json>)
    ensures Entries(Stored(m)) == m
  {
  }

  /** When either grouping succeeds, the other does exactly under that condition, and then they agree. */
  lemma {:induction false} FieldsAssociativeIff(x: Fields, y: Fields, z: Fields)
    requires FieldsLeft(x, y, z).Some? || FieldsRight(x, y, z).Some?
    ensures FieldsLeft(x, y, z).Some? && FieldsRight(x, y, z).Some? <==> FieldsGroupFreely(x, y, z)
    ensures FieldsGroupFreely(x, y, z) ==> FieldsLeft(x, y, z) == FieldsRight(x, y, z)
  {
    var a, b, c := Entries(x), Entries(y), Entries(z);
    CompatibleUnions(a, b, c);
    CompatibleUnions(b, c, map[]);
    EntriesStored(a + b);
    EntriesStored(b + c);
  }

  // ----- whole proposals

  /** The mergeable part of a timelock proposal; signatures are always dropped. */
  datatype Proposal = Proposal(
    version: string, kind: string, action: string, overridePreviousRoot: bool, description: string,
    metadata: map<string, Json>, chains: map<nat, ChainMetadata>, validUntil: nat, delay: int,
    addresses: map<nat, string>, salt: Option<seq<bv8>>, operations: seq<int>)

  predicate SaltsFit(a: Option<seq<bv8>>, b: Option<seq<bv8>>) {
    a.Some? && b.Some? ==> |a.value| == |b.value|
  }

  function Xor(a: seq<bv8>, b: seq<bv8>): (r: seq<bv8>)
    requires |a| == |b|
    ensures |r| == |a|
  {
    seq(|a|, i requires 0 <= i < |a| => a[i] ^ b[i])
  }

  function CombineSalt(a: Option<seq<bv8>>, b: Option<seq<bv8>>): Option<seq<bv8>>
    requires SaltsFit(a, b)
  {
    if b == None then a else if a == None then b else Some(Xor(a.value, b.value))
  }

  function CombineDescription(a: string, b: string): string {
    if b == "" then a else (if a == "" then "" else a + "\n") + b
  }

  ghost predicate ChainsMergeable(a: map<nat, ChainMetadata>, b: map<nat, ChainMetadata>) {
    forall c :: c in a && c in b ==> CombineChain(a[c], b[c]).Some?
  }

  ghost function CombineChains(a: map<nat, ChainMetadata>, b: map<nat, ChainMetadata>): map<nat, ChainMetadata>
    requires ChainsMergeable(a, b)
  {
    map c | c in a.Keys + b.Keys :: if c !in b then a[c] else if c !in a then b[c] else CombineChain(a[c], b[c]).value
  }

  ghost predicate AddressesAgree(a: map<nat, string>, b: map<nat, string>) {
    forall c :: c in a && c in b ==> a[c] == b[c]
  }

  ghost predicate CanMerge(a: Proposal, b: Proposal) {
    && a.version == b.version && a.kind == b.kind && a.action == b.action
    && ChainsMergeable(a.chains, b.chains)
    && AddressesAgree(a.addresses, b.addresses)
  }

  ghost function Combine(a: Proposal, b: Proposal): Option<Proposal>
    requires SaltsFit(a.salt, b.salt)
  {
    if !CanMerge(a, b) then None
    else Some(Proposal(
      a.version, a.kind, a.action, a.overridePreviousRoot || b.overridePreviousRoot,
      CombineDescription(a.description, b.description), MergeMaps(a.metadata, b.metadata),
      CombineChains(a.chains, b.chains), Min(a.validUntil, b.validUntil), Max(a.delay, b.delay),
      a.addresses + b.addresses, CombineSalt(a.salt, b.salt), a.operations + b.operations))
  }

  ghost predicate SaltsFit3(a: Proposal, b: Proposal, c: Proposal) {
    SaltsFit(a.salt, b.salt) && SaltsFit(b.salt, c.salt) && SaltsFit(a.salt, c.salt)
  }

  ghost function Left(a: Proposal, b: Proposal, c: Proposal): Option<Proposal>
    requires SaltsFit3(a, b, c)
  {
    var ab := Combine(a, b);
    if ab.Some? then Combine(ab.value, c) else None
  }

  ghost function Right(a: Proposal, b: Proposal, c: Proposal): Option<Proposal>
    requires SaltsFit3(a, b, c)
  {
    var bc := Combine(b, c);
    if bc.Some? then Combine(a, bc.value) else None
  }

  lemma {:induction false} DescriptionAssociative(a: string, b: string, c: string)
    ensures CombineDescription(CombineDescription(a, b), c) == CombineDescription(a, CombineDescription(b, c))
  {
    if a != "" && b != "" && c != "" {
      assert a + "\n" + b + "\n" + c == a + "\n" + (b + "\n" + c);
    }
  }

  lemma {:induction false} SaltAssociative(a: Option<seq<bv8>>, b: Option<seq<bv8>>, c: Option<seq<bv8>>)
    requires SaltsFit(a, b) && SaltsFit(b, c) && SaltsFit(a, c)
    ensures CombineSalt(CombineSalt(a, b), c) == CombineSalt(a, CombineSalt(b, c))
  {
    if a.Some? && b.Some? && c.Some? {
      assert Xor(Xor(a.value, b.value), c.value) == Xor(a.value, Xor(b.value, c.value));
    }
  }

  // ----- one chain entry under both groupings

  ghost function ChainLeft(x: ChainMetadata, y: ChainMetadata, z: ChainMetadata): Option<ChainMetadata> {
    var xy := CombineChain(x, y);
    if xy.Some? then CombineChain(xy.value, z) else None
  }

  ghost function ChainRight(x: ChainMetadata, y: ChainMetadata, z: ChainMetadata): Option<ChainMetadata> {
    var yz := CombineChain(y, z);
    if yz.Some? then CombineChain(x, yz.value) else None
  }

  lemma {:induction false} ChainAssociativeIff(x: ChainMetadata, y: ChainMetadata, z: ChainMetadata)
    requires ChainLeft(x, y, z).Some? || ChainRight(x, y, z).Some?
    ensures ChainLeft(x, y, z).Some? && ChainRight(x, y, z).Some? <==> FieldsGroupFreely(x.fields, y.fields, z.fields)
    ensures FieldsGroupFreely(x.fields, y.fields, z.fields) ==> ChainLeft(x, y, z) == ChainRight(x, y, z)
  {
    FieldsAssociativeIff(x.fields, y.fields, z.fields);
  }

  /** The condition on three proposals: no metadata sandwich, and every chain in all three groups freely. */
  ghost predicate GroupFreely(a: Proposal, b: Proposal, c: Proposal) {
    && NoSandwich(Obj(a.metadata), Obj(b.metadata), Obj(c.metadata))
    && ChainsGroupFreely(a.chains, b.chains, c.chains)
  }

  ghost predicate ChainsGroupFreely(a: map<nat, ChainMetadata>, b: map<nat, ChainMetadata>, c: map<nat, ChainMetadata>)
  {
    forall k :: k in a && k in b && k in c ==> FieldsGroupFreely(a[k].fields, b[k].fields, c[k].fields)
  }

  ghost predicate ChainsLeftOk(a: map<nat, ChainMetadata>, b: map<nat, ChainMetadata>, c: map<nat, ChainMetadata>) {
    ChainsMergeable(a, b) && ChainsMergeable(CombineChains(a, b), c)
  }

  ghost predicate ChainsRightOk(a: map<nat, ChainMetadata>, b: map<nat, ChainMetadata>, c: map<nat, ChainMetadata>) {
    ChainsMergeable(b, c) && ChainsMergeable(a, CombineChains(b, c))
  }

  /** Chain by chain, what success of each grouping means. */
  lemma {:induction false} ChainsOkByKey(a: map<nat, ChainMetadata>, b: map<nat, ChainMetadata>,
        c: map<nat, ChainMetadata>)
    ensures ChainsLeftOk(a, b, c) <==>
      && ChainsMergeable(a, b)
      && (forall k :: k in a && k in b && k in c ==> ChainLeft(a[k], b[k], c[k]).Some?)
      && (forall k :: k in a && k !in b && k in c ==> CombineChain(a[k], c[k]).Some?)
      && (forall k :: k !in a && k in b && k in c ==> CombineChain(b[k], c[k]).Some?)
    ensures ChainsRightOk(a, b, c) <==>
      && ChainsMergeable(b, c)
      && (forall k :: k in a && k in b && k in c ==> ChainRight(a[k], b[k], c[k]).Some?)
      && (forall k :: k in a && k !in b && k in c ==> CombineChain(a[k], c[k]).Some?)
      && (forall k :: k in a && k in b && k !in c ==> CombineChain(a[k], b[k]).Some?)
  {
    if ChainsMergeable(a, b) {
      var ab := CombineChains(a, b);
      assert forall k :: k in a && k in b && k in c ==> CombineChain(ab[k], c[k]) == ChainLeft(a[k], b[k], c[k]);
    }
    if ChainsMergeable(b, c) {
      var bc := CombineChains(b, c);
      assert forall k :: k in a && k in b && k in c ==> CombineChain(a[k], bc[k]) == ChainRight(a[k], b[k], c[k]);
    }
  }

  lemma {:induction false} ChainsValueAt(a: map<nat, ChainMetadata>, b: map<nat, ChainMetadata>,
        c: map<nat, ChainMetadata>, k: nat)
    requires ChainsLeftOk(a, b, c) && ChainsRightOk(a, b, c)
    requires k in a || k in b || k in c
    ensures var l, r := CombineChains(CombineChains(a, b), c), CombineChains(a, CombineChains(b, c));
      l[k] == r[k] <==> (k in a && k in b && k in c ==> ChainLeft(a[k], b[k], c[k]) == ChainRight(a[k], b[k], c[k]))
  {
    ChainsOkByKey(a, b, c);
  }

  lemma {:induction false} ChainsValues(a: map<nat, ChainMetadata>, b: map<nat, ChainMetadata>,
        c: map<nat, ChainMetadata>)
    requires ChainsLeftOk(a, b, c) && ChainsRightOk(a, b, c)
    ensures CombineChains(CombineChains(a, b), c) == CombineChains(a, CombineChains(b, c)) <==>
      forall k :: k in a && k in b && k in c ==> ChainLeft(a[k], b[k], c[k]) == ChainRight(a[k], b[k], c[k])
  {
    var l, r := CombineChains(CombineChains(a, b), c), CombineChains(a, CombineChains(b, c));
    assert l.Keys == r.Keys;
    forall k | k in l
      ensures l[k] == r[k] <==>
        (k in a && k in b && k in c ==> ChainLeft(a[k], b[k], c[k]) == ChainRight(a[k], b[k], c[k]))
    {
      ChainsValueAt(a, b, c, k);
    }
  }

  /** When either grouping of the chains succeeds, the other does exactly if they group freely, and then they agree. */
  lemma {:induction false} ChainsAssociativeIff(a: map<nat, ChainMetadata>, b: map<nat, ChainMetadata>,
        c: map<nat, ChainMetadata>)
    requires ChainsLeftOk(a, b, c) || ChainsRightOk(a, b, c)
    ensures ChainsLeftOk(a, b, c) && ChainsRightOk(a, b, c) <==> ChainsGroupFreely(a, b, c)
    ensures ChainsGroupFreely(a, b, c) ==>
      CombineChains(CombineChains(a, b), c) == CombineChains(a, CombineChains(b, c))
  {
    hide CombineChains, CombineChain, FieldsGroupFreely, ChainsLeftOk, ChainsRightOk;
    ChainsOkByKey(a, b, c);
    forall k | k in a && k in b && k in c
      ensures ChainLeft(a[k], b[k], c[k]).Some? && ChainRight(a[k], b[k], c[k]).Some? <==>
        FieldsGroupFreely(a[k].fields, b[k].fields, c[k].fields)
      ensures FieldsGroupFreely(a[k].fields, b[k].fields, c[k].fields) ==>
        ChainLeft(a[k], b[k], c[k]) == ChainRight(a[k], b[k], c[k])
    {
      ChainAssociativeIff(a[k], b[k], c[k]);
    }
    if ChainsGroupFreely(a, b, c) {
      ChainsValues(a, b, c);
    }
  }

  lemma {:induction false} AddressesAssociative(a: map<nat, string>, b: map<nat, string>, c: map<nat, string>)
    ensures AddressesAgree(a, b) && AddressesAgree(a + b, c) <==> AddressesAgree(b, c) && AddressesAgree(a, b + c)
    ensures (a + b) + c == a + (b + c)
  {
    if AddressesAgree(a, b) && AddressesAgree(a + b, c) {
      assert forall k :: k in a && k in c ==> (a + b)[k] == a[k];
    }
    if AddressesAgree(b, c) && AddressesAgree(a, b + c) {
      assert forall k :: k in a && k in b ==> (b + c)[k] == b[k];
    }
  }

  /** The equality checks on headers and addresses, which do not depend on the grouping. */
  ghost predicate HeadersAgree(a: Proposal, b: Proposal, c: Proposal) {
    && a.version == b.version == c.version && a.kind == b.kind == c.kind && a.action == b.action == c.action
    && AddressesAgree(a.addresses, b.addresses) && AddressesAgree(a.addresses + b.addresses, c.addresses)
  }

  lemma {:induction false} SuccessByPart(a: Proposal, b: Proposal, c: Proposal)
    requires SaltsFit3(a, b, c)
    ensures Left(a, b, c).Some? <==> ChainsLeftOk(a.chains, b.chains, c.chains) && HeadersAgree(a, b, c)
    ensures Right(a, b, c).Some? <==> ChainsRightOk(a.chains, b.chains, c.chains) && HeadersAgree(a, b, c)
  {
    AddressesAssociative(a.addresses, b.addresses, c.addresses);
  }

  /** Apart from metadata and chains, the two groupings always agree. */
  lemma {:induction false} GroupingsDifferOnlyIn(a: Proposal, b: Proposal, c: Proposal)
    requires SaltsFit3(a, b, c) && Left(a, b, c).Some? && Right(a, b, c).Some?
    ensures var l, r := Left(a, b, c).value, Right(a, b, c).value;
      && l.(metadata := r.metadata, chains := r.chains) == r
      && l.metadata == MergeMaps(MergeMaps(a.metadata, b.metadata), c.metadata)
      && r.metadata == MergeMaps(a.metadata, MergeMaps(b.metadata, c.metadata))
      && l.chains == CombineChains(CombineChains(a.chains, b.chains), c.chains)
      && r.chains == CombineChains(a.chains, CombineChains(b.chains, c.chains))
  {
    SuccessByPart(a, b, c);
    AddressesAssociative(a.addresses, b.addresses, c.addresses);
    DescriptionAssociative(a.description, b.description, c.description);
    SaltAssociative(a.salt, b.salt, c.salt);
    assert a.operations + b.operations + c.operations == a.operations + (b.operations + c.operations);
  }

  /** Merging is associative exactly under that condition: when either grouping of three proposals succeeds,
      both succeed with the same result if and only if they group freely; otherwise both fail. */
  lemma {:induction false} MergeAssociativeIff(a: Proposal, b: Proposal, c: Proposal)
    requires SaltsFit3(a, b, c)
    requires Left(a, b, c).Some? || Right(a, b, c).Some?
    ensures Left(a, b, c) == Right(a, b, c) <==> GroupFreely(a, b, c)
    ensures Left(a, b, c).Some? && Right(a, b, c).Some? <==> ChainsGroupFreely(a.chains, b.chains, c.chains)
  {
    SuccessByPart(a, b, c);
    MergeValueAssociativeIff(Obj(a.metadata), Obj(b.metadata), Obj(c.metadata));
    ChainsAssociativeIff(a.chains, b.chains, c.chains);
    if Left(a, b, c).Some? && Right(a, b, c).Some? {
      GroupingsDifferOnlyIn(a, b, c);
    }
  }

  /** In practice: values under one metadata path have one kind, and chain fields group freely. */
  lemma {:induction false} MergeAssociative(a: Proposal, b: Proposal, c: Proposal)
    requires SaltsFit3(a, b, c)
    requires SameKinds(Obj(a.metadata), Obj(b.metadata)) && ChainsGroupFreely(a.chains, b.chains, c.chains)
    ensures Left(a, b, c) == Right(a, b, c)
  {
    SameKindsNoSandwich(Obj(a.metadata), Obj(b.metadata), Obj(c.metadata));
    if Left(a, b, c).Some? || Right(a, b, c).Some? {
      MergeAssociativeIff(a, b, c);
    }
  }

  // ----- what a merge results in

  /** Merging succeeds exactly when the headers agree, and every chain and every address that both have agree: the same
      MCM address, and under every field that both have the same scalar, with nothing to write into missing fields. */
  lemma {:induction false} MergeSucceedsIff(a: Proposal, b: Proposal)
    requires SaltsFit(a.salt, b.salt)
    ensures Combine(a, b).Some? <==>
      && a.version == b.version && a.kind == b.kind && a.action == b.action
      && (forall c :: c in a.addresses && c in b.addresses ==> a.addresses[c] == b.addresses[c])
      && (forall c :: c in a.chains && c in b.chains ==> ChainsAgree(a.chains[c], b.chains[c]))
  {
    assert forall c :: c in a.chains && c in b.chains ==>
      (CombineChain(a.chains[c], b.chains[c]).Some? <==> ChainsAgree(a.chains[c], b.chains[c]));
  }

  ghost predicate ChainsAgree(x: ChainMetadata, y: ChainMetadata) {
    && x.mcmAddress == y.mcmAddress
    && (x.fields.Absent? ==> y.fields.Absent? || y.fields.entries == map[])
    && (x.fields.Present? && y.fields.Present? ==>
          forall k :: k in x.fields.entries && k in y.fields.entries ==>
            x.fields.entries[k] == y.fields.entries[k] && x.fields.entries[k].Scalar?)
  }

  /** The times, the flag, the operations and the addresses of a merged proposal. */
  lemma {:induction false} MergedScalars(a: Proposal, b: Proposal, m: Proposal)
    requires SaltsFit(a.salt, b.salt) && Combine(a, b) == Some(m)
    ensures m.version == a.version && m.kind == a.kind && m.action == a.action
    ensures m.validUntil <= a.validUntil && m.validUntil <= b.validUntil
    ensures m.validUntil == a.validUntil || m.validUntil == b.validUntil
    ensures m.delay >= a.delay && m.delay >= b.delay && (m.delay == a.delay || m.delay == b.delay)
    ensures m.overridePreviousRoot <==> a.overridePreviousRoot || b.overridePreviousRoot
    ensures m.operations == a.operations + b.operations
    ensures forall c :: c in m.addresses <==> c in a.addresses || c in b.addresses
    ensures forall c :: c in a.addresses ==> m.addresses[c] == a.addresses[c]
    ensures forall c :: c in b.addresses ==> m.addresses[c] == b.addresses[c]
  {
    hide MergeMaps, CombineChains, CombineSalt, CombineDescription;
  }

  /** The texts: one side's when the other has none, otherwise both with a newline between. */
  lemma {:induction false} MergedDescription(a: Proposal, b: Proposal, m: Proposal)
    requires SaltsFit(a.salt, b.salt) && Combine(a, b) == Some(m)
    ensures b.description == "" ==> m.description == a.description
    ensures a.description == "" ==> m.description == b.description
    ensures a.description != "" && b.description != "" ==> m.description == a.description + "\n" + b.description
  {
    hide MergeMaps, CombineChains, CombineSalt;
  }

  /** The salts: one side's when the other has none, otherwise byte by byte the exclusive or. */
  lemma {:induction false} MergedSalt(a: Proposal, b: Proposal, m: Proposal)
    requires SaltsFit(a.salt, b.salt) && Combine(a, b) == Some(m)
    ensures b.salt.None? ==> m.salt == a.salt
    ensures a.salt.None? ==> m.salt == b.salt
    ensures a.salt.Some? && b.salt.Some? ==> m.salt.Some? && |m.salt.value| == |a.salt.value|
    ensures a.salt.Some? && b.salt.Some? ==>
      forall i :: 0 <= i < |a.salt.value| ==> m.salt.value[i] == a.salt.value[i] ^ b.salt.value[i]
  {
    hide MergeMaps, CombineChains, CombineDescription;
  }

  /** The chains: those of one side only as they are; of a shared one the smaller op count, the common address, and
      under every field what either side has. */
  lemma {:induction false} MergedChains(a: Proposal, b: Proposal, m: Proposal, c: nat)
    requires SaltsFit(a.salt, b.salt) && Combine(a, b) == Some(m)
    ensures c in m.chains <==> c in a.chains || c in b.chains
    ensures c in a.chains && c !in b.chains ==> m.chains[c] == a.chains[c]
    ensures c in b.chains && c !in a.chains ==> m.chains[c] == b.chains[c]
    ensures c in a.chains && c in b.chains ==> IsMergedChain(a.chains[c], b.chains[c], m.chains[c])
  {
    hide MergeMaps, CombineSalt, CombineDescription, CombineChain, IsMergedChain;
    if c in a.chains && c in b.chains {
      MergedChain(a.chains[c], b.chains[c]);
    }
  }

  lemma {:induction false} MergedChain(x: ChainMetadata, y: ChainMetadata)
    requires CombineChain(x, y).Some?
    ensures IsMergedChain(x, y, CombineChain(x, y).value)
  {
    EntriesStored(Entries(x.fields) + Entries(y.fields));
  }

  ghost predicate IsMergedChain(x: ChainMetadata, y: ChainMetadata, m: ChainMetadata) {
    && m.startingOpCount <= x.startingOpCount && m.startingOpCount <= y.startingOpCount
    && (m.startingOpCount == x.startingOpCount || m.startingOpCount == y.startingOpCount)
    && m.mcmAddress == x.mcmAddress == y.mcmAddress
    && (forall k :: HasField(m, k) <==> HasField(x, k) || HasField(y, k))
    && (forall k :: HasField(x, k) ==> m.fields.entries[k] == x.fields.entries[k])
    && (forall k :: HasField(y, k) ==> m.fields.entries[k] == y.fields.entries[k])
    && (m.fields.Present? ==> m.fields.entries != map[])
  }

  ghost predicate HasField(x: ChainMetadata, k: string) {
    x.fields.Present? && k in x.fields.entries
  }

  /** The metadata: a key of one side only keeps its value, two lists are appended in order, two objects are merged in
      the same way, and otherwise the right side's value is kept. */
  lemma {:induction false} MergedMetadata(a: Proposal, b: Proposal, m: Proposal, k: string)
    requires SaltsFit(a.salt, b.salt) && Combine(a, b) == Some(m)
    ensures k in m.metadata <==> k in a.metadata || k in b.metadata
    ensures k in a.metadata && k !in b.metadata ==> m.metadata[k] == a.metadata[k]
    ensures k in b.metadata && k !in a.metadata ==> m.metadata[k] == b.metadata[k]
    ensures k in a.metadata && k in b.metadata ==> IsMergedValue(a.metadata[k], b.metadata[k], m.metadata[k])
  {
    hide CombineChains, CombineSalt, CombineDescription, IsMergedValue;
    if k in a.metadata && k in b.metadata {
      MergedValue(a.metadata[k], b.metadata[k]);
    }
  }

  ghost predicate IsMergedValue(x: Json, y: Json, m: Json)
    decreases y
  {
    if x.Arr? && y.Arr? then
      && m.Arr? && |m.items| == |x.items| + |y.items|
      && (forall i :: 0 <= i < |x.items| ==> m.items[i] == x.items[i])
      && (forall i :: 0 <= i < |y.items| ==> m.items[|x.items| + i] == y.items[i])
    else if x.Obj? && y.Obj? then
      && m.Obj?
      && (forall k :: k in m.fields <==> k in x.fields || k in y.fields)
      && (forall k :: k in x.fields && k !in y.fields ==> m.fields[k] == x.fields[k])
      && (forall k :: k in y.fields && k !in x.fields ==> m.fields[k] == y.fields[k])
      && (forall k :: k in y.fields && k in x.fields ==> IsMergedValue(x.fields[k], y.fields[k], m.fields[k]))
    else m == y
  }

  lemma {:induction false} MergedValue(x: Json, y: Json)
    ensures IsMergedValue(x, y, MergeValue(x, y))
    decreases y
  {
    if x.Obj? && y.Obj? {
      forall k | k in y.fields && k in x.fields
        ensures IsMergedValue(x.fields[k], y.fields[k], MergeValue(x, y).fields[k])
      {
        MergedValue(x.fields[k], y.fields[k]);
      }
    }
  }

  // ----- where the grouping shows

  /** A proposal that has only metadata and one chain. */
  ghost function Small(metadata: map<string, Json>, fields: Fields): Proposal {
    Proposal("v1", "TimelockProposal", "schedule", false, "", metadata,
             map[1 := ChainMetadata(0, "0x01", fields)], 0, 0, map[], None, [])
  }

  lemma {:induction false} SmallCombine(x: map<string, Json>, f: Fields, y: map<string, Json>, g: Fields)
    ensures Combine(Small(x, f), Small(y, g))
         == if Mergeable(f, g) then Some(Small(MergeMaps(x, y), MergeFields(f, g).value)) else None
  {
    var a, b := Small(x, f), Small(y, g);
    assert a.chains[1] == ChainMetadata(0, "0x01", f) && b.chains[1] == ChainMetadata(0, "0x01", g);
    if Mergeable(f, g) {
      assert CombineChains(a.chains, b.chains) == Small(x, MergeFields(f, g).value).chains;
      assert a.operations + b.operations == [] && a.addresses + b.addresses == map[];
    } else {
      assert CombineChain(a.chains[1], b.chains[1]).None?;
    }
  }

  ghost function Key(x: Json): map<string, Json> {
    map["k" := x]
  }

  lemma {:induction false} KeyMerge(x: Json, y: Json)
    ensures MergeMaps(Key(x), Key(y)) == Key(MergeValue(x, y))
  {
  }

  /** Metadata [1], "s" and [2] under one key: the left grouping gives [2], the right one [1, 2]. */
  lemma {:induction false} MetadataGroupingShows() returns (a: Proposal, b: Proposal, c: Proposal)
    ensures SaltsFit3(a, b, c) && Left(a, b, c).Some? && Right(a, b, c).Some?
    ensures Left(a, b, c).value.metadata == Key(Arr([Scalar("2")]))
    ensures Right(a, b, c).value.metadata == Key(Arr([Scalar("1"), Scalar("2")]))
    ensures Left(a, b, c) != Right(a, b, c)
  {
    hide Combine, Small, Mergeable, MergeMaps;
    var x, y, z := Arr([Scalar("1")]), Scalar("s"), Arr([Scalar("2")]);
    a, b, c := Small(Key(x), Absent), Small(Key(y), Absent), Small(Key(z), Absent);
    SmallParts(Key(x), Absent);
    SmallParts(Key(y), Absent);
    SmallParts(Key(z), Absent);
    AbsentMerge();
    SmallCombine(Key(x), Absent, Key(y), Absent);
    SmallCombine(Key(y), Absent, Key(z), Absent);
    KeyMerge(x, y);
    KeyMerge(y, z);
    SmallCombine(Key(y), Absent, Key(z), Absent);
    SmallCombine(Key(x), Absent, Key(z), Absent);
    KeyMerge(x, z);
    var l, r := Key(z), Key(Arr([Scalar("1")] + [Scalar("2")]));
    SmallParts(l, Absent);
    SmallParts(r, Absent);
    assert [Scalar("1")] + [Scalar("2")] == [Scalar("1"), Scalar("2")];
    assert l["k"] != r["k"];
  }

  lemma {:induction false} SmallParts(x: map<string, Json>, f: Fields)
    ensures Small(x, f).metadata == x && Small(x, f).salt == None
  {
  }

  lemma {:induction false} AbsentMerge()
    ensures Mergeable(Absent, Absent) && MergeFields(Absent, Absent).value == Absent
  {
    var none: map<string, Json> := map[];
    assert none + none == none;
  }

  /** Fields missing in the middle: only the left grouping succeeds. */
  lemma {:induction false} MissingFieldsShow() returns (a: Proposal, b: Proposal, c: Proposal)
    ensures SaltsFit3(a, b, c) && Left(a, b, c).Some? && Right(a, b, c).None?
  {
    var x := Present(Key(Scalar("1")));
    a, b, c := Small(map[], x), Small(map[], Absent), Small(map[], x);
    hide Combine, Small, MergeMaps;
    SmallParts(map[], x);
    SmallParts(map[], Absent);
    assert Key(Scalar("1")) + map[] == Key(Scalar("1")) && "k" in Key(Scalar("1"));
    SmallCombine(map[], x, map[], Absent);
    SmallCombine(map[], Absent, map[], x);
    SmallCombine(MergeMaps(map[], map[]), x, map[], x);
  }

  /** Fields written out empty twice before any content: only the right grouping succeeds. */
  lemma {:induction false} EmptyFieldsShow() returns (a: Proposal, b: Proposal, c: Proposal)
    ensures SaltsFit3(a, b, c) && Left(a, b, c).None? && Right(a, b, c).Some?
  {
    var x, e := Present(Key(Scalar("1"))), Present(map[]);
    a, b, c := Small(map[], e), Small(map[], e), Small(map[], x);
    hide Combine, Small, MergeMaps;
    SmallParts(map[], x);
    SmallParts(map[], e);
    assert map[] + Key(Scalar("1")) == Key(Scalar("1")) && "k" in Key(Scalar("1"));
    var none: map<string, Json> := map[];
    assert none + none == none;
    SmallCombine(map[], e, map[], e);
    SmallCombine(MergeMaps(map[], map[]), Absent, map[], x);
    SmallCombine(map[], e, map[], x);
    SmallCombine(map[], e, MergeMaps(map[], map[]), x);
  }

  // ----- the operation itself

  class TimelockProposal {
    const version: string
    const kind: string
    const action: string
    var overridePreviousRoot: bool
    var description: string
    var signatures: seq<int>
    var metadata: map<string, Json>
    var chains: map<nat, ChainMetadata>
    var validUntil: nat
    var delay: int
    var addresses: map<nat, string>
    var salt: array?<bv8>
    var operations: seq<int>

    constructor (p: Proposal, signatures: seq<int>)
      ensures View() == p && this.signatures == signatures && (salt != null ==> fresh(salt))
    {
      version, kind, action := p.version, p.kind, p.action;
      overridePreviousRoot, description := p.overridePreviousRoot, p.description;
      metadata, chains := p.metadata, p.chains;
      validUntil, delay, addresses, operations := p.validUntil, p.delay, p.addresses, p.operations;
      this.signatures := signatures;
      if p.salt.Some? {
        salt := new bv8[|p.salt.value|](i requires 0 <= i < |p.salt.value| => p.salt.value[i]);
      } else {
        salt := null;
      }
      new;
      assert salt != null ==> salt[..] == p.salt.value;
    }

    function SaltValue(): Option<seq<bv8>>
      reads this, salt
    {
      if salt == null then None else Some(salt[..])
    }

    ghost function View(): Proposal
      reads this, salt
    {
      Proposal(version, kind, action, overridePreviousRoot, description, metadata, chains, validUntil, delay,
               addresses, SaltValue(), operations)
    }

    method MergeChains(others: map<nat, ChainMetadata>) returns (ok: bool)
      modifies this`chains
      ensures ok <==> ChainsMergeable(old(chains), others)
      ensures ok ==> chains == CombineChains(old(chains), others)
    {
      ghost var before := chains;
      var todo := others.Keys;
      while todo != {}
        invariant todo <= others.Keys
        invariant forall c :: c in before && c in others && c !in todo ==> CombineChain(before[c], others[c]).Some?
        invariant chains.Keys == before.Keys + (others.Keys - todo)
        invariant forall c :: c in chains ==>
          (chains[c] == if c !in others || c in todo then before[c]
            else if c !in before then others[c]
            else CombineChain(before[c], others[c]).value)
        decreases todo
      {
        var c :| c in todo;
        if c !in chains {
          chains := chains[c := others[c]];
        } else {
          var r := MergeChainMetadata(chains[c], others[c]);
          if !r.Merged? {
            return false;
          }
          chains := chains[c := r.value];
        }
        todo := todo - {c};
      }
      assert chains == CombineChains(before, others);
      return true;
    }

    method MergeAddresses(others: map<nat, string>) returns (ok: bool)
      modifies this`addresses
      ensures ok <==> AddressesAgree(old(addresses), others)
      ensures ok ==> addresses == old(addresses) + others
    {
      ghost var before := addresses;
      var todo := others.Keys;
      while todo != {}
        invariant todo <= others.Keys
        invariant forall c :: c in before && c in others && c !in todo ==> before[c] == others[c]
        invariant addresses.Keys == before.Keys + (others.Keys - todo)
        invariant forall c :: c in addresses ==> addresses[c] == if c in before then before[c] else others[c]
        decreases todo
      {
        var c :| c in todo;
        if c in addresses {
          if addresses[c] != others[c] {
            return false;
          }
        } else {
          addresses := addresses[c := others[c]];
        }
        todo := todo - {c};
      }
      assert addresses == before + others;
      return true;
    }

    /** Adopts the other salt by reference, or XORs it into this one in place. */
    method MergeSalt(other: TimelockProposal)
      requires SaltsFit(SaltValue(), other.SaltValue())
      modifies this`salt, if salt == null then {} else {salt}
      ensures SaltValue() == CombineSalt(old(SaltValue()), old(other.SaltValue()))
      ensures salt == if old(salt) == null then old(other.salt) else old(salt)
    {
      if other.salt != null {
        if salt == null {
          salt := other.salt;
        } else {
          ghost var mine, theirs := salt[..], other.salt[..];
          for i := 0 to salt.Length
            invariant salt == old(salt) && other.salt == old(other.salt) && other.salt != null
            invariant forall k :: 0 <= k < i ==> salt[k] == mine[k] ^ theirs[k]
            invariant forall k :: i <= k < salt.Length ==> salt[k] == mine[k] && other.salt[k] == theirs[k]
          {
            salt[i] := salt[i] ^ other.salt[i];
          }
          assert salt[..] == Xor(mine, theirs);
        }
      }
    }

    /** The flag, the description, the signatures and the metadata. */
    method MergeHead(other: TimelockProposal)
      modifies this`overridePreviousRoot, this`description, this`signatures, this`metadata
      ensures overridePreviousRoot == (old(overridePreviousRoot) || old(other.overridePreviousRoot))
      ensures other != this ==> description == CombineDescription(old(description), other.description)
      ensures signatures == []
      ensures metadata == MergeMaps(old(metadata), old(other.metadata))
    {
      if overridePreviousRoot || other.overridePreviousRoot {
        overridePreviousRoot := true;
      }
      if other.description != "" {
        if description != "" {
          description := description + "\n";
        }
        description := description + other.description;
      }
      signatures := [];
      metadata := MergeMetadata(metadata, other.metadata);
    }

    /** The times, the addresses, the salt and the operations. */
    method MergeTail(other: TimelockProposal) returns (ok: bool)
      requires SaltsFit(SaltValue(), other.SaltValue())
      modifies this`validUntil, this`delay, this`addresses, this`operations, this`salt
      modifies if salt == null then {} else {salt}
      ensures ok <==> AddressesAgree(old(addresses), old(other.addresses))
      ensures ok ==> SaltValue() == CombineSalt(old(SaltValue()), old(other.SaltValue()))
      ensures ok ==> salt == if old(salt) == null then old(other.salt) else old(salt)
      ensures ok && other != this ==>
        && validUntil == Min(old(validUntil), other.validUntil) && delay == Max(old(delay), other.delay)
        && addresses == old(addresses) + other.addresses && operations == old(operations) + other.operations
    {
      validUntil := Min(validUntil, other.validUntil);
      delay := Max(delay, other.delay);
      ok := MergeAddresses(other.addresses);
      if ok {
        MergeSalt(other);
        operations := operations + other.operations;
      }
    }

    /** On failure the receiver may be partly changed, so nothing is promised about it. */
    method Merge(other: TimelockProposal) returns (ok: bool)
      requires SaltsFit(SaltValue(), other.SaltValue())
      modifies this, if salt == null then {} else {salt}
      ensures ok <==> CanMerge(old(View()), old(other.View()))
      ensures ok && other != this ==> View() == Combine(old(View()), old(other.View())).value
      ensures ok ==> signatures == [] && salt == if old(salt) == null then old(other.salt) else old(salt)
    {
      hide CombineChains, ChainsMergeable, MergeMaps, CombineDescription;
      if version != other.version || kind != other.kind || action != other.action {
        return false;
      }
      MergeHead(other);
      ok := MergeChains(other.chains);
      if ok {
        ok := MergeTail(other);
      }
    }
  }

  /** A salt adopted by one merge is shared: the next merge also rewrites the salt of the proposal it came from. */
  method AdoptedSaltIsShared(m: TimelockProposal, x: TimelockProposal, y: TimelockProposal) returns (ok: bool)
    requires m != x && m != y && x != y
    requires m.salt == null && x.salt != null && y.salt != null && x.salt != y.salt && x.salt.Length == y.salt.Length
    modifies m, x.salt
    ensures ok ==> x.salt == old(x.salt) && x.salt[..] == Xor(old(x.salt[..]), y.salt[..])
  {
    ok := m.Merge(x);
    if ok {
      ok := m.Merge(y);
    }
  }
}
