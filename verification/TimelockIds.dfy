/** Operation ids of timelock proposals: the per-chain predecessor chains built by `Convert` and
    `calcOperationIDs`, and derived proposals (timelock_proposal.go). */
module TimelockIds {

  import opened ByteStrings
  import opened GoTypes

  type Selector = nat

  /** A 32-byte word, read as a big-endian number. */
  type Hash = nat

  const ZERO: Hash := 0

  datatype Transaction = Transaction(to: string, data: seq<uint8>, additionalFields: string)

  datatype Batch = Batch(chain: Selector, transactions: seq<Transaction>)

  datatype Action = Schedule | Cancel | Bypass

  /** Chain families; any other has no operation ids. */
  datatype Family = Evm | Solana | Aptos | Sui | Ton | Canton | Unsupported

  /** The calls of a batch as its family encodes them. */
  type Calls = seq<uint8>

  /** What one operation id is a hash of. No family hashes the chain selector. */
  datatype Preimage = Preimage(calls: Calls, predecessor: Hash, salt: Hash)

  /** Each chain's family, and each family's encoding of transactions, which may fail, and hash. */
  datatype Env = Env(
    family: Selector -> Family,
    calls: (Family, seq<Transaction>) -> Option<Calls>,
    hash: (Family, Preimage) -> Hash)

  predicate Supported(env: Env, batch: Batch) {
    var family := env.family(batch.chain);
    family != Unsupported && env.calls(family, batch.transactions).Some?
  }

  /** The encoded calls; a batch that cannot be encoded has no id, so its value does not matter. */
  function CallsOf(env: Env, batch: Batch): Calls {
    match env.calls(env.family(batch.chain), batch.transactions)
    case Some(calls) => calls
    case None => []
  }

  /** Solana drops the predecessor of a bypass; in every other case the last id of the chain is hashed. */
  predicate Links(env: Env, chain: Selector, action: Action) {
    !(env.family(chain) == Solana && action == Bypass)
  }

  /** The hashed preimage of a batch. */
  function PreimageOf(env: Env, batch: Batch, action: Action, predecessor: Hash, salt: Hash): Preimage {
    Preimage(CallsOf(env, batch), if Links(env, batch.chain, action) then predecessor else ZERO, salt)
  }

  function IdOf(env: Env, batch: Batch, action: Action, predecessor: Hash, salt: Hash): Hash {
    env.hash(env.family(batch.chain), PreimageOf(env, batch, action, predecessor, salt))
  }

  datatype IdResult = Id(id: Hash) | Failed

  /** The chain family's `OperationID`. */
  function OperationId(env: Env, batch: Batch, action: Action, predecessor: Hash, salt: Hash): IdResult {
    if Supported(env, batch) then Id(IdOf(env, batch, action, predecessor, salt)) else Failed
  }

  // ----- the ids of a list of batches

  /** The id of the last batch on the chain, the zero hash if there is none. */
  ghost function LastId(ops: seq<Batch>, ids: seq<Hash>, chain: Selector): Hash
    requires |ops| == |ids|
  {
    if ops == [] then ZERO
    else if ops[|ops| - 1].chain == chain then ids[|ids| - 1]
    else LastId(ops[..|ops| - 1], ids[..|ids| - 1], chain)
  }

  ghost function Ids(env: Env, action: Action, salt: Hash, ops: seq<Batch>): (ids: seq<Hash>)
    ensures |ids| == |ops|
  {
    if ops == [] then []
    else
      var front, batch := ops[..|ops| - 1], ops[|ops| - 1];
      var before := Ids(env, action, salt, front);
      before + [IdOf(env, batch, action, LastId(front, before, batch.chain), salt)]
  }

  /** The predecessor of the `i`-th batch. */
  ghost function Predecessor(env: Env, action: Action, salt: Hash, ops: seq<Batch>, i: nat): Hash
    requires i < |ops|
  {
    LastId(ops[..i], Ids(env, action, salt, ops[..i]), ops[i].chain)
  }

  ghost function Predecessors(env: Env, action: Action, salt: Hash, ops: seq<Batch>): seq<Hash> {
    seq(|ops|, i requires 0 <= i < |ops| => Predecessor(env, action, salt, ops, i))
  }

  lemma {:induction false} IdsPrefix(env: Env, action: Action, salt: Hash, ops: seq<Batch>, n: nat)
    requires n <= |ops|
    ensures Ids(env, action, salt, ops)[..n] == Ids(env, action, salt, ops[..n])
    decreases |ops|
  {
    if n == |ops| {
      assert ops[..n] == ops;
    } else {
      assert ops[..|ops| - 1][..n] == ops[..n];
      IdsPrefix(env, action, salt, ops[..|ops| - 1], n);
    }
  }

  /** Each id hashes its own batch onto its predecessor. */
  lemma {:induction false} IdAt(env: Env, action: Action, salt: Hash, ops: seq<Batch>, i: nat)
    requires i < |ops|
    ensures Ids(env, action, salt, ops)[i]
         == IdOf(env, ops[i], action, Predecessor(env, action, salt, ops, i), salt)
  {
    hide IdOf, LastId;
    IdsPrefix(env, action, salt, ops, i + 1);
    assert ops[..i + 1][..i] == ops[..i] && ops[..i + 1][i] == ops[i];
    assert Ids(env, action, salt, ops)[..i + 1][i] == Ids(env, action, salt, ops[..i + 1])[i];
  }

  datatype Calculation = Calculated(ids: seq<Hash>, predecessors: seq<Hash>) | NoIds

  /** The loops' state after `i` batches. */
  ghost predicate Chained(env: Env, action: Action, salt: Hash, ops: seq<Batch>, i: nat,
                          ids: seq<Hash>, predecessors: seq<Hash>, lastOpId: map<Selector, Hash>)
  {
    && i <= |ops| && |ids| == i
    && ids == Ids(env, action, salt, ops[..i])
    && predecessors == Predecessors(env, action, salt, ops)[..i]
    && forall c :: Lookup(lastOpId, c) == LastId(ops[..i], ids, c)
  }

  lemma {:induction false} ChainedStart(env: Env, action: Action, salt: Hash, ops: seq<Batch>,
        lastOpId: map<Selector, Hash>)
    requires forall c :: c in lastOpId ==> lastOpId[c] == ZERO
    ensures Chained(env, action, salt, ops, 0, [], [], lastOpId)
  {
  }

  lemma {:induction false} ChainedStep(env: Env, action: Action, salt: Hash, ops: seq<Batch>, i: nat,
                    ids: seq<Hash>, predecessors: seq<Hash>, lastOpId: map<Selector, Hash>)
    requires i < |ops| && Chained(env, action, salt, ops, i, ids, predecessors, lastOpId)
    ensures var predecessor := Lookup(lastOpId, ops[i].chain);
      var id := IdOf(env, ops[i], action, predecessor, salt);
      Chained(env, action, salt, ops, i + 1, ids + [id], predecessors + [predecessor], lastOpId[ops[i].chain := id])
  {
    assert ops[..i + 1][..i] == ops[..i];
    var predecessor := Lookup(lastOpId, ops[i].chain);
    var id := IdOf(env, ops[i], action, predecessor, salt);
    var ps, more := Predecessors(env, action, salt, ops), ids + [id];
    assert more[..i] == ids;
    assert ps[i] == predecessor && ps[..i + 1] == ps[..i] + [ps[i]];
    var updated := lastOpId[ops[i].chain := id];
    assert forall c :: Lookup(updated, c) == LastId(ops[..i + 1], more, c);
  }

  method CalcOperationIds(env: Env, action: Action, salt: Hash, metadata: set<Selector>, ops: seq<Batch>)
    returns (r: Calculation)
    ensures r.Calculated? <==> forall k :: 0 <= k < |ops| ==>
      (env.family(ops[k].chain) != Unsupported && env.calls(env.family(ops[k].chain), ops[k].transactions).Some?)
    ensures r.Calculated? ==> r.ids == Ids(env, action, salt, ops)
    ensures r.Calculated? ==> r.predecessors == Predecessors(env, action, salt, ops)
  {
    var ids: seq<Hash>, predecessors: seq<Hash> := [], [];
    var lastOpId: map<Selector, Hash> := map sel | sel in metadata :: ZERO;
    ChainedStart(env, action, salt, ops, lastOpId);
    for i := 0 to |ops|
      invariant forall k :: 0 <= k < i ==> Supported(env, ops[k])
      invariant Chained(env, action, salt, ops, i, ids, predecessors, lastOpId)
    {
      var batch := ops[i];
      var predecessor := Lookup(lastOpId, batch.chain);
      var id := OperationId(env, batch, action, predecessor, salt);
      if id.Failed? {
        return NoIds;
      }
      ChainedStep(env, action, salt, ops, i, ids, predecessors, lastOpId);
      predecessors := predecessors + [predecessor];
      lastOpId := lastOpId[batch.chain := id.id];
      ids := ids + [id.id];
    }
    ChainedEnd(env, action, salt, ops, ids, predecessors, lastOpId);
    return Calculated(ids, predecessors);
  }

  // ----- conversion

  /** A converted MCMS operation, and the chain-specific conversion of one batch given its predecessor and id. */
  datatype Operation = Operation(chain: Selector, transaction: Transaction)

  datatype Converted =
    | Converted(operations: seq<Operation>, predecessors: seq<Hash>)
    | NoConverter
    | NoMetadata
    | ConversionFailed

  /** A family's conversion of one batch, given its predecessor and its id; it may fail for its own reasons. */
  type Converter = (Batch, Hash, Hash) -> Option<seq<Operation>>

  predicate Convertible(env: Env, converters: set<Selector>, metadata: set<Selector>, batch: Batch) {
    batch.chain in converters && batch.chain in metadata && Supported(env, batch)
  }

  /** The conversion of the `i`-th batch, with its own predecessor and id. */
  ghost function ConvertAt(env: Env, action: Action, salt: Hash, convert: Converter, ops: seq<Batch>, i: nat)
    : Option<seq<Operation>>
    requires i < |ops|
  {
    var predecessor := Predecessor(env, action, salt, ops, i);
    convert(ops[i], predecessor, IdOf(env, ops[i], action, predecessor, salt))
  }

  /** The operations of the first `n` batches, provided that all their conversions succeed. */
  ghost function ConvertFirst(env: Env, action: Action, salt: Hash, convert: Converter, ops: seq<Batch>, n: nat)
    : seq<Operation>
    requires n <= |ops|
  {
    if n == 0 then []
    else
      var last := ConvertAt(env, action, salt, convert, ops, n - 1);
      ConvertFirst(env, action, salt, convert, ops, n - 1) + if last.Some? then last.value else []
  }

  /** The `i`-th batch has a converter, metadata and an id, and its conversion succeeds. */
  ghost predicate Converts(env: Env, action: Action, salt: Hash, metadata: set<Selector>, converters: set<Selector>,
                           convert: Converter, ops: seq<Batch>, i: nat)
    requires i < |ops|
  {
    Convertible(env, converters, metadata, ops[i]) && ConvertAt(env, action, salt, convert, ops, i).Some?
  }

  datatype Step = Step(id: Hash, operations: seq<Operation>) | Stopped(r: Converted)

  /** The loop body: look up the converter and the metadata, then convert. */
  method ConvertOne(env: Env, action: Action, salt: Hash, metadata: set<Selector>, converters: set<Selector>,
                    convert: Converter, batch: Batch, predecessor: Hash)
    returns (step: Step)
    ensures var id := IdOf(env, batch, action, predecessor, salt);
      step == if !Convertible(env, converters, metadata, batch) || convert(batch, predecessor, id).None?
              then Stopped(if batch.chain !in converters then NoConverter
                           else if batch.chain !in metadata then NoMetadata else ConversionFailed)
              else Step(id, convert(batch, predecessor, id).value)
  {
    if batch.chain !in converters {
      return Stopped(NoConverter);
    }
    if batch.chain !in metadata {
      return Stopped(NoMetadata);
    }
    var id := OperationId(env, batch, action, predecessor, salt);
    if id.Failed? {
      return Stopped(ConversionFailed);
    }
    var converted := convert(batch, predecessor, id.id);
    return if converted.Some? then Step(id.id, converted.value) else Stopped(ConversionFailed);
  }

  /** `Convert`: the same chaining as `CalcOperationIds`, written as a second loop. */
  method Convert(env: Env, action: Action, salt: Hash, metadata: set<Selector>, converters: set<Selector>,
                 convert: Converter, ops: seq<Batch>)
    returns (r: Converted)
    ensures r.Converted? <==>
      forall k :: 0 <= k < |ops| ==> Converts(env, action, salt, metadata, converters, convert, ops, k)
    ensures r.Converted? ==>
      && r.predecessors == Predecessors(env, action, salt, ops)
      && r.operations == ConvertFirst(env, action, salt, convert, ops, |ops|)
  {
    hide Chained, Predecessor, Predecessors, IdOf, Convertible, ConvertAt;
    var predecessors: seq<Hash>, operations: seq<Operation> := [], [];
    ghost var ids: seq<Hash> := [];
    var lastOpId: map<Selector, Hash> := map sel | sel in metadata :: ZERO;
    ChainedStart(env, action, salt, ops, lastOpId);
    for i := 0 to |ops|
      invariant forall k :: 0 <= k < i ==> Converts(env, action, salt, metadata, converters, convert, ops, k)
      invariant Chained(env, action, salt, ops, i, ids, predecessors, lastOpId)
      invariant operations == ConvertFirst(env, action, salt, convert, ops, i)
    {
      var batch := ops[i];
      var predecessor := Lookup(lastOpId, batch.chain);
      ConvertsAt(env, action, salt, convert, ops, i, ids, predecessors, lastOpId);
      var step := ConvertOne(env, action, salt, metadata, converters, convert, batch, predecessor);
      if step.Stopped? {
        assert !Converts(env, action, salt, metadata, converters, convert, ops, i);
        return step.r;
      }
      ChainedStep(env, action, salt, ops, i, ids, predecessors, lastOpId);
      operations := operations + step.operations;
      predecessors := predecessors + [predecessor];
      ids := ids + [step.id];
      lastOpId := lastOpId[batch.chain := step.id];
    }
    ChainedEnd(env, action, salt, ops, ids, predecessors, lastOpId);
    return Converted(operations, predecessors);
  }

  /** Which batches convert, and with what: the selector needs a converter, metadata, a family and encodable calls, and
      the converter is given the batch, its predecessor and its own id, in this order. */
  lemma {:induction false} ConvertsIff(env: Env, action: Action, salt: Hash, metadata: set<Selector>,
                                       converters: set<Selector>, convert: Converter, ops: seq<Batch>, i: nat)
    requires i < |ops|
    ensures var converted := convert(ops[i], Predecessors(env, action, salt, ops)[i], Ids(env, action, salt, ops)[i]);
      Converts(env, action, salt, metadata, converters, convert, ops, i) <==>
        (ops[i].chain in converters && ops[i].chain in metadata && env.family(ops[i].chain) != Unsupported
         && env.calls(env.family(ops[i].chain), ops[i].transactions).Some? && converted.Some?)
    ensures Converts(env, action, salt, metadata, converters, convert, ops, i) ==>
      ConvertFirst(env, action, salt, convert, ops, i + 1)
      == ConvertFirst(env, action, salt, convert, ops, i)
         + convert(ops[i], Predecessors(env, action, salt, ops)[i], Ids(env, action, salt, ops)[i]).value
  {
    hide Ids, Predecessor, PreimageOf;
    IdAt(env, action, salt, ops, i);
  }

  /** What the loop looks up is the batch's predecessor. */
  lemma {:induction false} ConvertsAt(env: Env, action: Action, salt: Hash, convert: Converter, ops: seq<Batch>, i: nat,
                                      ids: seq<Hash>, predecessors: seq<Hash>, lastOpId: map<Selector, Hash>)
    requires i < |ops| && Chained(env, action, salt, ops, i, ids, predecessors, lastOpId)
    ensures Lookup(lastOpId, ops[i].chain) >= 0
    ensures var predecessor := Lookup(lastOpId, ops[i].chain);
      ConvertAt(env, action, salt, convert, ops, i)
      == convert(ops[i], predecessor, IdOf(env, ops[i], action, predecessor, salt))
  {
  }

  lemma {:induction false} ChainedEnd(env: Env, action: Action, salt: Hash, ops: seq<Batch>,
                                      ids: seq<Hash>, predecessors: seq<Hash>, lastOpId: map<Selector, Hash>)
    requires Chained(env, action, salt, ops, |ops|, ids, predecessors, lastOpId)
    ensures ids == Ids(env, action, salt, ops) && predecessors == Predecessors(env, action, salt, ops)
  {
    assert ops[..|ops|] == ops;
  }

  // ----- interleaving

  ghost function OnChain(ops: seq<Batch>, chain: Selector): seq<Batch> {
    if ops == [] then []
    else
      var front, last := ops[..|ops| - 1], ops[|ops| - 1];
      OnChain(front, chain) + if last.chain == chain then [last] else []
  }

  /** The ids of the chain's own batches, in order. */
  ghost function IdsOnChain(ops: seq<Batch>, ids: seq<Hash>, chain: Selector): seq<Hash>
    requires |ops| == |ids|
  {
    if ops == [] then []
    else
      var n := |ops| - 1;
      IdsOnChain(ops[..n], ids[..n], chain) + if ops[n].chain == chain then [ids[n]] else []
  }

  lemma {:induction false} LastOnChain(ops: seq<Batch>, ids: seq<Hash>, chain: Selector)
    requires |ops| == |ids|
    ensures |OnChain(ops, chain)| == |IdsOnChain(ops, ids, chain)|
    ensures forall b :: b in OnChain(ops, chain) ==> b.chain == chain
    ensures LastId(ops, ids, chain) == LastId(OnChain(ops, chain), IdsOnChain(ops, ids, chain), chain)
    decreases |ops|
  {
    if ops != [] {
      LastOnChain(ops[..|ops| - 1], ids[..|ids| - 1], chain);
    }
  }

  /** A chain's ids depend on that chain's batches alone, however the chains are interleaved. */
  lemma {:induction false} IdsIgnoreOtherChains(env: Env, action: Action, salt: Hash, ops: seq<Batch>, chain: Selector)
    ensures IdsOnChain(ops, Ids(env, action, salt, ops), chain) == Ids(env, action, salt, OnChain(ops, chain))
    decreases |ops|
  {
    if ops != [] {
      var front, last := ops[..|ops| - 1], ops[|ops| - 1];
      var before := Ids(env, action, salt, front);
      IdsIgnoreOtherChains(env, action, salt, front, chain);
      assert Ids(env, action, salt, ops)[..|front|] == before;
      if last.chain == chain {
        LastOnChain(front, before, chain);
        assert OnChain(ops, chain)[..|OnChain(front, chain)|] == OnChain(front, chain);
      } else {
        assert OnChain(ops, chain) == OnChain(front, chain);
        assert IdsOnChain(ops, Ids(env, action, salt, ops), chain) == IdsOnChain(front, before, chain);
      }
    }
  }

  // ----- distinctness

  ghost function PreimageAt(env: Env, action: Action, salt: Hash, ops: seq<Batch>, i: nat): Preimage
    requires i < |ops|
  {
    PreimageOf(env, ops[i], action, Predecessor(env, action, salt, ops, i), salt)
  }

  /** The preimages hashed for one chain's batches. */
  ghost function PreimagesOn(env: Env, action: Action, salt: Hash, ops: seq<Batch>, chain: Selector): set<Preimage> {
    set i | 0 <= i < |ops| && ops[i].chain == chain :: PreimageAt(env, action, salt, ops, i)
  }

  /** Of these preimages no two collide under the family's hash and none hashes to zero. */
  ghost predicate CollisionFree(env: Env, family: Family, ps: set<Preimage>) {
    && (forall p, q :: p in ps && q in ps && env.hash(family, p) == env.hash(family, q) ==> p == q)
    && (forall p :: p in ps ==> env.hash(family, p) != ZERO)
  }

  /** The index of the last batch on the chain before `i`, or -1. */
  ghost function Previous(ops: seq<Batch>, i: nat, chain: Selector): int
    requires i <= |ops|
    ensures -1 <= Previous(ops, i, chain) < i
    ensures Previous(ops, i, chain) >= 0 ==> ops[Previous(ops, i, chain)].chain == chain
    ensures forall k :: Previous(ops, i, chain) < k < i ==> ops[k].chain != chain
  {
    if i == 0 then -1 else if ops[i - 1].chain == chain then i - 1 else Previous(ops, i - 1, chain)
  }

  lemma {:induction false} PredecessorIsPrevious(env: Env, action: Action, salt: Hash, ops: seq<Batch>, i: nat,
        chain: Selector)
    requires i <= |ops|
    ensures LastId(ops[..i], Ids(env, action, salt, ops[..i]), chain)
         == var p := Previous(ops, i, chain); if p < 0 then ZERO else Ids(env, action, salt, ops)[p]
    decreases i
  {
    if i > 0 {
      IdsPrefix(env, action, salt, ops, i);
      IdsPrefix(env, action, salt, ops, i - 1);
      assert ops[..i][..i - 1] == ops[..i - 1];
      assert Ids(env, action, salt, ops[..i])[..i - 1] == Ids(env, action, salt, ops[..i - 1]);
      PredecessorIsPrevious(env, action, salt, ops, i - 1, chain);
    }
  }

  /** The calls of the chain's batches up to and including the `i`-th batch. */
  ghost function History(env: Env, ops: seq<Batch>, i: nat): (calls: seq<Calls>)
    requires i < |ops|
    ensures calls != []
    decreases i
  {
    var p := Previous(ops, i, ops[i].chain);
    (if p < 0 then [] else History(env, ops, p)) + [CallsOf(env, ops[i])]
  }

  /** Each preimage holds its calls and the previous id of its chain. */
  lemma {:induction false} PreimageIs(env: Env, action: Action, salt: Hash, ops: seq<Batch>, i: nat)
    requires i < |ops| && (action != Bypass || env.family(ops[i].chain) != Solana)
    ensures var p := Previous(ops, i, ops[i].chain);
      PreimageAt(env, action, salt, ops, i)
      == Preimage(CallsOf(env, ops[i]), if p < 0 then ZERO else Ids(env, action, salt, ops)[p], salt)
  {
    PredecessorIsPrevious(env, action, salt, ops, i, ops[i].chain);
  }

  /** What the id of the first batch of a chain hashes, and that of any batch of a Solana bypass: the calls, zero and
      the salt. */
  lemma {:induction false} IdOfFirst(env: Env, action: Action, salt: Hash, ops: seq<Batch>, i: nat, calls: Calls)
    requires i < |ops| && env.calls(env.family(ops[i].chain), ops[i].transactions) == Some(calls)
    requires (forall k :: 0 <= k < i ==> ops[k].chain != ops[i].chain)
             || (env.family(ops[i].chain) == Solana && action == Bypass)
    ensures Ids(env, action, salt, ops)[i] == env.hash(env.family(ops[i].chain), Preimage(calls, 0, salt))
  {
    hide Ids;
    IdAt(env, action, salt, ops, i);
    PredecessorIsPrevious(env, action, salt, ops, i, ops[i].chain);
  }

  /** What the id of any later batch hashes: the calls, the id of the batch before it on its chain, and the salt. */
  lemma {:induction false} IdOfNext(env: Env, action: Action, salt: Hash, ops: seq<Batch>, p: nat, i: nat, calls: Calls)
    requires p < i < |ops| && ops[p].chain == ops[i].chain
    requires forall k :: p < k < i ==> ops[k].chain != ops[i].chain
    requires env.calls(env.family(ops[i].chain), ops[i].transactions) == Some(calls)
    requires action != Bypass || env.family(ops[i].chain) != Solana
    ensures Ids(env, action, salt, ops)[i]
         == env.hash(env.family(ops[i].chain), Preimage(calls, Ids(env, action, salt, ops)[p], salt))
  {
    hide Ids;
    IdAt(env, action, salt, ops, i);
    PredecessorIsPrevious(env, action, salt, ops, i, ops[i].chain);
    assert Previous(ops, i, ops[i].chain) == p;
  }

  /** The predecessors returned are the previous ids themselves, for a Solana bypass too. */
  lemma {:induction false} PredecessorsAre(env: Env, action: Action, salt: Hash, ops: seq<Batch>, i: nat)
    requires i < |ops|
    ensures (forall k :: 0 <= k < i ==> ops[k].chain != ops[i].chain) ==> Predecessors(env, action, salt, ops)[i] == 0
    ensures forall p: nat :: p < i && ops[p].chain == ops[i].chain && NoneBetween(ops, p, i, ops[i].chain) ==>
      Predecessors(env, action, salt, ops)[i] == Ids(env, action, salt, ops)[p]
  {
    hide Ids;
    PredecessorIsPrevious(env, action, salt, ops, i, ops[i].chain);
  }

  ghost predicate NoneBetween(ops: seq<Batch>, p: nat, i: nat, chain: Selector)
    requires i <= |ops|
  {
    forall k :: p < k < i ==> ops[k].chain != chain
  }

  lemma {:induction false} IdIsHash(env: Env, action: Action, salt: Hash, ops: seq<Batch>, i: nat)
    requires i < |ops|
    ensures Ids(env, action, salt, ops)[i] == env.hash(env.family(ops[i].chain), PreimageAt(env, action, salt, ops, i))
    ensures PreimageAt(env, action, salt, ops, i) in PreimagesOn(env, action, salt, ops, ops[i].chain)
  {
    IdAt(env, action, salt, ops, i);
  }

  lemma {:induction false} HistoryEnds(h: seq<Calls>, x: Calls, k: seq<Calls>, y: Calls)
    ensures h + [x] == k + [y] <==> h == k && x == y
  {
    if h + [x] == k + [y] {
      assert (h + [x])[..|h|] == h && (k + [y])[..|k|] == k && (h + [x])[|h|] == x;
    }
  }

  /** The selector is not hashed: chains of one family whose histories have the same calls have the same ids. */
  lemma {:induction false} SameHistorySameId(env: Env, salt: Hash, a: Action, ops: seq<Batch>, i: nat,
                                             b: Action, others: seq<Batch>, j: nat)
    requires i < |ops| && j < |others|
    requires (a != Bypass && b != Bypass) || env.family(ops[i].chain) != Solana
    requires env.family(ops[i].chain) == env.family(others[j].chain)
    requires History(env, ops, i) == History(env, others, j)
    ensures Ids(env, a, salt, ops)[i] == Ids(env, b, salt, others)[j]
    decreases i
  {
    hide Ids, PreimageAt, PreimagesOn, CallsOf;
    var p, q := Previous(ops, i, ops[i].chain), Previous(others, j, others[j].chain);
    PreimageIs(env, a, salt, ops, i);
    PreimageIs(env, b, salt, others, j);
    IdIsHash(env, a, salt, ops, i);
    IdIsHash(env, b, salt, others, j);
    HistoryEnds(if p < 0 then [] else History(env, ops, p), CallsOf(env, ops[i]),
                if q < 0 then [] else History(env, others, q), CallsOf(env, others[j]));
    if p >= 0 && q >= 0 {
      SameHistorySameId(env, salt, a, ops, p, b, others, q);
    }
  }

  /** An id names the salt and the whole history of its chain: two ids that the same hash makes, on one chain or on two,
      in one proposal or in two, are equal exactly when the salts and the histories are. */
  lemma {:induction false} IdsNameHistories(env: Env, a: Action, s: Hash, ops: seq<Batch>, i: nat,
                                            b: Action, t: Hash, others: seq<Batch>, j: nat)
    requires i < |ops| && j < |others|
    requires (a != Bypass && b != Bypass) || env.family(ops[i].chain) != Solana
    requires env.family(ops[i].chain) == env.family(others[j].chain)
    requires CollisionFree(env, env.family(ops[i].chain),
                           PreimagesOn(env, a, s, ops, ops[i].chain) + PreimagesOn(env, b, t, others, others[j].chain))
    ensures Ids(env, a, s, ops)[i] == Ids(env, b, t, others)[j] <==>
      s == t && History(env, ops, i) == History(env, others, j)
    decreases i
  {
    hide Ids, PreimageAt, PreimagesOn, CallsOf;
    var p, q := Previous(ops, i, ops[i].chain), Previous(others, j, others[j].chain);
    var x, y := PreimageAt(env, a, s, ops, i), PreimageAt(env, b, t, others, j);
    PreimageIs(env, a, s, ops, i);
    PreimageIs(env, b, t, others, j);
    IdIsHash(env, a, s, ops, i);
    IdIsHash(env, b, t, others, j);
    assert Ids(env, a, s, ops)[i] == Ids(env, b, t, others)[j] <==> x == y;
    HistoryEnds(if p < 0 then [] else History(env, ops, p), CallsOf(env, ops[i]),
                if q < 0 then [] else History(env, others, q), CallsOf(env, others[j]));
    if p >= 0 {
      IdIsHash(env, a, s, ops, p);
    }
    if q >= 0 {
      IdIsHash(env, b, t, others, q);
    }
    if p >= 0 && q >= 0 {
      IdsNameHistories(env, a, s, ops, p, b, t, others, q);
    }
  }

  lemma {:induction false} HistoryLength(env: Env, ops: seq<Batch>, i: nat, j: nat)
    requires i < j < |ops| && ops[i].chain == ops[j].chain
    ensures |History(env, ops, i)| < |History(env, ops, j)|
    decreases j
  {
    var q := Previous(ops, j, ops[j].chain);
    assert q >= i;
    if i < q {
      HistoryLength(env, ops, i, q);
    }
  }

  /** Identical batches get different ids: on one chain all ids of a linking action are distinct. */
  lemma {:induction false} IdsDistinctOnChain(env: Env, action: Action, salt: Hash, ops: seq<Batch>, i: nat, j: nat)
    requires i < j < |ops| && ops[i].chain == ops[j].chain
    requires action != Bypass || env.family(ops[i].chain) != Solana
    requires CollisionFree(env, env.family(ops[i].chain), PreimagesOn(env, action, salt, ops, ops[i].chain))
    ensures Ids(env, action, salt, ops)[i] != Ids(env, action, salt, ops)[j]
  {
    var ps := PreimagesOn(env, action, salt, ops, ops[i].chain);
    assert ps + ps == ps;
    IdsNameHistories(env, action, salt, ops, i, action, salt, ops, j);
    HistoryLength(env, ops, i, j);
  }

  /** A Solana bypass does not chain: two ids agree exactly when the salts and the calls are the same. */
  lemma {:induction false} SolanaBypassIds(env: Env, s: Hash, ops: seq<Batch>, i: nat, t: Hash, others: seq<Batch>,
        j: nat)
    requires i < |ops| && j < |others|
    requires env.family(ops[i].chain) == env.family(others[j].chain) == Solana
    requires CollisionFree(env, Solana, {PreimageAt(env, Bypass, s, ops, i), PreimageAt(env, Bypass, t, others, j)})
    ensures Ids(env, Bypass, s, ops)[i] == Ids(env, Bypass, t, others)[j] <==>
      s == t && CallsOf(env, ops[i]) == CallsOf(env, others[j])
  {
    IdIsHash(env, Bypass, s, ops, i);
    IdIsHash(env, Bypass, t, others, j);
  }

  /** Proposals with different salts share no id on a chain, nor on two chains of one family. */
  lemma {:induction false} SaltsSeparateProposals(env: Env, a: Action, s: Hash, ops: seq<Batch>, i: nat,
                                                  b: Action, t: Hash, others: seq<Batch>, j: nat)
    requires i < |ops| && j < |others| && s != t
    requires env.family(ops[i].chain) == env.family(others[j].chain)
    requires CollisionFree(env, env.family(ops[i].chain),
                           {PreimageAt(env, a, s, ops, i), PreimageAt(env, b, t, others, j)})
    ensures Ids(env, a, s, ops)[i] != Ids(env, b, t, others)[j]
  {
    IdIsHash(env, a, s, ops, i);
    IdIsHash(env, b, t, others, j);
  }

  // ----- the salt

  /** The override, or the validity time in the first four of 32 bytes. */
  function Salt(saltOverride: Option<Hash>, validUntil: uint32): Hash {
    match saltOverride
    case Some(s) => s
    case None => validUntil * 0x1_00000000_00000000_00000000_00000000_00000000_00000000_00000000
  }

  /** Without an override the expiry fills the first four bytes and the other 28 are zero, so different expiries give
      different salts; an override is taken as it is. */
  lemma {:induction false} SaltBytes(o: Hash, validUntil: uint32, other: uint32)
    ensures Salt(Some(o), validUntil) == o
    ensures BigEndian(Salt(None, validUntil), 32) == BigEndian(validUntil, 4) + Zeros(28)
    ensures Salt(None, validUntil) == Salt(None, other) <==> validUntil == other
  {
    hide BigEndian, Zeros, Pow256;
    PowerOf28();
    BigEndianShift(validUntil, 4, 28);
  }

  // ----- derived proposals

  datatype ChainMetadata = ChainMetadata(startingOpCount: nat, mcmAddress: string, additionalFields: string)

  /** A Go map: copying the proposal struct copies the reference, not the entries. */
  class MetadataMap {
    var entries: map<Selector, ChainMetadata>

    constructor (entries: map<Selector, ChainMetadata>)
      ensures this.entries == entries
    {
      this.entries := entries;
    }
  }

  datatype Derived =
    | DerivedProposal(proposal: TimelockProposal)
    | NotSchedule
    | TimeOverflow
    | MissingAddress(chain: Selector)

  class TimelockProposal {
    const action: Action
    const validUntil: uint32
    const saltOverride: Option<Hash>
    const operations: seq<Batch>
    const chainMetadata: MetadataMap
    var signatures: seq<nat>

    constructor (action: Action, validUntil: uint32, saltOverride: Option<Hash>, operations: seq<Batch>,
                 chainMetadata: MetadataMap, signatures: seq<nat>)
      ensures this.action == action && this.validUntil == validUntil && this.saltOverride == saltOverride
      ensures this.operations == operations && this.chainMetadata == chainMetadata && this.signatures == signatures
    {
      this.action, this.validUntil, this.saltOverride := action, validUntil, saltOverride;
      this.operations, this.chainMetadata, this.signatures := operations, chainMetadata, signatures;
    }

    function ProposalSalt(): Hash {
      Salt(saltOverride, validUntil)
    }

    ghost function OperationIds(env: Env): seq<Hash> {
      Ids(env, action, ProposalSalt(), operations)
    }

    /** Overwrites every entry, in some order, and stops at the first chain without a replacement. */
    method ReplaceChainMetadata(addresses: map<Selector, ChainMetadata>) returns (missing: Option<Selector>)
      modifies chainMetadata
      ensures missing == None <==> old(chainMetadata.entries.Keys) <= addresses.Keys
      ensures missing.Some? ==> missing.value in old(chainMetadata.entries) && missing.value !in addresses
      ensures chainMetadata.entries.Keys == old(chainMetadata.entries.Keys)
      ensures forall c :: c in chainMetadata.entries ==>
        (chainMetadata.entries[c] == old(chainMetadata.entries)[c]
         || (c in addresses && chainMetadata.entries[c] == addresses[c]))
      ensures missing == None ==> forall c :: c in chainMetadata.entries ==> chainMetadata.entries[c] == addresses[c]
    {
      ghost var before := chainMetadata.entries;
      var todo := chainMetadata.entries.Keys;
      while todo != {}
        invariant todo <= before.Keys == chainMetadata.entries.Keys
        invariant forall c :: c in before && c !in todo ==> c in addresses && chainMetadata.entries[c] == addresses[c]
        invariant forall c :: c in todo ==> chainMetadata.entries[c] == before[c]
        decreases todo
      {
        var chain :| chain in todo;
        if chain !in addresses {
          return Some(chain);
        }
        chainMetadata.entries := chainMetadata.entries[chain := addresses[chain]];
        todo := todo - {chain};
      }
      return None;
    }

    /** The given proposal takes over the salt, the batches and the shared map, and carries no signature. */
    ghost predicate TakenOverBy(p: TimelockProposal)
      reads p
    {
      && p.ProposalSalt() == ProposalSalt() && p.operations == operations
      && p.signatures == [] && p.chainMetadata == chainMetadata
    }

    /** Copies the struct with the salt pinned; the metadata map stays shared, so the original sees the new
        metadata too. */
    method DeriveNewProposal(newAction: Action, expiry: int, addresses: map<Selector, ChainMetadata>)
      returns (r: Derived)
      modifies chainMetadata
      ensures r.DerivedProposal? <==> 0 <= expiry < TWO32 && old(chainMetadata.entries.Keys) <= addresses.Keys
      ensures r.DerivedProposal? ==>
        && fresh(r.proposal) && r.proposal.action == newAction && r.proposal.validUntil == expiry
        && TakenOverBy(r.proposal)
        && chainMetadata.entries == map c | c in old(chainMetadata.entries) :: addresses[c]
      ensures r.TimeOverflow? <==> !(0 <= expiry < TWO32)
      ensures r.MissingAddress? ==> r.chain in old(chainMetadata.entries) && r.chain !in addresses
      ensures !r.NotSchedule? && signatures == old(signatures)
    {
      if !(0 <= expiry < 0x1_0000_0000) {
        return TimeOverflow;
      }
      var proposal := new TimelockProposal(newAction, expiry, Some(ProposalSalt()), operations, chainMetadata, []);
      var missing := ReplaceChainMetadata(addresses);
      if missing.Some? {
        return MissingAddress(missing.value);
      }
      return DerivedProposal(proposal);
    }

    method DeriveCancellationProposal(expiry: int, addresses: map<Selector, ChainMetadata>, ghost env: Env)
      returns (r: Derived)
      modifies chainMetadata
      ensures r.DerivedProposal? <==>
        action == Schedule && 0 <= expiry < TWO32 && old(chainMetadata.entries.Keys) <= addresses.Keys
      ensures r.DerivedProposal? ==>
        && fresh(r.proposal) && r.proposal.action == Cancel && r.proposal.validUntil == expiry
        && TakenOverBy(r.proposal)
        && chainMetadata.entries == map c | c in old(chainMetadata.entries) :: addresses[c]
      ensures r.DerivedProposal? ==> r.proposal.OperationIds(env) == OperationIds(env)
      ensures r.NotSchedule? <==> action != Schedule
      ensures r.TimeOverflow? <==> action == Schedule && !(0 <= expiry < TWO32)
    {
      if action != Schedule {
        return NotSchedule;
      }
      r := DeriveNewProposal(Cancel, expiry, addresses);
      CancelKeepsIds(env, ProposalSalt(), operations);
    }

    method DeriveBypassProposal(expiry: int, addresses: map<Selector, ChainMetadata>) returns (r: Derived)
      modifies chainMetadata
      ensures r.DerivedProposal? <==>
        action == Schedule && 0 <= expiry < TWO32 && old(chainMetadata.entries.Keys) <= addresses.Keys
      ensures r.DerivedProposal? ==>
        && fresh(r.proposal) && r.proposal.action == Bypass && r.proposal.validUntil == expiry
        && TakenOverBy(r.proposal)
        && chainMetadata.entries == map c | c in old(chainMetadata.entries) :: addresses[c]
      ensures r.NotSchedule? <==> action != Schedule
      ensures r.TimeOverflow? <==> action == Schedule && !(0 <= expiry < TWO32)
    {
      if action != Schedule {
        return NotSchedule;
      }
      r := DeriveNewProposal(Bypass, expiry, addresses);
    }
  }

  /** A cancellation names exactly the operations of the schedule it came from. */
  lemma {:induction false} CancelKeepsIds(env: Env, salt: Hash, ops: seq<Batch>)
    ensures Ids(env, Cancel, salt, ops) == Ids(env, Schedule, salt, ops)
  {
    if ops != [] {
      CancelKeepsIds(env, salt, ops[..|ops| - 1]);
    }
  }

  /** On chains that always hash the predecessor, a bypass keeps the ids as well. */
  lemma {:induction false} BypassKeepsLinkedIds(env: Env, salt: Hash, ops: seq<Batch>, chain: Selector)
    requires env.family(chain) != Solana
    ensures IdsOnChain(ops, Ids(env, Bypass, salt, ops), chain) == IdsOnChain(ops, Ids(env, Schedule, salt, ops), chain)
    ensures LastId(ops, Ids(env, Bypass, salt, ops), chain) == LastId(ops, Ids(env, Schedule, salt, ops), chain)
  {
    if ops != [] {
      var front := ops[..|ops| - 1];
      BypassKeepsLinkedIds(env, salt, front, chain);
      assert Ids(env, Bypass, salt, ops)[..|front|] == Ids(env, Bypass, salt, front);
      assert Ids(env, Schedule, salt, ops)[..|front|] == Ids(env, Schedule, salt, front);
    }
  }

  /** On Solana it keeps an id exactly when the batch is the first of its chain. */
  lemma {:induction false} BypassKeepsSolanaIdsOfFirst(env: Env, salt: Hash, ops: seq<Batch>, i: nat)
    requires i < |ops| && env.family(ops[i].chain) == Solana
    requires CollisionFree(env, Solana, PreimagesOn(env, Schedule, salt, ops, ops[i].chain)
                                        + PreimagesOn(env, Bypass, salt, ops, ops[i].chain))
    ensures Ids(env, Bypass, salt, ops)[i] == Ids(env, Schedule, salt, ops)[i] <==> Previous(ops, i, ops[i].chain) < 0
  {
    hide Ids, PreimagesOn, CallsOf;
    var p := Previous(ops, i, ops[i].chain);
    IdIsHash(env, Bypass, salt, ops, i);
    IdIsHash(env, Schedule, salt, ops, i);
    PreimageIs(env, Schedule, salt, ops, i);
    if p >= 0 {
      IdIsHash(env, Schedule, salt, ops, p);
    }
  }
}
