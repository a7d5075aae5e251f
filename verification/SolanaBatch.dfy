/** Compiling a timelock batch into Solana instructions, and its account list (sdk/solana/timelock_converter.go). */
module SolanaBatch {
  import opened Chunking
  import opened GoTypes

  type Key = nat
  type Hash = nat

  datatype AccountMeta = AccountMeta(key: Key, signer: bool, writable: bool)

  /** One batched call: the program to invoke, its accounts and its data. */
  datatype Call = Call(program: Key, accounts: seq<AccountMeta>, data: seq<byte>)

  datatype Instruction =
    | InitializeOperation(id: Hash, predecessor: Hash, salt: Hash, count: nat)
    | InitializeBypasserOperation(id: Hash, salt: Hash, count: nat)
    | InitializeInstruction(bypasser: bool, id: Hash, program: Key, accounts: seq<AccountMeta>)
    | AppendInstructionData(bypasser: bool, id: Hash, index: nat, chunk: seq<byte>)
    | FinalizeOperation(bypasser: bool, id: Hash)
    | ScheduleBatch(id: Hash, delay: nat)
    | BypasserExecuteBatch(id: Hash, accounts: seq<AccountMeta>)

  /** `AppendIxDataChunkSize`, from the transaction size budget. */
  function ChunkSize(numProofs: int): int {
    1232 - 80 - (64 + numProofs * 32) - 1 - 1 - 1 - 1 - (1 + 5 + 6) * 32 - 32 - 1 - 2 - 2 - (1 + 5 + 6) - 1 - 64 - 7
  }

  lemma {:induction false} ChunkSizePositive(numProofs: int)
    ensures ChunkSize(numProofs) == 579 - 32 * numProofs
    ensures ChunkSize(numProofs) > 0 <==> numProofs <= 18
    ensures ChunkSize(numProofs) != 0
  {
  }

  // ----- the instruction stream

  ghost function AppendsOf(bypasser: bool, id: Hash, index: nat, pieces: seq<seq<byte>>): seq<Instruction> {
    seq(|pieces|, k requires 0 <= k < |pieces| => AppendInstructionData(bypasser, id, index % TWO32, pieces[k]))
  }

  /** The instructions that load the calls from the `i`-th on. */
  ghost function Load(bypasser: bool, id: Hash, calls: seq<Call>, i: nat, size: nat): seq<Instruction>
    requires size > 0 && i <= |calls|
    decreases |calls| - i
  {
    if i == |calls| then []
    else
      [InitializeInstruction(bypasser, id, calls[i].program, calls[i].accounts)]
      + AppendsOf(bypasser, id, i, Split(calls[i].data, size))
      + Load(bypasser, id, calls, i + 1, size)
  }

  lemma {:induction false} AppendsStep(bypasser: bool, id: Hash, index: nat, data: seq<byte>, offset: nat, end: nat,
        size: nat)
    requires size > 0 && offset < |data| && end == if offset + size <= |data| then offset + size else |data|
    ensures AppendsOf(bypasser, id, index, Split(data[offset..], size))
         == [AppendInstructionData(bypasser, id, index % TWO32, data[offset..end])]
            + AppendsOf(bypasser, id, index, Split(data[end..], size))
  {
    var rest := data[offset..];
    SplitStep(rest, size);
    assert rest[..end - offset] == data[offset..end] && rest[end - offset..] == data[end..];
  }

  datatype Compiled = Compiled(instructions: seq<Instruction>) | SliceOutOfRange

  /** Appends one call's data in chunks; a negative chunk size makes the slice bounds negative. */
  method AppendChunks(bypasser: bool, id: Hash, index: nat, data: seq<byte>, size: int)
    returns (ok: bool, out: seq<Instruction>)
    requires size != 0
    ensures ok <==> size > 0 || data == []
    ensures ok && size > 0 ==> out == AppendsOf(bypasser, id, index, Split(data, size))
    ensures ok && size < 0 ==> out == []
  {
    out := [];
    var offset := 0;
    while offset < |data|
      invariant 0 <= offset <= |data|
      invariant size > 0 ==>
        (out + AppendsOf(bypasser, id, index, Split(data[offset..], size))
         == AppendsOf(bypasser, id, index, Split(data, size)))
      invariant size < 0 ==> offset == 0 && out == []
    {
      var end := if offset + size <= |data| then offset + size else |data|;
      if end < offset {
        return false, [];
      }
      if size > 0 {
        AppendsStep(bypasser, id, index, data, offset, end, size);
      }
      out := out + [AppendInstructionData(bypasser, id, index % TWO32, data[offset..end])];
      offset := end;
    }
    return true, out;
  }

  /** The loop over the batch's calls. */
  method LoadCalls(bypasser: bool, id: Hash, calls: seq<Call>, size: int) returns (ok: bool, out: seq<Instruction>)
    requires size != 0
    ensures ok <==> size > 0 || forall c :: c in calls ==> c.data == []
    ensures ok && size > 0 ==> out == Load(bypasser, id, calls, 0, size)
  {
    out := [];
    for i := 0 to |calls|
      invariant size > 0 || forall k :: 0 <= k < i ==> calls[k].data == []
      invariant size > 0 ==> out + Load(bypasser, id, calls, i, size) == Load(bypasser, id, calls, 0, size)
    {
      var init := InitializeInstruction(bypasser, id, calls[i].program, calls[i].accounts);
      var appended, appends := AppendChunks(bypasser, id, i, calls[i].data, size);
      if !appended {
        return false, [];
      }
      if size > 0 {
        LoadStep(out, bypasser, id, calls, i, size);
      }
      out := out + [init] + appends;
    }
    return true, out;
  }

  lemma {:induction false} LoadStep(before: seq<Instruction>, bypasser: bool, id: Hash, calls: seq<Call>, i: nat,
        size: nat)
    requires size > 0 && i < |calls|
    ensures before + Load(bypasser, id, calls, i, size)
         == before + [InitializeInstruction(bypasser, id, calls[i].program, calls[i].accounts)]
            + AppendsOf(bypasser, id, i, Split(calls[i].data, size)) + Load(bypasser, id, calls, i + 1, size)
  {
  }

  ghost function ScheduleStream(id: Hash, predecessor: Hash, salt: Hash, delay: nat, calls: seq<Call>,
        size: nat): seq<Instruction>
    requires size > 0
  {
    [InitializeOperation(id, predecessor, salt, |calls| % TWO32)] + Load(false, id, calls, 0, size)
    + [FinalizeOperation(false, id), ScheduleBatch(id, delay)]
  }

  ghost function BypassStream(id: Hash, salt: Hash, calls: seq<Call>, size: nat,
        accounts: seq<AccountMeta>): seq<Instruction>
    requires size > 0
  {
    [InitializeBypasserOperation(id, salt, |calls| % TWO32)] + Load(true, id, calls, 0, size)
    + [FinalizeOperation(true, id), BypasserExecuteBatch(id, accounts)]
  }

  /** Succeeds when the chunk size is positive or no call has data; otherwise slicing panics. */
  method ScheduleBatchInstructions(id: Hash, predecessor: Hash, salt: Hash, delay: nat, calls: seq<Call>,
        numProofs: int)
    returns (r: Compiled)
    ensures r.Compiled? <==> numProofs <= 18 || forall c :: c in calls ==> c.data == []
    ensures numProofs <= 18 ==> r == Compiled(ScheduleStream(id, predecessor, salt, delay, calls, ChunkSize(numProofs)))
  {
    var instructions := [InitializeOperation(id, predecessor, salt, |calls| % TWO32)];
    var ok, loads := LoadCalls(false, id, calls, ChunkSize(numProofs));
    if !ok {
      return SliceOutOfRange;
    }
    instructions := instructions + loads;
    instructions := instructions + [FinalizeOperation(false, id)];
    instructions := instructions + [ScheduleBatch(id, delay)];
    return Compiled(instructions);
  }

  /** `fixed` are the accounts the builder lists itself, ahead of the batch's own. */
  method BypassInstructions(id: Hash, salt: Hash, calls: seq<Call>, numProofs: int,
                            fixed: seq<AccountMeta>, remaining: seq<AccountMeta>) returns (r: Compiled)
    ensures r.Compiled? <==> numProofs <= 18 || forall c :: c in calls ==> c.data == []
    ensures numProofs <= 18 ==>
      r == Compiled(BypassStream(id, salt, calls, ChunkSize(numProofs), Synced(fixed + remaining)))
  {
    var instructions := [InitializeBypasserOperation(id, salt, |calls| % TWO32)];
    var ok, loads := LoadCalls(true, id, calls, ChunkSize(numProofs));
    if !ok {
      return SliceOutOfRange;
    }
    instructions := instructions + loads;
    instructions := instructions + [FinalizeOperation(true, id)];
    var accounts := SyncWritableAttribute(fixed + remaining);
    instructions := instructions + [BypasserExecuteBatch(id, accounts)];
    return Compiled(instructions);
  }

  // ----- replaying the stream on an operation account

  datatype Ending = Pending | Final | Scheduled(delay: nat) | Executed(accounts: seq<AccountMeta>)

  /** The account an instruction stream builds; `total` is the announced number of calls. */
  datatype Operation =
    | NoOperation
    | Operation(bypasser: bool, id: Hash, predecessor: Hash, salt: Hash, total: nat, calls: seq<Call>, ending: Ending)
    | Refused

  /** Loading is allowed only before finalizing, finalizing only when complete, and execution only after it. */
  function Run(ix: Instruction, op: Operation): Operation {
    match ix
    case InitializeOperation(id, predecessor, salt, count) =>
      if op.NoOperation? then Operation(false, id, predecessor, salt, count, [], Pending) else Refused
    case InitializeBypasserOperation(id, salt, count) =>
      if op.NoOperation? then Operation(true, id, 0, salt, count, [], Pending) else Refused
    case InitializeInstruction(bypasser, id, program, accounts) =>
      if Accepts(op, bypasser, id, Pending) && |op.calls| < op.total
      then op.(calls := op.calls + [Call(program, accounts, [])]) else Refused
    case AppendInstructionData(bypasser, id, index, chunk) =>
      if Accepts(op, bypasser, id, Pending) && index < |op.calls| && chunk != []
      then op.(calls := op.calls[index := op.calls[index].(data := op.calls[index].data + chunk)]) else Refused
    case FinalizeOperation(bypasser, id) =>
      if Accepts(op, bypasser, id, Pending) && |op.calls| == op.total then op.(ending := Final) else Refused
    case ScheduleBatch(id, delay) =>
      if Accepts(op, false, id, Final) then op.(ending := Scheduled(delay)) else Refused
    case BypasserExecuteBatch(id, accounts) =>
      if Accepts(op, true, id, Final) then op.(ending := Executed(accounts)) else Refused
  }

  predicate Accepts(op: Operation, bypasser: bool, id: Hash, ending: Ending) {
    op.Operation? && op.bypasser == bypasser && op.id == id && op.ending == ending
  }

  function Replay(stream: seq<Instruction>, op: Operation): Operation {
    if stream == [] then op else Replay(stream[1..], Run(stream[0], op))
  }

  lemma {:induction false} ReplayConcat(s: seq<Instruction>, t: seq<Instruction>, op: Operation)
    ensures Replay(s + t, op) == Replay(t, Replay(s, op))
    decreases |s|
  {
    if s == [] {
      assert s + t == t;
    } else {
      assert (s + t)[1..] == s[1..] + t;
      ReplayConcat(s[1..], t, Run(s[0], op));
    }
  }

  /** The operation after the first `n` calls are loaded. */
  ghost function Loaded(op: Operation, calls: seq<Call>, n: nat): Operation
    requires op.Operation? && n <= |calls|
  {
    op.(calls := calls[..n])
  }

  lemma {:induction false} ReplayAppends(op: Operation, index: nat, pieces: seq<seq<byte>>)
    requires op.Operation? && op.ending == Pending && index < |op.calls| <= TWO32
    requires forall k :: 0 <= k < |pieces| ==> pieces[k] != []
    ensures Replay(AppendsOf(op.bypasser, op.id, index, pieces), op)
         == op.(calls := op.calls[index := op.calls[index].(data := op.calls[index].data + Joined(pieces))])
    decreases |pieces|
  {
    var stream := AppendsOf(op.bypasser, op.id, index, pieces);
    var data := op.calls[index].data;
    if pieces == [] {
      assert data + [] == data;
    } else {
      var next := Run(stream[0], op);
      assert stream[1..] == AppendsOf(op.bypasser, op.id, index, pieces[1..]);
      ReplayAppends(next, index, pieces[1..]);
      assert data + pieces[0] + Joined(pieces[1..]) == data + Joined(pieces);
    }
  }

  lemma {:induction false} PiecesNonEmpty(data: seq<byte>, size: nat)
    requires size > 0
    ensures forall k :: 0 <= k < |Split(data, size)| ==> Split(data, size)[k] != [] && |Split(data, size)[k]| <= size
    decreases |data|
  {
    if |data| > size {
      PiecesNonEmpty(data[size..], size);
    }
  }

  lemma {:induction false} ReplayLoad(op: Operation, calls: seq<Call>, i: nat, size: nat)
    requires op.Operation? && op.ending == Pending && op.total == |calls| < TWO32 && size > 0 && i <= |calls|
    ensures Replay(Load(op.bypasser, op.id, calls, i, size), Loaded(op, calls, i)) == Loaded(op, calls, |calls|)
    decreases |calls| - i
  {
    if i < |calls| {
      var c, start := calls[i], Loaded(op, calls, i);
      var init := InitializeInstruction(op.bypasser, op.id, c.program, c.accounts);
      var pieces := Split(c.data, size);
      var appends, rest := AppendsOf(op.bypasser, op.id, i, pieces), Load(op.bypasser, op.id, calls, i + 1, size);
      var started := start.(calls := start.calls + [Call(c.program, c.accounts, [])]);
      assert Replay([init], start) == started;
      PiecesNonEmpty(c.data, size);
      SplitJoins(c.data, size);
      ReplayAppends(started, i, pieces);
      assert [] + c.data == c.data;
      assert started.calls[i := c] == calls[..i + 1];
      ReplayConcat([init], appends, start);
      ReplayConcat([init] + appends, rest, start);
      ReplayLoad(op, calls, i + 1, size);
    }
  }

  lemma {:induction false} ReplayTwo(tail: seq<Instruction>, op: Operation)
    requires |tail| == 2
    ensures Replay(tail, op) == Run(tail[1], Run(tail[0], op))
  {
    assert Replay(tail[1..][1..], Run(tail[1], Run(tail[0], op))) == Run(tail[1], Run(tail[0], op));
  }

  /** Replaying a schedule stream rebuilds exactly the batch, its data included, and schedules it. */
  lemma {:induction false} ReplaySchedule(id: Hash, predecessor: Hash, salt: Hash, delay: nat, calls: seq<Call>,
        size: nat)
    requires size > 0 && |calls| < TWO32
    ensures Replay(ScheduleStream(id, predecessor, salt, delay, calls, size), NoOperation)
         == Operation(false, id, predecessor, salt, |calls|, calls, Scheduled(delay))
  {
    var init := InitializeOperation(id, predecessor, salt, |calls| % TWO32);
    var op := Run(init, NoOperation);
    var tail := [FinalizeOperation(false, id), ScheduleBatch(id, delay)];
    ReplayStream(init, op, calls, size, tail);
    var full := op.(calls := calls);
    ReplayTwo(tail, full);
  }

  /** Replaying a bypass stream rebuilds exactly the batch and executes it with the given accounts. */
  lemma {:induction false} ReplayBypass(id: Hash, salt: Hash, calls: seq<Call>, size: nat, accounts: seq<AccountMeta>)
    requires size > 0 && |calls| < TWO32
    ensures Replay(BypassStream(id, salt, calls, size, accounts), NoOperation)
         == Operation(true, id, 0, salt, |calls|, calls, Executed(accounts))
  {
    var init := InitializeBypasserOperation(id, salt, |calls| % TWO32);
    var op := Run(init, NoOperation);
    var tail := [FinalizeOperation(true, id), BypasserExecuteBatch(id, accounts)];
    ReplayStream(init, op, calls, size, tail);
    var full := op.(calls := calls);
    ReplayTwo(tail, full);
  }

  lemma {:induction false} ReplayStream(init: Instruction, op: Operation, calls: seq<Call>, size: nat,
        tail: seq<Instruction>)
    requires size > 0 && |calls| < TWO32
    requires op == Run(init, NoOperation)
    requires op.Operation? && op.ending == Pending && op.calls == [] && op.total == |calls|
    ensures Replay([init] + Load(op.bypasser, op.id, calls, 0, size) + tail, NoOperation)
         == Replay(tail, op.(calls := calls))
  {
    var load := Load(op.bypasser, op.id, calls, 0, size);
    assert Replay([init], NoOperation) == op;
    ReplayConcat([init], load, NoOperation);
    ReplayConcat([init] + load, tail, NoOperation);
    assert Loaded(op, calls, 0) == op && Loaded(op, calls, |calls|) == op.(calls := calls);
    ReplayLoad(op, calls, 0, size);
  }

  /** Final only when every announced call is there; scheduled or executed according to its kind. */
  ghost predicate Sound(op: Operation) {
    op.Operation? ==>
      && (op.ending != Pending ==> |op.calls| == op.total)
      && (op.ending.Scheduled? ==> !op.bypasser)
      && (op.ending.Executed? ==> op.bypasser)
  }

  /** Whatever instructions are replayed, in whatever order, nothing incomplete is ever scheduled or executed. */
  lemma {:induction false} EveryReplayIsSound(stream: seq<Instruction>, op: Operation)
    requires Sound(op)
    ensures Sound(Replay(stream, op))
    decreases |stream|
  {
    if stream != [] {
      EveryReplayIsSound(stream[1..], Run(stream[0], op));
    }
  }

  // ----- its length

  /** One instruction to open each call and one for every `size` bytes begun. */
  ghost function LoadCount(calls: seq<Call>, size: nat): nat
    requires size > 0
  {
    if calls == [] then 0
    else LoadCount(calls[..|calls| - 1], size) + 1 + (|calls[|calls| - 1].data| + size - 1) / size
  }

  lemma {:induction false} LoadLength(bypasser: bool, id: Hash, calls: seq<Call>, i: nat, size: nat)
    requires size > 0 && i <= |calls|
    ensures LoadCount(calls[..i], size) + |Load(bypasser, id, calls, i, size)| == LoadCount(calls, size)
    decreases |calls| - i
  {
    if i == |calls| {
      assert calls[..i] == calls;
    } else {
      SplitCount(calls[i].data, size);
      assert calls[..i + 1][..i] == calls[..i];
      LoadLength(bypasser, id, calls, i + 1, size);
    }
  }

  lemma {:induction false} StreamLength(id: Hash, predecessor: Hash, salt: Hash, delay: nat, calls: seq<Call>,
        size: nat, accounts: seq<AccountMeta>)
    requires size > 0
    ensures |ScheduleStream(id, predecessor, salt, delay, calls, size)| == 3 + LoadCount(calls, size)
    ensures |BypassStream(id, salt, calls, size, accounts)| == 3 + LoadCount(calls, size)
  {
    assert calls[..0] == [];
    LoadLength(false, id, calls, 0, size);
    LoadLength(true, id, calls, 0, size);
  }

  /** Every appended chunk is non-empty and fits the budget. */
  lemma {:induction false} ChunksFit(bypasser: bool, id: Hash, calls: seq<Call>, i: nat, size: nat, k: nat)
    requires size > 0 && i <= |calls| && k < |Load(bypasser, id, calls, i, size)|
    ensures var ix := Load(bypasser, id, calls, i, size)[k]; ix.AppendInstructionData? ==> 0 < |ix.chunk| <= size
    decreases |calls| - i
  {
    var pieces := Split(calls[i].data, size);
    PiecesNonEmpty(calls[i].data, size);
    if k > |pieces| {
      ChunksFit(bypasser, id, calls, i + 1, size, k - 1 - |pieces|);
    }
  }

  // ----- account lists

  /** Some entry for the key is writable. */
  predicate WritableSomewhere(accounts: seq<AccountMeta>, key: Key) {
    exists i :: 0 <= i < |accounts| && accounts[i].key == key && accounts[i].writable
  }

  /** Every entry takes the strongest writable flag of its key. */
  function Synced(accounts: seq<AccountMeta>): (r: seq<AccountMeta>)
    ensures |r| == |accounts|
  {
    seq(|accounts|, i requires 0 <= i < |accounts| =>
      accounts[i].(writable := WritableSomewhere(accounts, accounts[i].key)))
  }

  method SyncWritableAttribute(accounts: seq<AccountMeta>) returns (synced: seq<AccountMeta>)
    ensures synced == Synced(accounts)
  {
    var writable: map<Key, bool> := map[];
    for i := 0 to |accounts|
      invariant forall k :: 0 <= k < i ==> accounts[k].key in writable
      invariant forall key :: key in writable ==> writable[key] == WritableSomewhere(accounts[..i], key)
    {
      var a := accounts[i];
      var before := if a.key in writable then writable[a.key] else false;
      WritableSnoc(accounts, i);
      writable := writable[a.key := before || a.writable];
    }
    assert accounts[..|accounts|] == accounts;
    synced := [];
    for i := 0 to |accounts|
      invariant synced == Synced(accounts)[..i]
    {
      synced := synced + [accounts[i].(writable := writable[accounts[i].key])];
    }
  }

  lemma {:induction false} WritableSnoc(accounts: seq<AccountMeta>, i: nat)
    requires i < |accounts|
    ensures forall key :: WritableSomewhere(accounts[..i + 1], key) <==>
      (WritableSomewhere(accounts[..i], key) || (accounts[i].key == key && accounts[i].writable))
  {
    var now, before := accounts[..i + 1], accounts[..i];
    forall key
      ensures WritableSomewhere(now, key) <==>
        (WritableSomewhere(before, key) || (accounts[i].key == key && accounts[i].writable))
    {
      if WritableSomewhere(before, key) {
        var k :| 0 <= k < i && before[k].key == key && before[k].writable;
        assert now[k].key == key && now[k].writable;
      }
      if WritableSomewhere(now, key) {
        var k :| 0 <= k <= i && now[k].key == key && now[k].writable;
        assert k < i ==> before[k].key == key && before[k].writable;
      }
      assert now[i] == accounts[i];
    }
  }

  /** Keys in the order of their first occurrence. */
  ghost function FirstKeys(accounts: seq<AccountMeta>): seq<Key> {
    if accounts == [] then []
    else
      var keys, last := FirstKeys(accounts[..|accounts| - 1]), accounts[|accounts| - 1].key;
      if last in keys then keys else keys + [last]
  }

  lemma {:induction false} FirstKeysDistinct(accounts: seq<AccountMeta>)
    ensures forall i, j :: 0 <= i < j < |FirstKeys(accounts)| ==> FirstKeys(accounts)[i] != FirstKeys(accounts)[j]
    ensures forall k :: k in FirstKeys(accounts) <==> exists i :: 0 <= i < |accounts| && accounts[i].key == k
  {
    if accounts != [] {
      var front := accounts[..|accounts| - 1];
      FirstKeysDistinct(front);
      assert accounts == front + [accounts[|accounts| - 1]];
    }
  }

  /** An account of the list under construction, shared by the map and the list. */
  class Entry {
    const key: Key
    var signer: bool
    var writable: bool

    constructor (key: Key, writable: bool)
      ensures this.key == key && !this.signer && this.writable == writable
    {
      this.key, this.signer, this.writable := key, false, writable;
    }
  }

  /** Each program id followed by its accounts, over the whole batch. */
  function AccountsOf(calls: seq<Call>): seq<AccountMeta> {
    if calls == [] then []
    else
      var last := calls[|calls| - 1];
      AccountsOf(calls[..|calls| - 1]) + [AccountMeta(last.program, false, false)] + last.accounts
  }

  lemma {:induction false} NewKeyNotWritable(accounts: seq<AccountMeta>, key: Key)
    requires key !in FirstKeys(accounts)
    ensures !WritableSomewhere(accounts, key)
  {
    FirstKeysDistinct(accounts);
  }

  method FlattenAccounts(calls: seq<Call>) returns (all: seq<AccountMeta>)
    ensures all == AccountsOf(calls)
  {
    all := [];
    for i := 0 to |calls|
      invariant all == AccountsOf(calls[..i])
    {
      assert calls[..i + 1][..i] == calls[..i];
      all := all + [AccountMeta(calls[i].program, false, false)];
      all := all + calls[i].accounts;
    }
    assert calls[..|calls|] == calls;
  }

  /** The list holds one entry a key of `all`, in first-occurrence order: never a signer, and writable if
      any occurrence is. */
  ghost predicate IsUnique(unique: seq<Entry>, all: seq<AccountMeta>)
    reads unique
  {
    && |unique| == |FirstKeys(all)|
    && forall k :: 0 <= k < |unique| ==>
         && unique[k].key == FirstKeys(all)[k]
         && !unique[k].signer
         && unique[k].writable == WritableSomewhere(all, unique[k].key)
  }

  method UniqueAccounts(calls: seq<Call>) returns (unique: seq<Entry>)
    ensures forall e :: e in unique ==> fresh(e) && !e.signer
    ensures forall e :: e in unique ==>
      (e.writable <==> exists a :: a in AccountsOf(calls) && a.key == e.key && a.writable)
    ensures IsUnique(unique, AccountsOf(calls))
  {
    hide FirstKeys;
    var all := FlattenAccounts(calls);
    unique := Deduplicate(all);
    assert forall key, a :: a in all && a.key == key && a.writable ==> WritableSomewhere(all, key);
  }

  lemma {:induction false} NoKeys()
    ensures FirstKeys([]) == []
  {
  }

  lemma {:induction false} FirstKeysSnoc(all: seq<AccountMeta>, i: nat)
    requires i < |all|
    ensures var keys := FirstKeys(all[..i]);
      FirstKeys(all[..i + 1]) == if all[i].key in keys then keys else keys + [all[i].key]
  {
    assert all[..i + 1][..i] == all[..i];
  }

  method Deduplicate(all: seq<AccountMeta>) returns (unique: seq<Entry>)
    ensures forall e :: e in unique ==> fresh(e)
    ensures IsUnique(unique, all)
  {
    hide FirstKeys, WritableSomewhere;
    var accountsMap: map<Key, Entry> := map[];
    unique := [];
    NoKeys();
    for i := 0 to |all|
      invariant forall e :: e in unique ==> fresh(e)
      invariant IsUnique(unique, all[..i])
      invariant forall k :: k in accountsMap ==> accountsMap[k] in unique && accountsMap[k].key == k
      invariant forall k :: 0 <= k < |unique| ==>
        unique[k].key in accountsMap && accountsMap[unique[k].key] == unique[k]
    {
      var account := all[i];
      ghost var keys := FirstKeys(all[..i]);
      FirstKeysSnoc(all, i);
      WritableSnoc(all, i);
      if account.key in accountsMap {
        var existing := accountsMap[account.key];
        existing.writable := existing.writable || account.writable;
        assert account.key in keys;
      } else {
        assert account.key !in keys;
        NewKeyNotWritable(all[..i], account.key);
        var entry := new Entry(account.key, account.writable);
        accountsMap := accountsMap[account.key := entry];
        unique := unique + [entry];
      }
    }
    assert all[..|all|] == all;
  }

  /** Marks the payer's entry, if there is one, as a signer. */
  method ApplyExecutePayer(accounts: seq<Entry>, payer: Key)
    requires forall i, j :: 0 <= i < j < |accounts| ==> accounts[i].key != accounts[j].key
    modifies accounts
    ensures forall e :: e in accounts ==> e.writable == old(e.writable) && e.signer == (old(e.signer) || e.key == payer)
  {
    for i := 0 to |accounts|
      invariant forall k :: 0 <= k < i ==> accounts[k].key != payer
      invariant forall e :: e in accounts ==> e.writable == old(e.writable) && e.signer == old(e.signer)
    {
      if accounts[i].key == payer {
        accounts[i].signer := true;
        assert forall k :: 0 <= k < |accounts| && k != i ==> accounts[k].key != payer;
        return;
      }
    }
  }

  /** Each entry keeps its key and its signer flag, and is writable exactly if some entry with its key was. */
  lemma {:induction false} SyncedIs(accounts: seq<AccountMeta>, i: nat)
    requires i < |accounts|
    ensures |Synced(accounts)| == |accounts|
    ensures Synced(accounts)[i].key == accounts[i].key && Synced(accounts)[i].signer == accounts[i].signer
    ensures Synced(accounts)[i].writable <==>
      exists j :: 0 <= j < |accounts| && accounts[j].key == accounts[i].key && accounts[j].writable
  {
  }

  /** One entry a call for its program, and the call's own accounts. */
  ghost function EntriesBefore(calls: seq<Call>, i: nat): nat
    requires i <= |calls|
  {
    if i == 0 then 0 else EntriesBefore(calls, i - 1) + 1 + |calls[i - 1].accounts|
  }

  /** Call by call, the account list holds the program, neither signer nor writable, and then the call's accounts. */
  lemma {:induction false} AccountsAre(calls: seq<Call>, i: nat)
    requires i < |calls|
    ensures var all, k := AccountsOf(calls), EntriesBefore(calls, i);
      |all| == EntriesBefore(calls, |calls|) && k < |all|
      && all[k] == AccountMeta(calls[i].program, false, false) && calls[i].accounts <= all[k + 1..]
    decreases |calls|
  {
    var front, last := calls[..|calls| - 1], calls[|calls| - 1];
    AccountsCount(front);
    SameBefore(calls, |front|);
    if i < |front| {
      AccountsAre(front, i);
      SameBefore(calls, i);
    }
  }

  lemma {:induction false} AccountsCount(calls: seq<Call>)
    ensures |AccountsOf(calls)| == EntriesBefore(calls, |calls|)
    decreases |calls|
  {
    if calls != [] {
      AccountsCount(calls[..|calls| - 1]);
      SameBefore(calls, |calls| - 1);
    }
  }

  lemma {:induction false} SameBefore(calls: seq<Call>, i: nat)
    requires i < |calls|
    ensures EntriesBefore(calls[..|calls| - 1], i) == EntriesBefore(calls, i)
  {
    if i > 0 {
      SameBefore(calls, i - 1);
    }
  }

  /** The key occurs before any occurrence of the other. */
  ghost predicate ComesFirst(all: seq<AccountMeta>, key: Key, other: Key) {
    exists i :: 0 <= i < |all| && all[i].key == key && forall h :: 0 <= h <= i ==> all[h].key != other
  }

  /** Of two keys the one in front occurs first. */
  lemma {:induction false} FirstKeysOrdered(all: seq<AccountMeta>, j: nat, k: nat) returns (i: nat)
    requires j < k < |FirstKeys(all)|
    ensures i < |all| && all[i].key == FirstKeys(all)[j]
    ensures forall h :: 0 <= h <= i ==> all[h].key != FirstKeys(all)[k]
    decreases |all|
  {
    var front := all[..|all| - 1];
    var keys := FirstKeys(front);
    FirstKeysDistinct(front);
    if k < |keys| {
      i := FirstKeysOrdered(front, j, k);
    } else {
      assert keys[j] in keys;
      i :| 0 <= i < |front| && front[i].key == keys[j];
    }
  }

  /** The keys of an account list are all there, none twice, in the order in which they first occur. */
  lemma {:induction false} FirstKeysAre(all: seq<AccountMeta>)
    ensures forall key :: key in FirstKeys(all) <==> exists i :: 0 <= i < |all| && all[i].key == key
    ensures forall j, k :: 0 <= j < k < |FirstKeys(all)| ==>
      ComesFirst(all, FirstKeys(all)[j], FirstKeys(all)[k])
  {
    hide FirstKeys;
    FirstKeysDistinct(all);
    forall j, k | 0 <= j < k < |FirstKeys(all)|
      ensures ComesFirst(all, FirstKeys(all)[j], FirstKeys(all)[k])
    {
      var i := FirstKeysOrdered(all, j, k);
    }
  }

  /** Syncing makes every occurrence of a key agree, is idempotent, and changes nothing but the writable flag. */
  lemma {:induction false} SyncedAgrees(accounts: seq<AccountMeta>)
    ensures Synced(Synced(accounts)) == Synced(accounts)
    ensures forall i, j :: 0 <= i < |accounts| && 0 <= j < |accounts| && accounts[i].key == accounts[j].key ==>
      Synced(accounts)[i].writable == Synced(accounts)[j].writable
    ensures forall key :: WritableSomewhere(Synced(accounts), key) == WritableSomewhere(accounts, key)
  {
    var s := Synced(accounts);
    forall key
      ensures WritableSomewhere(s, key) == WritableSomewhere(accounts, key)
    {
      if WritableSomewhere(accounts, key) {
        var i :| 0 <= i < |accounts| && accounts[i].key == key && accounts[i].writable;
        assert s[i].key == key && s[i].writable;
      }
    }
  }
}
