/** Serialized batches of Sui timelock calls (sdk/sui/encoder.go, sdk/sui/decoder.go). */
module SuiBatch {

  import opened Bcs
  import opened ByteStrings
  import opened GoTypes

  const ADDRESS_LENGTH: uint32 := 32

  /** Addresses are written bare; names and data behind their length. */
  datatype Kind = Address | Blob

  function EncodeItem(k: Kind, b: Bytes): seq<byte> {
    if k.Address? then b else Prefixed(b)
  }

  function ReadItem(k: Kind, s: seq<byte>): (r: Parse<Bytes>)
    ensures r.Parsed? && k.Address? ==> |r.value| == 32
  {
    if k.Address? then ReadFixed(s, ADDRESS_LENGTH) else ReadPrefixed(s)
  }

  /** What can be read back: any blob, but only addresses of 32 bytes. */
  predicate Readable(k: Kind, b: Bytes) {
    k.Address? ==> |b| == 32
  }

  function EncodeItems(k: Kind, items: seq<Bytes>): seq<byte> {
    if items == [] then [] else EncodeItem(k, items[0]) + EncodeItems(k, items[1..])
  }

  function ReadItems(k: Kind, s: seq<byte>, n: nat): (r: Parse<seq<Bytes>>)
    ensures r.Parsed? ==> |r.value| == n && forall i :: 0 <= i < n ==> Readable(k, r.value[i])
    decreases n
  {
    if n == 0 then Parsed([], s)
    else match ReadItem(k, s)
      case Malformed => Malformed
      case Parsed(b, rest) =>
        match ReadItems(k, rest, n - 1)
        case Malformed => Malformed
        case Parsed(bs, end) => Parsed([b] + bs, end)
  }

  /** The length is cast to 32 bits. */
  function EncodeList(k: Kind, items: seq<Bytes>): seq<byte> {
    Uleb(|items| % TWO32) + EncodeItems(k, items)
  }

  function ReadList(k: Kind, s: seq<byte>): (r: Parse<seq<Bytes>>)
    ensures r.Parsed? ==> |r.value| < TWO32 && forall i :: 0 <= i < |r.value| ==> Readable(k, r.value[i])
  {
    match ReadUleb(s)
    case Malformed => Malformed
    case Parsed(n, rest) => ReadItems(k, rest, n)
  }

  lemma {:induction false} ReadsItem(k: Kind, b: Bytes, rest: seq<byte>)
    requires Readable(k, b)
    ensures ReadItem(k, EncodeItem(k, b) + rest) == Parsed(b, rest)
  {
    ReadsFixed(b, rest);
    ReadsPrefixed(b, rest);
  }

  lemma {:induction false} ReadsOneMore(k: Kind, s: seq<byte>, b: Bytes, t: seq<byte>, bs: seq<Bytes>, rest: seq<byte>)
    requires ReadItem(k, s) == Parsed(b, t) && ReadItems(k, t, |bs|) == Parsed(bs, rest)
    ensures ReadItems(k, s, |bs| + 1) == Parsed([b] + bs, rest)
  {
    hide ReadItem;
  }

  lemma {:induction false} EncodesFirst(k: Kind, items: seq<Bytes>, rest: seq<byte>)
    requires items != []
    ensures EncodeItems(k, items) + rest == EncodeItem(k, items[0]) + (EncodeItems(k, items[1..]) + rest)
  {
    hide EncodeItem;
  }

  lemma {:induction false} ReadsItems(k: Kind, items: seq<Bytes>, rest: seq<byte>)
    requires forall i :: 0 <= i < |items| ==> Readable(k, items[i])
    ensures ReadItems(k, EncodeItems(k, items) + rest, |items|) == Parsed(items, rest)
  {
    if items == [] {
      assert [] + rest == rest;
    } else {
      hide EncodeItem, EncodeItems, ReadItem, ReadItems, Readable;
      var tail := EncodeItems(k, items[1..]) + rest;
      EncodesFirst(k, items, rest);
      ReadsItem(k, items[0], tail);
      ReadsItems(k, items[1..], rest);
      ReadsOneMore(k, EncodeItems(k, items) + rest, items[0], tail, items[1..], rest);
      assert items == [items[0]] + items[1..];
    }
  }

  lemma {:induction false} ReadsList(k: Kind, items: seq<Bytes>, rest: seq<byte>)
    requires |items| < TWO32 && forall i :: 0 <= i < |items| ==> Readable(k, items[i])
    ensures ReadList(k, EncodeList(k, items) + rest) == Parsed(items, rest)
  {
    var body := EncodeItems(k, items) + rest;
    assert EncodeList(k, items) + rest == Uleb(|items|) + body;
    ReadsUleb(|items|, body);
    ReadsItems(k, items, rest);
  }

  /** The four lists of a batch; names are the bytes of Go strings. */
  datatype Batch = Batch(targets: seq<Bytes>, modules: seq<Bytes>, functions: seq<Bytes>, datas: seq<Bytes>)

  function Encode(b: Batch): seq<byte> {
    EncodeList(Address, b.targets)
    + (EncodeList(Blob, b.modules) + (EncodeList(Blob, b.functions) + EncodeList(Blob, b.datas)))
  }

  function ReadBatch(s: seq<byte>): (r: Parse<Batch>)
    ensures r.Parsed? ==> TargetsReadable(r.value.targets)
  {
    match ReadList(Address, s) case Malformed => Malformed case Parsed(targets, s1) =>
    match ReadList(Blob, s1) case Malformed => Malformed case Parsed(modules, s2) =>
    match ReadList(Blob, s2) case Malformed => Malformed case Parsed(functions, s3) =>
    match ReadList(Blob, s3) case Malformed => Malformed case Parsed(datas, rest) =>
    Parsed(Batch(targets, modules, functions, datas), rest)
  }

  predicate TargetsReadable(targets: seq<Bytes>) {
    |targets| < TWO32 && forall i :: 0 <= i < |targets| ==> |targets[i]| == 32
  }

  /** A batch whose lists can all be counted in 32 bits. */
  predicate Countable(b: Batch) {
    |b.modules| < TWO32 && |b.functions| < TWO32 && |b.datas| < TWO32
  }

  /** Whatever follows a batch, the reader gives back the batch and what follows. */
  lemma {:induction false} ReadsBatch(b: Batch, rest: seq<byte>)
    requires TargetsReadable(b.targets) && Countable(b)
    ensures ReadBatch(Encode(b) + rest) == Parsed(b, rest)
  {
    var s3 := EncodeList(Blob, b.datas) + rest;
    var s2 := EncodeList(Blob, b.functions) + s3;
    var s1 := EncodeList(Blob, b.modules) + s2;
    assert Encode(b) + rest == EncodeList(Address, b.targets) + s1;
    ReadsList(Address, b.targets, s1);
    ReadsList(Blob, b.modules, s2);
    ReadsList(Blob, b.functions, s3);
    ReadsList(Blob, b.datas, rest);
  }

  // ----- the serializer

  lemma {:induction false} WritesNext(before: seq<byte>, k: Kind, items: seq<Bytes>, i: nat)
    requires i < |items|
    ensures before + EncodeItem(k, items[i]) + EncodeItems(k, items[i + 1..]) == before + EncodeItems(k, items[i..])
  {
    hide EncodeItem;
    assert items[i..][1..] == items[i + 1..];
    Assoc(before, EncodeItem(k, items[i]), EncodeItems(k, items[i + 1..]));
  }

  lemma {:induction false} NothingLeft(before: seq<byte>, k: Kind, items: seq<Bytes>)
    ensures before + EncodeItems(k, items[|items|..]) == before
  {
  }

  method WriteItem(ser: Serializer, k: Kind, b: Bytes)
    modifies ser
    ensures ser.buffer == old(ser.buffer) + EncodeItem(k, b)
  {
    if k.Address? {
      ser.FixedBytes(b);
    } else {
      ser.WriteBytes(b);
    }
  }

  method WriteList(ser: Serializer, k: Kind, items: seq<Bytes>)
    modifies ser
    ensures ser.buffer == old(ser.buffer) + EncodeList(k, items)
  {
    hide EncodeItem, EncodeItems;
    ser.Uleb128(|items| % TWO32);
    assert items[0..] == items;
    for i := 0 to |items|
      invariant ser.buffer + EncodeItems(k, items[i..]) == old(ser.buffer) + EncodeList(k, items)
    {
      WritesNext(ser.buffer, k, items, i);
      WriteItem(ser, k, items[i]);
    }
    NothingLeft(ser.buffer, k, items);
  }

  method SerializeBypasserExecuteBatch(b: Batch) returns (data: seq<byte>)
    ensures data == Encode(b)
  {
    hide EncodeList;
    var ser := new Serializer();
    WriteList(ser, Address, b.targets);
    WriteList(ser, Blob, b.modules);
    WriteList(ser, Blob, b.functions);
    WriteList(ser, Blob, b.datas);
    data := ser.buffer;
    assert [] + EncodeList(Address, b.targets) == EncodeList(Address, b.targets);
    Regroup(EncodeList(Address, b.targets), EncodeList(Blob, b.modules), EncodeList(Blob, b.functions),
            EncodeList(Blob, b.datas));
  }

  // ----- the deserializer

  datatype Call = Call(target: Bytes, moduleName: Bytes, functionName: Bytes, data: Bytes)

  datatype Result = Calls(calls: seq<Call>) | LengthsMismatch

  predicate SameLengths(b: Batch) {
    |b.targets| == |b.modules| == |b.functions| == |b.datas|
  }

  /** The calls carry exactly these lists. */
  predicate Carries(calls: seq<Call>, b: Batch) {
    SameLengths(b) && |calls| == |b.targets|
    && forall i :: 0 <= i < |calls| ==> calls[i] == Call(b.targets[i], b.modules[i], b.functions[i], b.datas[i])
  }

  /** Reading the remaining items after these gives the target. */
  ghost predicate Resumes(target: Parse<seq<Bytes>>, items: seq<Bytes>, remaining: Parse<seq<Bytes>>)
    requires target.Parsed?
  {
    remaining.Parsed? && target.value == items + remaining.value && target.rest == remaining.rest
  }

  lemma {:induction false} ResumesAfter(k: Kind, target: Parse<seq<Bytes>>, items: seq<Bytes>, s: seq<byte>, n: nat)
    requires target.Parsed? && n > 0 && Resumes(target, items, ReadItems(k, s, n))
    ensures var p := ReadItem(k, s); p.Parsed? && Resumes(target, items + [p.value], ReadItems(k, p.rest, n - 1))
  {
    hide ReadItem;
    var p := ReadItem(k, s);
    var bs := ReadItems(k, p.rest, n - 1).value;
    assert items + ([p.value] + bs) == items + [p.value] + bs;
  }

  method ReadOne(des: Deserializer, k: Kind) returns (item: Bytes)
    modifies des
    ensures k.Address? ==> |item| == 32
    ensures ReadItem(k, old(des.unread)).Parsed? ==> ReadItem(k, old(des.unread)) == Parsed(item, des.unread)
  {
    hide ReadFixed, ReadPrefixed;
    if k.Address? {
      item := des.ReadFixedBytes(ADDRESS_LENGTH);
    } else {
      item := des.ReadBytes();
    }
  }

  method ReadVector(des: Deserializer, k: Kind) returns (items: seq<Bytes>)
    modifies des
    ensures k.Address? ==> TargetsReadable(items)
    ensures ReadList(k, old(des.unread)).Parsed? ==> ReadList(k, old(des.unread)) == Parsed(items, des.unread)
  {
    hide ReadItem, ReadUleb;
    var n := des.Uleb128();
    ghost var target := ReadItems(k, des.unread, n);
    items := [];
    for i := 0 to n
      invariant |items| == i
      invariant k.Address? ==> forall j :: 0 <= j < i ==> |items[j]| == 32
      invariant target.Parsed? ==> Resumes(target, items, ReadItems(k, des.unread, n - i))
    {
      if target.Parsed? {
        ResumesAfter(k, target, items, des.unread, n - i);
      }
      var item := ReadOne(des, k);
      items := items + [item];
    }
    assert items + [] == items;
  }

  method DeserializeBypasserExecuteBatch(data: seq<byte>) returns (r: Result)
    ensures ReadBatch(data).Parsed? ==> IsResult(ReadBatch(data).value, r)
    ensures r.Calls? ==> |r.calls| < TWO32 && forall i :: 0 <= i < |r.calls| ==> |r.calls[i].target| == 32
  {
    var des := new Deserializer(data);
    var targets := ReadVector(des, Address);
    var modules := ReadVector(des, Blob);
    var functions := ReadVector(des, Blob);
    var datas := ReadVector(des, Blob);
    if |targets| != |modules| || |modules| != |functions| || |functions| != |datas| {
      return LengthsMismatch;
    }
    var calls := [];
    for i := 0 to |targets|
      invariant |calls| == i
      invariant forall j :: 0 <= j < i ==> calls[j] == Call(targets[j], modules[j], functions[j], datas[j])
    {
      calls := calls + [Call(targets[i], modules[i], functions[i], datas[i])];
    }
    r := Calls(calls);
  }

  /** What the deserializer makes of the lists that it read. */
  predicate IsResult(b: Batch, r: Result) {
    if SameLengths(b) then r.Calls? && Carries(r.calls, b) else r == LengthsMismatch
  }

  /** A batch comes back exactly when its lists agree in length and its targets are addresses. */
  method RoundTrip(b: Batch) returns (r: Result)
    ensures r.Calls? && Carries(r.calls, b) <==> TargetsReadable(b.targets) && SameLengths(b)
    ensures TargetsReadable(b.targets) && Countable(b) && !SameLengths(b) ==> r == LengthsMismatch
  {
    var data := SerializeBypasserExecuteBatch(b);
    r := DeserializeBypasserExecuteBatch(data);
    if TargetsReadable(b.targets) && Countable(b) {
      ReadsBatch(b, []);
      assert data + [] == data;
    }
    if r.Calls? && Carries(r.calls, b) {
      assert forall i :: 0 <= i < |r.calls| ==> r.calls[i].target == b.targets[i];
    }
  }

  // ----- scheduled batches

  datatype Schedule = Schedule(batch: Batch, predecessor: Bytes, salt: Bytes, delay: uint64)

  function U64(n: uint64): (r: seq<byte>)
    ensures |r| == 8
  {
    LittleEndian(n, 8)
  }

  function EncodeSchedule(s: Schedule): seq<byte> {
    Encode(s.batch) + (Prefixed(s.predecessor) + (Prefixed(s.salt) + U64(s.delay)))
  }

  method SerializeScheduleBatch(s: Schedule) returns (data: seq<byte>)
    ensures data == EncodeSchedule(s)
  {
    hide Encode, Prefixed, U64;
    var front := SerializeBypasserExecuteBatch(s.batch);
    var ser := new Serializer();
    ser.FixedBytes(front);
    ser.WriteBytes(s.predecessor);
    ser.WriteBytes(s.salt);
    ser.FixedBytes(U64(s.delay));
    data := ser.buffer;
    assert [] + front == front;
    Regroup(front, Prefixed(s.predecessor), Prefixed(s.salt), U64(s.delay));
  }

  /** The batch, the predecessor and the salt behind their lengths, then the delay in eight bytes, lowest first. */
  function ReadSchedule(s: seq<byte>): Parse<Schedule> {
    match ReadBatch(s) case Malformed => Malformed case Parsed(batch, s1) =>
    match ReadPrefixed(s1) case Malformed => Malformed case Parsed(predecessor, s2) =>
    match ReadPrefixed(s2) case Malformed => Malformed case Parsed(salt, s3) =>
    if |s3| < 8 then Malformed
    else
      LittleEndianBelow(s3[..8]);
      PowersOf256();
      Parsed(Schedule(batch, predecessor, salt, FromLittleEndian(s3[..8])), s3[8..])
  }

  /** Reading a serialized schedule gives it back. */
  lemma {:induction false} ReadsSchedule(s: Schedule)
    requires TargetsReadable(s.batch.targets) && Countable(s.batch)
    ensures ReadSchedule(EncodeSchedule(s)) == Parsed(s, [])
  {
    hide Encode, Prefixed, ReadBatch, ReadPrefixed, LittleEndian, FromLittleEndian;
    var s3 := U64(s.delay);
    var s2 := Prefixed(s.salt) + s3;
    ReadsBatch(s.batch, Prefixed(s.predecessor) + s2);
    ReadsPrefixed(s.predecessor, s2);
    ReadsPrefixed(s.salt, s3);
    PowersOf256();
    LittleEndianValue(s.delay, 8);
    assert s3[..8] == s3 && s3[8..] == [];
  }

  /** Schedules of 32-byte targets are equal exactly when their serializations are. */
  lemma {:induction false} ScheduleUnique(s: Schedule, t: Schedule)
    requires TargetsReadable(s.batch.targets) && Countable(s.batch)
    requires TargetsReadable(t.batch.targets) && Countable(t.batch)
    ensures EncodeSchedule(s) == EncodeSchedule(t) <==> s == t
  {
    hide ReadSchedule;
    ReadsSchedule(s);
    ReadsSchedule(t);
  }
}
