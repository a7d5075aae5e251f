/** The ABI preimages of Stellar's Merkle leaves (sdk/stellar/encode.go). */
module StellarPreimages {

  import opened ByteStrings
  import opened GoTypes

  /** A Go byte slice: its length fits an int. */
  type Bytes = s: seq<byte> | |s| <= 0x7fff_ffff_ffff_ffff

  const ABI_WORD_BYTES: nat := 32
  const UINT40_MAX_EXCLUSIVE: uint64 := 0x100_0000_0000
  const OP_DATA_OFFSET: uint64 := 192

  // ----- Solidity Contract ABI Specification, "Formal Specification of the Encoding"

  /** A static value is its word; a dynamic one is an offset in the head and an encoding in the tail. */
  datatype Value = Static(word: Word) | Dynamic(tail: seq<byte>)

  /** A number of 64 bits or less. */
  function Number(n: nat): Word {
    Zeros(24) + BigEndian(n, 8)
  }

  function Boolean(b: bool): Word {
    Number(if b then 1 else 0)
  }

  function Pad(data: seq<byte>): (r: seq<byte>)
    ensures |data + r| % ABI_WORD_BYTES == 0 && |r| < ABI_WORD_BYTES && r == Zeros(|r|)
  {
    Zeros((ABI_WORD_BYTES - |data| % ABI_WORD_BYTES) % ABI_WORD_BYTES)
  }

  /** A value of Solidity type `bytes`. */
  function BytesValue(data: Bytes): (v: Value)
    ensures v.Dynamic? && |data| + 32 <= |v.tail| <= |data| + 64
  {
    Dynamic(Number(|data|) + data + Pad(data))
  }

  function HeadOf(v: Value, offset: nat): Word {
    if v.Static? then v.word else Number(offset)
  }

  function TailOf(v: Value): seq<byte> {
    if v.Static? then [] else v.tail
  }

  function Tails(vs: seq<Value>): seq<byte> {
    if vs == [] then [] else TailOf(vs[0]) + Tails(vs[1..])
  }

  /** The heads, where the first tail still to come starts at the given offset. */
  function Heads(vs: seq<Value>, offset: nat): seq<byte> {
    if vs == [] then []
    else HeadOf(vs[0], offset) + Heads(vs[1..], offset + |TailOf(vs[0])|)
  }

  /** Every offset fits 64 bits. */
  predicate Encodable(vs: seq<Value>) {
    ABI_WORD_BYTES * |vs| + |Tails(vs)| < TWO64
  }

  /** The encoding of a tuple. */
  function Encode(vs: seq<Value>): seq<byte> {
    Heads(vs, ABI_WORD_BYTES * |vs|) + Tails(vs)
  }

  lemma {:induction false} NumberInjective(m: uint64, n: uint64)
    ensures Number(m) == Number(n) <==> m == n
  {
    PowersOf256();
    BigEndianInjective(m, n, 8);
    Cut(Zeros(24), BigEndian(m, 8), Zeros(24), BigEndian(n, 8));
  }

  // ----- ABI encodings come apart in one way

  /** Lists of the same types. */
  predicate SameShape(vs: seq<Value>, ws: seq<Value>) {
    |vs| == |ws| && forall i :: 0 <= i < |vs| ==> vs[i].Static? == ws[i].Static?
  }

  predicate SameTailLengths(vs: seq<Value>, ws: seq<Value>) {
    |vs| == |ws| && forall i :: 0 <= i < |vs| ==> |TailOf(vs[i])| == |TailOf(ws[i])|
  }

  lemma {:induction false} HeadsLength(vs: seq<Value>, offset: nat)
    ensures |Heads(vs, offset)| == ABI_WORD_BYTES * |vs|
  {
    if vs != [] {
      HeadsLength(vs[1..], offset + |TailOf(vs[0])|);
    }
  }

  lemma {:induction false} HeadsStep(vs: seq<Value>, o: nat, ws: seq<Value>, p: nat)
    requires |vs| == |ws| > 0
    requires Heads(vs, o) == Heads(ws, p)
    ensures HeadOf(vs[0], o) == HeadOf(ws[0], p)
    ensures Heads(vs[1..], o + |TailOf(vs[0])|) == Heads(ws[1..], p + |TailOf(ws[0])|)
  {
    Cut(HeadOf(vs[0], o), Heads(vs[1..], o + |TailOf(vs[0])|), HeadOf(ws[0], p), Heads(ws[1..], p + |TailOf(ws[0])|));
  }

  lemma {:induction false} LengthsFromFirst(vs: seq<Value>, ws: seq<Value>)
    requires |vs| == |ws| > 0 && |TailOf(vs[0])| == |TailOf(ws[0])| && SameTailLengths(vs[1..], ws[1..])
    ensures SameTailLengths(vs, ws)
  {
    hide TailOf;
    assert forall i :: 0 < i < |vs| ==> vs[i] == vs[1..][i - 1] && ws[i] == ws[1..][i - 1];
  }

  lemma {:induction false} SameOffset(v: Value, o: nat, w: Value, p: nat)
    requires v.Static? == w.Static? && HeadOf(v, o) == HeadOf(w, p)
    requires o + |TailOf(v)| == p + |TailOf(w)| < TWO64
    ensures o == p && |TailOf(v)| == |TailOf(w)|
  {
    hide Number;
    NumberInjective(o, p);
  }

  lemma {:induction false} ShapeStep(vs: seq<Value>, ws: seq<Value>)
    requires SameShape(vs, ws) && vs != []
    ensures ws != [] && vs[0].Static? == ws[0].Static? && SameShape(vs[1..], ws[1..])
    ensures |Tails(vs)| == |TailOf(vs[0])| + |Tails(vs[1..])|
    ensures |Tails(ws)| == |TailOf(ws[0])| + |Tails(ws[1..])|
  {
    hide TailOf;
  }

  /** Equal heads, and as many bytes in all. */
  ghost predicate HeadsAgree(vs: seq<Value>, o: nat, ws: seq<Value>, p: nat) {
    SameShape(vs, ws) && Heads(vs, o) == Heads(ws, p) && o + |Tails(vs)| == p + |Tails(ws)| < TWO64
  }

  lemma {:induction false} HeadsAgreeStep(vs: seq<Value>, o: nat, ws: seq<Value>, p: nat)
    requires HeadsAgree(vs, o, ws, p) && vs != []
    ensures |vs| == |ws| && vs[0].Static? == ws[0].Static? && HeadOf(vs[0], o) == HeadOf(ws[0], p)
    ensures HeadsAgree(vs[1..], o + |TailOf(vs[0])|, ws[1..], p + |TailOf(ws[0])|)
    ensures o + |TailOf(vs[0])| < TWO64
  {
    hide Heads, HeadOf, Tails, TailOf, SameShape;
    assert |vs| == |ws| by { SameCount(vs, ws); }
    ShapeStep(vs, ws);
    HeadsStep(vs, o, ws, p);
  }

  lemma {:induction false} SameCount(vs: seq<Value>, ws: seq<Value>)
    requires SameShape(vs, ws)
    ensures |vs| == |ws|
  {
  }

  /** Equal heads and equal total lengths give equal offsets, hence tails of equal length. */
  lemma {:induction false} HeadsGiveLengths(vs: seq<Value>, o: nat, ws: seq<Value>, p: nat)
    requires HeadsAgree(vs, o, ws, p)
    ensures o == p && SameTailLengths(vs, ws)
    decreases |vs|
  {
    if vs != [] {
      hide HeadsAgree, HeadOf, TailOf, SameTailLengths;
      HeadsAgreeStep(vs, o, ws, p);
      HeadsGiveLengths(vs[1..], o + |TailOf(vs[0])|, ws[1..], p + |TailOf(ws[0])|);
      SameOffset(vs[0], o, ws[0], p);
      LengthsFromFirst(vs, ws);
    }
  }

  lemma {:induction false} ValuesAgree(v: Value, w: Value, o: nat)
    requires v.Static? == w.Static? && HeadOf(v, o) == HeadOf(w, o) && TailOf(v) == TailOf(w)
    ensures v == w
  {
  }

  lemma {:induction false} SameFirst(vs: seq<Value>, ws: seq<Value>)
    requires SameShape(vs, ws) && SameTailLengths(vs, ws) && vs != []
    ensures ws != [] && vs[0].Static? == ws[0].Static? && |TailOf(vs[0])| == |TailOf(ws[0])|
    ensures SameShape(vs[1..], ws[1..]) && SameTailLengths(vs[1..], ws[1..])
  {
    hide TailOf;
  }

  lemma {:induction false} TailsStep(vs: seq<Value>, ws: seq<Value>)
    requires vs != [] && ws != [] && |TailOf(vs[0])| == |TailOf(ws[0])| && Tails(vs) == Tails(ws)
    ensures TailOf(vs[0]) == TailOf(ws[0]) && Tails(vs[1..]) == Tails(ws[1..])
  {
    hide TailOf;
    Cut(TailOf(vs[0]), Tails(vs[1..]), TailOf(ws[0]), Tails(ws[1..]));
  }

  lemma {:induction false} PartsAgree(vs: seq<Value>, o: nat, ws: seq<Value>)
    requires SameShape(vs, ws) && SameTailLengths(vs, ws)
    requires Tails(vs) == Tails(ws)
    requires Heads(vs, o) == Heads(ws, o)
    ensures vs == ws
    decreases |vs|
  {
    if vs != [] {
      hide Heads, HeadOf, Tails, TailOf, SameShape, SameTailLengths;
      SameFirst(vs, ws);
      HeadsStep(vs, o, ws, o);
      TailsStep(vs, ws);
      ValuesAgree(vs[0], ws[0], o);
      PartsAgree(vs[1..], o + |TailOf(vs[0])|, ws[1..]);
      SameFirstAndRest(vs, ws);
    }
  }

  /** Tuples of the same types have the same encoding exactly when they are equal. */
  lemma {:induction false} EncodingUnique(vs: seq<Value>, ws: seq<Value>)
    requires SameShape(vs, ws) && Encodable(vs) && Encodable(ws)
    ensures Encode(vs) == Encode(ws) <==> vs == ws
  {
    var o := ABI_WORD_BYTES * |vs|;
    HeadsLength(vs, o);
    HeadsLength(ws, o);
    Cut(Heads(vs, o), Tails(vs), Heads(ws, o), Tails(ws));
    if Encode(vs) == Encode(ws) {
      HeadsGiveLengths(vs, o, ws, o);
      PartsAgree(vs, o, ws);
    }
  }

  lemma {:induction false} BytesValueInjective(x: Bytes, y: Bytes)
    ensures BytesValue(x) == BytesValue(y) <==> x == y
  {
    Assoc(Number(|x|), x, Pad(x));
    Assoc(Number(|y|), y, Pad(y));
    Cut(Number(|x|), x + Pad(x), Number(|y|), y + Pad(y));
    NumberInjective(|x|, |y|);
    if |x| == |y| {
      Cut(x, Pad(x), y, Pad(y));
    }
  }

  // ----- five-byte numbers

  /** The low five bytes are enough for a number below 2^40. */
  lemma {:induction false} Uint40IsNumber(v: uint64)
    requires v < UINT40_MAX_EXCLUSIVE
    ensures Zeros(27) + BigEndian(v, 8)[3..] == Number(v)
  {
    PowersOf256();
    BigEndianPadding(v, 3, 5);
    assert Zeros(24) + Zeros(3) == Zeros(27);
  }

  // ----- the buffer

  datatype Appended = Ok | Uint40Overflow

  class Buffer {
    var bytes: seq<byte>

    constructor ()
      ensures bytes == []
    {
      bytes := [];
    }

    method AppendWord32(word: Word)
      modifies this
      ensures bytes == old(bytes) + word
    {
      bytes := bytes + word;
    }

    method AppendUint40(v: uint64) returns (r: Appended)
      modifies this
      ensures r == if v < UINT40_MAX_EXCLUSIVE then Ok else Uint40Overflow
      ensures bytes == if r == Ok then old(bytes) + Number(v) else old(bytes)
    {
      if v >= UINT40_MAX_EXCLUSIVE {
        return Uint40Overflow;
      }
      var be := BigEndian(v, 8);
      Uint40IsNumber(v);
      AppendWord32(Zeros(27) + be[3..]);
      return Ok;
    }

    method AppendBool(v: bool)
      modifies this
      ensures bytes == old(bytes) + Boolean(v)
    {
      OneInLastByte();
      AppendWord32(Zeros(31) + [if v then 1 else 0]);
    }

    method AppendABIBytes(data: Bytes)
      modifies this
      ensures bytes == old(bytes) + BytesValue(data).tail
    {
      AppendWord32(Number(|data|));
      bytes := bytes + data;
      var pad := (ABI_WORD_BYTES - |data| % ABI_WORD_BYTES) % ABI_WORD_BYTES;
      ghost var unpadded := bytes;
      for i := 0 to pad
        invariant bytes == unpadded + Zeros(i)
      {
        bytes := bytes + [0];
      }
      Assoc(old(bytes), Number(|data|) + data, Pad(data));
      Assoc(old(bytes), Number(|data|), data);
    }
  }

  lemma {:induction false} OneInLastByte()
    ensures Boolean(true) == Zeros(31) + [1] && Boolean(false) == Zeros(31) + [0]
  {
    PowersOf256();
    BigEndianPadding(1, 7, 1);
    BigEndianPadding(0, 7, 1);
    assert BigEndian(1, 1) == [1] && BigEndian(0, 1) == [0];
    assert Zeros(24) + Zeros(7) == Zeros(31);
  }

  // ----- the two leaves

  lemma {:induction false} AppendValue(vs: seq<Value>, v: Value, offset: nat)
    requires Tails(vs) == []
    ensures Tails(vs + [v]) == TailOf(v)
    ensures Heads(vs + [v], offset) == Heads(vs, offset) + HeadOf(v, offset)
  {
    hide HeadOf, TailOf, Number;
    if vs == [] {
      assert [v][1..] == [] && [] + [v] == [v];
    } else {
      AppendValue(vs[1..], v, offset);
      Assoc(HeadOf(vs[0], offset), Heads(vs[1..], offset), HeadOf(v, offset));
      assert (vs + [v])[1..] == vs[1..] + [v];
    }
  }

  /** Static values add only to the heads. */
  ghost predicate AreHeads(bytes: seq<byte>, vs: seq<Value>, offset: nat) {
    Tails(vs) == [] && bytes == Heads(vs, offset)
  }

  lemma {:induction false} AddStatic(bytes: seq<byte>, vs: seq<Value>, offset: nat, w: Word)
    requires AreHeads(bytes, vs, offset)
    ensures AreHeads(bytes + w, vs + [Static(w)], offset)
  {
    AppendValue(vs, Static(w), offset);
  }

  lemma {:induction false} SixValues(a: Word, b: Word, c: Word, d: Word, e: Word, v: Value, offset: nat)
    ensures var vs := [Static(a), Static(b), Static(c), Static(d), Static(e), v];
      Tails(vs) == TailOf(v) && Heads(vs, offset) == a + b + c + d + e + HeadOf(v, offset)
  {
    hide Heads, Tails, TailOf, HeadOf;
    var vs := [Static(a), Static(b), Static(c), Static(d), Static(e), v];
    OneStatic(a, offset);
    AddStatic(a, [Static(a)], offset, b);
    assert [Static(a)] + [Static(b)] == [Static(a), Static(b)];
    AddStatic(a + b, [Static(a), Static(b)], offset, c);
    assert [Static(a), Static(b)] + [Static(c)] == [Static(a), Static(b), Static(c)];
    AddStatic(a + b + c, [Static(a), Static(b), Static(c)], offset, d);
    var four := [Static(a), Static(b), Static(c), Static(d)];
    assert [Static(a), Static(b), Static(c)] + [Static(d)] == four;
    AddStatic(a + b + c + d, four, offset, e);
    AppendValue(four + [Static(e)], v, offset);
    assert four + [Static(e)] + [v] == vs;
  }

  lemma {:induction false} OneStatic(w: Word, offset: nat)
    ensures AreHeads(w, [Static(w)], offset)
  {
    AddStatic([], [], offset, w);
    assert [] + [Static(w)] == [Static(w)] && [] + w == w;
  }

  datatype Preimage = Preimage(bytes: seq<byte>) | NoPreimage

  datatype RootMetadata = RootMetadata(
    chainId: Word, multisig: Word, preOpCount: uint64, postOpCount: uint64, overridePreviousRoot: bool)

  function RootValues(domain: Word, m: RootMetadata): (vs: seq<Value>)
    ensures |vs| == 6 && Encodable(vs)
  {
    var last := Static(Boolean(m.overridePreviousRoot));
    SixValues(domain, m.chainId, m.multisig, Number(m.preOpCount), Number(m.postOpCount), last, OP_DATA_OFFSET);
    [Static(domain), Static(m.chainId), Static(m.multisig),
     Static(Number(m.preOpCount)), Static(Number(m.postOpCount)), last]
  }

  lemma {:induction false} RootMetadataLayout(domain: Word, m: RootMetadata)
    ensures Encode(RootValues(domain, m)) == domain + m.chainId + m.multisig
      + Number(m.preOpCount) + Number(m.postOpCount) + Boolean(m.overridePreviousRoot)
  {
    hide Heads, Tails, Number, Boolean;
    SixValues(domain, m.chainId, m.multisig, Number(m.preOpCount), Number(m.postOpCount),
              Static(Boolean(m.overridePreviousRoot)), OP_DATA_OFFSET);
  }

  /** `HashRootMetadata` up to the final hash. */
  method RootMetadataPreimage(domain: Word, m: RootMetadata) returns (r: Preimage)
    ensures r == if m.preOpCount < UINT40_MAX_EXCLUSIVE && m.postOpCount < UINT40_MAX_EXCLUSIVE
                 then Preimage(Encode(RootValues(domain, m))) else NoPreimage
  {
    hide Encode, RootValues, Number, Boolean;
    RootMetadataLayout(domain, m);
    assert [] + domain == domain;
    var buf := new Buffer();
    buf.AppendWord32(domain);
    buf.AppendWord32(m.chainId);
    buf.AppendWord32(m.multisig);
    var ok := buf.AppendUint40(m.preOpCount);
    if ok != Ok {
      return NoPreimage;
    }
    ok := buf.AppendUint40(m.postOpCount);
    if ok != Ok {
      return NoPreimage;
    }
    buf.AppendBool(m.overridePreviousRoot);
    return Preimage(buf.bytes);
  }

  /** The metadata-leaf preimage determines every field. */
  lemma {:induction false} RootMetadataPreimageUnique(domain: Word, m: RootMetadata, n: RootMetadata)
    ensures Encode(RootValues(domain, m)) == Encode(RootValues(domain, n)) <==> m == n
  {
    hide Encode, Encodable, Number, Boolean;
    var vs, ws := RootValues(domain, m), RootValues(domain, n);
    EncodingUnique(vs, ws);
    if vs == ws {
      assert forall i :: 0 <= i < 6 ==> vs[i].word == ws[i].word;
      NumberInjective(m.preOpCount, n.preOpCount);
      NumberInjective(m.postOpCount, n.postOpCount);
      BooleanInjective(m.overridePreviousRoot, n.overridePreviousRoot);
    }
  }

  lemma {:induction false} BooleanInjective(a: bool, b: bool)
    ensures Boolean(a) == Boolean(b) <==> a == b
  {
    NumberInjective(if a then 1 else 0, if b then 1 else 0);
  }

  datatype StellarOp = StellarOp(chainId: Word, multisig: Word, nonce: uint64, to: Word, value: Word, data: Bytes)

  function OpValues(op: StellarOp): (vs: seq<Value>)
    ensures |vs| == 6 && Encodable(vs)
  {
    SixValues(op.chainId, op.multisig, Number(op.nonce), op.to, op.value, BytesValue(op.data), OP_DATA_OFFSET);
    [Static(op.chainId), Static(op.multisig), Static(Number(op.nonce)), Static(op.to), Static(op.value),
     BytesValue(op.data)]
  }

  lemma {:induction false} StellarOpLayout(op: StellarOp)
    ensures Encode(OpValues(op)) == op.chainId + op.multisig + Number(op.nonce) + op.to + op.value
      + Number(OP_DATA_OFFSET) + BytesValue(op.data).tail
  {
    hide Heads, Tails, Number, BytesValue;
    SixValues(op.chainId, op.multisig, Number(op.nonce), op.to, op.value, BytesValue(op.data), OP_DATA_OFFSET);
  }

  lemma {:induction false} Regroup8<T>(a: seq<T>, b: seq<T>, c: seq<T>, d: seq<T>, e: seq<T>, f: seq<T>, g: seq<T>,
        h: seq<T>)
    ensures [] + a + b + c + d + e + f + g + h == a + (b + c + d + e + f + g + h)
  {
  }

  /** `HashStellarOp` up to the final hash. */
  method StellarOpPreimage(domain: Word, op: StellarOp) returns (r: Preimage)
    ensures r == if op.nonce < UINT40_MAX_EXCLUSIVE
                 then Preimage(domain + Encode(OpValues(op))) else NoPreimage
  {
    hide Encode, OpValues, Number, BytesValue;
    StellarOpLayout(op);
    var buf := new Buffer();
    buf.AppendWord32(domain);
    buf.AppendWord32(op.chainId);
    buf.AppendWord32(op.multisig);
    var ok := buf.AppendUint40(op.nonce);
    if ok != Ok {
      return NoPreimage;
    }
    buf.AppendWord32(op.to);
    buf.AppendWord32(op.value);
    buf.AppendWord32(Number(OP_DATA_OFFSET));
    buf.AppendABIBytes(op.data);
    Regroup8(domain, op.chainId, op.multisig, Number(op.nonce), op.to, op.value, Number(OP_DATA_OFFSET),
             BytesValue(op.data).tail);
    return Preimage(buf.bytes);
  }

  /** The operation-leaf preimage determines the domain and every field. */
  lemma {:induction false} StellarOpPreimageUnique(domain: Word, op: StellarOp, other: Word, oq: StellarOp)
    ensures domain + Encode(OpValues(op)) == other + Encode(OpValues(oq)) <==> domain == other && op == oq
  {
    hide Encode, Encodable, Number, BytesValue;
    var vs, ws := OpValues(op), OpValues(oq);
    Cut(domain, Encode(vs), other, Encode(ws));
    assert SameShape(vs, ws);
    EncodingUnique(vs, ws);
    if vs == ws {
      assert forall i :: 0 <= i < 5 ==> vs[i].word == ws[i].word;
      NumberInjective(op.nonce, oq.nonce);
      BytesValueInjective(op.data, oq.data);
    }
  }

  // ----- what the bytes are

  lemma {:induction false} NumberValue(n: uint64)
    ensures FromBigEndian(Number(n)) == n
  {
    hide Pow256, BigEndian, FromBigEndian, Zeros;
    PowersOf256();
    ZerosInFront(24, BigEndian(n, 8));
    BigEndianValue(n, 8);
  }

  lemma {:induction false} SixWords(a: Word, b: Word, c: Word, d: Word, e: Word, f: Word, t: seq<byte>)
    ensures var w := a + b + c + d + e + f + t;
      && w[..32] == a && w[32..64] == b && w[64..96] == c && w[96..128] == d && w[128..160] == e && w[160..192] == f
      && w[192..] == t
  {
  }

  /** The metadata preimage, word by word. */
  lemma {:induction false} RootMetadataWords(domain: Word, m: RootMetadata)
    ensures var b := Encode(RootValues(domain, m));
      && |b| == 192
      && b[..32] == domain && b[32..64] == m.chainId && b[64..96] == m.multisig
      && FromBigEndian(b[96..128]) == m.preOpCount && FromBigEndian(b[128..160]) == m.postOpCount
      && FromBigEndian(b[160..192]) == if m.overridePreviousRoot then 1 else 0
  {
    hide Encode, RootValues, Number, FromBigEndian;
    var pre, post, last := Number(m.preOpCount), Number(m.postOpCount), Boolean(m.overridePreviousRoot);
    RootMetadataLayout(domain, m);
    SixWords(domain, m.chainId, m.multisig, pre, post, last, []);
    assert domain + m.chainId + m.multisig + pre + post + last + []
        == domain + m.chainId + m.multisig + pre + post + last;
    NumberValue(m.preOpCount);
    NumberValue(m.postOpCount);
    NumberValue(if m.overridePreviousRoot then 1 else 0);
  }

  lemma {:induction false} LaidBehind<T>(a: seq<T>, b: seq<T>, c: seq<T>, d: seq<T>, e: seq<T>, f: seq<T>, g: seq<T>,
        h: seq<T>)
    ensures a + (b + c + d + e + f + g + h) == a + b + c + d + e + f + (g + h)
  {
  }

  lemma {:induction false} SlicesBehind(b: seq<byte>, offset: Word, tail: seq<byte>, n: nat)
    requires |b| >= 192 && b[192..] == offset + tail && |tail| >= 32 + n
    ensures |b| == 224 + |tail| && b[192..224] == offset
    ensures b[224..256] == tail[..32] && b[256..256 + n] == tail[32..][..n]
    ensures forall i :: 256 <= i < |b| ==> b[i] == tail[i - 224]
  {
    assert b[192..224] == b[192..][..32] && b[224..] == b[192..][32..];
    CutAt(offset, tail);
    assert b[224..256] == b[224..][..32] && b[256..256 + n] == b[224..][32..][..n];
  }

  /** A byte string is its length, itself and zeros up to a whole word. */
  lemma {:induction false} BytesWords(data: Bytes)
    ensures var t, n := BytesValue(data).tail, |data|;
      && |t| % 32 == 0 && 32 + n <= |t| < 64 + n
      && FromBigEndian(t[..32]) == n && t[32..][..n] == data && forall i :: 32 + n <= i < |t| ==> t[i] == 0
  {
    hide Number, FromBigEndian;
    var n := Number(|data|);
    var padded := data + Pad(data);
    Assoc(n, data, Pad(data));
    CutAt(n, padded);
    CutAt(data, Pad(data));
    assert forall i :: |data| <= i < |padded| ==> padded[i] == Pad(data)[i - |data|] == 0;
    NumberValue(|data|);
  }

  /** The operation preimage, word by word: the data stands behind its length, filled up with zeros to a whole word. */
  lemma {:induction false} StellarOpWords(domain: Word, op: StellarOp)
    ensures var b, n := domain + Encode(OpValues(op)), |op.data|;
      && |b| % 32 == 0 && 256 + n <= |b| < 288 + n
      && b[..32] == domain && b[32..64] == op.chainId && b[64..96] == op.multisig
      && FromBigEndian(b[96..128]) == op.nonce && b[128..160] == op.to && b[160..192] == op.value
      && FromBigEndian(b[192..224]) == 192 && FromBigEndian(b[224..256]) == n
      && b[256..256 + n] == op.data && forall i :: 256 + n <= i < |b| ==> b[i] == 0
  {
    hide Encode, OpValues, Number, BytesValue, FromBigEndian, Zeros;
    var nonce, offset, tail := Number(op.nonce), Number(OP_DATA_OFFSET), BytesValue(op.data).tail;
    var b := domain + Encode(OpValues(op));
    StellarOpLayout(op);
    LaidBehind(domain, op.chainId, op.multisig, nonce, op.to, op.value, offset, tail);
    SixWords(domain, op.chainId, op.multisig, nonce, op.to, op.value, offset + tail);
    SlicesBehind(b, offset, tail, |op.data|);
    BytesWords(op.data);
    NumberValue(op.nonce);
    NumberValue(OP_DATA_OFFSET);
  }

  /** Solidity's own encoding of (bytes32, tuple) has one word more: the offset of the dynamic tuple. */
  lemma {:induction false} NotSolidityPair(domain: Word, op: StellarOp)
    ensures var pair := [Static(domain), Dynamic(Encode(OpValues(op)))];
      Encodable(pair) && Encode(pair) == domain + Number(64) + Encode(OpValues(op))
      && |Encode(pair)| == |domain + Encode(OpValues(op))| + 32
  {
    hide Heads, Number, BytesValue;
    SixValues(op.chainId, op.multisig, Number(op.nonce), op.to, op.value, BytesValue(op.data), OP_DATA_OFFSET);
    var v := Dynamic(Encode(OpValues(op)));
    OneStatic(domain, 64);
    AppendValue([Static(domain)], v, 64);
    assert [Static(domain)] + [v] == [Static(domain), v];
  }
}
