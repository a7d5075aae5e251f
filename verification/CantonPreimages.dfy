/** The hex preimages that Canton hashes (sdk/canton/timelock_crypto.go, sdk/canton/encoder.go). */
module CantonPreimages {

  import opened ByteStrings
  import opened GoTypes

  type nibble = x: int | 0 <= x < 16

  /** Text under construction, as bytes. */
  type Text = seq<byte>

  const MAX_INT: nat := 0x7fff_ffff_ffff_ffff

  /** A Go string: its bytes, as many as an int can count. */
  type GoString = s: seq<byte> | |s| <= MAX_INT

  const WORD := 64 // hex digits of a 32-byte word

  // ----- hex text

  predicate IsHexDigit(c: byte) {
    48 <= c <= 57 || 97 <= c <= 102 || 65 <= c <= 70
  }

  predicate AllHex(s: Text) {
    forall i :: 0 <= i < |s| ==> IsHexDigit(s[i])
  }

  predicate IsValidHex(s: Text) {
    |s| % 2 == 0 && AllHex(s)
  }

  function DigitValue(c: byte): nibble
    requires IsHexDigit(c)
  {
    if c <= 57 then c - 48 else if c <= 70 then c - 55 else c - 87
  }

  function Digit(n: nibble): (c: byte)
    ensures IsHexDigit(c) && DigitValue(c) == n
  {
    if n < 10 then n + 48 else n + 87
  }

  /** The digits a hex text stands for, upper and lower case alike. */
  function Digits(s: Text): (r: seq<nibble>)
    requires AllHex(s)
    ensures |r| == |s|
  {
    seq(|s|, i requires 0 <= i < |s| => DigitValue(s[i]))
  }

  lemma {:induction false} DigitsConcat(s: Text, t: Text)
    requires AllHex(s) && AllHex(t)
    ensures AllHex(s + t) && Digits(s + t) == Digits(s) + Digits(t)
  {
  }

  /** Pairs of digits as bytes. */
  function Bytes(ns: seq<nibble>): (r: seq<byte>)
    requires |ns| % 2 == 0
    ensures 2 * |r| == |ns|
  {
    if ns == [] then [] else [16 * (ns[0] as int) + ns[1]] + Bytes(ns[2..])
  }

  /** `hex.DecodeString` of valid hex. */
  function Decode(s: Text): (r: seq<byte>)
    requires IsValidHex(s)
    ensures 2 * |r| == |s|
  {
    Bytes(Digits(s))
  }

  lemma {:induction false} BytesInjective(x: seq<nibble>, y: seq<nibble>)
    requires |x| % 2 == 0 && |y| % 2 == 0
    ensures Bytes(x) == Bytes(y) <==> x == y
    decreases |x|
  {
    if Bytes(x) == Bytes(y) && x != [] {
      assert Bytes(x)[0] == Bytes(y)[0] && Bytes(x)[1..] == Bytes(y)[1..];
      BytesInjective(x[2..], y[2..]);
      assert x == [x[0], x[1]] + x[2..] && y == [y[0], y[1]] + y[2..];
    }
  }

  function AsciiToHex(s: seq<byte>): (r: Text)
    ensures |r| == 2 * |s| && IsValidHex(r)
  {
    if s == [] then [] else [Digit(s[0] / 16), Digit(s[0] % 16)] + AsciiToHex(s[1..])
  }

  lemma {:induction false} DecodeAscii(s: seq<byte>)
    ensures Decode(AsciiToHex(s)) == s
  {
    if s != [] {
      DecodeAscii(s[1..]);
      assert Digits(AsciiToHex(s)) == [s[0] / 16, s[0] % 16] + Digits(AsciiToHex(s[1..]));
    }
  }

  // ----- 32-byte words

  function IntToHex(n: nat): (r: Text)
    ensures r != [] && AllHex(r)
  {
    if n < 16 then [Digit(n)] else IntToHex(n / 16) + [Digit(n % 16)]
  }

  function Value(ns: seq<nibble>): nat {
    if ns == [] then 0 else 16 * Value(ns[..|ns| - 1]) + ns[|ns| - 1]
  }

  lemma {:induction false} ValueOfInt(n: nat)
    ensures Value(Digits(IntToHex(n))) == n
  {
    if n >= 16 {
      var front := IntToHex(n / 16);
      ValueOfInt(n / 16);
      DigitsConcat(front, [Digit(n % 16)]);
      assert Digits(IntToHex(n))[..|front|] == Digits(front);
    } else {
      assert Digits([Digit(n)])[..0] == [];
    }
  }

  lemma {:induction false} ValueOfPadded(k: nat, ns: seq<nibble>)
    ensures Value(seq(k, _ => 0) + ns) == Value(ns)
    decreases |ns| + k
  {
    var zeros: seq<nibble> := seq(k, _ => 0);
    if ns != [] {
      ValueOfPadded(k, ns[..|ns| - 1]);
      assert (zeros + ns)[..k + |ns| - 1] == zeros + ns[..|ns| - 1];
    } else if k > 0 {
      var fewer: seq<nibble> := seq(k - 1, _ => 0);
      ValueOfPadded(k - 1, []);
      assert zeros + ns == zeros && zeros[..k - 1] == fewer && fewer + [] == fewer;
    }
  }

  function Pow16(k: nat): nat {
    if k == 0 then 1 else 16 * Pow16(k - 1)
  }

  lemma {:induction false} IntToHexLength(n: nat, k: nat)
    requires k > 0 && n < Pow16(k)
    ensures |IntToHex(n)| <= k
  {
    if n >= 16 {
      IntToHexLength(n / 16, k - 1);
    }
  }

  lemma {:induction false} Pow16Of16()
    ensures Pow16(16) == TWO64
  {
    assert Pow16(4) == 0x1_0000;
    assert Pow16(8) == 0x1_0000_0000;
    assert Pow16(12) == 0x1_0000_0000_0000;
  }

  /** `padLeft32(intToHex(n))` for any 64-bit number. */
  function Word(n: nat): (r: Text)
    requires n < TWO64
    ensures |r| == WORD && AllHex(r)
  {
    Pow16Of16();
    IntToHexLength(n, 16);
    seq(WORD - |IntToHex(n)|, _ => 48) + IntToHex(n)
  }

  lemma {:induction false} WordValue(n: nat)
    requires n < TWO64
    ensures Value(Digits(Word(n))) == n
  {
    Pow16Of16();
    IntToHexLength(n, 16);
    var k := WORD - |IntToHex(n)|;
    var zeros: Text := seq(k, _ => 48);
    DigitsConcat(zeros, IntToHex(n));
    assert Digits(zeros) == seq(k, _ => 0);
    ValueOfPadded(k, Digits(IntToHex(n)));
    ValueOfInt(n);
  }

  /** The decoded word. */
  function WordBytes(n: uint64): (r: seq<byte>)
    ensures |r| == 32
  {
    Decode(Word(n))
  }

  lemma {:induction false} WordBytesInjective(m: uint64, n: uint64)
    ensures WordBytes(m) == WordBytes(n) <==> m == n
  {
    BytesInjective(Digits(Word(m)), Digits(Word(n)));
    WordValue(m);
    WordValue(n);
  }

  lemma {:induction false} BytesConcat(x: seq<nibble>, y: seq<nibble>)
    requires |x| % 2 == 0 && |y| % 2 == 0
    ensures Bytes(x + y) == Bytes(x) + Bytes(y)
    decreases |x|
  {
    if x == [] {
      assert x + y == y;
    } else {
      assert (x + y)[2..] == x[2..] + y;
      BytesConcat(x[2..], y);
    }
  }

  lemma {:induction false} DecodeConcat(s: Text, t: Text)
    requires IsValidHex(s) && IsValidHex(t)
    ensures IsValidHex(s + t) && Decode(s + t) == Decode(s) + Decode(t)
  {
    DigitsConcat(s, t);
    BytesConcat(Digits(s), Digits(t));
  }

  // ----- preimages as lists of self-delimiting parts

  /** A 32-byte number, or bytes behind a word holding their count. */
  datatype Part = Number(n: uint64) | Sized(data: GoString)

  function EncodePart(p: Part): seq<byte> {
    match p
    case Number(n) => WordBytes(n)
    case Sized(d) => WordBytes(|d|) + d
  }

  function EncodeParts(ps: seq<Part>): seq<byte> {
    if ps == [] then [] else EncodeParts(ps[..|ps| - 1]) + EncodePart(ps[|ps| - 1])
  }

  predicate SameShape(ps: seq<Part>, qs: seq<Part>) {
    |ps| == |qs| && forall i :: 0 <= i < |ps| ==> ps[i].Number? == qs[i].Number?
  }

  lemma {:induction false} PartCut(p: Part, s: seq<byte>, q: Part, t: seq<byte>)
    requires p.Number? == q.Number?
    ensures EncodePart(p) + s == EncodePart(q) + t <==> p == q && s == t
  {
    if p.Number? {
      Cut(WordBytes(p.n), s, WordBytes(q.n), t);
      WordBytesInjective(p.n, q.n);
    } else {
      assert EncodePart(p) + s == WordBytes(|p.data|) + (p.data + s);
      assert EncodePart(q) + t == WordBytes(|q.data|) + (q.data + t);
      Cut(WordBytes(|p.data|), p.data + s, WordBytes(|q.data|), q.data + t);
      WordBytesInjective(|p.data|, |q.data|);
      if |p.data| == |q.data| {
        Cut(p.data, s, q.data, t);
      }
    }
  }

  /** Encodings of the same shape are equal exactly when their parts are: each part says where it ends. */
  lemma {:induction false} PartsCut(ps: seq<Part>, s: seq<byte>, qs: seq<Part>, t: seq<byte>)
    requires SameShape(ps, qs)
    ensures EncodeParts(ps) + s == EncodeParts(qs) + t <==> ps == qs && s == t
    decreases |ps|
  {
    hide EncodePart;
    if ps == [] {
      assert [] + s == s && [] + t == t;
    } else {
      var n := |ps| - 1;
      Assoc(EncodeParts(ps[..n]), EncodePart(ps[n]), s);
      Assoc(EncodeParts(qs[..n]), EncodePart(qs[n]), t);
      PartsCut(ps[..n], EncodePart(ps[n]) + s, qs[..n], EncodePart(qs[n]) + t);
      PartCut(ps[n], s, qs[n], t);
      assert ps == ps[..n] + [ps[n]] && qs == qs[..n] + [qs[n]];
    }
  }

  /** When the first parts are unequal numbers the encodings differ, whatever follows. */
  lemma {:induction false} FirstPartCut(ps: seq<Part>, s: seq<byte>, qs: seq<Part>, t: seq<byte>)
    requires ps != [] && qs != [] && ps[0].Number? && qs[0].Number?
    requires EncodeParts(ps) + s == EncodeParts(qs) + t
    ensures ps[0] == qs[0]
  {
    var x := FirstPart(ps, s);
    var y := FirstPart(qs, t);
    PartCut(ps[0], x, qs[0], y);
  }

  lemma {:induction false} FirstPart(ps: seq<Part>, s: seq<byte>) returns (x: seq<byte>)
    requires ps != []
    ensures EncodeParts(ps) + s == EncodePart(ps[0]) + x
    decreases |ps|
  {
    hide EncodePart;
    var n := |ps| - 1;
    if n == 0 {
      assert EncodeParts(ps[..0]) == [];
      assert EncodeParts(ps) == EncodePart(ps[0]);
      x := s;
    } else {
      x := FirstPart(ps[..n], EncodePart(ps[n]) + s);
      assert EncodeParts(ps) + s == EncodeParts(ps[..n]) + (EncodePart(ps[n]) + s);
    }
  }

  // ----- what the bytes are

  lemma {:induction false} BytesValue(ns: seq<nibble>)
    requires |ns| % 2 == 0
    ensures FromBigEndian(Bytes(ns)) == Value(ns)
    decreases |ns|
  {
    if ns != [] {
      var front, last := ns[..|ns| - 2], ns[|ns| - 2..];
      BytesValue(front);
      BytesConcat(front, last);
      assert ns == front + last;
      assert last[2..] == [] && Bytes(last) == [16 * (last[0] as int) + last[1]];
      assert Bytes(ns)[..|front| / 2] == Bytes(front);
      assert ns[..|ns| - 1][..|ns| - 2] == front;
    }
  }

  /** A 64-bit number in 32 bytes, highest first. */
  function ReadNumber(b: seq<byte>): Parse<uint64> {
    if |b| < 32 || FromBigEndian(b[..32]) >= TWO64 then Malformed else Parsed(FromBigEndian(b[..32]), b[32..])
  }

  /** Bytes behind their number. */
  function ReadSized(b: seq<byte>): Parse<GoString> {
    match ReadNumber(b)
    case Malformed => Malformed
    case Parsed(n, rest) => if |rest| < n || n > MAX_INT then Malformed else Parsed(rest[..n], rest[n..])
  }

  lemma {:induction false} ReadsNumber(n: uint64, rest: seq<byte>)
    ensures ReadNumber(EncodePart(Number(n)) + rest) == Parsed(n, rest)
  {
    hide Bytes, FromBigEndian, Value;
    var b := WordBytes(n) + rest;
    assert b[..32] == WordBytes(n) && b[32..] == rest;
    BytesValue(Digits(Word(n)));
    WordValue(n);
  }

  lemma {:induction false} ReadsSized(d: GoString, rest: seq<byte>)
    ensures ReadSized(EncodePart(Sized(d)) + rest) == Parsed(d, rest)
  {
    hide ReadNumber, WordBytes;
    Assoc(WordBytes(|d|), d, rest);
    ReadsNumber(|d|, d + rest);
    assert (d + rest)[..|d|] == d && (d + rest)[|d|..] == rest;
  }

  lemma {:induction false} EncodesConcat(ps: seq<Part>, qs: seq<Part>)
    ensures EncodeParts(ps + qs) == EncodeParts(ps) + EncodeParts(qs)
    decreases |qs|
  {
    hide EncodePart;
    if qs == [] {
      assert ps + qs == ps && EncodeParts(ps) + [] == EncodeParts(ps);
    } else {
      EncodesConcat(ps, qs[..|qs| - 1]);
      assert (ps + qs)[..|ps + qs| - 1] == ps + qs[..|qs| - 1];
      Assoc(EncodeParts(ps), EncodeParts(qs[..|qs| - 1]), EncodePart(qs[|qs| - 1]));
    }
  }

  /** The first part comes first. */
  lemma {:induction false} EncodesFirst(ps: seq<Part>, rest: seq<byte>)
    requires ps != []
    ensures EncodeParts(ps) + rest == EncodePart(ps[0]) + (EncodeParts(ps[1..]) + rest)
  {
    hide EncodePart;
    assert ps == [ps[0]] + ps[1..];
    EncodesConcat([ps[0]], ps[1..]);
    assert [ps[0]][..0] == [] && EncodeParts([ps[0]]) == [] + EncodePart(ps[0]) == EncodePart(ps[0]);
  }

  // ----- timelock operation ids

  datatype Call = Call(target: GoString, functionName: GoString, data: GoString)

  /** Valid hex is used as it is; anything else is hex-encoded byte by byte. */
  function EncodeOperationData(data: GoString): (r: Text)
    ensures IsValidHex(r)
  {
    if IsValidHex(data) then data else AsciiToHex(data)
  }

  /** The bytes that operation data stands for. */
  function OperationBytes(data: GoString): GoString {
    DecodeAscii(data);
    Decode(EncodeOperationData(data))
  }

  function CallParts(c: Call): (ps: seq<Part>)
    ensures |ps| == 3 && ps[0].Sized? && ps[1].Sized? && ps[2].Sized?
  {
    [Sized(c.target), Sized(c.functionName), Sized(OperationBytes(c.data))]
  }

  function CallsParts(calls: seq<Call>): (ps: seq<Part>)
    ensures |ps| == 3 * |calls| && forall i :: 0 <= i < |ps| ==> ps[i].Sized?
  {
    if calls == [] then [] else CallsParts(calls[..|calls| - 1]) + CallParts(calls[|calls| - 1])
  }

  /** The call count, the calls, the predecessor and the salt. */
  function TimelockOpParts(calls: seq<Call>, predecessor: GoString, salt: GoString): (ps: seq<Part>)
    requires |calls| < TWO64 && IsValidHex(predecessor) && IsValidHex(salt)
  {
    [Number(|calls|)] + CallsParts(calls) + [Sized(Decode(predecessor)), Sized(Decode(salt))]
  }

  datatype Preimage = Preimage(bytes: seq<byte>) | InvalidHex

  /** The text so far is hex and decodes to these parts. */
  ghost predicate Spells(sb: Text, ps: seq<Part>) {
    IsValidHex(sb) && Decode(sb) == EncodeParts(ps)
  }

  lemma {:induction false} SpellsSized(sb: Text, ps: seq<Part>, n: uint64, h: Text, data: GoString)
    requires Spells(sb, ps) && IsValidHex(h) && Decode(h) == data && n == |data|
    ensures Spells(sb + Word(n) + h, ps + [Sized(data)])
  {
    hide Bytes, Digits, AllHex, Word;
    DecodeConcat(sb, Word(n));
    DecodeConcat(sb + Word(n), h);
    assert (ps + [Sized(data)])[..|ps|] == ps;
    assert EncodeParts(ps) + WordBytes(n) + data == EncodeParts(ps) + (WordBytes(n) + data);
  }

  /** Hex text behind the number of bytes it stands for. */
  method WriteSized(sb: Text, n: uint64, h: Text, ghost ps: seq<Part>, ghost data: GoString) returns (r: Text)
    requires Spells(sb, ps) && IsValidHex(h) && Decode(h) == data && n == |data|
    ensures r == sb + Word(n) + h && Spells(r, ps + [Sized(data)])
  {
    hide Decode, AllHex, Word, EncodePart, EncodeParts;
    r := sb + Word(n);
    r := r + h;
    SpellsSized(sb, ps, n, h, data);
  }

  method WriteCall(sb: Text, c: Call, ghost ps: seq<Part>) returns (r: Text)
    requires Spells(sb, ps)
    ensures Spells(r, ps + CallParts(c))
  {
    hide Decode, AllHex, Word, EncodePart, EncodeParts, CallParts, AsciiToHex, EncodeOperationData;
    DecodeAscii(c.target);
    r := WriteSized(sb, |c.target|, AsciiToHex(c.target), ps, c.target);
    DecodeAscii(c.functionName);
    ghost var qs := ps + [Sized(c.target)];
    r := WriteSized(r, |c.functionName|, AsciiToHex(c.functionName), qs, c.functionName);
    var opData := EncodeOperationData(c.data);
    ghost var data := OperationBytes(c.data);
    r := WriteSized(r, |opData| / 2, opData, qs + [Sized(c.functionName)], data);
    AddsCall(ps, c);
  }

  lemma {:induction false} AddsCall(ps: seq<Part>, c: Call)
    ensures ps + [Sized(c.target)] + [Sized(c.functionName)] + [Sized(OperationBytes(c.data))] == ps + CallParts(c)
  {
    hide OperationBytes;
  }

  lemma {:induction false} CountSpelled(n: uint64)
    ensures Spells(Word(n), [Number(n)])
  {
    hide Bytes, Digits, AllHex, Word;
    var ps := [Number(n)];
    assert ps[..0] == [] && EncodeParts(ps) == [] + WordBytes(n);
  }

  /** The count and the calls. */
  ghost predicate SpellsCalls(sb: Text, calls: seq<Call>)
    requires |calls| < TWO64
  {
    Spells(sb, [Number(|calls|)] + CallsParts(calls))
  }

  method WriteCalls(calls: seq<Call>) returns (sb: Text)
    requires |calls| < TWO64
    ensures SpellsCalls(sb, calls)
  {
    hide Bytes, Digits, AllHex, Word, EncodePart, CallParts;
    ghost var ps: seq<Part> := [Number(|calls|)];
    CountSpelled(|calls|);
    sb := Word(|calls|);
    for i := 0 to |calls|
      invariant ps == [Number(|calls|)] + CallsParts(calls[..i])
      invariant Spells(sb, ps)
    {
      assert calls[..i + 1][..i] == calls[..i];
      sb := WriteCall(sb, calls[i], ps);
      ps := ps + CallParts(calls[i]);
    }
    assert calls[..|calls|] == calls;
  }

  lemma {:induction false} PiecesHex(a: Text, v: Text, p: Text, w: Text, s: Text, whole: Text)
    requires AllHex(a) && AllHex(v) && AllHex(w) && whole == a + v + p + w + s
    ensures AllHex(whole) <==> AllHex(p) && AllHex(s)
  {
    if AllHex(whole) {
      assert forall i :: 0 <= i < |p| ==> p[i] == whole[|a| + |v| + i];
      assert forall i :: 0 <= i < |s| ==> s[i] == whole[|a| + |v| + |p| + |w| + i];
    }
  }

  lemma {:induction false} SpellsTwo(sb: Text, ps: seq<Part>, g: Text, p: GoString, h: Text, s: GoString)
    requires Spells(sb, ps) && IsValidHex(g) && Decode(g) == p && IsValidHex(h) && Decode(h) == s
    ensures Spells(sb + Word(|p|) + g + Word(|s|) + h, ps + [Sized(p), Sized(s)])
  {
    hide Decode, AllHex, Word, EncodePart, EncodeParts;
    SpellsSized(sb, ps, |p|, g, p);
    SpellsSized(sb + Word(|p|) + g, ps + [Sized(p)], |s|, h, s);
    AppendPair(ps, Sized(p), Sized(s));
  }

  /** `hashTimelockOpID` up to the final hash; its callers pass the predecessor and the salt in hex. */
  method TimelockOpPreimage(calls: seq<Call>, predecessor: GoString, salt: GoString) returns (r: Preimage)
    requires |calls| < TWO64
    ensures IsValidHex(predecessor) && IsValidHex(salt) ==>
      r == Preimage(EncodeParts(TimelockOpParts(calls, predecessor, salt)))
    ensures r.InvalidHex? <==> !AllHex(predecessor) || !AllHex(salt) || (|predecessor| + |salt|) % 2 != 0
  {
    hide Decode, AllHex, Word, EncodePart, EncodeParts, CallsParts;
    var text := WriteCalls(calls);
    var sb := text + Word(|predecessor| / 2) + predecessor;
    sb := sb + Word(|salt| / 2) + salt;
    if IsValidHex(predecessor) && IsValidHex(salt) {
      SpellsTwo(text, [Number(|calls|)] + CallsParts(calls), predecessor, Decode(predecessor), salt, Decode(salt));
    }
    PiecesHex(text, Word(|predecessor| / 2), predecessor, Word(|salt| / 2), salt, sb);
    return if IsValidHex(sb) then Preimage(Decode(sb)) else InvalidHex;
  }

  /** The same call as the contract sees it: operation data compared as bytes. */
  ghost predicate SameCall(c: Call, d: Call) {
    c.target == d.target && c.functionName == d.functionName && OperationBytes(c.data) == OperationBytes(d.data)
  }

  ghost predicate SameCalls(cs: seq<Call>, ds: seq<Call>) {
    |cs| == |ds| && forall i :: 0 <= i < |cs| ==> SameCall(cs[i], ds[i])
  }

  lemma {:induction false} CallsPartsInjective(cs: seq<Call>, ds: seq<Call>)
    requires |cs| == |ds|
    ensures CallsParts(cs) == CallsParts(ds) <==> SameCalls(cs, ds)
  {
    if cs != [] {
      var n := |cs| - 1;
      CallsPartsInjective(cs[..n], ds[..n]);
      Cut(CallsParts(cs[..n]), CallParts(cs[n]), CallsParts(ds[..n]), CallParts(ds[n]));
      var ps, qs := CallParts(cs[n]), CallParts(ds[n]);
      assert ps == qs <==> ps[0] == qs[0] && ps[1] == qs[1] && ps[2] == qs[2];
      SameCallsSnoc(cs, ds);
    }
  }

  lemma {:induction false} SameCallsSnoc(cs: seq<Call>, ds: seq<Call>)
    requires |cs| == |ds| > 0
    ensures var n := |cs| - 1; SameCalls(cs, ds) <==> SameCalls(cs[..n], ds[..n]) && SameCall(cs[n], ds[n])
  {
    var n := |cs| - 1;
    if SameCalls(cs[..n], ds[..n]) && SameCall(cs[n], ds[n]) {
      forall i | 0 <= i < |cs|
        ensures SameCall(cs[i], ds[i])
      {
        assert i < n ==> cs[i] == cs[..n][i] && ds[i] == ds[..n][i];
      }
    }
  }

  /** The preimage determines the calls, the predecessor and the salt, as bytes, and nothing else. */
  lemma {:induction false} TimelockOpPreimageUnique(cs: seq<Call>, p: GoString, s: GoString, ds: seq<Call>,
        q: GoString, t: GoString)
    requires |cs| < TWO64 && |ds| < TWO64
    requires IsValidHex(p) && IsValidHex(s) && IsValidHex(q) && IsValidHex(t)
    ensures EncodeParts(TimelockOpParts(cs, p, s)) == EncodeParts(TimelockOpParts(ds, q, t)) <==>
      SameCalls(cs, ds) && Decode(p) == Decode(q) && Decode(s) == Decode(t)
  {
    hide EncodePart, Bytes, Digits, AllHex, Word;
    var ps, qs := TimelockOpParts(cs, p, s), TimelockOpParts(ds, q, t);
    assert EncodeParts(ps) + [] == EncodeParts(ps) && EncodeParts(qs) + [] == EncodeParts(qs);
    if |cs| == |ds| {
      PartsCut(ps, [], qs, []);
      TimelockOpPartsInjective(cs, p, s, ds, q, t);
    } else if EncodeParts(ps) == EncodeParts(qs) {
      FirstPartCut(ps, [], qs, []);
    }
  }

  lemma {:induction false} TimelockOpPartsInjective(cs: seq<Call>, p: GoString, s: GoString, ds: seq<Call>,
        q: GoString, t: GoString)
    requires |cs| == |ds| < TWO64
    requires IsValidHex(p) && IsValidHex(s) && IsValidHex(q) && IsValidHex(t)
    ensures TimelockOpParts(cs, p, s) == TimelockOpParts(ds, q, t) <==>
      SameCalls(cs, ds) && Decode(p) == Decode(q) && Decode(s) == Decode(t)
  {
    var n: seq<Part> := [Number(|cs|)];
    var x: seq<Part>, y: seq<Part> := [Sized(Decode(p)), Sized(Decode(s))], [Sized(Decode(q)), Sized(Decode(t))];
    CallsPartsInjective(cs, ds);
    Cut(n, CallsParts(cs), n, CallsParts(ds));
    Cut(n + CallsParts(cs), x, n + CallsParts(ds), y);
    assert x == y <==> x[0] == y[0] && x[1] == y[1];
  }

  /** A timelock operation as its hashed bytes give it; operation data is read as bytes. */
  datatype Hashed = Hashed(calls: seq<Call>, predecessor: GoString, salt: GoString)

  function ReadCall(b: seq<byte>): Parse<Call> {
    match ReadSized(b) case Malformed => Malformed case Parsed(target, b1) =>
    match ReadSized(b1) case Malformed => Malformed case Parsed(functionName, b2) =>
    match ReadSized(b2) case Malformed => Malformed case Parsed(data, rest) =>
    Parsed(Call(target, functionName, data), rest)
  }

  function ReadCalls(b: seq<byte>, n: nat): Parse<seq<Call>>
    decreases n
  {
    if n == 0 then Parsed([], b)
    else
      match ReadCall(b) case Malformed => Malformed case Parsed(c, rest) =>
      match ReadCalls(rest, n - 1) case Malformed => Malformed case Parsed(more, end) =>
      Parsed([c] + more, end)
  }

  /** The calls behind their number, then the predecessor, then the salt. */
  function ReadHashed(b: seq<byte>): Parse<Hashed> {
    match ReadNumber(b) case Malformed => Malformed case Parsed(n, b1) =>
    match ReadCalls(b1, n) case Malformed => Malformed case Parsed(calls, b2) =>
    match ReadSized(b2) case Malformed => Malformed case Parsed(predecessor, b3) =>
    match ReadSized(b3) case Malformed => Malformed case Parsed(salt, rest) =>
    Parsed(Hashed(calls, predecessor, salt), rest)
  }

  /** The call with the bytes that its data stands for: hex is decoded, any other text is taken as it is. */
  ghost function AsBytes(c: Call): Call {
    c.(data := if IsValidHex(c.data) then Decode(c.data) else c.data)
  }

  ghost function AllAsBytes(calls: seq<Call>): (r: seq<Call>)
    ensures |r| == |calls|
  {
    seq(|calls|, i requires 0 <= i < |calls| => AsBytes(calls[i]))
  }

  lemma {:induction false} ReadsCall(c: Call, rest: seq<byte>)
    ensures ReadCall(EncodeParts(CallParts(c)) + rest) == Parsed(AsBytes(c), rest)
  {
    hide EncodePart, EncodeParts, ReadSized, OperationBytes, Decode, AllHex;
    var ps := CallParts(c);
    HexBytes(c.data);
    EncodesFirst(ps, rest);
    EncodesFirst(ps[1..], rest);
    EncodesFirst(ps[2..], rest);
    assert ps[1..][1..] == ps[2..] && ps[2..][1..] == [];
    assert EncodeParts([]) == [] by { NoParts(); }
    assert [] + rest == rest;
    ReadsSized(ps[0].data, EncodeParts(ps[1..]) + rest);
    ReadsSized(ps[1].data, EncodeParts(ps[2..]) + rest);
    ReadsSized(ps[2].data, rest);
  }

  lemma {:induction false} NoParts()
    ensures EncodeParts([]) == []
  {
  }

  lemma {:induction false} PartsOfFirst(calls: seq<Call>)
    requires calls != []
    ensures CallsParts(calls) == CallParts(calls[0]) + CallsParts(calls[1..])
    decreases |calls|
  {
    hide CallParts;
    var n := |calls| - 1;
    if n == 0 {
      assert calls[..0] == [] && calls[1..] == [];
    } else {
      PartsOfFirst(calls[..n]);
      assert calls[..n][1..] == calls[1..][..n - 1];
      Assoc(CallParts(calls[0]), CallsParts(calls[1..][..n - 1]), CallParts(calls[n]));
    }
  }

  lemma {:induction false} ReadsCalls(calls: seq<Call>, rest: seq<byte>)
    ensures ReadCalls(EncodeParts(CallsParts(calls)) + rest, |calls|) == Parsed(AllAsBytes(calls), rest)
    decreases |calls|
  {
    hide EncodeParts, CallParts, CallsParts, ReadCall, AsBytes;
    if calls == [] {
      assert CallsParts([]) == [];
      NoParts();
      assert [] + rest == rest;
    } else {
      var tail := EncodeParts(CallsParts(calls[1..])) + rest;
      PartsOfFirst(calls);
      EncodesConcat(CallParts(calls[0]), CallsParts(calls[1..]));
      Assoc(EncodeParts(CallParts(calls[0])), EncodeParts(CallsParts(calls[1..])), rest);
      ReadsCall(calls[0], tail);
      ReadsCalls(calls[1..], rest);
      assert AllAsBytes(calls) == [AsBytes(calls[0])] + AllAsBytes(calls[1..]);
    }
  }

  /** Reading the preimage gives the calls, the predecessor and the salt. */
  lemma {:induction false} ReadsTimelockOp(calls: seq<Call>, predecessor: GoString, salt: GoString)
    requires |calls| < TWO64 && IsValidHex(predecessor) && IsValidHex(salt)
    ensures ReadHashed(EncodeParts(TimelockOpParts(calls, predecessor, salt)))
         == Parsed(Hashed(AllAsBytes(calls), Decode(predecessor), Decode(salt)), [])
  {
    hide EncodePart, EncodeParts, CallsParts, ReadNumber, ReadCalls, ReadSized, AllAsBytes, Bytes, Digits, AllHex;
    var ps := TimelockOpParts(calls, predecessor, salt);
    var end: seq<Part> := [Sized(Decode(predecessor)), Sized(Decode(salt))];
    var cs := CallsParts(calls);
    var b := EncodeParts(end);
    assert EncodeParts(ps) + [] == EncodeParts(ps) && b + [] == b;
    assert ps[1..] == cs + end;
    EncodesFirst(ps, []);
    EncodesConcat(cs, end);
    assert EncodeParts(ps[1..]) + [] == EncodeParts(cs) + b;
    ReadsNumber(|calls|, EncodeParts(cs) + b);
    ReadsCalls(calls, b);
    EncodesFirst(end, []);
    EncodesFirst(end[1..], []);
    assert end[1..][1..] == [];
    NoParts();
    assert EncodeParts([]) + [] == [];
    ReadsSized(end[0].data, EncodeParts(end[1..]) + []);
    ReadsSized(end[1].data, []);
  }

  /** Different operation-data texts can be the same bytes: "zz" is not hex, "7a7a" is, and both encode to 7a7a. */
  lemma {:induction false} TextsCanShareBytes() returns (a: GoString, b: GoString)
    ensures a != b && EncodeOperationData(a) == EncodeOperationData(b)
  {
    a, b := [122, 122], [55, 97, 55, 97];
    assert AsciiToHex([122, 122]) == [Digit(7), Digit(10)] + AsciiToHex([122]);
    assert AsciiToHex([122]) == [Digit(7), Digit(10)] + AsciiToHex([]);
    assert !IsHexDigit(a[0]);
  }

  predicate IsLetter(c: byte) {
    97 <= c <= 102 || 65 <= c <= 70
  }

  /** The other case of a hex letter. */
  function OtherCase(c: byte): byte
    requires IsLetter(c)
  {
    if c <= 70 then c + 32 else c - 32
  }

  /** Hex of decimal digits whose bytes are themselves hex, or text too long to have a hex form. */
  ghost predicate OnlyText(a: GoString) {
    if IsValidHex(a) then (forall i :: 0 <= i < |a| ==> !IsLetter(a[i])) && IsValidHex(Decode(a))
    else 2 * |a| > MAX_INT
  }

  lemma {:induction false} HexBytes(a: GoString)
    ensures OperationBytes(a) == if IsValidHex(a) then Decode(a) else a
  {
    DecodeAscii(a);
  }

  lemma {:induction false} DecimalDigitsDetermineText(a: Text, b: Text)
    requires AllHex(a) && AllHex(b) && Digits(a) == Digits(b)
    requires forall i :: 0 <= i < |a| ==> !IsLetter(a[i])
    ensures a == b
  {
    assert |a| == |Digits(a)| == |b|;
    forall i | 0 <= i < |a|
      ensures a[i] == b[i]
    {
      assert Digits(a)[i] == DigitValue(a[i]) && Digits(b)[i] == DigitValue(b[i]);
    }
  }

  lemma {:induction false} OnlyTextIsAlone(a: GoString, b: GoString)
    requires OnlyText(a) && OperationBytes(a) == OperationBytes(b)
    ensures a == b
  {
    hide OperationBytes, Bytes;
    HexBytes(a);
    HexBytes(b);
    if IsValidHex(a) && IsValidHex(b) {
      BytesInjective(Digits(a), Digits(b));
      DecimalDigitsDetermineText(a, b);
    }
  }

  lemma {:induction false} CaseDoesNotMatter(a: GoString, i: nat)
    requires IsValidHex(a) && i < |a| && IsLetter(a[i])
    ensures var b: GoString := a[i := OtherCase(a[i])]; b != a && OperationBytes(b) == OperationBytes(a)
  {
    hide Bytes;
    var b: GoString := a[i := OtherCase(a[i])];
    assert b[i] != a[i];
    assert Digits(b) == Digits(a);
  }

  lemma {:induction false} OtherText(a: GoString) returns (b: GoString)
    requires !OnlyText(a)
    ensures b != a && OperationBytes(b) == OperationBytes(a)
  {
    hide OperationBytes, Bytes, Digits;
    HexBytes(a);
    if !IsValidHex(a) {
      b := AsciiToHex(a);
      DecodeAscii(a);
      HexBytes(b);
    } else if i :| 0 <= i < |a| && IsLetter(a[i]) {
      b := a[i := OtherCase(a[i])];
      CaseDoesNotMatter(a, i);
    } else {
      b := Decode(a);
      HexBytes(b);
    }
  }

  /** A text shares its bytes with no other text if and only if it is of that kind. */
  lemma {:induction false} TextAloneIff(a: GoString)
    ensures (forall b: GoString :: OperationBytes(a) == OperationBytes(b) ==> a == b) <==> OnlyText(a)
  {
    hide OperationBytes, OnlyText;
    if OnlyText(a) {
      forall b: GoString | OperationBytes(a) == OperationBytes(b)
        ensures a == b
      {
        OnlyTextIsAlone(a, b);
      }
    } else {
      var b := OtherText(a);
    }
  }

  /** Data that the SDK produced from bytes is always hex, so there different bytes never meet. */
  lemma {:induction false} EncodedBytesStayApart(x: GoString, y: GoString)
    requires |x| * 2 <= MAX_INT && |y| * 2 <= MAX_INT
    ensures OperationBytes(AsciiToHex(x)) == OperationBytes(AsciiToHex(y)) <==> x == y
  {
    DecodeAscii(x);
    DecodeAscii(y);
  }

  // ----- Merkle leaves

  /** The fields of an operation leaf; `data` is the transaction's raw bytes. */
  datatype OpLeaf = OpLeaf(
    chainId: uint64, multisig: GoString, nonce: uint64, target: GoString, functionName: GoString, data: GoString)

  function OpLeafParts(l: OpLeaf): (ps: seq<Part>)
    ensures |ps| == 6
  {
    [Number(l.chainId), Sized(l.multisig), Number(l.nonce), Sized(l.target), Sized(l.functionName), Sized(l.data)]
  }

  /** The text that `HashOperation` concatenates behind the hex domain separator. */
  function OpLeafText(domain: Text, l: OpLeaf): Text {
    domain + Word(l.chainId) + Word(|l.multisig|) + AsciiToHex(l.multisig) + Word(l.nonce)
    + Word(|l.target|) + AsciiToHex(l.target) + Word(|l.functionName|) + AsciiToHex(l.functionName)
    + Word(|AsciiToHex(l.data)| / 2) + AsciiToHex(l.data)
  }

  /** Domain separators are fixed hex constants. */
  ghost predicate SpellsAfter(domain: Text, sb: Text, ps: seq<Part>) {
    IsValidHex(domain) && IsValidHex(sb) && Decode(sb) == Decode(domain) + EncodeParts(ps)
  }

  /** Text behind its length spells a sized part. */
  lemma {:induction false} AsciiPart(x: GoString)
    ensures IsValidHex(Word(|x|) + AsciiToHex(x))
    ensures Decode(Word(|x|) + AsciiToHex(x)) == EncodePart(Sized(x))
  {
    hide Bytes, Digits, AllHex, Word, AsciiToHex;
    DecodeAscii(x);
    DecodeConcat(Word(|x|), AsciiToHex(x));
  }

  lemma {:induction false} After(domain: Text, sb: Text, ps: seq<Part>, t: Text, p: Part)
    requires SpellsAfter(domain, sb, ps)
    requires IsValidHex(t) && Decode(t) == EncodePart(p)
    ensures SpellsAfter(domain, sb + t, ps + [p])
  {
    hide Decode, AllHex, EncodePart;
    DecodeConcat(sb, t);
    assert (ps + [p])[..|ps|] == ps;
    assert Decode(domain) + EncodeParts(ps) + EncodePart(p) == Decode(domain) + (EncodeParts(ps) + EncodePart(p));
  }

  lemma {:induction false} AfterNumber(domain: Text, sb: Text, ps: seq<Part>, n: uint64)
    requires SpellsAfter(domain, sb, ps)
    ensures SpellsAfter(domain, sb + Word(n), ps + [Number(n)])
  {
    hide Bytes, Digits, AllHex, Word, EncodeParts;
    After(domain, sb, ps, Word(n), Number(n));
  }

  lemma {:induction false} AfterAscii(domain: Text, sb: Text, ps: seq<Part>, x: GoString)
    requires SpellsAfter(domain, sb, ps)
    ensures SpellsAfter(domain, sb + Word(|x|) + AsciiToHex(x), ps + [Sized(x)])
  {
    hide Decode, AllHex, Word, AsciiToHex, EncodePart, EncodeParts;
    AsciiPart(x);
    After(domain, sb, ps, Word(|x|) + AsciiToHex(x), Sized(x));
    Assoc(sb, Word(|x|), AsciiToHex(x));
  }

  lemma {:induction false} DomainSpelled(domain: Text)
    requires IsValidHex(domain)
    ensures SpellsAfter(domain, domain, [])
  {
    hide AllHex, Decode;
    assert Decode(domain) + [] == Decode(domain);
  }

  lemma {:induction false} OpLeafSpelled(domain: Text, l: OpLeaf)
    requires IsValidHex(domain)
    ensures SpellsAfter(domain, OpLeafText(domain, l), OpLeafParts(l))
  {
    hide SpellsAfter, Word, AsciiToHex;
    var ps := OpLeafParts(l);
    var t1 := domain + Word(l.chainId);
    var t2 := t1 + Word(|l.multisig|) + AsciiToHex(l.multisig);
    var t3 := t2 + Word(l.nonce);
    var t4 := t3 + Word(|l.target|) + AsciiToHex(l.target);
    var t5 := t4 + Word(|l.functionName|) + AsciiToHex(l.functionName);
    DomainSpelled(domain);
    assert ps[..0] == [];
    AfterNumber(domain, domain, ps[..0], l.chainId);
    assert ps[..0] + [ps[0]] == ps[..1];
    AfterAscii(domain, t1, ps[..1], l.multisig);
    assert ps[..1] + [ps[1]] == ps[..2];
    AfterNumber(domain, t2, ps[..2], l.nonce);
    assert ps[..2] + [ps[2]] == ps[..3];
    AfterAscii(domain, t3, ps[..3], l.target);
    assert ps[..3] + [ps[3]] == ps[..4];
    AfterAscii(domain, t4, ps[..4], l.functionName);
    assert ps[..4] + [ps[4]] == ps[..5];
    AfterAscii(domain, t5, ps[..5], l.data);
    assert ps[..5] + [ps[5]] == ps;
  }

  function ReadOpLeaf(b: seq<byte>): Parse<OpLeaf> {
    match ReadNumber(b) case Malformed => Malformed case Parsed(chainId, b1) =>
    match ReadSized(b1) case Malformed => Malformed case Parsed(multisig, b2) =>
    match ReadNumber(b2) case Malformed => Malformed case Parsed(nonce, b3) =>
    match ReadSized(b3) case Malformed => Malformed case Parsed(target, b4) =>
    match ReadSized(b4) case Malformed => Malformed case Parsed(functionName, b5) =>
    match ReadSized(b5) case Malformed => Malformed case Parsed(data, rest) =>
    Parsed(OpLeaf(chainId, multisig, nonce, target, functionName, data), rest)
  }

  lemma {:induction false} ReadsPart(ps: seq<Part>, k: nat, rest: seq<byte>)
    requires k < |ps|
    ensures var b, next := EncodeParts(ps[k..]) + rest, EncodeParts(ps[k + 1..]) + rest;
      && (ps[k].Number? ==> ReadNumber(b) == Parsed(ps[k].n, next))
      && (ps[k].Sized? ==> ReadSized(b) == Parsed(ps[k].data, next))
  {
    hide EncodePart, EncodeParts, ReadNumber, ReadSized;
    EncodesFirst(ps[k..], rest);
    assert ps[k..][1..] == ps[k + 1..];
    if ps[k].Number? {
      ReadsNumber(ps[k].n, EncodeParts(ps[k + 1..]) + rest);
    } else {
      ReadsSized(ps[k].data, EncodeParts(ps[k + 1..]) + rest);
    }
  }

  lemma {:induction false} ReadsOpLeafParts(l: OpLeaf)
    ensures ReadOpLeaf(EncodeParts(OpLeafParts(l)) + []) == Parsed(l, [])
  {
    hide EncodeParts, ReadNumber, ReadSized;
    var ps := OpLeafParts(l);
    ReadsPart(ps, 0, []);
    ReadsPart(ps, 1, []);
    ReadsPart(ps, 2, []);
    ReadsPart(ps, 3, []);
    ReadsPart(ps, 4, []);
    ReadsPart(ps, 5, []);
    assert ps[0..] == ps && ps[6..] == [];
    NoParts();
  }

  lemma {:induction false} BehindDomain(domain: Text, sb: Text, ps: seq<Part>)
    requires SpellsAfter(domain, sb, ps)
    ensures IsValidHex(domain) && IsValidHex(sb) && Decode(domain) <= Decode(sb)
    ensures Decode(sb)[|Decode(domain)|..] == EncodeParts(ps) + []
  {
    hide AllHex, Bytes, Digits, EncodeParts;
    CutAt(Decode(domain), EncodeParts(ps));
    assert EncodeParts(ps) + [] == EncodeParts(ps);
  }

  /** The bytes are those of the domain separator and then the fields, in the order of `OpLeaf`. */
  lemma {:induction false} ReadsOpLeaf(domain: Text, l: OpLeaf)
    requires IsValidHex(domain)
    ensures IsValidHex(OpLeafText(domain, l))
    ensures var b, d := Decode(OpLeafText(domain, l)), Decode(domain); d <= b && ReadOpLeaf(b[|d|..]) == Parsed(l, [])
  {
    hide *;
    OpLeafSpelled(domain, l);
    ReadsOpLeafParts(l);
    BehindDomain(domain, OpLeafText(domain, l), OpLeafParts(l));
  }

  /** The operation-leaf preimage determines every field. */
  lemma {:induction false} OpLeafPreimageUnique(domain: Text, l: OpLeaf, m: OpLeaf)
    requires IsValidHex(domain)
    ensures IsValidHex(OpLeafText(domain, l)) && IsValidHex(OpLeafText(domain, m))
    ensures Decode(OpLeafText(domain, l)) == Decode(OpLeafText(domain, m)) <==> l == m
  {
    hide Bytes, Digits, AllHex, OpLeafText, ReadOpLeaf;
    ReadsOpLeaf(domain, l);
    ReadsOpLeaf(domain, m);
  }

  datatype MetadataLeaf = MetadataLeaf(
    chainId: uint64, multisig: GoString, preOpCount: uint64, postOpCount: uint64, overridePrevious: bool)

  function MetadataLeafParts(l: MetadataLeaf): (ps: seq<Part>)
    ensures |ps| == 4
  {
    [Number(l.chainId), Sized(l.multisig), Number(l.preOpCount), Number(l.postOpCount)]
  }

  function Flag(b: bool): (r: Text)
    ensures IsValidHex(r) && |r| == 2
  {
    [48, if b then 49 else 48]
  }

  function MetadataLeafText(domain: Text, l: MetadataLeaf): Text {
    domain + Word(l.chainId) + Word(|l.multisig|) + AsciiToHex(l.multisig) + Word(l.preOpCount) + Word(l.postOpCount)
    + Flag(l.overridePrevious)
  }

  lemma {:induction false} MetadataLeafSpelled(domain: Text, l: MetadataLeaf)
    requires IsValidHex(domain)
    ensures IsValidHex(MetadataLeafText(domain, l))
    ensures Decode(MetadataLeafText(domain, l))
         == Decode(domain) + (EncodeParts(MetadataLeafParts(l)) + Decode(Flag(l.overridePrevious)))
  {
    hide AllHex, Decode, Word, AsciiToHex, EncodePart, EncodeParts;
    var ps := MetadataLeafParts(l);
    var t1 := domain + Word(l.chainId);
    var t2 := t1 + Word(|l.multisig|) + AsciiToHex(l.multisig);
    var t3 := t2 + Word(l.preOpCount);
    var t4 := t3 + Word(l.postOpCount);
    DomainSpelled(domain);
    assert ps[..0] == [];
    AfterNumber(domain, domain, ps[..0], l.chainId);
    assert ps[..0] + [ps[0]] == ps[..1];
    AfterAscii(domain, t1, ps[..1], l.multisig);
    assert ps[..1] + [ps[1]] == ps[..2];
    AfterNumber(domain, t2, ps[..2], l.preOpCount);
    assert ps[..2] + [ps[2]] == ps[..3];
    AfterNumber(domain, t3, ps[..3], l.postOpCount);
    assert ps[..3] + [ps[3]] == ps;
    DecodeConcat(t4, Flag(l.overridePrevious));
  }

  /** The override flag is the last byte: 1 for yes, 0 for no. */
  function ReadMetadataLeaf(b: seq<byte>): Parse<MetadataLeaf> {
    match ReadNumber(b) case Malformed => Malformed case Parsed(chainId, b1) =>
    match ReadSized(b1) case Malformed => Malformed case Parsed(multisig, b2) =>
    match ReadNumber(b2) case Malformed => Malformed case Parsed(preOpCount, b3) =>
    match ReadNumber(b3) case Malformed => Malformed case Parsed(postOpCount, b4) =>
    if b4 == [] || b4[0] > 1 then Malformed
    else Parsed(MetadataLeaf(chainId, multisig, preOpCount, postOpCount, b4[0] == 1), b4[1..])
  }

  lemma {:induction false} FlagByte(b: bool)
    ensures Decode(Flag(b)) == [if b then 1 else 0]
  {
    assert Digits(Flag(b)) == [0, if b then 1 else 0];
    assert Digits(Flag(b))[2..] == [];
  }

  /** The bytes are those of the domain separator and then the fields, in the order of `MetadataLeaf`. */
  lemma {:induction false} ReadsMetadataLeaf(domain: Text, l: MetadataLeaf)
    requires IsValidHex(domain)
    ensures IsValidHex(MetadataLeafText(domain, l))
    ensures var b, d := Decode(MetadataLeafText(domain, l)), Decode(domain);
      d <= b && ReadMetadataLeaf(b[|d|..]) == Parsed(l, [])
  {
    hide EncodeParts, ReadNumber, ReadSized, Bytes, Digits, AllHex, MetadataLeafText;
    var ps, f := MetadataLeafParts(l), Decode(Flag(l.overridePrevious));
    MetadataLeafSpelled(domain, l);
    FlagByte(l.overridePrevious);
    var e := EncodeParts(ps) + f;
    CutAt(Decode(domain), e);
    ReadsPart(ps, 0, f);
    ReadsPart(ps, 1, f);
    ReadsPart(ps, 2, f);
    ReadsPart(ps, 3, f);
    assert ps[0..] == ps && ps[4..] == [];
    NoParts();
    assert [] + f == f;
  }

  /** The metadata-leaf preimage determines every field. */
  lemma {:induction false} MetadataLeafPreimageUnique(domain: Text, l: MetadataLeaf, m: MetadataLeaf)
    requires IsValidHex(domain)
    ensures IsValidHex(MetadataLeafText(domain, l)) && IsValidHex(MetadataLeafText(domain, m))
    ensures Decode(MetadataLeafText(domain, l)) == Decode(MetadataLeafText(domain, m)) <==> l == m
  {
    hide Bytes, Digits, AllHex, MetadataLeafText, ReadMetadataLeaf;
    ReadsMetadataLeaf(domain, l);
    ReadsMetadataLeaf(domain, m);
  }
}
