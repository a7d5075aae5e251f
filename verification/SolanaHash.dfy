/** The bytes that a Solana timelock operation id hashes (sdk/solana/timelock_converter.go). */
module SolanaHash {

  import opened ByteStrings
  import opened GoTypes

  datatype Account = Account(key: Word, signer: bool, writable: bool)

  datatype Instruction = Instruction(program: Word, accounts: seq<Account>, data: seq<byte>)

  /** A length cast to uint32, in four little-endian bytes. */
  function Length(n: nat): (r: seq<byte>)
    ensures |r| == 4
  {
    LittleEndian(n % TWO32, 4)
  }

  function BoolToByte(b: bool): byte {
    if b then 1 else 0
  }

  function EncodeAccount(a: Account): (r: seq<byte>)
    ensures |r| == 34
  {
    a.key + [BoolToByte(a.signer), BoolToByte(a.writable)]
  }

  function EncodeAccounts(accounts: seq<Account>): (r: seq<byte>)
    ensures |r| == 34 * |accounts|
  {
    if accounts == [] then []
    else EncodeAccounts(accounts[..|accounts| - 1]) + EncodeAccount(accounts[|accounts| - 1])
  }

  function EncodeInstruction(ix: Instruction): seq<byte> {
    ix.program + Length(|ix.accounts|) + EncodeAccounts(ix.accounts) + Length(|ix.data|) + ix.data
  }

  function EncodeInstructions(ixs: seq<Instruction>): seq<byte> {
    if ixs == [] then []
    else EncodeInstructions(ixs[..|ixs| - 1]) + EncodeInstruction(ixs[|ixs| - 1])
  }

  function Encode(ixs: seq<Instruction>, predecessor: Word, salt: Word): seq<byte> {
    Length(|ixs|) + EncodeInstructions(ixs) + predecessor + salt
  }

  // ----- the buffer

  method WriteAccounts(buffer: seq<byte>, accounts: seq<Account>) returns (encoded: seq<byte>)
    ensures encoded == buffer + EncodeAccounts(accounts)
  {
    encoded := buffer;
    for i := 0 to |accounts|
      invariant encoded == buffer + EncodeAccounts(accounts[..i])
    {
      hide EncodeAccount;
      var acc := accounts[i];
      encoded := encoded + EncodeAccount(acc);
      assert accounts[..i + 1][..i] == accounts[..i];
      Assoc(buffer, EncodeAccounts(accounts[..i]), EncodeAccount(acc));
    }
    assert accounts[..|accounts|] == accounts;
  }

  lemma {:induction false} InstructionParts(buffer: seq<byte>, ix: Instruction)
    ensures buffer + ix.program + Length(|ix.accounts|) + EncodeAccounts(ix.accounts) + Length(|ix.data|) + ix.data
         == buffer + EncodeInstruction(ix)
  {
    hide Length, EncodeAccounts;
  }

  method WriteInstruction(buffer: seq<byte>, ix: Instruction) returns (encoded: seq<byte>)
    ensures encoded == buffer + EncodeInstruction(ix)
  {
    hide Length, EncodeAccounts, EncodeInstruction;
    encoded := buffer + ix.program + Length(|ix.accounts|);
    encoded := WriteAccounts(encoded, ix.accounts);
    encoded := encoded + Length(|ix.data|) + ix.data;
    InstructionParts(buffer, ix);
  }

  /** `HashOperation` up to the final hash. */
  method Preimage(ixs: seq<Instruction>, predecessor: Word, salt: Word) returns (encoded: seq<byte>)
    ensures encoded == Encode(ixs, predecessor, salt)
  {
    encoded := Length(|ixs|);
    for i := 0 to |ixs|
      invariant encoded == Length(|ixs|) + EncodeInstructions(ixs[..i])
    {
      hide Length, EncodeInstruction;
      var before := encoded;
      encoded := WriteInstruction(encoded, ixs[i]);
      assert ixs[..i + 1][..i] == ixs[..i];
      Assoc(Length(|ixs|), EncodeInstructions(ixs[..i]), EncodeInstruction(ixs[i]));
    }
    assert ixs[..|ixs|] == ixs;
    encoded := encoded + predecessor + salt;
  }

  /** Every length fits the uint32 that it is cast to. */
  predicate Fits(ix: Instruction) {
    |ix.accounts| < TWO32 && |ix.data| < TWO32
  }

  predicate AllFit(ixs: seq<Instruction>) {
    |ixs| < TWO32 && forall i :: 0 <= i < |ixs| ==> Fits(ixs[i])
  }

  // ----- what the bytes are: a reader that knows nothing of the writer

  /** Four bytes as a count, lowest first. */
  function ReadCount(b: seq<byte>): nat
    requires |b| >= 4
  {
    (b[0] as int) + 256 * (b[1] as int) + 65536 * (b[2] as int) + 16777216 * (b[3] as int)
  }

  /** 32 bytes of key, a signer byte and a writable byte, each 1 for yes. */
  function ReadAccounts(b: seq<byte>, n: nat): Parse<seq<Account>> {
    if n == 0 then Parsed([], b)
    else if |b| < 34 then Malformed
    else match ReadAccounts(b[34..], n - 1)
      case Malformed => Malformed
      case Parsed(more, rest) => Parsed([Account(b[..32], b[32] == 1, b[33] == 1)] + more, rest)
  }

  /** 32 bytes of program, the accounts behind their count, the data behind its length. */
  function ReadInstruction(b: seq<byte>): Parse<Instruction> {
    if |b| < 36 then Malformed
    else match ReadAccounts(b[36..], ReadCount(b[32..36]))
      case Malformed => Malformed
      case Parsed(accounts, rest) =>
        if |rest| < 4 || |rest| - 4 < ReadCount(rest[..4]) then Malformed
        else
          var n := ReadCount(rest[..4]);
          Parsed(Instruction(b[..32], accounts, rest[4..4 + n]), rest[4 + n..])
  }

  function ReadInstructions(b: seq<byte>, n: nat): Parse<seq<Instruction>>
    decreases n
  {
    if n == 0 then Parsed([], b)
    else match ReadInstruction(b)
      case Malformed => Malformed
      case Parsed(ix, rest) =>
        match ReadInstructions(rest, n - 1)
        case Malformed => Malformed
        case Parsed(more, end) => Parsed([ix] + more, end)
  }

  lemma {:induction false} ReadsCount(n: nat, rest: seq<byte>)
    requires n < TWO32
    ensures (Length(n) + rest)[4..] == rest && ReadCount((Length(n) + rest)[..4]) == n
    ensures (Length(n) + rest)[..4] == Length(n)
  {
    assert (Length(n) + rest)[..4] == Length(n);
    CountBytes(n);
  }

  lemma {:induction false} FourBytes(b: seq<byte>)
    requires |b| == 4
    ensures ReadCount(b) == FromLittleEndian(b)
  {
    assert FromLittleEndian(b[3..]) == b[3] + 256 * FromLittleEndian(b[3..][1..]) == b[3];
    assert FromLittleEndian(b[2..]) == b[2] + 256 * FromLittleEndian(b[2..][1..]) && b[2..][1..] == b[3..];
    assert FromLittleEndian(b[1..]) == b[1] + 256 * FromLittleEndian(b[1..][1..]) && b[1..][1..] == b[2..];
  }

  lemma {:induction false} CountBytes(n: nat)
    requires n < TWO32
    ensures ReadCount(Length(n)) == n
  {
    hide LittleEndian, FromLittleEndian, Pow256, ReadCount;
    PowersOf256();
    LittleEndianValue(n, 4);
    FourBytes(Length(n));
  }

  lemma {:induction false} EncodesFirstAccount(accounts: seq<Account>)
    requires accounts != []
    ensures EncodeAccounts(accounts) == EncodeAccount(accounts[0]) + EncodeAccounts(accounts[1..])
    decreases |accounts|
  {
    hide EncodeAccount;
    var n := |accounts| - 1;
    if n == 0 {
      assert accounts[..0] == [] && accounts[1..] == [];
    } else {
      EncodesFirstAccount(accounts[..n]);
      assert accounts[..n][1..] == accounts[1..][..n - 1];
      Assoc(EncodeAccount(accounts[0]), EncodeAccounts(accounts[1..][..n - 1]), EncodeAccount(accounts[n]));
    }
  }

  lemma {:induction false} ReadsAccount(a: Account, rest: seq<byte>)
    ensures var b := EncodeAccount(a) + rest;
      b[..32] == a.key && (b[32] == 1 <==> a.signer) && (b[33] == 1 <==> a.writable) && b[34..] == rest
  {
    var b := EncodeAccount(a) + rest;
    assert b[..32] == a.key && b[34..] == rest;
  }

  lemma {:induction false} ReadsAccounts(accounts: seq<Account>, rest: seq<byte>)
    ensures ReadAccounts(EncodeAccounts(accounts) + rest, |accounts|) == Parsed(accounts, rest)
    decreases |accounts|
  {
    if accounts == [] {
      assert [] + rest == rest;
    } else {
      hide EncodeAccount, EncodeAccounts;
      var tail := EncodeAccounts(accounts[1..]) + rest;
      EncodesFirstAccount(accounts);
      Assoc(EncodeAccount(accounts[0]), EncodeAccounts(accounts[1..]), rest);
      ReadsAccount(accounts[0], tail);
      ReadsAccounts(accounts[1..], rest);
      assert accounts == [accounts[0]] + accounts[1..];
    }
  }

  lemma {:induction false} Nested(ix: Instruction, u: seq<byte>)
    ensures EncodeInstruction(ix) + u
         == ix.program + (Length(|ix.accounts|) + (EncodeAccounts(ix.accounts) + (Length(|ix.data|) + (ix.data + u))))
  {
    hide Length, EncodeAccounts;
  }

  lemma {:induction false} ReadsInstruction(ix: Instruction, rest: seq<byte>)
    requires Fits(ix)
    ensures ReadInstruction(EncodeInstruction(ix) + rest) == Parsed(ix, rest)
  {
    hide Length, EncodeAccounts, EncodeInstruction, ReadAccounts, ReadCount;
    var data := ix.data + rest;
    var t := Length(|ix.data|) + data;
    var u := EncodeAccounts(ix.accounts) + t;
    var b := EncodeInstruction(ix) + rest;
    Nested(ix, rest);
    assert b == ix.program + (Length(|ix.accounts|) + u);
    assert b[..32] == ix.program && b[32..] == Length(|ix.accounts|) + u;
    ReadsCount(|ix.accounts|, u);
    assert b[32..36] == b[32..][..4] && b[36..] == b[32..][4..];
    ReadsAccounts(ix.accounts, t);
    ReadsCount(|ix.data|, data);
    assert t[4..4 + |ix.data|] == data[..|ix.data|] == ix.data;
    assert t[4 + |ix.data|..] == data[|ix.data|..] == rest;
  }

  lemma {:induction false} EncodesFirstInstruction(ixs: seq<Instruction>)
    requires ixs != []
    ensures EncodeInstructions(ixs) == EncodeInstruction(ixs[0]) + EncodeInstructions(ixs[1..])
    decreases |ixs|
  {
    hide EncodeInstruction;
    var n := |ixs| - 1;
    if n == 0 {
      assert ixs[..0] == [] && ixs[1..] == [];
    } else {
      EncodesFirstInstruction(ixs[..n]);
      assert ixs[..n][1..] == ixs[1..][..n - 1];
      Assoc(EncodeInstruction(ixs[0]), EncodeInstructions(ixs[1..][..n - 1]), EncodeInstruction(ixs[n]));
    }
  }

  lemma {:induction false} ReadsOneMore(b: seq<byte>, ix: Instruction, t: seq<byte>, more: seq<Instruction>,
        rest: seq<byte>)
    requires ReadInstruction(b) == Parsed(ix, t) && ReadInstructions(t, |more|) == Parsed(more, rest)
    ensures ReadInstructions(b, |more| + 1) == Parsed([ix] + more, rest)
  {
    hide ReadInstruction;
  }

  lemma {:induction false} ReadsInstructions(ixs: seq<Instruction>, rest: seq<byte>)
    requires forall i :: 0 <= i < |ixs| ==> Fits(ixs[i])
    ensures ReadInstructions(EncodeInstructions(ixs) + rest, |ixs|) == Parsed(ixs, rest)
    decreases |ixs|
  {
    if ixs == [] {
      assert [] + rest == rest;
    } else {
      hide EncodeInstruction, EncodeInstructions, ReadInstruction, ReadInstructions, Fits;
      var tail := EncodeInstructions(ixs[1..]) + rest;
      EncodesFirstInstruction(ixs);
      Assoc(EncodeInstruction(ixs[0]), EncodeInstructions(ixs[1..]), rest);
      ReadsInstruction(ixs[0], tail);
      ReadsInstructions(ixs[1..], rest);
      ReadsOneMore(EncodeInstruction(ixs[0]) + tail, ixs[0], tail, ixs[1..], rest);
      assert ixs == [ixs[0]] + ixs[1..];
    }
  }

  /** Reading the preimage gives the instructions behind their count, and then exactly 32 bytes of predecessor and 32
      bytes of salt. */
  lemma {:induction false} ReadsPreimage(ixs: seq<Instruction>, predecessor: Word, salt: Word)
    requires AllFit(ixs)
    ensures var b := Encode(ixs, predecessor, salt);
      |b| >= 68 && ReadInstructions(b[4..], ReadCount(b[..4])) == Parsed(ixs, predecessor + salt)
      && b[|b| - 64..|b| - 32] == predecessor && b[|b| - 32..] == salt
  {
    hide Length, EncodeInstructions, ReadInstructions, ReadCount;
    var b := Encode(ixs, predecessor, salt);
    var end := predecessor + salt;
    Regroup(Length(|ixs|), EncodeInstructions(ixs), predecessor, salt);
    assert b == Length(|ixs|) + (EncodeInstructions(ixs) + end);
    ReadsCount(|ixs|, EncodeInstructions(ixs) + end);
    ReadsInstructions(ixs, end);
    assert b[|b| - 64..] == end && b[|b| - 64..|b| - 32] == end[..32] && b[|b| - 32..] == end[32..];
    assert end[..32] == predecessor && end[32..] == salt;
  }

  // ----- the preimage comes apart in one way

  /** An instruction's encoding says where it ends. */
  lemma {:induction false} InstructionCut(x: Instruction, u: seq<byte>, y: Instruction, v: seq<byte>)
    requires Fits(x) && Fits(y)
    ensures EncodeInstruction(x) + u == EncodeInstruction(y) + v <==> x == y && u == v
  {
    hide EncodeInstruction, ReadInstruction, Fits;
    ReadsInstruction(x, u);
    ReadsInstruction(y, v);
  }

  /** The preimage determines the instructions, the predecessor and the salt. */
  lemma {:induction false} PreimageUnique(s: seq<Instruction>, p: Word, x: Word, t: seq<Instruction>, q: Word, y: Word)
    requires AllFit(s) && AllFit(t)
    ensures Encode(s, p, x) == Encode(t, q, y) <==> s == t && p == q && x == y
  {
    hide AllFit, Encode, ReadInstructions, ReadCount;
    ReadsPreimage(s, p, x);
    ReadsPreimage(t, q, y);
  }
}
