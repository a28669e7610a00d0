/** The Solana legacy message of `solana.rs`, and a reader for legacy messages. */
module Solana {
  import opened Bytes
  import Varint

  type Key = s: seq<Byte> | |s| == 32 witness seq(32, _ => 0)

  // ----- legacy messages in general

  datatype Instruction = Instruction(program: Byte, accounts: seq<Byte>, data: seq<Byte>)

  datatype Message = Message(
    required: Byte, readonlySigned: Byte, readonlyUnsigned: Byte,
    accounts: seq<seq<Byte>>, blockhash: seq<Byte>, instructions: seq<Instruction>)

  /** Keys are 32 bytes, and every count fits the compact-u16 that carries it. */
  ghost predicate Countable(m: Message) {
    && (forall i :: 0 <= i < |m.accounts| ==> |m.accounts[i]| == 32) && |m.blockhash| == 32
    && |m.accounts| < 0x1_0000 && |m.instructions| < 0x1_0000
    && forall i :: 0 <= i < |m.instructions| ==> CountableInstruction(m.instructions[i])
  }

  ghost predicate CountableInstruction(i: Instruction) { |i.accounts| < 0x1_0000 && |i.data| < 0x1_0000 }

  function Shortvec(n: nat): seq<Byte> { Varint.Encode(n) }

  /** The source's loop over a 16-bit `remaining`. */
  method EncodeShortvec(value: nat) returns (out: seq<Byte>)
    requires value < 0x1_0000
    ensures out == Shortvec(value)
  {
    hide Varint.Encode;
    out := [];
    var remaining := value;
    while true
      invariant out + Varint.Encode(remaining) == Varint.Encode(value)
      decreases remaining
    {
      Varint.NextGroup(out, remaining);
      var byte := remaining % 128;
      remaining := remaining / 128;
      if remaining == 0 {
        out := out + [byte];
        return;
      }
      out := out + [byte + 128];
    }
  }

  function WriteKeys(keys: seq<seq<Byte>>): seq<Byte> {
    if keys == [] then [] else keys[0] + WriteKeys(keys[1..])
  }

  function WriteInstruction(i: Instruction): seq<Byte> {
    [i.program] + (Shortvec(|i.accounts|) + (i.accounts + (Shortvec(|i.data|) + i.data)))
  }

  function WriteInstructions(ins: seq<Instruction>): seq<Byte> {
    if ins == [] then [] else WriteInstruction(ins[0]) + WriteInstructions(ins[1..])
  }

  function WriteMessage(m: Message): seq<Byte> {
    [m.required, m.readonlySigned, m.readonlyUnsigned]
    + (Shortvec(|m.accounts|)
       + (WriteKeys(m.accounts) + (m.blockhash + (Shortvec(|m.instructions|) + WriteInstructions(m.instructions)))))
  }

  // ----- the reader: positions and counts only

  /** A compact-u16: at most three groups, no wasted group, below 2^16. */
  function ReadShortvec(s: seq<Byte>): Option<Taken<nat>> {
    if |s| >= 1 && s[0] < 128 then Some(Taken(s[0], s[1..]))
    else if |s| >= 2 && 0 < s[1] < 128 then Some(Taken(Grouped(s[0], s[1], 0), s[2..]))
    else if |s| >= 3 && s[1] >= 128 && 0 < s[2] < 4 then Some(Taken(Grouped(s[0], s[1], s[2]), s[3..]))
    else None
  }

  /** Seven bits a group, least significant first. */
  function Grouped(g0: int, g1: int, g2: int): nat
    requires g0 >= 0 && g1 >= 0 && g2 >= 0
  {
    g0 % 128 + 128 * (g1 % 128) + 0x4000 * (g2 % 128)
  }

  function ReadExact(s: seq<Byte>, n: nat): Option<Taken<seq<Byte>>> {
    if |s| < n then None else Some(Taken(s[..n], s[n..]))
  }

  function ReadCounted(s: seq<Byte>): Option<Taken<seq<Byte>>> {
    var count :- ReadShortvec(s);
    ReadExact(count.rest, count.value)
  }

  function ReadKeys(s: seq<Byte>, n: nat): Option<Taken<seq<seq<Byte>>>> {
    if n == 0 then Some(Taken([], s))
    else
      var first :- ReadExact(s, 32);
      var more :- ReadKeys(first.rest, n - 1);
      Some(Taken([first.value] + more.value, more.rest))
  }

  function ReadInstruction(s: seq<Byte>): Option<Taken<Instruction>> {
    var program :- ReadExact(s, 1);
    var accounts :- ReadCounted(program.rest);
    var data :- ReadCounted(accounts.rest);
    Some(Taken(Instruction(program.value[0], accounts.value, data.value), data.rest))
  }

  function ReadInstructions(s: seq<Byte>, n: nat): Option<Taken<seq<Instruction>>>
    decreases n
  {
    hide ReadInstruction;
    if n == 0 then Some(Taken([], s))
    else
      var first :- ReadInstruction(s);
      var more :- ReadInstructions(first.rest, n - 1);
      Some(Taken([first.value] + more.value, more.rest))
  }

  /** A whole buffer as one message, with nothing left over. */
  function ReadMessage(s: seq<Byte>): Option<Message> {
    var header :- ReadExact(s, 3);
    var keys :- ReadShortvec(header.rest);
    var accounts :- ReadKeys(keys.rest, keys.value);
    var blockhash :- ReadExact(accounts.rest, 32);
    var count :- ReadShortvec(blockhash.rest);
    var instructions :- ReadInstructions(count.rest, count.value);
    if instructions.rest != [] then None
    else Some(Message(header.value[0], header.value[1], header.value[2], accounts.value, blockhash.value, instructions.value))
  }

  /** A signed transaction: counted 64-byte signatures, then a message. */
  function ReadTransaction(s: seq<Byte>): Option<(seq<seq<Byte>>, Message)> {
    var count :- ReadShortvec(s);
    var signatures :- ReadExact(count.rest, 64 * count.value);
    var message :- ReadMessage(signatures.rest);
    Some((Chunks(signatures.value, count.value), message))
  }

  function Chunks(s: seq<Byte>, n: nat): seq<seq<Byte>>
    requires |s| == 64 * n
  {
    if n == 0 then [] else [s[..64]] + Chunks(s[64..], n - 1)
  }

  // ----- the reader inverts the writer

  lemma ShortvecInverts(n: nat, tail: seq<Byte>)
    requires n < 0x1_0000
    ensures ReadShortvec(Shortvec(n) + tail) == Some(Taken(n, tail))
  {
    var s := Shortvec(n) + tail;
    if n < 128 {
      assert Shortvec(n) == [n] && s[1..] == tail;
    } else if n < 0x4000 {
      assert Varint.Encode(n / 128) == [n / 128];
      assert Shortvec(n) == [n % 128 + 128, n / 128] && s[2..] == tail;
    } else {
      assert Varint.Encode(n / 128 / 128) == [n / 128 / 128];
      assert Varint.Encode(n / 128) == [n / 128 % 128 + 128, n / 128 / 128];
      assert Shortvec(n) == [n % 128 + 128, n / 128 % 128 + 128, n / 128 / 128] && s[3..] == tail;
    }
  }

  lemma ExactInverts(x: seq<Byte>, tail: seq<Byte>)
    ensures ReadExact(x + tail, |x|) == Some(Taken(x, tail))
  {
    assert (x + tail)[..|x|] == x && (x + tail)[|x|..] == tail;
  }

  lemma CountedInverts(x: seq<Byte>, tail: seq<Byte>)
    requires |x| < 0x1_0000
    ensures ReadCounted(Shortvec(|x|) + (x + tail)) == Some(Taken(x, tail))
  {
    hide ReadShortvec, Shortvec, ReadExact;
    ShortvecInverts(|x|, x + tail);
    ExactInverts(x, tail);
  }

  lemma {:induction false} KeysInvert(keys: seq<seq<Byte>>, tail: seq<Byte>)
    requires forall i :: 0 <= i < |keys| ==> |keys[i]| == 32
    ensures ReadKeys(WriteKeys(keys) + tail, |keys|) == Some(Taken(keys, tail))
  {
    hide ReadExact;
    if keys == [] {
      assert WriteKeys(keys) + tail == tail;
    } else {
      KeysInvert(keys[1..], tail);
      assert WriteKeys(keys) + tail == keys[0] + (WriteKeys(keys[1..]) + tail);
      ExactInverts(keys[0], WriteKeys(keys[1..]) + tail);
      assert keys == [keys[0]] + keys[1..];
    }
  }

  lemma InstructionInverts(i: Instruction, tail: seq<Byte>)
    requires CountableInstruction(i)
    ensures ReadInstruction(WriteInstruction(i) + tail) == Some(Taken(i, tail))
  {
    hide ReadExact, ReadCounted, Shortvec;
    var data := Shortvec(|i.data|) + (i.data + tail);
    var accounts := Shortvec(|i.accounts|) + (i.accounts + data);
    assert WriteInstruction(i) + tail == [i.program] + accounts;
    ExactInverts([i.program], accounts);
    CountedInverts(i.accounts, data);
    CountedInverts(i.data, tail);
  }

  lemma {:induction false} InstructionsInvert(ins: seq<Instruction>, tail: seq<Byte>)
    requires forall k :: 0 <= k < |ins| ==> CountableInstruction(ins[k])
    ensures ReadInstructions(WriteInstructions(ins) + tail, |ins|) == Some(Taken(ins, tail))
  {
    hide ReadInstruction, WriteInstruction;
    if ins == [] {
      assert WriteInstructions(ins) + tail == tail;
    } else {
      InstructionsInvert(ins[1..], tail);
      assert WriteInstructions(ins) + tail == WriteInstruction(ins[0]) + (WriteInstructions(ins[1..]) + tail);
      InstructionInverts(ins[0], WriteInstructions(ins[1..]) + tail);
      assert ins == [ins[0]] + ins[1..];
    }
  }

  /** Every legacy message reads back as itself. */
  lemma MessageInverts(m: Message)
    requires Countable(m)
    ensures ReadMessage(WriteMessage(m)) == Some(m)
  {
    hide ReadExact, ReadShortvec, ReadKeys, ReadInstructions, Shortvec, WriteKeys, WriteInstructions;
    var instructions := WriteInstructions(m.instructions);
    var counted := Shortvec(|m.instructions|) + instructions;
    var rest := m.blockhash + counted;
    var keys := WriteKeys(m.accounts) + rest;
    ExactInverts([m.required, m.readonlySigned, m.readonlyUnsigned], Shortvec(|m.accounts|) + keys);
    ShortvecInverts(|m.accounts|, keys);
    KeysInvert(m.accounts, rest);
    ExactInverts(m.blockhash, counted);
    ShortvecInverts(|m.instructions|, instructions);
    InstructionsInvert(m.instructions, []);
    assert instructions + [] == instructions;
  }

  // ----- and reads nothing else

  lemma ShortvecIsCanonical(s: seq<Byte>)
    requires ReadShortvec(s).Some?
    ensures var t := ReadShortvec(s).value;
            t.value < 0x1_0000 && s == Shortvec(t.value) + t.rest
  {
    var n := ReadShortvec(s).value.value;
    if s[0] < 128 {
      assert Shortvec(n) == [s[0]] && s == [s[0]] + s[1..];
    } else if s[1] < 128 {
      TwoGroups(s[0], s[1]);
      assert s == [s[0], s[1]] + s[2..];
    } else {
      ThreeGroups(s[0], s[1], s[2]);
      assert s == [s[0], s[1], s[2]] + s[3..];
    }
  }

  lemma TwoGroups(g0: Byte, g1: Byte)
    requires g0 >= 128 && 0 < g1 < 128
    ensures Grouped(g0, g1, 0) < 0x4000 && Shortvec(Grouped(g0, g1, 0)) == [g0, g1]
  {
    var n := Grouped(g0, g1, 0);
    assert n / 128 == g1 && n % 128 == g0 - 128;
    assert Varint.Encode(g1) == [g1];
  }

  lemma ThreeGroups(g0: Byte, g1: Byte, g2: Byte)
    requires g0 >= 128 && g1 >= 128 && 0 < g2 < 4
    ensures Grouped(g0, g1, g2) < 0x1_0000 && Shortvec(Grouped(g0, g1, g2)) == [g0, g1, g2]
  {
    var n := Grouped(g0, g1, g2);
    assert n / 128 == Grouped(g1, g2, 0) && n % 128 == g0 - 128;
    TwoGroups(g1, g2);
  }

  lemma ExactIsCanonical(s: seq<Byte>, n: nat)
    requires ReadExact(s, n).Some?
    ensures |ReadExact(s, n).value.value| == n && s == ReadExact(s, n).value.value + ReadExact(s, n).value.rest
  {
  }

  lemma CountedIsCanonical(s: seq<Byte>)
    requires ReadCounted(s).Some?
    ensures var t := ReadCounted(s).value;
            |t.value| < 0x1_0000 && s == Shortvec(|t.value|) + (t.value + t.rest)
  {
    hide ReadShortvec, Shortvec, ReadExact;
    ShortvecIsCanonical(s);
    var count := ReadShortvec(s).value;
    ExactIsCanonical(count.rest, count.value);
  }

  lemma {:induction false} KeysAreCanonical(s: seq<Byte>, n: nat)
    requires ReadKeys(s, n).Some?
    ensures var t := ReadKeys(s, n).value;
            && |t.value| == n && (forall i :: 0 <= i < n ==> |t.value[i]| == 32)
            && s == WriteKeys(t.value) + t.rest
    decreases n
  {
    hide ReadExact;
    if n > 0 {
      ExactIsCanonical(s, 32);
      var first := ReadExact(s, 32).value;
      KeysAreCanonical(first.rest, n - 1);
      var more := ReadKeys(first.rest, n - 1).value;
      var keys := [first.value] + more.value;
      assert keys[1..] == more.value;
      Regroup(first.value, WriteKeys(more.value), more.rest);
    }
  }

  lemma InstructionIsCanonical(s: seq<Byte>)
    requires ReadInstruction(s).Some?
    ensures var t := ReadInstruction(s).value;
            CountableInstruction(t.value) && s == WriteInstruction(t.value) + t.rest
  {
    hide ReadExact, ReadCounted, Shortvec;
    ExactIsCanonical(s, 1);
    var program := ReadExact(s, 1).value;
    CountedIsCanonical(program.rest);
    var accounts := ReadCounted(program.rest).value;
    CountedIsCanonical(accounts.rest);
    var data := ReadCounted(accounts.rest).value;
    assert program.value == [program.value[0]];
    InstructionLayout(Instruction(program.value[0], accounts.value, data.value), data.rest);
  }

  lemma InstructionLayout(i: Instruction, tail: seq<Byte>)
    ensures WriteInstruction(i) + tail ==
            [i.program] + (Shortvec(|i.accounts|) + (i.accounts + (Shortvec(|i.data|) + (i.data + tail))))
  {
    hide Shortvec;
    var a, d := Shortvec(|i.accounts|), Shortvec(|i.data|);
    Regroup(d, i.data, tail);
    Regroup(i.accounts, d + i.data, tail);
    Regroup(a, i.accounts + (d + i.data), tail);
    Regroup([i.program], a + (i.accounts + (d + i.data)), tail);
  }

  lemma {:induction false} InstructionsAreCanonical(s: seq<Byte>, n: nat)
    requires ReadInstructions(s, n).Some?
    ensures var t := ReadInstructions(s, n).value;
            && |t.value| == n && (forall i :: 0 <= i < n ==> CountableInstruction(t.value[i]))
            && s == WriteInstructions(t.value) + t.rest
    decreases n
  {
    hide ReadInstruction, WriteInstruction, CountableInstruction;
    if n > 0 {
      InstructionIsCanonical(s);
      var first := ReadInstruction(s).value;
      InstructionsAreCanonical(first.rest, n - 1);
      var more := ReadInstructions(first.rest, n - 1).value;
      var ins := [first.value] + more.value;
      assert ins[1..] == more.value;
      Regroup(WriteInstruction(first.value), WriteInstructions(more.value), more.rest);
    }
  }

  /** The reader accepts exactly what the writer writes. */
  lemma MessageIff(s: seq<Byte>, m: Message)
    ensures ReadMessage(s) == Some(m) <==> Countable(m) && s == WriteMessage(m)
  {
    hide ReadExact, ReadShortvec, ReadKeys, ReadInstructions, Shortvec, WriteKeys, WriteInstructions, CountableInstruction;
    if Countable(m) { MessageInverts(m); }
    if ReadMessage(s) == Some(m) {
      ExactIsCanonical(s, 3);
      var header := ReadExact(s, 3).value;
      assert header.value == [header.value[0], header.value[1], header.value[2]];
      ShortvecIsCanonical(header.rest);
      var keys := ReadShortvec(header.rest).value;
      KeysAreCanonical(keys.rest, keys.value);
      var accounts := ReadKeys(keys.rest, keys.value).value;
      ExactIsCanonical(accounts.rest, 32);
      var blockhash := ReadExact(accounts.rest, 32).value;
      ShortvecIsCanonical(blockhash.rest);
      var count := ReadShortvec(blockhash.rest).value;
      InstructionsAreCanonical(count.rest, count.value);
      assert WriteInstructions(m.instructions) + [] == WriteInstructions(m.instructions);
    }
  }

  /** A transaction that reads is its counted signatures and its message, laid end to end. */
  lemma TransactionIsCanonical(s: seq<Byte>)
    requires ReadTransaction(s).Some?
    ensures var (signatures, m) := ReadTransaction(s).value;
            && Countable(m) && (forall i :: 0 <= i < |signatures| ==> |signatures[i]| == 64)
            && s == Shortvec(|signatures|) + (WriteKeys(signatures) + WriteMessage(m))
  {
    hide ReadExact, ReadShortvec, ReadMessage, WriteMessage, Shortvec, Countable;
    ShortvecIsCanonical(s);
    var count := ReadShortvec(s).value;
    ExactIsCanonical(count.rest, 64 * count.value);
    var signatures := ReadExact(count.rest, 64 * count.value).value;
    ChunksJoin(signatures.value, count.value);
    MessageIff(signatures.rest, ReadMessage(signatures.rest).value);
  }

  lemma {:induction false} ChunksJoin(s: seq<Byte>, n: nat)
    requires |s| == 64 * n
    ensures |Chunks(s, n)| == n && (forall i :: 0 <= i < n ==> |Chunks(s, n)[i]| == 64) && WriteKeys(Chunks(s, n)) == s
  {
    if n > 0 {
      ChunksJoin(s[64..], n - 1);
      assert Chunks(s, n)[1..] == Chunks(s[64..], n - 1);
      assert s == s[..64] + s[64..];
    }
  }

  // ----- what a message does

  const SYSTEM_PROGRAM: seq<Byte> := ToBigEndian(0, 32)
  const TRANSFER_INDEX: nat := 2

  function LittleEndian(s: seq<Byte>): nat {
    if s == [] then 0 else s[0] + 256 * LittleEndian(s[1..])
  }

  function ToLittleEndian(n: nat, width: nat): (s: seq<Byte>)
    ensures |s| == width
  {
    if width == 0 then [] else [n % 256] + ToLittleEndian(n / 256, width - 1)
  }

  lemma {:induction false} LittleEndianRoundTrip(n: nat, width: nat)
    requires n < Pow(256, width)
    ensures LittleEndian(ToLittleEndian(n, width)) == n
  {
    if width > 0 { LittleEndianRoundTrip(n / 256, width - 1); }
  }

  /** Nothing but zeros, as the System program's key is. */
  predicate IsZero(key: seq<Byte>) { |key| == 32 && forall i :: 0 <= i < 32 ==> key[i] == 0 }

  lemma SystemProgramIsZero()
    ensures IsZero(SYSTEM_PROGRAM)
  {
    ZerosAreZero(32);
  }

  lemma {:induction false} ZerosAreZero(n: nat)
    ensures forall i :: 0 <= i < n ==> ToBigEndian(0, n)[i] == 0
  {
    if n > 0 { ZerosAreZero(n - 1); }
  }

  /** The header's positional meaning. */
  predicate SignsAt(m: Message, i: nat) { i < m.required && i < |m.accounts| }

  predicate WritableAt(m: Message, i: nat) {
    && i < |m.accounts|
    && (if i < m.required then i < m.required - m.readonlySigned else i < |m.accounts| - m.readonlyUnsigned)
  }

  datatype Transfer = Transfer(from: seq<Byte>, to: seq<Byte>, lamports: nat)

  /** A System transfer: program by index, a writable signer debited, a writable account credited. */
  function AsTransfer(m: Message, i: Instruction): Option<Transfer> {
    if |i.accounts| != 2 || i.program >= |m.accounts| || !IsZero(m.accounts[i.program]) then None
    else
      var from, to := i.accounts[0], i.accounts[1];
      if !SignsAt(m, from) || !WritableAt(m, from) || !WritableAt(m, to) then None
      else if |i.data| != 12 || LittleEndian(i.data[..4]) != 2 then None
      else Some(Transfer(m.accounts[from], m.accounts[to], LittleEndian(i.data[4..])))
  }

  /** The one message a transfer is built as. */
  function TransferMessage(from: Key, to: Key, blockhash: Key, lamports: U64): Message {
    Message(1, 0, 1, [from, to, SYSTEM_PROGRAM], blockhash,
            [Instruction(2, [0, 1], ToLittleEndian(TRANSFER_INDEX, 4) + ToLittleEndian(lamports, 8))])
  }

  /** Base58 decoding of the two addresses and of the blockhash. */
  datatype Library = Library(decodeAddress: string -> Option<Key>, decodeBlockhash: string -> Option<Key>)

  datatype NativeTransfer = NativeTransfer(from: string, to: string, lamports: U64, recentBlockhash: string)

  /** The source's sequence of appends. */
  method BuildMessage(lib: Library, t: NativeTransfer) returns (r: Result<seq<Byte>>)
    ensures r == Err(BadAddress) <==> lib.decodeAddress(t.from).None? || lib.decodeAddress(t.to).None?
    ensures r == Err(InvalidField) <==>
            lib.decodeAddress(t.from).Some? && lib.decodeAddress(t.to).Some? && lib.decodeBlockhash(t.recentBlockhash).None?
    ensures r.Ok? <==> lib.decodeAddress(t.from).Some? && lib.decodeAddress(t.to).Some? && lib.decodeBlockhash(t.recentBlockhash).Some?
    ensures r.Ok? ==>
            r.value == WriteMessage(TransferMessage(lib.decodeAddress(t.from).value, lib.decodeAddress(t.to).value,
                                                    lib.decodeBlockhash(t.recentBlockhash).value, t.lamports))
  {
    hide Shortvec, ToLittleEndian;
    var from := lib.decodeAddress(t.from);
    if from.None? {
      return Err(BadAddress);
    }
    var to := lib.decodeAddress(t.to);
    if to.None? {
      return Err(BadAddress);
    }
    var blockhash := lib.decodeBlockhash(t.recentBlockhash);
    if blockhash.None? {
      return Err(InvalidField);
    }
    var out: seq<Byte> := [];
    out := out + [1];
    out := out + [0];
    out := out + [1];
    var three := EncodeShortvec(3);
    out := out + three;
    out := out + from.value;
    out := out + to.value;
    out := out + SYSTEM_PROGRAM;
    out := out + blockhash.value;
    var one := EncodeShortvec(1);
    out := out + one;
    out := out + [2];
    var two := EncodeShortvec(2);
    out := out + two;
    out := out + [0];
    out := out + [1];
    var data := ToLittleEndian(TRANSFER_INDEX, 4) + ToLittleEndian(t.lamports, 8);
    var size := EncodeShortvec(|data|);
    out := out + size;
    out := out + data;
    Flatten(from.value, to.value, blockhash.value, t.lamports);
    return Ok(out);
  }

  lemma Regroup(a: seq<Byte>, b: seq<Byte>, c: seq<Byte>)
    ensures a + (b + c) == a + b + c
  {
  }

  lemma FlattenKeys(front: seq<Byte>, from: Key, to: Key)
    ensures front + WriteKeys([from, to, SYSTEM_PROGRAM]) == front + from + to + SYSTEM_PROGRAM
  {
    var keys := [from, to, SYSTEM_PROGRAM];
    assert keys[1..] == [to, SYSTEM_PROGRAM] && keys[2..] == [SYSTEM_PROGRAM] && keys[1..][1..] == keys[2..];
    assert WriteKeys(keys[2..]) == SYSTEM_PROGRAM + [] == SYSTEM_PROGRAM;
    assert WriteKeys(keys) == from + (to + SYSTEM_PROGRAM);
    Regroup(front, from, to + SYSTEM_PROGRAM);
    Regroup(front + from, to, SYSTEM_PROGRAM);
  }

  lemma FlattenInstruction(front: seq<Byte>, data: seq<Byte>)
    ensures front + WriteInstructions([Instruction(2, [0, 1], data)]) ==
            front + [2] + Shortvec(2) + [0] + [1] + Shortvec(|data|) + data
  {
    hide Shortvec;
    var i := Instruction(2, [0, 1], data);
    assert [i][1..] == [];
    assert WriteInstructions([i]) == WriteInstruction(i) + [] == WriteInstruction(i);
    var two, size := Shortvec(2), Shortvec(|data|);
    Regroup(front, [2], two + ([0, 1] + (size + data)));
    Regroup(front + [2], two, [0, 1] + (size + data));
    Regroup(front + [2] + two, [0, 1], size + data);
    Regroup(front + [2] + two + [0, 1], size, data);
    assert front + [2] + two + [0, 1] == front + [2] + two + [0] + [1];
  }

  lemma Flatten(from: Key, to: Key, blockhash: Key, lamports: U64)
    ensures var data := ToLittleEndian(TRANSFER_INDEX, 4) + ToLittleEndian(lamports, 8);
            WriteMessage(TransferMessage(from, to, blockhash, lamports)) ==
            [] + [1] + [0] + [1] + Shortvec(3) + from + to + SYSTEM_PROGRAM + blockhash + Shortvec(1) + [2] + Shortvec(2)
            + [0] + [1] + Shortvec(12) + data
  {
    hide Shortvec, ToLittleEndian, WriteKeys, WriteInstructions;
    var m := TransferMessage(from, to, blockhash, lamports);
    var data := m.instructions[0].data;
    var keys, rest := WriteKeys(m.accounts), WriteInstructions(m.instructions);
    var header: seq<Byte> := [1, 0, 1];
    assert [] + [1] + [0] + [1] == header;
    Regroup(header, Shortvec(3), keys + (blockhash + (Shortvec(1) + rest)));
    var front := header + Shortvec(3);
    Regroup(front, keys, blockhash + (Shortvec(1) + rest));
    Regroup(front + keys, blockhash, Shortvec(1) + rest);
    Regroup(front + keys + blockhash, Shortvec(1), rest);
    FlattenKeys(front, from, to);
    FlattenInstruction(front + keys + blockhash + Shortvec(1), data);
  }

  lemma TransferMessageReads(from: Key, to: Key, blockhash: Key, lamports: U64)
    ensures Countable(TransferMessage(from, to, blockhash, lamports))
    ensures var m := TransferMessage(from, to, blockhash, lamports);
            AsTransfer(m, m.instructions[0]) == Some(Transfer(from, to, lamports))
  {
    hide LittleEndian, ToLittleEndian;
    SystemProgramIsZero();
    PowsOf256();
    LittleEndianRoundTrip(TRANSFER_INDEX, 4);
    LittleEndianRoundTrip(lamports, 8);
    var data := ToLittleEndian(TRANSFER_INDEX, 4) + ToLittleEndian(lamports, 8);
    assert data[..4] == ToLittleEndian(TRANSFER_INDEX, 4) && data[4..] == ToLittleEndian(lamports, 8);
  }

  lemma PowsOf256()
    ensures Pow(256, 4) == 0x1_0000_0000 && Pow(256, 8) == U64_MODULUS
  {
    PowAdd(256, 4, 4);
  }

  lemma TransferMessageLength(from: Key, to: Key, blockhash: Key, lamports: U64)
    ensures |WriteMessage(TransferMessage(from, to, blockhash, lamports))| == 150
  {
    Flatten(from, to, blockhash, lamports);
    assert Shortvec(3) == [3] && Shortvec(1) == [1] && Shortvec(2) == [2] && Shortvec(12) == [12];
    hide WriteMessage, TransferMessage, ToLittleEndian;
  }

  /** A general reader finds in a built message exactly one System transfer, of exactly
      the four facts, signed by the sender alone; its length is always 150 bytes. */
  lemma BuiltMessageMeans(from: Key, to: Key, blockhash: Key, lamports: U64)
    ensures var s := WriteMessage(TransferMessage(from, to, blockhash, lamports));
            && |s| == 150 && ReadMessage(s).Some?
            && var m := ReadMessage(s).value;
               && m.blockhash == blockhash && m.accounts[..m.required] == [from]
               && |m.accounts| == 3 && (forall k :: SignsAt(m, k) <==> k == 0) && (forall k :: WritableAt(m, k) <==> k < 2)
               && |m.instructions| == 1
               && AsTransfer(m, m.instructions[0]) == Some(Transfer(from, to, lamports))
  {
    hide WriteMessage, ReadMessage, AsTransfer, Countable;
    TransferMessageReads(from, to, blockhash, lamports);
    TransferMessageLength(from, to, blockhash, lamports);
    MessageInverts(TransferMessage(from, to, blockhash, lamports));
  }

  /** What gets signed determines sender, payee, blockhash and amount. */
  lemma MessageIsInjective(f: Key, t: Key, b: Key, n: U64, f': Key, t': Key, b': Key, n': U64)
    requires WriteMessage(TransferMessage(f, t, b, n)) == WriteMessage(TransferMessage(f', t', b', n'))
    ensures f == f' && t == t' && b == b' && n == n'
  {
    hide WriteMessage, ReadMessage, AsTransfer;
    BuiltMessageMeans(f, t, b, n);
    BuiltMessageMeans(f', t', b', n');
  }

  method AttachSignature(lib: Library, t: NativeTransfer, signature: seq<Byte>) returns (r: Result<seq<Byte>>)
    requires |signature| == 64
    ensures r.Ok? <==> lib.decodeAddress(t.from).Some? && lib.decodeAddress(t.to).Some? && lib.decodeBlockhash(t.recentBlockhash).Some?
    ensures r.Ok? ==>
            ReadTransaction(r.value) ==
            Some(([signature], TransferMessage(lib.decodeAddress(t.from).value, lib.decodeAddress(t.to).value,
                                               lib.decodeBlockhash(t.recentBlockhash).value, t.lamports)))
  {
    hide WriteMessage, ReadMessage, TransferMessage, Countable, Shortvec, ReadShortvec, ReadExact;
    var message := BuildMessage(lib, t);
    if message.Err? {
      return message.PropagateFailure();
    }
    var one := EncodeShortvec(1);
    var out := one + signature;
    out := out + message.value;
    ghost var from, to := lib.decodeAddress(t.from).value, lib.decodeAddress(t.to).value;
    ghost var blockhash := lib.decodeBlockhash(t.recentBlockhash).value;
    TransferMessageReads(from, to, blockhash, t.lamports);
    MessageInverts(TransferMessage(from, to, blockhash, t.lamports));
    assert out == one + (signature + message.value);
    ShortvecInverts(1, signature + message.value);
    ExactInverts(signature, message.value);
    OneChunk(signature);
    return Ok(out);
  }

  lemma OneChunk(s: seq<Byte>)
    requires |s| == 64
    ensures Chunks(s, 1) == [s]
  {
    assert s[..64] == s && Chunks(s[64..], 0) == [];
  }
}
