/** The write-ahead log as a file of records: appending, replaying a possibly torn file,
    and compaction (src/store/wal.rs). */
module Wal {
  import opened Events
  import opened StoreSpec

  const MAX_WAL_RECORD_SIZE: nat := 16 * 1024 * 1024

  datatype WalOp = Insert(data: Bytes) | Delete(id: Id) | Tombstone(id: Id)

  // ---------------------------------------------------------------- encoding

  /** The low `width` bytes of a number, least significant first. */
  function LittleEndian(n: nat, width: nat): (b: Bytes)
    ensures |b| == width
  {
    if width == 0 then [] else [(n % 256) as Byte] + LittleEndian(n / 256, width - 1)
  }

  function FromLittleEndian(b: Bytes): nat {
    if b == [] then 0 else b[0] as nat + 256 * FromLittleEndian(b[1..])
  }

  const U32: nat := 0x1_0000_0000

  /** `(len as u32).to_le_bytes()`: a payload beyond 32 bits loses the high part of its length. */
  function LengthField(n: nat): (b: Bytes)
    ensures |b| == 4
  {
    LittleEndian(n, 4)
  }

  lemma LengthFieldReads(n: nat)
    ensures FromLittleEndian(LengthField(n)) == n % U32
  {
    var n1, n2, n3 := n / 256, n / 256 / 256, n / 256 / 256 / 256;
    ReadsLowByte(n3, 0);
    ReadsLowByte(n2, 1);
    ReadsLowByte(n1, 2);
    ReadsLowByte(n, 3);
    assert FromLittleEndian(LittleEndian(n3 / 256, 0)) == 0;
    FourBytes(n);
  }

  lemma ReadsLowByte(n: nat, width: nat)
    ensures FromLittleEndian(LittleEndian(n, width + 1)) == n % 256 +
            256 * FromLittleEndian(LittleEndian(n / 256, width))
  {
    assert LittleEndian(n, width + 1)[1..] == LittleEndian(n / 256, width);
  }

  lemma FourBytes(n: nat)
    ensures n % 256 + 256 * (n / 256 % 256 + 256 * (n / 256 / 256 % 256 + 256 * (n / 256 / 256 / 256 % 256))) == n % U32
  {
  }

  function Encode(op: WalOp): (b: Bytes)
    ensures |b| == if op.Insert? then 5 + |op.data| else 33
  {
    match op
    case Insert(data) => [0] + LengthField(|data|) + data
    case Delete(id) => [1] + id
    case Tombstone(id) => [2] + id
  }

  function EncodeAll(ops: seq<WalOp>): Bytes {
    if ops == [] then [] else Encode(ops[0]) + EncodeAll(ops[1..])
  }

  lemma {:induction false} EncodeAllAppend(a: seq<WalOp>, b: seq<WalOp>)
    ensures EncodeAll(a + b) == EncodeAll(a) + EncodeAll(b)
  {
    if a == [] {
      assert a + b == b;
    } else {
      assert (a + b)[1..] == a[1..] + b;
      EncodeAllAppend(a[1..], b);
    }
  }

  // ---------------------------------------------------------------- decoding

  /** What reading one record off a non-empty file yields. */
  datatype Reading =
    | Record(op: WalOp, size: nat)
    | Torn          // the file ends inside the record
    | Oversized     // the length field exceeds the limit
    | Unknown       // not a record type

  function ReadRecord(b: Bytes): (r: Reading)
    requires b != []
    ensures r.Record? ==> 0 < r.size <= |b|
  {
    if b[0] == 0 then
      if |b| < 5 then Torn
      else
        var len := FromLittleEndian(b[1..5]);
        if len > MAX_WAL_RECORD_SIZE then Oversized
        else if |b| < 5 + len then Torn
        else Record(Insert(b[5..5 + len]), 5 + len)
    else if b[0] == 1 then
      if |b| < 33 then Torn else Record(Delete(b[1..33]), 33)
    else if b[0] == 2 then
      if |b| < 33 then Torn else Record(Tombstone(b[1..33]), 33)
    else Unknown
  }

  /** The operations `replay_path` hands over, and whether it returns `Ok`. */
  datatype Replayed = Replayed(ops: seq<WalOp>, ok: bool)

  function Replay(b: Bytes): Replayed
    decreases |b|
  {
    if b == [] then Replayed([], true)
    else
      match ReadRecord(b)
      case Record(op, size) => var rest := Replay(b[size..]); Replayed([op] + rest.ops, rest.ok)
      case Unknown => Replayed([], true)
      case _ => Replayed([], false)
  }

  /** Having read `done` up to `pos`, what remains of the replay is the replay of the rest. */
  ghost predicate ReadSoFar(file: Bytes, pos: nat, done: seq<WalOp>) {
    && pos <= |file|
    && Replay(file) == Replayed(done + Replay(file[pos..]).ops, Replay(file[pos..]).ok)
  }

  lemma ReadOn(file: Bytes, pos: nat, done: seq<WalOp>)
    requires ReadSoFar(file, pos, done)
    ensures pos == |file| ==> Replay(file) == Replayed(done, true)
    ensures pos < |file| ==>
              match ReadRecord(file[pos..])
              case Record(op, size) => ReadSoFar(file, pos + size, done + [op])
              case Unknown => Replay(file) == Replayed(done, true)
              case _ => Replay(file) == Replayed(done, false)
  {
    hide ReadRecord;
    if pos < |file| && ReadRecord(file[pos..]).Record? {
      var r := ReadRecord(file[pos..]);
      assert file[pos..][r.size..] == file[pos + r.size..];
      var rest := Replay(file[pos + r.size..]).ops;
      assert done + ([r.op] + rest) == (done + [r.op]) + rest;
    }
  }

  lemma ReadNothingYet(file: Bytes)
    ensures ReadSoFar(file, 0, [])
  {
    assert file[0..] == file;
  }

  method ReplayPath(file: Bytes) returns (ops: seq<WalOp>, ok: bool)
    ensures Replayed(ops, ok) == Replay(file)
  {
    hide ReadRecord, Replay, ReadSoFar;
    ops := [];
    var pos := 0;
    ReadNothingYet(file);
    while pos < |file|
      invariant pos <= |file|
      invariant ReadSoFar(file, pos, ops)
    {
      ReadOn(file, pos, ops);
      var rest := file[pos..];
      match ReadRecord(rest) {
        case Record(op, size) =>
          ops := ops + [op];
          pos := pos + size;
        case Unknown =>
          return ops, true;
        case _ =>
          return ops, false;
      }
    }
    ReadOn(file, pos, ops);
    ok := true;
  }

  ghost predicate Fits(op: WalOp) {
    op.Insert? ==> |op.data| <= 16_777_216
  }

  lemma ReadsBackInsert(data: Bytes, tail: Bytes)
    requires |data| <= MAX_WAL_RECORD_SIZE
    ensures ReadRecord(Encode(Insert(data)) + tail) == Record(Insert(data), 5 + |data|)
  {
    var b := Encode(Insert(data)) + tail;
    assert b[1..5] == LengthField(|data|);
    LengthFieldReads(|data|);
    assert b[5..5 + |data|] == data;
  }

  lemma ReadsBack(op: WalOp, tail: Bytes)
    requires Fits(op)
    ensures ReadRecord(Encode(op) + tail) == Record(op, |Encode(op)|)
    ensures (Encode(op) + tail)[|Encode(op)|..] == tail
  {
    var b := Encode(op) + tail;
    match op {
      case Insert(data) => ReadsBackInsert(data, tail);
      case Delete(id) => assert b[1..33] == id;
      case Tombstone(id) => assert b[1..33] == id;
    }
  }

  lemma ReplayStep(op: WalOp, tail: Bytes)
    requires Fits(op)
    ensures Replay(Encode(op) + tail) == Replayed([op] + Replay(tail).ops, Replay(tail).ok)
  {
    ReadsBack(op, tail);
  }

  /** Whole records come back in order, whatever follows them. */
  lemma {:induction false} ReplayWholeRecords(ops: seq<WalOp>, tail: Bytes)
    requires forall i :: 0 <= i < |ops| ==> Fits(ops[i])
    ensures Replay(EncodeAll(ops) + tail) == Replayed(ops + Replay(tail).ops, Replay(tail).ok)
  {
    hide Replay, ReadRecord, Encode;
    var after := Replay(tail);
    if ops == [] {
      assert EncodeAll(ops) + tail == tail;
      assert ops + after.ops == after.ops;
    } else {
      var rest := EncodeAll(ops[1..]) + tail;
      ReplayWholeRecords(ops[1..], tail);
      ReplayStep(ops[0], rest);
      assert EncodeAll(ops) + tail == Encode(ops[0]) + rest;
      assert [ops[0]] + (ops[1..] + after.ops) == ops + after.ops;
    }
  }

  lemma TornRecordIsRefused(op: WalOp, n: nat)
    requires Fits(op) && 0 < n < |Encode(op)|
    ensures Replay(Encode(op)[..n]) == Replayed([], false)
  {
    var b := Encode(op)[..n];
    assert b[0] == Encode(op)[0] && b + [] == b;
    if n >= 5 { HeaderOf(op, n, []); }
    assert ReadRecord(b) == Torn;
  }

  lemma NothingToReplay()
    ensures Replay([]) == Replayed([], true)
  {
  }

  /** How many operations lie wholly within the first `n` bytes. */
  function WholeWithin(ops: seq<WalOp>, n: nat): (k: nat)
    ensures k <= |ops|
  {
    if ops == [] || |Encode(ops[0])| > n then 0 else 1 + WholeWithin(ops[1..], n - |Encode(ops[0])|)
  }

  lemma {:induction false} WholeWithinIsMaximal(ops: seq<WalOp>, n: nat)
    ensures var k := WholeWithin(ops, n);
            && |EncodeAll(ops[..k])| <= n
            && (k < |ops| ==> n < |EncodeAll(ops[..k + 1])|)
  {
    var k := WholeWithin(ops, n);
    if ops != [] && |Encode(ops[0])| <= n {
      WholeWithinIsMaximal(ops[1..], n - |Encode(ops[0])|);
      assert ops[..k][1..] == ops[1..][..k - 1];
      if k < |ops| { assert ops[..k + 1][1..] == ops[1..][..k]; }
    } else if ops != [] {
      assert ops[..1][1..] == [];
      assert EncodeAll(ops[..1]) == Encode(ops[0]) + [];
    }
  }

  lemma NextRecordLeads(ops: seq<WalOp>, k: nat)
    requires k < |ops|
    ensures |EncodeAll(ops[..k + 1])| == |EncodeAll(ops[..k])| + |Encode(ops[k])|
    ensures Encode(ops[k]) <= EncodeAll(ops[k..])
    ensures EncodeAll([]) == []
  {
    hide Encode;
    assert ops[..k + 1] == ops[..k] + [ops[k]];
    EncodeAllAppend(ops[..k], [ops[k]]);
    assert EncodeAll([ops[k]]) == Encode(ops[k]) + EncodeAll([]);
    assert ops[k..][1..] == ops[k + 1..];
  }

  /** Torn tail: of any byte prefix of a log, replay delivers exactly the operations that lie
      wholly inside it, and answers `Ok` exactly when the prefix ends on a record boundary. */
  lemma TornTail(ops: seq<WalOp>, n: nat)
    requires forall i :: 0 <= i < |ops| ==> Fits(ops[i])
    requires n <= |EncodeAll(ops)|
    ensures var k := WholeWithin(ops, n);
            Replay(EncodeAll(ops)[..n]) == Replayed(ops[..k], n == |EncodeAll(ops[..k])|)
  {
    hide Replay, ReadRecord, Encode, EncodeAll, WholeWithin;
    var k := WholeWithin(ops, n);
    var whole := EncodeAll(ops[..k]);
    WholeWithinIsMaximal(ops, n);
    assert ops == ops[..k] + ops[k..];
    EncodeAllAppend(ops[..k], ops[k..]);
    var tail := EncodeAll(ops[k..])[..n - |whole|];
    assert EncodeAll(ops)[..n] == whole + tail;
    ReplayWholeRecords(ops[..k], tail);
    if k == |ops| {
      assert ops[k..] == [] && ops[..k] == ops;
    } else {
      NextRecordLeads(ops, k);
      assert tail == Encode(ops[k])[..n - |whole|];
      if tail != [] { TornRecordIsRefused(ops[k], n - |whole|); }
    }
    if tail == [] { NothingToReplay(); }
    assert ops[..k] + [] == ops[..k];
  }

  /** A log reads back as written if and only if no payload exceeds the record limit. */
  lemma {:induction false} RoundTripIffAllFit(ops: seq<WalOp>)
    ensures Replay(EncodeAll(ops)) == Replayed(ops, true) <==> forall i :: 0 <= i < |ops| ==> Fits(ops[i])
  {
    if forall i :: 0 <= i < |ops| ==> Fits(ops[i]) {
      ReplayWholeRecords(ops, []);
      assert EncodeAll(ops) + [] == EncodeAll(ops) && ops + [] == ops;
    } else if Fits(ops[0]) {
      ReadsBack(ops[0], EncodeAll(ops[1..]));
      RoundTripIffAllFit(ops[1..]);
      assert ops == [ops[0]] + ops[1..];
      assert Replay(EncodeAll(ops)).ops[1..] == Replay(EncodeAll(ops[1..])).ops;
    } else {
      OversizedMisreads(ops[0], EncodeAll(ops[1..]));
    }
  }

  lemma OversizedMisreads(op: WalOp, tail: Bytes)
    requires !Fits(op)
    ensures var r := ReadRecord(Encode(op) + tail); r == Oversized || (r.Record? && r.op != op)
  {
    var b := Encode(op) + tail;
    assert b[1..5] == LengthField(|op.data|);
    LengthFieldReads(|op.data|);
    var len := |op.data| % U32;
    if len <= MAX_WAL_RECORD_SIZE { assert len < |op.data|; }
  }

  // ---------------------------------------------------------------- appending after torn bytes

  lemma {:induction false} RecordsFitTheirFile(b: Bytes, data: Bytes)
    requires Insert(data) in Replay(b).ops
    ensures 5 + |data| <= |b|
    decreases |b|
  {
    var r := ReadRecord(b);
    if r.op != Insert(data) { RecordsFitTheirFile(b[r.size..], data); }
  }

  /** A payload as JSON has them: no zero byte, not a mere three bytes, and below the limit. */
  predicate Plain(data: Bytes) {
    4 <= |data| < MAX_WAL_RECORD_SIZE && 0 !in data
  }

  /** Whatever follows the head of a record, the next record read takes more than the head. */
  lemma HeadIsTakenFirst(op: WalOp, n: nat, tail: Bytes)
    requires Fits(op) && 0 < n < |Encode(op)|
    ensures var r := ReadRecord(Encode(op)[..n] + tail); r.Record? ==> r.size > n
  {
    var b := Encode(op)[..n] + tail;
    assert b[0] == Encode(op)[0];
    if n >= 5 { HeaderOf(op, n, tail); }
  }

  lemma TopByte(n: nat)
    requires n < MAX_WAL_RECORD_SIZE
    ensures LengthField(n)[3] == 0
  {
    assert LittleEndian(n, 4)[3] == LittleEndian(n / 256, 3)[2] == LittleEndian(n / 256 / 256, 2)[1];
    assert LittleEndian(n / 256 / 256, 2)[1] == LittleEndian(n / 256 / 256 / 256, 1)[0];
  }

  lemma HeadIsNotTheRecord(op: WalOp, n: nat, data: Bytes)
    requires Fits(op) && 0 < n < |Encode(op)| && Plain(data)
    ensures var r := ReadRecord(Encode(op)[..n] + Encode(Insert(data))); r.Record? ==> r.op != Insert(data)
  {
    var t := Encode(Insert(data));
    var b := Encode(op)[..n] + t;
    var r := ReadRecord(b);
    if r.Record? && r.op.Insert? && |r.op.data| == |data| {
      var got := r.op.data;
      assert got == b[5..5 + |data|];
      TopByte(|data|);
      assert b[n] == 0 && b[n + 4] == 0;
      if n >= 5 {
        HeaderOf(op, n, t);
        assert got[n - 5] == b[n];
      } else {
        assert got[n - 1] == b[n + 4];
      }
    }
  }

  /** From five bytes on, the head of an insert tells its length. */
  lemma HeaderOf(op: WalOp, n: nat, tail: Bytes)
    requires Fits(op) && 5 <= n < |Encode(op)|
    ensures var b := Encode(op)[..n] + tail;
            op.Insert? ==> b[0] == 0 && FromLittleEndian(b[1..5]) == |op.data| && n < 5 + |op.data|
    ensures !op.Insert? ==> (Encode(op)[..n] + tail)[0] != 0
  {
    var x := Encode(op);
    var b := x[..n] + tail;
    if op.Insert? {
      var field := LengthField(|op.data|);
      assert x == [0] + field + op.data;
      assert forall i :: 0 <= i < 4 ==> b[1..5][i] == b[i + 1] == x[i + 1] == field[i];
      assert b[1..5] == field;
      LengthFieldReads(|op.data|);
    }
  }

  /** The record appended after the head of another is never delivered: what is read at the head
      swallows its beginning. */
  lemma TornHeadHidesTheNext(op: WalOp, n: nat, data: Bytes)
    requires Fits(op) && 0 < n < |Encode(op)| && Plain(data)
    ensures Insert(data) !in Replay(Encode(op)[..n] + Encode(Insert(data))).ops
  {
    hide Encode, ReadRecord;
    var b := Encode(op)[..n] + Encode(Insert(data));
    HeadIsTakenFirst(op, n, Encode(Insert(data)));
    HeadIsNotTheRecord(op, n, data);
    var r := ReadRecord(b);
    if r.Record? && Insert(data) in Replay(b[r.size..]).ops {
      RecordsFitTheirFile(b[r.size..], data);
    }
  }

  // ---------------------------------------------------------------- appending

  class WriteAheadLog {
    var file: Bytes
    var bytesWritten: nat
    var dirty: bool

    constructor (existing: Bytes)
      ensures file == existing && bytesWritten == |existing| && !dirty
    {
      file, bytesWritten, dirty := existing, |existing|, false;
    }

    /** Field by field, as the code writes it; the record size is counted separately. */
    method Append(op: WalOp)
      modifies this
      ensures file == old(file) + Encode(op)
      ensures bytesWritten == old(bytesWritten) + |Encode(op)|
      ensures dirty
    {
      var buffer: Bytes := [match op case Insert(_) => 0 case Delete(_) => 1 case Tombstone(_) => 2];
      match op {
        case Insert(data) =>
          buffer := buffer + LengthField(|data|);
          buffer := buffer + data;
        case Delete(id) =>
          buffer := buffer + id;
        case Tombstone(id) =>
          buffer := buffer + id;
      }
      assert buffer == Encode(op);
      file := file + buffer;
      dirty := true;
      bytesWritten := bytesWritten + 1 + match op case Insert(data) => 4 + |data| case _ => 32;
    }
  }

  // ---------------------------------------------------------------- meaning of a log

  /** JSON parsing is outside the model: `parse` stands for `Event::from_json_unchecked`. */
  type Parser = Bytes -> Option<Event>

  /** What recovery does with a record; one whose payload does not parse is skipped. */
  function Meaning(parse: Parser, op: WalOp): seq<Op> {
    match op
    case Insert(data) => if parse(data).Some? then [OpInsert(parse(data).value)] else []
    case Delete(id) => [OpRemove(id)]
    case Tombstone(id) => [OpDelete(id)]
  }

  function Meanings(parse: Parser, ops: seq<WalOp>): seq<Op> {
    if ops == [] then [] else Meanings(parse, ops[..|ops| - 1]) + Meaning(parse, ops[|ops| - 1])
  }

  ghost predicate ParsesGenuine(cat: Catalogue, parse: Parser, ops: seq<WalOp>) {
    forall i :: 0 <= i < |ops| && ops[i].Insert? && parse(ops[i].data).Some? ==> Genuine(cat, parse(ops[i].data).value)
  }

  lemma {:induction false} RunAppend(s: Store, a: seq<Op>, b: seq<Op>)
    ensures Run(s, a + b) == Run(Run(s, a), b)
  {
    if b == [] {
      assert a + b == a;
    } else {
      var b0 := b[..|b| - 1];
      assert (a + b)[..|a + b| - 1] == a + b0;
      RunAppend(s, a, b0);
    }
  }

  // ---------------------------------------------------------------- compaction

  datatype Compaction = Compaction(kept: seq<WalOp>, seen: set<Id>)

  /** The id a record inserts, if it inserts one. */
  function Inserts1(parse: Parser, op: WalOp): Option<Id> {
    if op.Insert? && parse(op.data).Some? then Some(parse(op.data).value.id) else None
  }

  /** The records `compact` keeps: the first insert of each live event. */
  function Compacted(parse: Parser, ops: seq<WalOp>, live: set<Id>): Compaction {
    if ops == [] then Compaction([], {})
    else
      var c := Compacted(parse, ops[..|ops| - 1], live);
      var op := ops[|ops| - 1];
      match Inserts1(parse, op)
      case Some(id) => if id in live && id !in c.seen then Compaction(c.kept + [op], c.seen + {id}) else c
      case None => c
  }

  lemma CompactedStep(parse: Parser, ops: seq<WalOp>, op: WalOp, live: set<Id>)
    ensures var c, c' := Compacted(parse, ops, live), Compacted(parse, ops + [op], live);
            if Inserts1(parse, op).Some? && Inserts1(parse, op).value in live && Inserts1(parse, op).value !in c.seen
            then c' == Compaction(c.kept + [op], c.seen + {Inserts1(parse, op).value})
                 && EncodeAll(c'.kept) == EncodeAll(c.kept) + Encode(op)
            else c' == c
    ensures Compacted(parse, [], live) == Compaction([], {}) && EncodeAll([]) == []
  {
    assert (ops + [op])[..|ops|] == ops;
    EncodeAllAppend(Compacted(parse, ops, live).kept, [op]);
    assert EncodeAll([op]) == Encode(op);
  }

  datatype CompactResult = Rewritten(file: Bytes, kept: nat, removed: nat) | TooLarge

  method Compact(parse: Parser, file: Bytes, live: set<Id>) returns (r: CompactResult)
    ensures r.TooLarge? ==> !Replay(file).ok
    ensures r.Rewritten? ==>
              && r.file == EncodeAll(Compacted(parse, Replay(file).ops, live).kept)
              && r.kept == |Compacted(parse, Replay(file).ops, live).kept|
              && r.kept + r.removed == |Replay(file).ops|
              && Replay(r.file) == Replayed(Compacted(parse, Replay(file).ops, live).kept, true)
  {
    hide ReadRecord, Encode, Compacted, EncodeAll, Replay, ReadSoFar;
    var pos, kept, removed := 0, 0, 0;
    var out: Bytes := [];
    var seen: set<Id> := {};
    ghost var done: seq<WalOp> := [];
    CompactedStep(parse, [], Delete(seq(32, i => 0)), live);
    ReadNothingYet(file);
    while pos < |file|
      invariant pos <= |file|
      invariant ReadSoFar(file, pos, done)
      invariant out == EncodeAll(Compacted(parse, done, live).kept)
      invariant seen == Compacted(parse, done, live).seen
      invariant kept == |Compacted(parse, done, live).kept| && kept + removed == |done|
    {
      ReadOn(file, pos, done);
      match ReadRecord(file[pos..]) {
        case Record(op, size) =>
          CompactedStep(parse, done, op, live);
          var id := Inserts1(parse, op);
          var keep := id.Some? && id.value in live && id.value !in seen;
          if keep {
            seen := seen + {Inserts1(parse, op).value};
            out := out + Encode(op);
            kept := kept + 1;
          } else {
            removed := removed + 1;
          }
          done := done + [op];
          pos := pos + size;
        case Oversized =>
          return TooLarge;
        case _ =>
          CompactedReadsBack(parse, file, live);
          return Rewritten(out, kept, removed);
      }
    }
    ReadOn(file, pos, done);
    CompactedReadsBack(parse, file, live);
    r := Rewritten(out, kept, removed);
  }

  /** Whatever was read from a file fits a record, and so reads back. */
  lemma {:induction false} ReadRecordsFit(b: Bytes)
    ensures forall i :: 0 <= i < |Replay(b).ops| ==> Fits(Replay(b).ops[i])
    decreases |b|
  {
    if b != [] {
      var r := ReadRecord(b);
      if r.Record? {
        ReadRecordsFit(b[r.size..]);
        assert Fits(r.op);
      }
    }
  }

  ghost predicate AllFit(ops: seq<WalOp>) {
    forall i :: 0 <= i < |ops| ==> Fits(ops[i])
  }

  lemma {:induction false} KeptAreRead(parse: Parser, ops: seq<WalOp>, live: set<Id>)
    requires AllFit(ops)
    ensures AllFit(Compacted(parse, ops, live).kept)
  {
    hide Fits;
    if ops != [] {
      var n := |ops| - 1;
      KeptAreRead(parse, ops[..n], live);
      var before, kept := Compacted(parse, ops[..n], live).kept, Compacted(parse, ops, live).kept;
      assert kept == before || kept == before + [ops[n]];
    }
  }

  lemma CompactedReadsBack(parse: Parser, file: Bytes, live: set<Id>)
    ensures var kept := Compacted(parse, Replay(file).ops, live).kept;
            Replay(EncodeAll(kept)) == Replayed(kept, true)
  {
    ReadRecordsFit(file);
    KeptAreRead(parse, Replay(file).ops, live);
    RoundTripIffAllFit(Compacted(parse, Replay(file).ops, live).kept);
  }

  ghost function LiveIds(s: Store): set<Id> {
    set e | e in Live(s) :: e.id
  }

  ghost predicate AllInsert(parse: Parser, ops: seq<WalOp>) {
    forall i :: 0 <= i < |ops| ==> Inserts1(parse, ops[i]).Some?
  }

  /** The events of a list of inserting records. */
  ghost function EventsOf(parse: Parser, ops: seq<WalOp>): seq<Event>
    requires AllInsert(parse, ops)
  {
    seq(|ops|, i requires 0 <= i < |ops| && Inserts1(parse, ops[i]).Some? => parse(ops[i].data).value)
  }

  lemma {:induction false} MeaningsOfInserts(parse: Parser, ops: seq<WalOp>)
    requires AllInsert(parse, ops)
    ensures Meanings(parse, ops) == Inserts(EventsOf(parse, ops))
  {
    if ops != [] {
      var n := |ops| - 1;
      MeaningsOfInserts(parse, ops[..n]);
      assert Inserts(EventsOf(parse, ops)) == Inserts(EventsOf(parse, ops[..n])) + [OpInsert(parse(ops[n].data).value)];
    }
  }

  /** Whatever is live was inserted by some record. */
  lemma {:induction false} LiveWasInserted(parse: Parser, ops: seq<WalOp>, e: Event)
    requires e in Live(Run(EMPTY, Meanings(parse, ops)))
    ensures exists i :: 0 <= i < |ops| && ops[i].Insert? && parse(ops[i].data) == Some(e)
  {
    if ops != [] {
      var n := |ops| - 1;
      var s := Run(EMPTY, Meanings(parse, ops[..n]));
      RunAppend(EMPTY, Meanings(parse, ops[..n]), Meaning(parse, ops[n]));
      if e in Live(s) {
        LiveWasInserted(parse, ops[..n], e);
        var i :| 0 <= i < n && ops[i].Insert? && parse(ops[i].data) == Some(e);
      } else {
        var m := Meaning(parse, ops[n]);
        if m != [] {
          assert m[..0] == [] && Run(s, m) == Apply(s, m[0]);
        }
      }
    }
  }

  /** The kept records insert exactly the live events that some record inserts. */
  lemma {:induction false} KeptInsertsAreLive(cat: Catalogue, parse: Parser, ops: seq<WalOp>, live: set<Id>)
    requires ParsesGenuine(cat, parse, ops)
    ensures var c := Compacted(parse, ops, live);
            && AllInsert(parse, c.kept)
            && (forall i :: 0 <= i < |c.kept| ==> Inserts1(parse, c.kept[i]).value in live)
            && ParsesGenuine(cat, parse, c.kept)
            && (forall id :: id in c.seen <==>
                  id in live && exists i :: 0 <= i < |ops| && Inserts1(parse, ops[i]) == Some(id))
            && (forall id :: id in c.seen ==> exists i :: 0 <= i < |c.kept| && Inserts1(parse, c.kept[i]) == Some(id))
  {
    if ops != [] {
      var n := |ops| - 1;
      KeptInsertsAreLive(cat, parse, ops[..n], live);
      var c0, c := Compacted(parse, ops[..n], live), Compacted(parse, ops, live);
      forall id
        ensures id in c.seen <==> id in live && exists i :: 0 <= i < |ops| && Inserts1(parse, ops[i]) == Some(id)
      {
        if id in c0.seen {
          var i :| 0 <= i < n && Inserts1(parse, ops[..n][i]) == Some(id);
          assert Inserts1(parse, ops[i]) == Some(id);
        } else if id in live && exists i :: 0 <= i < |ops| && Inserts1(parse, ops[i]) == Some(id) {
          var i :| 0 <= i < |ops| && Inserts1(parse, ops[i]) == Some(id);
          assert i == n by { assert forall j :: 0 <= j < n ==> ops[..n][j] == ops[j]; }
        }
      }
      forall id | id in c.seen ensures exists i :: 0 <= i < |c.kept| && Inserts1(parse, c.kept[i]) == Some(id) {
        if id in c0.seen {
          var i :| 0 <= i < |c0.kept| && Inserts1(parse, c0.kept[i]) == Some(id);
          assert c.kept[i] == c0.kept[i];
        } else {
          assert c.kept[|c0.kept|] == ops[n];
        }
      }
    }
  }

  /** Compaction preserves meaning: given the ids live after the log, replaying the compacted
      log from an empty store rebuilds the same live set. */
  lemma CompactionPreservesMeaning(cat: Catalogue, parse: Parser, ops: seq<WalOp>)
    requires ParsesGenuine(cat, parse, ops)
    ensures var s := Run(EMPTY, Meanings(parse, ops));
            Run(EMPTY, Meanings(parse, Compacted(parse, ops, LiveIds(s)).kept)).slots == s.slots
  {
    var s := Run(EMPTY, Meanings(parse, ops));
    MeaningsGenuine(cat, parse, ops);
    RunKeepsWf(cat, EMPTY, Meanings(parse, ops));
    var live := LiveIds(s);
    var kept := Compacted(parse, ops, live).kept;
    KeptInsertsAreLive(cat, parse, ops, live);
    var es := EventsOf(parse, kept);
    MeaningsOfInserts(parse, kept);
    KeptEventsAreTheLive(cat, parse, ops, s);
    LiveListRebuildsStore(cat, s, es);
  }

  /** The same of files: whatever state the log file is in, replaying the file that compaction
      writes rebuilds the live set that replaying the original gave. */
  lemma CompactedFilePreservesMeaning(cat: Catalogue, parse: Parser, file: Bytes)
    requires ParsesGenuine(cat, parse, Replay(file).ops)
    ensures var s := Run(EMPTY, Meanings(parse, Replay(file).ops));
            var compacted := EncodeAll(Compacted(parse, Replay(file).ops, LiveIds(s)).kept);
            Run(EMPTY, Meanings(parse, Replay(compacted).ops)).slots == s.slots
  {
    hide Run, Meanings, Replay, Compacted, EncodeAll;
    var ops := Replay(file).ops;
    CompactionPreservesMeaning(cat, parse, ops);
    CompactedReadsBack(parse, file, LiveIds(Run(EMPTY, Meanings(parse, ops))));
  }

  lemma KeptEventsAreTheLive(cat: Catalogue, parse: Parser, ops: seq<WalOp>, s: Store)
    requires ParsesGenuine(cat, parse, ops) && Wf(cat, s) && s == Run(EMPTY, Meanings(parse, ops))
    requires AllInsert(parse, Compacted(parse, ops, LiveIds(s)).kept)
    ensures var es := EventsOf(parse, Compacted(parse, ops, LiveIds(s)).kept);
            forall e :: e in es <==> e in Live(s)
  {
    hide Run, Meanings, Compacted;
    var live := LiveIds(s);
    var kept := Compacted(parse, ops, live).kept;
    KeptInsertsAreLive(cat, parse, ops, live);
    var es := EventsOf(parse, kept);
    forall e ensures e in es <==> e in Live(s) {
      if e in es {
        var i :| 0 <= i < |es| && es[i] == e;
        assert Inserts1(parse, kept[i]).value == e.id;
        var f :| f in Live(s) && f.id == e.id;
        assert f == cat(f.id) == e;
      }
      if e in Live(s) {
        LiveWasInserted(parse, ops, e);
        var i :| 0 <= i < |ops| && ops[i].Insert? && parse(ops[i].data) == Some(e);
        assert Inserts1(parse, ops[i]) == Some(e.id);
        var j :| 0 <= j < |kept| && Inserts1(parse, kept[j]) == Some(e.id);
        assert es[j].id == e.id && es[j] == cat(e.id);
        assert es[j] == e;
      }
    }
  }

  lemma {:induction false} MeaningsGenuine(cat: Catalogue, parse: Parser, ops: seq<WalOp>)
    requires ParsesGenuine(cat, parse, ops)
    ensures AllGenuine(cat, Meanings(parse, ops))
  {
    if ops != [] { MeaningsGenuine(cat, parse, ops[..|ops| - 1]); }
  }

  /** Inserting the live events of a store, in any order, rebuilds its slots. */
  lemma LiveListRebuildsStore(cat: Catalogue, s: Store, es: seq<Event>)
    requires Wf(cat, s) && forall e :: e in es <==> e in Live(s)
    ensures Run(EMPTY, Inserts(es)).slots == s.slots
    ensures Run(EMPTY, Inserts(es)).tombs == []
    ensures Wf(cat, Run(EMPTY, Inserts(es)))
  {
    InsertsKeepTheWinners(cat, es);
    var t := Run(EMPTY, Inserts(es));
    forall e ensures e in Live(t) <==> e in Live(s) {
      if e in Live(s) {
        forall x | x in es && SlotOf(x) == SlotOf(e) ensures x == e {
          assert s.slots[SlotOf(x)] == x && s.slots[SlotOf(e)] == e;
        }
        assert Wins(es, e);
      }
    }
    SameLiveSameSlots(cat, s, t);
    SameLiveSameSlots(cat, t, s);
  }
}
