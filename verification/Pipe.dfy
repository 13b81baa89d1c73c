/** The named pipe: the messages miners write (miner.c) and the loop that reads them back
    (validator.c). A message is taken as written without another one in between. */
module Pipe {
  import opened Bytes
  import opened Data
  import opened Serialization

  const ID_SIZE: nat := 4
  const PREFIX_SIZE: nat := 149  // miner id and block header

  function Encode(m: Message): (e: Bytes)
    ensures |e| == PREFIX_SIZE + TX_SIZE * |m.block.transactions|
  {
    Int32(m.minerId) + Body(m.block)
  }

  /** Where the fields of a message are written. */
  lemma EncodeFields(m: Message)
    ensures var e, b, n := Encode(m), m.block, |m.block.transactions|;
            && |e| == 149 + 32 * n
            && e[..4] == Int32(m.minerId) && e[4..68] == b.txbId && e[68..133] == b.previousHash
            && e[133..141] == Int64(b.timestamp) && e[141..145] == Int32(b.nonce) && e[145..149] == Int32(n)
            && forall i :: 0 <= i < n ==> e[149 + 32 * i..181 + 32 * i] == TxBytes(b.transactions[i])
  {
    hide TxBytes, Int32, Int64, Header;
    var e, s, n := Encode(m), Serialize(m.block), |m.block.transactions|;
    SerializedFields(m.block);
    assert e[4..] == s[..145 + 32 * n];
    assert e[4..68] == s[..64] && e[68..133] == s[64..129] && e[133..141] == s[129..137];
    assert e[141..145] == s[137..141] && e[145..149] == s[141..145];
    forall i | 0 <= i < n ensures e[149 + 32 * i..181 + 32 * i] == TxBytes(m.block.transactions[i]) {
      assert e[149 + 32 * i..181 + 32 * i] == s[145 + 32 * i..177 + 32 * i];
    }
  }

  function EncodeAll(ms: seq<Message>): Bytes {
    if ms == [] then [] else Encode(ms[0]) + EncodeAll(ms[1..])
  }

  /** Sending appends to the queue of messages. */
  lemma {:induction false} EncodeAllAppend(a: seq<Message>, b: seq<Message>)
    ensures EncodeAll(a + b) == EncodeAll(a) + EncodeAll(b)
  {
    hide Encode;
    if a == [] {
      assert a + b == b;
    } else {
      assert (a + b)[1..] == a[1..] + b;
      EncodeAllAppend(a[1..], b);
    }
  }

  /** The validator overwrites the last byte of both string fields with a NUL. */
  function Terminate(b: Block): Block {
    b.(txbId := b.txbId[..TXB_ID_LEN - 1] + [0], previousHash := b.previousHash[..HASH_SIZE - 1] + [0])
  }

  predicate Terminated(b: Block) {
    b.txbId[TXB_ID_LEN - 1] == 0 && b.previousHash[HASH_SIZE - 1] == 0
  }

  /** The message at the front of a byte stream, and the bytes after it. */
  function Decode(s: Bytes, k: nat): Option<(Message, Bytes)> {
    if |s| < PREFIX_SIZE then None
    else
      match Parse(s[ID_SIZE..])
      case None => None
      case Some(b) =>
        var n := |b.transactions|;
        if n == 0 || n > k || |s| < PREFIX_SIZE + TX_SIZE * n then None
        else Some((Message(ToInt32(s[..ID_SIZE]), Terminate(b)), s[PREFIX_SIZE + TX_SIZE * n..]))
  }

  function DecodeAll(s: Bytes, k: nat): Option<seq<Message>>
    decreases |s|
  {
    if s == [] then Some([])
    else
      match Decode(s, k)
      case None => None
      case Some((m, rest)) =>
        if |rest| >= |s| then None
        else
          match DecodeAll(rest, k)
          case None => None
          case Some(ms) => Some([m] + ms)
  }

  /** A message as miners write it. */
  predicate Sendable(m: Message, k: nat) {
    IsInt32(m.minerId) && Sized(m.block) && Terminated(m.block) && 0 < |m.block.transactions| <= k
  }

  lemma TerminateIsIdentity(b: Block)
    requires Terminated(b)
    ensures Terminate(b) == b
  {
    assert b.txbId == b.txbId[..TXB_ID_LEN - 1] + [0];
    assert b.previousHash == b.previousHash[..HASH_SIZE - 1] + [0];
  }

  lemma DecodeInvertsEncode(m: Message, rest: Bytes, k: nat)
    requires Sendable(m, k)
    ensures Decode(Encode(m) + rest, k) == Some((m, rest))
  {
    hide Parse, Body, Int32, ToInt32, Terminate, Sized;
    var s := Encode(m) + rest;
    assert s[..ID_SIZE] == Int32(m.minerId);
    assert s[ID_SIZE..] == Body(m.block) + rest;
    Int32RoundTrip(m.minerId);
    ParseInvertsBody(m.block, rest);
    TerminateIsIdentity(m.block);
    assert s[PREFIX_SIZE + TX_SIZE * |m.block.transactions|..] == rest;
  }

  /** Framing: the concatenation of any messages splits back into exactly those messages. */
  lemma {:induction false} DecodeAllInvertsEncodeAll(ms: seq<Message>, k: nat)
    requires forall i :: 0 <= i < |ms| ==> Sendable(ms[i], k)
    ensures DecodeAll(EncodeAll(ms), k) == Some(ms)
  {
    hide Decode, Encode, Sendable;
    if ms != [] {
      DecodeInvertsEncode(ms[0], EncodeAll(ms[1..]), k);
      DecodeAllInvertsEncodeAll(ms[1..], k);
      assert ms == [ms[0]] + ms[1..];
    }
  }

  /** Where the fields of a message lie in the stream, and which counts are refused. */
  lemma DecodeFields(s: Bytes, k: nat)
    requires |s| >= PREFIX_SIZE
    ensures var n := ToInt32(s[145..149]);
            Decode(s, k) ==
              if n <= 0 || n > k || |s| < PREFIX_SIZE + TX_SIZE * n then None
              else Some((Message(ToInt32(s[..4]), Block(
                           s[4..67] + [0], s[68..132] + [0], ToInt64(s[133..141]), ToUint32(s[141..145]),
                           ParseTxs(s[149..149 + TX_SIZE * n], n))),
                         s[149 + TX_SIZE * n..]))
  {
    hide ToInt32, ToInt64, ToUint32, ParseTxs;
    var t := s[4..];
    var n := ToInt32(s[145..149]);
    PrefixSlices(s);
    assert s[4..68][..63] == s[4..67] && s[68..133][..64] == s[68..132];
    if 0 <= n && |s| >= PREFIX_SIZE + TX_SIZE * n {
      assert t[145..145 + TX_SIZE * n] == s[149..149 + TX_SIZE * n];
    }
  }

  lemma PrefixSlices(s: Bytes)
    requires |s| >= PREFIX_SIZE
    ensures var t := s[4..];
            && t[..64] == s[4..68] && t[64..129] == s[68..133] && t[129..137] == s[133..141]
            && t[137..141] == s[141..145] && t[141..145] == s[145..149] && t[145..] == s[149..]
  {
  }

  // ----- reading ------------------------------------------------------------------------------

  /** What one read() call does: deliver at most `max` bytes (EAGAIN when none are there), say
      EAGAIN, report end of file, or fail. */
  datatype Outcome = Chunk(max: nat) | Again | Eof | Fail

  predicate GivesUp(o: Outcome) { o.Eof? || o.Fail? }

  /** Bytes not yet delivered, and how the coming read() calls will turn out (end of file once the
      schedule is used up). */
  datatype Input = Input(stream: Bytes, schedule: seq<Outcome>)

  datatype ReadResult = ReadResult(bytes: int, again: bool, rest: Input)

  function Positive(n: int): nat { if n > 0 then n else 0 }

  function Least(a: nat, b: nat): nat { if a < b then a else b }

  /** read(), asked for `count` bytes. */
  function ReadOnce(i: Input, count: nat): ReadResult {
    if i.schedule == [] then ReadResult(0, false, i)
    else
      var rest := i.(schedule := i.schedule[1..]);
      match i.schedule[0]
      case Again => ReadResult(-1, true, rest)
      case Eof => ReadResult(0, false, rest)
      case Fail => ReadResult(-1, false, rest)
      case Chunk(max) =>
        var n := Least(Least(max, count), |i.stream|);
        if n == 0 then ReadResult(-1, true, rest) else ReadResult(n, false, rest.(stream := i.stream[n..]))
  }

  /** read_fully: its result and what it leaves. */
  function FullRead(i: Input, count: nat): (int, Input)
    decreases |i.schedule|
  {
    if count == 0 then (0, i)
    else
      var one := ReadOnce(i, count);
      if one.bytes > 0 then
        var (n, rest) := FullRead(one.rest, count - one.bytes);
        (one.bytes + Positive(n), rest)
      else if one.again then FullRead(one.rest, count)
      else (one.bytes, one.rest)
  }

  lemma OnceTakes(i: Input, count: nat)
    ensures var r := ReadOnce(i, count);
            && r.bytes <= count && Positive(r.bytes) <= |i.stream| && r.rest.stream == i.stream[Positive(r.bytes)..]
            && (r.bytes > 0 || r.again ==> |r.rest.schedule| < |i.schedule|)
  {
  }

  /** Whatever read_fully returns is how much it has taken from the front of the stream, at most `count`. */
  lemma {:induction false} FullReadTakes(i: Input, count: nat)
    ensures var (r, rest) := FullRead(i, count);
            r <= count && Positive(r) <= |i.stream| && rest.stream == i.stream[Positive(r)..]
    decreases |i.schedule|
  {
    FullReadStep(i, count);
    hide FullRead, ReadOnce;
    if count > 0 {
      OnceTakes(i, count);
      var one := ReadOnce(i, count);
      if one.bytes > 0 {
        FullReadTakes(one.rest, count - one.bytes);
        SliceTwice(i.stream, one.bytes, Positive(FullRead(one.rest, count - one.bytes).0));
      } else if one.again {
        FullReadTakes(one.rest, count);
      }
    }
  }

  lemma SliceTwice(s: Bytes, i: nat, n: nat)
    requires i <= |s|
    ensures i + n <= |s| ==> s[i..][n..] == s[i + n..] && s[..i] + s[i..][..n] == s[..i + n] && s[i..][..n] == s[i..i + n]
  {
  }

  predicate IsSuffix(s: seq<Outcome>, all: seq<Outcome>) {
    |s| <= |all| && s == all[|all| - |s|..]
  }

  /** Of the outcomes used, none was an end of file or an error. */
  predicate Quiet(all: seq<Outcome>, rest: seq<Outcome>) {
    IsSuffix(rest, all) && forall j :: 0 <= j < |all| - |rest| ==> !GivesUp(all[j])
  }

  /** The last outcome used was an end of file or an error, the only one, or the schedule has run out. */
  predicate CutOff(all: seq<Outcome>, rest: seq<Outcome>) {
    || (rest == [] && Quiet(all, rest))
    || (IsSuffix(rest, all) && |rest| < |all| && GivesUp(all[|all| - |rest| - 1])
        && Quiet(all[..|all| - |rest| - 1], []))
  }

  lemma SuffixTail(all: seq<Outcome>, rest: seq<Outcome>)
    requires all != [] && !GivesUp(all[0])
    ensures Quiet(all[1..], rest) ==> Quiet(all, rest)
    ensures CutOff(all[1..], rest) ==> CutOff(all, rest)
  {
    assert all[..1] + all[1..] == all;
    assert Quiet(all, all[1..]) by {
      assert all[|all| - |all[1..]|..] == all[1..];
    }
    QuietThen(all, all[1..], rest);
  }

  lemma QuietThen(a: seq<Outcome>, b: seq<Outcome>, c: seq<Outcome>)
    requires Quiet(a, b)
    ensures Quiet(b, c) ==> Quiet(a, c)
    ensures CutOff(b, c) ==> CutOff(a, c)
  {
    var d := |a| - |b|;
    assert forall j :: 0 <= j < |b| ==> b[j] == a[d + j];
    if IsSuffix(c, b) {
      assert b[|b| - |c|..] == a[|a| - |c|..];
    }
    if Quiet(b, c) {
      forall j | 0 <= j < |a| - |c| ensures !GivesUp(a[j]) {
        if j >= d {
          assert a[j] == b[j - d];
        }
      }
    }
    if IsSuffix(c, b) && |c| < |b| && GivesUp(b[|b| - |c| - 1]) && Quiet(b[..|b| - |c| - 1], []) {
      var x, y := a[..|a| - |c| - 1], b[..|b| - |c| - 1];
      forall j | 0 <= j < |x| ensures !GivesUp(x[j]) {
        if j >= d {
          assert x[j] == y[j - d];
        }
      }
      assert IsSuffix([], x);
    }
  }

  lemma Immediately(all: seq<Outcome>)
    ensures Quiet(all, all)
    ensures all == [] ==> CutOff(all, all)
    ensures all != [] && GivesUp(all[0]) ==> CutOff(all, all[1..])
  {
    assert all[0..] == all;
    if all != [] {
      assert all[|all| - |all[1..]|..] == all[1..];
      assert all[..|all| - |all[1..]| - 1] == [];
    }
  }

  lemma FullReadStep(i: Input, count: nat)
    ensures FullRead(i, 0) == (0, i)
    ensures count > 0 ==>
      var one := ReadOnce(i, count);
      FullRead(i, count) ==
        if one.bytes > 0 then
          var (n, rest) := FullRead(one.rest, count - one.bytes);
          (one.bytes + Positive(n), rest)
        else if one.again then FullRead(one.rest, count)
        else (one.bytes, one.rest)
  {
    hide ReadOnce, Positive;
  }

  lemma JoinStart(i: Input, count: nat)
    ensures FullRead(i, count) == Joined(0, FullRead(i, count))
  {
    hide FullRead;
  }

  lemma JoinEnd(i: Input, total: nat)
    ensures Joined(total, FullRead(i, 0)) == (total, i)
  {
    hide ReadOnce;
    FullReadStep(i, 0);
  }

  /** What the loop returns when it has read `total` bytes before. */
  function Joined(total: nat, r: (int, Input)): (int, Input) {
    (if total == 0 then r.0 else total + Positive(r.0), r.1)
  }

  lemma JoinStep(i: Input, need: nat, total: nat)
    requires need > 0
    ensures var one := ReadOnce(i, need);
            Joined(total, FullRead(i, need)) ==
              if one.bytes > 0 then Joined(total + one.bytes, FullRead(one.rest, need - one.bytes))
              else if one.again then Joined(total, FullRead(one.rest, need))
              else (if total > 0 then total else one.bytes, one.rest)
  {
    hide FullRead, ReadOnce;
    FullReadStep(i, need);
  }

  /** read_fully returns `count` if and only if it was not cut off; EAGAIN and short reads never make it
      stop. */
  lemma {:induction false} FullReadIsExact(i: Input, count: nat)
    ensures FullRead(i, count).0 == count ==> Quiet(i.schedule, FullRead(i, count).1.schedule)
    ensures FullRead(i, count).0 != count ==> CutOff(i.schedule, FullRead(i, count).1.schedule)
    decreases |i.schedule|
  {
    hide FullRead, Quiet, CutOff;
    FullReadStep(i, count);
    Immediately(i.schedule);
    var one := ReadOnce(i, count);
    FullReadStep(one.rest, 0);
    if count > 0 && one.bytes > 0 {
      FullReadIsExact(one.rest, count - one.bytes);
      SuffixTail(i.schedule, FullRead(i, count).1.schedule);
    } else if count > 0 && one.again {
      FullReadIsExact(one.rest, count);
      SuffixTail(i.schedule, FullRead(i, count).1.schedule);
    }
  }

  /** Several fields in a row, as far as they can be read. */
  function ReadFields(i: Input, counts: seq<nat>): (bool, Input)
    decreases |counts|
  {
    if counts == [] then (true, i)
    else
      var (n, rest) := FullRead(i, counts[0]);
      if n != counts[0] then (false, rest) else ReadFields(rest, counts[1..])
  }

  lemma FieldsStep(i: Input, counts: seq<nat>)
    ensures ReadFields(i, []) == (true, i)
    ensures counts != [] ==>
      var (n, rest) := FullRead(i, counts[0]);
      ReadFields(i, counts) == if n != counts[0] then (false, rest) else ReadFields(rest, counts[1..])
  {
  }

  lemma {:induction false} FieldsTake(i: Input, counts: seq<nat>)
    ensures var (ok, rest) := ReadFields(i, counts);
            ok ==> Total(counts) <= |i.stream| && rest.stream == i.stream[Total(counts)..]
    decreases |counts|
  {
    if counts != [] {
      FullReadTakes(i, counts[0]);
      var (n, rest) := FullRead(i, counts[0]);
      if n == counts[0] {
        FieldsTake(rest, counts[1..]);
        SliceTwice(i.stream, counts[0], Total(counts[1..]));
      }
    }
  }

  function Total(counts: seq<nat>): nat {
    if counts == [] then 0 else counts[0] + Total(counts[1..])
  }

  const HEADER_FIELDS: seq<nat> := [TXB_ID_LEN, HASH_SIZE, 8, 4, 4]

  lemma HeaderTotal()
    ensures Total(HEADER_FIELDS) == PREFIX_SIZE - ID_SIZE
    ensures HEADER_FIELDS[1..] == [HASH_SIZE, 8, 4, 4] && HEADER_FIELDS[1..][1..] == [8, 4, 4]
    ensures HEADER_FIELDS[1..][1..][1..] == [4, 4] && HEADER_FIELDS[1..][1..][1..][1..] == [4]
    ensures HEADER_FIELDS[1..][1..][1..][1..][1..] == []
  {
    assert Total([4]) == 4 && [4, 4][1..] == [4] && Total([4, 4]) == 8;
    assert [8, 4, 4][1..] == [4, 4] && Total([8, 4, 4]) == 16;
    assert [HASH_SIZE, 8, 4, 4][1..] == [8, 4, 4] && Total([HASH_SIZE, 8, 4, 4]) == 81;
    assert HEADER_FIELDS[1..] == [HASH_SIZE, 8, 4, 4];
  }

  /** The count of transactions in the message at the front of a stream. */
  function CountAt(s: Bytes): int {
    if |s| < PREFIX_SIZE then 0 else ToInt32(s[145..149])
  }

  /** The receiving part of validator_main's loop: the miner id by a single read(), the header's fields
      and then the transactions by read_fully, with the test of the count in between. */
  function ReceiveFrom(i: Input, k: nat): (Option<Message>, Input) {
    var id := ReadOnce(i, ID_SIZE);
    if id.bytes != ID_SIZE then (None, id.rest)
    else
      var (ok, header) := ReadFields(id.rest, HEADER_FIELDS);
      var n := CountAt(i.stream);
      if !ok || n <= 0 || n > k then (None, header)
      else
        var (bytes, rest) := FullRead(header, TX_SIZE * n);
        if bytes != TX_SIZE * n then (None, rest) else (FrontOf(i.stream, k), rest)
  }

  function FrontOf(s: Bytes, k: nat): Option<Message> {
    match Decode(s, k)
    case None => None
    case Some((m, _)) => Some(m)
  }

  /** A message that is returned is the one at the front of the stream, and exactly its bytes are gone. */
  lemma ReceivedIsDecoded(i: Input, k: nat)
    ensures var (r, rest) := ReceiveFrom(i, k);
            r.Some? ==> Decode(i.stream, k) == Some((r.value, rest.stream))
  {
    hide FullRead, ReadFields, ToInt32, ToInt64, ToUint32, ParseTxs, Decode, Terminate, FrontOf, Total;
    HeaderTotal();
    var id := ReadOnce(i, ID_SIZE);
    OnceTakes(i, ID_SIZE);
    FieldsTake(id.rest, HEADER_FIELDS);
    var (ok, header) := ReadFields(id.rest, HEADER_FIELDS);
    if id.bytes == ID_SIZE && ok {
      SliceTwice(i.stream, ID_SIZE, PREFIX_SIZE - ID_SIZE);
      assert header.stream == i.stream[PREFIX_SIZE..];
      DecodeFields(i.stream, k);
      var n := CountAt(i.stream);
      if 0 < n <= k && FullRead(header, TX_SIZE * n).0 == TX_SIZE * n {
        FullReadTakes(header, TX_SIZE * n);
        SliceTwice(i.stream, PREFIX_SIZE, TX_SIZE * n);
        FrontUnfolds(i.stream, k);
      }
    }
  }

  lemma FrontUnfolds(s: Bytes, k: nat)
    ensures FrontOf(s, k) == if Decode(s, k).Some? then Some(Decode(s, k).value.0) else None
  {
  }

  lemma {:induction false} FieldsCutOff(i: Input, counts: seq<nat>)
    ensures var (ok, rest) := ReadFields(i, counts);
            if ok then Quiet(i.schedule, rest.schedule) else CutOff(i.schedule, rest.schedule)
    decreases |counts|
  {
    if counts == [] {
      assert i.schedule[0..] == i.schedule;
    } else {
      FullReadIsExact(i, counts[0]);
      var (n, rest) := FullRead(i, counts[0]);
      if n == counts[0] {
        FieldsCutOff(rest, counts[1..]);
        QuietThen(i.schedule, rest.schedule, ReadFields(rest, counts[1..]).1.schedule);
      }
    }
  }

  /** Why no message is returned: the first read() did not deliver the four bytes of the id; or reading
      was cut off; or the count is outside 1..k, and then precisely the id and the header are gone. */
  lemma NothingReceived(i: Input, k: nat)
    ensures var (r, rest) := ReceiveFrom(i, k);
            r.None? ==>
              || ReadOnce(i, ID_SIZE).bytes != ID_SIZE
              || CutOff(i.schedule, rest.schedule)
              || (|i.stream| >= PREFIX_SIZE && rest.stream == i.stream[PREFIX_SIZE..]
                  && !(0 < CountAt(i.stream) <= k))
  {
    ReceivedIsDecoded(i, k);
    hide FullRead, ReadFields, ToInt32, ToInt64, ToUint32, ParseTxs, Decode, Terminate, FrontOf, Total, CutOff, Quiet;
    HeaderTotal();
    var id := ReadOnce(i, ID_SIZE);
    if id.bytes == ID_SIZE {
      FirstIsQuiet(i);
      OnceTakes(i, ID_SIZE);
      FieldsTake(id.rest, HEADER_FIELDS);
      FieldsCutOff(id.rest, HEADER_FIELDS);
      var (ok, header) := ReadFields(id.rest, HEADER_FIELDS);
      QuietThen(i.schedule, id.rest.schedule, header.schedule);
      if ok {
        SliceTwice(i.stream, ID_SIZE, PREFIX_SIZE - ID_SIZE);
        var n := CountAt(i.stream);
        if 0 < n <= k {
          FullReadTakes(header, TX_SIZE * n);
          FullReadIsExact(header, TX_SIZE * n);
          QuietThen(i.schedule, header.schedule, FullRead(header, TX_SIZE * n).1.schedule);
          DecodeFields(i.stream, k);
          FrontUnfolds(i.stream, k);
        }
      }
    }
  }

  lemma FirstIsQuiet(i: Input)
    requires ReadOnce(i, ID_SIZE).bytes == ID_SIZE
    ensures Quiet(i.schedule, ReadOnce(i, ID_SIZE).rest.schedule)
  {
  }

  /** The two ends of the pipe. */
  class PipeEnd {
    var stream: Bytes
    var schedule: seq<Outcome>

    ghost function Now(): Input
      reads this
    {
      Input(stream, schedule)
    }

    /** send_block_to_validator: seven writes, one after the other. */
    method Send(m: Message)
      modifies this`stream
      ensures stream == old(stream) + Encode(m)
    {
      var b := m.block;
      stream := stream + Int32(m.minerId);
      stream := stream + b.txbId;
      stream := stream + b.previousHash;
      stream := stream + Int64(b.timestamp);
      stream := stream + Int32(b.nonce);
      stream := stream + Int32(|b.transactions|);
      stream := stream + TxsBytes(b.transactions);
    }

    method Read(buf: array<byte>, at: nat, count: nat) returns (bytes: int, again: bool)
      requires 0 < count && at + count <= buf.Length
      modifies this, buf
      ensures ReadResult(bytes, again, Now()) == ReadOnce(old(Now()), count)
      ensures bytes <= count && Positive(bytes) <= |old(stream)| && stream == old(stream)[Positive(bytes)..]
      ensures bytes > 0 || again ==> |schedule| < |old(schedule)|
      ensures forall j :: 0 <= j < at ==> buf[j] == old(buf[j])
      ensures forall j :: 0 <= j < bytes ==> buf[at + j] == old(stream)[j]
    {
      if schedule == [] {
        return 0, false;
      }
      var outcome := schedule[0];
      schedule := schedule[1..];
      match outcome
      case Again => return -1, true;
      case Eof => return 0, false;
      case Fail => return -1, false;
      case Chunk(max) =>
        var n := Least(Least(max, count), |stream|);
        if n == 0 {
          return -1, true;
        }
        ghost var before := buf[..];
        Memcpy(buf, at, stream[..n]);
        assert buf[..] == before[..at] + stream[..n] + before[at + n..];
        assert forall j :: 0 <= j < at ==> buf[j] == buf[..][j] == before[j];
        assert forall j :: 0 <= j < n ==> buf[at + j] == buf[..][at + j] == stream[j];
        stream := stream[n..];
        return n, false;
    }

    /** read_fully: the bytes it has consumed are in the buffer, in order. */
    method ReadFully(buf: array<byte>, count: nat) returns (r: int)
      requires buf.Length == count
      modifies this, buf
      ensures (r, Now()) == FullRead(old(Now()), count)
      ensures r <= count && Positive(r) <= |old(stream)| && stream == old(stream)[Positive(r)..]
      ensures buf[..Positive(r)] == old(stream)[..Positive(r)]
    {
      hide FullRead, ReadOnce, Joined;
      ghost var start := Now();
      var totalRead := 0;
      JoinStart(start, count);
      while totalRead < count
        invariant 0 <= totalRead <= count && totalRead <= |start.stream|
        invariant stream == start.stream[totalRead..]
        invariant forall j :: 0 <= j < totalRead ==> buf[j] == start.stream[j]
        invariant FullRead(start, count) == Joined(totalRead, FullRead(Now(), count - totalRead))
        decreases |schedule|
      {
        JoinStep(Now(), count - totalRead, totalRead);
        var bytes, again := Read(buf, totalRead, count - totalRead);
        if bytes <= 0 {
          if !again {
            return if totalRead > 0 then totalRead else bytes;
          }
          continue;
        }
        SliceTwice(start.stream, totalRead, bytes);
        assert forall j :: 0 <= j < totalRead + bytes ==>
          buf[j] == if j < totalRead then start.stream[j] else start.stream[totalRead..][j - totalRead];
        totalRead := totalRead + bytes;
      }
      JoinEnd(Now(), totalRead);
      return totalRead;
    }

    /** One field of a message, in a buffer of its own. */
    method ReadField(count: nat, ghost origin: Bytes, ghost at: nat) returns (ok: bool, data: Bytes)
      requires at <= |origin| && stream == origin[at..]
      modifies this
      ensures Now() == FullRead(old(Now()), count).1
      ensures ok <==> FullRead(old(Now()), count).0 == count
      ensures ok ==> at + count <= |origin| && data == origin[at..at + count] && stream == origin[at + count..]
    {
      hide FullRead;
      var buf := new byte[count](_ => 0);
      var r := ReadFully(buf, count);
      ok := r == count;
      data := buf[..];
      SliceTwice(origin, at, count);
    }

    /** The five fields after the miner id; the count comes last. */
    method ReadHeader(ghost origin: Bytes)
        returns (ok: bool, txbId: Bytes, prevHash: Bytes, timestamp: Bytes, nonce: Bytes, count: Bytes)
      requires 4 <= |origin| && stream == origin[4..]
      modifies this
      ensures (ok, Now()) == ReadFields(old(Now()), HEADER_FIELDS)
      ensures ok ==>
        && PREFIX_SIZE <= |origin| && stream == origin[149..]
        && txbId == origin[4..68] && prevHash == origin[68..133] && timestamp == origin[133..141]
        && nonce == origin[141..145] && count == origin[145..149]
    {
      hide FullRead, ReadFields;
      HeaderTotal();
      txbId, prevHash, timestamp, nonce, count := [], [], [], [], [];
      FieldsStep(Now(), HEADER_FIELDS);
      ok, txbId := ReadField(TXB_ID_LEN, origin, 4);
      if !ok { return; }
      FieldsStep(Now(), [HASH_SIZE, 8, 4, 4]);
      ok, prevHash := ReadField(HASH_SIZE, origin, 68);
      if !ok { return; }
      FieldsStep(Now(), [8, 4, 4]);
      ok, timestamp := ReadField(8, origin, 133);
      if !ok { return; }
      FieldsStep(Now(), [4, 4]);
      ok, nonce := ReadField(4, origin, 141);
      if !ok { return; }
      FieldsStep(Now(), [4]);
      ok, count := ReadField(4, origin, 145);
      FieldsStep(Now(), []);
    }

    /** The receiving part of validator_main's loop. */
    method Receive(k: nat) returns (r: Option<Message>)
      modifies this
      ensures (r, Now()) == ReceiveFrom(old(Now()), k)
    {
      hide FullRead, ReadFields, ToInt32, ToInt64, ToUint32, ParseTxs, Decode, FrontOf, Total;
      ghost var i := Now();
      FrontUnfolds(i.stream, k);
      var idBuf := new byte[ID_SIZE](_ => 0);
      var bytes, again := Read(idBuf, 0, ID_SIZE);
      if bytes != ID_SIZE {
        return None;
      }
      var minerId := idBuf[..ID_SIZE];
      assert minerId == i.stream[..ID_SIZE];
      var ok, txbId, prevHash, timestamp, nonce, count := ReadHeader(i.stream);
      if !ok { return None; }
      var n := ToInt32(count);
      if n <= 0 || n > k {
        return None;
      }
      var txs;
      ok, txs := ReadField(TX_SIZE * n, i.stream, 149);
      if !ok { return None; }
      DecodeFields(i.stream, k);
      assert txs == i.stream[149..149 + TX_SIZE * n];
      assert txbId[..63] == i.stream[4..67] && prevHash[..64] == i.stream[68..132];
      var b := Block(txbId, prevHash, ToInt64(timestamp), ToUint32(nonce), ParseTxs(txs, n));
      return Some(Message(ToInt32(minerId), Terminate(b)));
    }
  }
}
