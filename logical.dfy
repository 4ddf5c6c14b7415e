/** Logical-record reassembly. Physical payloads are appended to a byte
    buffer; each logical record in it starts with a control word giving its
    size and type. Normal records (types 2, 3 and 4) are emitted with their
    control word, pilot and bookkeeping prefix stripped; padding (5, 6) and
    start-of-run (1) records are consumed silently; a leading zero word is
    one-word alignment padding. */
module Logical {
  import opened Wire
  import opened Errors
  import opened Headers
  import opened Physical

  /** The reassembler's state between passes: the framer's cursor and the
      bytes buffered but not yet consumed. */
  datatype State = State(pos: nat, buf: seq<byte>)

  /** Bytes a logical record occupies: its control word plus `size` words. */
  function RecordBytes(cw: Control): (n: nat)
    ensures n % 4 == 0 && CONTROL_BYTES <= n
    ensures n == CONTROL_BYTES <==> cw.size == 0
  {
    CONTROL_BYTES + 4 * cw.size
  }

  /** Offset of a normal record's body: control word plus pilot. */
  const BODY_OFFSET: nat := CONTROL_BYTES + PILOT_BYTES

  /** b is strictly further along than a: either more of the stream has been
      read, or the same amount has and the buffer is shorter. */
  predicate Advances(data: seq<byte>, a: State, b: State) {
    a.pos <= b.pos <= |data| && (a.pos < b.pos || |b.buf| < |a.buf|)
  }

  /** Bytes the reassembler can still hand on: what is buffered plus what
      is left of the stream. Each steering block read and each byte dropped
      uses some up. */
  function Available(data: seq<byte>, st: State): int {
    |data| - st.pos + |st.buf|
  }

  predicate LeadingZeroWord(buf: seq<byte>) {
    |buf| >= 4 && buf[..4] == ZERO_WORD
  }

  /** The refill loop: pull physical records until `need` bytes are
      buffered or the framer runs dry. */
  function Refill(data: seq<byte>, st: State, need: int): (r: Result<State>)
    requires st.pos <= |data|
    decreases |data| - st.pos
    ensures r.Ok? ==> st.pos <= r.value.pos <= |data| && st.buf <= r.value.buf
    ensures r.Ok? && r.value.pos == st.pos ==> r.value.buf == st.buf
    ensures r.Ok? ==> need <= |r.value.buf| || r.value.pos == |data|
    ensures r.Ok? ==> Available(data, r.value) <= Available(data, st)
  {
    if need <= |st.buf| then Ok(st)
    else
      match FrameStep(data, st.pos, false)
      case End => Ok(st)
      case Failed(e) => Err(e)
      case Chunk(c, next) => Refill(data, State(next, st.buf + c), need)
  }

  /** What one pass of the reassembly loop does. */
  datatype Effect = Continue(state: State) | Emit(rec: seq<byte>, state: State) | Stop | Fail(error: Error)

  /** One pass of the reassembly loop, from the top. */
  function Pass(data: seq<byte>, st: State): (r: Effect)
    requires st.pos <= |data|
    ensures (r.Continue? || r.Emit?) ==> Advances(data, st, r.state)
    ensures r.Continue? ==> Available(data, r.state) + 4 <= Available(data, st)
    ensures r.Emit? ==> Available(data, r.state) + BODY_OFFSET <= Available(data, st)
  {
    if LeadingZeroWord(st.buf) then Continue(State(st.pos, st.buf[4..]))
    else Fetch(data, st)
  }

  /** The rest of a pass once no zero word leads the buffer: give the buffer
      one chance to grow to a whole control word, then decode. */
  function Fetch(data: seq<byte>, st: State): (r: Effect)
    requires st.pos <= |data|
    ensures (r.Continue? || r.Emit?) ==> Advances(data, st, r.state)
    ensures r.Continue? ==> Available(data, r.state) + CONTROL_BYTES <= Available(data, st)
    ensures r.Emit? ==> Available(data, r.state) + BODY_OFFSET <= Available(data, st)
  {
    if |st.buf| < CONTROL_BYTES then
      match FrameStep(data, st.pos, false)
      case End => Stop
      case Failed(e) => Fail(e)
      case Chunk(c, next) => Decode(data, State(next, st.buf + c))
    else Decode(data, st)
  }

  /** The rest of a pass once the buffer has had its one chance to grow:
      read the control word, refill to the record's size, dispatch. */
  function Decode(data: seq<byte>, st: State): (r: Effect)
    requires st.pos <= |data|
    ensures (r.Continue? || r.Emit?) ==> Advances(data, st, r.state)
    ensures r.Continue? ==> Available(data, r.state) + CONTROL_BYTES <= Available(data, st)
    ensures r.Emit? ==> Available(data, r.state) + BODY_OFFSET <= Available(data, st)
  {
    match DecodeControl(Slice(st.buf, 0, CONTROL_BYTES))
    case Err(e) => Fail(e)
    case Ok(cw) =>
      match Refill(data, st, RecordBytes(cw))
      case Err(e) => Fail(e)
      case Ok(full) => Dispatch(cw, full)
  }

  /** Dispatch on the record type, with the buffer already refilled. */
  function Dispatch(cw: Control, st: State): (r: Effect)
    requires |st.buf| >= CONTROL_BYTES
    ensures (r.Continue? || r.Emit?) ==>
      r.state.pos == st.pos && |r.state.buf| <= |st.buf| - CONTROL_BYTES
    ensures r.Emit? ==> |r.state.buf| <= |st.buf| - BODY_OFFSET
  {
    if cw.recordType in {2, 3, 4} then NormalRecord(cw, st)
    else Discard(cw, st)
  }

  /** A record that is not emitted: padding and start-of-run records are
      dropped, any other type is an error. */
  function Discard(cw: Control, st: State): (r: Effect)
    requires |st.buf| >= CONTROL_BYTES
    ensures r.Continue? ==> r.state.pos == st.pos && |r.state.buf| <= |st.buf| - CONTROL_BYTES
    ensures !r.Emit?
  {
    if cw.recordType in {5, 6} then
      if cw.size >= 1 then Continue(State(st.pos, Drop(st.buf, CONTROL_BYTES + (cw.size - 1) * 4)))
      else Fail(EmptyPaddingRecord)
    else if cw.recordType == 1 then Continue(State(st.pos, Drop(st.buf, RecordBytes(cw))))
    else Fail(UnknownRecordType(cw.recordType))
  }

  /** A normal record: read the pilot, cut out the body, drop the
      bookkeeping words the pilot declares. */
  function NormalRecord(cw: Control, st: State): (r: Effect)
    requires |st.buf| >= CONTROL_BYTES
    ensures r.Emit? ==> r.state.pos == st.pos && |r.state.buf| <= |st.buf| - BODY_OFFSET
    ensures !r.Continue?
  {
    match DecodePilot(Slice(st.buf, CONTROL_BYTES, BODY_OFFSET))
    case Err(e) => Fail(e)
    case Ok(pilot) => CutRecord(cw, pilot, st)
  }

  /** The body of a normal record with its pilot read: the record's words
      past control word and pilot, less the bookkeeping words the pilot
      declares. */
  function CutRecord(cw: Control, pilot: Pilot, st: State): (r: Effect)
    requires |st.buf| >= BODY_OFFSET
    ensures r.Emit? ==> r.state.pos == st.pos && |r.state.buf| <= |st.buf| - BODY_OFFSET
    ensures r.Emit? || r.Fail?
  {
    var size := (cw.size - 10) * 4;
    var rec := Slice(st.buf, BODY_OFFSET, BODY_OFFSET + size);
    if size != |rec| then Fail(LogicalRecordTruncated(size, |rec|))
    else Emit(Drop(rec, SkipWords(pilot) * 4), State(st.pos, Drop(st.buf, BODY_OFFSET + size)))
  }

  /** What the reassembler hands back for one pull. */
  datatype Outcome = Record(rec: seq<byte>) | Exhausted | Raised(error: Error)

  datatype Assembled = Assembled(outcome: Outcome, state: State)

  /** Passes of the loop run until one emits a record, ends or fails. */
  function Assemble(data: seq<byte>, st: State): (r: Assembled)
    requires st.pos <= |data|
    decreases |data| - st.pos, |st.buf|
    ensures r.state.pos <= |data|
    ensures r.outcome.Record? ==> Advances(data, st, r.state)
    ensures r.outcome.Record? ==> Available(data, r.state) + BODY_OFFSET <= Available(data, st)
  {
    match Pass(data, st)
    case Continue(next) => Assemble(data, next)
    case Emit(rec, next) => Assembled(Record(rec), next)
    case Stop => Assembled(Exhausted, st)
    case Fail(e) => Assembled(Raised(e), st)
  }

  /** Everything the reassembler yields, pulled to the end: the logical
      records, then the error that stopped it, if any. */
  datatype Records = Records(recs: seq<seq<byte>>, error: Option<Error>)

  function Run(data: seq<byte>, st: State): (r: Records)
    requires st.pos <= |data|
    decreases |data| - st.pos, |st.buf|
    // 48 is BODY_OFFSET written out: a named constant times a length is a
    // nonlinear term for the solver.
    ensures 48 * |r.recs| <= Available(data, st)
  {
    var a := Assemble(data, st);
    match a.outcome
    case Record(rec) =>
      var rest := Run(data, a.state);
      assert Available(data, a.state) + 48 <= Available(data, st);
      assert |[rec] + rest.recs| == |rest.recs| + 1;
      Records([rec] + rest.recs, rest.error)
    case Exhausted => Records([], None)
    case Raised(e) => Records([], Some(e))
  }

  /** The logical records of a whole stream. */
  function LogicalRecords(data: seq<byte>): (r: Records)
    ensures 48 * |r.recs| <= |data|
  {
    Run(data, State(0, []))
  }

  // ------------------------------------------------------------ one-pass facts

  /** The control word at the head of a buffer that holds at least one. */
  function HeadControl(buf: seq<byte>): Control
    requires |buf| >= CONTROL_BYTES
  {
    DecodeControl(buf[..CONTROL_BYTES]).value
  }

  /** A buffer with a complete logical record at its head, not hidden behind
      a zero word: the pass needs no more input. */
  predicate WholeRecordAtHead(buf: seq<byte>) {
    |buf| >= CONTROL_BYTES && !LeadingZeroWord(buf) && |buf| >= RecordBytes(HeadControl(buf))
  }

  /** A leading zero word is dropped and nothing is emitted. */
  lemma {:induction false} ZeroWordDropped(data: seq<byte>, pos: nat, buf: seq<byte>)
    requires pos <= |data|
    ensures Pass(data, State(pos, ZERO_WORD + buf)) == Continue(State(pos, buf))
  {
    assert (ZERO_WORD + buf)[..4] == ZERO_WORD;
    assert (ZERO_WORD + buf)[4..] == buf;
  }

  /** Padding absorption: a leading zero word changes nothing about what
      the reassembler yields, now or later. */
  lemma {:induction false} ZeroWordAbsorbed(data: seq<byte>, pos: nat, buf: seq<byte>)
    requires pos <= |data|
    ensures Assemble(data, State(pos, ZERO_WORD + buf)) == Assemble(data, State(pos, buf))
    ensures Run(data, State(pos, ZERO_WORD + buf)) == Run(data, State(pos, buf))
  {
    ZeroWordDropped(data, pos, buf);
  }

  /** The head control word's size is 0 exactly when a zero word leads the
      buffer: the size is the control word's first word. */
  lemma {:induction false} ZeroSizeWord(buf: seq<byte>)
    requires |buf| >= CONTROL_BYTES
    ensures LeadingZeroWord(buf) <==> HeadControl(buf).size == 0
  {
    var s := buf[..CONTROL_BYTES];
    WordsAt(s, 2, 0);
    assert HeadControl(buf).size == WordAt(s, 0);
    assert s[..4] == buf[..4] == [buf[0], buf[1], buf[2], buf[3]];
  }

  /** A buffered padding record (type 5 or 6) has a size n of at least 1, and
      it drops exactly 8 + 4(n - 1) bytes and emits nothing. */
  lemma {:induction false} PaddingRecordDropped(data: seq<byte>, st: State)
    requires st.pos <= |data| && WholeRecordAtHead(st.buf)
    requires HeadControl(st.buf).recordType in {5, 6}
    ensures HeadControl(st.buf).size >= 1
    ensures Pass(data, st)
         == Continue(State(st.pos, st.buf[CONTROL_BYTES + (HeadControl(st.buf).size - 1) * 4..]))
  {
    ZeroSizeWord(st.buf);
    assert Slice(st.buf, 0, CONTROL_BYTES) == st.buf[..CONTROL_BYTES];
  }

  /** A buffered control word of size 0 never reaches the dispatch on its
      type: its size word is dropped as a one-word padding block, and the
      type word behind it is read as the next record's size. */
  lemma {:induction false} ZeroSizeControlAbsorbed(data: seq<byte>, st: State)
    requires st.pos <= |data| && |st.buf| >= CONTROL_BYTES && HeadControl(st.buf).size == 0
    ensures Pass(data, st) == Continue(State(st.pos, st.buf[4..]))
  {
    ZeroSizeWord(st.buf);
  }

  /** A padding record of size 0 is an error only when its control word
      arrives with the one physical record pulled onto fewer than four
      buffered bytes, so that no zero word was seen at the head. */
  lemma {:induction false} EmptyPaddingRecordFails(data: seq<byte>, st: State)
    requires st.pos <= |data| && |st.buf| < 4
    requires var s := FrameStep(data, st.pos, false);
      s.Chunk? && |st.buf + s.chunk| >= CONTROL_BYTES &&
      LeadingZeroWord(st.buf + s.chunk) && HeadControl(st.buf + s.chunk).recordType in {5, 6}
    ensures Pass(data, st) == Fail(EmptyPaddingRecord)
  {
    var s := FrameStep(data, st.pos, false);
    var b := st.buf + s.chunk;
    ZeroSizeWord(b);
    assert Slice(b, 0, CONTROL_BYTES) == b[..CONTROL_BYTES];
  }

  /** A start-of-run record of size n drops exactly 8 + 4n bytes and emits
      nothing. */
  lemma {:induction false} StartOfRunDropped(data: seq<byte>, st: State)
    requires st.pos <= |data| && WholeRecordAtHead(st.buf)
    requires HeadControl(st.buf).recordType == 1
    ensures Pass(data, st) == Continue(State(st.pos, st.buf[RecordBytes(HeadControl(st.buf))..]))
  {
    assert Slice(st.buf, 0, CONTROL_BYTES) == st.buf[..CONTROL_BYTES];
  }

  /** A record type outside 1..6 always fails; when the whole record is
      buffered the error is the unknown type itself. */
  lemma {:induction false} UnknownTypeFails(data: seq<byte>, st: State)
    requires st.pos <= |data| && |st.buf| >= CONTROL_BYTES && !LeadingZeroWord(st.buf)
    requires !(1 <= HeadControl(st.buf).recordType <= 6)
    ensures Pass(data, st).Fail?
    ensures |st.buf| >= RecordBytes(HeadControl(st.buf)) ==>
      Pass(data, st) == Fail(UnknownRecordType(HeadControl(st.buf).recordType))
  {
    assert Slice(st.buf, 0, CONTROL_BYTES) == st.buf[..CONTROL_BYTES];
  }

  /** A whole normal record is emitted as its body, bytes 48 up to its end,
      less the bookkeeping words its pilot declares (an empty record when
      they reach past the end); the buffer then loses exactly the record's
      bytes and nothing else changes. */
  lemma {:induction false} NormalRecordEmitted(data: seq<byte>, st: State)
    requires st.pos <= |data| && WholeRecordAtHead(st.buf)
    requires HeadControl(st.buf).recordType in {2, 3, 4} && HeadControl(st.buf).size >= 10
    ensures var cw := HeadControl(st.buf);
      var pilot := DecodePilot(st.buf[CONTROL_BYTES..BODY_OFFSET]).value;
      var body := st.buf[BODY_OFFSET..RecordBytes(cw)];
      Pass(data, st) == Emit(Drop(body, 4 * SkipWords(pilot)), State(st.pos, st.buf[RecordBytes(cw)..]))
  {
    var cw := HeadControl(st.buf);
    assert Slice(st.buf, 0, CONTROL_BYTES) == st.buf[..CONTROL_BYTES];
    assert Slice(st.buf, CONTROL_BYTES, BODY_OFFSET) == st.buf[CONTROL_BYTES..BODY_OFFSET];
    assert BODY_OFFSET + (cw.size - 10) * 4 == RecordBytes(cw);
  }

  /** A normal record whose control word declares fewer than 10 words has
      no room for its pilot and always fails. */
  lemma {:induction false} UndersizedNormalRecordFails(data: seq<byte>, st: State)
    requires st.pos <= |data| && |st.buf| >= CONTROL_BYTES && !LeadingZeroWord(st.buf)
    requires HeadControl(st.buf).recordType in {2, 3, 4} && HeadControl(st.buf).size < 10
    ensures Pass(data, st).Fail?
  {
    assert Slice(st.buf, 0, CONTROL_BYTES) == st.buf[..CONTROL_BYTES];
  }

  /** When the stream runs dry before a normal record is complete, the pass
      fails rather than ending cleanly. */
  lemma {:induction false} TruncatedNormalRecordFails(data: seq<byte>, st: State)
    requires st.pos <= |data| && |st.buf| >= CONTROL_BYTES && !LeadingZeroWord(st.buf)
    requires HeadControl(st.buf).recordType in {2, 3, 4}
    requires var r := Refill(data, st, RecordBytes(HeadControl(st.buf)));
      r.Ok? && |r.value.buf| < RecordBytes(HeadControl(st.buf))
    ensures Pass(data, st).Fail?
    ensures Refill(data, st, RecordBytes(HeadControl(st.buf))).value.pos == |data|
  {
    assert Slice(st.buf, 0, CONTROL_BYTES) == st.buf[..CONTROL_BYTES];
  }

  /** Only one physical record is pulled before the control word is read:
      if the buffer is still short after it, the pass fails. */
  lemma {:induction false} OneChunkBeforeControl(data: seq<byte>, st: State)
    requires st.pos <= |data| && |st.buf| < CONTROL_BYTES && !LeadingZeroWord(st.buf)
    requires var s := FrameStep(data, st.pos, false);
      s.Chunk? && |st.buf + s.chunk| < CONTROL_BYTES
    ensures Pass(data, st)
         == Fail(BufferTooSmall(CONTROL_BYTES, |st.buf + FrameStep(data, st.pos, false).chunk|))
  {
    var s := FrameStep(data, st.pos, false);
    assert Slice(st.buf + s.chunk, 0, CONTROL_BYTES) == st.buf + s.chunk;
  }

  // ------------------------------------------------------------ round trip

  /** A normal logical record as written: its control word, its pilot and
      its body. */
  datatype LogicalRecord = LogicalRecord(control: Control, pilot: Pilot, body: seq<byte>)

  /** A normal record whose control word counts exactly its pilot and body. */
  predicate WellFormed(r: LogicalRecord) {
    ControlFits(r.control) && PilotFits(r.pilot) &&
    r.control.recordType in {2, 3, 4} && 10 <= r.control.size &&
    |r.body| == 4 * (r.control.size - 10)
  }

  function EncodeRecord(r: LogicalRecord): (s: seq<byte>)
    requires WellFormed(r)
    ensures |s| == RecordBytes(r.control)
  {
    EncodeControl(r.control) + EncodePilot(r.pilot) + r.body
  }

  function EncodeRecords(rs: seq<LogicalRecord>): seq<byte>
    requires forall i :: 0 <= i < |rs| ==> WellFormed(rs[i])
  {
    if |rs| == 0 then [] else EncodeRecord(rs[0]) + EncodeRecords(rs[1..])
  }

  /** What the reader hands back for a normal record: its body without the
      bookkeeping words its pilot declares. */
  function Trimmed(r: LogicalRecord): seq<byte> {
    Drop(r.body, 4 * SkipWords(r.pilot))
  }

  function AllTrimmed(rs: seq<LogicalRecord>): (ts: seq<seq<byte>>)
    ensures |ts| == |rs| && forall i :: 0 <= i < |rs| ==> ts[i] == Trimmed(rs[i])
  {
    if |rs| == 0 then [] else [Trimmed(rs[0])] + AllTrimmed(rs[1..])
  }

  /** A well-formed normal record at the head of the buffer is emitted
      without reading further, and exactly the bytes behind it remain. */
  lemma {:induction false} EmitHead(data: seq<byte>, pos: nat, r: LogicalRecord, rest: seq<byte>)
    requires pos <= |data| && WellFormed(r)
    ensures var st := State(pos, EncodeRecord(r) + rest);
      Pass(data, st) == Decode(data, st) == Emit(Trimmed(r), State(pos, rest))
  {
    var buf := EncodeRecord(r) + rest;
    var n := RecordBytes(r.control);
    assert buf[..CONTROL_BYTES] == EncodeControl(r.control);
    assert buf[CONTROL_BYTES..BODY_OFFSET] == EncodePilot(r.pilot);
    assert buf[BODY_OFFSET..n] == r.body;
    assert buf[n..] == rest;
    ControlRoundTrip(r.control);
    PilotRoundTrip(r.pilot);
    ZeroSizeWord(buf);
    NormalRecordEmitted(data, State(pos, buf));
  }

  /** Whole normal records already buffered are yielded one by one, in
      order, before anything more is read; the reader then carries on with
      whatever follows them. */
  lemma {:induction false} RunBuffered(data: seq<byte>, pos: nat, rs: seq<LogicalRecord>, tail: seq<byte>)
    requires pos <= |data| && forall i :: 0 <= i < |rs| ==> WellFormed(rs[i])
    ensures var rest := Run(data, State(pos, tail));
      Run(data, State(pos, EncodeRecords(rs) + tail)) == Records(AllTrimmed(rs) + rest.recs, rest.error)
    decreases |rs|
  {
    if |rs| == 0 {
      assert EncodeRecords(rs) + tail == tail;
    } else {
      var more := EncodeRecords(rs[1..]) + tail;
      AppendAssoc(EncodeRecord(rs[0]), EncodeRecords(rs[1..]), tail);
      EmitHead(data, pos, rs[0], more);
      RunEmit(data, State(pos, EncodeRecords(rs) + tail), Trimmed(rs[0]), State(pos, more));
      RunBuffered(data, pos, rs[1..], tail);
      ConsAppend(Trimmed(rs[0]), AllTrimmed(rs[1..]), Run(data, State(pos, tail)).recs);
    }
  }

  /** A physical record whose payload is a non-empty run of whole normal
      logical records. */
  predicate Carries(p: PhysicalRecord, rs: seq<LogicalRecord>) {
    |rs| > 0 && (forall i :: 0 <= i < |rs| ==> WellFormed(rs[i])) && p.payload == EncodeRecords(rs)
  }

  function GroupsTrimmed(groups: seq<seq<LogicalRecord>>): seq<seq<byte>> {
    if |groups| == 0 then [] else AllTrimmed(groups[0]) + GroupsTrimmed(groups[1..])
  }

  /** At the end of the stream with nothing buffered the reassembler yields
      nothing and ends cleanly. */
  lemma {:induction false} RunAtEnd(data: seq<byte>)
    ensures Run(data, State(|data|, [])) == Records([], None)
  {
    assert Pass(data, State(|data|, [])) == Stop;
  }

  /** A pass that emits a record starts what the reassembler yields. */
  lemma {:induction false} RunEmit(data: seq<byte>, st: State, rec: seq<byte>, next: State)
    requires st.pos <= |data| && Pass(data, st) == Emit(rec, next)
    ensures next.pos <= |data|
    ensures Run(data, st) == Records([rec] + Run(data, next).recs, Run(data, next).error)
  {
  }

  /** From an empty buffer, a pass pulls one physical record and, when it
      starts with a well-formed normal record, emits that record at once. */
  lemma {:induction false} FirstPull(data: seq<byte>, pos: nat, r: LogicalRecord, rest: seq<byte>, next: nat)
    requires pos <= |data| && WellFormed(r)
    requires FrameStep(data, pos, false) == Chunk(EncodeRecord(r) + rest, next)
    ensures next <= |data|
    ensures Pass(data, State(pos, [])) == Emit(Trimmed(r), State(next, rest))
  {
    var chunk := EncodeRecord(r) + rest;
    assert [] + chunk == chunk;
    EmitHead(data, next, r, rest);
  }

  /** From an empty buffer, a physical record carrying whole normal records
      yields them all, in order, before the next physical record is read. */
  lemma {:induction false} RunGroup(data: seq<byte>, pos: nat, rs: seq<LogicalRecord>, next: nat, later: seq<seq<byte>>)
    requires pos <= |data| && |rs| > 0 && forall i :: 0 <= i < |rs| ==> WellFormed(rs[i])
    requires FrameStep(data, pos, false) == Chunk(EncodeRecords(rs), next)
    requires next <= |data| && Run(data, State(next, [])) == Records(later, None)
    ensures Run(data, State(pos, [])) == Records(AllTrimmed(rs) + later, None)
  {
    var more := EncodeRecords(rs[1..]);
    FirstPull(data, pos, rs[0], more, next);
    RunEmit(data, State(pos, []), Trimmed(rs[0]), State(next, more));
    AppendEmpty(more);
    RunBuffered(data, next, rs[1..], []);
    ConsAppend(Trimmed(rs[0]), AllTrimmed(rs[1..]), later);
  }

  /** The framer yields the first physical record's run of logical records
      and stops where the rest of the records, still carrying theirs, begin. */
  lemma {:induction false} CarrierStep(data: seq<byte>, pos: nat, recs: seq<PhysicalRecord>, groups: seq<seq<LogicalRecord>>)
    requires |recs| > 0 && forall i :: 0 <= i < |recs| ==> WellFramed(recs[i])
    requires |groups| == |recs| && forall i :: 0 <= i < |recs| ==> Carries(recs[i], groups[i])
    requires pos <= |data| && data[pos..] == Frame(recs)
    ensures forall i :: 0 <= i < |recs| - 1 ==> WellFramed(recs[1..][i])
    ensures forall i :: 0 <= i < |recs| - 1 ==> Carries(recs[1..][i], groups[1..][i])
    ensures var next := pos + STEERING_BLOCK_BYTES + |recs[0].payload|;
      next <= |data| && data[next..] == Frame(recs[1..]) &&
      |groups[0]| > 0 && (forall i :: 0 <= i < |groups[0]| ==> WellFormed(groups[0][i])) &&
      FrameStep(data, pos, false) == Chunk(EncodeRecords(groups[0]), next)
  {
    StepOverFrame(data, pos, recs);
    assert Carries(recs[0], groups[0]);
  }

  /** Reassembly round trip: a stream of well-framed physical records, each
      carrying whole normal logical records, is read back as exactly those
      records' bodies less their bookkeeping words, in order, and ends
      cleanly. */
  lemma {:induction false} RunFrame(data: seq<byte>, pos: nat, recs: seq<PhysicalRecord>, groups: seq<seq<LogicalRecord>>)
    requires forall i :: 0 <= i < |recs| ==> WellFramed(recs[i])
    requires |groups| == |recs| && forall i :: 0 <= i < |recs| ==> Carries(recs[i], groups[i])
    requires pos <= |data| && data[pos..] == Frame(recs)
    ensures Run(data, State(pos, [])) == Records(GroupsTrimmed(groups), None)
    decreases |recs|
  {
    if |recs| == 0 {
      assert |data| == pos;
      RunAtEnd(data);
    } else {
      CarrierStep(data, pos, recs, groups);
      var next := pos + STEERING_BLOCK_BYTES + |recs[0].payload|;
      RunFrame(data, next, recs[1..], groups[1..]);
      RunGroup(data, pos, groups[0], next, GroupsTrimmed(groups[1..]));
    }
  }

  /** The round trip for a whole file. */
  lemma {:induction false} LogicalRecordsOfFrame(recs: seq<PhysicalRecord>, groups: seq<seq<LogicalRecord>>)
    requires forall i :: 0 <= i < |recs| ==> WellFramed(recs[i])
    requires |groups| == |recs| && forall i :: 0 <= i < |recs| ==> Carries(recs[i], groups[i])
    ensures LogicalRecords(Frame(recs)) == Records(GroupsTrimmed(groups), None)
  {
    assert Frame(recs)[0..] == Frame(recs);
    RunFrame(Frame(recs), 0, recs, groups);
  }

  // ------------------------------------------------------------ the reassembler object

  /** The reassembler as a stateful reader: it owns the framer it pulls
      from and the buffer of bytes not yet consumed. */
  class Assembler {
    const framer: Framer
    var buf: seq<byte>
    var finished: bool

    /** The buffer is always a suffix of everything pulled from the framer
        so far. */
    ghost predicate Inv()
      reads this, framer
    {
      framer.Valid() && IsSuffix(buf, Concat(framer.yielded))
    }

    /** Besides, while the reassembler is live, a finished framer has read
        the whole stream. */
    ghost predicate Valid()
      reads this, framer
    {
      Inv() && (!finished && framer.finished ==> framer.pos == |framer.data|)
    }

    /** The state the functional model speaks of. */
    function Current(): State
      reads this, framer
    {
      State(framer.pos, buf)
    }

    constructor (data: seq<byte>)
      ensures Valid() && fresh(framer)
      ensures framer.data == data && framer.pos == 0 && !framer.started
      ensures framer.yielded == [] && !framer.finished
      ensures buf == [] && !finished
    {
      framer := new Framer(data);
      buf := [];
      finished := false;
    }

    /** Pull the next logical record: run passes until one emits a record,
        the framer runs dry or something fails. */
    method Next() returns (r: Outcome)
      requires Valid()
      modifies this, framer
      ensures Valid()
      ensures old(finished) ==> r == Exhausted && finished
      ensures !old(finished) ==>
        var a := Assemble(framer.data, State(old(framer.pos), old(buf)));
        r == a.outcome && finished == !r.Record? &&
        (r.Record? ==> Current() == a.state)
    {
      if finished {
        return Exhausted;
      }
      ghost var data := framer.data;
      ghost var goal := Assemble(data, Current());
      while true
        invariant Valid() && !finished
        invariant Assemble(data, Current()) == goal
        decreases |data| - framer.pos, |buf|
      {
        var effect := Step();
        match effect
        case Continue(_) =>
        case Emit(rec, _) =>
          return Record(rec);
        case Stop =>
          finished := true;
          return Exhausted;
        case Fail(e) =>
          finished := true;
          return Raised(e);
      }
    }

    /** One pass of the loop: drop a zero word, or make sure a control word
        is buffered (pulling at most one physical record) and go on. */
    method Step() returns (r: Effect)
      requires Valid() && !finished
      modifies this`buf, framer
      ensures Inv()
      ensures r == Pass(framer.data, old(Current()))
      ensures (r.Continue? || r.Emit?) ==> Valid() && Current() == r.state
    {
      if |buf| >= 4 && buf[..4] == ZERO_WORD {
        Consume(4);
        return Continue(Current());
      }
      r := FetchBuffered();
    }

    /** Make sure a control word is buffered, pulling at most one physical
        record, then decode. */
    method FetchBuffered() returns (r: Effect)
      requires Valid() && !finished
      modifies this`buf, framer
      ensures Inv()
      ensures r == Fetch(framer.data, old(Current()))
      ensures (r.Continue? || r.Emit?) ==> Valid() && Current() == r.state
    {
      if |buf| < CONTROL_BYTES {
        var pulled := Pull();
        if pulled.End? {
          return Stop;
        }
        if pulled.Failed? {
          return Fail(pulled.error);
        }
      }
      r := DecodeBuffered();
    }

    /** Pull one physical record and append its payload to the buffer. */
    method Pull() returns (s: Step)
      requires Valid() && !finished
      modifies this`buf, framer
      ensures Inv()
      ensures s == FrameStep(framer.data, old(framer.pos), false)
      ensures s.Chunk? ==> Valid() && Current() == State(s.next, old(buf) + s.chunk)
      ensures !s.Chunk? ==> buf == old(buf)
    {
      s := framer.Next(false);
      if s.Chunk? {
        Append(s.chunk);
      }
    }

    /** Read the control word, refill to the record's size and dispatch on
        its type. */
    method DecodeBuffered() returns (r: Effect)
      requires Valid() && !finished
      modifies this`buf, framer
      ensures Inv()
      ensures r == Decode(framer.data, old(Current()))
      ensures (r.Continue? || r.Emit?) ==> Valid() && Current() == r.state
    {
      var control := DecodeControl(Slice(buf, 0, CONTROL_BYTES));
      if control.Err? {
        return Fail(control.error);
      }
      var cw := control.value;
      var failure := RefillTo(RecordBytes(cw));
      if failure.Some? {
        return Fail(failure.value);
      }
      r := DispatchBuffered(cw);
    }

    /** Pull physical records until `need` bytes are buffered or the framer
        runs dry. */
    method RefillTo(need: int) returns (failure: Option<Error>)
      requires Valid() && !finished
      modifies this`buf, framer
      ensures Inv()
      ensures Refill(framer.data, old(Current()), need)
           == if failure.Some? then Err(failure.value) else Ok(Current())
      ensures failure.None? ==> Valid()
    {
      ghost var data := framer.data;
      ghost var start := Current();
      while |buf| < need
        invariant Valid() && !finished
        invariant start.pos <= framer.pos <= |data|
        invariant Refill(data, Current(), need) == Refill(data, start, need)
        decreases |data| - framer.pos
      {
        var pulled := framer.Next(false);
        if pulled.End? {
          break;
        }
        if pulled.Failed? {
          return Some(pulled.error);
        }
        Append(pulled.chunk);
      }
      return None;
    }

    /** Act on a record whose bytes are buffered as far as the stream allows. */
    method DispatchBuffered(cw: Control) returns (r: Effect)
      requires Valid() && !finished && |buf| >= CONTROL_BYTES
      modifies this`buf
      ensures Inv()
      ensures r == Dispatch(cw, old(Current()))
      ensures (r.Continue? || r.Emit?) ==> Valid() && Current() == r.state
    {
      if cw.recordType in {2, 3, 4} {
        r := EmitBuffered(cw);
      } else {
        r := DiscardBuffered(cw);
      }
    }

    /** Drop a padding or start-of-run record; refuse any other type. */
    method DiscardBuffered(cw: Control) returns (r: Effect)
      requires Valid() && !finished && |buf| >= CONTROL_BYTES
      modifies this`buf
      ensures Inv()
      ensures r == Discard(cw, old(Current()))
      ensures r.Continue? ==> Valid() && Current() == r.state
    {
      if cw.recordType in {5, 6} {
        if cw.size < 1 {
          return Fail(EmptyPaddingRecord);
        }
        Consume(CONTROL_BYTES + (cw.size - 1) * 4);
        return Continue(Current());
      } else if cw.recordType == 1 {
        Consume(RecordBytes(cw));
        return Continue(Current());
      } else {
        return Fail(UnknownRecordType(cw.recordType));
      }
    }

    /** Cut a normal record out of the buffer, past its pilot and the
        bookkeeping words the pilot declares. */
    method EmitBuffered(cw: Control) returns (r: Effect)
      requires Valid() && !finished && |buf| >= CONTROL_BYTES
      modifies this`buf
      ensures Inv()
      ensures r == NormalRecord(cw, old(Current()))
      ensures r.Emit? ==> Valid() && Current() == r.state
    {
      var pilot := DecodePilot(Slice(buf, CONTROL_BYTES, BODY_OFFSET));
      if pilot.Err? {
        return Fail(pilot.error);
      }
      r := CutBuffered(cw, pilot.value);
    }

    /** Cut the body of a normal record out of the buffer once its pilot is
        read. */
    method CutBuffered(cw: Control, pilot: Pilot) returns (r: Effect)
      requires Valid() && !finished && |buf| >= BODY_OFFSET
      modifies this`buf
      ensures Inv()
      ensures r == CutRecord(cw, pilot, old(Current()))
      ensures r.Emit? ==> Valid() && Current() == r.state
    {
      ghost var st := Current();
      var size := (cw.size - 10) * 4;
      var rec := Slice(buf, BODY_OFFSET, BODY_OFFSET + size);
      if size != |rec| {
        return Fail(LogicalRecordTruncated(size, |rec|));
      }
      Consume(BODY_OFFSET + size);
      assert Current() == State(st.pos, Drop(st.buf, BODY_OFFSET + size));
      return Emit(Drop(rec, SkipWords(pilot) * 4), Current());
    }

    /** Append a chunk just pulled from the framer to the buffer. */
    method Append(chunk: seq<byte>)
      requires framer.Valid()
      requires |framer.yielded| > 0 && framer.yielded[|framer.yielded| - 1] == chunk
      requires IsSuffix(buf, Concat(framer.yielded[..|framer.yielded| - 1]))
      modifies this`buf
      ensures buf == old(buf) + chunk
      ensures Inv()
    {
      ConcatSnoc(framer.yielded[..|framer.yielded| - 1], chunk);
      assert framer.yielded[..|framer.yielded| - 1] + [chunk] == framer.yielded;
      SuffixAppend(buf, Concat(framer.yielded[..|framer.yielded| - 1]), chunk);
      buf := buf + chunk;
    }

    /** Drop the first n bytes of the buffer, as `buf = buf[n:]` does. */
    method Consume(n: nat)
      requires Inv()
      modifies this`buf
      ensures buf == Drop(old(buf), n)
      ensures Inv()
    {
      SuffixTransitive(Drop(buf, n), buf, Concat(framer.yielded));
      buf := Drop(buf, n);
    }
  }
}
