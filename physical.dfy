/** Physical-record framing: the stream is a run of physical records, each a
    32-byte steering block followed by the payload that the block's size
    fields declare. The framer yields the payloads one at a time; on request
    it trims the next payload to the restart offset the steering block
    records, so that a reader that lost its place can pick up again. */
module Physical {
  import opened Wire
  import opened Errors
  import opened Headers

  /** Payload bytes a physical record declares after its steering block
      (page 121 of the ZEBRA guide). It is negative for a block whose
      size fields are too small. */
  function PayloadSize(sb: SteeringBlock): (n: int)
    ensures n % 4 == 0
    ensures n < 0 <==> sb.size * (sb.fastBlocks + 1) < STEERING_BLOCK_BYTES / 4
  {
    (sb.size * (sb.fastBlocks + 1) - 8) * 4
  }

  /** Offset, in bytes from the start of the payload, at which a new logical
      record may begin; negative when `skip` is below 8. */
  function RestartOffset(sb: SteeringBlock): (n: int)
    ensures n % 4 == 0
    ensures n < 0 <==> sb.skip < STEERING_BLOCK_BYTES / 4
  {
    (sb.skip - 8) * 4
  }

  /** What `read(n)` returns on an in-memory stream (as `io.BytesIO`)
      holding `data` positioned at `pos`: at most n bytes, and everything up
      to the end when n is negative. */
  function Read(data: seq<byte>, pos: nat, n: int): (r: seq<byte>)
    requires pos <= |data|
    ensures pos + |r| <= |data| && r == data[pos..pos + |r|]
    ensures |r| == if 0 <= n <= |data| - pos then n else |data| - pos
  {
    if n < 0 || |data| < pos + n then data[pos..] else data[pos..pos + n]
  }

  /** The outcome of one pull on the framer. `next` is the cursor after the
      record. */
  datatype Step = End | Chunk(chunk: seq<byte>, next: nat) | Failed(error: Error)

  /** One pass of the framing loop at cursor `pos`; `trim` says whether the
      caller asked to resynchronise on this record. */
  function FrameStep(data: seq<byte>, pos: nat, trim: bool): (r: Step)
    requires pos <= |data|
    ensures r.End? <==> pos == |data|
    ensures r.Chunk? ==> pos + STEERING_BLOCK_BYTES + |r.chunk| <= r.next <= |data|
    ensures 0 < |data| - pos < STEERING_BLOCK_BYTES ==>
      r == Failed(BufferTooSmall(STEERING_BLOCK_BYTES, |data| - pos))
  {
    if pos == |data| then End
    else
      var header := Read(data, pos, STEERING_BLOCK_BYTES);
      match DecodeSteeringBlock(header)
      case Err(e) => Failed(e)
      case Ok(sb) =>
        var size := PayloadSize(sb);
        var record := Read(data, pos + STEERING_BLOCK_BYTES, size);
        if |record| != size then Failed(PhysicalRecordTruncated(size, |record|))
        else Chunk(if trim then Drop(record, RestartOffset(sb)) else record,
                   pos + STEERING_BLOCK_BYTES + size)
  }

  /** Without a resync request a record is yielded whole: the chunk is exactly
      the bytes between the steering block and the cursor it leaves behind,
      and their number is the declared payload size. With a request the same
      record is read, the cursor ends in the same place, and the chunk is the
      payload from the restart offset on. Nothing else depends on the flag. */
  lemma {:induction false} ResyncOnlyTrims(data: seq<byte>, pos: nat)
    requires pos < |data|
    ensures var whole, trimmed := FrameStep(data, pos, false), FrameStep(data, pos, true);
      (whole.Chunk? <==> trimmed.Chunk?) &&
      (whole.Failed? ==> trimmed == whole) &&
      (whole.Chunk? ==>
        var sb := DecodeSteeringBlock(data[pos..pos + STEERING_BLOCK_BYTES]).value;
        whole.chunk == data[pos + STEERING_BLOCK_BYTES..whole.next] &&
        |whole.chunk| == PayloadSize(sb) &&
        trimmed.next == whole.next &&
        trimmed.chunk == Drop(whole.chunk, RestartOffset(sb)))
  {
  }

  /** A complete steering block whose payload is declared negative, or longer
      than what is left, fails. */
  lemma {:induction false} ShortPayloadFails(data: seq<byte>, pos: nat, trim: bool)
    requires pos + STEERING_BLOCK_BYTES <= |data|
    requires var sb := DecodeSteeringBlock(data[pos..pos + STEERING_BLOCK_BYTES]).value;
      PayloadSize(sb) < 0 || |data| < pos + STEERING_BLOCK_BYTES + PayloadSize(sb)
    ensures FrameStep(data, pos, trim).Failed?
    ensures FrameStep(data, pos, trim).error.PhysicalRecordTruncated?
  {
  }

  /** The framer as a stateful reader over an in-memory stream. `started`
      records that a first pull has been made; `finished` that the framer has
      run out of input or failed, after which it yields nothing more. */
  class Framer {
    const data: seq<byte>
    var pos: nat
    var started: bool
    var finished: bool
    /** The chunks yielded so far, in order. */
    ghost var yielded: seq<seq<byte>>

    ghost predicate Valid()
      reads this
    {
      pos <= |data|
    }

    constructor (data: seq<byte>)
      ensures Valid()
      ensures this.data == data && pos == 0
      ensures !started && !finished && yielded == []
    {
      this.data := data;
      pos := 0;
      started := false;
      finished := false;
      yielded := [];
    }

    /** Pull the next physical record. `resync` is the value the caller sends
        back in answer to the previous chunk; it cannot accompany the very
        first pull. */
    method Next(resync: bool) returns (r: Step)
      requires Valid()
      requires started || !resync
      modifies this
      ensures Valid() && started
      ensures old(finished) ==> r == End
      ensures !old(finished) ==> r == FrameStep(data, old(pos), resync)
      ensures finished == !r.Chunk?
      ensures r.Chunk? ==> pos == r.next && yielded == old(yielded) + [r.chunk]
      ensures !r.Chunk? ==> pos == old(pos) && yielded == old(yielded)
    {
      started := true;
      if finished || pos == |data| {
        finished := true;
        return End;
      }
      var header := Read(data, pos, STEERING_BLOCK_BYTES);
      var sb := DecodeSteeringBlock(header);
      if sb.Err? {
        finished := true;
        return Failed(sb.error);
      }
      var size := PayloadSize(sb.value);
      var record := Read(data, pos + STEERING_BLOCK_BYTES, size);
      if |record| != size {
        finished := true;
        return Failed(PhysicalRecordTruncated(size, |record|));
      }
      var chunk := if resync then Drop(record, RestartOffset(sb.value)) else record;
      pos := pos + STEERING_BLOCK_BYTES + size;
      yielded := yielded + [chunk];
      r := Chunk(chunk, pos);
    }
  }

  // ------------------------------------------------------------ whole streams

  /** Everything the framer yields when it is pulled to the end without any
      resync request: the chunks, then the error that stopped it, if any. */
  datatype Drained = Drained(chunks: seq<seq<byte>>, error: Option<Error>)

  function Drain(data: seq<byte>, pos: nat): (d: Drained)
    requires pos <= |data|
    decreases |data| - pos
    // 32 is STEERING_BLOCK_BYTES written out: a named constant times a
    // length is a nonlinear term for the solver.
    ensures 32 * |d.chunks| <= |data| - pos
  {
    match FrameStep(data, pos, false)
    case End => Drained([], None)
    case Failed(e) => Drained([], Some(e))
    case Chunk(c, next) =>
      var rest := Drain(data, next);
      Drained([c] + rest.chunks, rest.error)
  }

  /** A physical record as written: a steering block and its payload. */
  datatype PhysicalRecord = PhysicalRecord(header: SteeringBlock, payload: seq<byte>)

  predicate WellFramed(r: PhysicalRecord) {
    SteeringFits(r.header) && PayloadSize(r.header) == |r.payload|
  }

  function Frame(recs: seq<PhysicalRecord>): (s: seq<byte>)
    requires forall i :: 0 <= i < |recs| ==> WellFramed(recs[i])
  {
    if |recs| == 0 then []
    else
      assert WellFramed(recs[0]);
      EncodeSteeringBlock(recs[0].header) + recs[0].payload + Frame(recs[1..])
  }

  function Payloads(recs: seq<PhysicalRecord>): (ps: seq<seq<byte>>)
    ensures |ps| == |recs|
    ensures forall i :: 0 <= i < |recs| ==> ps[i] == recs[i].payload
  {
    if recs == [] then [] else [recs[0].payload] + Payloads(recs[1..])
  }

  /** A well-framed record at the cursor is yielded whole, and the cursor
      moves past it, whatever surrounds it. */
  lemma {:induction false} StepOverRecord(data: seq<byte>, pos: nat, r: PhysicalRecord)
    requires WellFramed(r)
    requires pos + STEERING_BLOCK_BYTES + |r.payload| <= |data|
    requires data[pos..pos + STEERING_BLOCK_BYTES] == EncodeSteeringBlock(r.header)
    requires data[pos + STEERING_BLOCK_BYTES..pos + STEERING_BLOCK_BYTES + |r.payload|] == r.payload
    ensures FrameStep(data, pos, false)
         == Chunk(r.payload, pos + STEERING_BLOCK_BYTES + |r.payload|)
  {
    SteeringBlockRoundTrip(r.header);
  }

  /** A run of well-framed records at the cursor begins with the steering
      block and the payload of its first record, and the rest of the run,
      with whatever follows it, starts where that record ends. */
  lemma {:induction false} SplitFirstRecord(data: seq<byte>, pos: nat, recs: seq<PhysicalRecord>, tail: seq<byte>)
    requires forall i :: 0 <= i < |recs| ==> WellFramed(recs[i])
    requires |recs| > 0
    requires pos <= |data| && data[pos..] == Frame(recs) + tail
    ensures WellFramed(recs[0])
    ensures pos + STEERING_BLOCK_BYTES + |recs[0].payload| <= |data|
    ensures data[pos..pos + STEERING_BLOCK_BYTES] == EncodeSteeringBlock(recs[0].header)
    ensures data[pos + STEERING_BLOCK_BYTES..pos + STEERING_BLOCK_BYTES + |recs[0].payload|] == recs[0].payload
    ensures data[pos + STEERING_BLOCK_BYTES + |recs[0].payload|..] == Frame(recs[1..]) + tail
  {
    var r := recs[0];
    assert WellFramed(r);
    var head := EncodeSteeringBlock(r.header);
    var rest := Frame(recs[1..]);
    AppendAssoc(head + r.payload, rest, tail);
    AppendAssoc(head, r.payload, rest + tail);
    SplitSuffix(data, pos, head, r.payload + (rest + tail));
    SplitSuffix(data, pos + |head|, r.payload, rest + tail);
  }

  /** The first of a run of well-framed records at the cursor is yielded, and
      the rest of the run, with whatever follows it, starts where it ends. */
  lemma {:induction false} StepOverFirst(data: seq<byte>, pos: nat, recs: seq<PhysicalRecord>, tail: seq<byte>)
    requires forall i :: 0 <= i < |recs| ==> WellFramed(recs[i])
    requires |recs| > 0
    requires pos <= |data| && data[pos..] == Frame(recs) + tail
    ensures var next := pos + STEERING_BLOCK_BYTES + |recs[0].payload|;
      next <= |data| && data[next..] == Frame(recs[1..]) + tail &&
      FrameStep(data, pos, false) == Chunk(recs[0].payload, next)
  {
    SplitFirstRecord(data, pos, recs, tail);
    StepOverRecord(data, pos, recs[0]);
  }

  /** The same, for a stream that ends with its last record. */
  lemma {:induction false} StepOverFrame(data: seq<byte>, pos: nat, recs: seq<PhysicalRecord>)
    requires forall i :: 0 <= i < |recs| ==> WellFramed(recs[i])
    requires |recs| > 0
    requires pos <= |data| && data[pos..] == Frame(recs)
    ensures forall i :: 0 <= i < |recs| - 1 ==> WellFramed(recs[1..][i])
    ensures var next := pos + STEERING_BLOCK_BYTES + |recs[0].payload|;
      next <= |data| && data[next..] == Frame(recs[1..]) &&
      FrameStep(data, pos, false) == Chunk(recs[0].payload, next)
  {
    AppendEmpty(Frame(recs));
    StepOverFirst(data, pos, recs, []);
    AppendEmpty(Frame(recs[1..]));
  }

  /** Draining from a cursor where a record is yielded gives that chunk,
      then whatever draining from the record's end gives. */
  lemma {:induction false} DrainChunk(data: seq<byte>, pos: nat, chunk: seq<byte>, next: nat)
    requires pos <= |data| && FrameStep(data, pos, false) == Chunk(chunk, next)
    ensures next <= |data|
    ensures Drain(data, pos) == Drained([chunk] + Drain(data, next).chunks, Drain(data, next).error)
  {
  }

  /** Framing round trip: a stream of well-framed physical records, wherever
      it starts in the file, is read back as exactly their payloads, in order,
      and ends cleanly. */
  lemma {:induction false} DrainFrame(data: seq<byte>, pos: nat, recs: seq<PhysicalRecord>)
    requires forall i :: 0 <= i < |recs| ==> WellFramed(recs[i])
    requires pos <= |data| && data[pos..] == Frame(recs)
    ensures Drain(data, pos) == Drained(Payloads(recs), None)
    decreases |recs|
  {
    if |recs| == 0 {
      assert |data| == pos;
    } else {
      StepOverFrame(data, pos, recs);
      var next := pos + STEERING_BLOCK_BYTES + |recs[0].payload|;
      DrainFrame(data, next, recs[1..]);
      DrainChunk(data, pos, recs[0].payload, next);
      assert Payloads(recs) == [recs[0].payload] + Payloads(recs[1..]);
    }
  }

  /** Bytes a run of whole, untrimmed records occupies: a steering block
      plus the payload for each. */
  function Footprint(chunks: seq<seq<byte>>): nat {
    if chunks == [] then 0 else STEERING_BLOCK_BYTES + |chunks[0]| + Footprint(chunks[1..])
  }

  /** The framer ends cleanly only on a record boundary: when draining
      succeeds, the steering blocks and payloads it read cover the rest of
      the stream exactly. */
  lemma {:induction false} DrainCoversStream(data: seq<byte>, pos: nat)
    requires pos <= |data|
    ensures Drain(data, pos).error == None ==> pos + Footprint(Drain(data, pos).chunks) == |data|
    decreases |data| - pos
  {
    var step := FrameStep(data, pos, false);
    if step.Chunk? {
      DrainCoversStream(data, step.next);
      var rest := Drain(data, step.next);
      assert Drain(data, pos).chunks == [step.chunk] + rest.chunks;
      assert ([step.chunk] + rest.chunks)[1..] == rest.chunks;
    }
  }

  /** Fewer than 32 bytes left at the cursor: draining fails at once. */
  lemma {:induction false} DrainShortTail(data: seq<byte>, pos: nat)
    requires pos <= |data| && 0 < |data| - pos < STEERING_BLOCK_BYTES
    ensures Drain(data, pos) == Drained([], Some(BufferTooSmall(STEERING_BLOCK_BYTES, |data| - pos)))
  {
    var step := FrameStep(data, pos, false);
    assert step == Failed(BufferTooSmall(STEERING_BLOCK_BYTES, |data| - pos));
  }

  /** The framer ends cleanly only on a record boundary: a partial steering
      block after the last whole record makes draining fail instead, once
      every whole record's payload has been yielded. */
  lemma {:induction false} TrailingBytesFail(data: seq<byte>, pos: nat, recs: seq<PhysicalRecord>, tail: seq<byte>)
    requires forall i :: 0 <= i < |recs| ==> WellFramed(recs[i])
    requires 0 < |tail| < STEERING_BLOCK_BYTES
    requires pos <= |data| && data[pos..] == Frame(recs) + tail
    ensures Drain(data, pos) == Drained(Payloads(recs), Some(BufferTooSmall(STEERING_BLOCK_BYTES, |tail|)))
    decreases |recs|
  {
    if |recs| == 0 {
      assert |data| - pos == |tail|;
      DrainShortTail(data, pos);
    } else {
      assert Payloads(recs) == [recs[0].payload] + Payloads(recs[1..]);
      var next := pos + STEERING_BLOCK_BYTES + |recs[0].payload|;
      StepOverFirst(data, pos, recs, tail);
      TrailingBytesFail(data, next, recs[1..], tail);
      DrainChunk(data, pos, recs[0].payload, next);
    }
  }
}
