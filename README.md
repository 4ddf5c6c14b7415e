# ZEBRA FZ reader — a verified model

`zebra.py` reads files in CERN's ZEBRA FZ exchange format. It works in
three stages, each a Python generator:

1. **Physical framing** (`_iter_prec`). The file is a run of physical
   records. Each record is a 32-byte steering block followed by
   `(size*(fast_blocks+1)-8)*4` payload bytes. The framer yields the payloads
   in order. The caller can ask it to trim the next payload to the restart
   offset `(skip-8)*4` recorded in its steering block, to resynchronise after
   corruption.
2. **Logical-record reassembly** (`_iter_lrec`). Payloads are appended to a
   byte buffer. Each logical record in the buffer starts with an 8-byte
   control word (size in words, type), and types are handled as follows:
   - **2, 3, 4 (normal):** emitted. The control word, the 40-byte pilot and
     the bookkeeping words the pilot declares are removed first.
   - **5, 6 (padding):** dropped.
   - **1 (start-of-run):** dropped.
   - **Any other type:** an error.

   A zero word at the head of the buffer is one-word padding and is
   dropped.
3. **Bank walking** (`_iter_banks`). A logical record is a run of banks. Each
   bank is laid out as:
   1. an I/O control word;
   2. a gap of `(size-12)` words;
   3. a 36-byte bank header;
   4. `4*data` payload bytes.

   The walk yields each header with its data.

The project models the five fixed-layout big-endian headers and the three
stages. The headers are `SteeringBlock`, `Control`, `Pilot`, `Bank` and
`IOControl`.

- **Modules:**
  - `Wire`: bytes, big-endian words and Python's slice semantics.
  - `Errors`: one error variant per exception the reader can raise, plus
    `BackwardSeek`, the corrected walk's refusal of a control word of size
    below 12 (see Findings).
  - `Headers`: decoders and encoders with their round trips.
  - `Physical`: the framer.
  - `Logical`: the reassembler.
  - `Banks`: the bank walk.
- **Pure decoders are functions.** Each decoder fails with `BufferTooSmall`
  exactly when the input is shorter than the layout. This is where ctypes'
  `from_buffer*` raises `ValueError`.
- **Each generator is a class whose `Next` method is one pull:**
  - `Physical.Framer`: the input bytes and a cursor.
  - `Logical.Assembler`: a framer and the byte buffer.
  - `Banks.BankReader`: a logical record and a cursor.
- **Each `Next` is proved equal to a step function.** The step functions
  are `FrameStep`, `Assemble` and `Step`, and the properties are proved
  about those functions as lemmas.
- **Whole-stream functions.** `Drain`, `Run` and `Walk` pull a stage to its
  end. The round-trip lemmas `DrainFrame`, `RunFrame` and `WalkLinks` state
  what they return on well-formed input.

Python raises where the model returns an error variant:

| Python | Model variant |
|---|---|
| `assert` at lines 77, 138, 156 | `PhysicalRecordTruncated`, `LogicalRecordTruncated`, `BankDataTruncated` |
| `IOError` at line 125 | `EmptyPaddingRecord` |
| `ValueError` at line 132 | `UnknownRecordType` |

The model follows the code as written in these cases:

- **Framing:**
  - A physical record whose declared payload size is 0 is yielded as an
    empty chunk.
  - The input is read as an in-memory stream, as `io.BytesIO` reads it. On
    such a stream a negative declared payload size makes `read` return the
    rest of the stream, and the length check at line 77 then fails
    (`PhysicalRecordTruncated`).
  - A restart offset past the payload gives an empty chunk.
  - A negative restart offset (`skip < 8`) takes the payload's last bytes,
    as Python's slice does.
- **Reassembly:**
  - When the framer runs dry during the refill loop (lines 108-115), only
    that loop stops and decoding carries on with a short buffer:
    - a normal record then fails;
    - a padding or start-of-run record drops what is there.
  - Only one physical record is pulled before the control word is read.
  - A pilot whose bookkeeping words reach past the body gives an empty
    record.
  - A padding record of size 0 raises `EmptyPaddingRecord` (line 125) only
    when its control word arrives in the one physical record pulled at
    line 100 onto fewer than 4 buffered bytes. Anywhere else its zero size
    word is taken for a one-word padding block (line 92), and its type word
    is then read as the size of the next control word.

## Model

| member | source | states |
|---|---|---|
| Headers.DecodeSteeringBlock | zebra.py:9-18 | decoding succeeds exactly when at least 32 bytes are given, otherwise fails with BufferTooSmall(32, n); every decoded field fits its bit width |
| Headers.FlagsReassemble | zebra.py:11-15 | the five bit fields of word 4 (1+1+1+5+24, most significant first) put back together give word 4 |
| Headers.FlagsSplit | zebra.py:11-15 | a word 4 assembled from fields of the right widths splits back into exactly those fields |
| Headers.SteeringBlockRoundTrip | zebra.py:9-18 | decoding an encoded steering block gives it back |
| Headers.SteeringBytesRoundTrip | zebra.py:9-18 | encoding a decoded steering block gives back the 32 bytes it was read from |
| Headers.DecodeControl | zebra.py:20-22 | succeeds exactly on 8 bytes or more, with fields that fit 32 bits; otherwise BufferTooSmall(8, n) |
| Headers.ControlRoundTrip | zebra.py:20-22 | decoding an encoded control word gives it back |
| Headers.ControlBytesRoundTrip | zebra.py:20-22 | encoding a decoded control word gives back its 8 bytes |
| Headers.DecodePilot | zebra.py:24-34 | succeeds exactly on 40 bytes or more; otherwise BufferTooSmall(40, n) |
| Headers.PilotRoundTrip | zebra.py:24-34 | decoding an encoded pilot gives it back, `check` included as a raw word |
| Headers.PilotBytesRoundTrip | zebra.py:24-34 | encoding a decoded pilot gives back the 40 bytes it was read from |
| Headers.SkipWords | zebra.py:140 | the pilot declares no bookkeeping words exactly when its header, segment, relocation and text sizes are all 0 |
| Headers.DecodeBank | zebra.py:36-45 | succeeds exactly on 36 bytes or more; the name is the 4 raw bytes at offset 16; otherwise BufferTooSmall(36, n) |
| Headers.BankRoundTrip | zebra.py:36-45 | decoding an encoded bank header gives it back |
| Headers.BankBytesRoundTrip | zebra.py:36-45 | encoding a decoded bank header gives back the 36 bytes it was read from, name bytes included |
| Headers.DecodeIOControl | zebra.py:47-49 | succeeds exactly on 4 bytes or more, with `char` (the high 16 bits of the big-endian word) and `size` (the low 16 bits) each fitting 16 bits; otherwise BufferTooSmall(4, n) |
| Headers.IOControlBitFields | zebra.py:47-49 | `char` is the big-endian word divided by 2^16 and `size` the word modulo 2^16, as the two 16-bit bit fields declare |
| Headers.IOControlBytesRoundTrip | zebra.py:47-49 | encoding a decoded I/O control word gives back the 4 bytes it was read from |
| Headers.IOControlRoundTrip | zebra.py:47-49 | decoding an encoded I/O control word gives it back |
| Wire.Drop | zebra.py:141 | `buf[n:]` under Python's rules: the suffix from n when n is in range, nothing when n is at or past the end, the last -n bytes (or all) when n is negative; always a suffix of the input |
| Wire.Slice | zebra.py:137-141 | Python slice semantics: in-range bounds take exactly those bytes, an end past the end clamps, a start at or past the end or an end at or before the start gives nothing, a negative start or end counts from the end, and a start before the beginning clamps to it |
| Physical.PayloadSize | zebra.py:75 | the declared payload is a whole number of words, negative exactly when size times (fast blocks + 1) is below the 8 words of the steering block |
| Physical.RestartOffset | zebra.py:79-82 | the restart offset is a whole number of words, negative exactly when `skip` is below 8 |
| Physical.Read | zebra.py:71-76 | a read returns the bytes at the position, in order: n of them when n is non-negative and that many remain, otherwise everything that remains |
| Physical.FrameStep | zebra.py:68-84 | the framer ends exactly at end of input; a chunk moves the cursor past at least the steering block and never past the end; fewer than 32 bytes left is BufferTooSmall(32, n) |
| Physical.ResyncOnlyTrims | zebra.py:79-84 | without resync the chunk is the whole payload, of exactly the declared size; with resync the same record is read, the cursor ends in the same place and the chunk is the payload from the restart offset on |
| Physical.ShortPayloadFails | zebra.py:75-77 | a declared payload that is negative or longer than what is left fails with PhysicalRecordTruncated |
| Physical.Framer.constructor | zebra.py:67 | a fresh framer is at the start of the input, not started, nothing yielded |
| Physical.Framer.Next | zebra.py:67-84 | one pull is exactly one FrameStep from the old cursor with the flag sent back; a resync request cannot accompany the first pull; after end or failure nothing more is yielded; the yielded chunks are recorded in order |
| Physical.Drain | zebra.py:68-84 | pulled to its end, the framer yields at most one chunk per 32 bytes of the stream, since each chunk costs a steering block |
| Physical.DrainFrame | zebra.py:68-84 | a stream of N well-framed physical records yields exactly their N payloads, in order, and ends cleanly |
| Physical.DrainCoversStream | zebra.py:68-77 | the framer ends cleanly only on a record boundary: the steering blocks and payloads read cover the rest of the stream exactly |
| Physical.DrainShortTail | zebra.py:68-71 | between 1 and 31 bytes left: the framer fails at once with BufferTooSmall(32, n) |
| Physical.TrailingBytesFail | zebra.py:68-71 | well-framed records followed by a partial steering block yield exactly their payloads, in order, and then fail with BufferTooSmall(32, n) |
| Logical.RecordBytes | zebra.py:108 | a logical record spans a whole number of words, at least its 8-byte control word, and exactly that when its size is 0 |
| Logical.Refill | zebra.py:108-115 | refilling only appends to the buffer and moves the cursor forward; it stops with at least `need` bytes buffered or at end of input; the buffer never gains more bytes than were read from the stream |
| Logical.Pass | zebra.py:91-144 | a pass that goes on or emits has read further into the stream or shrunk the buffer (the loop's progress measure); one that goes on uses up at least a word of what is buffered or left, one that emits at least the 48 bytes of control word and pilot |
| Logical.Fetch | zebra.py:97-144 | once no zero word leads the buffer, a pass that goes on or emits has still read further or shrunk the buffer, using up at least the control word, and at least control word and pilot when it emits |
| Logical.Decode | zebra.py:106-116 | once the control word is read and the buffer refilled, a pass that goes on or emits has read further or shrunk the buffer, using up at least the control word, and at least control word and pilot when it emits |
| Logical.Dispatch | zebra.py:117-132 | dispatching on the type never pulls input and consumes at least the control word |
| Logical.Discard | zebra.py:120-132 | a record that is not normal is never emitted; when dropped the cursor stays and the buffer loses at least the control word |
| Logical.NormalRecord | zebra.py:134-144 | a normal record never just continues; when emitted the buffer loses at least control word and pilot |
| Logical.Assemble | zebra.py:90-144 | passes run to an emitted record, the end or an error; the reassembler always terminates and an emitted record leaves it further along, with at least 48 fewer bytes buffered or left |
| Logical.Run | zebra.py:86-144 | pulled to its end, the reassembler yields at most one logical record per 48 bytes buffered or left in the stream |
| Logical.ZeroWordDropped | zebra.py:92-95 | a leading zero word is dropped and nothing is emitted |
| Logical.ZeroWordAbsorbed | zebra.py:92-95 | a leading zero word changes nothing about what the reassembler yields, for the next pull and for the whole rest of the stream |
| Logical.ZeroSizeWord | zebra.py:92 | the head control word's size is 0 exactly when a zero word leads the buffer |
| Logical.PaddingRecordDropped | zebra.py:120-123 | a buffered padding record (type 5 or 6) has size n >= 1, and it drops exactly 8 + 4(n-1) bytes and emits nothing |
| Logical.ZeroSizeControlAbsorbed | zebra.py:92-95 | a buffered control word of size 0 never reaches the type dispatch: its size word is dropped as one-word padding |
| Logical.EmptyPaddingRecordFails | zebra.py:97-125 | a size-0 padding control word that arrives with the one record pulled onto fewer than 4 buffered bytes fails with EmptyPaddingRecord |
| Logical.StartOfRunDropped | zebra.py:127-130 | a start-of-run record of size n drops exactly 8 + 4n bytes and emits nothing |
| Logical.UnknownTypeFails | zebra.py:131-132 | a type outside 1..6 always fails, with UnknownRecordType when the record is buffered whole |
| Logical.CutRecord | zebra.py:136-144 | with the pilot read, the record is either emitted or an error, never dropped; when emitted the cursor stays and the buffer loses at least control word and pilot |
| Logical.NormalRecordEmitted | zebra.py:134-144 | a whole normal record is emitted as bytes 48 to its end less the pilot's bookkeeping words (empty when they reach past the end), and the buffer loses exactly the record's bytes |
| Logical.UndersizedNormalRecordFails | zebra.py:136-138 | a normal record of fewer than 10 words always fails |
| Logical.TruncatedNormalRecordFails | zebra.py:108-138 | when input runs dry before a normal record is complete, the refill stopped at end of input and the pass fails rather than ending cleanly |
| Logical.EmitHead | zebra.py:134-144 | a well-formed normal record at the head of the buffer is emitted as its body less the bookkeeping words, without reading further, and exactly the bytes behind it remain |
| Logical.RunBuffered | zebra.py:91-144 | whole normal records already buffered are yielded one by one, in order, before anything more is read, and the reader then carries on with what follows them |
| Logical.RunAtEnd | zebra.py:97-102 | at the end of the stream with nothing buffered the reassembler yields nothing and ends cleanly |
| Logical.RunFrame | zebra.py:86-144 | a stream of well-framed physical records, each carrying whole normal logical records, yields exactly those records' bodies less their bookkeeping words, in order, and ends cleanly |
| Logical.LogicalRecords | zebra.py:86-144 | reading a whole file from its start yields at most one logical record per 48 bytes of the file |
| Logical.LogicalRecordsOfFrame | zebra.py:86-144 | the same round trip for a whole file read from its start |
| Logical.OneChunkBeforeControl | zebra.py:97-106 | only one physical record is pulled before the control word is decoded; a buffer still short fails with BufferTooSmall(8, n) |
| Logical.Assembler.constructor | zebra.py:88-90 | a fresh reassembler has an empty buffer over a fresh framer at the start of the input that has not been pulled and has yielded nothing, so the buffer starts as a suffix of no chunks |
| Logical.Assembler.Next | zebra.py:86-144 | one pull returns exactly what Assemble gives from the old cursor and buffer, and leaves the state Assemble gives; the buffer stays a suffix of all chunks pulled so far |
| Logical.Assembler.Step | zebra.py:91-106 | one pass of the outer loop does exactly what Pass says, buffer suffix kept |
| Logical.Assembler.FetchBuffered | zebra.py:97-106 | giving the buffer one chance to grow to a control word and decoding does exactly what Fetch says |
| Logical.Assembler.Pull | zebra.py:99-104 | one pull is exactly one FrameStep without resync; a chunk moves the cursor to the record's end and is appended to the buffer, otherwise the buffer is unchanged |
| Logical.Assembler.DecodeBuffered | zebra.py:106-116 | control word, refill and dispatch do exactly what Decode says |
| Logical.Assembler.RefillTo | zebra.py:108-115 | the refill loop does exactly what Refill says, including a framer failure inside it |
| Logical.Assembler.DispatchBuffered | zebra.py:117-144 | the dispatch on the type does exactly what Dispatch says |
| Logical.Assembler.DiscardBuffered | zebra.py:120-132 | dropping a padding or start-of-run record, or refusing another type, does exactly what Discard says |
| Logical.Assembler.EmitBuffered | zebra.py:134-144 | reading the pilot and cutting out a normal record does exactly what NormalRecord says, and an emitted record leaves a consistent reassembler |
| Logical.Assembler.CutBuffered | zebra.py:136-144 | cutting the body out of the buffer does exactly what CutRecord says, and an emitted record leaves a consistent reassembler |
| Logical.Assembler.Append | zebra.py:104 | the chunk just pulled is appended and the buffer stays a suffix of all chunks pulled |
| Logical.Assembler.Consume | zebra.py:94 | dropping the buffer's head keeps it a suffix of all chunks pulled |
| Banks.ReadAt | zebra.py:150-155 | a read from an in-memory file returns the bytes at the position, in order: n of them when that many remain, all that remain when fewer, none at or past the end |
| Banks.StepAsWritten | zebra.py:149-157 | the walk as written ends exactly at or past the end of the record; a yielded bank carries exactly 4*data data bytes |
| Banks.HeaderAt | zebra.py:151-153 | the bank header lies a whole number of words past the control word's end, right behind it exactly when the size is 12 |
| Banks.Step | zebra.py:149-157 | the corrected walk ends exactly at the end of the record; each bank moves the cursor forward by at least 40 bytes and carries exactly 4*data data bytes; 1 to 3 bytes left is BufferTooSmall(4, n) |
| Banks.BankAt | zebra.py:153-157 | after the gap the header and exactly 4*data data bytes are read, and the cursor lands right after them |
| Banks.BankAtOutcomes | zebra.py:153-157 | a yielded bank is the header decoded at the cursor with the bytes right behind it; a short header fails with BufferTooSmall(36, n) and data running past the end of the record with BankDataTruncated(4*data, n) |
| Banks.StepsAgree | zebra.py:150-152 | the corrected step and the step as written agree on every input except a control word of size below 12, which the corrected step refuses |
| Banks.BackwardSeekLoops | zebra.py:149-157 | on a concrete 44-byte record the walk as written returns to byte 40 and yields the same bank forever; the corrected step fails there with BackwardSeek(0) |
| Banks.BankReader.constructor | zebra.py:148 | a fresh reader is at the start of the record |
| Banks.BankReader.Next | zebra.py:146-157 | one pull is exactly one corrected Step from the old cursor; after end or failure nothing more is yielded |
| Banks.Walk | zebra.py:146-157 | pulled to its end, the walk yields at most one bank per 40 bytes of the record, since each costs a control word and a header |
| Banks.WalkItemsSized | zebra.py:149-157 | every bank the walk yields carries exactly 4*data data bytes |
| Banks.WalkAtEnd | zebra.py:149 | a walk started at the end of the record yields nothing and ends cleanly |
| Banks.WalkShortTail | zebra.py:149-150 | with 1 to 3 bytes left the walk yields nothing and fails with BufferTooSmall(4, n) |
| Banks.WalkLaid | zebra.py:149-157 | banks laid out one after another (control word, gap, header, data) are yielded as their headers and data, in order, and the walk then stops the way it stops where the last one ends |
| Banks.StepOverLink | zebra.py:150-157 | a well-formed bank at the cursor is yielded as its header and data, whatever surrounds it, and the cursor moves past it |
| Banks.WalkLinks | zebra.py:146-157 | a record made of M well-formed banks yields exactly their M headers and data, in order, and ends cleanly |
| Banks.TrailingBytesFail | zebra.py:149-150 | well-formed banks followed by 1 to 3 stray bytes yield every bank and then fail with BufferTooSmall(4, n) |
| Banks.StepFootprint | zebra.py:150-157 | each bank moves the cursor by exactly 4 + 4(size-12) + 36 + 4*data bytes |
| Banks.WalkCoversRecord | zebra.py:149-157 | when the walk succeeds, the footprints of the banks it yielded sum to the rest of the record exactly |

## Left out

- The command-line block at zebra.py:159-179 (argument parsing, opening the
  file, printing bank names) is input/output glue.
- `FTX` (zebra.py:5-7) is only referenced by code that is commented out.
- `Pilot.check` is a `c_float`. It is kept as a raw 32-bit word, since the
  reader never interprets it.
- The bank name is kept as its 4 raw bytes. ctypes' cut-off at the first NUL
  byte when the `c_char*4` field is read is not modelled.
- **File semantics.**
  - The input file is an in-memory byte sequence with a cursor.
  - The one-byte peek and rewind at zebra.py:68-69 becomes "at least one byte
    is left".
  - `io.BytesIO`'s `read` becomes `ReadAt`. Its relative `seek` becomes a
    target clamped at 0, written out in `StepAsWritten`.
- The Python generator protocol is replaced by explicit `Next` methods.
- Logical.Assembler.Next: Python yields a record and applies
  `buf = buf[48+size:]` only when the generator is resumed. The model applies
  it before returning the record, so the buffer is advanced even if the
  caller never pulls again.
- Physical.Framer.Next: requires that a resync request not accompany the
  first pull. Python raises `TypeError` for `send(True)` to a fresh
  generator; that raise is not modelled as an error value.
- Physical.Read: the file opened at zebra.py:166 is a buffered reader, not an
  in-memory stream. There a negative declared payload size (always -4 or
  less) makes `read` itself raise `ValueError` at line 76, before the length
  check at line 77. The model fails with `PhysicalRecordTruncated` instead.
  Both stop the framer.
- Python's exception classes are collapsed into the `Error` variants; the
  message texts are not modelled.
- The payload contents of banks are not interpreted.
- The reassembly round trip (`Logical.RunFrame`) covers logical records that
  each lie whole within one physical record. Records split across physical
  records are covered only one pass at a time (`Refill`,
  `TruncatedNormalRecordFails`).
- The quadratic cost of repeated `buf = buf[n:]` copying is not modelled.
- Banks.BankReader.Next, Banks.Step and the walk lemmas built on it (`Walk`,
  `WalkItemsSized`, `WalkLinks`, `WalkCoversRecord`,
  `Banks.TrailingBytesFail`): a control word of size below 12 fails with
  `BackwardSeek`. The code as written seeks backwards instead, clamped at
  the start of the record, and can loop forever. That behaviour is modelled
  separately as `Banks.StepAsWritten` (see Findings).

## Findings

| source | as written | input that shows it | evidently intended | confidence | as-written member | corrected member |
|---|---|---|---|---|---|---|
| zebra.py:152 | `bytes.seek((ioc.size-12)*4, 1)` seeks backwards for a control word of size below 12, and `BytesIO` clamps a target before the start to 0, so the walk can return to a position it has already left | the 44-byte record `Banks.LOOPING_RECORD`: bank at 0 (size 12, no data) ends at 40; control word of size 0 at 40 seeks to 0; the header there declares one data word, which ends at 40 again, so the bank is yielded forever | the gap is skipped forward only; a size below 12 is a corrupt control word and stops the walk with an error, so every bank advances the cursor by at least 40 bytes and the walk terminates | medium, not executed | Banks.BackwardSeekLoops | Banks.Step |
