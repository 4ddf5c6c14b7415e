/** The five fixed-layout headers of the format, read as big-endian overlays
    on raw bytes, and the encoders that write them back out. Bit fields are
    packed most-significant bit first within their 32-bit word. */
module Headers {
  import opened Wire
  import opened Errors

  const STEERING_BLOCK_BYTES: nat := 32
  const CONTROL_BYTES: nat := 8
  const PILOT_BYTES: nat := 40
  const BANK_BYTES: nat := 36
  const IO_CONTROL_BYTES: nat := 4

  /** Header of every physical record. Word 4 holds the bit fields
      emergency stop (1), end of run (1), start of run (1), padding (5)
      and size (24), most significant first. */
  datatype SteeringBlock = SteeringBlock(
    stamp: seq<nat>,
    emergencyStop: nat,
    endOfRun: nat,
    startOfRun: nat,
    padding: nat,
    size: nat,
    count: nat,
    skip: nat,
    fastBlocks: nat)

  /** Header of every logical record: its size in words beyond the
      two-word control word itself, and its type. */
  datatype Control = Control(size: nat, recordType: nat)

  /** Follows the control word of a normal logical record. `check` is kept
      as the raw 32-bit word of the source's float. */
  datatype Pilot = Pilot(
    check: nat,
    version: nat,
    process: nat,
    reserve: nat,
    sizeText: nat,
    sizeSeg: nat,
    sizeRel: nat,
    sizeBank: nat,
    entryLink: nat,
    sizeHeader: nat)

  /** A bank header; `data` is the number of payload words that follow it,
      `name` the four raw bytes of its identifier. */
  datatype Bank = Bank(
    next: nat,
    up: nat,
    origin: nat,
    id: nat,
    name: seq<byte>,
    links: nat,
    slinks: nat,
    data: nat,
    status: nat)

  /** The word in front of each bank: a 16-bit `char` field (`charField`
      here) in the high half and a 16-bit `size` in the low half. */
  datatype IOControl = IOControl(charField: nat, size: nat)

  // ---------------------------------------------------------------- steering block

  /** Every field of a steering block fits its bit width. */
  predicate SteeringFits(sb: SteeringBlock) {
    |sb.stamp| == 4 && AllWords(sb.stamp) &&
    sb.emergencyStop < 2 && sb.endOfRun < 2 && sb.startOfRun < 2 &&
    sb.padding < 0x20 && sb.size < 0x100_0000 &&
    IsWord(sb.count) && IsWord(sb.skip) && IsWord(sb.fastBlocks)
  }

  /** Word 4 of a steering block, assembled from its five bit fields. */
  function FlagsWord(sb: SteeringBlock): nat {
    sb.emergencyStop * 0x8000_0000 + sb.endOfRun * 0x4000_0000 + sb.startOfRun * 0x2000_0000
    + sb.padding * 0x100_0000 + sb.size
  }

  function DecodeSteeringBlock(s: seq<byte>): (r: Result<SteeringBlock>)
    ensures r.Ok? <==> |s| >= STEERING_BLOCK_BYTES
    ensures r.Err? ==> r.error == BufferTooSmall(STEERING_BLOCK_BYTES, |s|)
    ensures r.Ok? ==> SteeringFits(r.value)
  {
    if |s| < STEERING_BLOCK_BYTES then Err(BufferTooSmall(STEERING_BLOCK_BYTES, |s|))
    else
      var ws := Words(s, 8);
      var flags := ws[4];
      Ok(SteeringBlock(
        ws[..4],
        flags / 0x8000_0000,
        (flags / 0x4000_0000) % 2,
        (flags / 0x2000_0000) % 2,
        (flags / 0x100_0000) % 0x20,
        flags % 0x100_0000,
        ws[5], ws[6], ws[7]))
  }

  function EncodeSteeringBlock(sb: SteeringBlock): (s: seq<byte>)
    requires SteeringFits(sb)
    ensures |s| == STEERING_BLOCK_BYTES
  {
    Unwords(sb.stamp + [FlagsWord(sb), sb.count, sb.skip, sb.fastBlocks])
  }

  /** The top byte of word 4 is the sum of its four fields' weighted values. */
  lemma {:induction false} TopByteSplits(h: nat)
    requires h < 0x100
    ensures h == (h / 0x80) * 0x80 + ((h / 0x40) % 2) * 0x40 + ((h / 0x20) % 2) * 0x20 + h % 0x20
  {
  }

  /** Dividing word 4 by a power of two at or above bit 24 is dividing its
      top byte. */
  lemma {:induction false} ShiftTopByte(w: nat)
    requires IsWord(w)
    ensures w / 0x8000_0000 == (w / 0x100_0000) / 0x80
    ensures w / 0x4000_0000 == (w / 0x100_0000) / 0x40
    ensures w / 0x2000_0000 == (w / 0x100_0000) / 0x20
  {
    var h := w / 0x100_0000;
    var lo := w % 0x100_0000;
    assert w == h * 0x100_0000 + lo;
    assert w == (h / 0x80) * 0x8000_0000 + ((h % 0x80) * 0x100_0000 + lo);
    assert w == (h / 0x40) * 0x4000_0000 + ((h % 0x40) * 0x100_0000 + lo);
    assert w == (h / 0x20) * 0x2000_0000 + ((h % 0x20) * 0x100_0000 + lo);
  }

  /** The five bit fields taken out of word 4 put it back together exactly. */
  lemma {:induction false} FlagsReassemble(s: seq<byte>)
    requires |s| >= STEERING_BLOCK_BYTES
    ensures FlagsWord(DecodeSteeringBlock(s).value) == WordAt(s, 16)
  {
    var w := WordAt(s, 16);
    var h := w / 0x100_0000;
    WordsAt(s, 8, 4);
    ShiftTopByte(w);
    TopByteSplits(h);
    assert w == h * 0x100_0000 + w % 0x100_0000;
  }

  /** The top byte built from the four upper fields splits back into them. */
  lemma {:induction false} TopByteFields(e: nat, eo: nat, so: nat, pad: nat)
    requires e < 2 && eo < 2 && so < 2 && pad < 0x20
    ensures var h := e * 0x80 + eo * 0x40 + so * 0x20 + pad;
      h < 0x100 && h / 0x80 == e && (h / 0x40) % 2 == eo && (h / 0x20) % 2 == so && h % 0x20 == pad
  {
  }

  /** Splitting an assembled word 4 gives back the fields it was built from. */
  lemma {:induction false} FlagsSplit(sb: SteeringBlock)
    requires SteeringFits(sb)
    ensures var w := FlagsWord(sb);
      IsWord(w) &&
      w / 0x8000_0000 == sb.emergencyStop &&
      (w / 0x4000_0000) % 2 == sb.endOfRun &&
      (w / 0x2000_0000) % 2 == sb.startOfRun &&
      (w / 0x100_0000) % 0x20 == sb.padding &&
      w % 0x100_0000 == sb.size
  {
    var h := sb.emergencyStop * 0x80 + sb.endOfRun * 0x40 + sb.startOfRun * 0x20 + sb.padding;
    TopByteFields(sb.emergencyStop, sb.endOfRun, sb.startOfRun, sb.padding);
    var w := FlagsWord(sb);
    assert w == h * 0x100_0000 + sb.size;
    assert w / 0x100_0000 == h;
    ShiftTopByte(w);
  }

  /** Decoding an encoded steering block gives it back. */
  lemma {:induction false} SteeringBlockRoundTrip(sb: SteeringBlock)
    requires SteeringFits(sb)
    ensures DecodeSteeringBlock(EncodeSteeringBlock(sb)) == Ok(sb)
  {
    FlagsSplit(sb);
    var ws := sb.stamp + [FlagsWord(sb), sb.count, sb.skip, sb.fastBlocks];
    WordsOfUnwords(ws);
    assert ws[..4] == sb.stamp;
  }

  /** Encoding a decoded steering block gives back the 32 bytes it came from. */
  lemma {:induction false} SteeringBytesRoundTrip(s: seq<byte>)
    requires |s| >= STEERING_BLOCK_BYTES
    ensures EncodeSteeringBlock(DecodeSteeringBlock(s).value) == s[..STEERING_BLOCK_BYTES]
  {
    FlagsReassemble(s);
    var ws := Words(s, 8);
    UnwordsOfWords(s, 8);
    var sb := DecodeSteeringBlock(s).value;
    WordsAt(s, 8, 4);
    assert FlagsWord(sb) == ws[4];
    assert ws == ws[..4] + [ws[4], ws[5], ws[6], ws[7]];
  }

  // ---------------------------------------------------------------- control word

  predicate ControlFits(cw: Control) {
    IsWord(cw.size) && IsWord(cw.recordType)
  }

  function DecodeControl(s: seq<byte>): (r: Result<Control>)
    ensures r.Ok? <==> |s| >= CONTROL_BYTES
    ensures r.Err? ==> r.error == BufferTooSmall(CONTROL_BYTES, |s|)
    ensures r.Ok? ==> ControlFits(r.value)
  {
    if |s| < CONTROL_BYTES then Err(BufferTooSmall(CONTROL_BYTES, |s|))
    else
      var ws := Words(s, 2);
      Ok(Control(ws[0], ws[1]))
  }

  function EncodeControl(cw: Control): (s: seq<byte>)
    requires ControlFits(cw)
    ensures |s| == CONTROL_BYTES
  {
    Unwords([cw.size, cw.recordType])
  }

  lemma {:induction false} ControlRoundTrip(cw: Control)
    requires ControlFits(cw)
    ensures DecodeControl(EncodeControl(cw)) == Ok(cw)
  {
    WordsOfUnwords([cw.size, cw.recordType]);
  }

  lemma {:induction false} ControlBytesRoundTrip(s: seq<byte>)
    requires |s| >= CONTROL_BYTES
    ensures EncodeControl(DecodeControl(s).value) == s[..CONTROL_BYTES]
  {
    UnwordsOfWords(s, 2);
    assert [DecodeControl(s).value.size, DecodeControl(s).value.recordType] == Words(s, 2);
  }

  // ---------------------------------------------------------------- pilot

  function PilotWords(p: Pilot): seq<nat> {
    [p.check, p.version, p.process, p.reserve, p.sizeText, p.sizeSeg, p.sizeRel,
     p.sizeBank, p.entryLink, p.sizeHeader]
  }

  predicate PilotFits(p: Pilot) {
    AllWords(PilotWords(p))
  }

  function DecodePilot(s: seq<byte>): (r: Result<Pilot>)
    ensures r.Ok? <==> |s| >= PILOT_BYTES
    ensures r.Err? ==> r.error == BufferTooSmall(PILOT_BYTES, |s|)
    ensures r.Ok? ==> PilotFits(r.value)
  {
    if |s| < PILOT_BYTES then Err(BufferTooSmall(PILOT_BYTES, |s|))
    else
      var ws := Words(s, 10);
      Ok(Pilot(ws[0], ws[1], ws[2], ws[3], ws[4], ws[5], ws[6], ws[7], ws[8], ws[9]))
  }

  function EncodePilot(p: Pilot): (s: seq<byte>)
    requires PilotFits(p)
    ensures |s| == PILOT_BYTES
  {
    Unwords(PilotWords(p))
  }

  lemma {:induction false} PilotRoundTrip(p: Pilot)
    requires PilotFits(p)
    ensures DecodePilot(EncodePilot(p)) == Ok(p)
  {
    WordsOfUnwords(PilotWords(p));
  }

  lemma {:induction false} PilotBytesRoundTrip(s: seq<byte>)
    requires |s| >= PILOT_BYTES
    ensures EncodePilot(DecodePilot(s).value) == s[..PILOT_BYTES]
  {
    UnwordsOfWords(s, 10);
    assert PilotWords(DecodePilot(s).value) == Words(s, 10);
  }

  /** Words of link-table and common-block bookkeeping that precede the bank
      chain in a normal logical record's body. */
  function SkipWords(p: Pilot): (k: nat)
    ensures k == 0 <==> p.sizeHeader == 0 && p.sizeSeg == 0 && p.sizeRel == 0 && p.sizeText == 0
  {
    p.sizeHeader + p.sizeSeg + p.sizeRel + p.sizeText
  }

  // ---------------------------------------------------------------- bank

  predicate BankFits(b: Bank) {
    |b.name| == 4 &&
    IsWord(b.next) && IsWord(b.up) && IsWord(b.origin) && IsWord(b.id) &&
    IsWord(b.links) && IsWord(b.slinks) && IsWord(b.data) && IsWord(b.status)
  }

  function DecodeBank(s: seq<byte>): (r: Result<Bank>)
    ensures r.Ok? <==> |s| >= BANK_BYTES
    ensures r.Err? ==> r.error == BufferTooSmall(BANK_BYTES, |s|)
    ensures r.Ok? ==> BankFits(r.value) && r.value.name == s[16..20]
  {
    if |s| < BANK_BYTES then Err(BufferTooSmall(BANK_BYTES, |s|))
    else
      var ws := Words(s, 9);
      Ok(Bank(ws[0], ws[1], ws[2], ws[3], s[16..20], ws[5], ws[6], ws[7], ws[8]))
  }

  /** The nine words of a bank header; the name's four bytes read as one word. */
  function BankWords(b: Bank): seq<nat>
    requires |b.name| == 4
  {
    [b.next, b.up, b.origin, b.id, WordAt(b.name, 0), b.links, b.slinks, b.data, b.status]
  }

  function EncodeBank(b: Bank): (s: seq<byte>)
    requires BankFits(b)
    ensures |s| == BANK_BYTES
  {
    Unwords(BankWords(b))
  }

  lemma {:induction false} BankRoundTrip(b: Bank)
    requires BankFits(b)
    ensures DecodeBank(EncodeBank(b)) == Ok(b)
  {
    var ws := BankWords(b);
    WordsOfUnwords(ws);
    UnwordsAt(ws, 4);
    BytesRoundTrip(b.name, 0);
    assert b.name[0..4] == b.name;
  }

  lemma {:induction false} BankBytesRoundTrip(s: seq<byte>)
    requires |s| >= BANK_BYTES
    ensures EncodeBank(DecodeBank(s).value) == s[..BANK_BYTES]
  {
    var ws := Words(s, 9);
    UnwordsOfWords(s, 9);
    WordsAt(s, 9, 4);
    assert WordAt(s[16..20], 0) == WordAt(s, 16);
    assert BankWords(DecodeBank(s).value) == ws;
  }

  // ---------------------------------------------------------------- IOControl

  predicate IOControlFits(ioc: IOControl) {
    ioc.charField < 0x1_0000 && ioc.size < 0x1_0000
  }

  /** The 16-bit fields of the big-endian word are read from its first and
      last two bytes. */
  function DecodeIOControl(s: seq<byte>): (r: Result<IOControl>)
    ensures r.Ok? <==> |s| >= IO_CONTROL_BYTES
    ensures r.Err? ==> r.error == BufferTooSmall(IO_CONTROL_BYTES, |s|)
    ensures r.Ok? ==> IOControlFits(r.value)
  {
    if |s| < IO_CONTROL_BYTES then Err(BufferTooSmall(IO_CONTROL_BYTES, |s|))
    else Ok(IOControl(HalfAt(s, 0), HalfAt(s, 2)))
  }

  function EncodeIOControl(ioc: IOControl): (s: seq<byte>)
    requires IOControlFits(ioc)
    ensures |s| == IO_CONTROL_BYTES
  {
    HalfBytes(ioc.charField) + HalfBytes(ioc.size)
  }

  /** Encoding a decoded I/O control word gives back the four bytes it came
      from. */
  lemma {:induction false} IOControlBytesRoundTrip(s: seq<byte>)
    requires |s| >= IO_CONTROL_BYTES
    ensures EncodeIOControl(DecodeIOControl(s).value) == s[..IO_CONTROL_BYTES]
  {
    HalfBytesRoundTrip(s, 0);
    HalfBytesRoundTrip(s, 2);
  }

  /** The two fields are the high and the low 16 bits of the big-endian
      word, as the bit-field layout declares them. */
  lemma {:induction false} IOControlBitFields(s: seq<byte>)
    requires |s| >= IO_CONTROL_BYTES
    ensures var w := WordAt(s, 0);
      DecodeIOControl(s) == Ok(IOControl(w / 0x1_0000, w % 0x1_0000))
  {
    var w := WordAt(s, 0);
    assert w == HalfAt(s, 0) * 0x1_0000 + HalfAt(s, 2);
  }

  /** Decoding an encoded I/O control word gives it back. */
  lemma {:induction false} IOControlRoundTrip(ioc: IOControl)
    requires IOControlFits(ioc)
    ensures DecodeIOControl(EncodeIOControl(ioc)) == Ok(ioc)
  {
    var s := EncodeIOControl(ioc);
    HalfRoundTrip(ioc.charField);
    HalfRoundTrip(ioc.size);
    assert s[2..4] == HalfBytes(ioc.size);
  }
}
