/** Bank walking. The body of a logical record is a run of banks: each is an
    I/O control word, a gap of link words the control word's size implies,
    a 36-byte bank header, and the bank's data words. The walk reads them
    through an in-memory file and yields each bank header with its data. */
module Banks {
  import opened Wire
  import opened Errors
  import opened Headers

  /** Words of an I/O control word's size that are not gap: a size of n
      leaves a gap of n - 12 words before the bank header. */
  const GAP_BASE: nat := 12

  /** What `read(n)` returns on an in-memory file holding `rec` positioned at
      `c`: at most n bytes, and nothing once the position is at or past the
      end. */
  function ReadAt(rec: seq<byte>, c: nat, n: nat): (r: seq<byte>)
    ensures |r| == if |rec| <= c then 0 else if n <= |rec| - c then n else |rec| - c
    ensures c < |rec| ==> c + |r| <= |rec| && r == rec[c..c + |r|]
  {
    if |rec| <= c then [] else if |rec| < c + n then rec[c..] else rec[c..c + n]
  }

  /** What the walk yields for one bank: its header and its data bytes. */
  datatype Item = Item(bank: Bank, data: seq<byte>)

  /** The outcome of one pull on the walk. `next` is the position after the
      bank's data. */
  datatype BankStep = Done | Yield(item: Item, next: nat) | Failed(error: Error)

  /** One pass of the walking loop at position c, as the reader is written:
      the seek past the gap is taken whatever its sign, and an in-memory
      file clamps a target before its start to the start. */
  function StepAsWritten(rec: seq<byte>, c: nat): (r: BankStep)
    ensures r.Done? <==> |rec| <= c
    ensures r.Yield? ==> r.next <= |rec| && |r.item.data| == 4 * r.item.bank.data
  {
    if |rec| <= c then Done
    else
      match DecodeIOControl(ReadAt(rec, c, IO_CONTROL_BYTES))
      case Err(e) => Failed(e)
      case Ok(ioc) =>
        var target := c + IO_CONTROL_BYTES + (ioc.size - GAP_BASE) * 4;
        BankAt(rec, if target < 0 then 0 else target)
  }

  /** Where the bank header lies behind a control word at c whose size is at
      least 12: past the control word and the gap the size implies. */
  function HeaderAt(c: nat, ioc: IOControl): (h: nat)
    requires GAP_BASE <= ioc.size
    ensures c + IO_CONTROL_BYTES <= h && (h - c) % 4 == 0
    ensures h == c + IO_CONTROL_BYTES <==> ioc.size == GAP_BASE
  {
    c + IO_CONTROL_BYTES + (ioc.size - GAP_BASE) * 4
  }

  /** One pass of the walking loop at position c, with a control word whose
      size is below 12 refused: it would send the walk backwards. */
  function Step(rec: seq<byte>, c: nat): (r: BankStep)
    ensures r.Done? <==> |rec| <= c
    ensures r.Yield? ==> c + IO_CONTROL_BYTES + BANK_BYTES <= r.next <= |rec|
    ensures r.Yield? ==> |r.item.data| == 4 * r.item.bank.data
    ensures 0 < |rec| - c < IO_CONTROL_BYTES ==>
      r == Failed(BufferTooSmall(IO_CONTROL_BYTES, |rec| - c))
  {
    if |rec| <= c then Done
    else
      match DecodeIOControl(ReadAt(rec, c, IO_CONTROL_BYTES))
      case Err(e) => Failed(e)
      case Ok(ioc) =>
        if ioc.size < GAP_BASE then Failed(BackwardSeek(ioc.size))
        else BankAt(rec, HeaderAt(c, ioc))
  }

  /** The rest of a pass once the gap is skipped: read the bank header at
      `at`, then as many data words as it declares. */
  function BankAt(rec: seq<byte>, at: nat): (r: BankStep)
    ensures !r.Done?
    ensures r.Yield? ==> at + BANK_BYTES <= r.next <= |rec|
    ensures r.Yield? ==> |r.item.data| == 4 * r.item.bank.data
    ensures r.Yield? ==> r.next == at + BANK_BYTES + |r.item.data|
  {
    match DecodeBank(ReadAt(rec, at, BANK_BYTES))
    case Err(e) => Failed(e)
    case Ok(bank) =>
      var data := ReadAt(rec, at + BANK_BYTES, bank.data * 4);
      if |data| != bank.data * 4 then Failed(BankDataTruncated(bank.data * 4, |data|))
      else Yield(Item(bank, data), at + BANK_BYTES + |data|)
  }

  /** What BankAt yields, and how it fails: a yielded item is the header
      decoded at `at` with the bytes behind it; a short header fails with
      BufferTooSmall, and a header whose data runs past the end of the record
      fails with BankDataTruncated. Kept apart from BankAt's own contract so
      that proofs unfolding the walk do not carry these facts along. */
  lemma {:induction false} BankAtOutcomes(rec: seq<byte>, at: nat)
    ensures var r := BankAt(rec, at);
      r.Yield? ==>
        DecodeBank(rec[at..at + BANK_BYTES]) == Ok(r.item.bank) &&
        r.item.data == rec[at + BANK_BYTES..r.next]
    ensures |rec| < at + BANK_BYTES ==>
      BankAt(rec, at) == Failed(BufferTooSmall(BANK_BYTES, |ReadAt(rec, at, BANK_BYTES)|))
    ensures at + BANK_BYTES <= |rec| ==>
      var b := DecodeBank(rec[at..at + BANK_BYTES]).value;
      |rec| < at + BANK_BYTES + 4 * b.data ==>
        BankAt(rec, at) == Failed(BankDataTruncated(4 * b.data, |rec| - (at + BANK_BYTES)))
  {
    if at + BANK_BYTES <= |rec| {
      assert ReadAt(rec, at, BANK_BYTES) == rec[at..at + BANK_BYTES];
    }
  }

  /** Where the two readings part: they agree on every control word of size
      12 or more, and on nothing else the corrected one yields. */
  lemma {:induction false} StepsAgree(rec: seq<byte>, c: nat)
    requires c < |rec|
    ensures var ioc := DecodeIOControl(ReadAt(rec, c, IO_CONTROL_BYTES));
      if ioc.Ok? && ioc.value.size < GAP_BASE
      then Step(rec, c) == Failed(BackwardSeek(ioc.value.size))
      else Step(rec, c) == StepAsWritten(rec, c)
  {
  }

  /** A 44-byte record on which the reader as written never ends. The first
      bank (control word of size 12, no gap, no data) ends at byte 40, where
      a control word of size 0 follows; its seek of -48 bytes is clamped to
      the record's start, and the bank read there declares one data word,
      which ends exactly at byte 40 again. */
  const LOOPING_RECORD: seq<byte> := [
      0, 0, 0, 12,
      0, 0, 0, 0,
      0, 0, 0, 0,
      0, 0, 0, 0,
      0, 0, 0, 0,
      0, 0, 0, 0,
      0, 0, 0, 0,
      0, 0, 0, 1,
      0, 0, 0, 0,
      0, 0, 0, 0,
      0, 0, 0, 0
    ]

  /** The control words of the looping record: size 12 at byte 0, size 0
      at byte 40. */
  lemma {:induction false} LoopingControls()
    ensures DecodeIOControl(ReadAt(LOOPING_RECORD, 0, IO_CONTROL_BYTES)).value.size == 12
    ensures DecodeIOControl(ReadAt(LOOPING_RECORD, 40, IO_CONTROL_BYTES)).value.size == 0
  {
    var rec := LOOPING_RECORD;
    var first, second := ReadAt(rec, 0, IO_CONTROL_BYTES), ReadAt(rec, 40, IO_CONTROL_BYTES);
    assert first == rec[0..4] && first[2] == rec[2] && first[3] == rec[3];
    assert second == rec[40..44] && second[2] == rec[42] && second[3] == rec[43];
    assert rec[2] == 0 && rec[3] == 12 && rec[42] == 0 && rec[43] == 0;
  }

  /** The bank header at byte 4 of the looping record declares no data. */
  lemma {:induction false} LoopingFirstHeader()
    ensures DecodeBank(ReadAt(LOOPING_RECORD, 4, BANK_BYTES)).value.data == 0
  {
    var rec := LOOPING_RECORD;
    var header := ReadAt(rec, 4, BANK_BYTES);
    assert header == rec[4..40];
    assert header[28..32] == [rec[32], rec[33], rec[34], rec[35]] == [0, 0, 0, 0];
    BankDataWord(header);
  }

  /** The bank header at byte 0 of the looping record declares one data
      word. */
  lemma {:induction false} LoopingSecondHeader()
    ensures DecodeBank(ReadAt(LOOPING_RECORD, 0, BANK_BYTES)).value.data == 1
  {
    var rec := LOOPING_RECORD;
    var header := ReadAt(rec, 0, BANK_BYTES);
    assert header == rec[0..36];
    assert rec[28] == 0 && rec[29] == 0 && rec[30] == 0 && rec[31] == 1;
    assert header[28..32] == [rec[28], rec[29], rec[30], rec[31]] == [0, 0, 0, 1];
    BankDataWord(header);
  }

  /** The reader as written yields the bank at byte 40 again and again; the
      corrected step refuses its control word instead. */
  lemma {:induction false} BackwardSeekLoops()
    ensures StepAsWritten(LOOPING_RECORD, 0).Yield?
    ensures StepAsWritten(LOOPING_RECORD, 0).next == 40
    ensures StepAsWritten(LOOPING_RECORD, 40).Yield?
    ensures StepAsWritten(LOOPING_RECORD, 40).next == 40
    ensures Step(LOOPING_RECORD, 40) == Failed(BackwardSeek(0))
  {
    LoopingControls();
    LoopingFirstHeader();
    LoopingSecondHeader();
  }

  /** The data word count a bank header declares is its eighth word. */
  lemma {:induction false} BankDataWord(s: seq<byte>)
    requires |s| >= BANK_BYTES
    ensures DecodeBank(s).value.data == WordAt(s[28..32], 0)
  {
    WordsAt(s, 9, 7);
  }

  // ------------------------------------------------------------ the reader object

  /** The bank walk as a stateful reader over one logical record. */
  class BankReader {
    const rec: seq<byte>
    var pos: nat
    var finished: bool

    constructor (rec: seq<byte>)
      ensures this.rec == rec && pos == 0 && !finished
    {
      this.rec := rec;
      pos := 0;
      finished := false;
    }

    /** Pull the next bank and its data. */
    method Next() returns (r: BankStep)
      modifies this
      ensures old(finished) ==> r == Done
      ensures !old(finished) ==> r == Step(rec, old(pos))
      ensures finished == !r.Yield?
      ensures r.Yield? ==> pos == r.next
      ensures !r.Yield? ==> pos == old(pos)
    {
      if finished || |rec| <= pos {
        finished := true;
        return Done;
      }
      var ioc := DecodeIOControl(ReadAt(rec, pos, IO_CONTROL_BYTES));
      if ioc.Err? {
        finished := true;
        return Failed(ioc.error);
      }
      if ioc.value.size < GAP_BASE {
        finished := true;
        return Failed(BackwardSeek(ioc.value.size));
      }
      var at := HeaderAt(pos, ioc.value);
      var bank := DecodeBank(ReadAt(rec, at, BANK_BYTES));
      if bank.Err? {
        finished := true;
        return Failed(bank.error);
      }
      var data := ReadAt(rec, at + BANK_BYTES, bank.value.data * 4);
      if |data| != bank.value.data * 4 {
        finished := true;
        return Failed(BankDataTruncated(bank.value.data * 4, |data|));
      }
      pos := at + BANK_BYTES + |data|;
      r := Yield(Item(bank.value, data), pos);
    }
  }

  // ------------------------------------------------------------ whole records

  /** Everything the walk yields, pulled to the end: the banks, then the
      error that stopped it, if any. */
  datatype Walked = Walked(items: seq<Item>, error: Option<Error>)

  function Walk(rec: seq<byte>, c: nat): (w: Walked)
    requires c <= |rec|
    decreases |rec| - c
    // 40 is IO_CONTROL_BYTES + BANK_BYTES written out: a named constant
    // times a length is a nonlinear term for the solver.
    ensures 40 * |w.items| <= |rec| - c
  {
    match Step(rec, c)
    case Done => Walked([], None)
    case Failed(e) => Walked([], Some(e))
    case Yield(item, next) =>
      var rest := Walk(rec, next);
      Walked([item] + rest.items, rest.error)
  }

  /** Every bank the walk yields carries exactly as many data bytes as its
      header declares. */
  lemma {:induction false} WalkItemsSized(rec: seq<byte>, c: nat)
    requires c <= |rec|
    ensures var items := Walk(rec, c).items;
      forall i :: 0 <= i < |items| ==> |items[i].data| == 4 * items[i].bank.data
    decreases |rec| - c
  {
    var step := Step(rec, c);
    if step.Yield? {
      WalkItemsSized(rec, step.next);
      var items := Walk(rec, c).items;
      assert items == [step.item] + Walk(rec, step.next).items;
    }
  }

  /** A bank as written: its I/O control word, the gap that word implies,
      its header and its data. */
  datatype Link = Link(control: IOControl, gap: seq<byte>, bank: Bank, data: seq<byte>)

  predicate WellLinked(l: Link) {
    IOControlFits(l.control) && GAP_BASE <= l.control.size &&
    |l.gap| == (l.control.size - GAP_BASE) * 4 &&
    BankFits(l.bank) && |l.data| == 4 * l.bank.data
  }

  function EncodeLink(l: Link): (s: seq<byte>)
    requires WellLinked(l)
    ensures |s| == IO_CONTROL_BYTES + |l.gap| + BANK_BYTES + |l.data|
  {
    EncodeIOControl(l.control) + l.gap + EncodeBank(l.bank) + l.data
  }

  function EncodeLinks(ls: seq<Link>): seq<byte>
    requires forall i :: 0 <= i < |ls| ==> WellLinked(ls[i])
  {
    if |ls| == 0 then []
    else
      assert WellLinked(ls[0]);
      EncodeLink(ls[0]) + EncodeLinks(ls[1..])
  }

  /** What the walk should yield for a run of banks: each header with its
      data, the control words and gaps dropped. */
  function Items(ls: seq<Link>): (items: seq<Item>)
    ensures |items| == |ls|
    ensures forall i :: 0 <= i < |ls| ==> items[i] == Item(ls[i].bank, ls[i].data)
  {
    if ls == [] then [] else [Item(ls[0].bank, ls[0].data)] + Items(ls[1..])
  }

  /** A control word of size 12 or more sends the step to the bank header
      just past its gap. */
  lemma {:induction false} StepPastGap(rec: seq<byte>, c: nat, ioc: IOControl)
    requires c + IO_CONTROL_BYTES <= |rec|
    requires DecodeIOControl(rec[c..c + IO_CONTROL_BYTES]) == Ok(ioc)
    requires GAP_BASE <= ioc.size
    ensures Step(rec, c) == BankAt(rec, HeaderAt(c, ioc))
  {
    assert ReadAt(rec, c, IO_CONTROL_BYTES) == rec[c..c + IO_CONTROL_BYTES];
  }

  /** A bank header that decodes, followed by as many data bytes as it
      declares, is yielded with them. */
  lemma {:induction false} BankAtCursor(rec: seq<byte>, at: nat, bank: Bank, data: seq<byte>)
    requires |data| == 4 * bank.data
    requires at + BANK_BYTES + |data| <= |rec|
    requires DecodeBank(rec[at..at + BANK_BYTES]) == Ok(bank)
    requires rec[at + BANK_BYTES..at + BANK_BYTES + |data|] == data
    ensures BankAt(rec, at) == Yield(Item(bank, data), at + BANK_BYTES + |data|)
  {
    assert ReadAt(rec, at, BANK_BYTES) == rec[at..at + BANK_BYTES];
    assert ReadAt(rec, at + BANK_BYTES, bank.data * 4) == data;
  }

  /** An encoded bank is its control word, the gap, its header and its
      data, at the offsets the control word implies. */
  lemma {:induction false} LinkLayout(l: Link)
    requires WellLinked(l)
    ensures var e := EncodeLink(l);
      var at := IO_CONTROL_BYTES + |l.gap|;
      e[..IO_CONTROL_BYTES] == EncodeIOControl(l.control) &&
      e[at..at + BANK_BYTES] == EncodeBank(l.bank) &&
      e[at + BANK_BYTES..] == l.data
  {
    var e := EncodeLink(l);
    var front := EncodeIOControl(l.control) + l.gap;
    assert e == front + EncodeBank(l.bank) + l.data;
  }

  /** Bytes a well-formed bank occupies: control word, gap, header, data. */
  function LinkSize(l: Link): nat {
    IO_CONTROL_BYTES + |l.gap| + BANK_BYTES + |l.data|
  }

  /** The bank l is laid out at c: its control word is there, its header
      lies past the gap the control word implies, and its data follows. */
  ghost predicate LinkAt(rec: seq<byte>, c: nat, l: Link)
    requires WellLinked(l)
  {
    var at := HeaderAt(c, l.control);
    at + BANK_BYTES + |l.data| <= |rec| &&
    rec[c..c + IO_CONTROL_BYTES] == EncodeIOControl(l.control) &&
    rec[at..at + BANK_BYTES] == EncodeBank(l.bank) &&
    rec[at + BANK_BYTES..at + BANK_BYTES + |l.data|] == l.data
  }

  /** A well-formed bank embedded at the cursor is laid out there. */
  lemma {:induction false} LinkAtCursor(rec: seq<byte>, c: nat, l: Link)
    requires WellLinked(l)
    requires c + |EncodeLink(l)| <= |rec| && rec[c..c + |EncodeLink(l)|] == EncodeLink(l)
    ensures LinkAt(rec, c, l)
  {
    var e := EncodeLink(l);
    var at := IO_CONTROL_BYTES + |l.gap|;
    LinkLayout(l);
    SliceWithin(rec, c, e, 0, IO_CONTROL_BYTES);
    SliceWithin(rec, c, e, at, at + BANK_BYTES);
    SliceWithin(rec, c, e, at + BANK_BYTES, |e|);
  }

  /** A bank laid out at the cursor is yielded as its header and data, and
      the cursor moves past it, whatever follows it. */
  lemma {:induction false} StepOverLink(rec: seq<byte>, c: nat, l: Link)
    requires WellLinked(l) && LinkAt(rec, c, l)
    ensures Step(rec, c) == Yield(Item(l.bank, l.data), c + LinkSize(l))
  {
    var at := HeaderAt(c, l.control);
    assert DecodeIOControl(rec[c..c + IO_CONTROL_BYTES]) == Ok(l.control) by {
      IOControlRoundTrip(l.control);
    }
    assert DecodeBank(rec[at..at + BANK_BYTES]) == Ok(l.bank) by {
      BankRoundTrip(l.bank);
    }
    StepPastGap(rec, c, l.control);
    BankAtCursor(rec, at, l.bank, l.data);
  }

  /** Walking from a cursor where a bank is yielded gives that bank, then
      whatever walking from its end gives. */
  lemma {:induction false} WalkYield(rec: seq<byte>, c: nat, item: Item, next: nat)
    requires c <= |rec| && Step(rec, c) == Yield(item, next)
    ensures next <= |rec|
    ensures Walk(rec, c) == Walked([item] + Walk(rec, next).items, Walk(rec, next).error)
  {
  }

  /** A run of well-formed banks at the cursor begins with the encoding of
      its first bank, and the rest of the run, with whatever follows it,
      starts where that bank ends. */
  lemma {:induction false} SplitFirstLink(rec: seq<byte>, c: nat, ls: seq<Link>, tail: seq<byte>)
    requires |ls| > 0 && forall i :: 0 <= i < |ls| ==> WellLinked(ls[i])
    requires c <= |rec| && rec[c..] == EncodeLinks(ls) + tail
    ensures WellLinked(ls[0])
    ensures forall i :: 0 <= i < |ls[1..]| ==> WellLinked(ls[1..][i])
    ensures c + LinkSize(ls[0]) <= |rec|
    ensures rec[c..c + LinkSize(ls[0])] == EncodeLink(ls[0])
    ensures rec[c + LinkSize(ls[0])..] == EncodeLinks(ls[1..]) + tail
  {
    var l := ls[0];
    assert WellLinked(l);
    AppendAssoc(EncodeLink(l), EncodeLinks(ls[1..]), tail);
    SplitSuffix(rec, c, EncodeLink(l), EncodeLinks(ls[1..]) + tail);
  }

  /** The banks of ls are laid out one after another from c, and the last
      one ends at `end`. */
  ghost predicate Laid(rec: seq<byte>, c: nat, ls: seq<Link>, end: nat)
    decreases |ls|
  {
    c <= |rec| &&
    if |ls| == 0 then c == end
    else WellLinked(ls[0]) && LinkAt(rec, c, ls[0]) && Laid(rec, c + LinkSize(ls[0]), ls[1..], end)
  }

  /** A bank laid out at c, followed by banks laid out from where it ends,
      makes a laid-out run. */
  lemma {:induction false} LaidCons(rec: seq<byte>, c: nat, ls: seq<Link>, end: nat)
    requires |ls| > 0 && c <= |rec| && WellLinked(ls[0]) && LinkAt(rec, c, ls[0])
    requires Laid(rec, c + LinkSize(ls[0]), ls[1..], end)
    ensures Laid(rec, c, ls, end)
  {
  }

  /** A run of well-formed banks at the cursor, followed by `tail`, is laid
      out up to where the tail starts. */
  lemma {:induction false} EncodedLaid(rec: seq<byte>, c: nat, ls: seq<Link>, tail: seq<byte>)
    requires forall i :: 0 <= i < |ls| ==> WellLinked(ls[i])
    requires c <= |rec| && rec[c..] == EncodeLinks(ls) + tail
    ensures Laid(rec, c, ls, |rec| - |tail|)
    decreases |ls|
  {
    if |ls| == 0 {
      assert |rec| - c == |tail|;
    } else {
      SplitFirstLink(rec, c, ls, tail);
      LinkAtCursor(rec, c, ls[0]);
      EncodedLaid(rec, c + LinkSize(ls[0]), ls[1..], tail);
      LaidCons(rec, c, ls, |rec| - |tail|);
    }
  }

  /** Where each bank of a run laid out from c begins, and, last, where the
      run ends. */
  function Positions(c: nat, ls: seq<Link>): (ps: seq<nat>)
    ensures |ps| == |ls| + 1 && ps[0] == c
    decreases |ls|
  {
    if ls == [] then [c] else [c] + Positions(c + LinkSize(ls[0]), ls[1..])
  }

  /** Step i, from ps[i], yields the bank ls[i] and moves the cursor to
      ps[i + 1]. */
  ghost predicate Steps(rec: seq<byte>, ps: seq<nat>, ls: seq<Link>)
  {
    |ps| == |ls| + 1 && ps[|ls|] <= |rec| &&
    forall i :: 0 <= i < |ls| ==>
      ps[i] <= |rec| && Step(rec, ps[i]) == Yield(Item(ls[i].bank, ls[i].data), ps[i + 1])
  }

  /** Banks laid out one after another are stepped over one after another. */
  lemma {:induction false} LaidSteps(rec: seq<byte>, c: nat, ls: seq<Link>, end: nat)
    requires Laid(rec, c, ls, end)
    ensures Steps(rec, Positions(c, ls), ls) && Positions(c, ls)[|ls|] == end
    decreases |ls|
  {
    var ps := Positions(c, ls);
    if |ls| > 0 {
      var next := c + LinkSize(ls[0]);
      var qs := Positions(next, ls[1..]);
      LaidSteps(rec, next, ls[1..], end);
      StepOverLink(rec, c, ls[0]);
      assert ps == [c] + qs;
      forall i | 0 <= i < |ls|
        ensures ps[i] <= |rec| && Step(rec, ps[i]) == Yield(Item(ls[i].bank, ls[i].data), ps[i + 1])
      {
        if 0 < i {
          assert ps[i] == qs[i - 1] && ps[i + 1] == qs[i] && ls[i] == ls[1..][i - 1];
        }
      }
    }
  }

  /** Banks stepped over from ps[k] on are walked as themselves, then the
      walk stops the way walking from where the last one ends stops. */
  lemma {:induction false} WalkSteps(rec: seq<byte>, ps: seq<nat>, ls: seq<Link>, k: nat)
    requires Steps(rec, ps, ls) && k <= |ls|
    ensures var last := Walk(rec, ps[|ls|]);
      Walk(rec, ps[k]) == Walked(Items(ls[k..]) + last.items, last.error)
    decreases |ls| - k
  {
    var last := Walk(rec, ps[|ls|]);
    if k == |ls| {
      assert ls[k..] == [];
      AppendEmpty(last.items);
    } else {
      var item := Item(ls[k].bank, ls[k].data);
      WalkSteps(rec, ps, ls, k + 1);
      WalkYield(rec, ps[k], item, ps[k + 1]);
      assert ls[k..][1..] == ls[k + 1..];
      assert Items(ls[k..]) == [item] + Items(ls[k + 1..]);
      ConsAppend(item, Items(ls[k + 1..]), last.items);
    }
  }

  /** Banks laid out from c up to `end` are walked as themselves, then the
      walk stops the way walking from `end` stops. */
  lemma {:induction false} WalkLaid(rec: seq<byte>, c: nat, ls: seq<Link>, end: nat)
    requires Laid(rec, c, ls, end)
    ensures end <= |rec|
    ensures Walk(rec, c) == Walked(Items(ls) + Walk(rec, end).items, Walk(rec, end).error)
  {
    LaidSteps(rec, c, ls, end);
    WalkSteps(rec, Positions(c, ls), ls, 0);
    assert ls[0..] == ls;
  }

  /** At the end of the record the walk stops cleanly. */
  lemma {:induction false} WalkAtEnd(rec: seq<byte>)
    ensures Walk(rec, |rec|) == Walked([], None)
  {
  }

  /** Fewer than four bytes left at the cursor: the walk fails at once. */
  lemma {:induction false} WalkShortTail(rec: seq<byte>, c: nat)
    requires c <= |rec| && 0 < |rec| - c < IO_CONTROL_BYTES
    ensures Walk(rec, c) == Walked([], Some(BufferTooSmall(IO_CONTROL_BYTES, |rec| - c)))
  {
  }

  /** Walking round trip: a run of well-formed banks, wherever it starts in
      the record, is read back as exactly their headers and data, in order,
      and ends cleanly. */
  lemma {:induction false} WalkLinks(rec: seq<byte>, c: nat, ls: seq<Link>)
    requires forall i :: 0 <= i < |ls| ==> WellLinked(ls[i])
    requires c <= |rec| && rec[c..] == EncodeLinks(ls)
    ensures Walk(rec, c) == Walked(Items(ls), None)
  {
    AppendEmpty(EncodeLinks(ls));
    EncodedLaid(rec, c, ls, []);
    WalkLaid(rec, c, ls, |rec|);
    WalkAtEnd(rec);
    AppendEmpty(Items(ls));
  }

  /** A record of well-formed banks followed by fewer than four stray bytes
      yields all the banks and then fails on the partial control word. */
  lemma {:induction false} TrailingBytesFail(rec: seq<byte>, c: nat, ls: seq<Link>, tail: seq<byte>)
    requires forall i :: 0 <= i < |ls| ==> WellLinked(ls[i])
    requires 0 < |tail| < IO_CONTROL_BYTES
    requires c <= |rec| && rec[c..] == EncodeLinks(ls) + tail
    ensures Walk(rec, c) == Walked(Items(ls), Some(BufferTooSmall(IO_CONTROL_BYTES, |tail|)))
  {
    EncodedLaid(rec, c, ls, tail);
    WalkLaid(rec, c, ls, |rec| - |tail|);
    WalkShortTail(rec, |rec| - |tail|);
    AppendEmpty(Items(ls));
  }

  // ------------------------------------------------------------ footprints

  /** Bytes one bank occupies: its control word, the gap, the header and the
      data. */
  function BankFootprint(ioc: IOControl, item: Item): int {
    IO_CONTROL_BYTES + 4 * (ioc.size - GAP_BASE) + BANK_BYTES + |item.data|
  }

  /** Each bank moves the cursor by exactly its footprint. */
  lemma {:induction false} StepFootprint(rec: seq<byte>, c: nat)
    requires Step(rec, c).Yield?
    ensures var ioc := DecodeIOControl(ReadAt(rec, c, IO_CONTROL_BYTES)).value;
      Step(rec, c).next == c + BankFootprint(ioc, Step(rec, c).item)
  {
  }

  /** The control words the walk reads, one per bank it yields. */
  function Controls(rec: seq<byte>, c: nat): seq<IOControl>
    requires c <= |rec|
    decreases |rec| - c
  {
    match Step(rec, c)
    case Yield(_, next) =>
      [DecodeIOControl(ReadAt(rec, c, IO_CONTROL_BYTES)).value] + Controls(rec, next)
    case _ => []
  }

  /** Bytes a run of banks occupies. */
  function Covered(ctrls: seq<IOControl>, items: seq<Item>): int
    requires |ctrls| == |items|
  {
    if |items| == 0 then 0 else BankFootprint(ctrls[0], items[0]) + Covered(ctrls[1..], items[1..])
  }

  /** The walk ends cleanly only on a bank boundary: when it succeeds, the
      footprints of the banks it yielded cover the rest of the record
      exactly. */
  lemma {:induction false} WalkCoversRecord(rec: seq<byte>, c: nat)
    requires c <= |rec|
    ensures |Controls(rec, c)| == |Walk(rec, c).items|
    ensures Walk(rec, c).error == None ==>
      c + Covered(Controls(rec, c), Walk(rec, c).items) == |rec|
    decreases |rec| - c
  {
    var step := Step(rec, c);
    if step.Yield? {
      WalkCoversRecord(rec, step.next);
      StepFootprint(rec, c);
      var ctrls := Controls(rec, c);
      var items := Walk(rec, c).items;
      assert ctrls[1..] == Controls(rec, step.next);
      assert items[1..] == Walk(rec, step.next).items;
    }
  }
}
