/**
  The SubRip serializer of utility.py (`write_srt`): numbered blocks
  `"{i}\n{start} --> {end}\n{text}\n"`, joined by "\n" so that a blank line
  separates consecutive blocks.
*/
module Srt {
  import opened Results
  import opened Decimal
  import opened TimestampFormat
  import opened TextLine

  /** A transcript segment: offsets in seconds and the recognised text. */
  datatype Segment = Segment(start: real, end: real, text: string)

  /** Both offsets pass the formatter's non-negativity assertion. */
  predicate ValidTimes(seg: Segment) {
    seg.start >= 0.0 && seg.end >= 0.0
  }

  /** `format_timestamp(t, always_include_hours=True, decimal_marker=',')` for both offsets. */
  function TimingLine(seg: Segment): (r: Result<string, TimestampError>)
    ensures r.Success? <==> ValidTimes(seg)
  {
    match Timestamp(seg.start, true, ",")
    case Failure(e) => Failure(e)
    case Success(from) =>
      match Timestamp(seg.end, true, ",")
      case Failure(e) => Failure(e)
      case Success(to) => Success(from + " --> " + to)
  }

  /** The block for the segment at 1-based position `index`. */
  function Block(index: nat, seg: Segment): (r: Result<string, TimestampError>)
    ensures r.Success? <==> ValidTimes(seg)
  {
    match TimingLine(seg)
    case Failure(e) => Failure(e)
    case Success(timing) => Success(BlockText(index, timing, seg.text))
  }

  /** The f-string of one block: index line, timing line, text line, each ended by "\n". */
  function BlockText(index: nat, timing: string, text: string): string {
    Show(index) + "\n" + timing + "\n" + Sanitize(text) + "\n"
  }

  /**
    `[f(i, x) for i, x in enumerate(xs, start=first)]` where `f` may raise:
    the results in input order, or the first failure.
  */
  function MapNumbered<T, U, E>(f: (nat, T) -> Result<U, E>, xs: seq<T>, first: nat): (r: Result<seq<U>, E>)
    ensures r.Success? <==> forall k :: 0 <= k < |xs| ==> f(first + k, xs[k]).Success?
    ensures r.Success? ==> |r.value| == |xs|
    decreases |xs|
  {
    if xs == [] then Success([])
    else
      match f(first, xs[0])
      case Failure(e) => Failure(e)
      case Success(y) =>
        match MapNumbered(f, xs[1..], first + 1)
        case Failure(e) => Failure(e)
        case Success(ys) => Success([y] + ys)
  }

  /** Result `k` is `f` applied to element `k` and number `first + k`. */
  lemma {:induction false} MapNumberedAt<T, U, E>(f: (nat, T) -> Result<U, E>, xs: seq<T>, first: nat, k: nat)
    requires k < |xs| && MapNumbered(f, xs, first).Success?
    ensures var ys := MapNumbered(f, xs, first).value;
      k < |ys| && f(first + k, xs[k]) == Success(ys[k])
    decreases k
  {
    var rest := MapNumbered(f, xs[1..], first + 1);
    var ys := MapNumbered(f, xs, first).value;
    assert ys == [f(first, xs[0]).value] + rest.value;
    if k > 0 {
      MapNumberedAt(f, xs[1..], first + 1, k - 1);
      assert xs[1..][k - 1] == xs[k];
      assert (first + 1) + (k - 1) == first + k;
    }
  }

  /** The blocks of a transcript, numbered from 1 as `enumerate(transcript, start=1)` does. */
  function Blocks(segs: seq<Segment>): (r: Result<seq<string>, TimestampError>)
    ensures r.Success? <==> forall k :: 0 <= k < |segs| ==> ValidTimes(segs[k])
    ensures r.Success? ==> |r.value| == |segs|
  {
    var r := MapNumbered(Block, segs, 1);
    assert r.Success? <==> forall k :: 0 <= k < |segs| ==> Block(1 + k, segs[k]).Success?;
    r
  }

  /** Block `k` (0-based) of a transcript is the block numbered `k + 1` of segment `k`. */
  lemma BlocksAt(segs: seq<Segment>, k: nat)
    requires k < |segs| && Blocks(segs).Success?
    ensures k < |Blocks(segs).value| && Block(k + 1, segs[k]) == Success(Blocks(segs).value[k])
  {
    MapNumberedAt(Block, segs, 1, k);
  }

  /** `"\n".join(parts)`. */
  function Join(parts: seq<string>): string
    decreases |parts|
  {
    if parts == [] then ""
    else if |parts| == 1 then parts[0]
    else parts[0] + "\n" + Join(parts[1..])
  }

  /** `write_srt(transcript)`. */
  function WriteSrt(segs: seq<Segment>): (r: Result<string, TimestampError>)
    ensures r.Success? <==> forall k :: 0 <= k < |segs| ==> ValidTimes(segs[k])
    ensures segs == [] ==> r == Success("")
  {
    match Blocks(segs)
    case Failure(e) => Failure(e)
    case Success(blocks) => Success(Join(blocks))
  }

  /** Where part `k` begins in `Join(parts)`: after every earlier part and its "\n". */
  function Offset(parts: seq<string>, k: nat): nat
    requires k <= |parts|
  {
    if k == 0 then 0 else |parts[0]| + 1 + Offset(parts[1..], k - 1)
  }

  /**
    Part `k` sits at its offset in `Join(parts)`; it is followed by "\n" and
    then by the next part unless it is the last, and nothing follows the last.
  */
  predicate Placed(parts: seq<string>, k: nat)
    requires k < |parts|
  {
    var doc, o := Join(parts), Offset(parts, k);
    && o + |parts[k]| <= |doc|
    && doc[o..o + |parts[k]|] == parts[k]
    && (k + 1 < |parts| ==> o + |parts[k]| < |doc| && doc[o + |parts[k]|] == '\n'
                            && Offset(parts, k + 1) == o + |parts[k]| + 1)
    && (k + 1 == |parts| ==> |doc| == o + |parts[k]|)
  }

  /** The joined text holds every part at its offset, in order, separated by "\n". */
  lemma {:induction false} JoinAt(parts: seq<string>, k: nat)
    requires k < |parts|
    ensures Placed(parts, k)
  {
    if k == 0 {
      JoinFirst(parts);
    } else {
      JoinAt(parts[1..], k - 1);
      JoinShift(parts, k);
    }
  }

  /** The first part opens the joined text. */
  lemma JoinFirst(parts: seq<string>)
    requires |parts| >= 1
    ensures Placed(parts, 0)
  {
    if |parts| > 1 {
      assert Join(parts) == parts[0] + "\n" + Join(parts[1..]);
      assert Offset(parts[1..], 0) == 0;
    }
  }

  /** A part placed in the join of the rest is placed in the whole join, one part and "\n" further on. */
  lemma JoinShift(parts: seq<string>, k: nat)
    requires 1 <= k < |parts| && Placed(parts[1..], k - 1)
    ensures Placed(parts, k)
  {
    var head, tail := parts[0] + "\n", Join(parts[1..]);
    var o', p := Offset(parts[1..], k - 1), parts[k];
    assert parts[1..][k - 1] == p;
    assert Join(parts) == head + tail;
    ShiftSlice(head, tail, o', o' + |p|);
    if k + 1 < |parts| {
      assert parts[1..][k] == parts[k + 1];
      assert (head + tail)[|head| + o' + |p|] == tail[o' + |p|];
    }
  }

  lemma ShiftSlice(head: string, tail: string, i: nat, j: nat)
    requires i <= j <= |tail|
    ensures (head + tail)[|head| + i..|head| + j] == tail[i..j]
  {
    assert (head + tail)[|head|..] == tail;
  }

  /** A block starts with its decimal index on a line of its own, and that index reads back as `index`. */
  lemma BlockIndex(index: nat, seg: Segment)
    requires ValidTimes(seg)
    ensures StartsWith(Block(index, seg).value, Show(index) + "\n")
    ensures AllDigits(Show(index)) && Value(Show(index)) == index
  {
    BlockTextIndex(index, TimingLine(seg).value, seg.text);
  }

  /** The index line of a block text. */
  lemma BlockTextIndex(index: nat, timing: string, text: string)
    ensures StartsWith(BlockText(index, timing, text), Show(index) + "\n")
    ensures AllDigits(Show(index)) && Value(Show(index)) == index
  {
    var id := Show(index);
    var rest := timing + "\n" + Sanitize(text) + "\n";
    assert BlockText(index, timing, text) == (id + "\n") + rest;
    ShowValue(index);
  }

  /**
    An SRT timestamp always shows its hours, has ',' before the three
    milliseconds digits, and reads back as the millisecond count it shows.
  */
  lemma SrtTimestamp(ms: nat)
    ensures var t := FormatMillis(ms, true, ",");
      && |t| >= 4 && HoursPart(t, 1) != [] && t[|t| - 4] == ','
      && Parse(t, 1) == Some(ms)
  {
    FormatFields(ms, true, ",");
    ParseFormat(ms, true, ",");
    MarkerChar(FormatMillis(ms, true, ","), ',');
  }

  /**
    A block is index line, timing line and text line, each ended by "\n";
    the timing line is two SRT timestamps around " --> ", and the text line
    has no outer whitespace.
  */
  lemma BlockLines(index: nat, seg: Segment)
    requires ValidTimes(seg)
    ensures var from, to := FormatMillis(Millis(seg.start), true, ","), FormatMillis(Millis(seg.end), true, ",");
      && TimingLine(seg) == Success(from + " --> " + to)
      && Block(index, seg) == Success(Show(index) + "\n" + TimingLine(seg).value + "\n" + Sanitize(seg.text) + "\n")
      && Parse(from, 1) == Some(Millis(seg.start)) && Parse(to, 1) == Some(Millis(seg.end))
      && HoursPart(from, 1) != [] && HoursPart(to, 1) != []
      && Trimmed(Sanitize(seg.text))
  {
    SrtTimestamp(Millis(seg.start));
    SrtTimestamp(Millis(seg.end));
  }

  /** Every block ends with a line break, so the join leaves a blank line between blocks. */
  lemma BlockEndsWithNewline(index: nat, seg: Segment)
    requires ValidTimes(seg)
    ensures var b := Block(index, seg).value; |b| > 0 && b[|b| - 1] == '\n'
  {
  }

  /** Every part ends with a line break. */
  predicate LinesEnded(parts: seq<string>) {
    forall j :: 0 <= j < |parts| ==> |parts[j]| > 0 && parts[j][|parts[j]| - 1] == '\n'
  }

  /** All blocks of a transcript end with a line break. */
  lemma BlocksEnded(segs: seq<Segment>)
    requires Blocks(segs).Success?
    ensures LinesEnded(Blocks(segs).value)
  {
    var blocks := Blocks(segs).value;
    forall j | 0 <= j < |blocks|
      ensures |blocks[j]| > 0 && blocks[j][|blocks[j]| - 1] == '\n'
    {
      BlocksAt(segs, j);
      BlockEndsWithNewline(j + 1, segs[j]);
    }
  }

  /**
    Joining line-ended blocks with "\n": block `k` sits at its offset and is
    followed by the "\n" that leaves a blank line before the next block,
    unless it is the last, after which nothing follows.
  */
  lemma DocumentLayout(blocks: seq<string>, k: nat)
    requires k < |blocks| && LinesEnded(blocks)
    ensures var doc, o, b := Join(blocks), Offset(blocks, k), blocks[k];
      && o + |b| <= |doc| && doc[o..o + |b|] == b
      && |b| > 0 && doc[o + |b| - 1] == '\n'
      && (k + 1 < |blocks| ==> o + |b| < |doc| && doc[o + |b|] == '\n')
      && (k + 1 == |blocks| ==> |doc| == o + |b|)
  {
    JoinAt(blocks, k);
    var doc, o, b := Join(blocks), Offset(blocks, k), blocks[k];
    assert doc[o + |b| - 1] == doc[o..o + |b|][|b| - 1];
  }

  /**
    In the document of a valid transcript, the block of segment `k` is
    placed `k`-th, between "\n" separators, and opens with its index `k + 1`.
  */
  lemma WriteSrtBlock(segs: seq<Segment>, k: nat)
    requires k < |segs| && forall j :: 0 <= j < |segs| ==> ValidTimes(segs[j])
    ensures WriteSrt(segs).Success? && Blocks(segs).Success?
    ensures var doc, blocks := WriteSrt(segs).value, Blocks(segs).value;
      && k < |blocks| && doc == Join(blocks)
      && Block(k + 1, segs[k]) == Success(blocks[k])
      && Placed(blocks, k)
      && StartsWith(blocks[k], Show(k + 1) + "\n")
  {
    WriteSrtJoin(segs);
    BlocksAt(segs, k);
    BlockStartsWithIndex(segs, k);
    JoinAt(Blocks(segs).value, k);
  }

  /** A valid transcript's document is the join of its blocks. */
  lemma WriteSrtJoin(segs: seq<Segment>)
    requires forall j :: 0 <= j < |segs| ==> ValidTimes(segs[j])
    ensures Blocks(segs).Success? && WriteSrt(segs) == Success(Join(Blocks(segs).value))
  {
  }

  /** Block `k` of a valid transcript opens with the index line `k + 1`. */
  lemma BlockStartsWithIndex(segs: seq<Segment>, k: nat)
    requires k < |segs| && Blocks(segs).Success?
    ensures k < |Blocks(segs).value| && StartsWith(Blocks(segs).value[k], Show(k + 1) + "\n")
  {
    BlocksAt(segs, k);
    BlockIndex(k + 1, segs[k]);
  }

  /** A one-segment transcript is that segment's block, numbered 1. */
  lemma WriteSrtSingle(seg: Segment)
    requires ValidTimes(seg)
    ensures WriteSrt([seg]) == Success(Block(1, seg).value)
  {
    assert [seg][1..] == [];
    assert MapNumbered(Block, [seg][1..], 2) == Success([]);
  }

  lemma BlockOf(index: nat, seg: Segment, timing: string, text: string)
    requires TimingLine(seg) == Success(timing) && Sanitize(seg.text) == text
    ensures Block(index, seg) == Success(Show(index) + "\n" + timing + "\n" + text + "\n")
  {
  }

  lemma HelloTiming(seg: Segment)
    requires seg.start == 0.0 && seg.end == 1.5
    ensures TimingLine(seg) == Success("00:00:00,000 --> 00:00:01,500")
  {
    ZeroSeconds();
    OneAndAHalfSeconds();
    HelloTimingLiteral();
  }

  // HelloTimingLiteral and HelloBlockLiteral only state string-literal equalities,
  // kept apart so that the solver meets each concatenation on its own.
  lemma HelloTimingLiteral()
    ensures "00:00:00,000" + " --> " + "00:00:01,500" == "00:00:00,000 --> 00:00:01,500"
  {
  }

  lemma HelloBlockLiteral()
    ensures "1" + "\n" + "00:00:00,000 --> 00:00:01,500" + "\n" + "Hello world" + "\n"
      == "1\n00:00:00,000 --> 00:00:01,500\nHello world\n"
  {
    var front := "1\n00:00:00,000 --> 00:00:01,500\n";
    assert "1" + "\n" + "00:00:00,000 --> 00:00:01,500" + "\n" == front;
    assert front + "Hello world" + "\n" == "1\n00:00:00,000 --> 00:00:01,500\nHello world\n";
  }

  /** A single segment of 1.5 seconds whose text is padded with spaces. */
  lemma OneSegment()
    ensures WriteSrt([Segment(0.0, 1.5, " Hello world ")])
      == Success("1\n00:00:00,000 --> 00:00:01,500\nHello world\n")
  {
    var seg := Segment(0.0, 1.5, " Hello world ");
    var timing := "00:00:00,000 --> 00:00:01,500";
    HelloTiming(seg);
    SanitizeHello();
    assert Show(1) == "1";
    BlockOf(1, seg, timing, "Hello world");
    HelloBlockLiteral();
    WriteSrtSingle(seg);
  }
}
