/** Reading a bucket file (bucket.go:68-142): framing, batches of 1024, and what becomes of a torn tail. */
module Reader {
  import opened Prelude
  import opened Text
  import opened Entries
  import opened Codec

  // ---------- one frame ----------

  /** How the bytes after the last whole frame end. */
  datatype Tail =
    | Clean            // right after a frame
    | MissingPayload   // right after a length line
    | TornPayload      // inside a statement
    | TornLength       // inside a length line
    | BadLength        // after a line that is no number

  datatype Outcome =
    | EndOfFile
    | Read(payload: string, rest: string)
    | Skipped(rest: string)       // a length of zero or less announces no statement
    | Stopped(tail: Tail)

  function ReadFrame(b: string): (r: Outcome)
    ensures r.Read? || r.Skipped? ==> |r.rest| < |b|
  {
    if b == "" then EndOfFile
    else
      var i := LineEnd(b);
      if i == |b| then Stopped(TornLength)
      else
        var size, rest := ParseInt64(TrimSpace(b[..i + 1])), b[i + 1..];
        if size.None? then Stopped(BadLength)
        else if size.value <= 0 then Skipped(rest)
        else if rest == "" then Stopped(MissingPayload)
        else if |rest| < size.value then Stopped(TornPayload)
        else Read(rest[..size.value], rest[size.value..])
  }

  /** A frame is a line with a size and so many bytes; a size that is not positive has none. */
  lemma FrameMeaning(line: string, rest: string)
    requires '\n' !in line
    ensures var size := ParseInt64(TrimSpace(line + "\n"));
      ReadFrame(line + "\n" + rest) ==
        if size.None? then Stopped(BadLength)
        else if size.value <= 0 then Skipped(rest)
        else if rest == "" then Stopped(MissingPayload)
        else if size.value > |rest| then Stopped(TornPayload)
        else Read(rest[..size.value], rest[size.value..])
    ensures ReadFrame(line) == if line == "" then EndOfFile else Stopped(TornLength)
  {
    var b := line + "\n" + rest;
    LineEndOf(line, rest);
    assert b[..|line| + 1] == line + "\n" && b[|line| + 1..] == rest;
    LineEndNone(line);
    hide ParseInt64, TrimSpace;
  }

  /** The whole frames of a file; None for a frame without a statement. */
  function Frames(b: string): seq<Option<string>>
    decreases |b|
  {
    match ReadFrame(b)
    case Read(payload, rest) => [Some(payload)] + Frames(rest)
    case Skipped(rest) => [None] + Frames(rest)
    case _ => []
  }

  function TailOf(b: string): Tail
    decreases |b|
  {
    match ReadFrame(b)
    case EndOfFile => Clean
    case Read(_, rest) => TailOf(rest)
    case Skipped(rest) => TailOf(rest)
    case Stopped(tail) => tail
  }

  // ---------- what a load applies ----------

  /** The statements in full batches among the first `n`. */
  function FullBatches(n: nat): (m: nat)
    ensures m <= n < m + 1024 && m % 1024 == 0
  {
    n / 1024 * 1024
  }

  /** A load gives up at once inside a length line, before applying the batch in hand. */
  function Delivered(b: string): seq<Option<string>>
  {
    if TailOf(b).TornLength? || TailOf(b).BadLength? then Frames(b)[..FullBatches(|Frames(b)|)] else Frames(b)
  }

  datatype LoadError = ReadFailed | BadStatement(error: ParseError)

  /** The statements applied, in order, and the error the load ends with, if any. */
  datatype Loaded = Loaded(stmts: seq<Stmt>, error: Option<LoadError>)

  /** The statements of the frames that have one. */
  function Payloads(frames: seq<Option<string>>): seq<string>
  {
    if frames == [] then []
    else
      var last := frames[|frames| - 1];
      Payloads(frames[..|frames| - 1]) + if last.Some? then [last.value] else []
  }

  /** Parses statements up to the first that does not. */
  function ParseAll(fc: FloatCodec, json: Json, payloads: seq<string>): Loaded
  {
    if payloads == [] then Loaded([], None)
    else
      var sofar := ParseAll(fc, json, payloads[..|payloads| - 1]);
      if sofar.error.Some? then sofar
      else
        match Parse(fc, json, payloads[|payloads| - 1])
        case Failure(error) => Loaded(sofar.stmts, Some(BadStatement(error)))
        case Success(s) => Loaded(sofar.stmts + [s], None)
  }

  function Load(fc: FloatCodec, json: Json, b: string): Loaded
  {
    var parsed := ParseAll(fc, json, Payloads(Delivered(b)));
    if parsed.error.Some? || TailOf(b).Clean? || TailOf(b).MissingPayload? then parsed
    else Loaded(parsed.stmts, Some(ReadFailed))
  }

  // ---------- well-formed files ----------

  /** The statement survives a round trip: no '~', a float64 as tolerance, and a length that fits an int. */
  predicate Writable(fc: FloatCodec, s: Stmt)
  {
    TildeFree(s.e) && Printable(fc, s.e.opts) && |Payload(fc, s)| <= MAX_INT64
  }

  /** Reading a length line back. */
  lemma LengthLine(n: nat, rest: string)
    requires n <= MAX_INT64
    ensures var b := Itoa(n) + "\n" + rest;
      && LineEnd(b) == |Itoa(n)|
      && ParseInt64(TrimSpace(b[..|Itoa(n)| + 1])) == Some(n)
      && b[|Itoa(n)| + 1..] == rest
  {
    var digits := Itoa(n);
    ItoaRoundTrip(n);
    TrimSpaceFree(digits);
    LineEndOf(digits, rest);
    assert (digits + "\n" + rest)[..|digits| + 1] == digits + "\n";
  }

  lemma ReadFrameOf(payload: string, rest: string)
    requires 0 < |payload| <= MAX_INT64
    ensures ReadFrame(Frame(payload) + rest) == Read(payload, rest)
  {
    var digits := Itoa(|payload|);
    LengthLine(|payload|, payload + rest);
    var b := digits + "\n" + (payload + rest);
    assert Frame(payload) + rest == b;
    assert (payload + rest)[..|payload|] == payload && (payload + rest)[|payload|..] == rest;
  }

  function PayloadsOf(fc: FloatCodec, ss: seq<Stmt>): seq<string>
  {
    seq(|ss|, i requires 0 <= i < |ss| => Payload(fc, ss[i]))
  }

  /** Frames that all hold a statement. */
  function Whole(payloads: seq<string>): seq<Option<string>>
  {
    seq(|payloads|, i requires 0 <= i < |payloads| => Some(payloads[i]))
  }

  lemma {:induction false} PayloadsOfWhole(payloads: seq<string>)
    ensures Payloads(Whole(payloads)) == payloads
  {
    if payloads == [] {
    } else {
      var n := |payloads| - 1;
      PayloadsOfWhole(payloads[..n]);
      assert Whole(payloads)[..n] == Whole(payloads[..n]);
    }
  }

  function ReloadedAll(json: Json, ss: seq<Stmt>): seq<Stmt>
  {
    seq(|ss|, i requires 0 <= i < |ss| => ReloadedStmt(json, ss[i]))
  }

  ghost predicate AllWritable(fc: FloatCodec, ss: seq<Stmt>)
  {
    forall s :: s in ss ==> Writable(fc, s)
  }

  lemma {:induction false} EncodeAllConcat(fc: FloatCodec, a: seq<Stmt>, b: seq<Stmt>)
    ensures EncodeAll(fc, a + b) == EncodeAll(fc, a) + EncodeAll(fc, b)
  {
    hide Encode;
    if b == [] {
      assert a + b == a;
    } else {
      EncodeAllConcat(fc, a, b[..|b| - 1]);
      assert (a + b)[..|a + b| - 1] == a + b[..|b| - 1];
    }
  }

  lemma EncodeAllHead(fc: FloatCodec, ss: seq<Stmt>)
    requires ss != []
    ensures EncodeAll(fc, ss) == Encode(fc, ss[0]) + EncodeAll(fc, ss[1..])
  {
    EncodeAllConcat(fc, [ss[0]], ss[1..]);
    assert [ss[0]] + ss[1..] == ss && [ss[0]][..0] == [];
    assert EncodeAll(fc, [ss[0]]) == Encode(fc, ss[0]);
  }

  lemma FramesCons(payload: string, rest: string)
    requires 0 < |payload| <= MAX_INT64
    ensures Frames(Frame(payload) + rest) == [Some(payload)] + Frames(rest)
    ensures TailOf(Frame(payload) + rest) == TailOf(rest)
  {
    ReadFrameOf(payload, rest);
    hide ReadFrame, Frame;
  }

  lemma PayloadNotEmpty(fc: FloatCodec, s: Stmt)
    ensures |Payload(fc, s)| > 0
  {
  }

  /** The frames of written statements followed by any other bytes. */
  lemma {:induction false} FramesOf(fc: FloatCodec, ss: seq<Stmt>, tail: string)
    requires AllWritable(fc, ss)
    ensures Frames(EncodeAll(fc, ss) + tail) == Whole(PayloadsOf(fc, ss)) + Frames(tail)
    ensures TailOf(EncodeAll(fc, ss) + tail) == TailOf(tail)
  {
    hide Frames, TailOf, Payload, Frame;
    if ss == [] {
      assert EncodeAll(fc, ss) + tail == tail;
    } else {
      assert ss[0] in ss;
      EncodeAllHead(fc, ss);
      FramesOf(fc, ss[1..], tail);
      PayloadNotEmpty(fc, ss[0]);
      FramesCons(Payload(fc, ss[0]), EncodeAll(fc, ss[1..]) + tail);
      assert EncodeAll(fc, ss) + tail == Frame(Payload(fc, ss[0])) + (EncodeAll(fc, ss[1..]) + tail);
      assert Whole(PayloadsOf(fc, ss)) == [Some(Payload(fc, ss[0]))] + Whole(PayloadsOf(fc, ss[1..]));
    }
  }

  lemma WritableRoundTrip(fc: FloatCodec, json: Json, ss: seq<Stmt>, i: nat)
    requires fc.Faithful() && AllWritable(fc, ss) && i < |ss|
    ensures Parse(fc, json, Payload(fc, ss[i])) == Success(ReloadedStmt(json, ss[i]))
  {
    assert ss[i] in ss;
    StmtRoundTrip(fc, json, ss[i]);
  }

  lemma {:induction false} ParseAllOf(fc: FloatCodec, json: Json, ss: seq<Stmt>)
    requires fc.Faithful() && AllWritable(fc, ss)
    ensures ParseAll(fc, json, PayloadsOf(fc, ss)) == Loaded(ReloadedAll(json, ss), None)
  {
    hide Parse, Payload, ReloadedStmt, Writable;
    if ss == [] {
    } else {
      var n := |ss| - 1;
      WritableRoundTrip(fc, json, ss, n);
      ParseAllOf(fc, json, ss[..n]);
      assert PayloadsOf(fc, ss)[..n] == PayloadsOf(fc, ss[..n]);
      assert ReloadedAll(json, ss) == ReloadedAll(json, ss[..n]) + [ReloadedStmt(json, ss[n])];
    }
  }

  /** The log round trip: a file of written statements loads as those statements, without an error. */
  lemma LoadWritten(fc: FloatCodec, json: Json, ss: seq<Stmt>)
    requires fc.Faithful() && AllWritable(fc, ss)
    ensures Load(fc, json, EncodeAll(fc, ss)) == Loaded(ReloadedAll(json, ss), None)
  {
    var b := EncodeAll(fc, ss);
    FramesOf(fc, ss, "");
    ParseAllOf(fc, json, ss);
    PayloadsOfWhole(PayloadsOf(fc, ss));
    assert b + "" == b && Whole(PayloadsOf(fc, ss)) + [] == Whole(PayloadsOf(fc, ss));
  }

  // ---------- torn tails ----------

  /** The tail left by a cut through the next statement depends only on where the cut falls. */
  lemma TornFrame(payload: string, cut: nat)
    requires 0 < |payload| <= MAX_INT64 && cut < |Frame(payload)|
    ensures Frames(Frame(payload)[..cut]) == []
    ensures TailOf(Frame(payload)[..cut]) ==
      if cut == 0 then Clean
      else if cut <= |Itoa(|payload|)| then TornLength
      else if cut == |Itoa(|payload|)| + 1 then MissingPayload
      else TornPayload
  {
    var digits, b := Itoa(|payload|), Frame(payload)[..cut];
    ItoaRoundTrip(|payload|);
    if 0 < cut <= |digits| {
      assert b == digits[..cut];
      assert '\n' !in digits by { assert SpaceFree(digits) && IsSpace('\n'); }
      assert LineEnd(b) == |b|;
    } else if cut > |digits| {
      var rest := payload[..cut - |digits| - 1];
      LengthLine(|payload|, rest);
      assert b == digits + "\n" + rest;
    }
  }

  /** A file cut anywhere in its last statement: the N whole statements before it are all applied, unless the
      cut falls inside a length line, when only the full batches of 1024 are; the load reports no error exactly
      when the cut falls between frames or right after a length line. */
  lemma LoadTorn(fc: FloatCodec, json: Json, ss: seq<Stmt>, next: Stmt, cut: nat)
    requires fc.Faithful() && AllWritable(fc, ss) && Writable(fc, next)
    requires cut < |Encode(fc, next)|
    ensures var digits := |Itoa(|Payload(fc, next)|)|;
      Load(fc, json, EncodeAll(fc, ss) + Encode(fc, next)[..cut]) ==
        if cut == 0 || cut == digits + 1 then Loaded(ReloadedAll(json, ss), None)
        else if cut <= digits then Loaded(ReloadedAll(json, ss[..FullBatches(|ss|)]), Some(ReadFailed))
        else Loaded(ReloadedAll(json, ss), Some(ReadFailed))
  {
    hide Frames, TailOf, ParseAll, Payloads, EncodeAll, Payload, Itoa, FullBatches;
    var tail := Encode(fc, next)[..cut];
    var n := FullBatches(|ss|);
    PayloadNotEmpty(fc, next);
    FramesOf(fc, ss, tail);
    TornFrame(Payload(fc, next), cut);
    ParseAllOf(fc, json, ss);
    ParseAllOf(fc, json, ss[..n]);
    PayloadsOfWhole(PayloadsOf(fc, ss));
    PayloadsOfWhole(PayloadsOf(fc, ss[..n]));
    assert Whole(PayloadsOf(fc, ss)) + [] == Whole(PayloadsOf(fc, ss));
    assert Whole(PayloadsOf(fc, ss))[..n] == Whole(PayloadsOf(fc, ss[..n]));
  }

  // ---------- an overwritten head ----------

  /** The old file goes on in the middle of a statement: its first line is the rest of one and holds a '~'. */
  predicate InsideStatement(b: string)
  {
    LineEnd(b) < |b| && '~' in b[..LineEnd(b)]
  }

  lemma InsideStatementStops(b: string)
    requires InsideStatement(b)
    ensures Frames(b) == [] && TailOf(b) == BadLength
  {
    var line := b[..LineEnd(b) + 1];
    assert line == b[..LineEnd(b)] + "\n";
    NotANumber(line);
    hide LineEnd, ParseInt64, TrimSpace;
  }

  lemma {:induction false} PayloadsConcat(a: seq<Option<string>>, b: seq<Option<string>>)
    ensures Payloads(a + b) == Payloads(a) + Payloads(b)
  {
    if b == [] {
      assert a + b == a;
    } else {
      PayloadsConcat(a, b[..|b| - 1]);
      assert (a + b)[..|a + b| - 1] == a + b[..|b| - 1];
    }
  }

  /** Parsing goes on after the first statements only if they all parse. */
  lemma {:induction false} ParseAllConcat(fc: FloatCodec, json: Json, a: seq<string>, b: seq<string>)
    ensures var first, second := ParseAll(fc, json, a), ParseAll(fc, json, b);
      ParseAll(fc, json, a + b) ==
        if first.error.Some? then first else Loaded(first.stmts + second.stmts, second.error)
  {
    hide Parse;
    if b == [] {
      assert a + b == a;
      assert ParseAll(fc, json, a).stmts + [] == ParseAll(fc, json, a).stmts;
    } else {
      var n := |b| - 1;
      ParseAllConcat(fc, json, a, b[..n]);
      assert (a + b)[..|a + b| - 1] == a + b[..n] && (a + b)[|a + b| - 1] == b[n];
      var x, y := ParseAll(fc, json, a).stmts, ParseAll(fc, json, b[..n]).stmts;
      assert forall s :: x + (y + [s]) == x + y + [s];
    }
  }

  /** Written statements with other bytes behind them load without an error exactly when the other bytes do, and
      then as the statements of both. If the other bytes begin inside a statement, only full batches of the
      written statements are applied. */
  lemma LoadWithTail(fc: FloatCodec, json: Json, ss: seq<Stmt>, tail: string)
    requires fc.Faithful() && AllWritable(fc, ss)
    ensures var l, r := Load(fc, json, EncodeAll(fc, ss) + tail), Load(fc, json, tail);
      && (l.error.None? <==> r.error.None?)
      && (r.error.None? ==> l.stmts == ReloadedAll(json, ss) + r.stmts)
    ensures InsideStatement(tail) ==>
      Load(fc, json, EncodeAll(fc, ss) + tail) ==
        Loaded(ReloadedAll(json, ss[..FullBatches(|ss|)]), Some(ReadFailed))
  {
    hide Frames, TailOf, ParseAll, Payloads, EncodeAll, FullBatches, InsideStatement;
    var whole := Whole(PayloadsOf(fc, ss));
    FramesOf(fc, ss, tail);
    PayloadsOfWhole(PayloadsOf(fc, ss));
    ParseAllOf(fc, json, ss);
    PayloadsConcat(whole, Frames(tail));
    ParseAllConcat(fc, json, PayloadsOf(fc, ss), Payloads(Frames(tail)));
    if InsideStatement(tail) {
      var n := FullBatches(|ss|);
      InsideStatementStops(tail);
      ParseAllOf(fc, json, ss[..n]);
      PayloadsOfWhole(PayloadsOf(fc, ss[..n]));
      assert (whole + [])[..n] == Whole(PayloadsOf(fc, ss[..n]));
    }
  }

  // ---------- reading in batches ----------

  /** What one read says about the frames from here on. */
  lemma FrameStep(b: string)
    ensures match ReadFrame(b)
      case EndOfFile => Frames(b) == [] && TailOf(b) == Clean
      case Stopped(tail) => Frames(b) == [] && TailOf(b) == tail
      case Skipped(rest) => Frames(b) == [None] + Frames(rest) && TailOf(b) == TailOf(rest) && |rest| < |b|
      case Read(payload, rest) =>
        Frames(b) == [Some(payload)] + Frames(rest) && TailOf(b) == TailOf(rest) && |rest| < |b|
  {
    hide ReadFrame;
  }

  /** Moving a frame from what is left to what was read. */
  lemma FrameMoved(frames: seq<Option<string>>, frame: Option<string>, rest: seq<Option<string>>)
    ensures frames + ([frame] + rest) == frames + [frame] + rest
    ensures Payloads(frames + [frame]) == Payloads(frames) + if frame.Some? then [frame.value] else []
  {
    assert (frames + [frame])[..|frames|] == frames;
  }

  /** Up to 1024 frames, and how the file ends if it ends among them; `entries` are the statements read. */
  method ReadBatch(b: string)
    returns (entries: seq<string>, rest: string, end: Option<Tail>, ghost frames: seq<Option<string>>)
    ensures entries == Payloads(frames) && |rest| <= |b|
    ensures Frames(b) == frames + Frames(rest) && TailOf(b) == TailOf(rest)
    ensures end.None? ==> |frames| == 1024 && |rest| < |b|
    ensures end.Some? ==> |frames| < 1024 && Frames(rest) == [] && TailOf(rest) == end.value
  {
    entries, rest, frames := [], b, [];
    assert Payloads([]) == [] && [] + Frames(b) == Frames(b);
    hide Frames, TailOf, ReadFrame, Payloads;
    for i := 0 to 1024
      invariant |frames| == i && entries == Payloads(frames)
      invariant |rest| <= |b| && (i > 0 ==> |rest| < |b|)
      invariant Frames(b) == frames + Frames(rest) && TailOf(b) == TailOf(rest)
    {
      FrameStep(rest);
      match ReadFrame(rest)
      case EndOfFile => return entries, rest, Some(Clean), frames;
      case Stopped(tail) => return entries, rest, Some(tail), frames;
      case Skipped(more) =>
        FrameMoved(frames, None, Frames(more));
        frames, rest := frames + [None], more;
      case Read(payload, more) =>
        FrameMoved(frames, Some(payload), Frames(more));
        frames, rest, entries := frames + [Some(payload)], more, entries + [payload];
    }
    end := None;
  }

  /** Whole batches read so far are delivered, and the last batch too unless it ends inside a length line. */
  lemma DeliveredByBatch(b: string, done: seq<Option<string>>, batch: seq<Option<string>>, rest: string)
    requires Frames(b) == done + batch + Frames(rest) && TailOf(b) == TailOf(rest)
    requires |done| % 1024 == 0 && |batch| <= 1024
    ensures Frames(rest) == [] && |batch| < 1024 ==>
      Delivered(b) == if TailOf(rest).TornLength? || TailOf(rest).BadLength? then done else done + batch
    ensures |batch| == 1024 ==> exists more :: Delivered(b) == done + batch + more
  {
    var frames := Frames(b);
    hide Frames, TailOf;
    if |batch| == 1024 {
      var n := if TailOf(rest).TornLength? || TailOf(rest).BadLength? then FullBatches(|frames|) else |frames|;
      assert |done + batch| % 1024 == 0 && |done + batch| <= |frames|;
      assert |done + batch| <= n;
      assert Delivered(b) == done + batch + frames[|done + batch|..n];
    } else if Frames(rest) == [] {
      assert frames == done + batch && frames[..|done|] == done;
      assert FullBatches(|frames|) == |done|;
    }
  }
}
