/** The log of buckets (db.go, bucket_options.go, bucket.go:524-551): CREATE and DROP lines of which the last
    for a name counts, rewritten now and then by the manager. */
module Catalogue {
  import opened Prelude
  import opened Text

  datatype BucketOptions = BucketOptions(
    system: bool,
    btdeg: Int64,
    geo: bool,
    georincl: bool,
    time: bool,
    dims: Int64)

  // ---------- lines ----------

  /** bucketOptionsCreateStmt, field by field. */
  function OptionFields(o: BucketOptions): seq<string>
  {
    [ Itoa(o.btdeg),
      Itoa(BoolToInt(o.system)),
      Itoa(BoolToInt(o.geo)),
      Itoa(BoolToInt(o.georincl)),
      Itoa(BoolToInt(o.time)),
      Itoa(o.dims) ]
  }

  function CreateLine(name: string, o: BucketOptions): string
  {
    "CREATE:" + name + ":" + Join(OptionFields(o), ':')
  }

  function DropLine(name: string): string
  {
    "DROP:" + name
  }

  lemma JoinSix(f: seq<string>)
    requires |f| == 6
    ensures Join(f, ':') == f[0] + ":" + f[1] + ":" + f[2] + ":" + f[3] + ":" + f[4] + ":" + f[5]
  {
    assert f[1..][1..] == f[2..] && f[2..][1..] == f[3..] && f[3..][1..] == f[4..] && f[4..][1..] == f[5..];
    assert Join(f[4..], ':') == f[4] + ":" + f[5];
    assert Join(f[3..], ':') == f[3] + ":" + Join(f[4..], ':');
    assert Join(f[2..], ':') == f[2] + ":" + Join(f[3..], ':');
    assert Join(f[1..], ':') == f[1] + ":" + Join(f[2..], ':');
  }

  lemma FieldsMeaning(o: BucketOptions)
    ensures var f := OptionFields(o);
      && |f| == 6 && f[0] == Itoa(o.btdeg) && f[5] == Itoa(o.dims)
      && f[1] == (if o.system then "1" else "0") && f[2] == (if o.geo then "1" else "0")
      && f[3] == (if o.georincl then "1" else "0") && f[4] == (if o.time then "1" else "0")
  {
    assert Itoa(0) == "0" && Itoa(1) == "1";
    hide Itoa;
  }

  /** The bytes of a create line: the name, the degree, four flags and the dimensions. */
  lemma CreateLineMeaning(name: string, o: BucketOptions)
    ensures CreateLine(name, o) == "CREATE:" + name + ":" + (
      Itoa(o.btdeg) + ":" + (if o.system then "1" else "0") + ":" + (if o.geo then "1" else "0") + ":" +
      (if o.georincl then "1" else "0") + ":" + (if o.time then "1" else "0") + ":" + Itoa(o.dims))
  {
    var f := OptionFields(o);
    FieldsMeaning(o);
    hide OptionFields, Itoa;
    JoinSix(f);
    hide Join;
  }

  /** NewBucketOptionsFromStmt on the parts after CREATE: the name and six fields. */
  function ParseOptions(parts: seq<string>): Option<BucketOptions>
  {
    if |parts| != 7 then None
    else
      var btdeg, dims := ParseInt64(parts[1]), ParseInt64(parts[6]);
      var system, geo, georincl, time :=
        ParseBool(parts[2]), ParseBool(parts[3]), ParseBool(parts[4]), ParseBool(parts[5]);
      if btdeg.Some? && system.Some? && geo.Some? && georincl.Some? && time.Some? && dims.Some?
      then Some(BucketOptions(system.value, btdeg.value, geo.value, georincl.value, time.value, dims.value))
      else None
  }

  /** A line's bucket, and the remaining parts unless it drops the bucket. */
  datatype Line = Line(name: string, detail: Option<seq<string>>)

  function ParseLine(line: string): Option<Line>
  {
    var parts := Split(line, ':');
    if |parts| == 8 && parts[0] == "CREATE" then Some(Line(TrimSpace(parts[1]), Some(parts[1..])))
    else if |parts| == 2 && parts[0] == "DROP" then Some(Line(TrimSpace(parts[1]), None))
    else None
  }

  /** Two kinds of lines are recognized, by their first part and their number of parts. */
  lemma ParseLineMeaning(line: string)
    ensures var parts := Split(line, ':');
      && (ParseLine(line).Some? <==>
            (|parts| == 8 && parts[0] == "CREATE") || (|parts| == 2 && parts[0] == "DROP"))
      && (ParseLine(line).Some? ==>
            && ParseLine(line).value.name == TrimSpace(parts[1])
            && (ParseLine(line).value.detail.Some? <==> |parts| == 8))
  {
    hide Split, TrimSpace;
  }

  // ---------- reading the file ----------

  /** bufio.ScanLines drops a carriage return before the newline. */
  function DropCR(line: string): string
  {
    if line != "" && line[|line| - 1] == '\r' then line[..|line| - 1] else line
  }

  /** The longest line a bufio.Scanner takes. */
  const MAX_LINE: nat := 65535

  /** The lines of a file, unless one is too long for the scanner. */
  function ScanLines(b: string): (lines: Option<seq<string>>)
    ensures lines.Some? ==> forall l :: l in lines.value ==> '\n' !in l
    decreases |b|
  {
    if b == "" then Some([])
    else
      var i := LineEnd(b);
      if i > MAX_LINE then None
      else
        var rest := ScanLines(if i < |b| then b[i + 1..] else "");
        if rest.None? then None else Some([DropCR(b[..i])] + rest.value)
  }

  /** The last line of each name, unless some line does not parse. */
  function LastLines(lines: seq<string>): Option<map<string, Option<seq<string>>>>
  {
    if lines == [] then Some(map[])
    else
      var m, line := LastLines(lines[..|lines| - 1]), ParseLine(lines[|lines| - 1]);
      if m.None? || line.None? then None else Some(m.value[line.value.name := line.value.detail])
  }

  lemma {:induction false} LineParses(lines: seq<string>, i: nat)
    requires LastLines(lines).Some? && i < |lines|
    ensures ParseLine(lines[i]).Some?
  {
    hide ParseLine;
    if i == |lines| - 1 {
    } else {
      LineParses(lines[..|lines| - 1], i);
    }
  }

  /** Of the lines for a name the last one counts; a name without a line has none. */
  lemma {:induction false} LastLinesMeaning(lines: seq<string>, i: nat, k: string)
    requires LastLines(lines).Some? && i < |lines|
    ensures ParseLine(lines[i]).Some?
    ensures var line := ParseLine(lines[i]).value;
      (forall j :: i < j < |lines| && ParseLine(lines[j]).Some? ==> ParseLine(lines[j]).value.name != line.name) ==>
        line.name in LastLines(lines).value && LastLines(lines).value[line.name] == line.detail
    ensures (forall j :: 0 <= j < |lines| && ParseLine(lines[j]).Some? ==> ParseLine(lines[j]).value.name != k) ==>
      k !in LastLines(lines).value
  {
    hide ParseLine;
    LineParses(lines, i);
    var init, last := lines[..|lines| - 1], lines[|lines| - 1];
    LineParses(lines, |lines| - 1);
    if |lines| == 1 {
      assert LastLines([]) == Some(map[]) && init == [];
    } else if i == |lines| - 1 {
      LastLinesMeaning(init, 0, k);
    } else {
      LastLinesMeaning(init, i, k);
    }
  }

  predicate Parseable(m: map<string, Option<seq<string>>>)
  {
    forall k :: k in m && m[k].Some? ==> ParseOptions(m[k].value).Some?
  }

  /** The buckets opened for these lines. */
  function OpenedBuckets(m: map<string, Option<seq<string>>>): map<string, BucketOptions>
    requires Parseable(m)
  {
    map k | k in m && m[k].Some? :: ParseOptions(m[k].value).value
  }

  /** The buckets Open finds in a file, unless it fails. */
  function Recover(b: string): Option<map<string, BucketOptions>>
  {
    var lines := ScanLines(b);
    if lines.None? then None
    else
      var m := LastLines(lines.value);
      if m.None? || !Parseable(m.value) then None else Some(OpenedBuckets(m.value))
  }

  // ---------- the steps ----------

  datatype Cat = Cat(buckets: map<string, BucketOptions>, file: string, rc: nat)

  /** getBucket finds something, if only a system bucket. */
  predicate Found(buckets: map<string, BucketOptions>, name: string)
  {
    name == "_sys" || name == "_sysperf" || TrimSpace(name) in buckets
  }

  function Append(cat: Cat, line: string): Cat
  {
    cat.(file := cat.file + line + "\n", rc := cat.rc + 1)
  }

  function Created(cat: Cat, name: string, o: BucketOptions): Cat
  {
    if Found(cat.buckets, name) then cat
    else
      var n := TrimSpace(name);
      Append(cat.(buckets := cat.buckets[n := o]), CreateLine(n, o))
  }

  function Dropped(cat: Cat, name: string): Cat
  {
    var n := TrimSpace(name);
    if !Found(cat.buckets, n) then cat
    else Append(cat.(buckets := cat.buckets - {n}), DropLine(n))
  }

  function CreateLines(buckets: map<string, BucketOptions>, order: seq<string>): seq<string>
    requires forall k :: k in order ==> k in buckets
  {
    seq(|order|, i requires 0 <= i < |order| => CreateLine(order[i], buckets[order[i]]))
  }

  function FileOf(lines: seq<string>): string
  {
    if lines == [] then "" else FileOf(lines[..|lines| - 1]) + lines[|lines| - 1] + "\n"
  }

  /** The rewrite is due while there are few lines for the number of buckets. */
  predicate RewriteDue(cat: Cat, limit: int)
  {
    |cat.buckets| * limit > cat.rc
  }

  function Rewritten(cat: Cat, order: seq<string>): Cat
    requires forall k :: k in order ==> k in cat.buckets
  {
    Cat(cat.buckets, FileOf(CreateLines(cat.buckets, order)), |cat.buckets|)
  }

  // ---------- a line reads back ----------

  /** A name that survives in a line. */
  predicate PlainName(n: string)
  {
    ':' !in n && '\n' !in n && TrimSpace(n) == n
  }

  lemma ParseSevenParts(parts: seq<string>, o: BucketOptions)
    requires |parts| == 7 && ParseInt64(parts[1]) == Some(o.btdeg) && ParseInt64(parts[6]) == Some(o.dims)
    requires ParseBool(parts[2]) == Some(o.system) && ParseBool(parts[3]) == Some(o.geo)
    requires ParseBool(parts[4]) == Some(o.georincl) && ParseBool(parts[5]) == Some(o.time)
    ensures ParseOptions(parts) == Some(o)
  {
    hide ParseInt64, ParseBool;
  }

  lemma OptionFieldsParse(n: string, o: BucketOptions)
    ensures |OptionFields(o)| == 6 && ParseOptions([n] + OptionFields(o)) == Some(o)
  {
    ItoaRoundTrip(o.btdeg);
    ItoaRoundTrip(o.dims);
    BoolRoundTrip(o.system);
    BoolRoundTrip(o.geo);
    BoolRoundTrip(o.georincl);
    BoolRoundTrip(o.time);
    hide Itoa, ParseInt64, ParseBool, BoolToInt, SpaceFree, ParseOptions;
    var parts, f := [n] + OptionFields(o), OptionFields(o);
    assert |f| == 6 && f[0] == Itoa(o.btdeg) && f[5] == Itoa(o.dims);
    assert f[1] == Itoa(BoolToInt(o.system)) && f[2] == Itoa(BoolToInt(o.geo));
    assert f[3] == Itoa(BoolToInt(o.georincl)) && f[4] == Itoa(BoolToInt(o.time));
    hide OptionFields;
    assert forall i :: 0 <= i < 6 ==> parts[i + 1] == f[i];
    ParseSevenParts(parts, o);
  }

  predicate PlainField(f: string)
  {
    ':' !in f && SpaceFree(f) && f != ""
  }

  lemma ItoaPlain(n: Int64)
    ensures PlainField(Itoa(n))
  {
    ItoaRoundTrip(n);
  }

  lemma OptionFieldsPlain(o: BucketOptions)
    ensures |OptionFields(o)| == 6 && forall i :: 0 <= i < 6 ==> PlainField(OptionFields(o)[i])
  {
    ItoaPlain(o.btdeg);
    ItoaPlain(BoolToInt(o.system));
    ItoaPlain(BoolToInt(o.geo));
    ItoaPlain(BoolToInt(o.georincl));
    ItoaPlain(BoolToInt(o.time));
    ItoaPlain(o.dims);
    hide Itoa, BoolToInt, PlainField;
  }

  lemma CreateLineParses(n: string, o: BucketOptions)
    requires PlainName(n)
    ensures var line := ParseLine(CreateLine(n, o));
      line.Some? && line.value.name == n && line.value.detail.Some? && ParseOptions(line.value.detail.value) == Some(o)
  {
    var f := OptionFields(o);
    OptionFieldsParse(n, o);
    OptionFieldsPlain(o);
    hide OptionFields, ParseOptions, Join;
    SplitJoin(f, ':');
    SplitFirst(n, ':', Join(f, ':'));
    SplitFirst("CREATE", ':', n + ":" + Join(f, ':'));
    hide Split;
    assert CreateLine(n, o) == "CREATE" + ":" + (n + ":" + Join(f, ':'));
    assert (["CREATE"] + ([n] + f))[1..] == [n] + f;
  }

  lemma DropLineParses(n: string)
    requires PlainName(n)
    ensures ParseLine(DropLine(n)) == Some(Line(n, None))
  {
    SplitPiece(n, ':');
    SplitFirst("DROP", ':', n);
    assert DropLine(n) == "DROP" + ":" + n;
  }

  // ---------- a file reads back ----------

  /** A line the scanner returns as it is. */
  predicate PlainLine(l: string)
  {
    '\n' !in l && |l| <= MAX_LINE && DropCR(l) == l
  }

  /** The lines in front of what the rest of a file scans to. */
  function Prepend(lines: seq<string>, rest: Option<seq<string>>): Option<seq<string>>
  {
    if rest.None? then None else Some(lines + rest.value)
  }

  lemma PrependTwice(a: seq<string>, b: seq<string>, rest: Option<seq<string>>)
    ensures Prepend(a, Prepend(b, rest)) == Prepend(a + b, rest) && Prepend([], rest) == rest
  {
    if rest.Some? {
      assert a + (b + rest.value) == a + b + rest.value && [] + rest.value == rest.value;
    }
  }

  lemma ScanOneLine(l: string, tail: string)
    requires PlainLine(l)
    ensures ScanLines(l + "\n" + tail) == Prepend([l], ScanLines(tail))
  {
    var b := l + "\n" + tail;
    LineEndOf(l, tail);
    assert b[..|l|] == l && b[|l| + 1..] == tail;
  }

  /** A carriage return in front of the newline goes too. */
  lemma ScanCarriageReturn(l: string, tail: string)
    requires '\n' !in l && |l| <= 65534
    ensures ScanLines(l + "\r" + "\n" + tail) == Prepend([l], ScanLines(tail))
  {
    var m := l + "\r";
    LineEndOf(m, tail);
    assert (m + "\n" + tail)[..|m|] == m && (m + "\n" + tail)[|m| + 1..] == tail;
    assert m[..|m| - 1] == l;
  }

  /** The last line needs no newline. */
  lemma ScanLastLine(l: string)
    requires '\n' !in l && 0 < |l| <= 65535 && l[|l| - 1] != '\r'
    ensures ScanLines(l) == Some([l])
  {
    LineEndNone(l);
    assert l[..|l|] == l && ScanLines("") == Some([]) && [l] + [] == [l];
  }

  lemma {:induction false} ScanFile(lines: seq<string>, tail: string)
    requires forall l :: l in lines ==> PlainLine(l)
    ensures ScanLines(FileOf(lines) + tail) == Prepend(lines, ScanLines(tail))
  {
    hide ScanLines, PlainLine, Prepend;
    if lines == [] {
      PrependTwice([], [], ScanLines(tail));
      assert FileOf(lines) + tail == tail;
    } else {
      var init, l := lines[..|lines| - 1], lines[|lines| - 1];
      assert l in lines && lines == init + [l];
      ScanFile(init, l + "\n" + tail);
      ScanOneLine(l, tail);
      PrependTwice(init, [l], ScanLines(tail));
      assert FileOf(lines) + tail == FileOf(init) + (l + "\n" + tail);
    }
  }

  lemma ScanLongLine(l: string, tail: string)
    requires '\n' !in l && |l| > MAX_LINE
    ensures ScanLines(l + "\n" + tail) == None
  {
    LineEndOf(l, tail);
  }

  /** A name and options whose line reads back. */
  predicate Fits(n: string, o: BucketOptions)
  {
    PlainName(n) && |CreateLine(n, o)| <= MAX_LINE
  }

  lemma CreateLineChars(n: string, o: BucketOptions)
    ensures '\n' in CreateLine(n, o) ==> '\n' in n
    ensures DropCR(CreateLine(n, o)) == CreateLine(n, o)
    ensures |CreateLine(n, o)| > |DropLine(n)|
  {
    var f := OptionFields(o);
    OptionFieldsPlain(o);
    assert IsSpace('\n') && IsSpace('\r') && |f| == 6;
    hide OptionFields, Join, IsSpace;
    JoinChars(f, ':');
    assert f[5][|f[5]| - 1] in f[5];
    var j := Join(f, ':');
    assert '\n' !in j;
    assert CreateLine(n, o)[|CreateLine(n, o)| - 1] == j[|j| - 1];
  }

  lemma DropLineChars(n: string)
    requires PlainName(n)
    ensures '\n' !in DropLine(n) && DropCR(DropLine(n)) == DropLine(n)
  {
    TrimSpaceTwice(n);
  }

  // ---------- what every step keeps ----------

  /** The file consists of plain lines, as many as counted, from which Open recovers exactly the open buckets. */
  ghost predicate InvWith(cat: Cat, lines: seq<string>)
  {
    && cat.file == FileOf(lines) && cat.rc == |lines|
    && (forall l :: l in lines ==> PlainLine(l))
    && (forall k :: k in cat.buckets ==> Fits(k, cat.buckets[k]))
    && LastLines(lines).Some? && Parseable(LastLines(lines).value)
    && OpenedBuckets(LastLines(lines).value) == cat.buckets
  }

  ghost predicate Inv(cat: Cat)
  {
    exists lines :: InvWith(cat, lines)
  }

  /** Under the invariant Open recovers the open buckets, and as many lines as are counted. */
  lemma InvRecovers(cat: Cat)
    requires Inv(cat)
    ensures Recover(cat.file) == Some(cat.buckets)
    ensures ScanLines(cat.file).Some? && |ScanLines(cat.file).value| == cat.rc
  {
    var lines :| InvWith(cat, lines);
    ScanFile(lines, "");
    PrependTwice(lines, [], Some([]));
    assert FileOf(lines) + "" == FileOf(lines) && lines + [] == lines;
  }

  lemma LinesSnoc(lines: seq<string>, line: string)
    ensures FileOf(lines + [line]) == FileOf(lines) + line + "\n"
    ensures LastLines(lines).Some? && ParseLine(line).Some? ==>
      var parsed := ParseLine(line).value;
      LastLines(lines + [line]) == Some(LastLines(lines).value[parsed.name := parsed.detail])
  {
    hide ParseLine;
    assert (lines + [line])[..|lines + [line]| - 1] == lines;
  }

  lemma OpenedSnoc(m: map<string, Option<seq<string>>>, parsed: Line)
    requires Parseable(m) && (parsed.detail.Some? ==> ParseOptions(parsed.detail.value).Some?)
    ensures Parseable(m[parsed.name := parsed.detail])
    ensures OpenedBuckets(m[parsed.name := parsed.detail]) ==
      if parsed.detail.Some? then OpenedBuckets(m)[parsed.name := ParseOptions(parsed.detail.value).value]
      else OpenedBuckets(m) - {parsed.name}
  {
    hide ParseOptions;
  }

  lemma InvOf(cat: Cat, lines: seq<string>)
    requires cat.file == FileOf(lines) && cat.rc == |lines| && forall l :: l in lines ==> PlainLine(l)
    requires forall k :: k in cat.buckets ==> Fits(k, cat.buckets[k])
    requires LastLines(lines).Some? && Parseable(LastLines(lines).value)
    requires OpenedBuckets(LastLines(lines).value) == cat.buckets
    ensures Inv(cat)
  {
    hide FileOf, PlainLine, Fits, LastLines, Parseable, OpenedBuckets;
    assert InvWith(cat, lines);
  }

  lemma AppendInv(cat: Cat, lines: seq<string>, line: string, parsed: Line, buckets: map<string, BucketOptions>)
    requires InvWith(cat, lines) && PlainLine(line) && ParseLine(line) == Some(parsed)
    requires parsed.detail.Some? ==> ParseOptions(parsed.detail.value).Some?
    requires forall k :: k in buckets ==> Fits(k, buckets[k])
    requires buckets == if parsed.detail.Some?
      then cat.buckets[parsed.name := ParseOptions(parsed.detail.value).value] else cat.buckets - {parsed.name}
    ensures Inv(Append(cat.(buckets := buckets), line))
  {
    hide ParseLine, ParseOptions, Fits, PlainLine;
    var lines' := lines + [line];
    LinesSnoc(lines, line);
    hide LastLines, FileOf;
    OpenedSnoc(LastLines(lines).value, parsed);
    hide Parseable, OpenedBuckets;
    InvOf(Append(cat.(buckets := buckets), line), lines');
  }

  lemma {:induction false} JoinHolds(parts: seq<string>, sep: char, i: nat, c: char)
    requires i < |parts| && c in parts[i]
    ensures c in Join(parts, sep)
  {
    if i == 0 {
    } else {
      JoinHolds(parts[1..], sep, i - 1, c);
    }
  }

  lemma ParsedNamePlain(line: string)
    requires ParseLine(line).Some? && '\n' !in line
    ensures PlainName(ParseLine(line).value.name)
  {
    var parts := Split(line, ':');
    assert parts[1] in parts;
    TrimSpaceTwice(parts[1]);
    if '\n' in parts[1] {
      JoinHolds(parts, ':', 1, '\n');
    }
  }

  /** Every name Open can come up with is plain. */
  lemma {:induction false} LastLinesNames(lines: seq<string>)
    requires LastLines(lines).Some? && forall l :: l in lines ==> '\n' !in l
    ensures forall k :: k in LastLines(lines).value ==> PlainName(k)
  {
    if lines == [] {
    } else {
      var line := lines[|lines| - 1];
      assert line in lines;
      LastLinesNames(lines[..|lines| - 1]);
      ParsedNamePlain(line);
    }
  }

  lemma CreateInv(cat: Cat, n: string, o: BucketOptions)
    requires Inv(cat) && Fits(n, o)
    ensures Inv(Append(cat.(buckets := cat.buckets[n := o]), CreateLine(n, o)))
  {
    var lines :| InvWith(cat, lines);
    CreateLineChars(n, o);
    CreateLineParses(n, o);
    AppendInv(cat, lines, CreateLine(n, o), ParseLine(CreateLine(n, o)).value, cat.buckets[n := o]);
  }

  /** Open cannot find a bucket whose name is not plain, and finds nothing after a line that is too long. */
  lemma UnfitNotRecovered(cat: Cat, n: string, o: BucketOptions)
    requires Inv(cat) && !Fits(n, o) && TrimSpace(n) == n
    ensures var r := Recover(Append(cat, CreateLine(n, o)).file); r.None? || n !in r.value
  {
    var line := CreateLine(n, o);
    var file := Append(cat, line).file;
    var lines :| InvWith(cat, lines);
    CreateLineChars(n, o);
    hide CreateLine;
    if PlainName(n) {
      ScanFile(lines, line + "\n");
      ScanLongLine(line, "");
      hide ScanLines, InvWith;
      assert file == FileOf(lines) + (line + "\n") && line + "\n" + "" == line + "\n";
    } else if Recover(file).Some? {
      LastLinesNames(ScanLines(file).value);
    }
  }

  /** Creating a new bucket leaves a file that recovers exactly the open buckets precisely when its name is free
      of ':' and newlines and its line is not too long for the scanner. */
  lemma CreateRecovers(cat: Cat, name: string, o: BucketOptions)
    requires Inv(cat) && !Found(cat.buckets, name)
    ensures Recover(Created(cat, name, o).file) == Some(Created(cat, name, o).buckets) <==> Fits(TrimSpace(name), o)
    ensures var n := TrimSpace(name);
      Recover(Created(cat, name, o).file) == Some(cat.buckets[n := o]) <==>
      ':' !in n && '\n' !in n && |CreateLine(n, o)| <= 65535
    ensures Fits(TrimSpace(name), o) ==> Inv(Created(cat, name, o))
  {
    var n := TrimSpace(name);
    TrimSpaceTwice(name);
    assert Fits(n, o) <==> ':' !in n && '\n' !in n && |CreateLine(n, o)| <= 65535;
    hide Fits, Inv, Recover, CreateLine, TrimSpace;
    if Fits(n, o) {
      CreateInv(cat, n, o);
      InvRecovers(Created(cat, name, o));
    } else {
      UnfitNotRecovered(cat, n, o);
    }
  }

  lemma ReservedNames()
    ensures PlainName("_sys") && |DropLine("_sys")| <= MAX_LINE
    ensures PlainName("_sysperf") && |DropLine("_sysperf")| <= MAX_LINE
  {
    assert !IsSpace('_') && !IsSpace('s') && !IsSpace('f');
  }

  lemma DropKeepsInv(cat: Cat, name: string)
    requires Inv(cat)
    ensures Inv(Dropped(cat, name))
  {
    var n := TrimSpace(name);
    if Found(cat.buckets, n) {
      var lines :| InvWith(cat, lines);
      TrimSpaceTwice(name);
      ReservedNames();
      DropLineChars(n);
      if n in cat.buckets {
        CreateLineChars(n, cat.buckets[n]);
      }
      hide CreateLine;
      DropLineParses(n);
      AppendInv(cat, lines, DropLine(n), Line(n, None), cat.buckets - {n});
    }
  }

  /** Dropping a bucket always keeps the file in step: one line longer, it recovers all buckets but this one. */
  lemma DropRecovers(cat: Cat, name: string)
    requires Inv(cat)
    ensures Inv(Dropped(cat, name))
    ensures var n, dropped := TrimSpace(name), Dropped(cat, name);
      if n == "_sys" || n == "_sysperf" || n in cat.buckets
      then Recover(dropped.file) == Some(cat.buckets - {n}) && dropped.rc == cat.rc + 1
      else dropped == cat
  {
    DropKeepsInv(cat, name);
    InvRecovers(Dropped(cat, name));
    TrimSpaceTwice(name);
    hide Inv, Recover, TrimSpace;
  }

  /** The line parses to this bucket. */
  predicate ParsesTo(line: string, n: string, o: BucketOptions)
  {
    var p := ParseLine(line);
    p.Some? && p.value.name == n && p.value.detail.Some? && ParseOptions(p.value.detail.value) == Some(o)
  }

  lemma FittingLineParses(n: string, o: BucketOptions)
    requires Fits(n, o)
    ensures ParsesTo(CreateLine(n, o), n, o)
  {
    CreateLineParses(n, o);
  }

  /** The last lines of a rewrite are its lines, one a bucket. */
  lemma {:induction false} RewriteLines(buckets: map<string, BucketOptions>, order: seq<string>)
    requires forall k :: k in order ==> k in buckets
    requires forall k :: k in buckets ==> Fits(k, buckets[k])
    ensures var m := LastLines(CreateLines(buckets, order));
      && m.Some?
      && (forall k :: k in m.value <==> k in order)
      && forall k :: k in order ==> m.value[k].Some? && ParseOptions(m.value[k].value) == Some(buckets[k])
  {
    hide Fits, CreateLine, ParseLine, ParseOptions;
    if order == [] {
    } else {
      var init, last := order[..|order| - 1], order[|order| - 1];
      assert order == init + [last];
      RewriteLines(buckets, init);
      FittingLineParses(last, buckets[last]);
      var lines := CreateLines(buckets, order);
      assert lines[..|lines| - 1] == CreateLines(buckets, init);
    }
  }

  lemma FitsIsPlain(n: string, o: BucketOptions)
    ensures Fits(n, o) ==> PlainName(n) && PlainLine(CreateLine(n, o))
  {
    CreateLineChars(n, o);
  }

  lemma RewritePlain(buckets: map<string, BucketOptions>, order: seq<string>)
    requires forall k :: k in order ==> k in buckets
    requires forall k :: k in buckets ==> Fits(k, buckets[k])
    ensures |CreateLines(buckets, order)| == |order| && forall l :: l in CreateLines(buckets, order) ==> PlainLine(l)
  {
    hide Fits, PlainLine, CreateLine, PlainName;
    forall l | l in CreateLines(buckets, order)
      ensures PlainLine(l)
    {
      var i :| 0 <= i < |order| && l == CreateLine(order[i], buckets[order[i]]);
      assert order[i] in order;
      FitsIsPlain(order[i], buckets[order[i]]);
    }
  }

  lemma RewrittenIs(cat: Cat, order: seq<string>)
    requires Enumerates(order, cat.buckets.Keys)
    ensures forall k :: k in order <==> k in cat.buckets
    ensures Rewritten(cat, order) == Cat(cat.buckets, FileOf(CreateLines(cat.buckets, order)), |cat.buckets|)
  {
  }

  lemma BucketsFit(cat: Cat)
    requires Inv(cat)
    ensures forall k :: k in cat.buckets ==> Fits(k, cat.buckets[k])
  {
    hide Fits;
  }

  lemma OpenedAre(m: map<string, Option<seq<string>>>, buckets: map<string, BucketOptions>)
    requires m.Keys == buckets.Keys
    requires forall k :: k in buckets ==> m[k].Some? && ParseOptions(m[k].value) == Some(buckets[k])
    ensures Parseable(m) && OpenedBuckets(m) == buckets
  {
    hide ParseOptions;
  }

  /** A rewrite in any order keeps the file in step. */
  lemma RewriteRecovers(cat: Cat, order: seq<string>)
    requires Inv(cat) && Enumerates(order, cat.buckets.Keys)
    ensures Inv(Rewritten(cat, order))
  {
    hide *;
    RewrittenIs(cat, order);
    var lines := CreateLines(cat.buckets, order);
    BucketsFit(cat);
    RewriteLines(cat.buckets, order);
    EnumeratesLength(order, cat.buckets.Keys);
    RewritePlain(cat.buckets, order);
    OpenedAre(LastLines(lines).value, cat.buckets);
    InvOf(Rewritten(cat, order), lines);
  }

  // ---------- whole runs ----------

  datatype Step =
    | Create(name: string, options: BucketOptions)
    | Drop(name: string)
    | Rewrite(order: seq<string>)

  ghost predicate Legal(cat: Cat, step: Step)
  {
    match step
    case Create(name, o) => Found(cat.buckets, name) || Fits(TrimSpace(name), o)
    case Drop(_) => true
    case Rewrite(order) => Enumerates(order, cat.buckets.Keys)
  }

  function Next(cat: Cat, step: Step): Cat
    requires step.Rewrite? ==> forall k :: k in step.order ==> k in cat.buckets
  {
    match step
    case Create(name, o) => Created(cat, name, o)
    case Drop(name) => Dropped(cat, name)
    case Rewrite(order) => Rewritten(cat, order)
  }

  ghost predicate StepAt(states: seq<Cat>, steps: seq<Step>, i: nat)
    requires |states| == |steps| + 1 && i < |steps|
  {
    Legal(states[i], steps[i]) && states[i + 1] == Next(states[i], steps[i])
  }

  ghost predicate IsRun(states: seq<Cat>, steps: seq<Step>)
  {
    && |states| == |steps| + 1 && states[0] == Cat(map[], "", 0)
    && forall i :: 0 <= i < |steps| ==> StepAt(states, steps, i)
  }

  lemma EmptyInv()
    ensures Inv(Cat(map[], "", 0))
  {
    assert InvWith(Cat(map[], "", 0), []);
  }

  lemma CreateFound(cat: Cat, name: string, o: BucketOptions)
    requires Found(cat.buckets, name)
    ensures Created(cat, name, o) == cat
  {
  }

  lemma {:induction false} RunKeepsInv(states: seq<Cat>, steps: seq<Step>, i: nat)
    requires IsRun(states, steps) && i < |states|
    ensures Inv(states[i])
  {
    hide Inv, Created, Dropped, Rewritten;
    if i == 0 {
      EmptyInv();
    } else {
      var cat := states[i - 1];
      RunKeepsInv(states, steps, i - 1);
      assert StepAt(states, steps, i - 1);
      match steps[i - 1]
      case Create(name, o) =>
        if Found(cat.buckets, name) {
          CreateFound(cat, name, o);
        } else {
          CreateRecovers(cat, name, o);
        }
      case Drop(name) => DropRecovers(cat, name);
      case Rewrite(order) => RewriteRecovers(cat, order);
    }
  }

  /** After any run of creates, drops and rewrites the file recovers exactly the open buckets with their options,
      and holds as many lines as are counted. */
  lemma CatalogueRecovery(states: seq<Cat>, steps: seq<Step>, i: nat)
    requires IsRun(states, steps) && i < |states|
    ensures Recover(states[i].file) == Some(states[i].buckets)
    ensures ScanLines(states[i].file).Some? && |ScanLines(states[i].file).value| == states[i].rc
  {
    RunKeepsInv(states, steps, i);
    InvRecovers(states[i]);
  }
}
