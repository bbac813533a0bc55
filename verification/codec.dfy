/** The statements of a bucket's append-only file (entry.go:160-217, entry_options.go:61-122,
    bucket.go:144-151): how they are written, how they are read, and when reading undoes writing. */
module Codec {
  import opened Prelude
  import opened Text
  import opened Entries

  datatype Kind = Inserting | Deleting

  datatype Stmt = Stmt(kind: Kind, e: Entry)

  /** strconv.FormatFloat(x, 'f', -1, 64) and strconv.ParseFloat(s, 64), and the values a float64 has. The
      constant 0.01 stands for the float64 nearest to it. */
  datatype FloatCodec = FloatCodec(isFloat: real -> bool, format: real -> string, parse: string -> Option<real>)
  {
    ghost predicate Faithful()
    {
      isFloat(0.01) && forall x: real :: isFloat(x) ==> PrintsBack(x)
    }

    predicate PrintsBack(x: real)
    {
      parse(format(x)) == Some(x) && SpaceFree(format(x)) && '~' !in format(x)
    }
  }

  predicate IsHundredth(x: real)
  {
    (x * 100.0).Floor as real == x * 100.0 && MIN_INT64 <= (x * 100.0).Floor <= MAX_INT64
  }

  function ParseHundredth(s: string): Option<real>
  {
    var n := ParseInt64(s);
    if n.Some? then Some(n.value as real / 100.0) else None
  }

  /** Hundredths whose number fits an int64, printed as that number. */
  const HUNDREDTHS := FloatCodec(IsHundredth, x => Itoa((x * 100.0).Floor), ParseHundredth)

  /** Such codecs exist. */
  lemma FaithfulCodec()
    ensures HUNDREDTHS.Faithful()
  {
    hide Itoa, ParseInt64, SpaceFree;
    forall x: real | IsHundredth(x)
      ensures HUNDREDTHS.PrintsBack(x)
    {
      ItoaRoundTrip((x * 100.0).Floor);
    }
    assert 0.01 * 100.0 == 1.0;
  }

  // ---------- writing ----------

  function KindName(kind: Kind): string
  {
    match kind
    case Inserting => "INSERT"
    case Deleting => "DELETE"
  }

  /** The options as printed when there are some, and as fixed text otherwise: both are the same text as the
      options they denote. */
  function OptionFields(fc: FloatCodec, o: Option<EntryOptions>): seq<string>
  {
    var p := if o.Some? then o.value else PRINTED_DEFAULTS;
    [ Itoa(BoolToInt(p.doesExp)),
      Itoa(BoolToInt(p.doesInv)),
      Itoa(Unix(p.expTime)),
      Itoa(Unix(p.invTime)),
      fc.format(p.tol) ]
  }

  /** One statement, newline included. */
  function Payload(fc: FloatCodec, s: Stmt): string
  {
    Join([KindName(s.kind), s.e.k, s.e.v] + OptionFields(fc, s.e.opts), '~') + "\n"
  }

  /** EntryInsertStmt and EntryDeleteStmt: the statement behind its length. */
  function Frame(payload: string): string
  {
    Itoa(|payload|) + "\n" + payload
  }

  function Encode(fc: FloatCodec, s: Stmt): string
  {
    Frame(Payload(fc, s))
  }

  function EncodeAll(fc: FloatCodec, ss: seq<Stmt>): string
  {
    if ss == [] then "" else EncodeAll(fc, ss[..|ss| - 1]) + Encode(fc, ss[|ss| - 1])
  }

  // ---------- reading ----------

  /** Crash stands for an index out of range in a statement with too few fields. */
  datatype ParseError = Unrecognized | BadOptions | Crash

  function ParseOptions(fc: FloatCodec, fields: seq<string>): Result<EntryOptions, ParseError>
  {
    if |fields| < 1 then Failure(Crash)
    else if ParseBool(fields[0]).None? then Failure(BadOptions)
    else if |fields| < 2 then Failure(Crash)
    else if ParseBool(fields[1]).None? then Failure(BadOptions)
    else if |fields| < 3 then Failure(Crash)
    else if ParseInt64(TrimSpace(fields[2])).None? then Failure(BadOptions)
    else if |fields| < 4 then Failure(Crash)
    else if ParseInt64(TrimSpace(fields[3])).None? then Failure(BadOptions)
    else if |fields| < 5 then Failure(Crash)
    else
      var tol := fc.parse(TrimSpace(fields[4]));
      if tol.None? then Failure(BadOptions)
      else
        Success(EntryOptions(
          ParseBool(fields[0]).value,
          ParseBool(fields[1]).value,
          FromUnix(ParseInt64(TrimSpace(fields[2])).value),
          FromUnix(ParseInt64(TrimSpace(fields[3])).value),
          tol.value))
  }

  function ParseKind(name: string): Option<Kind>
  {
    if name == "INSERT" then Some(Inserting) else if name == "DELETE" then Some(Deleting) else None
  }

  lemma KindRoundTrip(kind: Kind)
    ensures ParseKind(KindName(kind)) == Some(kind) && '~' !in KindName(kind)
  {
    assert "INSERT"[0] == 'I' && "DELETE"[0] == 'D';
  }

  /** parseEntryStmtTypeName followed by NewEntryFromStmt. */
  function Parse(fc: FloatCodec, json: Json, payload: string): Result<Stmt, ParseError>
  {
    var parts := Split(payload, '~');
    var kind := ParseKind(parts[0]);
    if kind.None? then Failure(Unrecognized)
    else if |parts| < 3 then Failure(Crash)
    else
      match ParseOptions(fc, parts[3..])
      case Failure(error) => Failure(error)
      case Success(options) =>
        var location := if json.Has(parts[2], "coords") then json.coords(parts[2]) else [];
        Success(Stmt(kind.value, Entry(parts[1], parts[2], Some(options), location)))
  }

  lemma ParsedHasOptions(fc: FloatCodec, json: Json, payload: string)
    ensures Parse(fc, json, payload).Success? ==> Parse(fc, json, payload).value.e.opts.Some?
  {
    hide ParseOptions, Split, ParseKind;
  }

  // ---------- reading undoes writing ----------

  /** What a statement comes back as. */
  function ReloadedStmt(json: Json, s: Stmt): Stmt
  {
    Stmt(s.kind, Reloaded(json, s.e))
  }

  /** The tolerance, if there are options, is a float64. */
  predicate Printable(fc: FloatCodec, o: Option<EntryOptions>)
  {
    o.Some? ==> fc.isFloat(o.value.tol)
  }

  /** '~' is not escaped, so keys and values must do without it. */
  predicate TildeFree(e: Entry)
  {
    '~' !in e.k && '~' !in e.v
  }

  function PayloadParts(fc: FloatCodec, s: Stmt): seq<string>
  {
    var f := OptionFields(fc, s.e.opts);
    [KindName(s.kind), s.e.k, s.e.v, f[0], f[1], f[2], f[3], f[4] + "\n"]
  }

  lemma {:induction false} JoinSuffix(parts: seq<string>, sep: char, tail: string)
    requires parts != []
    ensures Join(parts, sep) + tail == Join(parts[..|parts| - 1] + [parts[|parts| - 1] + tail], sep)
  {
    var extended := parts[..|parts| - 1] + [parts[|parts| - 1] + tail];
    if |parts| == 1 {
    } else {
      JoinSuffix(parts[1..], sep, tail);
      assert extended[1..] == parts[1..][..|parts| - 2] + [parts[|parts| - 1] + tail];
    }
  }

  lemma PayloadIsJoin(fc: FloatCodec, s: Stmt)
    ensures Payload(fc, s) == Join(PayloadParts(fc, s), '~')
  {
    var parts := [KindName(s.kind), s.e.k, s.e.v] + OptionFields(fc, s.e.opts);
    JoinSuffix(parts, '~', "\n");
    assert PayloadParts(fc, s) == parts[..7] + [parts[7] + "\n"];
  }

  lemma JoinLast(f: seq<string>)
    requires |f| == 5
    ensures Join(f, '~') == f[0] + "~" + f[1] + "~" + f[2] + "~" + f[3] + "~" + f[4]
  {
    assert f[1..][1..] == f[2..] && f[2..][1..] == f[3..] && f[3..][1..] == f[4..];
    assert Join(f[3..], '~') == f[3] + "~" + f[4];
    assert Join(f[2..], '~') == f[2] + "~" + Join(f[3..], '~');
    assert Join(f[1..], '~') == f[1] + "~" + Join(f[2..], '~');
  }

  lemma PayloadAppends(fc: FloatCodec, s: Stmt)
    ensures Payload(fc, s) ==
      KindName(s.kind) + "~" + s.e.k + "~" + s.e.v + "~" + Join(OptionFields(fc, s.e.opts), '~') + "\n"
  {
    var f := OptionFields(fc, s.e.opts);
    assert |f| == 5;
    hide OptionFields, KindName;
    var parts := [KindName(s.kind), s.e.k, s.e.v] + f;
    assert parts[1..] == [s.e.k, s.e.v] + f && parts[1..][1..] == [s.e.v] + f && parts[1..][1..][1..] == f;
    assert Join(parts[1..][1..], '~') == s.e.v + "~" + Join(f, '~');
    assert Join(parts[1..], '~') == s.e.k + "~" + Join(parts[1..][1..], '~');
  }

  /** The text of options. */
  function OptionsText(fc: FloatCodec, opts: Option<EntryOptions>): string
  {
    if opts.None? then "0~0~0~0~" + fc.format(0.01)
    else
      var o := opts.value;
      (if o.doesExp then "1" else "0") + "~" + (if o.doesInv then "1" else "0") + "~"
        + Itoa(Unix(o.expTime)) + "~" + Itoa(Unix(o.invTime)) + "~" + fc.format(o.tol)
  }

  lemma OptionsTextJoins(fc: FloatCodec, opts: Option<EntryOptions>)
    ensures Join(OptionFields(fc, opts), '~') == OptionsText(fc, opts)
  {
    JoinLast(OptionFields(fc, opts));
    assert Itoa(0) == "0" && Itoa(1) == "1" && Unix(0) == 0;
    hide Itoa, Unix, Join;
    if opts.None? {
      assert "0" + "~" + "0" + "~" + "0" + "~" + "0" + "~" == "0~0~0~0~";
    }
  }

  /** The bytes of a statement: length line, kind, key, value and options. */
  lemma EncodeMeaning(fc: FloatCodec, s: Stmt)
    ensures var line := (if s.kind.Inserting? then "INSERT" else "DELETE")
        + "~" + s.e.k + "~" + s.e.v + "~" + OptionsText(fc, s.e.opts) + "\n";
      Encode(fc, s) == Itoa(|line|) + "\n" + line
  {
    PayloadAppends(fc, s);
    OptionsTextJoins(fc, s.e.opts);
    hide Payload, OptionsText, Join, Itoa, OptionFields;
  }

  /** Which statements can be read, and which are not recognized. */
  lemma ParseMeaning(fc: FloatCodec, json: Json, payload: string)
    ensures var parts := Split(payload, '~');
      && (Parse(fc, json, payload) == Failure(Unrecognized) <==> parts[0] != "INSERT" && parts[0] != "DELETE")
      && (Parse(fc, json, payload).Success? <==>
            && (parts[0] == "INSERT" || parts[0] == "DELETE") && |parts| >= 8
            && ParseBool(parts[3]).Some? && ParseBool(parts[4]).Some?
            && ParseInt64(TrimSpace(parts[5])).Some? && ParseInt64(TrimSpace(parts[6])).Some?
            && fc.parse(TrimSpace(parts[7])).Some?)
  {
    hide Split, ParseBool, ParseInt64, TrimSpace;
    var parts := Split(payload, '~');
    assert "INSERT"[0] == 'I' && "DELETE"[0] == 'D';
    if |parts| >= 3 {
      var f := parts[3..];
      assert forall i :: 0 <= i < |f| ==> f[i] == parts[3 + i];
    }
  }

  lemma OptionsRoundTrip(fc: FloatCodec, o: Option<EntryOptions>)
    requires fc.Faithful() && Printable(fc, o)
    ensures var f := OptionFields(fc, o);
      && ParseOptions(fc, [f[0], f[1], f[2], f[3], f[4] + "\n"]) == Success(ReloadedOptions(o))
      && forall i :: 0 <= i < 5 ==> '~' !in f[i]
  {
    var p := if o.Some? then o.value else PRINTED_DEFAULTS;
    var f := OptionFields(fc, o);
    assert fc.PrintsBack(p.tol);
    BoolRoundTrip(p.doesExp);
    BoolRoundTrip(p.doesInv);
    ItoaRoundTrip(Unix(p.expTime));
    ItoaRoundTrip(Unix(p.invTime));
    TrimSpaceFree(f[2]);
    TrimSpaceFree(f[3]);
    TrimSpaceFree(f[4]);
    hide Itoa, TrimSpace, ParseInt64, ParseBool, SpaceFree;
    assert Truncated(PRINTED_DEFAULTS) == PRINTED_DEFAULTS;
  }

  lemma SplitPayload(fc: FloatCodec, s: Stmt)
    requires fc.Faithful() && Printable(fc, s.e.opts) && TildeFree(s.e)
    ensures Split(Payload(fc, s), '~') == PayloadParts(fc, s)
  {
    PayloadIsJoin(fc, s);
    OptionsRoundTrip(fc, s.e.opts);
    KindRoundTrip(s.kind);
    hide Join, Split, ParseOptions, OptionFields, Payload, KindName, ParseKind;
    var parts := PayloadParts(fc, s);
    forall p | p in parts
      ensures '~' !in p
    {
      var i :| 0 <= i < |parts| && parts[i] == p;
    }
    SplitJoin(parts, '~');
  }

  lemma TildeFreeRoundTrip(fc: FloatCodec, json: Json, s: Stmt)
    requires fc.Faithful() && Printable(fc, s.e.opts) && TildeFree(s.e)
    ensures Parse(fc, json, Payload(fc, s)) == Success(ReloadedStmt(json, s))
  {
    SplitPayload(fc, s);
    OptionsRoundTrip(fc, s.e.opts);
    KindRoundTrip(s.kind);
    hide Join, Split, ParseOptions, OptionFields, Payload, KindName, ParseKind;
    var parts := PayloadParts(fc, s);
    assert parts[3..] == [parts[3], parts[4], parts[5], parts[6], parts[7]];
  }

  /** What is read back, field by field. */
  lemma ReloadedMeaning(json: Json, s: Stmt)
    ensures var r := ReloadedStmt(json, s);
      && r.kind == s.kind && r.e.k == s.e.k && r.e.v == s.e.v
      && r.e.location == (if json.get(s.e.v, "coords").Some? then json.coords(s.e.v) else [])
      && r.e.opts.Some?
      && if s.e.opts.None? then r.e.opts.value == EntryOptions(false, false, 0, 0, 0.01)
         else
           var o, p := s.e.opts.value, r.e.opts.value;
           && p.doesExp == o.doesExp && p.doesInv == o.doesInv && p.tol == o.tol
           && p.expTime == o.expTime - o.expTime % 1_000_000_000
           && p.invTime == o.invTime - o.invTime % 1_000_000_000
  {
  }

  /** A statement reads back as itself, up to the fraction of its times, precisely when its key and value hold
      no '~'. Newlines are harmless, and so are missing options. */
  lemma StmtRoundTrip(fc: FloatCodec, json: Json, s: Stmt)
    requires fc.Faithful() && Printable(fc, s.e.opts)
    ensures Parse(fc, json, Payload(fc, s)) == Success(ReloadedStmt(json, s)) <==> TildeFree(s.e)
  {
    if TildeFree(s.e) {
      TildeFreeRoundTrip(fc, json, s);
    } else {
      // No piece of a split holds the separator, so the key or the value read is not the one written.
      var pieces := Split(Payload(fc, s), '~');
      hide Payload, ParseOptions;
      assert |pieces| >= 3 ==> pieces[1] in pieces && pieces[2] in pieces;
    }
  }

  /** Writing again what was read reproduces the bytes, whatever the statement was. */
  lemma RewriteIsStable(fc: FloatCodec, json: Json, s: Stmt)
    ensures Encode(fc, ReloadedStmt(json, s)) == Encode(fc, s)
  {
    var o := s.e.opts;
    if o.Some? {
      assert Unix(WholeSecond(o.value.expTime)) == Unix(o.value.expTime);
      assert Unix(WholeSecond(o.value.invTime)) == Unix(o.value.invTime);
    }
    assert OptionFields(fc, Some(ReloadedOptions(o))) == OptionFields(fc, o);
  }
}
