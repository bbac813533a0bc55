/** Entries (entry.go, entry_options.go): what an entry holds, when it is visible, and what is left of it
    once it has been written to a log and read back. */
module Entries {
  import opened Prelude

  /** A time.Time as nanoseconds since the epoch, within the range whose Unix() second fits an int64. */
  type Instant = t: int |
    -0x8000_0000_0000_0000 * 1_000_000_000 <= t < 0x8000_0000_0000_0000 * 1_000_000_000

  /** Time.Unix(): whole seconds, rounded down. */
  function Unix(t: Instant): (sec: int)
    ensures -0x8000_0000_0000_0000 <= sec < 0x8000_0000_0000_0000
    ensures sec * 1_000_000_000 <= t < (sec + 1) * 1_000_000_000
  {
    t / 1_000_000_000
  }

  /** time.Unix(sec, 0) */
  function FromUnix(sec: int): Instant
    requires -0x8000_0000_0000_0000 <= sec < 0x8000_0000_0000_0000
  {
    sec * 1_000_000_000
  }

  function WholeSecond(t: Instant): (s: Instant)
    ensures s <= t < s + 1_000_000_000 && s % 1_000_000_000 == 0
    ensures Unix(s) == Unix(t)
  {
    FromUnix(Unix(t))
  }

  datatype EntryOptions = EntryOptions(
    doesExp: bool,
    doesInv: bool,
    expTime: Instant,
    invTime: Instant,
    tol: real)

  /** What the options of an entry without any are printed as. */
  const PRINTED_DEFAULTS := EntryOptions(false, false, 0, 0, 0.01)

  /** The part of an entry that never changes; `opts` is None for the nil pointer of a bare probe. */
  datatype Entry = Entry(k: string, v: string, opts: Option<EntryOptions>, location: seq<real>)

  /** &Entry{k: key} */
  function Probe(key: string): Entry
  {
    Entry(key, "", None, [])
  }

  // ---------- gjson ----------

  /** The readings gjson offers of a field that exists. */
  datatype JsonValue = JsonValue(asInt: int, asUint: nat, asFloat: real, asString: string)

  /** gjson as seen from here: `get(json, path)` is None when the field does not exist, and `coords(json)`
      are the numbers listed under "coords". */
  datatype Json = Json(get: (string, string) -> Option<JsonValue>, coords: string -> seq<real>)
  {
    predicate Has(v: string, path: string)
    {
      get(v, path).Some?
    }

    /** A missing field reads as zero or the empty string. */
    function Read(v: string, path: string): JsonValue
    {
      var f := get(v, path);
      if f.Some? then f.value else JsonValue(0, 0, 0.0, "")
    }
  }

  // ---------- visibility ----------

  predicate Expired(e: Entry, now: Instant)
  {
    e.opts.Some? && e.opts.value.doesExp && e.opts.value.expTime < now
  }

  predicate Outdated(e: Entry, now: Instant)
  {
    e.opts.Some? && e.opts.value.doesInv && e.opts.value.invTime < now
  }

  predicate Visible(e: Entry, now: Instant)
  {
    !Expired(e, now) && !Outdated(e, now)
  }

  /** Tx.Get as a function of the key map: what a reader sees at `now`. */
  function GetAt(data: map<string, Entry>, k: string, now: Instant): Option<Entry>
  {
    if k in data && Visible(data[k], now) then Some(data[k]) else None
  }

  /** A live entry is read as long as neither of its times lies in the past, to the nanosecond. */
  lemma GetMeaning(data: map<string, Entry>, k: string, now: Instant)
    requires k in data && data[k].opts.Some?
    ensures var o := data[k].opts.value;
      GetAt(data, k, now) ==
        if (o.doesExp ==> now <= o.expTime) && (o.doesInv ==> now <= o.invTime) then Some(data[k]) else None
  {
  }

  // ---------- after a round trip through the log ----------

  function Truncated(o: EntryOptions): EntryOptions
  {
    o.(expTime := WholeSecond(o.expTime), invTime := WholeSecond(o.invTime))
  }

  /** The options a log line denotes. */
  function ReloadedOptions(o: Option<EntryOptions>): EntryOptions
  {
    if o.Some? then Truncated(o.value) else PRINTED_DEFAULTS
  }

  /** The entry that replaces `e` once it has been logged and read back: times lose their fraction of a
      second, and the location is read from the value again. */
  function Reloaded(json: Json, e: Entry): Entry
  {
    Entry(e.k, e.v, Some(ReloadedOptions(e.opts)), if json.Has(e.v, "coords") then json.coords(e.v) else [])
  }

  /** `now` falls in the fraction of a second by which reloading `e` brings its expiry or invalidation
      forward. */
  predicate InLostFraction(e: Entry, now: Instant)
  {
    && e.opts.Some?
    && Visible(e, now)
    && var o := e.opts.value;
       || (o.doesExp && WholeSecond(o.expTime) < now)
       || (o.doesInv && WholeSecond(o.invTime) < now)
  }

  /** What is lost is the time from the beginning of the second of a due time up to that time. */
  lemma LostFractionMeaning(e: Entry, now: Instant)
    requires e.opts.Some?
    ensures var o := e.opts.value;
      InLostFraction(e, now) <==>
        && (o.doesExp ==> now <= o.expTime) && (o.doesInv ==> now <= o.invTime)
        && ((o.doesExp && o.expTime - o.expTime % 1_000_000_000 < now)
            || (o.doesInv && o.invTime - o.invTime % 1_000_000_000 < now))
  {
  }

  lemma ReloadedVisible(json: Json, e: Entry, now: Instant)
    ensures Visible(Reloaded(json, e), now) <==> Visible(e, now) && !InLostFraction(e, now)
  {
    if e.opts.Some? {
      assert WholeSecond(e.opts.value.expTime) <= e.opts.value.expTime;
    }
  }

  lemma ReloadedTwice(json: Json, e: Entry)
    ensures Reloaded(json, Reloaded(json, e)) == Reloaded(json, e)
  {
    if e.opts.Some? {
      var o := e.opts.value;
      assert Unix(WholeSecond(o.expTime)) == Unix(o.expTime);
      assert Unix(WholeSecond(o.invTime)) == Unix(o.invTime);
    }
  }
}
