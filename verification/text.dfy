/** The parts of Go's `strings` and `strconv` that the two logs rely on. A `char` stands for one byte. */
module Text {
  import opened Prelude
  const MIN_INT64: int := -0x8000_0000_0000_0000
  const MAX_INT64: int := 0x7FFF_FFFF_FFFF_FFFF

  type Int64 = n: int | -0x8000_0000_0000_0000 <= n <= 0x7FFF_FFFF_FFFF_FFFF

  // ---------- strings.TrimSpace ----------

  predicate IsSpace(c: char)
  {
    c == ' ' || c == '\t' || c == '\n' || c == '\r' || c == '\U{0B}' || c == '\U{0C}'
  }

  function TrimLeft(s: string): string
  {
    if s != "" && IsSpace(s[0]) then TrimLeft(s[1..]) else s
  }

  function TrimRight(s: string): string
  {
    if s != "" && IsSpace(s[|s| - 1]) then TrimRight(s[..|s| - 1]) else s
  }

  function TrimSpace(s: string): string
  {
    TrimRight(TrimLeft(s))
  }

  /** TAB, LF, VT, FF, CR and the blank. */
  lemma SpaceCodes(c: char)
    ensures IsSpace(c) <==> 9 <= c as int <= 13 || c as int == 32
  {
  }

  predicate SpaceFree(s: string)
  {
    forall c :: c in s ==> !IsSpace(c)
  }

  lemma {:induction false} TrimLeftEnds(s: string)
    ensures var t := TrimLeft(s); (t == "" || !IsSpace(t[0])) && forall c :: c in t ==> c in s
  {
    if s == "" || !IsSpace(s[0]) {
    } else {
      TrimLeftEnds(s[1..]);
    }
  }

  lemma {:induction false} TrimRightEnds(s: string)
    ensures var t := TrimRight(s);
      && (t == "" || !IsSpace(t[|t| - 1]))
      && (forall c :: c in t ==> c in s)
      && TrimRight(t) == t
      && (s != "" && !IsSpace(s[0]) ==> t != "" && t[0] == s[0])
  {
    if s == "" || !IsSpace(s[|s| - 1]) {
    } else {
      TrimRightEnds(s[..|s| - 1]);
    }
  }

  /** Trimming keeps only characters of the text and, done twice, is done once. */
  lemma TrimSpaceTwice(s: string)
    ensures TrimSpace(TrimSpace(s)) == TrimSpace(s)
    ensures forall c :: c in TrimSpace(s) ==> c in s
    ensures TrimSpace(s) != "" ==> !IsSpace(TrimSpace(s)[|TrimSpace(s)| - 1])
  {
    TrimLeftEnds(s);
    TrimRightEnds(TrimLeft(s));
  }

  /** Trimming drops nothing but white space. */
  lemma {:induction false} TrimLeftKeeps(s: string, c: char)
    requires c in s && !IsSpace(c)
    ensures c in TrimLeft(s)
  {
    if !IsSpace(s[0]) {
    } else {
      TrimLeftKeeps(s[1..], c);
    }
  }

  lemma {:induction false} TrimRightKeeps(s: string, c: char)
    requires c in s && !IsSpace(c)
    ensures c in TrimRight(s)
  {
    if !IsSpace(s[|s| - 1]) {
    } else {
      TrimRightKeeps(s[..|s| - 1], c);
    }
  }

  lemma TrimSpaceFree(s: string)
    requires SpaceFree(s)
    ensures TrimSpace(s) == s && TrimSpace(s + "\n") == s
  {
    var t := s + "\n";
    assert t[..|t| - 1] == s;
    if s == "" {
      assert t[1..] == "";
    } else {
      assert t[0] == s[0] && s[0] in s && s[|s| - 1] in s;
      assert TrimRight(t) == TrimRight(s);
    }
  }

  /** The text does not begin, or does not end, with white space. */
  predicate SpaceFreeEnds(s: string, left: bool, right: bool)
  {
    s == "" || ((left ==> !IsSpace(s[0])) && (right ==> !IsSpace(s[|s| - 1])))
  }

  lemma {:induction false} TrimLeftCuts(s: string) returns (i: nat)
    ensures i <= |s| && TrimLeft(s) == s[i..] && SpaceFreeEnds(s[i..], true, false)
    ensures forall j :: 0 <= j < i ==> IsSpace(s[j])
  {
    hide IsSpace;
    if s == "" || !IsSpace(s[0]) {
      i := 0;
    } else {
      i := TrimLeftCuts(s[1..]);
      assert s[1..][i..] == s[i + 1..];
      assert forall j :: 0 < j < i + 1 ==> s[j] == s[1..][j - 1];
      i := i + 1;
    }
  }

  lemma {:induction false} TrimRightCuts(s: string) returns (i: nat)
    ensures i <= |s| && TrimRight(s) == s[..i] && SpaceFreeEnds(s[..i], false, true)
    ensures forall j :: i <= j < |s| ==> IsSpace(s[j])
  {
    hide IsSpace;
    if s == "" || !IsSpace(s[|s| - 1]) {
      i := |s|;
    } else {
      i := TrimRightCuts(s[..|s| - 1]);
      assert s[..|s| - 1][..i] == s[..i];
    }
  }

  /** Trimming cuts white space off both ends, and all of it. */
  lemma TrimSpaceMeaning(s: string) returns (i: nat, j: nat)
    ensures i <= j <= |s| && TrimSpace(s) == s[i..j]
    ensures forall l :: 0 <= l < |s| && (l < i || j <= l) ==> IsSpace(s[l])
    ensures i < j ==> !IsSpace(s[i]) && !IsSpace(s[j - 1])
  {
    i := TrimLeftCuts(s);
    var n := TrimRightCuts(s[i..]);
    hide IsSpace, TrimLeft, TrimRight;
    j := i + n;
    assert s[i..][..n] == s[i..j];
    assert forall l :: j <= l < |s| ==> s[l] == s[i..][l - i];
  }

  // ---------- strings.Split and joining ----------

  function Join(parts: seq<string>, sep: char): string
  {
    if |parts| == 0 then ""
    else if |parts| == 1 then parts[0]
    else parts[0] + [sep] + Join(parts[1..], sep)
  }

  /** The pieces of `s` between separators; never empty, and no piece holds the separator. */
  function Split(s: string, sep: char): (parts: seq<string>)
    ensures |parts| >= 1
    ensures forall p :: p in parts ==> sep !in p
    ensures Join(parts, sep) == s
  {
    if s == "" then [""]
    else
      var rest := Split(s[1..], sep);
      if s[0] == sep then
        assert ([""] + rest)[1..] == rest;
        [""] + rest
      else
        var parts := [[s[0]] + rest[0]] + rest[1..];
        assert parts[1..] == rest[1..];
        parts
  }

  /** A joined text is made of separators and of the characters of its parts. */
  lemma {:induction false} JoinChars(parts: seq<string>, sep: char)
    ensures forall c :: c in Join(parts, sep) ==> c == sep || exists i :: 0 <= i < |parts| && c in parts[i]
    ensures parts != [] && parts[|parts| - 1] != "" ==>
      var j, last := Join(parts, sep), parts[|parts| - 1];
      j != "" && j[|j| - 1] == last[|last| - 1]
  {
    if |parts| <= 1 {
    } else {
      JoinChars(parts[1..], sep);
      assert forall i :: 1 <= i < |parts| ==> parts[i] == parts[1..][i - 1];
    }
  }

  lemma {:induction false} SplitPiece(p: string, sep: char)
    requires sep !in p
    ensures Split(p, sep) == [p]
  {
    if p == "" {
    } else {
      assert sep !in p[1..];
      SplitPiece(p[1..], sep);
      assert [p[0]] + p[1..] == p;
    }
  }

  lemma {:induction false} SplitFirst(p: string, sep: char, rest: string)
    requires sep !in p
    ensures Split(p + [sep] + rest, sep) == [p] + Split(rest, sep)
  {
    var s := p + [sep] + rest;
    if p == "" {
      assert s[1..] == rest;
    } else {
      assert s[1..] == p[1..] + [sep] + rest;
      SplitFirst(p[1..], sep, rest);
      assert [p[0]] + p[1..] == p;
    }
  }

  /** Splitting undoes joining exactly because no piece holds the separator. */
  lemma {:induction false} SplitJoin(parts: seq<string>, sep: char)
    requires |parts| >= 1
    requires forall p :: p in parts ==> sep !in p
    ensures Split(Join(parts, sep), sep) == parts
  {
    if |parts| == 1 {
      SplitPiece(parts[0], sep);
    } else {
      SplitJoin(parts[1..], sep);
      SplitFirst(parts[0], sep, Join(parts[1..], sep));
      assert [parts[0]] + parts[1..] == parts;
    }
  }

  // ---------- strconv.Itoa / FormatInt and ParseInt(s, 10, 64) / Atoi ----------

  function DigitValue(c: char): nat
    requires '0' <= c <= '9'
  {
    c as int - '0' as int
  }

  function Digit(d: nat): (c: char)
    requires d < 10
    ensures '0' <= c <= '9' && DigitValue(c) == d
  {
    '0' + d as char
  }

  predicate AllDigits(s: string)
  {
    forall c :: c in s ==> '0' <= c <= '9'
  }

  function DigitsValue(s: string): nat
    requires AllDigits(s)
  {
    if s == "" then 0
    else
      var front := s[..|s| - 1];
      assert forall c :: c in front ==> c in s;
      assert s[|s| - 1] in s;
      DigitsValue(front) * 10 + DigitValue(s[|s| - 1])
  }

  function Digits(n: nat): (s: string)
    ensures s != "" && AllDigits(s) && DigitsValue(s) == n
  {
    if n < 10 then
      assert [Digit(n)][..0] == "";
      [Digit(n)]
    else
      var front := Digits(n / 10);
      assert (front + [Digit(n % 10)])[..|front|] == front;
      front + [Digit(n % 10)]
  }

  function Itoa(n: int): string
  {
    if n < 0 then "-" + Digits(-n) else Digits(n)
  }

  /** None stands for the syntax and range errors. */
  function ParseInt64(s: string): Option<int>
  {
    var body := if s != "" && (s[0] == '-' || s[0] == '+') then s[1..] else s;
    if body == "" || !AllDigits(body) then None
    else
      var m: int := DigitsValue(body);
      var n := if s[0] == '-' then -m else m;
      if MIN_INT64 <= n <= MAX_INT64 then Some(n) else None
  }

  /** Decimal notation, most significant digit first. */
  lemma DigitsMeaning(s: string, c: char)
    requires AllDigits(s) && '0' <= c <= '9'
    ensures DigitsValue([c]) == c as int - 48
    ensures AllDigits(s + [c]) && DigitsValue(s + [c]) == 10 * DigitsValue(s) + (c as int - 48)
  {
    assert [c][..0] == "" && (s + [c])[..|s|] == s;
  }

  /** No leading zeros, and a minus sign in front of what a negative number is short of zero. */
  lemma {:induction false} ItoaCanonical(n: nat)
    ensures AllDigits(Itoa(n)) && DigitsValue(Itoa(n)) == n
    ensures Itoa(n) == "0" || Itoa(n)[0] != '0'
    ensures n > 0 ==> Itoa(0 - n) == "-" + Itoa(n)
  {
    if n < 10 {
    } else {
      ItoaCanonical(n / 10);
    }
  }

  /** A number is at least one digit, within the range of an int64. */
  lemma ParseUnsignedMeaning(body: string)
    requires body == "" || (body[0] != '+' && body[0] != '-')
    ensures ParseInt64(body) ==
      if body == "" || !AllDigits(body) || DigitsValue(body) > 0x7FFF_FFFF_FFFF_FFFF then None
      else Some(DigitsValue(body))
    ensures AllDigits(body) <==> !exists c :: c in body && !('0' <= c <= '9')
  {
    hide DigitsValue;
  }

  /** Or a sign and such digits; one more negative number is in the range. */
  lemma ParseSignedMeaning(body: string)
    ensures ParseInt64("+" + body) ==
      if body == "" || !AllDigits(body) || DigitsValue(body) > 0x7FFF_FFFF_FFFF_FFFF then None
      else Some(DigitsValue(body))
    ensures ParseInt64("-" + body) ==
      if body == "" || !AllDigits(body) || DigitsValue(body) > 0x8000_0000_0000_0000 then None
      else Some(0 - DigitsValue(body))
  {
    hide DigitsValue, AllDigits;
    assert ("+" + body)[1..] == body && ("-" + body)[1..] == body;
  }

  /** A text with a '~' is no number. */
  lemma NotANumber(s: string)
    requires '~' in s
    ensures ParseInt64(TrimSpace(s)).None?
  {
    TrimLeftKeeps(s, '~');
    TrimRightKeeps(TrimLeft(s), '~');
    var t := TrimSpace(s);
    hide TrimLeft, TrimRight, DigitsValue;
    assert '~' in t && (t[0] == '-' || t[0] == '+' ==> '~' in t[1..]);
  }

  lemma ItoaRoundTrip(n: int)
    requires MIN_INT64 <= n <= MAX_INT64
    ensures ParseInt64(Itoa(n)) == Some(n)
    ensures SpaceFree(Itoa(n)) && '~' !in Itoa(n) && ':' !in Itoa(n) && Itoa(n) != ""
  {
    hide Digits, DigitsValue;
    var ds := Digits(if n < 0 then -n else n);
    assert ds[0] in ds;
    if n < 0 {
      assert Itoa(n)[1..] == ds;
    }
  }

  // ---------- strconv.Itoa(boolToInt(b)) and ParseBool ----------

  function BoolToInt(b: bool): int { if b then 1 else 0 }

  function ParseBool(s: string): Option<bool>
  {
    if s == "1" || s == "t" || s == "T" || s == "TRUE" || s == "true" || s == "True" then Some(true)
    else if s == "0" || s == "f" || s == "F" || s == "FALSE" || s == "false" || s == "False" then Some(false)
    else None
  }

  lemma ParseBoolMeaning(s: string)
    ensures ParseBool(s) == Some(true) <==> s in {"1", "t", "T", "TRUE", "true", "True"}
    ensures ParseBool(s) == Some(false) <==> s in {"0", "f", "F", "FALSE", "false", "False"}
  {
    assert "0"[0] == '0' && "f"[0] == 'f' && "F"[0] == 'F';
    assert "FALSE"[0] == 'F' && "false"[0] == 'f' && "False"[0] == 'F';
    assert "TRUE"[0] == 'T' && "True"[0] == 'T' && "true"[0] == 't';
    assert "T"[0] == 'T' && "t"[0] == 't' && "1"[0] == '1';
  }

  lemma BoolRoundTrip(b: bool)
    ensures ParseBool(Itoa(BoolToInt(b))) == Some(b)
    ensures '~' !in Itoa(BoolToInt(b)) && ':' !in Itoa(BoolToInt(b))
  {
    assert Itoa(1) == "1" && Itoa(0) == "0";
  }

  // ---------- bufio line reading ----------

  /** Position of the first newline, |b| when there is none. */
  function LineEnd(b: string): (i: nat)
    ensures i <= |b|
    ensures '\n' !in b[..i]
    ensures i < |b| ==> b[i] == '\n'
  {
    if b == "" || b[0] == '\n' then 0
    else
      var i := 1 + LineEnd(b[1..]);
      assert b[..i] == [b[0]] + b[1..][..i - 1];
      i
  }

  lemma {:induction false} LineEndNone(line: string)
    requires '\n' !in line
    ensures LineEnd(line) == |line|
  {
    if line == "" {
    } else {
      LineEndNone(line[1..]);
    }
  }

  lemma LineEndOf(line: string, rest: string)
    requires '\n' !in line
    ensures LineEnd(line + "\n" + rest) == |line|
  {
    var b := line + "\n" + rest;
    assert forall j :: 0 <= j < |line| ==> b[j] == line[j] && line[j] in line;
    assert b[|line|] == '\n';
  }
}
