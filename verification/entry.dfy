/**
  The pure part of `extract_entry_info`: normalising the `<h3>` title line and
  the `entry-meta` summary, and reading the leading `YYYY-MM-DD — ` date.
  Locating the `<h3>` and `<p class="entry-meta">` elements in the file is done
  by the caller; their inner text (or its absence) is the input here.
*/
module Entry {
  import opened Wrappers
  import opened Text

  /** The `(YYYY, MM, DD)` sort key. Month and day are not range-checked. */
  datatype Date = Date(year: nat, month: nat, day: nat)

  /** One parsed entry, as the publisher's `EntryInfo` record. */
  datatype EntryInfo = EntryInfo(
    relPath: string,     // entries/2025-12-27.html
    dateStr: string,     // 2025-12-27
    titleLine: string,   // 2025-12-27 — First Entry
    meta: string,        // Setting up shop...
    sortKey: Date)

  // ---------------------------------------------------------------- whitespace normalisation

  /** A normalised line: no whitespace at either end, no whitespace but `' '`, no two spaces together. */
  predicate IsNormal(s: string) {
    && (|s| > 0 ==> NotSpace(s[0]) && NotSpace(s[|s| - 1]))
    && (forall i | 0 <= i < |s| && IsSpace(s[i]) :: s[i] == ' ')
    && (forall i | 0 <= i < |s| - 1 :: !(s[i] == ' ' && s[i + 1] == ' '))
  }

  /** `re.sub(r"\s+", " ", s).strip()`, applied to the title and to the summary. */
  function Normalize(s: string): (r: string)
    ensures IsNormal(r)
  {
    var u := Squeeze(s, IsSpace, ' ');
    StripKeepsShape(u);
    Strip(u)
  }

  /** Stripping a squeezed line keeps it squeezed. */
  lemma StripKeepsShape(u: string)
    requires forall i | 0 <= i < |u| :: u[i] == ' ' || !IsSpace(u[i])
    requires forall i | 0 <= i < |u| - 1 :: !(u[i] == ' ' && u[i + 1] == ' ')
    ensures IsNormal(Strip(u))
  {
    var a := StripIsSlice(u);
    var r := Strip(u);
    assert forall i | 0 <= i < |r| :: r[i] == u[a + i];
  }

  /** Normalising never loses or reorders a non-whitespace character. */
  lemma NormalizeKeepsText(s: string)
    ensures Filter(Normalize(s), NotSpace) == Filter(s, NotSpace)
  {
    var u := Squeeze(s, IsSpace, ' ');
    SqueezeKeeps(s, IsSpace, ' ', NotSpace);
    StripKeepsNonSpace(u, NotSpace);
  }

  /** A normalised line is its own normal form. */
  lemma NormalFixpoint(s: string)
    requires IsNormal(s)
    ensures Normalize(s) == s
  {
    SqueezeIdentity(s, IsSpace, ' ');
    StripIdentity(s);
  }

  lemma NormalizeIdempotent(s: string)
    ensures Normalize(Normalize(s)) == Normalize(s)
  {
    NormalFixpoint(Normalize(s));
  }

  /** Normalising is `" ".join(s.split())`: the line's words, one space between each two. */
  lemma NormalizeWords(s: string)
    ensures Normalize(s) == Join(Words(s), ' ')
  {
    var k := SpanLen(s, IsSpace);
    var b := Trail(s[k..], ' ');
    SqueezedWords(s, ' ');
    WordsEnds(s, ' ');
    WordsEnds(s[k..], ' ');
    StripJoined(Join(Words(s), ' '), b, ' ', k > 0);
  }

  // ---------------------------------------------------------------- decimal digits

  function DigitValue(c: char): nat {
    if IsDigit(c) then (c as int - '0' as int) else 0
  }

  function DigitChar(d: nat): char
    requires d < 10
  {
    ('0' as int + d) as char
  }

  /** `int(s)` for a string of ASCII digits. */
  function Value(s: string): nat
    decreases |s|
  {
    if |s| == 0 then 0 else 10 * Value(s[..|s| - 1]) + DigitValue(s[|s| - 1])
  }

  /** `f"{n:0{w}d}"` for `n < 10^w`: the last `w` decimal digits of `n`, zero-padded. */
  function Fixed(n: nat, w: nat): (r: string)
    ensures |r| == w
    ensures All(r, IsDigit)
  {
    if w == 0 then "" else Fixed(n / 10, w - 1) + [DigitChar(n % 10)]
  }

  /** Reading a digit string and printing it back at its own width is the identity. */
  lemma {:induction false} FixedValue(s: string)
    requires All(s, IsDigit)
    ensures Fixed(Value(s), |s|) == s
    decreases |s|
  {
    if |s| > 0 {
      var init, d := s[..|s| - 1], DigitValue(s[|s| - 1]);
      assert All(init, IsDigit);
      FixedValue(init);
      var v := Value(s);
      assert v == 10 * Value(init) + d;
      assert v / 10 == Value(init) && v % 10 == d;
      assert DigitChar(d) == s[|s| - 1];
      assert s == init + [s[|s| - 1]];
    }
  }

  /** The `date_str` field printed from a sort key. */
  function DateStr(d: Date): string {
    Fixed(d.year, 4) + "-" + Fixed(d.month, 2) + "-" + Fixed(d.day, 2)
  }

  // ---------------------------------------------------------------- the title line

  const EmDash: char := '\U{2014}'

  /** The separator class `[—-]`. */
  predicate IsDash(c: char) {
    c == EmDash || c == '-'
  }

  predicate IsNewline(c: char) {
    c == '\n'
  }

  /** `\d{4}-\d{2}-\d{2}` at the start of `t`. */
  predicate DatePrefix(t: string) {
    && |t| >= 10
    && All(t[..4], IsDigit) && t[4] == '-'
    && All(t[5..7], IsDigit) && t[7] == '-'
    && All(t[8..10], IsDigit)
  }

  /** What `re.match(r"(\d{4})-(\d{2})-(\d{2})\s+[—-]\s+(.+)", t)` accepts, written as the
      positions of its pieces: whitespace in `[10, k)`, the dash at `k`, whitespace in
      `[k + 1, p)`, and at `p` the first character of `.+`, which is anything but a newline. */
  ghost predicate HeadingMatches(t: string) {
    && DatePrefix(t)
    && exists k: nat, p: nat | 10 < k && k + 1 < p < |t| ::
         && All(t[10..k], IsSpace) && IsDash(t[k]) && All(t[k + 1..p], IsSpace) && t[p] != '\n'
  }

  /** The date read from a matching title line; `None` when the pattern does not match.
      The greedy `\s+` before the dash takes the whole run, since the dash is not
      whitespace; the `\s+` after it backtracks past newlines until `.` can match. */
  function MatchHeading(t: string): (r: Option<Date>)
    ensures r.Some? ==> DatePrefix(t) && r.value == Date(Value(t[..4]), Value(t[5..7]), Value(t[8..10]))
  {
    if !DatePrefix(t) then None
    else
      var k := 10 + SpanLen(t[10..], IsSpace);
      if k == 10 || k >= |t| || !IsDash(t[k]) then None
      else if k + 1 >= |t| || !IsSpace(t[k + 1]) then None
      else
        var p := k + 2 + SpanLen(t[k + 2..], IsNewline);
        if p >= |t| then None
        else Some(Date(Value(t[..4]), Value(t[5..7]), Value(t[8..10])))
  }

  /** The hand-written matcher accepts exactly the strings the pattern matches. */
  lemma HeadingMatchIff(t: string)
    ensures MatchHeading(t).Some? <==> HeadingMatches(t)
  {
    if MatchHeading(t).Some? {
      HeadingMatchSound(t);
    }
    if HeadingMatches(t) {
      HeadingMatchComplete(t);
    }
  }

  lemma HeadingMatchSound(t: string)
    requires MatchHeading(t).Some?
    ensures HeadingMatches(t)
  {
    var k := 10 + SpanLen(t[10..], IsSpace);
    var p := k + 2 + SpanLen(t[k + 2..], IsNewline);
    assert All(t[10..k], IsSpace) by {
      assert forall i | 0 <= i < k - 10 :: t[10..k][i] == t[10..][i];
    }
    var gap := t[k + 1..p];
    assert All(gap, IsSpace) by {
      forall i | 0 <= i < |gap| ensures IsSpace(gap[i]) {
        if i > 0 {
          assert gap[i] == t[k + 2..][i - 1];
        }
      }
    }
    assert t[p] == t[k + 2..][p - (k + 2)];
  }

  lemma HeadingMatchComplete(t: string)
    requires HeadingMatches(t)
    ensures MatchHeading(t).Some?
  {
    var k: nat, p: nat :| 10 < k && k + 1 < p < |t|
      && All(t[10..k], IsSpace) && IsDash(t[k]) && All(t[k + 1..p], IsSpace) && t[p] != '\n';
    HeadingAt(t, k, p);
  }

  /** The matcher accepts a line with the pattern's pieces at `k` and `p`. */
  lemma HeadingAt(t: string, k: nat, p: nat)
    requires DatePrefix(t) && 10 < k && k + 1 < p < |t|
    requires All(t[10..k], IsSpace) && IsDash(t[k]) && All(t[k + 1..p], IsSpace) && t[p] != '\n'
    ensures MatchHeading(t).Some?
  {
    var s1 := t[10..];
    forall i | 0 <= i < k - 10 ensures IsSpace(s1[i]) {
      assert s1[i] == t[10..k][i];
    }
    assert s1[k - 10] == t[k];
    SpanLenUnique(s1, IsSpace, k - 10);
    assert t[k + 1] == t[k + 1..p][0];
    var s2 := t[k + 2..];
    assert s2[p - k - 2] == t[p];
    assert SpanLen(s2, IsNewline) <= p - k - 2;
  }

  /** On a normalised line the pattern reads simply: a date, a space, `—` or `-`, a space,
      and at least one more character. */
  lemma HeadingOnNormalLine(t: string)
    requires IsNormal(t)
    ensures MatchHeading(t).Some? <==>
      DatePrefix(t) && |t| > 13 && t[10] == ' ' && IsDash(t[11]) && t[12] == ' '
  {
    if DatePrefix(t) && |t| > 10 && t[10] == ' ' {
      assert t[11] != ' ';
      assert !IsSpace(t[10..][1]);
      SpanLenUnique(t[10..], IsSpace, 1);
      if |t| > 13 && IsDash(t[11]) && t[12] == ' ' {
        assert !IsNewline(t[12..][1]);
        SpanLenUnique(t[13..], IsNewline, 0);
      }
    }
  }

  // ---------------------------------------------------------------- the entry record

  /** `extract_entry_info` given the inner text of the first `<h3>` (if any), of the first
      `<p class="entry-meta">` (if any), and the entry's path relative to the site root. */
  function ParseEntry(relPath: string, heading: Option<string>, summary: Option<string>)
    : (r: Result<EntryInfo, JournalError>)
    ensures heading.None? ==> r == Failure(MissingTitleHeading)
    ensures heading.Some? && !HeadingMatches(Normalize(heading.value)) ==> r == Failure(MalformedTitleLine)
    ensures r.Success? <==> heading.Some? && HeadingMatches(Normalize(heading.value))
    ensures r.Success? ==>
      var e := r.value;
      && e.relPath == relPath
      && e.titleLine == Normalize(heading.value)
      && e.dateStr == e.titleLine[..10]
      && e.sortKey == Date(Value(e.titleLine[..4]), Value(e.titleLine[5..7]), Value(e.titleLine[8..10]))
      && e.meta == (if summary.Some? then Normalize(summary.value) else "")
  {
    match heading
    case None => Failure(MissingTitleHeading)
    case Some(h) =>
      var titleLine := Normalize(h);
      HeadingMatchIff(titleLine);
      match MatchHeading(titleLine)
      case None => Failure(MalformedTitleLine)
      case Some(date) =>
        DateStrRoundTrip(titleLine);
        var meta := if summary.Some? then Normalize(summary.value) else "";
        Success(EntryInfo(relPath, DateStr(date), titleLine, meta, date))
  }

  /** Printing the date read from a title line gives back the line's first ten characters. */
  lemma DateStrRoundTrip(t: string)
    requires DatePrefix(t)
    ensures DateStr(Date(Value(t[..4]), Value(t[5..7]), Value(t[8..10]))) == t[..10]
  {
    FixedValue(t[..4]);
    FixedValue(t[5..7]);
    FixedValue(t[8..10]);
    assert t[..10] == t[..4] + "-" + t[5..7] + "-" + t[8..10];
  }

  /** Month and day are taken as written: `2025-13-00 — x` is accepted as month 13, day 0. */
  lemma NoCalendarCheck()
    ensures MatchHeading("2025-13-00 - x") == Some(Date(2025, 13, 0))
  {
    var t := "2025-13-00 - x";
    assert DatePrefix(t);
    SpanLenUnique(t[10..], IsSpace, 1);
    SpanLenUnique(t[13..], IsNewline, 0);
    assert t[..4] == "2025" && t[5..7] == "13" && t[8..10] == "00";
    YearValue();
    MonthDayValues();
  }

  lemma YearValue()
    ensures Value("2025") == 2025
  {
    assert "2025"[..3] == "202" && "202"[..2] == "20" && "20"[..1] == "2" && "2"[..0] == "";
  }

  lemma MonthDayValues()
    ensures Value("13") == 13 && Value("00") == 0
  {
    assert "13"[..1] == "1" && "1"[..0] == "";
    assert "00"[..1] == "0" && "0"[..0] == "";
  }
}
