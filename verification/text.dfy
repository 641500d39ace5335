/**
  The string primitives the publisher gets from Python's `str` type and from
  the handful of regular expressions it uses: whitespace classes, stripping,
  run squeezing (`re.sub(r"\s+", ...)`), filtering (`re.sub(r"[^...]", "")`),
  substring search, `"\n".join` and `str.split`.
*/
module Text {
  import opened Wrappers

  /** Python's `str.isspace`, which is also the class `\s` matches and what `str.strip()` removes. */
  predicate IsSpace(c: char) {
    || ('\t' <= c <= '\r')
    || ('\U{1C}' <= c <= ' ')
    || c == '\U{85}' || c == '\U{A0}' || c == '\U{1680}'
    || ('\U{2000}' <= c <= '\U{200A}')
    || c == '\U{2028}' || c == '\U{2029}' || c == '\U{202F}' || c == '\U{205F}' || c == '\U{3000}'
  }

  predicate NotSpace(c: char) {
    !IsSpace(c)
  }

  /** An ASCII decimal digit. */
  predicate IsDigit(c: char) {
    '0' <= c <= '9'
  }

  predicate All(s: string, p: char -> bool) {
    forall i | 0 <= i < |s| :: p(s[i])
  }

  // ---------------------------------------------------------------- runs and stripping

  /** Length of the longest prefix of `s` whose characters all satisfy `p`. */
  function SpanLen(s: string, p: char -> bool): (n: nat)
    ensures n <= |s|
    ensures forall i | 0 <= i < n :: p(s[i])
    ensures n == |s| || !p(s[n])
  {
    if |s| == 0 || !p(s[0]) then 0 else 1 + SpanLen(s[1..], p)
  }

  /** The leading run is unique: any `n` that is all-`p` and stops at a non-`p` is `SpanLen`. */
  lemma SpanLenUnique(s: string, p: char -> bool, n: nat)
    requires n <= |s|
    requires forall i | 0 <= i < n :: p(s[i])
    requires n == |s| || !p(s[n])
    ensures SpanLen(s, p) == n
  {
  }

  /** Length of the longest suffix of `s` whose characters all satisfy `p`. */
  function RSpanLen(s: string, p: char -> bool): (n: nat)
    ensures n <= |s|
    ensures forall i | |s| - n <= i < |s| :: p(s[i])
    ensures n == |s| || !p(s[|s| - n - 1])
  {
    if |s| == 0 || !p(s[|s| - 1]) then 0 else 1 + RSpanLen(s[..|s| - 1], p)
  }

  /** The trailing run is unique in the same way. */
  lemma {:induction false} RSpanLenUnique(s: string, p: char -> bool, n: nat)
    requires n <= |s|
    requires forall i | |s| - n <= i < |s| :: p(s[i])
    requires n == |s| || !p(s[|s| - n - 1])
    ensures RSpanLen(s, p) == n
    decreases |s|
  {
    if n > 0 {
      RSpanLenUnique(s[..|s| - 1], p, n - 1);
    }
  }

  /** `str.lstrip()`: the suffix left after the leading whitespace. */
  function LStrip(s: string): (r: string)
    ensures |r| <= |s| && r == s[|s| - |r|..]
    ensures All(s[..|s| - |r|], IsSpace)
    ensures |r| > 0 ==> NotSpace(r[0])
  {
    s[SpanLen(s, IsSpace)..]
  }

  /** `str.rstrip()`: the prefix left before the trailing whitespace. */
  function RStrip(s: string): (r: string)
    ensures |r| <= |s| && r == s[..|r|]
    ensures All(s[|r|..], IsSpace)
    ensures |r| > 0 ==> NotSpace(r[|r| - 1])
  {
    s[..|s| - RSpanLen(s, IsSpace)]
  }

  /** `str.strip()`: a slice of `s` with whitespace only outside it and none at its ends. */
  function Strip(s: string): (r: string)
    ensures |r| > 0 ==> NotSpace(r[0]) && NotSpace(r[|r| - 1])
  {
    LStrip(RStrip(s))
  }

  /** A string that neither starts nor ends with whitespace is unchanged by `strip()`. */
  lemma StripIdentity(s: string)
    requires |s| > 0 ==> NotSpace(s[0]) && NotSpace(s[|s| - 1])
    ensures Strip(s) == s
  {
    var m := RStrip(s);
    var r := LStrip(m);
  }

  /** A leading whitespace character makes no difference to `strip()`. */
  lemma StripSpaceBefore(c: char, s: string)
    requires IsSpace(c)
    ensures Strip([c] + s) == Strip(s)
  {
    if RSpanLen(s, IsSpace) == |s| {
      RSpanLenUnique([c] + s, IsSpace, |s| + 1);
    } else {
      RStripCons(c, s);
      LStripSpaceCons(c, RStrip(s));
    }
  }

  /** A character in front of a string that does not end all-whitespace stays in front
      after `rstrip()`. */
  lemma RStripCons(c: char, s: string)
    requires RSpanLen(s, IsSpace) < |s|
    ensures RStrip([c] + s) == [c] + RStrip(s)
  {
    var t := [c] + s;
    var n := RSpanLen(s, IsSpace);
    assert t[1..] == s;
    forall i | |t| - n <= i < |t| ensures IsSpace(t[i]) {
      assert t[i] == s[i - 1];
    }
    assert t[|t| - n - 1] == s[|s| - n - 1];
    RSpanLenUnique(t, IsSpace, n);
    assert t[..|t| - n] == [c] + s[..|s| - n];
  }

  /** A leading whitespace character makes no difference to `lstrip()`. */
  lemma LStripSpaceCons(c: char, m: string)
    requires IsSpace(c)
    ensures LStrip([c] + m) == LStrip(m)
  {
    SpanLenUnique([c] + m, IsSpace, 1 + SpanLen(m, IsSpace));
  }

  /** Where `Strip(s)` starts inside `s`. */
  lemma StripIsSlice(s: string) returns (a: nat)
    ensures a + |Strip(s)| <= |s|
    ensures Strip(s) == s[a..a + |Strip(s)|]
    ensures All(s[..a], IsSpace) && All(s[a + |Strip(s)|..], IsSpace)
  {
    var m := RStrip(s);
    a := |m| - |LStrip(m)|;
    assert a + |Strip(s)| == |m|;
    assert s[..a] == m[..a];
  }

  /** Stripping only ever removes whitespace, so it keeps every non-space character. */
  lemma {:induction false} StripKeepsNonSpace(s: string, keep: char -> bool)
    requires forall c :: keep(c) ==> NotSpace(c)
    ensures Filter(Strip(s), keep) == Filter(s, keep)
  {
    var a := StripIsSlice(s);
    var b := a + |Strip(s)|;
    forall i | 0 <= i < a ensures !keep(s[i]) {
      assert IsSpace(s[..a][i]);
    }
    forall i | b <= i < |s| ensures !keep(s[i]) {
      assert IsSpace(s[b..][i - b]);
    }
    FilterMiddle(s, a, b, keep);
  }

  /** Replaces every maximal run of characters satisfying `inRun` by the single character `c`
      (the effect of `re.sub(r"X+", c, s)` for a one-character class `X`). */
  function Squeeze(s: string, inRun: char -> bool, c: char): (r: string)
    ensures forall i | 0 <= i < |r| :: r[i] == c || !inRun(r[i])
    ensures |s| > 0 ==> |r| > 0 && (r[0] == c || r[0] == s[0])
    ensures inRun(c) ==> forall i | 0 <= i < |r| - 1 :: !(r[i] == c && r[i + 1] == c)
    decreases |s|
  {
    if |s| == 0 then []
    else if inRun(s[0]) then [c] + Squeeze(s[SpanLen(s, inRun)..], inRun, c)
    else [s[0]] + Squeeze(s[1..], inRun, c)
  }

  /** A string with no runs to squeeze comes back unchanged. */
  lemma {:induction false} SqueezeIdentity(s: string, inRun: char -> bool, c: char)
    requires forall i | 0 <= i < |s| && inRun(s[i]) :: s[i] == c && (i + 1 < |s| ==> !inRun(s[i + 1]))
    ensures Squeeze(s, inRun, c) == s
    decreases |s|
  {
    if |s| > 0 {
      if inRun(s[0]) {
        SpanLenUnique(s, inRun, 1);
      }
      SqueezeIdentity(s[1..], inRun, c);
    }
  }

  /** Squeezing keeps every character that is neither in a run nor the replacement, in order. */
  lemma {:induction false} SqueezeKeeps(s: string, inRun: char -> bool, c: char, keep: char -> bool)
    requires !keep(c)
    requires forall x :: keep(x) ==> !inRun(x)
    ensures Filter(Squeeze(s, inRun, c), keep) == Filter(s, keep)
    decreases |s|
  {
    if |s| > 0 {
      if inRun(s[0]) {
        var n := SpanLen(s, inRun);
        assert s == s[..n] + s[n..];
        FilterConcat(s[..n], s[n..], keep);
        FilterNone(s[..n], keep);
        SqueezeKeeps(s[n..], inRun, c, keep);
        FilterConcat([c], Squeeze(s[n..], inRun, c), keep);
      } else {
        SqueezeKeeps(s[1..], inRun, c, keep);
        FilterConcat([s[0]], Squeeze(s[1..], inRun, c), keep);
      }
    }
  }

  // ---------------------------------------------------------------- filtering and case

  /** The characters of `s` that satisfy `keep`, in order (`re.sub(r"[^...]", "", s)`). */
  function Filter(s: string, keep: char -> bool): (r: string)
    ensures |r| <= |s|
    ensures All(r, keep)
  {
    if |s| == 0 then [] else (if keep(s[0]) then [s[0]] else []) + Filter(s[1..], keep)
  }

  lemma {:induction false} FilterConcat(a: string, b: string, keep: char -> bool)
    ensures Filter(a + b, keep) == Filter(a, keep) + Filter(b, keep)
    decreases |a|
  {
    if |a| > 0 {
      assert (a + b)[0] == a[0];
      assert (a + b)[1..] == a[1..] + b;
      FilterConcat(a[1..], b, keep);
    } else {
      assert a + b == b;
    }
  }

  lemma {:induction false} FilterAll(s: string, keep: char -> bool)
    requires All(s, keep)
    ensures Filter(s, keep) == s
    decreases |s|
  {
    if |s| > 0 {
      FilterAll(s[1..], keep);
    }
  }

  lemma {:induction false} FilterNone(s: string, keep: char -> bool)
    requires forall i | 0 <= i < |s| :: !keep(s[i])
    ensures Filter(s, keep) == []
    decreases |s|
  {
    if |s| > 0 {
      FilterNone(s[1..], keep);
    }
  }

  /** Filtering twice with a narrower second filter is the second filter alone. */
  lemma {:induction false} FilterFilter(s: string, wide: char -> bool, narrow: char -> bool)
    requires forall c :: narrow(c) ==> wide(c)
    ensures Filter(Filter(s, wide), narrow) == Filter(s, narrow)
    decreases |s|
  {
    if |s| > 0 {
      FilterFilter(s[1..], wide, narrow);
      FilterConcat(if wide(s[0]) then [s[0]] else [], Filter(s[1..], wide), narrow);
    }
  }

  /** Filtering a string whose characters outside `[a, b)` are all dropped is filtering the slice. */
  lemma {:induction false} FilterMiddle(s: string, a: nat, b: nat, keep: char -> bool)
    requires a <= b <= |s|
    requires forall i | 0 <= i < a :: !keep(s[i])
    requires forall i | b <= i < |s| :: !keep(s[i])
    ensures Filter(s[a..b], keep) == Filter(s, keep)
  {
    var p, m, q := s[..a], s[a..b], s[b..];
    assert s == (p + m) + q;
    forall i | 0 <= i < |p| ensures !keep(p[i]) {
      assert p[i] == s[i];
    }
    forall i | 0 <= i < |q| ensures !keep(q[i]) {
      assert q[i] == s[b + i];
    }
    FilterNone(p, keep);
    FilterNone(q, keep);
    FilterConcat(p + m, q, keep);
    FilterConcat(p, m, keep);
    assert Filter(p + m, keep) == Filter(m, keep);
  }

  /** An empty filter result means no character was kept. */
  lemma {:induction false} FilterEmpty(s: string, keep: char -> bool)
    requires Filter(s, keep) == []
    ensures forall i | 0 <= i < |s| :: !keep(s[i])
    decreases |s|
  {
    if |s| > 0 {
      FilterEmpty(s[1..], keep);
      assert forall i | 1 <= i < |s| :: s[i] == s[1..][i - 1];
    }
  }

  /** ASCII lower-casing of one character. */
  function LowerChar(c: char): char {
    if 'A' <= c <= 'Z' then (c as int + 32) as char else c
  }

  /** `str.lower()` restricted to ASCII letters. */
  function Lower(s: string): (r: string)
    ensures |r| == |s|
  {
    seq(|s|, i requires 0 <= i < |s| => LowerChar(s[i]))
  }

  // ---------------------------------------------------------------- substring search

  /** `pat` occurs in `s` starting at index `k`. */
  predicate OccursAt(s: string, pat: string, k: nat) {
    k + |pat| <= |s| && s[k..k + |pat|] == pat
  }

  /** `s.find(pat, from)`: the first index at or after `from` where `pat` occurs. */
  function Find(s: string, pat: string, from: nat): (r: Option<nat>)
    ensures r.Some? ==> from <= r.value && OccursAt(s, pat, r.value)
    ensures r.Some? ==> forall k | from <= k < r.value :: !OccursAt(s, pat, k)
    ensures r.None? ==> forall k | from <= k :: !OccursAt(s, pat, k)
    decreases |s| - from
  {
    if from + |pat| > |s| then None
    else if OccursAt(s, pat, from) then Some(from)
    else Find(s, pat, from + 1)
  }

  /** Python's `pat in s`. */
  function Contains(s: string, pat: string): (b: bool)
    ensures b <==> exists k :: OccursAt(s, pat, k)
  {
    Find(s, pat, 0).Some?
  }

  /** `s.split(c, 1)[-1]`: the text after the first `c`, or all of `s` when `c` does not occur. */
  function AfterFirst(s: string, c: char): (r: string)
    ensures c !in s ==> r == s
    ensures c in s ==> exists k | 0 <= k < |s| :: s[k] == c && c !in s[..k] && r == s[k + 1..]
  {
    match Find(s, [c], 0)
    case None =>
      assert forall k | 0 <= k < |s| :: s[k] != c by {
        forall k | 0 <= k < |s| ensures s[k] != c {
          assert !OccursAt(s, [c], k);
          assert s[k..k + 1] == [s[k]];
        }
      }
      s
    case Some(k) =>
      assert s[k..k + 1] == [c];
      assert s[k] == c;
      assert c !in s[..k] by {
        forall j | 0 <= j < k ensures s[j] != c {
          assert !OccursAt(s, [c], j);
          assert s[j..j + 1] == [s[j]];
        }
      }
      s[k + 1..]
  }

  // ---------------------------------------------------------------- concatenation

  /** Concatenation regroups freely. */
  lemma Assoc(a: string, b: string, c: string)
    ensures a + b + c == a + (b + c)
  {
  }

  /** The pieces of `ps` written one after another (`"".join(ps)`). */
  function Concat(ps: seq<string>): string
    decreases |ps|
  {
    if |ps| == 0 then "" else ps[0] + Concat(ps[1..])
  }

  /** Concatenating two lists of pieces is concatenating their concatenations. */
  lemma {:induction false} ConcatAppend(a: seq<string>, b: seq<string>)
    ensures Concat(a + b) == Concat(a) + Concat(b)
    decreases |a|
  {
    if |a| == 0 {
      assert a + b == b;
    } else {
      assert (a + b)[1..] == a[1..] + b;
      ConcatAppend(a[1..], b);
      Assoc(a[0], Concat(a[1..]), Concat(b));
    }
  }

  // ---------------------------------------------------------------- lines

  /** `sep.join(lines)` for a one-character separator. */
  function Join(lines: seq<string>, sep: char): (r: string)
    ensures |lines| == 1 ==> r == lines[0]
    decreases |lines|
  {
    if |lines| == 0 then ""
    else if |lines| == 1 then lines[0]
    else lines[0] + [sep] + Join(lines[1..], sep)
  }

  /** `s.split(sep)`: the pieces between separators; always at least one piece. */
  function Split(s: string, sep: char): (r: seq<string>)
    ensures |r| > 0
    ensures forall i | 0 <= i < |r| :: sep !in r[i]
    decreases |s|
  {
    if |s| == 0 then [""]
    else if s[0] == sep then [""] + Split(s[1..], sep)
    else
      var rest := Split(s[1..], sep);
      [[s[0]] + rest[0]] + rest[1..]
  }

  /** A separator-free prefix joins the first piece. */
  lemma {:induction false} SplitPrefix(a: string, b: string, sep: char)
    requires sep !in a
    ensures Split(a + b, sep) == [a + Split(b, sep)[0]] + Split(b, sep)[1..]
    decreases |a|
  {
    if |a| > 0 {
      assert (a + b)[1..] == a[1..] + b;
      assert (a + b)[0] == a[0];
      SplitPrefix(a[1..], b, sep);
      assert [a[0]] + (a[1..] + Split(b, sep)[0]) == a + Split(b, sep)[0];
    } else {
      assert a + b == b;
      assert a + Split(b, sep)[0] == Split(b, sep)[0];
      assert Split(b, sep) == [Split(b, sep)[0]] + Split(b, sep)[1..];
    }
  }

  /** Splitting undoes joining, for lines free of the separator. */
  lemma {:induction false} SplitJoin(lines: seq<string>, sep: char)
    requires |lines| > 0
    requires forall i | 0 <= i < |lines| :: sep !in lines[i]
    ensures Split(Join(lines, sep), sep) == lines
    decreases |lines|
  {
    if |lines| == 1 {
      SplitPrefix(lines[0], "", sep);
      assert lines[0] + "" == lines[0];
    } else {
      SplitJoin(lines[1..], sep);
      var tail := [sep] + Join(lines[1..], sep);
      assert Join(lines, sep) == lines[0] + tail;
      SplitPrefix(lines[0], tail, sep);
      assert tail[1..] == Join(lines[1..], sep);
      assert Split(tail, sep) == [""] + lines[1..];
      assert lines[0] + "" == lines[0];
      assert lines == [lines[0]] + lines[1..];
    }
  }

  /** Joining undoes splitting. */
  lemma {:induction false} JoinSplit(s: string, sep: char)
    ensures Join(Split(s, sep), sep) == s
    decreases |s|
  {
    if |s| > 0 {
      JoinSplit(s[1..], sep);
      var rest := Split(s[1..], sep);
      if s[0] == sep {
        assert Split(s, sep)[1..] == rest;
        assert s == [sep] + s[1..];
      } else {
        var r := Split(s, sep);
        assert r[1..] == rest[1..];
        if |rest| == 1 {
          assert s == [s[0]] + s[1..];
        } else {
          assert Join(rest, sep) == rest[0] + [sep] + Join(rest[1..], sep);
          assert s == [s[0]] + s[1..];
        }
      }
    }
  }

  /** Replaces each `ch` in `s` by the string `rep` (`s.replace(ch, by)`). */
  function ReplaceChar(s: string, ch: char, rep: string): (r: string)
    decreases |s|
  {
    if |s| == 0 then "" else (if s[0] == ch then rep else [s[0]]) + ReplaceChar(s[1..], ch, rep)
  }

  lemma {:induction false} ReplaceCharConcat(x: string, y: string, ch: char, rep: string)
    ensures ReplaceChar(x + y, ch, rep) == ReplaceChar(x, ch, rep) + ReplaceChar(y, ch, rep)
    decreases |x|
  {
    if |x| > 0 {
      assert (x + y)[1..] == x[1..] + y;
      ReplaceCharConcat(x[1..], y, ch, rep);
      var h := if x[0] == ch then rep else [x[0]];
      Assoc(h, ReplaceChar(x[1..], ch, rep), ReplaceChar(y, ch, rep));
    } else {
      assert x + y == y;
    }
  }

  /** A text without `ch` is left as it is. */
  lemma {:induction false} ReplaceCharAbsent(x: string, ch: char, rep: string)
    requires ch !in x
    ensures ReplaceChar(x, ch, rep) == x
    decreases |x|
  {
    if |x| > 0 {
      ReplaceCharAbsent(x[1..], ch, rep);
      assert x == [x[0]] + x[1..];
    }
  }

  /** Joining a line in front of at least one more puts a separator after it. */
  lemma JoinCons(x: string, ms: seq<string>, sep: char)
    requires |ms| > 0
    ensures Join([x] + ms, sep) == x + ([sep] + Join(ms, sep))
  {
    var l := [x] + ms;
    assert l[0] == x && l[1..] == ms;
    assert Join(l, sep) == x + [sep] + Join(ms, sep);
    Assoc(x, [sep], Join(ms, sep));
  }

  // ---------------------------------------------------------------- words

  /** `s.split()`: the maximal runs of non-whitespace characters, in order. */
  function Words(s: string): (ws: seq<string>)
    ensures forall i | 0 <= i < |ws| :: |ws[i]| > 0 && All(ws[i], NotSpace)
    decreases |s|
  {
    if |s| == 0 then []
    else if IsSpace(s[0]) then Words(s[1..])
    else
      var n := SpanLen(s, NotSpace);
      assert All(s[..n], NotSpace);
      [s[..n]] + Words(s[n..])
  }

  /** Leading whitespace holds no word. */
  lemma {:induction false} WordsSkip(s: string, k: nat)
    requires k <= |s| && All(s[..k], IsSpace)
    ensures Words(s) == Words(s[k..])
    decreases k
  {
    if k > 0 {
      assert IsSpace(s[..k][0]);
      var t := s[1..][..k - 1];
      forall i | 0 <= i < k - 1 ensures IsSpace(t[i]) {
        assert t[i] == s[..k][i + 1];
      }
      WordsSkip(s[1..], k - 1);
      assert s[1..][k - 1..] == s[k..];
    }
  }

  /** Trailing whitespace holds no word. */
  lemma {:induction false} WordsTrail(s: string, b: string)
    requires All(b, IsSpace)
    ensures Words(s + b) == Words(s)
    decreases |s|
  {
    if |s| == 0 {
      assert s + b == b && b[..|b|] == b && b[|b|..] == [];
      WordsSkip(b, |b|);
    } else if IsSpace(s[0]) {
      assert (s + b)[1..] == s[1..] + b;
      WordsTrail(s[1..], b);
    } else {
      var n := SpanLen(s, NotSpace);
      var sb := s + b;
      forall i | 0 <= i < n ensures NotSpace(sb[i]) {
        assert sb[i] == s[i];
      }
      if n < |sb| {
        if n < |s| {
          assert sb[n] == s[n];
        } else {
          assert sb[n] == b[0];
        }
      }
      SpanLenUnique(sb, NotSpace, n);
      assert sb[..n] == s[..n];
      assert sb[n..] == s[n..] + b;
      WordsTrail(s[n..], b);
    }
  }

  /** Whitespace on both sides of a slice holds no word. */
  lemma WordsAroundSpaces(s: string, a: nat, b: nat)
    requires a <= b <= |s| && All(s[..a], IsSpace) && All(s[b..], IsSpace)
    ensures Words(s) == Words(s[a..b])
  {
    WordsSkip(s, a);
    assert s[a..] == s[a..b] + s[b..];
    WordsTrail(s[a..b], s[b..]);
  }

  /** A string of characters that all satisfy `p` has words that all satisfy `p`. */
  lemma {:induction false} WordsAll(s: string, p: char -> bool)
    requires All(s, p)
    ensures forall i | 0 <= i < |Words(s)| :: All(Words(s)[i], p)
    decreases |s|
  {
    if |s| > 0 {
      if IsSpace(s[0]) {
        assert All(s[1..], p);
        WordsAll(s[1..], p);
      } else {
        var n := SpanLen(s, NotSpace);
        assert All(s[..n], p) && All(s[n..], p);
        WordsAll(s[n..], p);
      }
    }
  }

  /** A string that starts with a word has at least one. */
  lemma WordsNonEmpty(s: string)
    requires |s| > 0 && NotSpace(s[0])
    ensures |Words(s)| > 0 && Words(s)[0] == s[..SpanLen(s, NotSpace)]
  {
  }

  /** The first and last characters of words joined by a separator. */
  lemma {:induction false} JoinEnds(ws: seq<string>, sep: char)
    requires |ws| > 0 && forall i | 0 <= i < |ws| :: |ws[i]| > 0
    ensures var j := Join(ws, sep);
      |j| > 0 && j[0] == ws[0][0] && j[|j| - 1] == ws[|ws| - 1][|ws[|ws| - 1]| - 1]
    decreases |ws|
  {
    if |ws| > 1 {
      JoinEnds(ws[1..], sep);
      JoinCons(ws[0], ws[1..], sep);
      assert ws == [ws[0]] + ws[1..];
    }
  }

  /** Joined words start and end with a non-whitespace character. */
  lemma JoinWordsEnds(ws: seq<string>, sep: char)
    requires forall i | 0 <= i < |ws| :: |ws[i]| > 0 && All(ws[i], NotSpace)
    ensures var m := Join(ws, sep); |m| > 0 ==> NotSpace(m[0]) && NotSpace(m[|m| - 1])
  {
    if |ws| > 0 {
      JoinEnds(ws, sep);
      var last := ws[|ws| - 1];
      assert All(ws[0], NotSpace) && All(last, NotSpace);
      assert NotSpace(ws[0][0]) && NotSpace(last[|last| - 1]);
    }
  }

  /** Squeezing the whitespace of any string: one `c` for leading whitespace, the words
      joined by `c`, and one `c` for trailing whitespace. */
  lemma SqueezedWords(s: string, c: char)
    ensures var k := SpanLen(s, IsSpace);
      Squeeze(s, IsSpace, c) == (if k > 0 then [c] else []) + (Join(Words(s), c) + Trail(s[k..], c))
  {
    var k := SpanLen(s, IsSpace);
    LeadingRun(s, k, c);
    SqueezeWords(s[k..], c);
  }

  /** The words joined start and end with a word character, and the trail is whitespace. */
  lemma WordsEnds(s: string, c: char)
    requires IsSpace(c)
    ensures var m := Join(Words(s), c); |m| > 0 ==> NotSpace(m[0]) && NotSpace(m[|m| - 1])
    ensures All(Trail(s, c), IsSpace)
  {
    JoinWordsEnds(Words(s), c);
    var b := Trail(s, c);
    if |b| > 0 {
      assert b == [c];
    }
  }

  /** Stripping joined words with optional whitespace around them gives the words back. */
  lemma StripJoined(m: string, b: string, c: char, lead: bool)
    requires IsSpace(c) && All(b, IsSpace)
    requires |m| > 0 ==> NotSpace(m[0]) && NotSpace(m[|m| - 1])
    ensures Strip((if lead then [c] else []) + (m + b)) == m
  {
    var a := if lead then [c] else [];
    assert All(a, IsSpace);
    Assoc(a, m, b);
    StripAround(a, m, b);
  }

  /** The leading whitespace run of length `k` squeezes to one `c`, and holds no word. */
  lemma LeadingRun(s: string, k: nat, c: char)
    requires k == SpanLen(s, IsSpace)
    ensures Squeeze(s, IsSpace, c) == (if k > 0 then [c] else []) + Squeeze(s[k..], IsSpace, c)
    ensures Words(s) == Words(s[k..])
    ensures k < |s| ==> NotSpace(s[k..][0])
  {
    assert All(s[..k], IsSpace);
    WordsSkip(s, k);
    if k == 0 {
      assert s[k..] == s;
    }
  }

  /** A leading stretch outside every run is copied through by `Squeeze`. */
  lemma {:induction false} SqueezeRun(s: string, n: nat, inRun: char -> bool, c: char)
    requires n <= |s| && forall i | 0 <= i < n :: !inRun(s[i])
    ensures Squeeze(s, inRun, c) == s[..n] + Squeeze(s[n..], inRun, c)
    decreases n
  {
    if n > 0 {
      var t := s[1..];
      forall i | 0 <= i < n - 1 ensures !inRun(t[i]) {
        assert t[i] == s[i + 1];
      }
      SqueezeRun(t, n - 1, inRun, c);
      var rest := Squeeze(s[n..], inRun, c);
      assert t[n - 1..] == s[n..];
      assert Squeeze(s, inRun, c) == [s[0]] + (t[..n - 1] + rest);
      assert s[..n] == [s[0]] + t[..n - 1];
      Assoc([s[0]], t[..n - 1], rest);
    }
  }

  /** Squeezing the whitespace of a string that starts with a word joins its words with `c`,
      and adds one more `c` when the string ends in whitespace. */
  lemma {:induction false} SqueezeWords(s: string, c: char)
    requires |s| > 0 ==> NotSpace(s[0])
    ensures Squeeze(s, IsSpace, c) == Join(Words(s), c) + Trail(s, c)
    decreases |s|
  {
    if |s| > 0 {
      var n := SpanLen(s, NotSpace);
      var w := s[..n];
      SqueezeRun(s, n, IsSpace, c);
      if n == |s| {
        assert s[n..] == [] && w == s;
      } else {
        var k := SpanLen(s[n..], IsSpace);
        var r' := s[n + k..];
        AfterWord(s, n, k, c);
        SqueezeWords(r', c);
        SqueezeWordsCons(Squeeze(s, IsSpace, c), w, Squeeze(r', IsSpace, c), Words(s), Words(r'),
                         Trail(s, c), Trail(r', c), c);
      }
    }
  }

  /** How a string that starts with a word of length `n`, followed by `k` whitespace
      characters, squeezes, splits into words and ends. */
  lemma AfterWord(s: string, n: nat, k: nat, c: char)
    requires 0 < n < |s| && n == SpanLen(s, NotSpace) && k == SpanLen(s[n..], IsSpace)
    ensures Squeeze(s, IsSpace, c) == s[..n] + ([c] + Squeeze(s[n + k..], IsSpace, c))
    ensures Words(s) == [s[..n]] + Words(s[n + k..])
    ensures |s[n + k..]| > 0 ==> NotSpace(s[n + k]) && Trail(s, c) == Trail(s[n + k..], c)
    ensures |s[n + k..]| > 0 ==> |Words(s[n + k..])| > 0
    ensures |s[n + k..]| == 0 ==> Trail(s, c) == [c]
  {
    AfterWordSqueeze(s, n, k, c);
    AfterWordWords(s, n, k);
    AfterWordTrail(s, n, k, c);
    if |s[n + k..]| > 0 {
      WordsNonEmpty(s[n + k..]);
    }
  }

  lemma AfterWordSqueeze(s: string, n: nat, k: nat, c: char)
    requires 0 < n < |s| && n == SpanLen(s, NotSpace) && k == SpanLen(s[n..], IsSpace)
    ensures Squeeze(s, IsSpace, c) == s[..n] + ([c] + Squeeze(s[n + k..], IsSpace, c))
  {
    var r := s[n..];
    assert r[k..] == s[n + k..];
    assert IsSpace(r[0]);
    SqueezeRun(s, n, IsSpace, c);
  }

  lemma AfterWordWords(s: string, n: nat, k: nat)
    requires 0 < n < |s| && n == SpanLen(s, NotSpace) && k == SpanLen(s[n..], IsSpace)
    ensures Words(s) == [s[..n]] + Words(s[n + k..])
  {
    var r := s[n..];
    assert r[k..] == s[n + k..];
    assert IsSpace(r[0]);
    WordsSkip(r, k);
  }

  lemma AfterWordTrail(s: string, n: nat, k: nat, c: char)
    requires 0 < n < |s| && n == SpanLen(s, NotSpace) && k == SpanLen(s[n..], IsSpace)
    ensures |s[n + k..]| > 0 ==> NotSpace(s[n + k]) && Trail(s, c) == Trail(s[n + k..], c)
    ensures |s[n + k..]| == 0 ==> Trail(s, c) == [c]
  {
    var r := s[n..];
    assert IsSpace(r[0]);
    if n + k == |s| {
      assert s[|s| - 1] == r[k - 1];
    } else {
      assert s[n + k] == r[k];
      var t := s[n + k..];
      assert s[|s| - 1] == t[|t| - 1];
    }
  }

  /** The step of `SqueezeWords` past one word and the whitespace after it. */
  lemma SqueezeWordsCons(sq: string, w: string, sr: string, ws: seq<string>, wr: seq<string>,
                         t: string, tr: string, c: char)
    requires sq == w + ([c] + sr) && ws == [w] + wr && sr == Join(wr, c) + tr
    requires |wr| == 0 ==> sr == [] && t == [c]
    requires |wr| > 0 ==> t == tr
    ensures sq == Join(ws, c) + t
  {
    if |wr| == 0 {
      assert ws == [w];
    } else {
      JoinCons(w, wr, c);
      Regroup(w, [c], Join(wr, c), tr);
    }
  }

  /** The separator `Squeeze` leaves for whitespace at the end of `s`. */
  function Trail(s: string, c: char): string {
    if |s| > 0 && IsSpace(s[|s| - 1]) then [c] else []
  }

  lemma Regroup(a: string, b: string, c: string, d: string)
    ensures a + (b + (c + d)) == a + (b + c) + d
  {
  }

  /** Whitespace around a string that neither starts nor ends with whitespace is what
      `strip()` removes. */
  lemma StripAround(a: string, m: string, b: string)
    requires All(a, IsSpace) && All(b, IsSpace)
    requires |m| > 0 ==> NotSpace(m[0]) && NotSpace(m[|m| - 1])
    ensures Strip(a + m + b) == m
  {
    var x := a + m + b;
    if |m| == 0 {
      assert x == a + b;
      forall i | 0 <= i < |x| ensures IsSpace(x[i]) {
        if i < |a| { assert x[i] == a[i]; } else { assert x[i] == b[i - |a|]; }
      }
      RSpanLenUnique(x, IsSpace, |x|);
    } else {
      forall i | |x| - |b| <= i < |x| ensures IsSpace(x[i]) {
        assert x[i] == b[i - |a| - |m|];
      }
      assert x[|x| - |b| - 1] == m[|m| - 1];
      RSpanLenUnique(x, IsSpace, |b|);
      assert RStrip(x) == a + m;
      forall i | 0 <= i < |a| ensures IsSpace((a + m)[i]) {
        assert (a + m)[i] == a[i];
      }
      assert (a + m)[|a|] == m[0];
      SpanLenUnique(a + m, IsSpace, |a|);
      assert (a + m)[|a|..] == m;
    }
  }
}
