/**
  `list_entries` and `build_archive_ul`: every entry file that parses, newest
  first, and the `<li>` lines that go between the archive markers.
*/
module Archive {
  import opened Wrappers
  import opened Text
  import opened Entry

  /** What the publisher reads from one entry file: its path relative to the project, the
      text inside its first `<h3>`, and the text inside its first `entry-meta` paragraph. */
  datatype EntryDoc = EntryDoc(relPath: string, heading: Option<string>, summary: Option<string>)

  function Info(d: EntryDoc): Result<EntryInfo, JournalError> {
    ParseEntry(d.relPath, d.heading, d.summary)
  }

  // ---------------------------------------------------------------- dates

  /** `a <= b` for `(year, month, day)` tuples, compared left to right. */
  predicate DateLe(a: Date, b: Date) {
    || a.year < b.year
    || (a.year == b.year && a.month < b.month)
    || (a.year == b.year && a.month == b.month && a.day <= b.day)
  }

  /** Tuple comparison is a total order on dates. */
  lemma DateOrder(a: Date, b: Date, c: Date)
    ensures DateLe(a, b) || DateLe(b, a)
    ensures DateLe(a, b) && DateLe(b, a) ==> a == b
    ensures DateLe(a, b) && DateLe(b, c) ==> DateLe(a, c)
  {
  }

  // ---------------------------------------------------------------- parsing all entries

  /** What reading every entry file gives, file by file. */
  function Infos(docs: seq<EntryDoc>): (r: seq<Result<EntryInfo, JournalError>>)
    ensures |r| == |docs|
    ensures forall i | 0 <= i < |docs| :: r[i] == Info(docs[i])
  {
    seq(|docs|, i requires 0 <= i < |docs| => Info(docs[i]))
  }

  /** The entries that parsed, in the order the files were listed; the others are skipped. */
  function Successes(rs: seq<Result<EntryInfo, JournalError>>): (r: seq<EntryInfo>)
    ensures |r| <= |rs|
    ensures forall e | e in r :: Success(e) in rs
    decreases |rs|
  {
    if |rs| == 0 then []
    else (if rs[0].Success? then [rs[0].value] else []) + Successes(rs[1..])
  }

  /** Every entry that parsed is kept. */
  lemma {:induction false} SuccessesKeep(rs: seq<Result<EntryInfo, JournalError>>, i: nat)
    requires i < |rs| && rs[i].Success?
    ensures rs[i].value in Successes(rs)
    decreases i
  {
    if i > 0 {
      SuccessesKeep(rs[1..], i - 1);
      assert rs[1..][i - 1] == rs[i];
    }
  }

  /** The entries of all files that parse, in file order. */
  function Parsed(docs: seq<EntryDoc>): seq<EntryInfo> {
    Successes(Infos(docs))
  }

  // ---------------------------------------------------------------- the stable sort

  /** Newest first: the dates never increase along `s`. */
  predicate Descending(s: seq<EntryInfo>) {
    forall i, j | 0 <= i < j < |s| :: DateLe(s[j].sortKey, s[i].sortKey)
  }

  /** The entries of `s` dated `k`, in their order in `s`. */
  function WithKey(s: seq<EntryInfo>, k: Date): (r: seq<EntryInfo>)
    ensures |r| <= |s|
    decreases |s|
  {
    if |s| == 0 then []
    else (if s[0].sortKey == k then [s[0]] else []) + WithKey(s[1..], k)
  }

  lemma {:induction false} WithKeyAppend(a: seq<EntryInfo>, b: seq<EntryInfo>, k: Date)
    ensures WithKey(a + b, k) == WithKey(a, k) + WithKey(b, k)
    decreases |a|
  {
    if |a| == 0 {
      assert a + b == b;
    } else {
      assert (a + b)[1..] == a[1..] + b;
      WithKeyAppend(a[1..], b, k);
    }
  }

  lemma {:induction false} WithKeyNone(s: seq<EntryInfo>, k: Date)
    requires forall i | 0 <= i < |s| :: s[i].sortKey != k
    ensures WithKey(s, k) == []
    decreases |s|
  {
    if |s| > 0 {
      WithKeyNone(s[1..], k);
    }
  }

  /** Puts `x` into the descending `s` after every entry at least as new, which is where a
      stable sort puts an entry that comes later in the input. */
  function Insert(x: EntryInfo, s: seq<EntryInfo>): (r: seq<EntryInfo>)
    decreases |s|
  {
    if |s| == 0 then [x]
    else if DateLe(x.sortKey, s[0].sortKey) then [s[0]] + Insert(x, s[1..])
    else [x] + s
  }

  /** `Insert` splits `s` at the first entry older than `x`. */
  lemma {:induction false} InsertSplits(x: EntryInfo, s: seq<EntryInfo>) returns (n: nat)
    ensures n <= |s| && Insert(x, s) == s[..n] + [x] + s[n..]
    ensures forall i | 0 <= i < n :: DateLe(x.sortKey, s[i].sortKey)
    ensures n < |s| ==> !DateLe(x.sortKey, s[n].sortKey)
    decreases |s|
  {
    if |s| == 0 {
      n := 0;
    } else if DateLe(x.sortKey, s[0].sortKey) {
      var m := InsertSplits(x, s[1..]);
      n := m + 1;
      assert s[..n] == [s[0]] + s[1..][..m];
      assert s[n..] == s[1..][m..];
      forall i | 0 <= i < n ensures DateLe(x.sortKey, s[i].sortKey) {
        if i > 0 {
          assert s[i] == s[1..][i - 1];
        }
      }
    } else {
      n := 0;
      assert s[..0] == [] && s[0..] == s;
    }
  }

  lemma InsertDescending(x: EntryInfo, s: seq<EntryInfo>)
    requires Descending(s)
    ensures Descending(Insert(x, s))
  {
    var n := InsertSplits(x, s);
    var r := Insert(x, s);
    forall i, j | 0 <= i < j < |r| ensures DateLe(r[j].sortKey, r[i].sortKey) {
      if j < n {
        assert r[i] == s[i] && r[j] == s[j];
      } else if j == n {
        assert r[i] == s[i] && r[j] == x;
      } else if i < n {
        assert r[i] == s[i] && r[j] == s[j - 1];
        DateOrder(s[j - 1].sortKey, s[i].sortKey, s[i].sortKey);
      } else if i == n {
        assert r[i] == x && r[j] == s[j - 1];
        DateOrder(s[j - 1].sortKey, s[n].sortKey, x.sortKey);
      } else {
        assert r[i] == s[i - 1] && r[j] == s[j - 1];
      }
    }
  }

  lemma InsertMultiset(x: EntryInfo, s: seq<EntryInfo>)
    ensures multiset(Insert(x, s)) == multiset(s) + multiset{x}
  {
    var n := InsertSplits(x, s);
    assert s == s[..n] + s[n..];
  }

  lemma InsertWithKey(x: EntryInfo, s: seq<EntryInfo>, k: Date)
    requires Descending(s)
    ensures WithKey(Insert(x, s), k) == WithKey(s, k) + (if x.sortKey == k then [x] else [])
  {
    var n := InsertSplits(x, s);
    forall i | n <= i < |s| ensures s[i].sortKey != x.sortKey {
      DateOrder(s[i].sortKey, s[n].sortKey, x.sortKey);
    }
    SplitWithKey(x, s, n, k);
  }

  /** Inserting at `n`, before which no entry shares `x`'s date, keeps each date's order. */
  lemma SplitWithKey(x: EntryInfo, s: seq<EntryInfo>, n: nat, k: Date)
    requires n <= |s|
    requires forall i | n <= i < |s| :: s[i].sortKey != x.sortKey
    ensures WithKey(s[..n] + [x] + s[n..], k) == WithKey(s, k) + (if x.sortKey == k then [x] else [])
  {
    var a, b := s[..n], s[n..];
    assert s == a + b;
    WithKeyAppend(a, b, k);
    WithKeyAppend(a + [x], b, k);
    WithKeyAppend(a, [x], k);
    var wa, wb, wx := WithKey(a, k), WithKey(b, k), WithKey([x], k);
    assert wx == (if x.sortKey == k then [x] else []) by {
      assert [x][1..] == [];
    }
    if x.sortKey == k {
      forall i | 0 <= i < |b| ensures b[i].sortKey != k {
        assert b[i] == s[n + i];
      }
      WithKeyNone(b, k);
      assert wa + wx + wb == wa + [x];
    } else {
      assert wa + wx + wb == wa + wb;
    }
  }

  /** `sorted(s, key=sort_key, reverse=True)`: newest first, and entries with the same date
      keep their order in `s`. */
  function SortNewestFirst(s: seq<EntryInfo>): (r: seq<EntryInfo>)
    ensures Descending(r)
    ensures multiset(r) == multiset(s)
    ensures forall k :: WithKey(r, k) == WithKey(s, k)
    decreases |s|
  {
    if |s| == 0 then []
    else
      var init := s[..|s| - 1];
      var x := s[|s| - 1];
      var sorted := SortNewestFirst(init);
      SortStep(init, x, sorted);
      assert s == init + [x];
      Insert(x, sorted)
  }

  lemma SortStep(init: seq<EntryInfo>, x: EntryInfo, sorted: seq<EntryInfo>)
    requires Descending(sorted)
    requires multiset(sorted) == multiset(init)
    requires forall k :: WithKey(sorted, k) == WithKey(init, k)
    ensures Descending(Insert(x, sorted))
    ensures multiset(Insert(x, sorted)) == multiset(init + [x])
    ensures forall k :: WithKey(Insert(x, sorted), k) == WithKey(init + [x], k)
  {
    InsertDescending(x, sorted);
    InsertMultiset(x, sorted);
    forall k ensures WithKey(Insert(x, sorted), k) == WithKey(init + [x], k) {
      InsertWithKey(x, sorted, k);
      WithKeyAppend(init, [x], k);
      assert WithKey([x], k) == (if x.sortKey == k then [x] else []) by {
        assert [x][1..] == [];
      }
    }
  }

  /** `list_entries()` over the entry files in the order `sorted(glob("*.html"))` lists
      them. */
  function ListEntries(docs: seq<EntryDoc>): (r: seq<EntryInfo>)
    ensures Descending(r)
    ensures multiset(r) == multiset(Parsed(docs))
    ensures forall k :: WithKey(r, k) == WithKey(Parsed(docs), k)
  {
    SortNewestFirst(Parsed(docs))
  }

  /** An entry is listed exactly when some file parses to it. */
  lemma ListedIff(docs: seq<EntryDoc>, e: EntryInfo)
    ensures e in ListEntries(docs) <==> exists i | 0 <= i < |docs| :: Info(docs[i]) == Success(e)
  {
    var r := ListEntries(docs);
    var rs := Infos(docs);
    assert e in r <==> e in multiset(r);
    if i :| 0 <= i < |docs| && Info(docs[i]) == Success(e) {
      assert rs[i] == Success(e);
      SuccessesKeep(rs, i);
      assert e in multiset(Parsed(docs));
    }
    if e in r {
      assert e in multiset(Parsed(docs));
      assert Success(e) in rs;
    }
  }

  /** The stable order is the only one: two newest-first orders of the same entries that
      keep every date's entries in the same order are equal. */
  lemma {:induction false} StableOrderUnique(a: seq<EntryInfo>, b: seq<EntryInfo>)
    requires Descending(a) && Descending(b)
    requires forall k :: WithKey(a, k) == WithKey(b, k)
    ensures a == b
    decreases |a|
  {
    if |a| == 0 {
      HeadKeyed(b);
    } else {
      var ka := a[0].sortKey;
      assert WithKey(a, ka)[0] == a[0];
      assert |b| > 0 by {
        assert WithKey(b, ka) != [];
      }
      var kb := b[0].sortKey;
      assert WithKey(b, kb)[0] == b[0];
      var ia := WithKeyWitness(a, kb);
      var ib := WithKeyWitness(b, ka);
      DateOrder(ka, kb, kb);
      assert ka == kb;
      assert a[0] == b[0];
      forall k ensures WithKey(a[1..], k) == WithKey(b[1..], k) {
        var pre := if ka == k then [a[0]] else [];
        assert WithKey(a, k) == pre + WithKey(a[1..], k);
        assert WithKey(b, k) == pre + WithKey(b[1..], k);
        assert WithKey(a[1..], k) == WithKey(a, k)[|pre|..];
        assert WithKey(b[1..], k) == WithKey(b, k)[|pre|..];
      }
      assert Descending(a[1..]) && Descending(b[1..]) by {
        forall i, j | 0 <= i < j < |a| - 1 ensures DateLe(a[1..][j].sortKey, a[1..][i].sortKey) {
          assert a[1..][j] == a[j + 1] && a[1..][i] == a[i + 1];
        }
        forall i, j | 0 <= i < j < |b| - 1 ensures DateLe(b[1..][j].sortKey, b[1..][i].sortKey) {
          assert b[1..][j] == b[j + 1] && b[1..][i] == b[i + 1];
        }
      }
      StableOrderUnique(a[1..], b[1..]);
      assert a == [a[0]] + a[1..] && b == [b[0]] + b[1..];
    }
  }

  lemma HeadKeyed(s: seq<EntryInfo>)
    ensures |s| > 0 ==> WithKey(s, s[0].sortKey) != []
  {
  }

  /** A date with entries in `s` is the date of some position of `s`. */
  lemma {:induction false} WithKeyWitness(s: seq<EntryInfo>, k: Date) returns (i: nat)
    requires WithKey(s, k) != []
    ensures i < |s| && s[i].sortKey == k
    decreases |s|
  {
    if s[0].sortKey == k {
      i := 0;
    } else {
      var j := WithKeyWitness(s[1..], k);
      i := j + 1;
    }
  }

  // ---------------------------------------------------------------- the archive lines

  /** The indentation of every archive line. */
  const Indent16: string := "                "

  /** The block written when there is no entry. */
  const NoEntries: string := Indent16 + "<!-- (no entries yet) -->"

  /** `title_line.split("—", 1)[-1].strip()`: the text after the first em dash, or the
      whole line when there is none, without surrounding whitespace. */
  function DisplayTitle(titleLine: string): (r: string)
    ensures |r| > 0 ==> NotSpace(r[0]) && NotSpace(r[|r| - 1])
  {
    Strip(AfterFirst(titleLine, EmDash))
  }

  /** One `<li>` line of the archive: the indentation, then
      `<li><a href="{path}">{date} - {title}</a></li>`. */
  function ArchiveLine(e: EntryInfo): string {
    Indent16 + "<li><a href=\"" + e.relPath + "\">" + e.dateStr + " - " + DisplayTitle(e.titleLine) + "</a></li>"
  }

  function ArchiveLines(entries: seq<EntryInfo>): (r: seq<string>)
    ensures |r| == |entries|
    ensures forall i | 0 <= i < |entries| :: r[i] == ArchiveLine(entries[i])
  {
    seq(|entries|, i requires 0 <= i < |entries| => ArchiveLine(entries[i]))
  }

  /** `build_archive_ul(entries)`. */
  function BuildArchive(entries: seq<EntryInfo>): (r: string)
    ensures |entries| == 0 ==> r == NoEntries
  {
    if |entries| == 0 then NoEntries else Join(ArchiveLines(entries), '\n')
  }

  /** The shown title has no line break when the title line has none. */
  lemma DisplayOneLine(titleLine: string)
    requires '\n' !in titleLine
    ensures '\n' !in DisplayTitle(titleLine)
  {
    var t := AfterFirst(titleLine, EmDash);
    assert forall c | c in t :: c in titleLine;
    var a := StripIsSlice(t);
    assert forall c | c in DisplayTitle(titleLine) :: c in t;
  }

  lemma FixedPartsOneLine()
    ensures '\n' !in Indent16 && '\n' !in "<li><a href=\"" && '\n' !in "\">"
    ensures '\n' !in " - " && '\n' !in "</a></li>"
  {
  }

  /** An archive line has no line break when its path and title line have none. */
  lemma ArchiveLineOneLine(e: EntryInfo)
    requires '\n' !in e.relPath && '\n' !in e.titleLine && '\n' !in e.dateStr
    ensures '\n' !in ArchiveLine(e)
  {
    FixedPartsOneLine();
    DisplayOneLine(e.titleLine);
  }

  /** Reading the archive block line by line gives back one line per entry, in order. */
  lemma ArchiveRoundTrip(entries: seq<EntryInfo>)
    requires |entries| > 0
    requires forall i | 0 <= i < |entries| ::
      '\n' !in entries[i].relPath && '\n' !in entries[i].titleLine && '\n' !in entries[i].dateStr
    ensures Split(BuildArchive(entries), '\n') == ArchiveLines(entries)
  {
    var lines := ArchiveLines(entries);
    forall i | 0 <= i < |lines| ensures '\n' !in lines[i] {
      ArchiveLineOneLine(entries[i]);
    }
    SplitJoin(lines, '\n');
  }

  /** For a title line `date — title` the archive shows the title. */
  lemma DisplayAfterEmDash(date: string, title: string)
    requires EmDash !in date
    ensures DisplayTitle(date + " " + [EmDash] + " " + title) == Strip(title)
  {
    var t := date + " " + [EmDash] + " " + title;
    var k := |date| + 1;
    assert t[k] == EmDash;
    assert EmDash !in t[..k] by {
      assert t[..k] == date + " ";
    }
    assert AfterFirst(t, EmDash) == t[k + 1..];
    assert t[k + 1..] == " " + title;
    StripSpaceBefore(' ', title);
  }

  /** A line with no em dash, such as `date - title`, is shown whole, date included. */
  lemma DisplayWithoutEmDash(titleLine: string)
    requires IsNormal(titleLine) && EmDash !in titleLine
    ensures DisplayTitle(titleLine) == titleLine
  {
    StripIdentity(titleLine);
  }
}
