/**
  `ensure_markers_exist` and `cmd_publish`: checks that the home page carries
  its markers, then rewrites the `LATEST_META` comment, the latest-entry block
  and the archive block, in that order.
*/
module Publish {
  import opened Wrappers
  import opened Text
  import opened Entry
  import opened Splice
  import opened Meta
  import opened Archive

  const ArchiveStart: string := "<!-- ARCHIVE START -->"
  const ArchiveEnd: string := "<!-- ARCHIVE END -->"
  const LatestStart: string := "<!-- LATEST_START -->"
  const LatestEnd: string := "<!-- LATEST_END -->"
  const MetaTag: string := "LATEST_META"

  /** The marker pairs the home page must hold, checked in this order. */
  const RequiredPairs: seq<(string, string)> := [(ArchiveStart, ArchiveEnd), (LatestStart, LatestEnd)]

  predicate HasPair(html: string, pair: (string, string)) {
    Contains(html, pair.0) && Contains(html, pair.1)
  }

  /** Where in `pairs`, looking from `from` on, the first pair with a marker missing from
      `html` is. */
  function FirstMissing(html: string, pairs: seq<(string, string)>, from: nat): (r: Option<nat>)
    requires from <= |pairs|
    ensures r.Some? ==> from <= r.value < |pairs| && !HasPair(html, pairs[r.value])
    ensures r.Some? ==> forall j | from <= j < r.value :: HasPair(html, pairs[j])
    ensures r.None? <==> forall j | from <= j < |pairs| :: HasPair(html, pairs[j])
    decreases |pairs| - from
  {
    if from == |pairs| then None
    else if !HasPair(html, pairs[from]) then Some(from)
    else FirstMissing(html, pairs, from + 1)
  }

  /** Every marker the publisher relies on is somewhere in the page. */
  predicate MarkersPresent(html: string) {
    && Contains(html, ArchiveStart) && Contains(html, ArchiveEnd)
    && Contains(html, LatestStart) && Contains(html, LatestEnd)
    && Contains(html, MetaTag)
  }

  /** `ensure_markers_exist(html)`. */
  function EnsureMarkers(html: string): (r: Result<(), JournalError>)
    ensures r.Success? <==> MarkersPresent(html)
    ensures r.Failure? && r.error.MissingMarkerPair? ==>
      (r.error.start, r.error.end) in RequiredPairs && !HasPair(html, (r.error.start, r.error.end))
    ensures r.Failure? && !r.error.MissingMarkerPair? ==>
      r.error == MissingLatestMeta && HasPair(html, RequiredPairs[0]) && HasPair(html, RequiredPairs[1])
  {
    match FirstMissing(html, RequiredPairs, 0)
    case Some(i) => Failure(MissingMarkerPair(RequiredPairs[i].0, RequiredPairs[i].1))
    case None =>
      assert HasPair(html, RequiredPairs[0]) && HasPair(html, RequiredPairs[1]);
      if Contains(html, MetaTag) then Success(()) else Failure(MissingLatestMeta)
  }

  /** The archive pair is checked first, then the latest pair, then the comment. */
  lemma MarkerErrorOrder(html: string)
    ensures !HasPair(html, (ArchiveStart, ArchiveEnd)) ==>
      EnsureMarkers(html) == Failure(MissingMarkerPair(ArchiveStart, ArchiveEnd))
    ensures HasPair(html, (ArchiveStart, ArchiveEnd)) && !HasPair(html, (LatestStart, LatestEnd)) ==>
      EnsureMarkers(html) == Failure(MissingMarkerPair(LatestStart, LatestEnd))
  {
    var pairs := RequiredPairs;
    assert pairs[0] == (ArchiveStart, ArchiveEnd) && pairs[1] == (LatestStart, LatestEnd);
  }

  /** Both end markers are ones a rebuilt block cannot fake. */
  lemma EndMarkersSafe()
    ensures SafeEndMarker(ArchiveEnd) && SafeEndMarker(LatestEnd)
  {
  }

  // ---------------------------------------------------------------- indenting the article

  /** `"  " + article.replace("\n", "\n  ")`: the article indented by two spaces. */
  function Indent(article: string): string {
    "  " + ReplaceChar(article, '\n', "\n  ")
  }

  /** Each line of `lines` with `p` in front. */
  function Prefixed(p: string, lines: seq<string>): (r: seq<string>)
    ensures |r| == |lines|
    ensures forall i | 0 <= i < |lines| :: r[i] == p + lines[i]
  {
    seq(|lines|, i requires 0 <= i < |lines| => p + lines[i])
  }

  /** `p` in front of a joined text goes in front of its first line. */
  lemma JoinHead(p: string, ls: seq<string>)
    requires |ls| > 0
    ensures p + Join(ls, '\n') == Join([p + ls[0]] + ls[1..], '\n')
  {
    if |ls| > 1 {
      JoinHeadLong(p, ls[0], ls[1..]);
      assert ls == [ls[0]] + ls[1..];
    } else {
      assert [p + ls[0]] + ls[1..] == [p + ls[0]];
    }
  }

  lemma JoinHeadLong(p: string, x: string, ms: seq<string>)
    requires |ms| > 0
    ensures p + Join([x] + ms, '\n') == Join([p + x] + ms, '\n')
  {
    JoinCons(x, ms, '\n');
    JoinCons(p + x, ms, '\n');
    Assoc(p, x, "\n" + Join(ms, '\n'));
  }

  lemma PrefixedCons(p: string, ls: seq<string>)
    requires |ls| > 0
    ensures Prefixed(p, ls) == [p + ls[0]] + Prefixed(p, ls[1..])
  {
  }

  /** Indenting after a break that follows a line with none. */
  lemma ReplaceAtBreak(x: string, j: string)
    requires '\n' !in x
    ensures ReplaceChar(x + ("\n" + j), '\n', "\n  ") == x + ("\n" + ("  " + ReplaceChar(j, '\n', "\n  ")))
  {
    ReplaceCharAbsent(x, '\n', "\n  ");
    ReplaceCharConcat(x, "\n" + j, '\n', "\n  ");
    assert ("\n" + j)[1..] == j;
  }

  /** Indenting after each break of joined lines puts two spaces before every line but the
      first. */
  lemma {:induction false} IndentJoin(ls: seq<string>)
    requires |ls| > 0
    requires forall i | 0 <= i < |ls| :: '\n' !in ls[i]
    ensures ReplaceChar(Join(ls, '\n'), '\n', "\n  ") == Join([ls[0]] + Prefixed("  ", ls[1..]), '\n')
    decreases |ls|
  {
    if |ls| == 1 {
      ReplaceCharAbsent(ls[0], '\n', "\n  ");
      assert [ls[0]] + Prefixed("  ", ls[1..]) == [ls[0]];
    } else {
      IndentJoin(ls[1..]);
      IndentJoinStep(ls);
    }
  }

  lemma IndentJoinStep(ls: seq<string>)
    requires |ls| > 1 && '\n' !in ls[0]
    requires var rest := ls[1..];
      ReplaceChar(Join(rest, '\n'), '\n', "\n  ") == Join([rest[0]] + Prefixed("  ", rest[1..]), '\n')
    ensures ReplaceChar(Join(ls, '\n'), '\n', "\n  ") == Join([ls[0]] + Prefixed("  ", ls[1..]), '\n')
  {
    var rest := ls[1..];
    var j := Join(rest, '\n');
    assert ls == [ls[0]] + rest;
    JoinCons(ls[0], rest, '\n');
    ReplaceAtBreak(ls[0], j);
    JoinHead("  ", [rest[0]] + Prefixed("  ", rest[1..]));
    PrefixedCons("  ", rest);
    JoinCons(ls[0], Prefixed("  ", rest), '\n');
  }

  /** Every line of the indented article is the article's line with two spaces in front. */
  lemma IndentLines(article: string)
    ensures Indent(article) == Join(Prefixed("  ", Split(article, '\n')), '\n')
    ensures Split(Indent(article), '\n') == Prefixed("  ", Split(article, '\n'))
  {
    var ls := Split(article, '\n');
    JoinSplit(article, '\n');
    IndentJoin(ls);
    JoinHead("  ", [ls[0]] + Prefixed("  ", ls[1..]));
    PrefixedCons("  ", ls);
    SplitJoin(Prefixed("  ", ls), '\n');
  }

  // ---------------------------------------------------------------- publishing

  /** What `cmd_publish` has read before it writes: the home page, the `<article>` block of
      the entry (if it has one), the entry itself, and every entry file in file-name order. */
  datatype Inputs = Inputs(index: string, article: Option<string>, latest: EntryDoc, docs: seq<EntryDoc>)

  /** The article block as `extract_latest_article_from_entry` returns it. */
  function LatestArticle(article: Option<string>): (r: Result<string, JournalError>)
    ensures r.Failure? <==> article.None?
    ensures r.Failure? ==> r.error == MissingArticle
    ensures r.Success? ==> r.value == Strip(article.value)
  {
    match article
    case None => Failure(MissingArticle)
    case Some(a) => Success(Strip(a))
  }

  /** The three rewrites, in the order `cmd_publish` applies them. */
  function Rewrite(index: string, article: string, latest: EntryInfo, entries: seq<EntryInfo>)
    : (r: Result<string, JournalError>)
  {
    var h1 :- UpdateLatestMeta(index, latest);
    var h2 :- ReplaceBetween(h1, LatestStart, LatestEnd, Indent(article));
    ReplaceBetween(h2, ArchiveStart, ArchiveEnd, BuildArchive(entries))
  }

  /** `cmd_publish(entry)` from the point where the files have been read: the page to write,
      or the error it stops with. */
  function Publish(inp: Inputs): (r: Result<string, JournalError>)
    ensures r.Success? ==> MarkersPresent(inp.index) && inp.article.Some? && Info(inp.latest).Success?
    ensures !MarkersPresent(inp.index) ==> r == Failure(EnsureMarkers(inp.index).error)
    ensures MarkersPresent(inp.index) && inp.article.None? ==> r == Failure(MissingArticle)
    ensures MarkersPresent(inp.index) && inp.article.Some? && Info(inp.latest).Failure? ==>
      r == Failure(Info(inp.latest).error)
  {
    var _ :- EnsureMarkers(inp.index);
    var article :- LatestArticle(inp.article);
    var latest :- Info(inp.latest);
    Rewrite(inp.index, article, latest, ListEntries(inp.docs))
  }

  /** After publishing, the archive region of the page reads back as the archive block
      built from every entry that parses, newest first. */
  lemma PublishedArchive(inp: Inputs)
    requires Publish(inp).Success?
    requires !Contains(BuildArchive(ListEntries(inp.docs)), ArchiveEnd)
    ensures RegionBody(Publish(inp).value, ArchiveStart, ArchiveEnd)
         == Some(Body(BuildArchive(ListEntries(inp.docs))))
  {
    var article := LatestArticle(inp.article).value;
    var latest := Info(inp.latest).value;
    var entries := ListEntries(inp.docs);
    var h1 := UpdateLatestMeta(inp.index, latest).value;
    var h2 := ReplaceBetween(h1, LatestStart, LatestEnd, Indent(article)).value;
    assert Publish(inp) == ReplaceBetween(h2, ArchiveStart, ArchiveEnd, BuildArchive(entries));
    EndMarkersSafe();
    ReadBack(h2, ArchiveStart, ArchiveEnd, BuildArchive(entries));
  }
}
