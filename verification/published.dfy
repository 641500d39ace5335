/**
  What a page written by `cmd_publish` holds. On a home page whose first
  `LATEST_META` comment ends before the latest region, which ends before the
  archive region, publishing an entry whose path and title are plain text
  leaves the written comment as the first match, reads both regions back as the
  blocks written into them, and gives a page that publishing the same entry
  again leaves as it is. The program fixes no order of the three; `index.html`
  is not part of it, so this order is an assumption about that page.
*/
module Published {
  import opened Wrappers
  import opened Text
  import opened Entry
  import opened Splice
  import opened Meta
  import opened Archive
  import opened Edits
  import opened Publish

  // ---------------------------------------------------------------- where publishing can fail

  /** Once the markers, the article and the title line are there, publishing fails exactly
      when no comment matches, when the comment's page has no latest region, or when the
      page after the latest splice has no archive region; each gives its own error. */
  lemma PublishStages(inp: Inputs)
    requires MarkersPresent(inp.index) && inp.article.Some? && Info(inp.latest).Success?
    ensures var e := Info(inp.latest).value;
      var h1 := UpdateLatestMeta(inp.index, e);
      && (h1.Failure? <==> FindMeta(inp.index).None?)
      && (h1.Failure? ==> Publish.Publish(inp) == Failure(LatestMetaNotFound))
      && (h1.Success? && FindRegion(h1.value, LatestStart, LatestEnd).None? ==>
            Publish.Publish(inp) == Failure(MarkerRegionNotFound(LatestStart, LatestEnd)))
      && (h1.Success? && FindRegion(h1.value, LatestStart, LatestEnd).Some? ==>
            var h2 := ReplaceBetween(h1.value, LatestStart, LatestEnd, LatestBlock(inp)).value;
            && (FindRegion(h2, ArchiveStart, ArchiveEnd).None? ==>
                  Publish.Publish(inp) == Failure(MarkerRegionNotFound(ArchiveStart, ArchiveEnd)))
            && (FindRegion(h2, ArchiveStart, ArchiveEnd).Some? ==>
                  Publish.Publish(inp) == ReplaceBetween(h2, ArchiveStart, ArchiveEnd, ArchiveBlock(inp))
                  && Publish.Publish(inp).Success?))
  {
    var e := Info(inp.latest).value;
    var h1 := UpdateLatestMeta(inp.index, e);
    UpdateLatestMetaSpec(inp.index, e);
    if h1.Success? {
      if FindRegion(h1.value, LatestStart, LatestEnd).Some? {
        var h2 := ReplaceBetween(h1.value, LatestStart, LatestEnd, LatestBlock(inp)).value;
        assert Publish.Publish(inp) == ReplaceBetween(h2, ArchiveStart, ArchiveEnd, ArchiveBlock(inp));
      }
    }
  }

  /** The article block the latest region receives. */
  function LatestBlock(inp: Inputs): string
    requires inp.article.Some?
  {
    Indent(Strip(inp.article.value))
  }

  /** The archive block the archive region receives. */
  function ArchiveBlock(inp: Inputs): string {
    BuildArchive(ListEntries(inp.docs))
  }

  /** The markers pass the check, yet the page has no comment of the accepted shape: the
      bare word `LATEST_META` is enough for `ensure_markers_exist` but not for
      `update_latest_meta`. */
  lemma BareTagFails(inp: Inputs)
    requires inp.index == ArchiveStart + ArchiveEnd + LatestStart + LatestEnd + MetaTag
    requires inp.article.Some? && Info(inp.latest).Success?
    ensures EnsureMarkers(inp.index).Success?
    ensures Publish.Publish(inp) == Failure(LatestMetaNotFound)
  {
    BareTagMarkers(inp.index);
    BareTagUnquoted(inp.index);
    UnquotedNoMeta(inp.index);
    PublishStages(inp);
  }

  lemma BareTagUnquoted(g: string)
    requires g == ArchiveStart + ArchiveEnd + LatestStart + LatestEnd + MetaTag
    ensures '"' !in g
  {
    assert '"' !in ArchiveStart && '"' !in ArchiveEnd;
    assert '"' !in LatestStart && '"' !in LatestEnd && '"' !in MetaTag;
  }

  /** A page without `"` holds no comment of the accepted shape. */
  lemma UnquotedNoMeta(g: string)
    requires '"' !in g
    ensures FindMeta(g).None?
  {
    forall q: nat | q <= |g| ensures MatchMeta(g[q..]).None? {
      if MatchMeta(g[q..]).Some? {
        QuoteInMatch(g[q..]);
        assert false;
      }
    }
  }

  lemma BareTagMarkers(g: string)
    requires g == ArchiveStart + ArchiveEnd + LatestStart + LatestEnd + MetaTag
    ensures MarkersPresent(g)
  {
    var a, b, c, d := |ArchiveStart|, |ArchiveEnd|, |LatestStart|, |LatestEnd|;
    assert OccursAt(g, ArchiveStart, 0);
    assert OccursAt(g, ArchiveEnd, a);
    assert OccursAt(g, LatestStart, a + b);
    assert OccursAt(g, LatestEnd, a + b + c);
    assert OccursAt(g, MetaTag, a + b + c + d);
  }

  /** Every matched comment quotes its values, so a text without `"` matches none. */
  lemma QuoteInMatch(u: string)
    requires MatchMeta(u).Some?
    ensures '"' in u
  {
    var m := MatchMeta(u).value;
    var r := Render(m);
    RenderParts(m);
    var a1 := AttrText(m.gap1, "file=\"", m.file);
    assert a1[|a1| - 1] == '"';
    assert '"' in r;
    var k :| 0 <= k < |r| && r[k] == '"';
    assert u[k] == u[..|r|][k];
  }

  // ---------------------------------------------------------------- the layout the publisher relies on

  /** The assumed order of the home page: the first comment ends before the latest region
      starts, and the latest region ends before the archive region starts. The program
      checks no order, so this is an assumption about `index.html`. */
  predicate InOrder(index: string) {
    match (FindMeta(index), FindRegion(index, LatestStart, LatestEnd), FindRegion(index, ArchiveStart, ArchiveEnd))
    case (Some((p, m)), Some((iL, jL)), Some((iA, jA))) => p + |Render(m)| <= iL && jL + |LatestEnd| <= iA
    case _ => false
  }

  /** A path and title the written comment can carry without starting a marker or a second
      comment: non-empty, free of `"` and `<`, and a path that starts with neither
      whitespace nor `-`. */
  predicate PlainEntry(e: EntryInfo) {
    && Attribute(e.relPath) && Attribute(e.titleLine)
    && !IsSpace(e.relPath[0]) && e.relPath[0] != '-'
    && '<' !in e.relPath && '<' !in e.titleLine
  }

  /** The conditions under which the published page is known in full: the assumed
      order, an entry that parses with a plain path and title, an article that holds
      neither `<!-- LATEST_END -->` nor `<!-- ARCHIVE START -->`, and an archive block
      without `<!-- ARCHIVE END -->`. */
  predicate Ready(inp: Inputs) {
    && InOrder(inp.index) && inp.article.Some?
    && Info(inp.latest).Success? && PlainEntry(Info(inp.latest).value)
    && !Contains(LatestBlock(inp), LatestEnd) && !Contains(LatestBlock(inp), ArchiveStart)
    && !Contains(ArchiveBlock(inp), ArchiveEnd)
  }

  /** The four markers each have one `<`, at the front, and the archive start marker,
      which must not appear inside the latest block, differs from both latest markers. */
  lemma MarkersLone()
    ensures Lone(LatestStart) && Lone(LatestEnd) && Lone(ArchiveStart) && Lone(ArchiveEnd)
    ensures '\n' !in ArchiveStart && |ArchiveStart| > 5
    ensures LatestStart[5] != ArchiveStart[5] && LatestEnd[5] != ArchiveStart[5]
  {
  }

  /** A written comment with plain values has one `<`, and neither start marker can start
      inside it. */
  lemma NewMetaLone(f: string, t: string)
    requires '<' !in f && '<' !in t
    ensures Lone(NewMeta(f, t))
    ensures NoStartIn(NewMeta(f, t), LatestStart) && NoStartIn(NewMeta(f, t), ArchiveStart)
  {
    var n := NewMeta(f, t);
    NewMetaOneAngle(f, t);
    assert NoStartIn(n, LatestStart) by {
      MarkersLone();
      NoStartInLone(n, LatestStart, 12);
    }
    assert NoStartIn(n, ArchiveStart) by {
      MarkersLone();
      NoStartInLone(n, ArchiveStart, 5);
    }
  }

  lemma NewMetaOneAngle(f: string, t: string)
    requires '<' !in f && '<' !in t
    ensures Lone(NewMeta(f, t)) && |NewMeta(f, t)| > 12
    ensures NewMeta(f, t)[12] == 'M' && NewMeta(f, t)[5] == 'L'
  {
    var n := NewMeta(f, t);
    var v := AfterAngle(f, t);
    NewMetaSplit(f, t);
    AfterAngleFree(f, t);
    forall k | 0 < k < |n| ensures n[k] != '<' {
      assert n[k] == v[k - 1];
    }
  }

  /** The written comment after its opening `<`. */
  function AfterAngle(f: string, t: string): string {
    "!-- LATEST_META" + " file=\"" + f + "\"" + " title=\"" + t + "\"" + " -->"
  }

  lemma NewMetaSplit(f: string, t: string)
    ensures NewMeta(f, t) == "<" + AfterAngle(f, t)
  {
  }

  lemma AfterAngleFree(f: string, t: string)
    requires '<' !in f && '<' !in t
    ensures '<' !in AfterAngle(f, t)
  {
  }

  // ---------------------------------------------------------------- the three rewrites

  /** Overwriting the comment with a text that opens with a lone `<`, and in which no start
      marker can begin, moves both regions after it by the change in length. */
  lemma MetaStep(g: string, p: nat, mlen: nat, n: string, s1: string, e1: string, s2: string, e2: string,
                 iL: nat, jL: nat, iA: nat, jA: nat, iL1: nat, jL1: nat, iA1: nat, jA1: nat)
    requires FindRegion(g, s1, e1) == Some((iL, jL))
    requires FindRegion(g, s2, e2) == Some((iA, jA))
    requires p + mlen <= iL && jL + |e1| <= iA
    requires Lone(s1) && Lone(s2) && Lone(n) && NoStartIn(n, s1) && NoStartIn(n, s2)
    requires iL1 == iL - mlen + |n| && jL1 == jL - mlen + |n|
    requires iA1 == iA - mlen + |n| && jA1 == jA - mlen + |n|
    ensures var h1 := Overwrite(g, p, mlen, n);
      && FindRegion(h1, s1, e1) == Some((iL1, jL1))
      && FindRegion(h1, s2, e2) == Some((iA1, jA1))
  {
    var h1 := Overwrite(g, p, mlen, n);
    RegionAfterEdit(g, p, p + mlen, n, s1, e1, iL, jL, h1, iL1, jL1);
    RegionAfterEdit(g, p, p + mlen, n, s2, e2, iA, jA, h1, iA1, jA1);
  }

  /** The archive start marker cannot start inside a latest block whose article does not
      contain it. */
  lemma NoArchiveInLatest(x: string)
    requires !Contains(x, ArchiveStart)
    ensures NoStartIn(Block(LatestStart, LatestEnd, x), ArchiveStart)
  {
    MarkersLone();
    NoStartInBlock(LatestStart, LatestEnd, x, ArchiveStart, 5, 5);
  }

  // ---------------------------------------------------------------- the page in three stages

  /** The comment update on a ready page: it succeeds, the written comment becomes the
      first match where the old one was, and both regions follow it, still in order. */
  lemma MetaStage(inp: Inputs) returns (p: nat, h1: string, iL: nat, jL: nat, iA: nat, jA: nat)
    requires Ready(inp)
    ensures var e := Info(inp.latest).value;
      && UpdateLatestMeta(inp.index, e) == Success(h1)
      && FindMeta(inp.index).Some? && p == FindMeta(inp.index).value.0
      && FirstMeta(h1, p, Written(e.relPath, e.titleLine))
      && p + |NewMeta(e.relPath, e.titleLine)| <= iL
      && FindRegion(h1, LatestStart, LatestEnd) == Some((iL, jL))
      && FindRegion(h1, ArchiveStart, ArchiveEnd) == Some((iA, jA))
      && jL + |LatestEnd| <= iA
  {
    var g := inp.index;
    var e := Info(inp.latest).value;
    var f, t := e.relPath, e.titleLine;
    var m;
    p, m := FindMeta(g).value.0, FindMeta(g).value.1;
    var (iL0, jL0) := FindRegion(g, LatestStart, LatestEnd).value;
    var (iA0, jA0) := FindRegion(g, ArchiveStart, ArchiveEnd).value;
    var mlen := |Render(m)|;
    var n := NewMeta(f, t);
    h1 := Overwrite(g, p, mlen, n);
    UpdateAt(g, e, p, m);
    WrittenAt(g, p, m, f, t);
    iL, jL, iA, jA := iL0 - mlen + |n|, jL0 - mlen + |n|, iA0 - mlen + |n|, jA0 - mlen + |n|;
    assert FindRegion(h1, LatestStart, LatestEnd) == Some((iL, jL))
        && FindRegion(h1, ArchiveStart, ArchiveEnd) == Some((iA, jA)) by {
      NewMetaLone(f, t);
      MarkersLone();
      MetaStep(g, p, mlen, n, LatestStart, LatestEnd, ArchiveStart, ArchiveEnd,
               iL0, jL0, iA0, jA0, iL, jL, iA, jA);
    }
  }

  /** Past the checks, publishing is the comment update and the two splices in turn. */
  lemma PublishChain(inp: Inputs, h1: string, h2: string)
    requires MarkersPresent(inp.index) && inp.article.Some? && Info(inp.latest).Success?
    requires UpdateLatestMeta(inp.index, Info(inp.latest).value) == Success(h1)
    requires ReplaceBetween(h1, LatestStart, LatestEnd, LatestBlock(inp)) == Success(h2)
    ensures Publish.Publish(inp) == ReplaceBetween(h2, ArchiveStart, ArchiveEnd, ArchiveBlock(inp))
  {
  }

  /** The four markers and `LATEST_META` are all present on a page in the assumed order. */
  lemma ReadyMarkers(g: string)
    requires InOrder(g)
    ensures MarkersPresent(g)
  {
    var (p, m) := FindMeta(g).value;
    var (iL, jL) := FindRegion(g, LatestStart, LatestEnd).value;
    var (iA, jA) := FindRegion(g, ArchiveStart, ArchiveEnd).value;
    RegionMarkers(g, LatestStart, LatestEnd, iL, jL);
    RegionMarkers(g, ArchiveStart, ArchiveEnd, iA, jA);
    assert p + |Render(m)| <= |g| && g[p..p + |Render(m)|] == Render(m) by {
      MatchedAt(g, p, m);
    }
    TagInComment(g, p, m);
  }

  /** A located region holds both of its markers. */
  lemma RegionMarkers(h: string, start: string, end: string, i: nat, j: nat)
    requires FindRegion(h, start, end) == Some((i, j))
    ensures Contains(h, start) && Contains(h, end)
  {
    FindRegionParts(h, start, end, i, j);
  }

  /** A comment spells `LATEST_META` after its opening. */
  lemma TagInComment(h: string, q: nat, m: MetaComment)
    requires q + |Render(m)| <= |h| && h[q..q + |Render(m)|] == Render(m)
    ensures Contains(h, MetaTag)
  {
    var r := Render(m);
    var d := 4 + |m.lead|;
    assert d + |MetaTag| <= |r| && r[d..d + |MetaTag|] == MetaTag by {
      RenderParts(m);
    }
    OccursInside(h, q, r, d, MetaTag);
  }

  /** A text that occurs in a stretch of the page occurs in the page. */
  lemma OccursInside(h: string, q: nat, r: string, d: nat, pat: string)
    requires q + |r| <= |h| && h[q..q + |r|] == r
    requires d + |pat| <= |r| && r[d..d + |pat|] == pat
    ensures OccursAt(h, pat, q + d)
  {
    forall k | 0 <= k < |pat| ensures h[q + d + k] == pat[k] {
      assert h[q..q + |r|][d + k] == h[q + d + k];
      assert r[d..d + |pat|][k] == r[d + k];
    }
    assert h[q + d..q + d + |pat|] == pat;
  }

  /** The written comment stays the first match on a page that keeps the text up to `c`,
      past the comment. */
  lemma MetaKept(h1: string, h3: string, p: nat, f: string, t: string, c: nat)
    requires FirstMeta(h1, p, Written(f, t))
    requires Attribute(f) && Attribute(t) && !IsSpace(f[0]) && f[0] != '-'
    requires p + |NewMeta(f, t)| <= c <= |h1| && c <= |h3| && h3[..c] == h1[..c]
    ensures FirstMeta(h3, p, Written(f, t))
  {
    WrittenSpelled(h1, p, f, t);
    WrittenKept(h1, h3, p, f, t, c);
    forall q: nat | q < p ensures MatchMeta(h3[q..]).None? {
      NoMatchBefore(h1, h3, p, q, f, t);
    }
  }

  /** A matched written comment spells the written text. */
  lemma WrittenSpelled(h: string, p: nat, f: string, t: string)
    requires p <= |h| && MatchMeta(h[p..]) == Some(Written(f, t))
    ensures p + |NewMeta(f, t)| <= |h| && h[p..p + |NewMeta(f, t)|] == NewMeta(f, t)
  {
    MatchedAt(h, p, Written(f, t));
    WrittenIsValid(f, t);
  }

  /** The written comment, carried over with the text before it, still matches. */
  lemma WrittenKept(h1: string, h3: string, p: nat, f: string, t: string, c: nat)
    requires Attribute(f) && Attribute(t)
    requires p + |NewMeta(f, t)| <= c <= |h1| && h1[p..p + |NewMeta(f, t)|] == NewMeta(f, t)
    requires c <= |h3| && h3[..c] == h1[..c]
    ensures MatchMeta(h3[p..]) == Some(Written(f, t))
    ensures h3[..p] == h1[..p] && h3[p..p + |NewMeta(f, t)|] == NewMeta(f, t)
  {
    var n := NewMeta(f, t);
    assert h3[p..p + |n|] == n by {
      AgreeBefore(h3, h1, c, p, |n|);
    }
    assert h3[..p] == h1[..p] by {
      assert h3[..p] == h3[..c][..p] && h1[..p] == h1[..c][..p];
    }
    WrittenIsValid(f, t);
    MatchedAgain(h3, p, Written(f, t));
  }

  /** The published page on a ready home page: where its comment, its latest block and
      its archive block stand. */
  lemma Pages(inp: Inputs) returns (p: nat, iL: nat, eL: nat, kL: nat, iA: nat, eA: nat, kA: nat)
    requires Ready(inp)
    ensures Publish.Publish(inp).Success?
    ensures var out := Publish.Publish(inp).value;
      var e := Info(inp.latest).value;
      && FindMeta(inp.index).Some? && p == FindMeta(inp.index).value.0
      && FirstMeta(out, p, Written(e.relPath, e.titleLine))
      && FindRegion(out, LatestStart, LatestEnd) == Some((iL, eL))
      && kL == eL + |LatestEnd| && iL <= kL <= |out|
      && out[iL..kL] == Block(LatestStart, LatestEnd, LatestBlock(inp))
      && FindRegion(out, ArchiveStart, ArchiveEnd) == Some((iA, eA))
      && kA == eA + |ArchiveEnd| && iA <= kA <= |out|
      && out[iA..kA] == Block(ArchiveStart, ArchiveEnd, ArchiveBlock(inp))
  {
    var e := Info(inp.latest).value;
    var h1, jL, iA1, jA1, h2, h3;
    p, h1, iL, jL, iA1, jA1 := MetaStage(inp);
    h2, h3, eL, kL, iA, eA, kA := Splices(h1, LatestBlock(inp), ArchiveBlock(inp), iL, jL, iA1, jA1);
    ReadyMarkers(inp.index);
    PublishChain(inp, h1, h2);
    MetaKept(h1, h3, p, e.relPath, e.titleLine, iL);
  }

  /** The two splices in turn: both succeed, the page before the latest region is kept,
      and each block stands where its region starts. */
  lemma Splices(h1: string, x: string, arch: string, iL: nat, jL: nat, iA1: nat, jA1: nat)
    returns (h2: string, h3: string, eL: nat, kL: nat, iA: nat, eA: nat, kA: nat)
    requires FindRegion(h1, LatestStart, LatestEnd) == Some((iL, jL))
    requires FindRegion(h1, ArchiveStart, ArchiveEnd) == Some((iA1, jA1))
    requires jL + |LatestEnd| <= iA1
    requires !Contains(x, LatestEnd) && !Contains(x, ArchiveStart) && !Contains(arch, ArchiveEnd)
    ensures ReplaceBetween(h1, LatestStart, LatestEnd, x) == Success(h2)
    ensures ReplaceBetween(h2, ArchiveStart, ArchiveEnd, arch) == Success(h3)
    ensures iL <= |h1| && iL <= |h3| && h3[..iL] == h1[..iL]
    ensures FindRegion(h3, LatestStart, LatestEnd) == Some((iL, eL))
    ensures FindRegion(h3, ArchiveStart, ArchiveEnd) == Some((iA, eA))
    ensures kL == eL + |LatestEnd| && iL <= kL <= |h3|
    ensures h3[iL..kL] == Block(LatestStart, LatestEnd, x)
    ensures kA == eA + |ArchiveEnd| && iA <= kA <= |h3|
    ensures h3[iA..kA] == Block(ArchiveStart, ArchiveEnd, arch)
  {
    EndMarkersSafe();
    MarkersLone();
    NoArchiveInLatest(x);
    h2, h3, eL, kL, iA, eA, kA :=
      SpliceBoth(h1, x, arch, LatestStart, LatestEnd, ArchiveStart, ArchiveEnd, iL, jL, iA1, jA1);
  }

  // ---------------------------------------------------------------- what the published page holds

  /** The written comment is the published page's first match, where the old one was. */
  lemma PublishedMeta(inp: Inputs)
    requires Ready(inp)
    ensures Publish.Publish(inp).Success?
    ensures var e := Info(inp.latest).value;
      FindMeta(Publish.Publish(inp).value) == Some((FindMeta(inp.index).value.0, Written(e.relPath, e.titleLine)))
  {
    var p, iL, eL, kL, iA, eA, kA := Pages(inp);
    var e := Info(inp.latest).value;
    FindMetaIs(Publish.Publish(inp).value, p, Written(e.relPath, e.titleLine));
  }

  /** The latest region of the published page reads back as the indented article. */
  lemma PublishedLatest(inp: Inputs)
    requires Ready(inp)
    ensures Publish.Publish(inp).Success?
    ensures RegionBody(Publish.Publish(inp).value, LatestStart, LatestEnd)
         == Some(Body(Indent(Strip(inp.article.value))))
  {
    var p, iL, eL, kL, iA, eA, kA := Pages(inp);
    var out := Publish.Publish(inp).value;
    BlockBody(out, LatestStart, LatestEnd, LatestBlock(inp), iL, eL, kL);
    RegionBodyIs(out, LatestStart, LatestEnd, iL, eL);
  }

  /** Publishing the same entry onto the published page gives that page again. */
  lemma PublishIdempotent(inp: Inputs)
    requires Ready(inp)
    ensures Publish.Publish(inp).Success?
    ensures Publish.Publish(inp.(index := Publish.Publish(inp).value)) == Publish.Publish(inp)
  {
    var p, iL, eL, kL, iA, eA, kA := Pages(inp);
    var out := Publish.Publish(inp).value;
    RegionMarkers(out, LatestStart, LatestEnd, iL, eL);
    RegionMarkers(out, ArchiveStart, ArchiveEnd, iA, eA);
    CommentStays(out, p, Info(inp.latest).value);
    SpliceSame(out, LatestStart, LatestEnd, LatestBlock(inp), iL, eL, kL);
    SpliceSame(out, ArchiveStart, ArchiveEnd, ArchiveBlock(inp), iA, eA, kA);
    PublishChain(inp.(index := out), out, out);
  }

  /** On a page whose first match is the comment written for `e`, the update for `e`
      changes nothing, and the page spells `LATEST_META`. */
  lemma CommentStays(h: string, p: nat, e: EntryInfo)
    requires FirstMeta(h, p, Written(e.relPath, e.titleLine))
    ensures UpdateLatestMeta(h, e) == Success(h) && Contains(h, MetaTag)
  {
    WrittenSpelled(h, p, e.relPath, e.titleLine);
    WrittenUpdate(h, p, e);
    UpdateSame(h, p, e);
  }

  /** An update that writes back the text already in place changes nothing. */
  lemma UpdateSame(h: string, p: nat, e: EntryInfo)
    requires var n := NewMeta(e.relPath, e.titleLine);
      && p + |n| <= |h| && h[p..p + |n|] == n
      && UpdateLatestMeta(h, e) == Success(Overwrite(h, p, |n|, n))
    ensures UpdateLatestMeta(h, e) == Success(h) && Contains(h, MetaTag)
  {
    SameText(h, p, e.relPath, e.titleLine);
  }

  /** The update for `e` at its own written comment puts the written text back in place. */
  lemma WrittenUpdate(h: string, p: nat, e: EntryInfo)
    requires FirstMeta(h, p, Written(e.relPath, e.titleLine))
    requires p + |NewMeta(e.relPath, e.titleLine)| <= |h|
    ensures var n := NewMeta(e.relPath, e.titleLine);
      UpdateLatestMeta(h, e) == Success(Overwrite(h, p, |n|, n))
  {
    var w := Written(e.relPath, e.titleLine);
    assert Render(w) == NewMeta(e.relPath, e.titleLine) by {
      WrittenIsValid(e.relPath, e.titleLine);
    }
    UpdateAt(h, e, p, w);
  }

  /** A written comment standing in the page: writing it again changes nothing, and the
      page spells `LATEST_META`. */
  lemma SameText(h: string, p: nat, f: string, t: string)
    requires p + |NewMeta(f, t)| <= |h| && h[p..p + |NewMeta(f, t)|] == NewMeta(f, t)
    ensures Overwrite(h, p, |NewMeta(f, t)|, NewMeta(f, t)) == h && Contains(h, MetaTag)
  {
    var n := NewMeta(f, t);
    OverwriteSame(h, p, n);
    assert n[5..16] == MetaTag;
    OccursInside(h, p, n, 5, MetaTag);
  }

  /** The first match is what the search finds. */
  lemma FindMetaIs(h: string, p: nat, m: MetaComment)
    requires FirstMeta(h, p, m)
    ensures FindMeta(h) == Some((p, m))
  {
    FirstMetaUnique(h, p, m);
    assert MatchMeta(h[p..]).Some?;
  }

  /** Overwriting a text with itself changes nothing. */
  lemma OverwriteSame(h: string, p: nat, t: string)
    requires p + |t| <= |h| && h[p..p + |t|] == t
    ensures Overwrite(h, p, |t|, t) == h
  {
    assert h == h[..p] + h[p..p + |t|] + h[p + |t|..];
  }

  /** Splicing a block into the region that already holds it changes nothing. */
  lemma SpliceSame(h: string, start: string, end: string, x: string, i: nat, j: nat, k: nat)
    requires FindRegion(h, start, end) == Some((i, j))
    requires k == j + |end| && i <= k <= |h| && h[i..k] == Block(start, end, x)
    ensures ReplaceBetween(h, start, end, x) == Success(h)
  {
    SpliceAt(h, start, end, x, i, j);
    assert h == h[..i] + h[i..k] + h[k..];
  }

  /** A block standing in the page holds the body between its markers. */
  lemma BlockBody(h: string, start: string, end: string, x: string, i: nat, j: nat, k: nat)
    requires k == j + |end| && i <= k <= |h| && h[i..k] == Block(start, end, x)
    ensures i + |start| <= j && h[i + |start|..j] == Body(x)
  {
    var b := Block(start, end, x);
    assert h == h[..i] + b + h[k..];
    BodyInBlock(h[..i], start, end, x, h[k..], i);
  }
}
