/**
  `update_latest_meta`: rewrites the home page's
  `<!-- LATEST_META file="..." title="..." -->` comment for the newest entry.
  The comment is recognised by the pattern
  `<!--\s*LATEST_META\s+file="([^"]+)"\s+title="([^"]+)"\s*-->`, written out
  here by hand. Every repetition in it is followed by a character it cannot
  consume, so at a given position the pattern matches in at most one way.
*/
module Meta {
  import opened Wrappers
  import opened Text
  import opened Entry

  predicate NotQuote(c: char) {
    c != '"'
  }

  // ---------------------------------------------------------------- patterns

  /** The character classes the pattern uses: `\s` and `[^"]`. */
  datatype Class = Space | NonQuote

  predicate InClass(k: Class, c: char) {
    match k
    case Space => IsSpace(c)
    case NonQuote => NotQuote(c)
  }

  /** One element of a pattern without alternation: a literal, or a greedy repetition of a
      class with a minimum count (`*` has minimum 0, `+` minimum 1). */
  datatype Elem = Lit(text: string) | Rep(cls: Class, min: nat)

  /** `<!--\s*LATEST_META\s+file="([^"]+)"\s+title="([^"]+)"\s*-->`, element by element. */
  const MetaPattern: seq<Elem> := [
    Lit("<!--"), Rep(Space, 0), Lit("LATEST_META"), Rep(Space, 1), Lit("file=\""),
    Rep(NonQuote, 1), Lit("\""), Rep(Space, 1), Lit("title=\""), Rep(NonQuote, 1),
    Lit("\""), Rep(Space, 0), Lit("-->")]

  /** `x` is a text the element accepts. */
  predicate Fits(x: string, e: Elem) {
    match e
    case Lit(w) => x == w
    case Rep(k, min) => |x| >= min && forall i | 0 <= i < |x| :: InClass(k, x[i])
  }

  /** Each piece is accepted by the element in the same place. */
  predicate FitsAll(ps: seq<string>, es: seq<Elem>) {
    |ps| == |es| && forall i | 0 <= i < |es| :: Fits(ps[i], es[i])
  }

  /** Every repetition is followed by a non-empty piece whose first character is outside
      its class, so a greedy run stops exactly where its piece ends. */
  predicate Stops(ps: seq<string>, es: seq<Elem>)
    requires |ps| == |es|
  {
    forall i | 0 <= i < |es| && es[i].Rep? ::
      i + 1 < |es| && |ps[i + 1]| > 0 && !InClass(es[i].cls, ps[i + 1][0])
  }

  /** The number of leading characters of `u` in class `k`. */
  function ClassSpan(u: string, k: Class): (n: nat)
    ensures n <= |u|
    ensures forall i | 0 <= i < n :: InClass(k, u[i])
    ensures n == |u| || !InClass(k, u[n])
  {
    match k
    case Space => SpanLen(u, IsSpace)
    case NonQuote => SpanLen(u, NotQuote)
  }

  /** Matches one element at the front of `u`; a repetition takes the longest run. */
  function MatchElem(u: string, e: Elem): (r: Option<(string, string)>)
    ensures r.Some? ==> Fits(r.value.0, e) && u == r.value.0 + r.value.1
    ensures r.Some? && e.Rep? ==> |r.value.1| == 0 || !InClass(e.cls, r.value.1[0])
  {
    match e
    case Lit(w) =>
      if |w| <= |u| && u[..|w|] == w then
        assert u == w + u[|w|..];
        Some((w, u[|w|..]))
      else None
    case Rep(k, min) =>
      var n := ClassSpan(u, k);
      assert u == u[..n] + u[n..];
      if n < min then None else Some((u[..n], u[n..]))
  }

  /** Matches the elements in turn, each repetition committing to its longest run. */
  function MatchSeq(u: string, es: seq<Elem>): (r: Option<(seq<string>, string)>)
    ensures r.Some? ==> FitsAll(r.value.0, es) && u == Concat(r.value.0) + r.value.1
    decreases |es|
  {
    if |es| == 0 then Some(([], u))
    else
      var (x, u1) :- MatchElem(u, es[0]);
      var (xs, rest) :- MatchSeq(u1, es[1..]);
      assert ([x] + xs)[1..] == xs;
      Assoc(x, Concat(xs), rest);
      Some(([x] + xs, rest))
  }

  lemma ClassSpanOf(x: string, after: string, k: Class)
    requires forall i | 0 <= i < |x| :: InClass(k, x[i])
    requires |after| > 0 && !InClass(k, after[0])
    ensures ClassSpan(x + after, k) == |x|
  {
    var u := x + after;
    assert u[|x|] == after[0];
    match k
    case Space => SpanLenUnique(u, IsSpace, |x|);
    case NonQuote => SpanLenUnique(u, NotQuote, |x|);
  }

  lemma MatchElemOf(x: string, e: Elem, after: string)
    requires Fits(x, e)
    requires e.Rep? ==> |after| > 0 && !InClass(e.cls, after[0])
    ensures MatchElem(x + after, e) == Some((x, after))
  {
    var u := x + after;
    assert u[..|x|] == x;
    assert u[|x|..] == after;
    if e.Rep? {
      ClassSpanOf(x, after, e.cls);
    }
  }

  /** Pieces that fit the elements and stop every run are matched back exactly. */
  lemma {:induction false} MatchSeqOf(ps: seq<string>, es: seq<Elem>, rest: string)
    requires FitsAll(ps, es) && Stops(ps, es)
    ensures MatchSeq(Concat(ps) + rest, es) == Some((ps, rest))
    decreases |es|
  {
    if |es| > 0 {
      var tail := ps[1..];
      var u1 := Concat(tail) + rest;
      Assoc(ps[0], Concat(tail), rest);
      if es[0].Rep? {
        assert tail[0] == ps[1];
        assert Concat(tail) == ps[1] + Concat(tail[1..]);
        assert u1[0] == ps[1][0];
      }
      MatchElemOf(ps[0], es[0], u1);
      assert Stops(tail, es[1..]) by {
        forall i | 0 <= i < |es| - 1 && es[1..][i].Rep?
          ensures i + 1 < |es| - 1 && |tail[i + 1]| > 0 && !InClass(es[1..][i].cls, tail[i + 1][0])
        {
          assert es[1..][i] == es[i + 1];
          assert tail[i + 1] == ps[i + 2];
        }
      }
      MatchSeqOf(tail, es[1..], rest);
      assert [ps[0]] + tail == ps;
    } else {
      assert ps == [];
      assert Concat(ps) + rest == rest;
    }
  }

  // ---------------------------------------------------------------- the comment

  /** A matched comment, piece by piece: the whitespace after `<!--`, the whitespace
      before `file=`, the file value, the whitespace before `title=`, the title value
      and the whitespace before `-->`. */
  datatype MetaComment = MetaComment(
    lead: string, gap1: string, file: string, gap2: string, title: string, trail: string)

  /** A value the pattern's `[^"]+` accepts. */
  predicate Attribute(v: string) {
    |v| > 0 && All(v, NotQuote)
  }

  /** The shapes the pattern accepts: `\s*`, `\s+`, `[^"]+`, `\s+`, `[^"]+`, `\s*`. */
  predicate ValidMeta(m: MetaComment) {
    && All(m.lead, IsSpace)
    && |m.gap1| > 0 && All(m.gap1, IsSpace)
    && Attribute(m.file)
    && |m.gap2| > 0 && All(m.gap2, IsSpace)
    && Attribute(m.title)
    && All(m.trail, IsSpace)
  }

  /** The comment as pieces, one for each element of the pattern. */
  function Pieces(m: MetaComment): seq<string> {
    ["<!--", m.lead, "LATEST_META", m.gap1, "file=\"", m.file, "\"", m.gap2, "title=\"",
     m.title, "\"", m.trail, "-->"]
  }

  /** The text of a comment. */
  function Render(m: MetaComment): string {
    Concat(Pieces(m))
  }

  /** A comment has an accepted shape exactly when its pieces fit the pattern. */
  lemma ValidFits(m: MetaComment)
    ensures ValidMeta(m) <==> FitsAll(Pieces(m), MetaPattern)
  {
    var ps, es := Pieces(m), MetaPattern;
    if ValidMeta(m) {
      forall i | 0 <= i < |es| ensures Fits(ps[i], es[i]) {
        if i % 2 == 1 {
          assert es[i].Rep?;
        }
      }
    }
    if FitsAll(ps, es) {
      assert Fits(ps[1], es[1]) && Fits(ps[3], es[3]) && Fits(ps[5], es[5]);
      assert Fits(ps[7], es[7]) && Fits(ps[9], es[9]) && Fits(ps[11], es[11]);
    }
  }

  /** In a comment every run is cut short by the literal that follows it. */
  lemma PiecesStop(m: MetaComment)
    ensures Stops(Pieces(m), MetaPattern)
  {
  }

  /** Pieces that fit the pattern are the pieces of the comment they spell. */
  lemma PiecesOf(ps: seq<string>)
    requires FitsAll(ps, MetaPattern)
    ensures ps == Pieces(MetaComment(ps[1], ps[3], ps[5], ps[7], ps[9], ps[11]))
  {
    var es := MetaPattern;
    assert Fits(ps[0], es[0]) && Fits(ps[2], es[2]) && Fits(ps[4], es[4]);
    assert Fits(ps[6], es[6]) && Fits(ps[8], es[8]) && Fits(ps[10], es[10]);
    assert Fits(ps[12], es[12]);
  }

  /** Matches the pattern at the front of `u`, as `re.match` would. */
  function MatchMeta(u: string): (r: Option<MetaComment>)
    ensures r.Some? ==> ValidMeta(r.value)
    ensures r.Some? ==> |Render(r.value)| <= |u| && u[..|Render(r.value)|] == Render(r.value)
  {
    var (ps, rest) :- MatchSeq(u, MetaPattern);
    var m := MetaComment(ps[1], ps[3], ps[5], ps[7], ps[9], ps[11]);
    PiecesOf(ps);
    ValidFits(m);
    assert u[..|Render(m)|] == Render(m);
    Some(m)
  }

  /** Every comment of the accepted shape is recognised, whatever follows it. */
  lemma MatchRender(m: MetaComment, rest: string)
    requires ValidMeta(m)
    ensures MatchMeta(Render(m) + rest) == Some(m)
  {
    ValidFits(m);
    PiecesStop(m);
    MatchSeqOf(Pieces(m), MetaPattern, rest);
  }

  /** The matcher recognises exactly the comments of the accepted shape. */
  lemma MatchMetaIff(u: string, m: MetaComment)
    ensures MatchMeta(u) == Some(m) <==>
      ValidMeta(m) && |Render(m)| <= |u| && u[..|Render(m)|] == Render(m)
  {
    if ValidMeta(m) && |Render(m)| <= |u| && u[..|Render(m)|] == Render(m) {
      var n := |Render(m)|;
      assert u == Render(m) + u[n..];
      MatchRender(m, u[n..]);
    }
  }

  // ---------------------------------------------------------------- the comment in four parts

  /** `<!--\s*LATEST_META`, with `lead` for the `\s*`. */
  function OpenText(lead: string): string {
    "<!--" + lead + "LATEST_META"
  }

  /** `\s+key="[^"]+"`, with `gap` for the `\s+`, `open` for `key="` and `value` for
      the `[^"]+`. */
  function AttrText(gap: string, open: string, value: string): string {
    gap + open + value + "\""
  }

  /** `\s*-->`, with `trail` for the `\s*`. */
  function CloseText(trail: string): string {
    trail + "-->"
  }

  lemma Concat2(a: string, b: string)
    ensures Concat([a, b]) == a + b
  {
    assert [a, b][1..] == [b];
    assert [b][1..] == [];
    assert Concat([b]) == b + Concat([]);
    assert b + [] == b;
  }

  lemma Concat3(a: string, b: string, c: string)
    ensures Concat([a, b, c]) == a + b + c
  {
    assert [a, b, c][1..] == [b, c];
    Concat2(b, c);
    Assoc(a, b, c);
  }

  lemma Concat4(a: string, b: string, c: string, d: string)
    ensures Concat([a, b, c, d]) == a + b + c + d
  {
    assert [a, b, c, d][1..] == [b, c, d];
    Concat3(b, c, d);
    Assoc(a, b + c, d);
    Assoc(a, b, c);
  }

  /** A comment is its opening, its two attributes and its close, in that order. */
  lemma RenderParts(m: MetaComment)
    ensures Render(m) == OpenText(m.lead) + AttrText(m.gap1, "file=\"", m.file)
      + AttrText(m.gap2, "title=\"", m.title) + CloseText(m.trail)
  {
    var p1 := ["<!--", m.lead, "LATEST_META"];
    var p2 := [m.gap1, "file=\"", m.file, "\""];
    var p3 := [m.gap2, "title=\"", m.title, "\""];
    var p4 := [m.trail, "-->"];
    assert Pieces(m) == p1 + p2 + p3 + p4;
    ConcatAppend(p1 + p2 + p3, p4);
    ConcatAppend(p1 + p2, p3);
    ConcatAppend(p1, p2);
    Concat3("<!--", m.lead, "LATEST_META");
    Concat4(m.gap1, "file=\"", m.file, "\"");
    Concat4(m.gap2, "title=\"", m.title, "\"");
    Concat2(m.trail, "-->");
  }

  // ---------------------------------------------------------------- the search and the update

  /** `p` is where a pattern search over `html` finds its first match, `m`. */
  ghost predicate FirstMeta(html: string, p: nat, m: MetaComment) {
    && p <= |html|
    && MatchMeta(html[p..]) == Some(m)
    && forall q: nat | q < p :: MatchMeta(html[q..]).None?
  }

  /** The outcome of matching at each position `0 .. |html|` of `html`. */
  function Attempts(html: string): (r: seq<Option<MetaComment>>)
    ensures |r| == |html| + 1
    ensures forall q | 0 <= q <= |html| :: r[q] == MatchMeta(html[q..])
  {
    seq(|html| + 1, q requires 0 <= q <= |html| => MatchMeta(html[q..]))
  }

  /** The first index at or after `from` that holds a value: a search trying the
      positions in turn. */
  function FirstSome<T>(s: seq<Option<T>>, from: nat): (r: Option<nat>)
    requires from <= |s|
    ensures r.Some? ==> from <= r.value < |s| && s[r.value].Some?
    ensures r.Some? ==> forall q | from <= q < r.value :: s[q].None?
    ensures r.None? <==> forall q | from <= q < |s| :: s[q].None?
    decreases |s| - from
  {
    if from == |s| then None
    else if s[from].Some? then Some(from)
    else FirstSome(s, from + 1)
  }

  /** The position of the first match in `html`, with the comment matched there. */
  function FindMeta(html: string): (r: Option<(nat, MetaComment)>)
    ensures r.Some? ==> FirstMeta(html, r.value.0, r.value.1)
    ensures r.None? <==> forall q: nat | q <= |html| :: MatchMeta(html[q..]).None?
  {
    var a := Attempts(html);
    match FirstSome(a, 0)
    case None => None
    case Some(p) => Some((p, a[p].value))
  }

  /** `html` with its `n` characters from position `p` replaced by `text`. */
  function Overwrite(html: string, p: nat, n: nat, text: string): string
    requires p + n <= |html|
  {
    html[..p] + text + html[p + n..]
  }

  /** What `Overwrite` keeps and what it puts in. */
  lemma OverwriteParts(html: string, p: nat, n: nat, text: string)
    requires p + n <= |html|
    ensures var h := Overwrite(html, p, n, text);
      && |h| == |html| - n + |text|
      && h[..p] == html[..p]
      && h[p..] == text + html[p + n..]
      && h[p + |text|..] == html[p + n..]
      && (forall k | 0 <= k < p :: h[k] == html[k])
      && (forall k | 0 <= k < |text| :: h[p + k] == text[k])
  {
    var h := Overwrite(html, p, n, text);
    assert h[p..] == text + html[p + n..];
  }

  /** The comment written for the latest entry. */
  function NewMeta(file: string, title: string): string {
    "<!-- LATEST_META" + " file=\"" + file + "\"" + " title=\"" + title + "\"" + " -->"
  }

  /** `update_latest_meta(html, latest)`: the first comment is replaced, or the call fails. */
  function UpdateLatestMeta(html: string, latest: EntryInfo): (r: Result<string, JournalError>)
    ensures r.Failure? ==> r.error == LatestMetaNotFound
  {
    match FindMeta(html)
    case None => Failure(LatestMetaNotFound)
    case Some((p, m)) => Success(Overwrite(html, p, |Render(m)|, NewMeta(latest.relPath, latest.titleLine)))
  }

  /** The update fails exactly when no position of the page starts a comment; otherwise the
      first comment, and only it, is replaced by the written one. */
  lemma UpdateLatestMetaSpec(html: string, latest: EntryInfo)
    ensures UpdateLatestMeta(html, latest).Failure? <==>
      forall q: nat | q <= |html| :: MatchMeta(html[q..]).None?
    ensures forall p: nat, m | FirstMeta(html, p, m) ::
      UpdateLatestMeta(html, latest) == Success(Overwrite(html, p, |Render(m)|, NewMeta(latest.relPath, latest.titleLine)))
  {
    if FindMeta(html).Some? {
      var (p, m) := FindMeta(html).value;
      FirstMetaUnique(html, p, m);
    }
  }

  /** The update at the first comment. */
  lemma UpdateAt(html: string, latest: EntryInfo, p: nat, m: MetaComment)
    requires FirstMeta(html, p, m)
    ensures UpdateLatestMeta(html, latest) == Success(Overwrite(html, p, |Render(m)|, NewMeta(latest.relPath, latest.titleLine)))
  {
    FirstMetaUnique(html, p, m);
  }

  /** There is only one first match. */
  lemma FirstMetaUnique(html: string, p: nat, m: MetaComment)
    requires FirstMeta(html, p, m)
    ensures forall p': nat, m' | FirstMeta(html, p', m') :: p' == p && m' == m
  {
  }

  // ---------------------------------------------------------------- the written comment

  /** The comment `update_latest_meta` writes, as a matched comment. */
  function Written(file: string, title: string): MetaComment {
    MetaComment(" ", " ", file, " ", title, " ")
  }

  /** The written comment is well formed exactly when both values are non-empty and free
      of double quotes. */
  lemma WrittenIsValid(file: string, title: string)
    ensures Render(Written(file, title)) == NewMeta(file, title)
    ensures ValidMeta(Written(file, title)) <==> Attribute(file) && Attribute(title)
  {
    assert IsSpace(' ');
    RenderParts(Written(file, title));
    var l1, l2, l4, l6 := "<!-- LATEST_META", " file=\"", " title=\"", " -->";
    assert OpenText(" ") == l1;
    assert " " + "file=\"" == l2;
    assert " " + "title=\"" == l4;
    assert CloseText(" ") == l6;
    Assoc(l1, l2 + file, "\"");
    Assoc(l1, l2, file);
    var p := l1 + l2 + file + "\"";
    Assoc(p, l4 + title, "\"");
    Assoc(p, l4, title);
  }

  // ---------------------------------------------------------------- re-publishing

  /** In `<!--\s*LATEST_META`, no character after the first is a `<`. */
  lemma OpenLayout(lead: string)
    requires All(lead, IsSpace)
    ensures forall k | 0 < k < |OpenText(lead)| :: OpenText(lead)[k] != '<'
  {
    var o := OpenText(lead);
    forall k | 0 < k < |o| ensures o[k] != '<' {
      if 4 <= k < 4 + |lead| {
        assert o[k] == lead[k - 4];
      } else if 4 + |lead| <= k {
        assert o[k] == "LATEST_META"[k - 4 - |lead|];
      }
    }
  }

  /** The shape of `\s+key="value"` with the value starting at `v`: a `<` can only be part
      of the value, and the value runs on to the closing quote, the last character. */
  predicate AttrShape(a: string, v: nat) {
    && v < |a| && a[|a| - 1] == '"'
    && (forall k | v <= k < |a| - 1 :: a[k] != '"')
    && (forall k | 0 <= k < |a| && a[k] == '<' :: v <= k < |a| - 1)
  }

  lemma AttrLayout(gap: string, open: string, value: string)
    requires All(gap, IsSpace) && Attribute(value) && '<' !in open
    ensures var a := AttrText(gap, open, value);
      && AttrShape(a, |gap| + |open|)
      && (|gap| > 0 ==> a[0] == gap[0])
  {
    var a := AttrText(gap, open, value);
    var vs := |gap| + |open|;
    forall k | vs <= k < |a| - 1 ensures a[k] == value[k - vs] {
    }
    forall k | 0 <= k < vs ensures a[k] != '<' {
      if k < |gap| {
        assert a[k] == gap[k];
      } else {
        assert a[k] == open[k - |gap|];
      }
    }
  }

  /** `\s*-->` holds no `<`, and starts with whitespace or the `-`. */
  lemma CloseLayout(trail: string)
    requires All(trail, IsSpace)
    ensures var c := CloseText(trail);
      && |c| > 0 && (IsSpace(c[0]) || c[0] == '-')
      && forall k | 0 <= k < |c| :: c[k] != '<'
  {
    var c := CloseText(trail);
    forall k | 0 <= k < |c| ensures c[k] != '<' {
      if k < |trail| {
        assert c[k] == trail[k];
      }
    }
  }

  /** A `<` after the first character of a comment lies inside the file or the title
      value; that value ends at a quote `e` which is followed by whitespace or by the `-`
      of `-->`. */
  lemma InsideValue(m: MetaComment, d: nat) returns (e: nat)
    requires ValidMeta(m)
    requires 0 < d < |Render(m)| && Render(m)[d] == '<'
    ensures d < e && e + 1 < |Render(m)|
    ensures Render(m)[e] == '"' && (IsSpace(Render(m)[e + 1]) || Render(m)[e + 1] == '-')
    ensures forall k | d <= k < e :: Render(m)[k] != '"'
  {
    var o := OpenText(m.lead);
    var a1 := AttrText(m.gap1, "file=\"", m.file);
    var a2 := AttrText(m.gap2, "title=\"", m.title);
    var c := CloseText(m.trail);
    RenderParts(m);
    OpenLayout(m.lead);
    AttrLayout(m.gap1, "file=\"", m.file);
    AttrLayout(m.gap2, "title=\"", m.title);
    CloseLayout(m.trail);
    e := InsideParts(Render(m), o, a1, a2, c, |m.gap1| + 6, |m.gap2| + 7, d);
  }

  /** `InsideValue` for a text made of an opening, two attributes and a close. */
  lemma InsideParts(r: string, o: string, a1: string, a2: string, c: string, v1: nat, v2: nat, d: nat)
    returns (e: nat)
    requires r == o + a1 + a2 + c
    requires forall k | 0 < k < |o| :: o[k] != '<'
    requires AttrShape(a1, v1) && AttrShape(a2, v2) && IsSpace(a2[0])
    requires |c| > 0 && (IsSpace(c[0]) || c[0] == '-') && forall k | 0 <= k < |c| :: c[k] != '<'
    requires 0 < d < |r| && r[d] == '<'
    ensures d < e && e + 1 < |r|
    ensures r[e] == '"' && (IsSpace(r[e + 1]) || r[e + 1] == '-')
    ensures forall k | d <= k < e :: r[k] != '"'
  {
    PartAt(r, o, a1, a2, c, d);
    assert |o| <= d < |o| + |a1| + |a2|;
    if d < |o| + |a1| {
      e := |o| + |a1| - 1;
      PartAt(r, o, a1, a2, c, e + 1);
      forall k | d <= k < e ensures r[k] != '"' {
        PartAt(r, o, a1, a2, c, k);
      }
    } else {
      e := |o| + |a1| + |a2| - 1;
      PartAt(r, o, a1, a2, c, e + 1);
      forall k | d <= k < e ensures r[k] != '"' {
        PartAt(r, o, a1, a2, c, k);
      }
    }
  }

  /** Which part of `o + a1 + a2 + c` the character at `d` comes from. */
  lemma PartAt(r: string, o: string, a1: string, a2: string, c: string, d: nat)
    requires r == o + a1 + a2 + c && d < |r|
    ensures d < |o| ==> r[d] == o[d]
    ensures |o| <= d < |o| + |a1| ==> r[d] == a1[d - |o|]
    ensures |o| + |a1| <= d < |o| + |a1| + |a2| ==> r[d] == a2[d - |o| - |a1|]
    ensures |o| + |a1| + |a2| <= d ==> r[d] == c[d - |o| - |a1| - |a2|]
  {
  }

  /** The first characters of a written comment: the opening `<`, a quote-free stretch up
      to the quote after `file=`, then the first character of the file value. */
  lemma NewMetaHead(file: string, title: string)
    requires |file| > 0
    ensures var n := NewMeta(file, title);
      && |n| > 23 && n[0] == '<' && n[22] == '"' && n[23] == file[0]
      && forall k | 0 <= k < 22 :: n[k] != '"'
  {
    var n := NewMeta(file, title);
    var h := "<!-- LATEST_META" + " file=\"";
    assert |h| == 23;
    assert n[..23] == h;
  }

  /** Two texts that agree before `p` agree on every stretch that ends by `p`. */
  lemma AgreeBefore(a: string, b: string, p: nat, q: nat, len: nat)
    requires q + len <= p <= |a| && p <= |b| && a[..p] == b[..p]
    ensures a[q..q + len] == b[q..q + len]
  {
    assert a[q..q + len] == a[..p][q..q + len];
    assert b[q..q + len] == b[..p][q..q + len];
  }

  /** A comment that starts before a written comment and runs into it must read the
      written `file="` as part of a value; that value's closing quote is the one after
      `file=`, so the file value's first character is whitespace or `-`. */
  lemma CrossingReadsFile(h1: string, p: nat, q: nat, m: MetaComment, file: string, title: string)
    requires |file| > 0
    requires q < p && p + |NewMeta(file, title)| <= |h1|
    requires h1[p..p + |NewMeta(file, title)|] == NewMeta(file, title)
    requires ValidMeta(m) && q + |Render(m)| <= |h1| && h1[q..q + |Render(m)|] == Render(m)
    requires p < q + |Render(m)|
    ensures IsSpace(file[0]) || file[0] == '-'
  {
    var n := NewMeta(file, title);
    var r := Render(m);
    NewMetaHead(file, title);
    forall k | 0 <= k < |n| ensures h1[p + k] == n[k] {
      assert h1[p..p + |n|][k] == n[k];
    }
    forall k | 0 <= k < |r| ensures h1[q + k] == r[k] {
      assert h1[q..q + |r|][k] == r[k];
    }
    var d := p - q;
    assert r[d] == '<';
    var e := InsideValue(m, d);
    var k0 := e - d;
    assert h1[p + k0] == r[e];
    assert k0 >= 22;
    assert r[d + 22] == n[22];
    assert e == d + 22;
    assert r[e + 1] == n[23];
  }

  /** A match cannot start before a written comment and run into it, when the file value
      starts with neither whitespace nor `-`. */
  lemma NoMatchAcross(h1: string, p: nat, q: nat, m: MetaComment, file: string, title: string)
    requires Attribute(file) && !IsSpace(file[0]) && file[0] != '-'
    requires q < p && p + |NewMeta(file, title)| <= |h1|
    requires h1[p..p + |NewMeta(file, title)|] == NewMeta(file, title)
    requires ValidMeta(m) && q + |Render(m)| <= |h1| && h1[q..q + |Render(m)|] == Render(m)
    ensures q + |Render(m)| <= p
  {
    if p < q + |Render(m)| {
      CrossingReadsFile(h1, p, q, m, file, title);
      assert false;
    }
  }

  /** A match at `q` spells its comment at `q`. */
  lemma MatchedAt(h: string, q: nat, m: MetaComment)
    requires q <= |h| && MatchMeta(h[q..]) == Some(m)
    ensures ValidMeta(m) && q + |Render(m)| <= |h| && h[q..q + |Render(m)|] == Render(m)
  {
    Spelled(h[q..], m);
    SliceOfSuffix(h, q, |Render(m)|);
  }

  lemma Spelled(u: string, m: MetaComment)
    requires MatchMeta(u) == Some(m)
    ensures ValidMeta(m) && |Render(m)| <= |u| && u[..|Render(m)|] == Render(m)
  {
  }

  lemma SliceOfSuffix(h: string, q: nat, n: nat)
    requires q + n <= |h|
    ensures h[q..q + n] == h[q..][..n]
  {
  }

  /** A comment spelled at `q` is matched at `q`. */
  lemma MatchedAgain(h: string, q: nat, m: MetaComment)
    requires ValidMeta(m) && q + |Render(m)| <= |h| && h[q..q + |Render(m)|] == Render(m)
    ensures MatchMeta(h[q..]) == Some(m)
  {
    SliceOfSuffix(h, q, |Render(m)|);
    MatchMetaIff(h[q..], m);
  }

  /** Once the first comment is replaced by the written one, no match starts before it. */
  lemma NoEarlierMatch(html: string, p: nat, m: MetaComment, file: string, title: string, q: nat)
    requires FirstMeta(html, p, m)
    requires Attribute(file) && Attribute(title) && !IsSpace(file[0]) && file[0] != '-'
    requires q < p
    ensures MatchMeta(Overwrite(html, p, |Render(m)|, NewMeta(file, title))[q..]).None?
  {
    var n := NewMeta(file, title);
    var h1 := Overwrite(html, p, |Render(m)|, n);
    OverwriteParts(html, p, |Render(m)|, n);
    assert h1[p..p + |n|] == n;
    assert MatchMeta(html[q..]).None?;
    NoMatchBefore(html, h1, p, q, file, title);
  }

  /** Two texts that agree before `p`, where the second holds a written comment: a
      position before `p` that starts no match in the first starts none in the second. */
  lemma NoMatchBefore(html: string, h1: string, p: nat, q: nat, file: string, title: string)
    requires Attribute(file) && !IsSpace(file[0]) && file[0] != '-'
    requires q < p <= |html| && p + |NewMeta(file, title)| <= |h1|
    requires h1[..p] == html[..p] && h1[p..p + |NewMeta(file, title)|] == NewMeta(file, title)
    requires MatchMeta(html[q..]).None?
    ensures MatchMeta(h1[q..]).None?
  {
    if MatchMeta(h1[q..]).Some? {
      var m' := MatchMeta(h1[q..]).value;
      MatchedAt(h1, q, m');
      CarryBack(html, h1, p, q, m', file, title);
      assert false;
    }
  }

  /** A comment spelled at `q` in the second text is matched at `q` in the first. */
  lemma CarryBack(html: string, h1: string, p: nat, q: nat, m: MetaComment, file: string, title: string)
    requires Attribute(file) && !IsSpace(file[0]) && file[0] != '-'
    requires q < p <= |html| && p + |NewMeta(file, title)| <= |h1|
    requires h1[..p] == html[..p] && h1[p..p + |NewMeta(file, title)|] == NewMeta(file, title)
    requires ValidMeta(m) && q + |Render(m)| <= |h1| && h1[q..q + |Render(m)|] == Render(m)
    ensures MatchMeta(html[q..]) == Some(m)
  {
    NoMatchAcross(h1, p, q, m, file, title);
    AgreeBefore(h1, html, p, q, |Render(m)|);
    MatchedAgain(html, q, m);
  }

  /** After replacing the first comment, the written comment is the first match, where the
      old one was. */
  lemma WrittenAt(html: string, p: nat, m: MetaComment, f: string, t: string)
    requires FirstMeta(html, p, m)
    requires Attribute(f) && Attribute(t) && !IsSpace(f[0]) && f[0] != '-'
    ensures FirstMeta(Overwrite(html, p, |Render(m)|, NewMeta(f, t)), p, Written(f, t))
  {
    var n := NewMeta(f, t);
    var h1 := Overwrite(html, p, |Render(m)|, n);
    WrittenIsValid(f, t);
    OverwriteParts(html, p, |Render(m)|, n);
    MatchRender(Written(f, t), html[p + |Render(m)|..]);
    forall q: nat | q < p ensures MatchMeta(h1[q..]).None? {
      NoEarlierMatch(html, p, m, f, t, q);
    }
  }

  /** After an update, the written comment is the first match, where the old one was. */
  lemma WrittenIsFirst(html: string, p: nat, m: MetaComment, latest: EntryInfo)
    requires FirstMeta(html, p, m)
    requires Attribute(latest.relPath) && Attribute(latest.titleLine)
    requires !IsSpace(latest.relPath[0]) && latest.relPath[0] != '-'
    ensures UpdateLatestMeta(html, latest).Success?
    ensures FirstMeta(UpdateLatestMeta(html, latest).value, p, Written(latest.relPath, latest.titleLine))
  {
    UpdateAt(html, latest, p, m);
    WrittenAt(html, p, m, latest.relPath, latest.titleLine);
  }

  /** Overwriting the same place twice keeps only the second text. */
  lemma OverwriteTwice(html: string, p: nat, n: nat, a: string, b: string)
    requires p + n <= |html|
    ensures p + |a| <= |Overwrite(html, p, n, a)|
    ensures Overwrite(Overwrite(html, p, n, a), p, |a|, b) == Overwrite(html, p, n, b)
  {
    OverwriteParts(html, p, n, a);
  }

  /** Updating for `e2` after updating for `e1` leaves the page as updating for `e2`
      alone would. */
  lemma UpdateOverwrites(html: string, e1: EntryInfo, e2: EntryInfo)
    requires UpdateLatestMeta(html, e1).Success?
    requires Attribute(e1.relPath) && Attribute(e1.titleLine)
    requires !IsSpace(e1.relPath[0]) && e1.relPath[0] != '-'
    ensures UpdateLatestMeta(UpdateLatestMeta(html, e1).value, e2) == UpdateLatestMeta(html, e2)
  {
    var (p, m) := FindMeta(html).value;
    var f, t := e1.relPath, e1.titleLine;
    var w := Written(f, t);
    UpdateAt(html, e1, p, m);
    UpdateAt(html, e2, p, m);
    WrittenAt(html, p, m, f, t);
    WrittenIsValid(f, t);
    var h1 := Overwrite(html, p, |Render(m)|, NewMeta(f, t));
    UpdateAt(h1, e2, p, w);
    OverwriteTwice(html, p, |Render(m)|, NewMeta(f, t), NewMeta(e2.relPath, e2.titleLine));
  }

  /** Publishing the same entry twice writes the same comment as publishing it once. */
  lemma UpdateIdempotent(html: string, latest: EntryInfo)
    requires UpdateLatestMeta(html, latest).Success?
    requires Attribute(latest.relPath) && Attribute(latest.titleLine)
    requires !IsSpace(latest.relPath[0]) && latest.relPath[0] != '-'
    ensures UpdateLatestMeta(UpdateLatestMeta(html, latest).value, latest) == UpdateLatestMeta(html, latest)
  {
    UpdateOverwrites(html, latest, latest);
  }
}
