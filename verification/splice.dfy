/**
  `replace_between_markers`: rebuilds the first `start ... end` region of the
  home page around new content. The pattern is `re.escape(start) + ".*?" +
  re.escape(end)` with DOTALL, substituted with `count=1`, so at most one
  region is ever rewritten and the call fails only when there is none.
*/
module Splice {
  import opened Wrappers
  import opened Text

  /** The pattern matches `html[i..j + |end|]`: `start` at `i`, then `end` at some `j` after it. */
  predicate RegionAt(html: string, start: string, end: string, i: nat, j: nat) {
    OccursAt(html, start, i) && i + |start| <= j && OccursAt(html, end, j)
  }

  /** The match a regex search returns: leftmost start, then the shortest body (lazy `.*?`). */
  ghost predicate LeastRegion(html: string, start: string, end: string, i: nat, j: nat) {
    && RegionAt(html, start, end, i, j)
    && forall i': nat, j': nat | RegionAt(html, start, end, i', j') :: i < i' || (i == i' && j <= j')
  }

  /** Locates the region the pattern search finds: the first `start`, then the first `end` after it. */
  function FindRegion(html: string, start: string, end: string): (r: Option<(nat, nat)>)
    ensures r.Some? ==> RegionAt(html, start, end, r.value.0, r.value.1)
  {
    match Find(html, start, 0)
    case None => None
    case Some(i) =>
      match Find(html, end, i + |start|)
      case None => None
      case Some(j) => Some((i, j))
  }

  /** The region found is the one the regex search returns, and there is none only when no
      `start` is followed by an `end`. */
  lemma FindRegionLeast(html: string, start: string, end: string)
    ensures FindRegion(html, start, end).Some? ==>
      LeastRegion(html, start, end, FindRegion(html, start, end).value.0, FindRegion(html, start, end).value.1)
    ensures FindRegion(html, start, end).None? <==> forall i: nat, j: nat :: !RegionAt(html, start, end, i, j)
  {
  }

  /** The text that replaces the whole matched region. */
  function Block(start: string, end: string, replacement: string): string {
    start + Tail(end, replacement)
  }

  /** The part of a block after its start marker: a newline, the replacement without its
      trailing whitespace, a newline and two spaces, and the end marker. */
  function Tail(end: string, replacement: string): string {
    "\n" + RStrip(replacement) + "\n  " + end
  }

  /** `replace_between_markers(html, start, end, replacement)`. */
  function ReplaceBetween(html: string, start: string, end: string, replacement: string)
    : (r: Result<string, JournalError>)
    ensures r.Failure? ==> r.error == MarkerRegionNotFound(start, end)
  {
    match FindRegion(html, start, end)
    case None => Failure(MarkerRegionNotFound(start, end))
    case Some((i, j)) => Success(html[..i] + Block(start, end, replacement) + html[j + |end|..])
  }

  /** The call fails exactly when no `start` is followed by an `end`; otherwise the least
      region, and only it, is replaced by the block. */
  lemma ReplaceBetweenSpec(html: string, start: string, end: string, x: string)
    ensures ReplaceBetween(html, start, end, x).Failure? <==>
      forall i: nat, j: nat :: !RegionAt(html, start, end, i, j)
    ensures ReplaceBetween(html, start, end, x).Success? ==>
      exists i: nat, j: nat :: LeastRegion(html, start, end, i, j)
    ensures forall i: nat, j: nat | LeastRegion(html, start, end, i, j) ::
      ReplaceBetween(html, start, end, x) == Success(html[..i] + Block(start, end, x) + html[j + |end|..])
  {
    FindRegionLeast(html, start, end);
    if FindRegion(html, start, end).Some? {
      var (i, j) := FindRegion(html, start, end).value;
      LeastRegionUnique(html, start, end, i, j);
    }
  }

  /** A successful call rebuilt the region `FindRegion` located. */
  lemma Spliced(html: string, start: string, end: string, x: string)
    requires ReplaceBetween(html, start, end, x).Success?
    ensures FindRegion(html, start, end).Some?
    ensures var (i, j) := FindRegion(html, start, end).value;
      ReplaceBetween(html, start, end, x).value == html[..i] + Block(start, end, x) + html[j + |end|..]
  {
  }

  /** Splicing at a located region. */
  lemma SpliceAt(html: string, start: string, end: string, x: string, i: nat, j: nat)
    requires FindRegion(html, start, end) == Some((i, j))
    ensures ReplaceBetween(html, start, end, x) == Success(html[..i] + Block(start, end, x) + html[j + |end|..])
  {
  }

  /** There is only one least region. */
  lemma LeastRegionUnique(html: string, start: string, end: string, i: nat, j: nat)
    requires LeastRegion(html, start, end, i, j)
    ensures forall i': nat, j': nat | LeastRegion(html, start, end, i', j') :: i' == i && j' == j
  {
  }

  /** When `pat` occurs at `k` and nowhere in `[from, k)`, searching from `from` finds `k`. */
  lemma FindFirst(s: string, pat: string, from: nat, k: nat)
    requires from <= k && OccursAt(s, pat, k)
    requires forall m | from <= m < k :: !OccursAt(s, pat, m)
    ensures Find(s, pat, from) == Some(k)
  {
  }

  /** An end marker the rebuilt block cannot fake: it is non-empty, has no newline and does
      not start with a space, so it cannot match across the block's `"\n"` and `"\n  "`. */
  predicate SafeEndMarker(end: string) {
    |end| > 0 && end[0] != ' ' && '\n' !in end
  }

  /** `w` ends with `end` and holds no earlier occurrence of it. */
  predicate EndsOnlyWith(w: string, end: string) {
    && |end| <= |w| && OccursAt(w, end, |w| - |end|)
    && forall k: nat | k < |w| - |end| :: !OccursAt(w, end, k)
  }

  /** Inside a block tail, the first `end` is the final one. */
  lemma TailEndIsLast(end: string, x: string)
    requires SafeEndMarker(end) && !Contains(x, end)
    ensures EndsOnlyWith(Tail(end, x), end)
  {
    var rx := RStrip(x);
    PrefixAvoids(x, rx, end);
    FramedEndIsLast(rx, end);
    assert Tail(end, x) == "\n" + rx + "\n  " + end;
  }

  /** A prefix of a text without `end` has no `end` either. */
  lemma PrefixAvoids(x: string, p: string, end: string)
    requires !Contains(x, end) && |p| <= |x| && p == x[..|p|]
    ensures forall k: nat :: !OccursAt(p, end, k)
  {
    forall k: nat | OccursAt(p, end, k) ensures false {
      assert x[k..k + |end|] == p[k..k + |end|];
      assert OccursAt(x, end, k);
    }
  }

  /** `end` framed by a break before and a break and two spaces after text without it. */
  lemma FramedEndIsLast(rx: string, end: string)
    requires SafeEndMarker(end) && forall k: nat :: !OccursAt(rx, end, k)
    ensures EndsOnlyWith("\n" + rx + "\n  " + end, end)
  {
    var w := "\n" + rx + "\n  " + end;
    assert |w| == |rx| + 4 + |end|;
    assert w[|w| - |end|..] == end;
    forall k: nat | k < |w| - |end| ensures !OccursAt(w, end, k) {
      if k == 0 || k == 1 + |rx| {
        assert w[k] == '\n';
      } else if k > 1 + |rx| {
        assert w[k] == ' ';
      } else if k + |end| <= 1 + |rx| {
        assert w[k..k + |end|] == rx[k - 1..k - 1 + |end|];
        assert !OccursAt(rx, end, k - 1);
      } else {
        assert w[1 + |rx|] == '\n';
        assert w[k..k + |end|][1 + |rx| - k] == '\n';
      }
    }
  }

  /** Replacing what follows the first `start` cannot create an earlier `start`. */
  lemma StartStaysFirst(html: string, start: string, i: nat, h1: string)
    requires OccursAt(html, start, i) && forall k: nat | k < i :: !OccursAt(html, start, k)
    requires i + |start| <= |h1| && h1[..i + |start|] == html[..i + |start|]
    ensures Find(h1, start, 0) == Some(i)
  {
    var q := i + |start|;
    forall k: nat | k < i ensures !OccursAt(h1, start, k) {
      SamePrefixOccurs(h1, html, start, k, q);
    }
    SamePrefixOccurs(h1, html, start, i, q);
    FindFirst(h1, start, 0, i);
  }

  /** Two texts that agree on their first `q` characters hold the same occurrences there. */
  lemma SamePrefixOccurs(a: string, b: string, pat: string, k: nat, q: nat)
    requires k + |pat| <= q <= |a| && q <= |b| && a[..q] == b[..q]
    ensures OccursAt(a, pat, k) <==> OccursAt(b, pat, k)
  {
    assert a[k..k + |pat|] == a[..q][k..k + |pat|];
    assert b[k..k + |pat|] == b[..q][k..k + |pat|];
  }

  /** A tail placed at `q` that ends with its only `end` holds the first `end` at or after `q`. */
  lemma TailEndFirst(h1: string, q: nat, end: string, w: string)
    requires EndsOnlyWith(w, end)
    requires q + |w| <= |h1| && h1[q..q + |w|] == w
    ensures Find(h1, end, q) == Some(q + |w| - |end|)
  {
    var e0 := q + |w| - |end|;
    forall k: nat | q <= k < e0 ensures !OccursAt(h1, end, k) {
      var a, b := h1[k..k + |end|], w[k - q..k - q + |end|];
      forall m | 0 <= m < |end| ensures a[m] == b[m] {
        assert h1[k + m] == h1[q..q + |w|][k - q + m];
      }
      assert a == b;
      assert !OccursAt(w, end, k - q);
    }
    assert h1[e0..e0 + |end|] == w[|w| - |end|..];
    FindFirst(h1, end, q, e0);
  }

  /** In the spliced text the region starts where it did and ends with the block's own `end`. */
  lemma SplicedRegion(html: string, start: string, end: string, x: string, i: nat, j: nat)
    requires FindRegion(html, start, end) == Some((i, j))
    requires SafeEndMarker(end) && !Contains(x, end)
    ensures var h1 := html[..i] + Block(start, end, x) + html[j + |end|..];
      FindRegion(h1, start, end) == Some((i, i + |Block(start, end, x)| - |end|))
  {
    var w, rest := Tail(end, x), html[j + |end|..];
    assert Block(start, end, x) == start + w;
    FirstStartOf(html, start, end, i, j);
    TailEndIsLast(end, x);
    SplicedRegionAt(html, start, end, w, rest, i);
  }

  /** The same, for any tail that ends with its only `end`. */
  lemma SplicedRegionAt(html: string, start: string, end: string, w: string, rest: string, i: nat)
    requires OccursAt(html, start, i) && forall k: nat | k < i :: !OccursAt(html, start, k)
    requires EndsOnlyWith(w, end)
    ensures FindRegion(html[..i] + (start + w) + rest, start, end) == Some((i, i + |start| + |w| - |end|))
  {
    SplicedFinds(html, start, end, w, rest, i);
    FindRegionIs(html[..i] + (start + w) + rest, start, end, i, i + |start| + |w| - |end|);
  }

  /** The two searches `FindRegion` makes, on the text with `start + w` spliced in at `i`. */
  lemma SplicedFinds(html: string, start: string, end: string, w: string, rest: string, i: nat)
    requires OccursAt(html, start, i) && forall k: nat | k < i :: !OccursAt(html, start, k)
    requires EndsOnlyWith(w, end)
    ensures var h1 := html[..i] + (start + w) + rest;
      && Find(h1, start, 0) == Some(i)
      && Find(h1, end, i + |start|) == Some(i + |start| + |w| - |end|)
  {
    var h1 := html[..i] + (start + w) + rest;
    SpliceLayout(html, start, w, rest, i);
    FindsInLayout(html, start, end, w, i, h1);
  }

  lemma FindsInLayout(html: string, start: string, end: string, w: string, i: nat, h1: string)
    requires OccursAt(html, start, i) && forall k: nat | k < i :: !OccursAt(html, start, k)
    requires EndsOnlyWith(w, end)
    requires var q := i + |start|; q + |w| <= |h1| && h1[..q] == html[..q] && h1[q..q + |w|] == w
    ensures Find(h1, start, 0) == Some(i) && Find(h1, end, i + |start|) == Some(i + |start| + |w| - |end|)
  {
    StartStaysFirst(html, start, i, h1);
    TailEndFirst(h1, i + |start|, end, w);
  }

  lemma FirstStartOf(html: string, start: string, end: string, i: nat, j: nat)
    requires FindRegion(html, start, end) == Some((i, j))
    ensures RegionAt(html, start, end, i, j) && forall k: nat | k < i :: !OccursAt(html, start, k)
  {
  }

  /** The spliced text agrees with the old one up to the end of `start`, then holds `w`. */
  lemma SpliceLayout(html: string, start: string, w: string, rest: string, i: nat)
    requires OccursAt(html, start, i)
    ensures var h1 := html[..i] + (start + w) + rest;
      var q := i + |start|;
      && q + |w| <= |h1| && h1[..q] == html[..q] && h1[q..q + |w|] == w
  {
    var pre := html[..i];
    ConcatParts(pre, start, w, rest);
    PrefixThrough(html, start, i);
  }

  lemma ConcatParts(pre: string, start: string, w: string, rest: string)
    ensures var h := pre + (start + w) + rest;
      var q := |pre| + |start|;
      && q + |w| <= |h| && h[..q] == pre + start && h[q..q + |w|] == w
  {
    var h := pre + (start + w) + rest;
    var q := |pre| + |start|;
    assert h[..q] == pre + start by {
      forall m | 0 <= m < q ensures h[m] == (pre + start)[m] {
        if m >= |pre| {
          assert h[m] == (start + w)[m - |pre|];
        }
      }
    }
    assert h[q..q + |w|] == w by {
      forall m | 0 <= m < |w| ensures h[q + m] == w[m] {
        assert h[q + m] == (start + w)[|start| + m];
      }
    }
  }

  /** The text up to the end of an occurrence of `start` at `i`. */
  lemma PrefixThrough(html: string, start: string, i: nat)
    requires OccursAt(html, start, i)
    ensures html[..i + |start|] == html[..i] + start
  {
    assert html[..i + |start|] == html[..i] + html[i..i + |start|];
  }

  lemma FindRegionIs(h: string, start: string, end: string, i: nat, j: nat)
    requires Find(h, start, 0) == Some(i) && Find(h, end, i + |start|) == Some(j)
    ensures FindRegion(h, start, end) == Some((i, j))
  {
  }

  /** A located region comes from the two searches `FindRegion` makes. */
  lemma FindRegionParts(h: string, start: string, end: string, i: nat, j: nat)
    requires FindRegion(h, start, end) == Some((i, j))
    ensures Find(h, start, 0) == Some(i) && Find(h, end, i + |start|) == Some(j)
  {
  }

  /** Splicing again after a splice always succeeds: the markers are still there, in order. */
  lemma ResplicePossible(html: string, start: string, end: string, x: string, y: string)
    requires ReplaceBetween(html, start, end, x).Success?
    ensures ReplaceBetween(ReplaceBetween(html, start, end, x).value, start, end, y).Success?
  {
    Spliced(html, start, end, x);
    var (i, j) := FindRegion(html, start, end).value;
    var h1 := ReplaceBetween(html, start, end, x).value;
    TailEndsWith(end, x);
    BlockRegion(html[..i], start, end, Tail(end, x), html[j + |end|..]);
    FindRegionLeast(h1, start, end);
  }

  lemma TailEndsWith(end: string, x: string)
    ensures |end| <= |Tail(end, x)| && OccursAt(Tail(end, x), end, |Tail(end, x)| - |end|)
  {
    var w := Tail(end, x);
    assert w[|w| - |end|..] == end;
  }

  /** A block spliced after `pre` forms a region from its own `start` to its own `end`. */
  lemma BlockRegion(pre: string, start: string, end: string, w: string, post: string)
    requires |end| <= |w| && OccursAt(w, end, |w| - |end|)
    ensures RegionAt(pre + (start + w) + post, start, end, |pre|, |pre| + |start| + |w| - |end|)
  {
    var h := pre + (start + w) + post;
    var e0 := |pre| + |start| + |w| - |end|;
    assert h[|pre|..|pre| + |start|] == start by {
      forall m | 0 <= m < |start| ensures h[|pre| + m] == start[m] {
        assert h[|pre| + m] == (start + w)[m];
      }
    }
    assert h[e0..e0 + |end|] == end by {
      forall m | 0 <= m < |end| ensures h[e0 + m] == end[m] {
        assert h[e0 + m] == (start + w)[|start| + |w| - |end| + m];
        assert w[|w| - |end|..][m] == end[m];
      }
    }
  }

  /** The text before and after a middle part of a concatenation. */
  lemma AroundMiddle(pre: string, mid: string, post: string)
    ensures (pre + mid + post)[..|pre|] == pre
    ensures (pre + mid + post)[|pre| + |mid|..] == post
  {
  }

  /** Splicing `y` over a spliced `x` is the same as splicing `y` in the first place. */
  lemma RespliceOverwrites(html: string, start: string, end: string, x: string, y: string)
    requires SafeEndMarker(end) && !Contains(x, end)
    requires ReplaceBetween(html, start, end, x).Success?
    ensures ReplaceBetween(ReplaceBetween(html, start, end, x).value, start, end, y)
         == ReplaceBetween(html, start, end, y)
  {
    Spliced(html, start, end, x);
    var (i, j) := FindRegion(html, start, end).value;
    var h1 := ReplaceBetween(html, start, end, x).value;
    SplicedFacts(html, start, end, x, i, j, h1, i + |Block(start, end, x)| - |end|);
    ResplicedAt(html, h1, start, end, y, i, j, i + |Block(start, end, x)| - |end|);
  }

  /** What a splice at the located region leaves in the page. */
  lemma SplicedFacts(html: string, start: string, end: string, x: string, i: nat, j: nat, h1: string, e0: nat)
    requires FindRegion(html, start, end) == Some((i, j))
    requires SafeEndMarker(end) && !Contains(x, end)
    requires h1 == html[..i] + Block(start, end, x) + html[j + |end|..]
    requires e0 == i + |Block(start, end, x)| - |end|
    ensures && FindRegion(h1, start, end) == Some((i, e0))
      && h1[..i] == html[..i] && e0 + |end| <= |h1| && h1[e0 + |end|..] == html[j + |end|..]
      && i + |start| <= e0 && h1[i + |start|..e0] == Body(x)
  {
    SplicedRegion(html, start, end, x, i, j);
    AroundMiddle(html[..i], Block(start, end, x), html[j + |end|..]);
    BodyInBlock(html[..i], start, end, x, html[j + |end|..], i);
  }

  /** Two pages that agree outside their located regions splice to the same page. */
  lemma ResplicedAt(html: string, h1: string, start: string, end: string, y: string, i: nat, j: nat, e0: nat)
    requires FindRegion(html, start, end) == Some((i, j))
    requires FindRegion(h1, start, end) == Some((i, e0))
    requires h1[..i] == html[..i] && h1[e0 + |end|..] == html[j + |end|..]
    ensures ReplaceBetween(h1, start, end, y) == ReplaceBetween(html, start, end, y)
  {
    SpliceAt(h1, start, end, y, i, e0);
    SpliceAt(html, start, end, y, i, j);
  }

  /** Splicing the same content twice gives the same page as splicing it once. */
  lemma SpliceIdempotent(html: string, start: string, end: string, x: string)
    requires SafeEndMarker(end) && !Contains(x, end)
    requires ReplaceBetween(html, start, end, x).Success?
    ensures ReplaceBetween(ReplaceBetween(html, start, end, x).value, start, end, x)
         == ReplaceBetween(html, start, end, x)
  {
    RespliceOverwrites(html, start, end, x, x);
  }

  /** What the page holds between its first `start` and the first `end` after that. */
  function RegionBody(html: string, start: string, end: string): (r: Option<string>)
    ensures r.Some? ==> |r.value| + |start| + |end| <= |html|
  {
    match FindRegion(html, start, end)
    case None => None
    case Some((i, j)) => Some(html[i + |start|..j])
  }

  /** Reading a region back after splicing `x` into it gives `x` as the block wrote it. */
  lemma ReadBack(html: string, start: string, end: string, x: string)
    requires SafeEndMarker(end) && !Contains(x, end)
    requires ReplaceBetween(html, start, end, x).Success?
    ensures RegionBody(ReplaceBetween(html, start, end, x).value, start, end) == Some(Body(x))
  {
    Spliced(html, start, end, x);
    var (i, j) := FindRegion(html, start, end).value;
    var h1 := ReplaceBetween(html, start, end, x).value;
    SplicedFacts(html, start, end, x, i, j, h1, i + |Block(start, end, x)| - |end|);
    RegionBodyIs(h1, start, end, i, i + |Block(start, end, x)| - |end|);
  }

  lemma RegionBodyIs(h: string, start: string, end: string, i: nat, j: nat)
    requires FindRegion(h, start, end) == Some((i, j))
    ensures RegionBody(h, start, end) == Some(h[i + |start|..j])
  {
  }

  /** The body a block gives its region: the replacement between two line breaks. */
  function Body(x: string): string {
    "\n" + RStrip(x) + "\n  "
  }

  lemma BodyInBlock(pre: string, start: string, end: string, x: string, post: string, i: nat)
    requires |pre| == i
    ensures var h := pre + Block(start, end, x) + post;
      i + |Block(start, end, x)| <= |h| &&
      h[i + |start|..i + |Block(start, end, x)| - |end|] == Body(x)
  {
    var b := Block(start, end, x);
    var h := pre + b + post;
    assert b == start + Body(x) + end;
    var lo := |pre| + |start|;
    assert h[lo..lo + |Body(x)|] == Body(x) by {
      forall k | 0 <= k < |Body(x)| ensures h[lo + k] == Body(x)[k] {
        assert h[lo + k] == b[|start| + k];
      }
    }
  }

  /** Only the first region is rewritten: a later region, wherever it lies, is carried over
      unchanged, shifted by the difference in length. */
  lemma LaterRegionKept(html: string, start: string, end: string, x: string, i2: nat, j2: nat)
    requires FindRegion(html, start, end).Some?
    requires FindRegion(html, start, end).value.1 + |end| <= i2
    requires RegionAt(html, start, end, i2, j2)
    ensures ReplaceBetween(html, start, end, x).Success?
    ensures var r := ReplaceBetween(html, start, end, x).value;
      var k := |r| - (|html| - i2);
      && 0 <= k <= |r| && r[k..] == html[i2..]
      && RegionAt(r, start, end, k, k + (j2 - i2))
  {
    var (i, j) := FindRegion(html, start, end).value;
    var b := Block(start, end, x);
    SpliceAt(html, start, end, x, i, j);
    var r := html[..i] + b + html[j + |end|..];
    assert r[i + |b|..] == html[j + |end|..];
    RegionInSuffix(r, html, start, end, i + |b|, j + |end|, i2, j2);
  }

  /** A region inside a shared suffix is a region of both strings, at the same offset. */
  lemma RegionInSuffix(a: string, b: string, start: string, end: string, ka: nat, kb: nat, i2: nat, j2: nat)
    requires ka <= |a| && kb <= i2 <= |b| && a[ka..] == b[kb..]
    requires RegionAt(b, start, end, i2, j2)
    ensures var k := ka + (i2 - kb);
      && k == |a| - (|b| - i2) && k <= |a| && a[k..] == b[i2..]
      && RegionAt(a, start, end, k, k + (j2 - i2))
  {
    var k := ka + (i2 - kb);
    assert |a| - ka == |b| - kb;
    assert a[k..] == a[ka..][i2 - kb..];
    assert b[i2..] == b[kb..][i2 - kb..];
    OccursInSuffix(a, b, start, k, i2, 0);
    OccursInSuffix(a, b, end, k, i2, j2 - i2);
  }

  /** An occurrence inside a shared suffix is found at the same offset in both strings. */
  lemma OccursInSuffix(a: string, b: string, pat: string, ka: nat, kb: nat, m: nat)
    requires ka <= |a| && kb <= |b| && a[ka..] == b[kb..]
    requires OccursAt(b, pat, kb + m)
    ensures OccursAt(a, pat, ka + m)
  {
    assert |a| - ka == |b| - kb;
    var n := |pat|;
    forall t | 0 <= t < n ensures a[ka + m + t] == pat[t] {
      assert a[ka + m + t] == a[ka..][m + t] == b[kb..][m + t] == b[kb + m + t];
      assert b[kb + m..kb + m + n][t] == b[kb + m + t];
    }
    assert a[ka + m..ka + m + n] == pat;
  }

  lemma OnlyFirstFind(html: string)
    requires html == "<s>a<e><s>b<e>"
    ensures FindRegion(html, "<s>", "<e>") == Some((0, 4))
  {
    assert html[0..3] == "<s>";
    FindFirst(html, "<s>", 0, 0);
    assert !OccursAt(html, "<e>", 3) by { assert html[3..6][0] == 'a'; }
    assert html[4..7] == "<e>";
    FindFirst(html, "<e>", 3, 4);
  }

  lemma OnlyFirstBlock()
    ensures Block("<s>", "<e>", "new") == "<s>\nnew\n  <e>"
  {
    assert RSpanLen("new", IsSpace) == 0;
  }

  /** Only the first region is rewritten; a second marker pair after it is left as it was. */
  lemma OnlyFirstRegion()
    ensures ReplaceBetween("<s>a<e><s>b<e>", "<s>", "<e>", "new") == Success("<s>\nnew\n  <e><s>b<e>")
  {
    var html := "<s>a<e><s>b<e>";
    OnlyFirstFind(html);
    OnlyFirstBlock();
    var b := Block("<s>", "<e>", "new");
    assert ReplaceBetween(html, "<s>", "<e>", "new") == Success(html[..0] + b + html[7..]);
    assert html[..0] == "";
    assert html[7..] == "<s>b<e>";
    assert html[..0] + b + html[7..] == "<s>\nnew\n  <e><s>b<e>";
  }
}
