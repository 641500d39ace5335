/**
  How the marker regions of the home page move when another part of the page is
  rewritten. `cmd_publish` rewrites the `LATEST_META` comment, then the latest
  region, then the archive region; each later step must still find its markers
  where the earlier steps left them.
*/
module Edits {
  import opened Wrappers
  import opened Text
  import opened Splice

  /** A marker whose only `<` is its first character, as every comment marker of the page. */
  predicate Lone(pat: string) {
    |pat| > 0 && pat[0] == '<' && forall k | 0 < k < |pat| :: pat[k] != '<'
  }

  /** `pat` cannot start anywhere inside `y`, whatever follows `y`: from each position of
      `y`, some character still inside `y` differs from `pat`. */
  predicate NoStartIn(y: string, pat: string) {
    forall t | 0 <= t < |y| :: DiffersFrom(y, pat, t)
  }

  /** Some character of `y` from position `t` on differs from the one of `pat` it faces. */
  predicate DiffersFrom(y: string, pat: string, t: nat) {
    exists dd | 0 <= dd < |pat| && t + dd < |y| :: y[t + dd] != pat[dd]
  }

  /** One differing character rules out an occurrence. */
  lemma MismatchAt(s: string, pat: string, k: nat, w: nat)
    requires w < |pat| && k + w < |s| && s[k + w] != pat[w]
    ensures !OccursAt(s, pat, k)
  {
    if k + |pat| <= |s| {
      assert s[k..k + |pat|][w] == s[k + w];
    }
  }

  /** A window of `s` that is not `pat` differs from it somewhere. */
  lemma MismatchOf(s: string, pat: string, k: nat) returns (dd: nat)
    requires k + |pat| <= |s| && !OccursAt(s, pat, k)
    ensures dd < |pat| && s[k + dd] != pat[dd]
  {
    var w := s[k..k + |pat|];
    assert w != pat;
    dd :| 0 <= dd < |pat| && w[dd] != pat[dd];
  }

  /** An occurrence that would touch `y` cannot exist: it cannot run into `y` from the left,
      since `y` starts with the `<` only the marker's first character may be, and it cannot
      start inside `y`. */
  lemma NoTouch(pre: string, y: string, post: string, pat: string, k: nat)
    requires Lone(pat) && |y| > 0 && y[0] == '<' && NoStartIn(y, pat)
    requires k < |pre| + |y| && |pre| < k + |pat|
    ensures !OccursAt(pre + y + post, pat, k)
  {
    var g := pre + y + post;
    if k < |pre| {
      var w := |pre| - k;
      assert g[k + w] == y[0];
      assert pat[1..][w - 1] == pat[w];
      MismatchAt(g, pat, k, w);
    } else {
      var t := k - |pre|;
      assert DiffersFrom(y, pat, t);
      var dd :| 0 <= dd < |pat| && t + dd < |y| && y[t + dd] != pat[dd];
      assert g[k + dd] == y[t + dd];
      MismatchAt(g, pat, k, dd);
    }
  }

  /** Two texts with a common suffix hold the same occurrences inside it. */
  lemma SuffixOccursIff(a: string, b: string, pat: string, ka: nat, kb: nat, m: nat)
    requires ka <= |a| && kb <= |b| && a[ka..] == b[kb..]
    ensures OccursAt(a, pat, ka + m) <==> OccursAt(b, pat, kb + m)
  {
    if OccursAt(b, pat, kb + m) {
      OccursInSuffix(a, b, pat, ka, kb, m);
    }
    if OccursAt(a, pat, ka + m) {
      OccursInSuffix(b, a, pat, kb, ka, m);
    }
  }

  /** No occurrence of `pat` in `s` touches the stretch `s[c..c2]`. */
  predicate TouchFreeAt(s: string, pat: string, c: nat, c2: nat) {
    forall k: nat | k < c2 && c < k + |pat| :: !OccursAt(s, pat, k)
  }

  /** What rewriting `g[c..d]` into `y` keeps, and that no `pat` touches `y` when `pat`
      cannot start in it. */
  lemma EditFacts(g: string, c: nat, d: nat, y: string, pat: string)
    requires c <= d <= |g|
    requires Lone(pat) && |y| > 0 && y[0] == '<' && NoStartIn(y, pat)
    ensures var g2 := g[..c] + y + g[d..];
      && |g2| == c + |y| + (|g| - d)
      && g2[..c] == g[..c] && g2[c + |y|..] == g[d..]
      && TouchFreeAt(g2, pat, c, c + |y|)
  {
    var g2 := g[..c] + y + g[d..];
    forall k: nat | k < c + |y| && c < k + |pat| ensures !OccursAt(g2, pat, k) {
      NoTouch(g[..c], y, g[d..], pat, k);
    }
  }

  /** A text that agrees with `g` before `c` and, from `c2` on, with `g` from `d` on, and
      that holds no `pat` touching the stretch in between, has its first `pat` where `g`
      has it, moved by the change in length. */
  lemma FirstShifted(g: string, g2: string, pat: string, c: nat, c2: nat, d: nat, i: nat, i2: nat)
    requires |pat| > 0 && c <= d <= i && c <= c2 <= |g2| && Find(g, pat, 0) == Some(i)
    requires g2[..c] == g[..c] && g2[c2..] == g[d..]
    requires TouchFreeAt(g2, pat, c, c2)
    requires i2 == i - d + c2
    ensures Find(g2, pat, 0) == Some(i2)
  {
    forall k: nat | k < i2 ensures !OccursAt(g2, pat, k) {
      if k + |pat| <= c {
        SamePrefixOccurs(g2, g, pat, k, c);
        assert !OccursAt(g, pat, k);
      } else if k >= c2 {
        SuffixOccursIff(g2, g, pat, c2, d, k - c2);
        assert !OccursAt(g, pat, d + (k - c2));
      }
    }
    SuffixOccursIff(g2, g, pat, c2, d, i - d);
    FindFirst(g2, pat, 0, i2);
  }

  /** A search inside a common suffix finds the same occurrence in both texts. */
  lemma FindShifted(g: string, g2: string, pat: string, c2: nat, d: nat, from: nat, j: nat, from2: nat, j2: nat)
    requires d <= from && d <= |g| && c2 <= |g2| && g2[c2..] == g[d..]
    requires Find(g, pat, from) == Some(j)
    requires from2 == from - d + c2 && j2 == j - d + c2
    ensures Find(g2, pat, from2) == Some(j2)
  {
    forall k: nat | from2 <= k < j2 ensures !OccursAt(g2, pat, k) {
      SuffixOccursIff(g2, g, pat, c2, d, k - c2);
    }
    SuffixOccursIff(g2, g, pat, c2, d, j - d);
    FindFirst(g2, pat, from2, j2);
  }

  /** Rewriting a part of the page before its first region moves the region by the change
      in length, when no start marker touches the new part. */
  lemma RegionShifted(g: string, g2: string, start: string, end: string, c: nat, c2: nat, d: nat, i: nat, j: nat, i2: nat, j2: nat)
    requires FindRegion(g, start, end) == Some((i, j))
    requires |start| > 0 && c <= d <= i && c <= c2 <= |g2|
    requires g2[..c] == g[..c] && g2[c2..] == g[d..]
    requires TouchFreeAt(g2, start, c, c2)
    requires i2 == i - d + c2 && j2 == j - d + c2
    ensures FindRegion(g2, start, end) == Some((i2, j2))
  {
    StartShifted(g, g2, start, end, c, c2, d, i, j, i2);
    EndShifted(g, g2, start, end, c2, d, i, j, i2, j2);
    FindRegionIs(g2, start, end, i2, j2);
  }

  /** The first search of `RegionShifted`, for the start marker. */
  lemma StartShifted(g: string, g2: string, start: string, end: string, c: nat, c2: nat, d: nat, i: nat, j: nat, i2: nat)
    requires FindRegion(g, start, end) == Some((i, j))
    requires |start| > 0 && c <= d <= i && c <= c2 <= |g2|
    requires g2[..c] == g[..c] && g2[c2..] == g[d..]
    requires TouchFreeAt(g2, start, c, c2)
    requires i2 == i - d + c2
    ensures Find(g2, start, 0) == Some(i2)
  {
    FindRegionParts(g, start, end, i, j);
    FirstShifted(g, g2, start, c, c2, d, i, i2);
  }

  /** The second search of `RegionShifted`, for the end marker. */
  lemma EndShifted(g: string, g2: string, start: string, end: string, c2: nat, d: nat, i: nat, j: nat, i2: nat, j2: nat)
    requires FindRegion(g, start, end) == Some((i, j))
    requires d <= i && c2 <= |g2| && g2[c2..] == g[d..]
    requires i2 == i - d + c2 && j2 == j - d + c2
    ensures Find(g2, end, i2 + |start|) == Some(j2)
  {
    var from, from2 := i + |start|, i2 + |start|;
    assert Find(g, end, from) == Some(j) by { FindRegionParts(g, start, end, i, j); }
    FindShifted(g, g2, end, c2, d, from, j, from2, j2);
  }

  /** Rewriting `g[c..d]`, before the first region, into a text where no start marker can
      start moves the region by the change in length. */
  lemma RegionAfterEdit(g: string, c: nat, d: nat, y: string, start: string, end: string, i: nat, j: nat,
                        g2: string, i2: nat, j2: nat)
    requires FindRegion(g, start, end) == Some((i, j)) && c <= d <= i
    requires Lone(start) && |y| > 0 && y[0] == '<' && NoStartIn(y, start)
    requires g2 == g[..c] + y + g[d..]
    requires i2 == i - d + c + |y| && j2 == j - d + c + |y|
    ensures FindRegion(g2, start, end) == Some((i2, j2))
  {
    EditFacts(g, c, d, y, start);
    RegionShifted(g, g2, start, end, c, c + |y|, d, i, j, i2, j2);
  }

  /** Rewriting a part of the page after its first region leaves the region where it was. */
  lemma RegionBeforeEdit(g: string, g2: string, start: string, end: string, i: nat, j: nat, c: nat)
    requires FindRegion(g, start, end) == Some((i, j))
    requires j + |end| <= c <= |g| && c <= |g2| && g2[..c] == g[..c]
    ensures FindRegion(g2, start, end) == Some((i, j))
  {
    forall k: nat | k <= i ensures OccursAt(g2, start, k) <==> OccursAt(g, start, k) {
      SamePrefixOccurs(g2, g, start, k, c);
    }
    FindFirst(g2, start, 0, i);
    forall k: nat | i + |start| <= k <= j ensures OccursAt(g2, end, k) <==> OccursAt(g, end, k) {
      SamePrefixOccurs(g2, g, end, k, c);
    }
    FindFirst(g2, end, i + |start|, j);
    FindRegionIs(g2, start, end, i, j);
  }

  /** Replacing a stretch before the second region by a block that opens with a lone start
      marker, and in which no second start marker can begin, moves that region by the change
      in length. */
  lemma SpliceBefore(h: string, s1: string, s2: string, e2: string,
                     i1: nat, d: nat, i2: nat, j2: nat, b: string, h2: string, k2: nat, l2: nat)
    requires FindRegion(h, s2, e2) == Some((i2, j2)) && i1 <= d <= i2
    requires Lone(s1) && Lone(s2) && NoStartIn(b, s2)
    requires |b| >= |s1| && b[..|s1|] == s1 && h2 == h[..i1] + b + h[d..]
    requires k2 == i2 - d + i1 + |b| && l2 == j2 - d + i1 + |b|
    ensures FindRegion(h2, s2, e2) == Some((k2, l2))
  {
    assert b[0] == b[..|s1|][0];
    RegionAfterEdit(h, i1, d, b, s2, e2, i2, j2, h2, k2, l2);
  }

  /** Splicing the second of two regions keeps the first where it was. */
  lemma SpliceAfter(h: string, x: string, s1: string, e1: string, s2: string, e2: string,
                    i1: nat, j1: nat, i2: nat, j2: nat, e: nat)
    requires FindRegion(h, s1, e1) == Some((i1, j1)) && FindRegion(h, s2, e2) == Some((i2, j2))
    requires j1 + |e1| <= i2
    requires SafeEndMarker(e2) && !Contains(x, e2)
    requires e == i2 + |Block(s2, e2, x)| - |e2|
    ensures var b := Block(s2, e2, x);
      var h2 := h[..i2] + b + h[j2 + |e2|..];
      && FindRegion(h2, s2, e2) == Some((i2, e))
      && FindRegion(h2, s1, e1) == Some((i1, j1))
      && h2[..i2] == h[..i2]
  {
    var b := Block(s2, e2, x);
    var h2 := h[..i2] + b + h[j2 + |e2|..];
    SplicedFacts(h, s2, e2, x, i2, j2, h2, e);
    RegionBeforeEdit(h, h2, s1, e1, i1, j1, i2);
  }

  /** Splicing the first of two regions: the call succeeds, its block stands from where
      the region starts to `k`, the page before it is kept, and the second region follows. */
  lemma SpliceFirst(h: string, x: string, s1: string, e1: string, s2: string, e2: string,
                    i1: nat, j1: nat, i2: nat, j2: nat)
    returns (h2: string, e: nat, k: nat, k2: nat, l2: nat)
    requires FindRegion(h, s1, e1) == Some((i1, j1)) && FindRegion(h, s2, e2) == Some((i2, j2))
    requires j1 + |e1| <= i2
    requires SafeEndMarker(e1) && !Contains(x, e1)
    requires Lone(s1) && Lone(s2) && NoStartIn(Block(s1, e1, x), s2)
    ensures ReplaceBetween(h, s1, e1, x) == Success(h2)
    ensures FindRegion(h2, s1, e1) == Some((i1, e)) && FindRegion(h2, s2, e2) == Some((k2, l2))
    ensures k == e + |e1| && i1 <= |h| && i1 <= k <= k2 <= |h2|
    ensures h2[..i1] == h[..i1] && h2[i1..k] == Block(s1, e1, x)
  {
    var b := Block(s1, e1, x);
    h2 := h[..i1] + b + h[j1 + |e1|..];
    e, k := i1 + |b| - |e1|, i1 + |b|;
    k2, l2 := i2 - (j1 + |e1|) + i1 + |b|, j2 - (j1 + |e1|) + i1 + |b|;
    assert ReplaceBetween(h, s1, e1, x) == Success(h2) by {
      SpliceAt(h, s1, e1, x, i1, j1);
    }
    assert FindRegion(h2, s1, e1) == Some((i1, e)) && h2[..i1] == h[..i1] by {
      SplicedFacts(h, s1, e1, x, i1, j1, h2, e);
    }
    assert FindRegion(h2, s2, e2) == Some((k2, l2)) by {
      assert b[..|s1|] == s1;
      SpliceBefore(h, s1, s2, e2, i1, j1 + |e1|, i2, j2, b, h2, k2, l2);
    }
    assert h2[i1..k] == b by {
      Middle(h[..i1], b, h[j1 + |e1|..], h2, i1, k);
    }
  }

  /** Splicing the second of two regions: the call succeeds, its block stands from where
      the region starts to `k`, and the page before it is kept. */
  lemma SpliceSecond(h: string, x: string, s1: string, e1: string, s2: string, e2: string,
                     i1: nat, j1: nat, i2: nat, j2: nat)
    returns (h2: string, e: nat, k: nat)
    requires FindRegion(h, s1, e1) == Some((i1, j1)) && FindRegion(h, s2, e2) == Some((i2, j2))
    requires j1 + |e1| <= i2
    requires SafeEndMarker(e2) && !Contains(x, e2)
    ensures ReplaceBetween(h, s2, e2, x) == Success(h2)
    ensures FindRegion(h2, s2, e2) == Some((i2, e)) && FindRegion(h2, s1, e1) == Some((i1, j1))
    ensures k == e + |e2| && i2 <= |h| && i2 <= k <= |h2|
    ensures h2[..i2] == h[..i2] && h2[i2..k] == Block(s2, e2, x)
  {
    var b := Block(s2, e2, x);
    h2 := h[..i2] + b + h[j2 + |e2|..];
    e, k := i2 + |b| - |e2|, i2 + |b|;
    assert ReplaceBetween(h, s2, e2, x) == Success(h2) by {
      SpliceAt(h, s2, e2, x, i2, j2);
    }
    SpliceAfter(h, x, s1, e1, s2, e2, i1, j1, i2, j2, e);
    assert h2[i2..k] == b by {
      Middle(h[..i2], b, h[j2 + |e2|..], h2, i2, k);
    }
  }

  /** Splicing two regions in turn: both calls succeed, the page before the first region
      is kept, and each block stands from where its region starts to just past its end
      marker. */
  lemma SpliceBoth(h: string, x: string, y: string, s1: string, e1: string, s2: string, e2: string,
                   i1: nat, j1: nat, i2: nat, j2: nat)
    returns (h2: string, h3: string, e: nat, k: nat, k2: nat, f: nat, g: nat)
    requires FindRegion(h, s1, e1) == Some((i1, j1)) && FindRegion(h, s2, e2) == Some((i2, j2))
    requires j1 + |e1| <= i2
    requires SafeEndMarker(e1) && !Contains(x, e1) && SafeEndMarker(e2) && !Contains(y, e2)
    requires Lone(s1) && Lone(s2) && NoStartIn(Block(s1, e1, x), s2)
    ensures ReplaceBetween(h, s1, e1, x) == Success(h2)
    ensures ReplaceBetween(h2, s2, e2, y) == Success(h3)
    ensures i1 <= |h| && i1 <= |h3| && h3[..i1] == h[..i1]
    ensures FindRegion(h3, s1, e1) == Some((i1, e)) && FindRegion(h3, s2, e2) == Some((k2, f))
    ensures k == e + |e1| && i1 <= k <= |h3| && h3[i1..k] == Block(s1, e1, x)
    ensures g == f + |e2| && k2 <= g <= |h3| && h3[k2..g] == Block(s2, e2, y)
  {
    var l2;
    h2, e, k, k2, l2 := SpliceFirst(h, x, s1, e1, s2, e2, i1, j1, i2, j2);
    h3, f, g := SpliceSecond(h2, y, s1, e1, s2, e2, i1, e, k2, l2);
    Carried(h, h2, h3, i1, k, k2, Block(s1, e1, x));
  }

  /** A page that keeps another's text before `c` keeps what a third page kept of it
      before `i`, and a stretch of it that ends by `c`. */
  lemma Carried(h1: string, h2: string, h3: string, i: nat, k: nat, c: nat, b: string)
    requires i <= |h1| && i <= k <= c <= |h2| && c <= |h3|
    requires h2[..i] == h1[..i] && h3[..c] == h2[..c] && h2[i..k] == b
    ensures h3[..i] == h1[..i] && h3[i..k] == b
  {
    assert h3[..i] == h3[..c][..i] && h2[..i] == h2[..c][..i];
    assert h3[i..k] == h3[..c][i..k] && h2[i..k] == h2[..c][i..k];
  }

  /** The middle part of a concatenation. */
  lemma Middle(pre: string, mid: string, post: string, w: string, a: nat, c: nat)
    requires w == pre + mid + post && a == |pre| && c == a + |mid|
    ensures c <= |w| && w[a..c] == mid
  {
  }

  // ---------------------------------------------------------------- where a marker cannot start

  /** No occurrence of `pat` starts in a lone marker that differs from it at `dd`. */
  lemma NoStartInLone(y: string, pat: string, dd: nat)
    requires Lone(y) && Lone(pat)
    requires dd < |pat| && dd < |y| && y[dd] != pat[dd]
    ensures NoStartIn(y, pat)
  {
    forall t | 0 <= t < |y| ensures DiffersFrom(y, pat, t) {
      if t == 0 {
        assert y[t + dd] != pat[dd];
      } else {
        assert y[t + 0] != pat[0];
      }
    }
  }

  /** Nor in text made only of characters that cannot start it. */
  lemma NoStartInPlain(y: string, pat: string)
    requires |pat| > 0 && pat[0] !in y
    ensures NoStartIn(y, pat)
  {
    forall t | 0 <= t < |y| ensures DiffersFrom(y, pat, t) {
      assert y[t + 0] != pat[0];
    }
  }

  /** Nor in a concatenation of texts it cannot start in. */
  lemma NoStartInConcat(u: string, v: string, pat: string)
    requires NoStartIn(u, pat) && NoStartIn(v, pat)
    ensures NoStartIn(u + v, pat)
  {
    var y := u + v;
    forall t | 0 <= t < |y| ensures DiffersFrom(y, pat, t) {
      if t < |u| {
        assert DiffersFrom(u, pat, t);
        var e :| 0 <= e < |pat| && t + e < |u| && u[t + e] != pat[e];
        assert y[t + e] == u[t + e];
      } else {
        assert DiffersFrom(v, pat, t - |u|);
        var e :| 0 <= e < |pat| && t - |u| + e < |v| && v[t - |u| + e] != pat[e];
        assert y[t + e] == v[t - |u| + e];
      }
    }
  }

  /** Nor in text without `pat` that is followed by a line break, when `pat` has none. */
  lemma NoStartInLine(r: string, pat: string)
    requires forall k: nat :: !OccursAt(r, pat, k)
    requires '\n' !in pat
    ensures NoStartIn(r + "\n", pat)
  {
    var y := r + "\n";
    forall t | 0 <= t < |y| ensures DiffersFrom(y, pat, t) {
      if t + |pat| <= |r| {
        var e := MismatchOf(r, pat, t);
        assert y[t + e] == r[t + e];
      } else {
        var e := |r| - t;
        assert y[t + e] == '\n';
        assert e < |pat| && pat[e] != '\n';
      }
    }
  }

  /** The body a block puts between its markers holds no start of a lone marker that the
      replacement does not contain and that has no line break. */
  lemma NoStartInBody(x: string, pat: string)
    requires Lone(pat) && '\n' !in pat && !Contains(x, pat)
    ensures NoStartIn(Body(x), pat)
  {
    var rx := RStrip(x);
    PrefixAvoids(x, rx, pat);
    NoStartInPlain("\n", pat);
    NoStartInLine(rx, pat);
    NoStartInPlain("  ", pat);
    NoStartInConcat("\n", rx + "\n", pat);
    NoStartInConcat("\n" + (rx + "\n"), "  ", pat);
    assert Body(x) == "\n" + (rx + "\n") + "  ";
  }

  /** A whole block holds no start of a lone marker that differs from both of its markers
      within their length and that the replacement does not contain. */
  lemma NoStartInBlock(start: string, end: string, x: string, pat: string, d1: nat, d2: nat)
    requires Lone(start) && Lone(end) && Lone(pat) && '\n' !in pat && !Contains(x, pat)
    requires d1 < |pat| && d1 < |start| && start[d1] != pat[d1]
    requires d2 < |pat| && d2 < |end| && end[d2] != pat[d2]
    ensures NoStartIn(Block(start, end, x), pat)
  {
    NoStartInLone(start, pat, d1);
    NoStartInBody(x, pat);
    NoStartInLone(end, pat, d2);
    NoStartInConcat(start, Body(x), pat);
    NoStartInConcat(start + Body(x), end, pat);
    assert Block(start, end, x) == start + Body(x) + end;
  }
}
