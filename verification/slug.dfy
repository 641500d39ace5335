/**
  `slugify_title`: the file-name-safe form of an entry title that `new` puts
  after the date in `entries/<date>-<slug>.html`.
*/
module Slug {
  import opened Text

  /** A lower-case ASCII letter or an ASCII digit. */
  predicate IsAlnum(c: char) {
    'a' <= c <= 'z' || '0' <= c <= '9'
  }

  /** A character allowed in a finished slug: `[a-z0-9-]`. */
  predicate SlugChar(c: char) {
    IsAlnum(c) || c == '-'
  }

  /** The class `[a-z0-9\s-]` that survives the filtering step. */
  predicate Kept(c: char) {
    SlugChar(c) || IsSpace(c)
  }

  predicate IsHyphen(c: char) {
    c == '-'
  }

  /** The slug used when nothing of the title survives. */
  const Fallback: string := "entry"

  /** A finished slug: non-empty, only `[a-z0-9-]`, and never two hyphens in a row. */
  predicate IsSlug(s: string) {
    && |s| > 0
    && All(s, SlugChar)
    && forall i | 0 <= i < |s| - 1 :: !(s[i] == '-' && s[i + 1] == '-')
  }

  /** The four rewriting steps before the fallback: strip and lower-case, drop characters
      outside `[a-z0-9\s-]`, turn whitespace runs into `-`, collapse hyphen runs. */
  function Rewrite(title: string): string {
    Squeeze(Squeeze(Filter(Lower(Strip(title)), Kept), IsSpace, '-'), IsHyphen, '-')
  }

  /** `slugify_title(title)`. */
  function Slugify(title: string): (slug: string)
    ensures IsSlug(slug)
  {
    var t := Rewrite(title);
    if |t| == 0 then
      FallbackIsSlug();
      Fallback
    else
      RewriteShape(title);
      t
  }

  lemma FallbackIsSlug()
    ensures IsSlug(Fallback)
  {
    assert forall i | 0 <= i < |Fallback| :: Fallback[i] != '-';
  }

  /** The rewriting steps leave only `[a-z0-9-]` and no doubled hyphen. */
  lemma RewriteShape(title: string)
    ensures All(Rewrite(title), SlugChar)
    ensures forall i | 0 <= i < |Rewrite(title)| - 1 :: !(Rewrite(title)[i] == '-' && Rewrite(title)[i + 1] == '-')
  {
    var f := Filter(Lower(Strip(title)), Kept);
    SqueezePreserves(f, IsSpace, '-', Kept);
    var u := Squeeze(f, IsSpace, '-');
    forall i | 0 <= i < |u| ensures SlugChar(u[i]) {
      assert u[i] == '-' || !IsSpace(u[i]);
      assert Kept(u[i]);
    }
    SqueezePreserves(u, IsHyphen, '-', SlugChar);
  }

  /** Squeezing into a character of class `q` keeps a string inside class `q`. */
  lemma {:induction false} SqueezePreserves(s: string, inRun: char -> bool, c: char, q: char -> bool)
    requires All(s, q) && q(c)
    ensures All(Squeeze(s, inRun, c), q)
    decreases |s|
  {
    if |s| > 0 {
      if inRun(s[0]) {
        var n := SpanLen(s, inRun);
        assert All(s[n..], q);
        SqueezePreserves(s[n..], inRun, c, q);
      } else {
        assert All(s[1..], q);
        SqueezePreserves(s[1..], inRun, c, q);
      }
    }
  }

  /** Every well-formed slug is its own slug. */
  lemma SlugFixpoint(s: string)
    requires IsSlug(s)
    ensures Slugify(s) == s
  {
    assert All(s, NotSpace);
    StripIdentity(s);
    assert Lower(s) == s;
    FilterAll(s, Kept);
    SqueezeIdentity(s, IsSpace, '-');
    SqueezeIdentity(s, IsHyphen, '-');
  }

  /** Slugifying twice is slugifying once, including when the fallback was taken. */
  lemma SlugifyIdempotent(title: string)
    ensures Slugify(Slugify(title)) == Slugify(title)
  {
    SlugFixpoint(Slugify(title));
  }

  /** The slug keeps exactly the title's ASCII letters (lower-cased) and digits, in order;
      a title with none of them becomes `"entry"` or `"-"`. */
  lemma SlugKeepsAlnum(title: string)
    ensures Filter(Lower(title), IsAlnum) != [] ==>
              Filter(Slugify(title), IsAlnum) == Filter(Lower(title), IsAlnum)
    ensures Filter(Lower(title), IsAlnum) == [] ==> Slugify(title) == Fallback || Slugify(title) == "-"
  {
    RewriteKeepsAlnum(title);
    var t := Rewrite(title);
    if |t| > 0 {
      RewriteShape(title);
      if Filter(t, IsAlnum) == [] {
        NoAlnumSlug(t);
      }
    }
  }

  /** The rewriting steps keep the title's letters and digits, in order. */
  lemma RewriteKeepsAlnum(title: string)
    ensures Filter(Rewrite(title), IsAlnum) == Filter(Lower(title), IsAlnum)
  {
    StripKeepsAlnum(title);
    StepsKeepAlnum(Lower(Strip(title)));
  }

  /** Stripping drops only whitespace, which holds no letter or digit. */
  lemma StripKeepsAlnum(title: string)
    ensures Filter(Lower(Strip(title)), IsAlnum) == Filter(Lower(title), IsAlnum)
  {
    var a := StripIsSlice(title);
    var b := a + |Strip(title)|;
    var low := Lower(title);
    assert Lower(Strip(title)) == low[a..b];
    forall i | 0 <= i < a ensures !IsAlnum(low[i]) {
      assert IsSpace(title[..a][i]);
    }
    forall i | b <= i < |low| ensures !IsAlnum(low[i]) {
      assert IsSpace(title[b..][i - b]);
    }
    FilterMiddle(low, a, b, IsAlnum);
  }

  /** Filtering to `[a-z0-9\s-]` and squeezing runs keep every letter and digit. */
  lemma StepsKeepAlnum(s: string)
    ensures Filter(Squeeze(Squeeze(Filter(s, Kept), IsSpace, '-'), IsHyphen, '-'), IsAlnum)
         == Filter(s, IsAlnum)
  {
    FilterFilter(s, Kept, IsAlnum);
    var f := Filter(s, Kept);
    SqueezeKeeps(f, IsSpace, '-', IsAlnum);
    var u := Squeeze(f, IsSpace, '-');
    SqueezeKeeps(u, IsHyphen, '-', IsAlnum);
  }

  /** The only slug-shaped text without letters or digits is a single hyphen. */
  lemma NoAlnumSlug(t: string)
    requires |t| > 0 && All(t, SlugChar)
    requires forall i | 0 <= i < |t| - 1 :: !(t[i] == '-' && t[i + 1] == '-')
    requires Filter(t, IsAlnum) == []
    ensures t == "-"
  {
    FilterEmpty(t, IsAlnum);
    assert forall i | 0 <= i < |t| :: t[i] == '-';
    assert t[0] == '-';
    if |t| > 1 {
      assert false;
    }
  }
  /** A character of a plain title: an ASCII letter of either case, a digit or whitespace. */
  predicate TitleChar(c: char) {
    'A' <= c <= 'Z' || IsAlnum(c) || IsSpace(c)
  }

  /** A lower-case letter, a digit or whitespace. */
  predicate LowChar(c: char) {
    IsAlnum(c) || IsSpace(c)
  }

  /** For a title of letters, digits and whitespace that is not all whitespace, the slug is
      the lower-cased title's words joined by hyphens: `"-".join(title.lower().split())`. */
  lemma SlugWords(title: string)
    requires All(title, TitleChar)
    requires exists i | 0 <= i < |title| :: NotSpace(title[i])
    ensures Slugify(title) == Join(Words(Lower(title)), '-')
  {
    PlainStripped(title);
    LowerStripWords(title);
    var u := Lower(Strip(title));
    RewriteWords(u);
    assert Rewrite(title) == Join(Words(u), '-');
  }

  /** The rewriting steps on a lower-cased, stripped, non-empty plain text join its words
      with hyphens. */
  lemma RewriteWords(u: string)
    requires |u| > 0 && NotSpace(u[0]) && NotSpace(u[|u| - 1])
    requires All(u, LowChar) && All(u, Kept)
    ensures var j := Join(Words(u), '-');
      |j| > 0 && Squeeze(Squeeze(Filter(u, Kept), IsSpace, '-'), IsHyphen, '-') == j
  {
    var j := Join(Words(u), '-');
    FilterAll(u, Kept);
    SqueezeWords(u, '-');
    assert Trail(u, '-') == [];
    assert Squeeze(u, IsSpace, '-') == j;
    AlnumWords(u);
    WordsNonEmpty(u);
    JoinEnds(Words(u), '-');
    SqueezeHyphenJoin(Words(u));
    assert Squeeze(j, IsHyphen, '-') == j;
  }

  /** The words of a text of lower-case letters, digits and whitespace are non-empty runs of
      letters and digits. */
  lemma AlnumWords(u: string)
    requires All(u, LowChar)
    ensures forall i | 0 <= i < |Words(u)| :: |Words(u)[i]| > 0 && All(Words(u)[i], IsAlnum)
  {
    WordsAll(u, LowChar);
    var ws := Words(u);
    forall i | 0 <= i < |ws| ensures |ws[i]| > 0 && All(ws[i], IsAlnum) {
      assert All(ws[i], LowChar) && All(ws[i], NotSpace);
    }
  }

  /** The stripped, lower-cased plain title is what `RewriteWords` needs. */
  lemma PlainStripped(title: string)
    requires All(title, TitleChar)
    requires exists i | 0 <= i < |title| :: NotSpace(title[i])
    ensures var u := Lower(Strip(title));
      && |u| > 0 && NotSpace(u[0]) && NotSpace(u[|u| - 1])
      && All(u, LowChar) && All(u, Kept)
  {
    var t := Strip(title);
    assert |t| > 0 by { StripNotEmpty(title); }
    var u := Lower(t);
    assert All(u, LowChar) && All(u, Kept) by {
      StripPlain(title);
      LowerPlain(t);
    }
    assert NotSpace(u[0]) && NotSpace(u[|u| - 1]) by {
      assert u[0] == LowerChar(t[0]) && u[|u| - 1] == LowerChar(t[|t| - 1]);
    }
  }

  /** A title with a non-whitespace character strips to a non-empty text. */
  lemma StripNotEmpty(title: string)
    requires exists i | 0 <= i < |title| :: NotSpace(title[i])
    ensures |Strip(title)| > 0
  {
    var a := StripIsSlice(title);
  }

  /** Stripping a plain title leaves a plain text. */
  lemma StripPlain(title: string)
    requires All(title, TitleChar)
    ensures All(Strip(title), TitleChar)
  {
    var a := StripIsSlice(title);
    var t := Strip(title);
    forall i | 0 <= i < |t| ensures TitleChar(t[i]) {
      assert t[i] == title[a + i];
    }
  }

  /** Lower-casing a plain text leaves lower-case letters, digits and whitespace, and keeps
      whitespace where it was. */
  lemma LowerPlain(t: string)
    requires All(t, TitleChar)
    ensures All(Lower(t), LowChar) && All(Lower(t), Kept)
    ensures forall i | 0 <= i < |t| :: IsSpace(Lower(t)[i]) == IsSpace(t[i])
  {
  }

  /** Lower-casing commutes with taking the words of the stripped title. */
  lemma LowerStripWords(title: string)
    ensures Words(Lower(title)) == Words(Lower(Strip(title)))
  {
    var a := StripIsSlice(title);
    var b := a + |Strip(title)|;
    var low := Lower(title);
    var t := Strip(title);
    assert t == title[a..b];
    LowerSlice(title, a, b);
    assert Lower(t) == low[a..b];
    LowerSpaces(title, a, b);
    WordsAroundSpaces(low, a, b);
  }

  /** Whitespace around a slice stays whitespace after lower-casing. */
  lemma LowerSpaces(s: string, a: nat, b: nat)
    requires a <= b <= |s| && All(s[..a], IsSpace) && All(s[b..], IsSpace)
    ensures All(Lower(s)[..a], IsSpace) && All(Lower(s)[b..], IsSpace)
  {
    var low := Lower(s);
    forall i | 0 <= i < a ensures IsSpace(low[..a][i]) {
      assert low[..a][i] == LowerChar(s[..a][i]);
    }
    forall i | 0 <= i < |low| - b ensures IsSpace(low[b..][i]) {
      assert low[b..][i] == LowerChar(s[b..][i]);
    }
  }

  /** Lower-casing a slice is slicing the lower-cased text. */
  lemma LowerSlice(s: string, a: nat, b: nat)
    requires a <= b <= |s|
    ensures Lower(s[a..b]) == Lower(s)[a..b]
  {
    forall i | 0 <= i < b - a ensures Lower(s[a..b])[i] == Lower(s)[a..b][i] {
      assert s[a..b][i] == s[a + i];
    }
  }

  /** Words of letters and digits joined by single hyphens have no hyphen run to collapse. */
  lemma {:induction false} SqueezeHyphenJoin(ws: seq<string>)
    requires forall i | 0 <= i < |ws| :: |ws[i]| > 0 && All(ws[i], IsAlnum)
    ensures Squeeze(Join(ws, '-'), IsHyphen, '-') == Join(ws, '-')
    decreases |ws|
  {
    if |ws| == 1 {
      assert Join(ws, '-') == ws[0];
      SqueezeIdentity(ws[0], IsHyphen, '-');
    } else if |ws| > 1 {
      var w := ws[0];
      var rest := ws[1..];
      assert ws == [w] + rest;
      JoinCons(w, rest, '-');
      var j := Join(rest, '-');
      JoinEnds(rest, '-');
      assert IsAlnum(rest[0][0]);
      SqueezeHyphenJoin(rest);
      var s := w + (['-'] + j);
      SqueezeRun(s, |w|, IsHyphen, '-');
      assert s[..|w|] == w && s[|w|..] == ['-'] + j;
      var h := ['-'] + j;
      SpanLenUnique(h, IsHyphen, 1);
      assert h[1..] == j;
    }
  }
}
