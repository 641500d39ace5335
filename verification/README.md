# Journal publisher, modelled in Dafny

`tools/journal.py` keeps a static journal site up to date. `publish` rewrites the
home page `index.html` from one entry file and the whole `entries/` directory.
It checks that the page carries its marker comments. It then points the
`LATEST_META` comment at the entry, copies the entry's `<article>` block between
`<!-- LATEST_START -->` and `<!-- LATEST_END -->`, and rebuilds the archive list
between `<!-- ARCHIVE START -->` and `<!-- ARCHIVE END -->`, newest entry first.

The model is a set of pure functions over `string` (`seq<char>`), one module per
concern:

- `Wrappers`: `Option`, `Result` and the error kinds the publisher raises.
- `Text`: stripping, the `\s+` squeezes, lower-casing, substring search, and splitting and joining lines.
- `Slug`: `slugify_title`.
- `Entry`: the `EntryInfo` record and the pure part of `extract_entry_info`. That part normalises the title and summary, matches the `YYYY-MM-DD — Title` line and prints `date_str`.
- `Splice`: `replace_between_markers`. The lazy marker regex is modelled as "first start marker, then first end marker after it".
- `Meta`: `LATEST_META_RE` as an explicit element-by-element matcher, plus `update_latest_meta`.
- `Archive`: `list_entries`, meaning parse, skip the malformed and sort stably newest first. It also has `build_archive_ul`.
- `Publish`: `ensure_markers_exist`, the article indentation and `cmd_publish` from the point where the files have been read.
- `Edits`: how a marker region moves when another part of the page is rewritten, so that each later step of `cmd_publish` still finds its markers.
- `Published`: what `cmd_publish` leaves in a home page whose first `LATEST_META` comment ends before the latest region, which ends before the archive region. The program fixes no such order, and `index.html` is not part of it, so the order is an assumption. The module states where it can fail, the comment it writes, the latest block it writes, and that publishing the same entry again changes nothing.

## Model

| member | source | states |
|---|---|---|
| Slug.Slugify | tools/journal.py:46-52 | the slug is never empty, holds only `[a-z0-9-]` and never has two hyphens in a row |
| Slug.SlugKeepsAlnum | tools/journal.py:48-52 | the slug keeps exactly the lower-cased title's ASCII letters and digits, in order; a title with none gives `entry` or `-` |
| Slug.SlugFixpoint | tools/journal.py:46-52 | a well-formed slug is its own slug |
| Slug.SlugifyIdempotent | tools/journal.py:46-52 | slugifying a slug changes nothing, including the `entry` fallback |
| Slug.SlugWords | tools/journal.py:46-52 | for a title of letters, digits and whitespace that is not all whitespace, the slug is the lower-cased title's words joined by hyphens |
| Text.Find | tools/journal.py:61 | the search returns the first position at or after the start where the pattern occurs, and `None` exactly when there is none |
| Entry.Normalize | tools/journal.py:82 | the normalised line has no whitespace at its ends, no whitespace other than single spaces, and no two spaces together |
| Entry.NormalizeKeepsText | tools/journal.py:82 | normalising never drops or reorders a non-whitespace character |
| Entry.NormalizeIdempotent | tools/journal.py:82 | normalising a normalised line changes nothing |
| Entry.NormalizeWords | tools/journal.py:82 | normalising gives the line's whitespace-separated words joined by single spaces |
| Entry.MatchHeading | tools/journal.py:85-88 | a match reads year, month and day as the decimal values of the line's first ten characters |
| Entry.HeadingMatchIff | tools/journal.py:85-87 | the matcher accepts exactly the lines of the date pattern: four, two and two digits, then whitespace, a dash or em dash, whitespace and a non-empty title |
| Entry.HeadingOnNormalLine | tools/journal.py:82-87 | on a normalised line the pattern comes down to the date, one space, a dash, one space and at least one more character |
| Entry.FixedValue | tools/journal.py:88-89 | printing a digit string's value zero-padded to its own width gives the string back |
| Entry.DateStrRoundTrip | tools/journal.py:88-89 | `date_str` equals the title line's first ten characters |
| Entry.ParseEntry | tools/journal.py:75-103 | no `<h3>` and a malformed title are the two errors and the only ones; a parsed entry carries the path, the normalised title, its date prefix and sort key, and the normalised summary or `""` |
| Entry.NoCalendarCheck | tools/journal.py:85-89 | an example: the line `2025-13-00 - x`, with month 13 and day 0, is accepted |
| Archive.DateOrder | tools/journal.py:116 | the tuple order on sort keys is total, antisymmetric and transitive |
| Archive.SuccessesKeep | tools/journal.py:111-115 | every entry that parses is kept; the others are skipped |
| Archive.SortNewestFirst | tools/journal.py:116 | the sort is a permutation with dates never increasing, and entries of the same date keep their file order |
| Archive.ListEntries | tools/journal.py:106-117 | the listing is newest first, a permutation of the parsed entries, and stable per date |
| Archive.ListedIff | tools/journal.py:110-115 | an entry is listed exactly when some entry file parses to it |
| Archive.StableOrderUnique | tools/journal.py:116 | two newest-first orders that keep each date's entries in the same order are equal, so the listing is fully determined |
| Archive.DisplayTitle | tools/journal.py:147 | the shown title has no whitespace at either end |
| Archive.DisplayAfterEmDash | tools/journal.py:147 | for `date — title` the archive shows the stripped title |
| Archive.DisplayWithoutEmDash | tools/journal.py:147 | a normalised line without an em dash, such as `date - title`, is shown whole, date included |
| Archive.BuildArchive | tools/journal.py:148 | no entries gives the `(no entries yet)` placeholder line |
| Archive.ArchiveRoundTrip | tools/journal.py:143-148 | splitting the block at line breaks gives one `<li>` line per entry, in order |
| Splice.FindRegion | tools/journal.py:121-126 | a located region starts with the start marker and has the end marker after it |
| Splice.FindRegionLeast | tools/journal.py:121-126 | the region located is the leftmost-start, shortest one the lazy regex matches, and there is none exactly when no start marker is followed by an end marker |
| Splice.ReplaceBetween | tools/journal.py:127-128 | the only error is "region not found" for the two markers |
| Splice.ReplaceBetweenSpec | tools/journal.py:120-129 | the call fails exactly when there is no region; otherwise only the regex's match is replaced by start, newline, replacement without trailing whitespace, newline, two spaces, end |
| Splice.ReadBack | tools/journal.py:125-126 | after a splice, the region between the markers reads back as the block's body |
| Splice.RespliceOverwrites | tools/journal.py:120-129 | splicing `y` over a spliced `x` gives the page splicing `y` alone gives |
| Splice.SpliceIdempotent | tools/journal.py:120-129 | splicing the same content twice gives the page splicing it once gives |
| Splice.ResplicePossible | tools/journal.py:120-129 | splicing again after a successful splice always succeeds |
| Splice.LaterRegionKept | tools/journal.py:126 | only the first region is rewritten: any later region is carried over unchanged, moved by the change in length |
| Splice.OnlyFirstRegion | tools/journal.py:126 | an example: on `<s>a<e><s>b<e>` only the first region becomes the block, and the second stays as it was |
| Edits.RegionAfterEdit | tools/journal.py:222-235 | rewriting a stretch before a region into text where its start marker cannot begin moves the region by the change in length |
| Edits.RegionBeforeEdit | tools/journal.py:223-235 | rewriting the page after a region leaves the region where it was |
| Edits.SpliceBoth | tools/journal.py:223-235 | splicing two regions in turn succeeds, keeps the page before the first, and leaves each block where its region starts, located by its markers |
| Meta.MatchMeta | tools/journal.py:32 | a match is a comment of the accepted shape whose text is a prefix of the input |
| Meta.MatchRender | tools/journal.py:32 | every comment of the accepted shape is recognised, whatever follows it |
| Meta.MatchMetaIff | tools/journal.py:32 | the matcher returns a comment exactly when it has the accepted shape and its text starts the input |
| Meta.FindMeta | tools/journal.py:137 | the search finds the first position where a comment matches, or reports that no position matches |
| Meta.UpdateLatestMeta | tools/journal.py:138-139 | the only error is "LATEST_META not found" |
| Meta.UpdateLatestMetaSpec | tools/journal.py:132-140 | the update fails exactly when no comment matches anywhere; otherwise it replaces only the first comment by the one naming the entry |
| Meta.WrittenIsValid | tools/journal.py:135 | the written comment has the accepted shape exactly when the path and title are non-empty and free of double quotes |
| Meta.WrittenIsFirst | tools/journal.py:132-140 | after an update, the written comment is the page's first match, where the old one was |
| Meta.UpdateOverwrites | tools/journal.py:132-140 | updating for one entry after another leaves the page as updating for the second alone would |
| Meta.UpdateIdempotent | tools/journal.py:132-140 | updating twice for the same entry gives the page updating once gives |
| Publish.EnsureMarkers | tools/journal.py:55-64 | the check passes exactly when all four markers and `LATEST_META` are present; a missing-pair error names a required pair that is absent; otherwise the error is the missing comment, with both pairs present |
| Publish.MarkerErrorOrder | tools/journal.py:56-62 | the archive pair is checked before the latest pair |
| Publish.LatestArticle | tools/journal.py:151-157 | a missing `<article>` is the only error; otherwise the block is stripped |
| Publish.IndentLines | tools/journal.py:227 | the indented article is the article's lines, each with two spaces in front |
| Publish.Publish | tools/journal.py:204-237 | the page is written only when the markers, the article and the title line are all present, and the first check that fails gives the error |
| Publish.PublishedArchive | tools/journal.py:229-235 | after publishing, the archive region reads back as the block built from every parsed entry, newest first |
| Published.PublishStages | tools/journal.py:222-235 | once the markers, the article and the title line are there, publishing fails exactly when no comment matches or when a region is missing when its splice comes; each gives its own error |
| Published.BareTagFails | tools/journal.py:55-64 | a page holding the four markers and the bare word `LATEST_META` passes the marker check, but publishing then fails with "LATEST_META not found" |
| Published.PublishedMeta | tools/journal.py:132-140 | on a ready page, the published page's first comment match is the one naming the entry's path and title line, where the old comment was |
| Published.PublishedLatest | tools/journal.py:223-228 | on a ready page, the published latest region reads back as the stripped article with two spaces in front of every line |
| Published.PublishIdempotent | tools/journal.py:204-237 | on a ready page, publishing the same entry onto the published page gives that page again |

## Left out

- Reading and writing files, `date.today()`, `cmd_new` and its template, `main` and argument handling: these are I/O and command-line plumbing. Each entry file is an input to `Publish`, given as three texts. Two are inner texts: that of its first `<h3>` and that of its first `<p class="entry-meta">`. The third is the whole `<article …>…</article>` text the article search matches, tags included. Each part may be missing.
- The `TITLE_H3_RE`, `META_P_RE` and `<article>` regex searches: the text they extract is an input. Only the title-date regex and `LATEST_META_RE` are modelled as matchers.
- A missing `index.html`, a missing entry file and a missing `entries/` directory: the files are inputs. An absent directory is an empty sequence of entries.
- The order of `sorted(glob("*.html"))` is not modelled: the entries arrive already in file-name order.
- In `list_entries`, `except Exception` catches any error while reading an entry. The model only has parse errors, and those are skipped.
- `str.lower()` and `\d` are modelled on ASCII: Unicode case mapping and Unicode digits are not. `\s` and `str.split()` use the whitespace set of Python's `str.isspace()`, which includes the Unicode spaces.
- `pattern.subn(block, html)` reads `block` as a replacement template, not as literal text. Known escapes in the article or the archive block are expanded: `\n` and `\\`, for instance, and `\g<0>` inserts the matched region. The marker pattern has no groups, so a reference such as `\1` makes `subn` raise `re.error`. An unknown escape of a backslash and an ASCII letter, such as `\d`, makes `subn` raise `re.error`. So does a trailing lone backslash. Other unknown escapes, such as `\(`, are kept as written. The model copies the block literally and never fails this way. For example, a title line `2025-01-02 — C:\docs` reaches the archive block. `cmd_publish` then raises at the archive splice, yet `Publish` succeeds.
- Splice.ReplaceBetween: does not model the template error above. Its one error is "region not found", and its result holds the block exactly as given.
- Publish.PublishedArchive: for the same reason it reads the archive block back unchanged, also when its text holds a backslash that Python would expand or reject.
- `re.subn(..., count=1)` replaces only the first match. So the "found more than one match" error the message suggests can never happen; only "not found" is modelled. The code is followed here.
- Meta.WrittenIsFirst: requires a path and a title line that are non-empty and free of double quotes, so that the written comment has the accepted shape. It also requires a path that starts with neither whitespace nor `-`, so that no earlier position can now match. The source promises nothing for other values.
- Meta.UpdateOverwrites: requires the same of the first entry's path, and both values free of double quotes.
- Meta.UpdateIdempotent: requires the same as Meta.UpdateOverwrites.
- Splice.RespliceOverwrites: requires that the first replacement does not contain the end marker, so the rebuilt region still ends at the block's end marker. It also requires an end marker that is non-empty, does not start with a space and holds no line break. All four markers of the page qualify.
- Splice.SpliceIdempotent: requires the same.
- Splice.ReadBack: requires the same.
- Publish.Publish: its own contract states only when it succeeds and which error comes first. What the written page holds is stated apart, on ready pages only, by Published.PublishedMeta, Published.PublishedLatest and Published.PublishIdempotent.
- Published.PublishedMeta: requires a ready page. The page's first `LATEST_META` comment must end before the latest region, which must end before the archive region. The program fixes no such order on `index.html`, which is not part of it, so this order is assumed. The entry must parse, with a non-empty path and title line free of `"` and `<`, and a path that starts with neither whitespace nor `-`. The article must hold neither `<!-- LATEST_END -->` nor `<!-- ARCHIVE START -->`, and the archive block must not hold `<!-- ARCHIVE END -->`. On other pages a marker or a second comment can appear inside the written text and move what the later steps find.
- Published.PublishedLatest: requires the same.
- Published.PublishIdempotent: requires the same.
- Publish.PublishedArchive: requires that the archive block does not contain `<!-- ARCHIVE END -->`.
- Archive.ArchiveRoundTrip: requires paths, dates and title lines without line breaks. Title lines are normalised, so theirs never have one.
