# link-relativizer, modelled in Dafny

link-relativizer rewrites absolute links in the HTML files under a web root
into links relative to each file's directory, so that a mirrored site can be
browsed offline. For each HTML file it:

1. extracts the values of `href=`, `link=` and `src=` attributes with a regular expression;
2. decides for each link whether it belongs to the home domain;
3. for a home-domain link, computes the file it names under the web root and that file's path relative to the HTML file's directory;
4. keeps the pairs that change something;
5. in write mode, replaces the first remaining occurrence of each original link in the text, pair by pair.

The model covers that logic and the path arithmetic it rests on:

| file | module | models |
|---|---|---|
| `wrappers.dfy` | `Wrappers` | `Option` |
| `ascii_case.dfy` | `AsciiCase` | `str.lower()` on ASCII letters |
| `posix_path.dfy` | `PosixPath` | `str.split('/')`, `'/'.join`, `lstrip('/')`, `rstrip('/')`, `posixpath.join`, `dirname`, `normpath`, `abspath` and `relpath` on absolute paths |
| `url_split.dfy` | `UrlSplit` | the `scheme`, `netloc`, `path`, `query` and `fragment` split of `urlparse`, and its `;params` cut of the path |
| `html_files.dfy` | `HtmlFiles` | `is_html` and the loop of `get_html_files` |
| `link_scan.dfy` | `LinkScan` | `get_links`: `re.findall` of the link pattern, as a left-to-right scan |
| `relativizer.dfy` | `Relativizer` | `relativize`, `get_subs`, and the planning step of `main` for one file |
| `write_subs.dfy` | `WriteSubs` | the replace loop of `write_subs` on the text |

Two things the program asks of the system become parameters:

- Whether a path exists (`posixpath.exists`) is the function `fileExists: string -> bool`.
- The directories `os.walk` visits are a sequence of `WalkEntry(dirpath, filenames)`.

## Behaviour the model follows

These points are where the code differs from its comments. The model follows the code.

- The home-domain test compares `urlparse(link).netloc` with the domain exactly (`link-relativizer.py:58`). A root-relative link such as `/foo/bar.html` has an empty netloc. So it is returned unchanged unless the domain given is empty. The comment at lines 46-52 says such links are converted.
- `lstrip('/')` removes every leading slash, not just one.
- Only the path of the link is used. Its query and fragment are not carried into the relative link. A `;params` suffix is cut off as `urlparse` does for the schemes in `uses_params` (the list of Python 3.12).
- The docstring of `get_subs` says duplicates are filtered out. The code filters out only pairs that change nothing (line 106). A link found twice gives two pairs, which the replace loop needs to replace both occurrences.
- The link pattern has no word boundary, so `data-src="..."` matches too. The closing quote need not match the opening one. A value never spans a newline.

## Model

| member | source | states |
|---|---|---|
| `HtmlFiles.Extension` | link-relativizer.py:37 | the text after the last '.': a dot-free suffix of the name, the whole name or preceded by a '.' |
| `AsciiCase.LowerFolds` | link-relativizer.py:37 | lower() keeps the length, leaves no 'A'..'Z', moves each upper-case ASCII letter to its lower-case partner, keeps every other character, and is idempotent |
| `HtmlFiles.IsHtmlIff` | link-relativizer.py:35-37 | is_html holds exactly when the lower-cased text after the last '.' (the whole name when it has none) is html, xhtml or htm |
| `HtmlFiles.IsHtmlAfterDot` | link-relativizer.py:35-37 | only the text after the last '.' decides: is_html(a + "." + b) equals is_html(b) |
| `HtmlFiles.IsHtmlWholeName` | link-relativizer.py:35-37 | a name without a dot is judged whole, so "HTML" is accepted |
| `HtmlFiles.FilterHtml` | link-relativizer.py:92 | a name is kept exactly when it is in the list and is_html accepts it; the list does not grow |
| `HtmlFiles.AbsifySegments` | link-relativizer.py:91-93 | join(dirpath, f) keeps the list's length; it is f itself when f is absolute, and otherwise has dirpath's components followed by f's |
| `HtmlFiles.GetHtmlFiles` | link-relativizer.py:87-95 | the loop's list equals the concatenation, in walk order, of each directory's joined HTML names |
| `HtmlFiles.HtmlFilesOfMembers` | link-relativizer.py:87-95 | a path is listed exactly when it is join(dirpath, f) for a visited directory and one of its file names f that is_html accepts |
| `PosixPath.Split` | link-relativizer.py:76 | at least one piece, and no piece holds '/' |
| `PosixPath.SplitJoinWith` | link-relativizer.py:76 | splitting undoes '/'.join when no piece holds '/' |
| `PosixPath.SplitAround` | link-relativizer.py:76 | splitting at a '/' splits both sides independently |
| `PosixPath.NonEmpty` | link-relativizer.py:76 | keeps only non-empty elements of the list |
| `PosixPath.NonEmptyAppend` | link-relativizer.py:76 | dropping empty pieces distributes over concatenation |
| `PosixPath.LeadingSeps` | link-relativizer.py:64 | the length of the run of '/' at the start |
| `PosixPath.LStripSeps` | link-relativizer.py:64 | lstrip('/') removes only leading '/' and leaves no leading '/' |
| `PosixPath.RStripSeps` | link-relativizer.py:69 | rstrip('/') keeps a prefix, removes only trailing '/' and leaves none |
| `PosixPath.SegmentsRStrip` | link-relativizer.py:69 | stripping trailing '/' keeps the path's components |
| `PosixPath.RFindSep` | link-relativizer.py:69 | the index of the last '/', or -1 |
| `PosixPath.JoinSegments` | link-relativizer.py:73 | join onto a relative path appends that path's components |
| `PosixPath.JoinLeadingSeps` | link-relativizer.py:73 | join of a relative path onto a non-empty one extends it and keeps its leading slashes |
| `PosixPath.DirnameSegments` | link-relativizer.py:69 | dirname drops the last '/'-piece of the path |
| `PosixPath.DirnameAbs` | link-relativizer.py:69 | dirname of an absolute path is absolute with the same leading slashes |
| `PosixPath.InitialSlashesByLeading` | link-relativizer.py:119 | normpath keeps two leading slashes for exactly two, one for one or more than two |
| `PosixPath.NormFoldAppend` | link-relativizer.py:119 | normpath's component loop over a + b is the loop over a, then over b |
| `PosixPath.NormFoldJoin` | link-relativizer.py:73 | normalising a join folds the relative part's components onto the base's |
| `PosixPath.AbsComponentsNormal` | link-relativizer.py:119 | the components normpath keeps for an absolute path are never empty, ".", ".." or hold '/' |
| `PosixPath.SegmentsNormpath` | link-relativizer.py:76 | the components relpath reads from abspath are the ones normpath keeps |
| `PosixPath.CommonPrefixLen` | link-relativizer.py:76 | the length of the longest common prefix of two component lists |
| `PosixPath.RelPartsComponents` | link-relativizer.py:76 | relpath's list is one ".." per start component beyond the common prefix, then the target's components after it |
| `PosixPath.RelpathShape` | link-relativizer.py:76 | relpath is never empty, not absolute, and has no "//"; it is "." exactly when both paths have the same components; otherwise its pieces are the ".." list then the tail |
| `PosixPath.NormFoldUps` | link-relativizer.py:76 | k ".." components pop k components off a rooted stack |
| `PosixPath.RelpathRoundTripComponents` | link-relativizer.py:76 | join(start, relpath(path, start)) has the same normalised components as path |
| `PosixPath.RelpathRoundTrip` | link-relativizer.py:76 | normpath(join(start, relpath(path, start))) == normpath(path) when both start with the same kind of root |
| `UrlSplit.IndexOfAny` | link-relativizer.py:55 | the first index holding one of the characters, or the length |
| `UrlSplit.SplitScheme` | link-relativizer.py:55 | a scheme is split off exactly when the text before the first ':' is non-empty, starts with an ASCII letter and holds only scheme characters; the text is rebuilt from the parts |
| `UrlSplit.SplitAuthority` | link-relativizer.py:55 | a netloc is taken exactly when the rest starts with "//"; it holds no '/', '?' or '#', and what follows it is empty or starts with one of them |
| `UrlSplit.SplitAt` | link-relativizer.py:55 | the split at the first occurrence of a character, rebuilt exactly |
| `UrlSplit.ParseRoundTrip` | link-relativizer.py:55 | putting the parsed parts back together gives the link back |
| `UrlSplit.ParseDelimiters` | link-relativizer.py:55 | the netloc holds no '/', '?' or '#', the path no '?' or '#', the query no '#' |
| `UrlSplit.AuthorityNeedsDoubleSlash` | link-relativizer.py:55 | a netloc is found only when "//" stands at the start or right after the scheme's ':' |
| `UrlSplit.SplitParams` | link-relativizer.py:55 | the path is cut at the first ';' that no '/' follows, and nothing is cut without one |
| `UrlSplit.UrlparsePath` | link-relativizer.py:55 | urlparse's path is a prefix of urlsplit's; it is the whole path unless the lower-cased scheme is in uses_params and the path holds ';', and then it is cut at the first ';' after the last '/' |
| `LinkScan.NameLength` | link-relativizer.py:99 | the length of the attribute name at a position, or 0 when none of href, link, src is there |
| `LinkScan.ValueEnd` | link-relativizer.py:99 | the first quote or newline from a position on, where the lazy group stops |
| `LinkScan.MatchAtIff` | link-relativizer.py:99 | trying the pattern at p gives exactly the match of the pattern starting at p |
| `LinkScan.MatchAtSound` | link-relativizer.py:99 | a match found at p is a match starting at p; when none is found no match starts at p |
| `LinkScan.Scan` | link-relativizer.py:99 | every result findall reports from a position on is a match of the pattern starting at or after that position |
| `LinkScan.ScanOrdered` | link-relativizer.py:99 | findall's results come left to right without overlap: each ends before the next one starts |
| `LinkScan.ScanComplete` | link-relativizer.py:99 | findall misses nothing: no match starts before the first result, between two results, or after the last |
| `LinkScan.GetLinks` | link-relativizer.py:97-99 | one link per match findall reports |
| `LinkScan.GetLinksValues` | link-relativizer.py:99 | the i-th link is the value of the i-th match: it follows href=, link= or src= and a quote, is followed by a quote, and holds no quote or newline |
| `LinkScan.MatchesAnywhere` | link-relativizer.py:99 | the pattern matches after any text, inside a longer attribute name, and with mismatched quotes |
| `Relativizer.LinkTarget` | link-relativizer.py:64-73 | the target is absolute, keeps the web root's leading slashes, and has the web root's components followed by the link path's |
| `Relativizer.LStripSegments` | link-relativizer.py:64 | lstrip('/') does not change a path's components |
| `Relativizer.Relativize` | link-relativizer.py:39-85 | a link whose netloc is not the home domain is returned unchanged; so is one whose target does not exist; a home-domain link with an existing target becomes relpath(target, dirname(html file)) |
| `Relativizer.RelativizeChanged` | link-relativizer.py:55-81 | a changed link has the home domain's netloc and an existing target, and becomes relpath(target, dirname(html file)) |
| `Relativizer.RelativizeShape` | link-relativizer.py:76-85 | the result is the link itself or a non-empty relative path with no "//" |
| `Relativizer.RelativizeRoundTrip` | link-relativizer.py:64-81 | for a home-domain link with an existing target, the result joined back onto the HTML file's directory normalises to the normalised target |
| `Relativizer.RelativizeRewritesHomeLinks` | link-relativizer.py:55-81 | with a non-empty home domain, a home-domain link with an existing target is always rewritten |
| `Relativizer.RelativizeChangesIff` | link-relativizer.py:55-81 | with a non-empty home domain, a link is changed exactly when its netloc is the home domain and its target exists |
| `Relativizer.RelativeHasNoNetloc` | link-relativizer.py:55-58 | a non-empty relative path with no "//" parses with an empty netloc |
| `Relativizer.RelativizeIdempotent` | link-relativizer.py:39-85 | with a non-empty home domain, relativizing a result again changes nothing |
| `Relativizer.GetSubs` | link-relativizer.py:101-107 | every pair is (l, relativize_fn(l)) with l a link and l != relativize_fn(l); there are no more pairs than links |
| `Relativizer.GetSubsCounts` | link-relativizer.py:101-107 | a changed link appears among the pairs as often as among the links, any other link never |
| `Relativizer.GetSubsAppend` | link-relativizer.py:105-107 | the pairs for a + b are the pairs for a followed by those for b, so the order of the links is kept |
| `Relativizer.GetSubsSingle` | link-relativizer.py:105-106 | one link gives one pair if relativize_fn changes it, none otherwise |
| `Relativizer.FileSubs` | link-relativizer.py:135-140 | a file gets no more pairs than it has links |
| `Relativizer.FileSubsSound` | link-relativizer.py:132-140 | every pair planned for a file replaces one of its links, of the home domain with an existing target, by a relative path that resolves from the file's directory to that target |
| `WriteSubs.FindFrom` | link-relativizer.py:18 | the first index from a position on where the text occurs, or -1 when it occurs nowhere from there |
| `WriteSubs.Find` | link-relativizer.py:18 | the first index where the text occurs, or -1 when it occurs nowhere |
| `WriteSubs.ReplaceFirst` | link-relativizer.py:18 | replace(old, new, 1) leaves the text alone when old is absent, and otherwise splices new in place of the leftmost occurrence |
| `WriteSubs.ReplaceFirstKeepsPrefix` | link-relativizer.py:18 | everything before the first occurrence is kept and new stands in its place |
| `WriteSubs.ReplaceFirstKeepsLater` | link-relativizer.py:17-18 | an occurrence after the first one survives a replacement, shifted by the change in length, so N occurrences need N pairs |
| `WriteSubs.ApplyAllAppend` | link-relativizer.py:17-18 | applying a + b applies a, then b |
| `WriteSubs.ApplyAllFirst` | link-relativizer.py:17-18 | the first pair is applied first, to the text as read |
| `WriteSubs.ApplyAllAbsent` | link-relativizer.py:17-18 | pairs whose original text does not occur leave the text unchanged |
| `WriteSubs.WriteSubsText` | link-relativizer.py:16-18 | the loop's text is the pairs applied in order, one first occurrence each |

## Left out

- `read_file`: the binary read, the `cchardet` encoding guess and the decode are I/O and a foreign library. The model starts from the decoded text.
- The file write and confirmation print of `write_subs`, `print_subs`, the warning in `relativize` and the summaries of `main`: console and file output.
- The directory walk of `get_html_files`: `os.walk` is filesystem traversal. The model takes the visited directories and their file names as a parameter.
- `main`: argument parsing, the `isdir` check, `quit(1)` and the `sub_count` total. The planning for one file (lines 134-140) is `Relativizer.FileSubs`.
- `posixpath.exists` is a parameter: the model does not say which paths exist.
- `urlparse`: the stripping of leading control characters and spaces is not modelled. Neither is the removal of tab and newline characters, nor the `ValueError` for an unbalanced '[' in the netloc. `UrlSplit.Parse` keeps the scheme as written, while `urlparse` lower-cases it. Only the `uses_params` test reads the lower-cased scheme, and the relativizer uses only the netloc and the path.
- Relativizer.Relativize: requires absolute web root and HTML file paths. `main` passes `abspath(args.p)` and paths joined onto the directories `os.walk` returns for it (lines 90-91 and 119). A relative path would make `relpath` read the working directory. The `ValueError` `relpath` raises for an empty path cannot happen for an absolute one.
- Relativizer.RelativizeRoundTrip: requires that the web root and the HTML file begin with the same kind of root. normpath keeps "//" but folds "///" and more into "/", so a "//" web root with a "/" file would resolve differently. This holds when the HTML file lies under the web root.
- Relativizer.RelativizeIdempotent: requires a non-empty home domain. With an empty one, relative links count as home-domain links and are resolved against the web root again.
- AsciiCase.Lower: lower-cases ASCII letters only. `str.lower()` also maps other letters, but no other character lower-cases to a letter of "html", "xhtml" or "htm", so `is_html` decides the same.
- WriteSubs.WriteSubsText: the claim that N identical pairs replace at most N occurrences is not stated as a count. A replacement can create or break occurrences across its edges. `WriteSubs.ReplaceFirstKeepsLater` states the part that holds: each pair changes one occurrence and leaves later ones in place.
- LinkScan.GetLinks: the scan is the regular expression as `re.findall` runs it on this pattern. A general regular-expression engine is not modelled.
