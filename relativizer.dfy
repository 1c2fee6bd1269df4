/**
 * `relativize` and `get_subs`: deciding, link by link, whether a link names a
 * file of the home domain, and turning such a link into a path relative to
 * the directory of the HTML file that holds it.
 *
 * Whether a file exists is a parameter, `fileExists`, standing for
 * `posixpath.exists`.
 */
module Relativizer {
  import opened PosixPath
  import UrlSplit
  import LinkScan

  /** The file a home-domain link names: the link's path with every leading
      '/' stripped, joined onto the web root. */
  function LinkTarget(webRoot: string, link: string): (target: string)
    requires IsAbs(webRoot)
    ensures IsAbs(target) && LeadingSeps(target) == LeadingSeps(webRoot)
    ensures Segments(target) == Segments(webRoot) + Segments(UrlSplit.UrlparsePath(link))
  {
    var linkPath := LStripSeps(UrlSplit.UrlparsePath(link));
    JoinLeadingSeps(webRoot, linkPath);
    JoinSegments(webRoot, linkPath);
    LStripSegments(UrlSplit.UrlparsePath(link));
    Join(webRoot, linkPath)
  }

  /** Stripping leading separators does not change the segments. */
  lemma LStripSegments(s: string)
    ensures Segments(LStripSeps(s)) == Segments(s)
  {
    var r := LStripSeps(s);
    var k := |s| - |r|;
    assert s == Seps(k) + r;
    if k > 0 {
      assert s == Seps(k - 1) + [Sep] + r;
      SplitAround(Seps(k - 1), r);
      NonEmptyAppend(Split(Seps(k - 1)), Split(r));
      SegmentsOfSeps(k - 1);
    }
  }

  /** `relativize(home_domain, web_root_path, html_file_path, link)`. */
  function Relativize(homeDomain: string, webRoot: string, htmlFile: string,
                      fileExists: string -> bool, link: string): (r: string)
    requires IsAbs(webRoot) && IsAbs(htmlFile)
    ensures UrlSplit.Parse(link).Netloc() != homeDomain ==> r == link
    ensures !fileExists(LinkTarget(webRoot, link)) ==> r == link
    ensures UrlSplit.Parse(link).Netloc() == homeDomain && fileExists(LinkTarget(webRoot, link))
            ==> IsAbs(Dirname(htmlFile)) && r == Relpath(LinkTarget(webRoot, link), Dirname(htmlFile))
  {
    if UrlSplit.Parse(link).Netloc() != homeDomain then link
    else
      var linkCwd := Dirname(htmlFile);
      var linkAbsPath := LinkTarget(webRoot, link);
      DirnameAbs(htmlFile);
      var relativizedPath := Relpath(linkAbsPath, linkCwd);
      if fileExists(linkAbsPath) then relativizedPath else link
  }

  /** A link that relativize changes names a home-domain file that exists,
      and is replaced by its path relative to the HTML file's directory. */
  lemma RelativizeChanged(homeDomain: string, webRoot: string, htmlFile: string,
                          fileExists: string -> bool, link: string)
    requires IsAbs(webRoot) && IsAbs(htmlFile)
    requires Relativize(homeDomain, webRoot, htmlFile, fileExists, link) != link
    ensures UrlSplit.Parse(link).Netloc() == homeDomain
    ensures fileExists(LinkTarget(webRoot, link))
    ensures IsAbs(Dirname(htmlFile))
    ensures Relativize(homeDomain, webRoot, htmlFile, fileExists, link)
         == Relpath(LinkTarget(webRoot, link), Dirname(htmlFile))
  {
    DirnameAbs(htmlFile);
  }

  /** The result of relativize is the link itself or a relative path: never
      empty, not absolute, with no two separators in a row. */
  lemma RelativizeShape(homeDomain: string, webRoot: string, htmlFile: string,
                        fileExists: string -> bool, link: string)
    requires IsAbs(webRoot) && IsAbs(htmlFile)
    ensures var r := Relativize(homeDomain, webRoot, htmlFile, fileExists, link);
      r == link || (r != "" && !IsAbs(r) && NoAdjacentSeps(r))
  {
    DirnameAbs(htmlFile);
    RelpathShape(LinkTarget(webRoot, link), Dirname(htmlFile));
  }

  /** Round trip: the relative path a home-domain link with an existing
      target becomes, joined back onto the HTML file's directory,
      names the same file as the link did, once both are normalised. The web
      root and the HTML file must begin with the same kind of root ("/" or
      "//"), as they do when the HTML file lies under the web root. */
  lemma RelativizeRoundTrip(homeDomain: string, webRoot: string, htmlFile: string,
                            fileExists: string -> bool, link: string)
    requires IsAbs(webRoot) && IsAbs(htmlFile)
    requires InitialSlashes(webRoot) == InitialSlashes(htmlFile)
    requires UrlSplit.Parse(link).Netloc() == homeDomain && fileExists(LinkTarget(webRoot, link))
    ensures var r := Relativize(homeDomain, webRoot, htmlFile, fileExists, link);
      Normpath(Join(Dirname(htmlFile), r)) == Normpath(LinkTarget(webRoot, link))
  {
    var target := LinkTarget(webRoot, link);
    var cwd := Dirname(htmlFile);
    DirnameAbs(htmlFile);
    InitialSlashesByLeading(webRoot);
    InitialSlashesByLeading(htmlFile);
    InitialSlashesByLeading(target);
    InitialSlashesByLeading(cwd);
    RelpathRoundTrip(target, cwd);
  }

  /** With a non-empty home domain, every home-domain link whose target
      exists is rewritten: the link holds "//" before its netloc, and a
      relative path never holds "//". */
  lemma RelativizeRewritesHomeLinks(homeDomain: string, webRoot: string, htmlFile: string,
                                    fileExists: string -> bool, link: string)
    requires IsAbs(webRoot) && IsAbs(htmlFile) && homeDomain != ""
    requires UrlSplit.Parse(link).Netloc() == homeDomain && fileExists(LinkTarget(webRoot, link))
    ensures Relativize(homeDomain, webRoot, htmlFile, fileExists, link) != link
  {
    DirnameAbs(htmlFile);
    RelpathShape(LinkTarget(webRoot, link), Dirname(htmlFile));
    NetlocHasDoubleSlash(link);
  }

  /** A link with a netloc has two separators in a row. */
  lemma NetlocHasDoubleSlash(link: string)
    requires UrlSplit.Parse(link).Netloc() != ""
    ensures !NoAdjacentSeps(link)
  {
    UrlSplit.AuthorityNeedsDoubleSlash(link);
    var j :| 0 <= j < |link| - 1 && link[j] == '/' && link[j + 1] == '/' && (j == 0 || link[j - 1] == ':');
    assert link[j] == Sep && link[j + 1] == Sep;
  }

  /** With a non-empty home domain, relativize changes a link exactly when
      it is a home-domain link whose target exists. */
  lemma RelativizeChangesIff(homeDomain: string, webRoot: string, htmlFile: string,
                             fileExists: string -> bool, link: string)
    requires IsAbs(webRoot) && IsAbs(htmlFile) && homeDomain != ""
    ensures Relativize(homeDomain, webRoot, htmlFile, fileExists, link) != link
        <==> UrlSplit.Parse(link).Netloc() == homeDomain && fileExists(LinkTarget(webRoot, link))
  {
    if UrlSplit.Parse(link).Netloc() == homeDomain && fileExists(LinkTarget(webRoot, link)) {
      RelativizeRewritesHomeLinks(homeDomain, webRoot, htmlFile, fileExists, link);
    }
  }

  /** A relative path never has a netloc: a netloc needs "//" at the start of
      the text or right after the scheme's ':'. */
  lemma RelativeHasNoNetloc(r: string)
    requires r != "" && !IsAbs(r) && NoAdjacentSeps(r)
    ensures UrlSplit.Parse(r).Netloc() == ""
  {
    if UrlSplit.Parse(r).authority.Some? {
      UrlSplit.AuthorityNeedsDoubleSlash(r);
      assert false;
    }
  }

  /** Relativizing a second time changes nothing, provided the home domain is
      not empty: a relativized link has an empty netloc. */
  lemma RelativizeIdempotent(homeDomain: string, webRoot: string, htmlFile: string,
                             fileExists: string -> bool, link: string)
    requires IsAbs(webRoot) && IsAbs(htmlFile) && homeDomain != ""
    ensures var r := Relativize(homeDomain, webRoot, htmlFile, fileExists, link);
      Relativize(homeDomain, webRoot, htmlFile, fileExists, r) == r
  {
    var r := Relativize(homeDomain, webRoot, htmlFile, fileExists, link);
    RelativizeShape(homeDomain, webRoot, htmlFile, fileExists, link);
    if r != link {
      RelativeHasNoNetloc(r);
    }
  }

  /** `get_subs(relativize_fn, links)`: the pairs (link, relativize_fn(link))
      in link order, less those where nothing changes. */
  function GetSubs(relativizeFn: string -> string, links: seq<string>): (subs: seq<(string, string)>)
    ensures |subs| <= |links|
    ensures forall k :: 0 <= k < |subs| ==> subs[k].1 == relativizeFn(subs[k].0) && subs[k].0 != subs[k].1
    ensures forall k :: 0 <= k < |subs| ==> subs[k].0 in links
  {
    if |links| == 0 then []
    else
      var rest := GetSubs(relativizeFn, links[1..]);
      var l := links[0];
      assert forall k :: 0 <= k < |rest| ==> rest[k].0 in links;
      if l != relativizeFn(l) then [(l, relativizeFn(l))] + rest else rest
  }

  /** The original halves of the pairs, in order. */
  function Originals(subs: seq<(string, string)>): (ls: seq<string>)
    ensures |ls| == |subs| && forall k :: 0 <= k < |subs| ==> ls[k] == subs[k].0
  {
    seq(|subs|, k requires 0 <= k < |subs| => subs[k].0)
  }

  /** Duplicates are kept: a link that relativize_fn changes stands among the
      pairs exactly as often as among the links, any other link not at all. */
  lemma {:induction false} GetSubsCounts(relativizeFn: string -> string, links: seq<string>, l: string)
    ensures multiset(Originals(GetSubs(relativizeFn, links)))[l]
         == if relativizeFn(l) != l then multiset(links)[l] else 0
    decreases |links|
  {
    if |links| > 0 {
      var x := links[0];
      var rest := GetSubs(relativizeFn, links[1..]);
      GetSubsCounts(relativizeFn, links[1..], l);
      assert multiset(links) == multiset([x]) + multiset(links[1..]) by {
        assert links == [x] + links[1..];
      }
      if x != relativizeFn(x) {
        assert Originals(GetSubs(relativizeFn, links)) == [x] + Originals(rest);
        assert multiset([x] + Originals(rest)) == multiset([x]) + multiset(Originals(rest));
      } else {
        assert GetSubs(relativizeFn, links) == rest;
      }
    }
  }

  /** The pairs keep the order of the links: planning the links of `a + b`
      plans those of `a`, then those of `b`. With the one-link case this tells
      the whole list. */
  lemma {:induction false} GetSubsAppend(relativizeFn: string -> string, a: seq<string>, b: seq<string>)
    ensures GetSubs(relativizeFn, a + b) == GetSubs(relativizeFn, a) + GetSubs(relativizeFn, b)
    decreases |a|
  {
    if |a| > 0 {
      assert (a + b)[1..] == a[1..] + b;
      GetSubsAppend(relativizeFn, a[1..], b);
    } else {
      assert a + b == b;
    }
  }

  /** One link gives one pair when relativize_fn changes it, none otherwise. */
  lemma GetSubsSingle(relativizeFn: string -> string, l: string)
    ensures GetSubs(relativizeFn, [l]) == if relativizeFn(l) != l then [(l, relativizeFn(l))] else []
  {
    assert [l][1..] == [];
  }

  /** The substitutions planned for one HTML file with text `html`: its links
      as get_links finds them, through relativize bound to that file. */
  function FileSubs(homeDomain: string, webRoot: string, htmlFile: string,
                    fileExists: string -> bool, html: string): (subs: seq<(string, string)>)
    requires IsAbs(webRoot) && IsAbs(htmlFile)
    ensures |subs| <= |LinkScan.GetLinks(html)|
  {
    GetSubs(l => Relativize(homeDomain, webRoot, htmlFile, fileExists, l), LinkScan.GetLinks(html))
  }

  /** Every planned substitution replaces a link found in the file by a
      relative path that names, from the file's directory, the same existing
      file as the link. */
  lemma FileSubsSound(homeDomain: string, webRoot: string, htmlFile: string,
                      fileExists: string -> bool, html: string, k: nat)
    requires IsAbs(webRoot) && IsAbs(htmlFile)
    requires InitialSlashes(webRoot) == InitialSlashes(htmlFile)
    requires k < |FileSubs(homeDomain, webRoot, htmlFile, fileExists, html)|
    ensures var sub := FileSubs(homeDomain, webRoot, htmlFile, fileExists, html)[k];
      && sub.0 in LinkScan.GetLinks(html)
      && UrlSplit.Parse(sub.0).Netloc() == homeDomain
      && fileExists(LinkTarget(webRoot, sub.0))
      && sub.1 != "" && !IsAbs(sub.1) && NoAdjacentSeps(sub.1)
      && Normpath(Join(Dirname(htmlFile), sub.1)) == Normpath(LinkTarget(webRoot, sub.0))
  {
    var sub := FileSubs(homeDomain, webRoot, htmlFile, fileExists, html)[k];
    assert sub.1 == Relativize(homeDomain, webRoot, htmlFile, fileExists, sub.0);
    RelativizeChanged(homeDomain, webRoot, htmlFile, fileExists, sub.0);
    RelativizeShape(homeDomain, webRoot, htmlFile, fileExists, sub.0);
    RelativizeRoundTrip(homeDomain, webRoot, htmlFile, fileExists, sub.0);
  }
}
