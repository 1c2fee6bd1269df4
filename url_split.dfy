/**
 * A simplified `urllib.parse.urlsplit`: a URL of the shape
 * `scheme:` `//netloc` `path` `?query` `#fragment`, each part optional.
 * The relativizer reads only `netloc` and `path`; `urlparse` differs from
 * `urlsplit` only in cutting `;params` off the path of some schemes.
 */
module UrlSplit {
  import opened Wrappers
  import AsciiCase
  import PosixPath

  /** The parts of a URL. `authority` is None when there is no `//`, and a
      query or fragment is None when its `?` or `#` is missing, so that the
      split loses nothing. */
  datatype Url = Url(scheme: string, authority: Option<string>, path: string,
                     query: Option<string>, fragment: Option<string>)
  {
    /** `urlparse(...).netloc`: the authority, empty when absent. */
    function Netloc(): string
    {
      authority.GetOr("")
    }
  }

  predicate IsAsciiAlpha(c: char)
  {
    'a' <= c <= 'z' || 'A' <= c <= 'Z'
  }

  /** urllib's `scheme_chars`: ASCII letters, digits, '+', '-' and '.'. */
  predicate IsSchemeChar(c: char)
  {
    IsAsciiAlpha(c) || '0' <= c <= '9' || c == '+' || c == '-' || c == '.'
  }

  /** Index of the first character of `s` in `cs`, or |s| when there is none. */
  function IndexOfAny(s: string, cs: set<char>): (i: nat)
    ensures i <= |s|
    ensures i < |s| ==> s[i] in cs
    ensures forall j :: 0 <= j < i ==> s[j] !in cs
  {
    if |s| == 0 || s[0] in cs then 0 else 1 + IndexOfAny(s[1..], cs)
  }

  /** The scheme is what precedes the first ':' when it is non-empty, starts
      with an ASCII letter and holds only scheme characters. */
  function SplitScheme(s: string): (parts: (string, string))
    ensures parts.0 == "" ==> parts.1 == s
    ensures parts.0 != "" ==> s == parts.0 + ":" + parts.1 && ':' !in parts.0
    ensures parts.0 != "" ==> IsAsciiAlpha(parts.0[0]) && forall j :: 0 <= j < |parts.0| ==> IsSchemeChar(parts.0[j])
    ensures forall i :: (0 < i < |s| && s[i] == ':' && IsAsciiAlpha(s[0]) && (forall j :: 0 <= j < i ==> IsSchemeChar(s[j])))
                        ==> parts == (s[..i], s[i + 1..])
  {
    var i := IndexOfAny(s, {':'});
    if 0 < i < |s| && IsAsciiAlpha(s[0]) && forall j :: 0 <= j < i ==> IsSchemeChar(s[j]) then
      assert s == s[..i] + ":" + s[i + 1..];
      (s[..i], s[i + 1..])
    else
      ("", s)
  }

  /** After the scheme, `//` opens a netloc that runs up to the first '/',
      '?' or '#'. */
  function SplitAuthority(rest: string): (parts: (Option<string>, string))
    ensures parts.0.None? ==> parts.1 == rest
    ensures parts.0.Some? ==> rest == "//" + parts.0.value + parts.1
    ensures parts.0.Some? ==> '/' !in parts.0.value && '?' !in parts.0.value && '#' !in parts.0.value
    ensures parts.0.Some? <==> |rest| >= 2 && rest[..2] == "//"
    ensures parts.0.Some? && parts.1 != [] ==> parts.1[0] == '/' || parts.1[0] == '?' || parts.1[0] == '#'
  {
    if |rest| >= 2 && rest[0] == '/' && rest[1] == '/' then
      var tail := rest[2..];
      var k := IndexOfAny(tail, {'/', '?', '#'});
      assert forall c :: c in tail[..k] ==> c !in {'/', '?', '#'};
      assert rest == "//" + tail[..k] + tail[k..];
      (Some(tail[..k]), tail[k..])
    else
      (None, rest)
  }

  /** Split `rest` at the first `c`, if there is one. */
  function SplitAt(rest: string, c: char): (parts: (string, Option<string>))
    ensures c !in parts.0
    ensures parts.1.None? ==> parts.0 == rest
    ensures parts.1.Some? ==> rest == parts.0 + [c] + parts.1.value
  {
    var k := IndexOfAny(rest, {c});
    assert forall d :: d in rest[..k] ==> d != c;
    if k < |rest| then
      assert rest == rest[..k] + [c] + rest[k + 1..];
      (rest[..k], Some(rest[k + 1..]))
    else
      (rest, None)
  }

  /** `urlsplit(s)`: scheme, then netloc, then the fragment is cut at the
      first '#' and the query at the first '?' before it. */
  function Parse(s: string): Url
  {
    var scheme := SplitScheme(s);
    var authority := SplitAuthority(scheme.1);
    var fragment := SplitAt(authority.1, '#');
    var query := SplitAt(fragment.0, '?');
    Url(scheme.0, authority.0, query.0, query.1, fragment.1)
  }

  /** An optional part with its delimiter in front, empty when absent. */
  function Delimited(delimiter: string, part: Option<string>): string
  {
    match part
    case Some(x) => delimiter + x
    case None => ""
  }

  /** Reassembles the parts of a URL. */
  function Unparse(u: Url): string
  {
    (if u.scheme == "" then "" else u.scheme + ":")
    + Delimited("//", u.authority)
    + u.path
    + Delimited("?", u.query)
    + Delimited("#", u.fragment)
  }

  /** The parts are delimited as urlsplit delimits them: the netloc holds no
      '/', '?' or '#', the path no '?' or '#', the query no '#'. */
  lemma ParseDelimiters(s: string)
    ensures var u := Parse(s);
      && '/' !in u.Netloc() && '?' !in u.Netloc() && '#' !in u.Netloc()
      && '?' !in u.path && '#' !in u.path
      && (u.query.Some? ==> '#' !in u.query.value)
  {
    var scheme := SplitScheme(s);
    var authority := SplitAuthority(scheme.1);
    var fragment := SplitAt(authority.1, '#');
    var query := SplitAt(fragment.0, '?');
    if query.1.Some? {
      assert forall c :: c in query.1.value ==> c in fragment.0;
    }
    assert forall c :: c in query.0 ==> c in fragment.0;
  }

  lemma SplitAtParts(rest: string, c: char)
    ensures rest == SplitAt(rest, c).0 + Delimited([c], SplitAt(rest, c).1)
  {
  }

  lemma SplitAuthorityParts(rest: string)
    ensures rest == Delimited("//", SplitAuthority(rest).0) + SplitAuthority(rest).1
  {
  }

  lemma SplitSchemeParts(s: string)
    ensures var parts := SplitScheme(s);
      s == (if parts.0 == "" then "" else parts.0 + ":") + parts.1
  {
  }

  lemma Regroup(a: string, b: string, c: string, d: string, e: string)
    ensures a + b + c + d + e == a + (b + ((c + d) + e))
  {
  }

  /** Splitting loses nothing: reassembling the parts gives back the text. */
  lemma ParseRoundTrip(s: string)
    ensures Unparse(Parse(s)) == s
  {
    var scheme := SplitScheme(s);
    var authority := SplitAuthority(scheme.1);
    var fragment := SplitAt(authority.1, '#');
    var query := SplitAt(fragment.0, '?');
    var sc := if scheme.0 == "" then "" else scheme.0 + ":";
    var a := Delimited("//", authority.0);
    var q := Delimited("?", query.1);
    var f := Delimited("#", fragment.1);
    var whole := sc + a + query.0 + q + f;
    assert Unparse(Parse(s)) == whole;
    assert s == whole by {
      SplitAtParts(fragment.0, '?');
      SplitAtParts(authority.1, '#');
      SplitAuthorityParts(scheme.1);
      SplitSchemeParts(s);
      Regroup(sc, a, query.0, q, f);
    }
  }

  /** A netloc is present only when "//" stands at the very start of the text
      or right after the first ':'. */
  lemma AuthorityNeedsDoubleSlash(s: string)
    requires Parse(s).authority.Some?
    ensures exists j :: 0 <= j < |s| - 1 && s[j] == '/' && s[j + 1] == '/' && (j == 0 || s[j - 1] == ':')
  {
    var scheme := SplitScheme(s);
    assert scheme.1[0] == '/' && scheme.1[1] == '/';
    if scheme.0 == "" {
      assert s[0] == '/' && s[1] == '/';
    } else {
      var j := |scheme.0| + 1;
      assert s[j - 1] == ':' && s[j] == '/' && s[j + 1] == '/';
    }
  }

  /** The `uses_params` list of Python 3.12's urllib.parse: the schemes whose path may carry `;params`. */
  const UsesParams: seq<string> := ["", "ftp", "hdl", "prospero", "http", "imap", "https", "shttp",
                                    "rtsp", "rtsps", "rtspu", "sip", "sips", "mms", "sftp", "tel"]

  /** `_splitparams(path)`: the path is cut at the first ';' after its last
      '/' (at the first ';' when it has no '/'), and the rest is the params. */
  function SplitParams(path: string): (parts: (string, string))
    requires ';' in path
    ensures parts.0 <= path
    ensures parts.0 == path ==> parts.1 == ""
    ensures parts.0 != path ==> path[|parts.0|] == ';' && parts.1 == path[|parts.0| + 1..]
    ensures '/' !in path[|parts.0|..]
    ensures forall j :: 0 <= j < |parts.0| && path[j] == ';' ==> '/' in path[j..]
  {
    var slash := PosixPath.RFindSep(path);
    var from := if slash < 0 then 0 else slash;
    var k := from + IndexOfAny(path[from..], {';'});
    if k < |path| then
      assert forall j :: k <= j < |path| ==> path[j] != '/';
      assert forall j :: 0 <= j < k && path[j] == ';' ==> path[slash] == '/' && j < slash;
      assert forall j :: 0 <= j < k && path[j] == ';' ==> path[j..][slash - j] == '/';
      (path[..k], path[k + 1..])
    else
      assert forall j :: 0 <= j < |path| && path[j] == ';' ==> path[j..][slash - j] == '/';
      (path, "")
  }

  /** `urlparse(s).path`: urlsplit's path, less its `;params` when the
      lower-cased scheme is one that uses them. */
  function UrlparsePath(s: string): (path: string)
    ensures path <= Parse(s).path
    ensures AsciiCase.Lower(Parse(s).scheme) !in UsesParams || ';' !in Parse(s).path ==> path == Parse(s).path
    ensures AsciiCase.Lower(Parse(s).scheme) in UsesParams ==>
      var p := Parse(s).path;
      && (path != p ==> p[|path|] == ';')
      && '/' !in p[|path|..]
      && forall j :: 0 <= j < |path| && p[j] == ';' ==> '/' in p[j..]
  {
    var u := Parse(s);
    if AsciiCase.Lower(u.scheme) in UsesParams && ';' in u.path then SplitParams(u.path).0 else u.path
  }
}
