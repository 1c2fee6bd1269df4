/**
 * Which files count as HTML (`is_html`) and the list of HTML files gathered
 * from a directory walk (`get_html_files`). The walk itself is a parameter:
 * one entry per directory visited, with that directory's file names.
 */
module HtmlFiles {
  import PosixPath
  import opened AsciiCase

  /** `s.split('.')[-1]`: the text after the last '.', or all of `s` when it
      has no '.'. */
  function Extension(s: string): (ext: string)
    ensures '.' !in ext
    ensures |ext| <= |s| && ext == s[|s| - |ext|..]
    ensures ext == s || s[|s| - |ext| - 1] == '.'
  {
    if |s| == 0 then ""
    else if s[|s| - 1] == '.' then ""
    else
      var ext := Extension(s[..|s| - 1]) + [s[|s| - 1]];
      assert s[..|s| - 1][|s| - |ext|..] + [s[|s| - 1]] == s[|s| - |ext|..];
      ext
  }

  /** The extensions `is_html` accepts. */
  const HtmlExtensions: seq<string> := ["html", "xhtml", "htm"]

  /** `is_html(filename)`. */
  predicate IsHtml(filename: string)
  {
    Lower(Extension(filename)) in HtmlExtensions
  }

  /** Only the text after the last '.' decides. */
  lemma {:induction false} ExtensionAfterDot(a: string, b: string)
    ensures Extension(a + "." + b) == Extension(b)
    decreases |b|
  {
    var s := a + "." + b;
    if |b| == 0 {
      assert s[|s| - 1] == '.';
    } else {
      assert s[..|s| - 1] == a + "." + b[..|b| - 1];
      assert s[|s| - 1] == b[|b| - 1];
      ExtensionAfterDot(a, b[..|b| - 1]);
    }
  }

  /** is_html judges a name by the text after its last '.' alone. */
  lemma IsHtmlAfterDot(a: string, b: string)
    ensures IsHtml(a + "." + b) <==> IsHtml(b)
  {
    ExtensionAfterDot(a, b);
  }

  /** is_html holds exactly when the name has no '.' and lower-cases to an
      accepted extension, or its text after the last '.' does. */
  lemma IsHtmlIff(name: string)
    ensures IsHtml(name) <==>
      || ('.' !in name && Lower(name) in HtmlExtensions)
      || (exists i :: 0 <= i < |name| && name[i] == '.' && '.' !in name[i + 1..] && Lower(name[i + 1..]) in HtmlExtensions)
  {
    var ext := Extension(name);
    if '.' in name {
      assert ext != name;
      var i := |name| - |ext| - 1;
      assert name[i + 1..] == ext;
    }
  }

  /** A name without '.' is its own extension. */
  lemma ExtensionNoDot(s: string)
    requires '.' !in s
    ensures Extension(s) == s
  {
  }

  /** A name without '.' is judged whole, so "HTML" passes. */
  lemma IsHtmlWholeName()
    ensures IsHtml("HTML")
  {
    assert '.' !in "HTML";
    ExtensionNoDot("HTML");
    var l := Lower("HTML");
    assert l == "html" by {
      assert l[0] == 'h' && l[1] == 't' && l[2] == 'm' && l[3] == 'l';
    }
    assert l in HtmlExtensions;
  }

  /** One directory visited by `os.walk`: its path and its file names. */
  datatype WalkEntry = WalkEntry(dirpath: string, filenames: seq<string>)

  /** `[f for f in filenames if is_html(f)]`. */
  function FilterHtml(names: seq<string>): (r: seq<string>)
    ensures forall f :: f in r <==> f in names && IsHtml(f)
    ensures |r| <= |names|
  {
    if |names| == 0 then []
    else
      var rest := FilterHtml(names[1..]);
      assert names == [names[0]] + names[1..];
      if IsHtml(names[0]) then [names[0]] + rest else rest
  }

  /** `[posixpath.join(dirpath, f) for f in names]`. */
  function Absify(dirpath: string, names: seq<string>): seq<string>
  {
    seq(|names|, i requires 0 <= i < |names| => PosixPath.Join(dirpath, names[i]))
  }

  /** Each joined name is the name itself when it is absolute, and otherwise
      the directory's components followed by the name's. */
  lemma AbsifySegments(dirpath: string, names: seq<string>, i: nat)
    requires i < |names|
    ensures |Absify(dirpath, names)| == |names|
    ensures PosixPath.IsAbs(names[i]) ==> Absify(dirpath, names)[i] == names[i]
    ensures !PosixPath.IsAbs(names[i]) ==>
      PosixPath.Segments(Absify(dirpath, names)[i]) == PosixPath.Segments(dirpath) + PosixPath.Segments(names[i])
  {
    if !PosixPath.IsAbs(names[i]) {
      PosixPath.JoinSegments(dirpath, names[i]);
    }
  }

  /** The joined HTML names of one directory entry. */
  function EntryFiles(e: WalkEntry): seq<string>
  {
    Absify(e.dirpath, FilterHtml(e.filenames))
  }

  /** The lists `files(e)` of the entries, concatenated in walk order. */
  function Gathered(walk: seq<WalkEntry>, files: WalkEntry -> seq<string>): seq<string>
  {
    if |walk| == 0 then []
    else Gathered(walk[..|walk| - 1], files) + files(walk[|walk| - 1])
  }

  /** The list `get_html_files` builds, directory by directory in walk order. */
  function HtmlFilesOf(walk: seq<WalkEntry>): seq<string>
  {
    Gathered(walk, EntryFiles)
  }

  /** `get_html_files(root)`, given the directories `os.walk(root)` visits. */
  method GetHtmlFiles(walk: seq<WalkEntry>) returns (htmlFiles: seq<string>)
    ensures htmlFiles == HtmlFilesOf(walk)
  {
    htmlFiles := [];
    for k := 0 to |walk|
      invariant htmlFiles == HtmlFilesOf(walk[..k])
    {
      assert walk[..k + 1][..k] == walk[..k];
      var filenames := FilterHtml(walk[k].filenames);
      filenames := Absify(walk[k].dirpath, filenames);
      htmlFiles := htmlFiles + filenames;
      assert filenames == EntryFiles(walk[k]);
    }
    assert walk[..|walk|] == walk;
  }

  /** `x` is one of the HTML files of directory entry `e`. */
  ghost predicate ListedBy(e: WalkEntry, x: string)
  {
    exists f :: f in e.filenames && IsHtml(f) && x == PosixPath.Join(e.dirpath, f)
  }

  /** A joined name of an entry's HTML list is listed by the entry. */
  lemma EntryListed(e: WalkEntry, x: string)
    requires x in Absify(e.dirpath, FilterHtml(e.filenames))
    ensures ListedBy(e, x)
  {
    var names := FilterHtml(e.filenames);
    var here := Absify(e.dirpath, names);
    var i :| 0 <= i < |here| && here[i] == x;
    var f := names[i];
    assert f in names;
    assert f in e.filenames && IsHtml(f) && x == PosixPath.Join(e.dirpath, f);
  }

  /** What an entry lists is in its joined HTML list. */
  lemma ListedEntry(e: WalkEntry, x: string)
    requires ListedBy(e, x)
    ensures x in Absify(e.dirpath, FilterHtml(e.filenames))
  {
    var names := FilterHtml(e.filenames);
    var f :| f in e.filenames && IsHtml(f) && x == PosixPath.Join(e.dirpath, f);
    assert f in names;
    var i :| 0 <= i < |names| && names[i] == f;
    assert Absify(e.dirpath, names)[i] == x;
  }

  lemma EntryMembers(e: WalkEntry, x: string)
    ensures x in Absify(e.dirpath, FilterHtml(e.filenames)) <==> ListedBy(e, x)
  {
    if x in Absify(e.dirpath, FilterHtml(e.filenames)) {
      EntryListed(e, x);
    }
    if ListedBy(e, x) {
      ListedEntry(e, x);
    }
  }

  /** Some visited directory lists `x`. */
  ghost predicate ListedIn(walk: seq<WalkEntry>, x: string)
  {
    exists k :: 0 <= k < |walk| && ListedBy(walk[k], x)
  }

  /** `x` is in the list `files(e)` of some visited entry `e`. */
  ghost predicate InSomeEntry(walk: seq<WalkEntry>, files: WalkEntry -> seq<string>, x: string)
  {
    exists k :: 0 <= k < |walk| && x in files(walk[k])
  }

  /** The concatenation holds what the entries' own lists hold. */
  lemma {:induction false} GatheredMembers(walk: seq<WalkEntry>, files: WalkEntry -> seq<string>, x: string)
    ensures x in Gathered(walk, files) <==> InSomeEntry(walk, files, x)
    decreases |walk|
  {
    if |walk| > 0 {
      var n := |walk| - 1;
      var init := walk[..n];
      GatheredMembers(init, files, x);
      if InSomeEntry(walk, files, x) {
        var k :| 0 <= k < |walk| && x in files(walk[k]);
        if k < n {
          assert init[k] == walk[k];
        }
      }
      if InSomeEntry(init, files, x) {
        var k :| 0 <= k < n && x in files(init[k]);
        assert walk[k] == init[k];
      }
    }
  }

  /** Being in some directory's list is being listed by some directory. */
  lemma InSomeEntryListed(walk: seq<WalkEntry>, x: string)
    ensures InSomeEntry(walk, EntryFiles, x) <==> ListedIn(walk, x)
  {
    if InSomeEntry(walk, EntryFiles, x) {
      var k :| 0 <= k < |walk| && x in EntryFiles(walk[k]);
      EntryListed(walk[k], x);
    }
    if ListedIn(walk, x) {
      var k :| 0 <= k < |walk| && ListedBy(walk[k], x);
      ListedEntry(walk[k], x);
    }
  }

  /** A path is listed exactly when it joins a visited directory with one of
      that directory's file names that is_html accepts. */
  lemma HtmlFilesOfMembers(walk: seq<WalkEntry>, x: string)
    ensures x in HtmlFilesOf(walk) <==> ListedIn(walk, x)
  {
    GatheredMembers(walk, EntryFiles, x);
    InSomeEntryListed(walk, x);
  }
}
