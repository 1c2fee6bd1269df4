/**
 * The part of Python's `posixpath` that the relativizer relies on, over
 * '/'-separated strings: `str.split('/')`, `'/'.join`, `join`, `dirname`,
 * `normpath`, `abspath` (for absolute arguments), `relpath` and
 * `str.lstrip('/')` / `str.rstrip('/')`.
 */
module PosixPath {
  const Sep: char := '/'

  // ---------------------------------------------------------------------
  // Splitting and joining on the separator
  // ---------------------------------------------------------------------

  /** `s.split('/')`: the pieces between separators, empty pieces kept. */
  function Split(s: string): (parts: seq<string>)
    ensures |parts| >= 1
    ensures forall i :: 0 <= i < |parts| ==> Sep !in parts[i]
  {
    if |s| == 0 then [""]
    else
      var rest := Split(s[1..]);
      if s[0] == Sep then [""] + rest
      else [[s[0]] + rest[0]] + rest[1..]
  }

  /** `'/'.join(parts)`. */
  function JoinWith(parts: seq<string>): string
  {
    if |parts| == 0 then ""
    else if |parts| == 1 then parts[0]
    else JoinWith(parts[..|parts| - 1]) + [Sep] + parts[|parts| - 1]
  }

  /** Splitting at a separator splits both sides independently. */
  lemma {:induction false} SplitAround(a: string, b: string)
    ensures Split(a + [Sep] + b) == Split(a) + Split(b)
    decreases |a|
  {
    if |a| == 0 {
      assert a + [Sep] + b == [Sep] + b;
      assert ([Sep] + b)[1..] == b;
    } else {
      assert (a + [Sep] + b)[1..] == a[1..] + [Sep] + b;
      SplitAround(a[1..], b);
    }
  }

  /** A string without separators is a single piece. */
  lemma {:induction false} SplitNoSep(a: string)
    requires Sep !in a
    ensures Split(a) == [a]
    decreases |a|
  {
    if |a| > 0 {
      SplitNoSep(a[1..]);
      assert [a[0]] + a[1..] == a;
    }
  }

  /** Splitting undoes joining, when no piece holds a separator. */
  lemma {:induction false} SplitJoinWith(parts: seq<string>)
    requires |parts| > 0
    requires forall i :: 0 <= i < |parts| ==> Sep !in parts[i]
    ensures Split(JoinWith(parts)) == parts
    decreases |parts|
  {
    var last := parts[|parts| - 1];
    SplitNoSep(last);
    if |parts| > 1 {
      var init := parts[..|parts| - 1];
      SplitJoinWith(init);
      SplitAround(JoinWith(init), last);
      assert init + [last] == parts;
    }
  }

  /** `[x for x in parts if x]`. */
  function NonEmpty(parts: seq<string>): (r: seq<string>)
    ensures |r| <= |parts|
    ensures forall i :: 0 <= i < |r| ==> r[i] != "" && r[i] in parts
  {
    if |parts| == 0 then []
    else if parts[0] == "" then NonEmpty(parts[1..])
    else [parts[0]] + NonEmpty(parts[1..])
  }

  lemma {:induction false} NonEmptyAppend(a: seq<string>, b: seq<string>)
    ensures NonEmpty(a + b) == NonEmpty(a) + NonEmpty(b)
    decreases |a|
  {
    if |a| > 0 {
      assert (a + b)[1..] == a[1..] + b;
      NonEmptyAppend(a[1..], b);
    } else {
      assert a + b == b;
    }
  }

  lemma {:induction false} NonEmptyAll(a: seq<string>)
    requires forall i :: 0 <= i < |a| ==> a[i] != ""
    ensures NonEmpty(a) == a
    decreases |a|
  {
    if |a| > 0 {
      NonEmptyAll(a[1..]);
    }
  }

  /** The non-empty components of a path, as relpath lists them. */
  function Segments(p: string): (segs: seq<string>)
    ensures forall i :: 0 <= i < |segs| ==> segs[i] != "" && Sep !in segs[i]
  {
    NonEmpty(Split(p))
  }

  /** `n` separators in a row. */
  function Seps(n: nat): (s: string)
    ensures |s| == n && forall j :: 0 <= j < n ==> s[j] == Sep
  {
    seq(n, _ => Sep)
  }

  /** A run of separators has no components. */
  lemma {:induction false} SegmentsOfSeps(n: nat)
    ensures NonEmpty(Split(Seps(n))) == []
    decreases n
  {
    if n > 0 {
      assert Seps(n) == [] + [Sep] + Seps(n - 1);
      SplitAround([], Seps(n - 1));
      SegmentsOfSeps(n - 1);
      NonEmptyAppend(Split([]), Split(Seps(n - 1)));
    }
  }

  // ---------------------------------------------------------------------
  // Leading separators
  // ---------------------------------------------------------------------

  predicate IsAbs(p: string)
  {
    |p| > 0 && p[0] == Sep
  }

  /** Number of separators at the start of `s`. */
  function LeadingSeps(s: string): (n: nat)
    ensures n <= |s|
    ensures forall j :: 0 <= j < n ==> s[j] == Sep
    ensures n < |s| ==> s[n] != Sep
  {
    if |s| > 0 && s[0] == Sep then 1 + LeadingSeps(s[1..]) else 0
  }

  /** The two conditions of LeadingSeps' contract determine it. */
  lemma LeadingSepsUnique(s: string, n: nat)
    requires n <= |s|
    requires forall j :: 0 <= j < n ==> s[j] == Sep
    requires n < |s| ==> s[n] != Sep
    ensures LeadingSeps(s) == n
  {
  }

  /** A prefix that keeps the whole leading run has the same leading run. */
  lemma LeadingSepsPrefix(p: string, q: string)
    requires q <= p && |q| >= LeadingSeps(p)
    ensures LeadingSeps(q) == LeadingSeps(p)
  {
    var n := LeadingSeps(p);
    assert forall j :: 0 <= j < n ==> q[j] == p[j];
    LeadingSepsUnique(q, n);
  }

  /** Appending keeps the leading run unless it would extend it. */
  lemma LeadingSepsAppend(a: string, b: string)
    requires LeadingSeps(a) < |a| || b == [] || b[0] != Sep
    ensures LeadingSeps(a + b) == LeadingSeps(a)
  {
    var n := LeadingSeps(a);
    assert forall j :: 0 <= j < n ==> (a + b)[j] == a[j];
    LeadingSepsUnique(a + b, n);
  }

  /** normpath's `initial_slashes`: two for exactly two leading separators
      (POSIX leaves their meaning to the system), otherwise one for any. */
  function InitialSlashes(p: string): nat
  {
    if |p| >= 2 && p[0] == Sep && p[1] == Sep && !(|p| >= 3 && p[2] == Sep) then 2
    else if |p| >= 1 && p[0] == Sep then 1
    else 0
  }

  lemma InitialSlashesByLeading(p: string)
    ensures InitialSlashes(p) == (var n := LeadingSeps(p); if n == 2 then 2 else if n >= 1 then 1 else 0)
  {
    var n := LeadingSeps(p);
    if n >= 3 {
      assert p[2] == Sep;
    }
  }

  /** `s.lstrip('/')`: every leading separator removed. */
  function LStripSeps(s: string): (r: string)
    ensures |r| <= |s| && r == s[|s| - |r|..]
    ensures forall j :: 0 <= j < |s| - |r| ==> s[j] == Sep
    ensures !IsAbs(r)
  {
    if |s| > 0 && s[0] == Sep then LStripSeps(s[1..]) else s
  }

  /** `s.rstrip('/')`: every trailing separator removed. */
  function RStripSeps(s: string): (r: string)
    ensures r <= s
    ensures r == [] || r[|r| - 1] != Sep
    ensures forall j :: |r| <= j < |s| ==> s[j] == Sep
  {
    if |s| > 0 && s[|s| - 1] == Sep then RStripSeps(s[..|s| - 1]) else s
  }

  /** Stripping trailing separators drops only empty pieces. */
  lemma SegmentsRStrip(s: string)
    ensures Segments(RStripSeps(s)) == Segments(s)
  {
    var r := RStripSeps(s);
    if |r| < |s| {
      var tail := s[|r| + 1..];
      assert tail == Seps(|s| - |r| - 1);
      assert s == r + [Sep] + tail;
      SplitAround(r, tail);
      SegmentsOfSeps(|tail|);
      NonEmptyAppend(Split(r), Split(tail));
    } else {
      assert r == s;
    }
  }

  // ---------------------------------------------------------------------
  // join and dirname
  // ---------------------------------------------------------------------

  /** `posixpath.join(a, b)`. */
  function Join(a: string, b: string): string
  {
    if |b| > 0 && b[0] == Sep then b
    else if a == "" || a[|a| - 1] == Sep then a + b
    else a + [Sep] + b
  }

  /** The components on both sides of a separator. */
  lemma SegmentsAround(a: string, b: string)
    ensures Segments(a + [Sep] + b) == Segments(a) + Segments(b)
  {
    SplitAround(a, b);
    NonEmptyAppend(Split(a), Split(b));
  }

  /** Joining a relative path appends its components. */
  lemma JoinSegments(a: string, b: string)
    requires !IsAbs(b)
    ensures Segments(Join(a, b)) == Segments(a) + Segments(b)
  {
    if a == "" {
      assert Join(a, b) == b;
      assert Segments(a) == [];
    } else if a[|a| - 1] == Sep {
      var a' := a[..|a| - 1];
      assert a == a' + [Sep] + "";
      assert Join(a, b) == a' + [Sep] + b;
      SegmentsAround(a', "");
      SegmentsAround(a', b);
      assert Segments("") == [];
    } else {
      SegmentsAround(a, b);
    }
  }

  /** Joining a relative path onto a non-empty one keeps its leading run. */
  lemma JoinLeadingSeps(a: string, b: string)
    requires a != "" && !IsAbs(b)
    ensures a <= Join(a, b)
    ensures LeadingSeps(Join(a, b)) == LeadingSeps(a)
  {
    if a[|a| - 1] == Sep {
      LeadingSepsAppend(a, b);
    } else {
      assert a + [Sep] + b == a + ([Sep] + b);
      LeadingSepsAppend(a, [Sep] + b);
    }
  }

  /** `p.rfind('/')`: the index of the last separator, -1 if none. */
  function RFindSep(p: string): (i: int)
    ensures -1 <= i < |p|
    ensures i >= 0 ==> p[i] == Sep
    ensures forall j :: i < j < |p| ==> p[j] != Sep
  {
    if |p| == 0 then -1
    else if p[|p| - 1] == Sep then |p| - 1
    else RFindSep(p[..|p| - 1])
  }

  /** `posixpath.dirname(p)`: everything up to the last separator, with
      trailing separators removed unless that would leave nothing but them. */
  function Dirname(p: string): string
  {
    var head := p[..RFindSep(p) + 1];
    if head != "" && head != Seps(|head|) then RStripSeps(head) else head
  }

  /** A text is the part before index `i`, the separator there, and the rest. */
  lemma CutAt(p: string, i: int)
    requires 0 <= i < |p| && p[i] == Sep
    ensures p == p[..i] + [Sep] + p[i + 1..]
    ensures p[..i + 1] == p[..i] + [Sep] + ""
  {
    assert p[i..] == [Sep] + p[i + 1..];
    assert p == p[..i] + p[i..];
  }

  /** dirname keeps the components of the text up to the last separator. */
  lemma DirnameHead(p: string)
    ensures Segments(Dirname(p)) == Segments(p[..RFindSep(p) + 1])
  {
    SegmentsRStrip(p[..RFindSep(p) + 1]);
  }

  /** dirname drops the last piece of the path, and nothing else. */
  lemma DirnameSegments(p: string)
    ensures var parts := Split(p); Segments(Dirname(p)) == NonEmpty(parts[..|parts| - 1])
  {
    var i := RFindSep(p);
    var tail := p[i + 1..];
    assert Sep !in tail;
    SplitNoSep(tail);
    DirnameHead(p);
    if i < 0 {
      assert tail == p;
      assert p[..i + 1] == "";
    } else {
      var h' := p[..i];
      var head := p[..i + 1];
      CutAt(p, i);
      SplitAround(h', tail);
      var parts := Split(p);
      assert parts == Split(h') + [tail];
      assert parts[..|parts| - 1] == Split(h');
      SegmentsAround(h', "");
      assert Segments("") == [];
      assert Segments(head) == Segments(h') + [];
      assert Segments(head) == Segments(h');
    }
  }

  /** A run of separators only is exactly `Seps` of its length. */
  lemma AllSeps(s: string)
    requires LeadingSeps(s) == |s|
    ensures s == Seps(|s|)
  {
  }

  /** dirname of an absolute path is absolute with the same leading run. */
  lemma DirnameAbs(p: string)
    requires IsAbs(p)
    ensures IsAbs(Dirname(p))
    ensures LeadingSeps(Dirname(p)) == LeadingSeps(p)
  {
    var n := LeadingSeps(p);
    var i := RFindSep(p);
    assert p[n - 1] == Sep;
    var head := p[..i + 1];
    LeadingSepsPrefix(p, head);
    if head != Seps(|head|) {
      if LeadingSeps(head) == |head| {
        AllSeps(head);
      }
      var r := RStripSeps(head);
      assert head[n] != Sep;
      assert n < |r|;
      LeadingSepsPrefix(head, r);
    }
  }

  // ---------------------------------------------------------------------
  // normpath
  // ---------------------------------------------------------------------

  /** One step of normpath's component loop; `rooted` is `initial_slashes != 0`.
      Empty and "." components vanish, ".." pops a component, except that an
      unrooted path keeps ".." it cannot pop. */
  function NormStep(rooted: bool, stack: seq<string>, comp: string): seq<string>
  {
    if comp == "" || comp == "." then stack
    else if comp != ".." || (!rooted && stack == []) || (stack != [] && stack[|stack| - 1] == "..") then stack + [comp]
    else if stack != [] then stack[..|stack| - 1]
    else stack
  }

  /** normpath's loop over all components, left to right. */
  function NormFold(rooted: bool, stack: seq<string>, comps: seq<string>): seq<string>
    decreases |comps|
  {
    if |comps| == 0 then stack
    else NormFold(rooted, NormStep(rooted, stack, comps[0]), comps[1..])
  }

  lemma {:induction false} NormFoldAppend(rooted: bool, stack: seq<string>, a: seq<string>, b: seq<string>)
    ensures NormFold(rooted, stack, a + b) == NormFold(rooted, NormFold(rooted, stack, a), b)
    decreases |a|
  {
    if |a| == 0 {
      assert a + b == b;
    } else {
      assert (a + b)[1..] == a[1..] + b;
      NormFoldAppend(rooted, NormStep(rooted, stack, a[0]), a[1..], b);
    }
  }

  /** `posixpath.normpath(p)`. */
  function Normpath(p: string): string
  {
    if p == "" then "."
    else
      var k := InitialSlashes(p);
      var s := Seps(k) + JoinWith(NormFold(k != 0, [], Split(p)));
      if s == "" then "." else s
  }

  /** `posixpath.abspath(p)` for an absolute `p`; a relative one would be
      joined onto the working directory first. */
  function Abspath(p: string): string
    requires IsAbs(p)
  {
    Normpath(p)
  }

  /** A component that survives normalisation of a rooted path. */
  predicate Normal(c: string)
  {
    c != "" && c != "." && c != ".." && Sep !in c
  }

  /** Every element of the stack is Normal. */
  predicate AllNormal(stack: seq<string>)
  {
    forall i :: 0 <= i < |stack| ==> Normal(stack[i])
  }

  /** The components normpath keeps for an absolute path. */
  function AbsComponents(p: string): seq<string>
  {
    NormFold(true, [], Split(p))
  }

  lemma {:induction false} NormFoldNormal(stack: seq<string>, comps: seq<string>)
    requires AllNormal(stack)
    requires forall i :: 0 <= i < |comps| ==> Sep !in comps[i]
    ensures AllNormal(NormFold(true, stack, comps))
    decreases |comps|
  {
    if |comps| > 0 {
      var c := comps[0];
      assert Sep !in c;
      var next := NormStep(true, stack, c);
      assert AllNormal(next) by {
        if c == "" || c == "." {
        } else if c != ".." {
          assert next == stack + [c];
        } else if stack != [] {
          assert next == stack[..|stack| - 1];
        }
      }
      NormFoldNormal(next, comps[1..]);
    }
  }

  /** Every component normpath keeps for an absolute path is Normal. */
  lemma AbsComponentsNormal(p: string)
    ensures AllNormal(AbsComponents(p))
  {
    NormFoldNormal([], Split(p));
  }

  /** normpath of an absolute path: its leading separators, then its kept
      components joined. */
  lemma NormpathAbs(p: string)
    requires IsAbs(p)
    ensures InitialSlashes(p) >= 1
    ensures Normpath(p) == Seps(InitialSlashes(p)) + JoinWith(AbsComponents(p))
  {
  }

  /** The components of normpath(p) for an absolute `p` are the ones kept. */
  lemma SegmentsNormpath(p: string)
    requires IsAbs(p)
    ensures Segments(Normpath(p)) == AbsComponents(p)
  {
    var k := InitialSlashes(p);
    var comps := AbsComponents(p);
    AbsComponentsNormal(p);
    var j := JoinWith(comps);
    assert Normpath(p) == Seps(k - 1) + [Sep] + j;
    SplitAround(Seps(k - 1), j);
    SegmentsOfSeps(k - 1);
    NonEmptyAppend(Split(Seps(k - 1)), Split(j));
    if |comps| == 0 {
      assert j == "";
    } else {
      SplitJoinWith(comps);
      NonEmptyAll(comps);
    }
  }

  /** Normalising the join of a relative path folds its components onto
      those of the base. */
  lemma NormFoldJoin(rooted: bool, stack: seq<string>, a: string, b: string)
    requires !IsAbs(b)
    ensures NormFold(rooted, stack, Split(Join(a, b))) == NormFold(rooted, NormFold(rooted, stack, Split(a)), Split(b))
  {
    if a == "" {
      assert Join(a, b) == b;
    } else if a[|a| - 1] == Sep {
      var a' := a[..|a| - 1];
      assert a == a' + [Sep] + "";
      assert Join(a, b) == a' + [Sep] + b;
      SplitAround(a', "");
      SplitAround(a', b);
      NormFoldAppend(rooted, stack, Split(a'), [""]);
      NormFoldAppend(rooted, stack, Split(a'), Split(b));
    } else {
      SplitAround(a, b);
      NormFoldAppend(rooted, stack, Split(a), Split(b));
    }
  }

  // ---------------------------------------------------------------------
  // relpath
  // ---------------------------------------------------------------------

  /** Length of the longest common prefix of two component lists
      (`len(commonprefix([a, b]))`). */
  function CommonPrefixLen(a: seq<string>, b: seq<string>): (n: nat)
    ensures n <= |a| && n <= |b|
    ensures a[..n] == b[..n]
    ensures n < |a| && n < |b| ==> a[n] != b[n]
  {
    if |a| == 0 || |b| == 0 || a[0] != b[0] then 0
    else
      var n := 1 + CommonPrefixLen(a[1..], b[1..]);
      assert a[..n] == [a[0]] + a[1..][..n - 1];
      assert b[..n] == [b[0]] + b[1..][..n - 1];
      n
  }

  /** `[pardir] * k`. */
  function Ups(k: nat): (r: seq<string>)
    ensures |r| == k && forall i :: 0 <= i < k ==> r[i] == ".."
  {
    seq(k, _ => "..")
  }

  /** `posixpath.join(*parts)`: join folded from left to right. */
  function JoinAll(parts: seq<string>): string
    requires |parts| > 0
  {
    if |parts| == 1 then parts[0]
    else Join(JoinAll(parts[..|parts| - 1]), parts[|parts| - 1])
  }

  /** relpath's `rel_list`. */
  function RelParts(path: string, start: string): seq<string>
    requires IsAbs(path) && IsAbs(start)
  {
    var startList := Segments(Abspath(start));
    var pathList := Segments(Abspath(path));
    var i := CommonPrefixLen(startList, pathList);
    Ups(|startList| - i) + pathList[i..]
  }

  /** `posixpath.relpath(path, start)` for absolute arguments. */
  function Relpath(path: string, start: string): string
    requires IsAbs(path) && IsAbs(start)
  {
    var rel := RelParts(path, start);
    if rel == [] then "." else JoinAll(rel)
  }

  /** Pieces that are non-empty and free of separators. */
  predicate Pieces(parts: seq<string>)
  {
    forall i :: 0 <= i < |parts| ==> parts[i] != "" && Sep !in parts[i]
  }

  /** No two separators next to each other. */
  predicate NoAdjacentSeps(s: string)
  {
    forall j :: 0 <= j < |s| - 1 ==> s[j] != Sep || s[j + 1] != Sep
  }

  /** Joining pieces gives a non-empty string that neither starts nor ends
      with a separator and has no empty piece inside; join(*parts) is the
      same as '/'.join(parts). */
  lemma {:induction false} JoinWithPieces(parts: seq<string>)
    requires |parts| > 0 && Pieces(parts)
    ensures var s := JoinWith(parts);
      && |s| > 0 && s[0] != Sep && s[|s| - 1] != Sep && NoAdjacentSeps(s)
      && s[0] == parts[0][0]
    ensures JoinAll(parts) == JoinWith(parts)
    decreases |parts|
  {
    var last := parts[|parts| - 1];
    assert last[0] != Sep && last[|last| - 1] != Sep by {
      assert last[0] in last && last[|last| - 1] in last;
    }
    if |parts| == 1 {
      forall j | 0 <= j < |last| - 1 ensures last[j] != Sep {
        assert last[j] in last;
      }
    } else {
      var init := parts[..|parts| - 1];
      JoinWithPieces(init);
      var u := JoinWith(init);
      var s := u + [Sep] + last;
      assert JoinWith(parts) == s;
      forall j | 0 <= j < |s| - 1 ensures s[j] != Sep || s[j + 1] != Sep {
        if j < |u| - 1 {
          assert s[j] == u[j] && s[j + 1] == u[j + 1];
        } else if j == |u| - 1 {
          assert s[j] == u[|u| - 1];
        } else if j == |u| {
          assert s[j + 1] == last[0];
        } else {
          assert s[j] == last[j - |u| - 1];
          assert last[j - |u| - 1] in last;
        }
      }
      assert s[0] == u[0];
      assert s[|s| - 1] == last[|last| - 1];
    }
  }

  /** relpath's component list in terms of the components normpath keeps. */
  lemma RelPartsComponents(path: string, start: string)
    requires IsAbs(path) && IsAbs(start)
    ensures var a := AbsComponents(path);
      var b := AbsComponents(start);
      RelParts(path, start) == Ups(|b| - CommonPrefixLen(b, a)) + a[CommonPrefixLen(b, a)..]
    ensures Pieces(RelParts(path, start))
    ensures forall k :: 0 <= k < |RelParts(path, start)| ==> RelParts(path, start)[k] != "."
  {
    var a := AbsComponents(path);
    var b := AbsComponents(start);
    assert Segments(Abspath(path)) == a by {
      SegmentsNormpath(path);
    }
    assert Segments(Abspath(start)) == b by {
      SegmentsNormpath(start);
    }
    AbsComponentsNormal(path);
    var i := CommonPrefixLen(b, a);
    assert RelParts(path, start) == Ups(|b| - i) + a[i..];
    UpsThenNormal(|b| - i, a, i);
  }

  /** ".." components followed by Normal ones are pieces, none of them ".". */
  lemma UpsThenNormal(k: nat, a: seq<string>, i: nat)
    requires AllNormal(a) && i <= |a|
    ensures var rel := Ups(k) + a[i..];
      Pieces(rel) && forall j :: 0 <= j < |rel| ==> rel[j] != "."
  {
    var rel := Ups(k) + a[i..];
    forall j | 0 <= j < |rel| ensures Normal(rel[j]) || rel[j] == ".." {
      if j >= k {
        assert rel[j] == a[i + j - k];
      }
    }
  }

  /** Shape of relpath: "." exactly when both paths have the same components,
      otherwise its pieces are one ".." per start component beyond the longest
      common prefix, then the path's components after that prefix. */
  lemma RelpathShape(path: string, start: string)
    requires IsAbs(path) && IsAbs(start)
    ensures var r := Relpath(path, start);
      var a := AbsComponents(path);
      var b := AbsComponents(start);
      var i := CommonPrefixLen(b, a);
      && r != "" && !IsAbs(r) && NoAdjacentSeps(r)
      && (r == "." <==> a == b)
      && (r != "." ==> Split(r) == Ups(|b| - i) + a[i..])
  {
    var a := AbsComponents(path);
    var b := AbsComponents(start);
    var i := CommonPrefixLen(b, a);
    RelPartsComponents(path, start);
    var rel := RelParts(path, start);
    assert |rel| == |b| - i + |a| - i;
    if rel == [] {
      assert a == a[..i] == b[..i] == b;
    } else {
      JoinWithPieces(rel);
      SplitJoinWith(rel);
      SplitNoSep(".");
      assert rel[0] != ".";
    }
  }

  /** Popping with ".." components in a rooted stack of Normal components. */
  lemma {:induction false} NormFoldUps(stack: seq<string>, k: nat)
    requires k <= |stack|
    requires AllNormal(stack)
    ensures NormFold(true, stack, Ups(k)) == stack[..|stack| - k]
    decreases k
  {
    if k > 0 {
      var popped := stack[..|stack| - 1];
      assert NormStep(true, stack, "..") == popped;
      assert Ups(k)[1..] == Ups(k - 1);
      NormFoldUps(popped, k - 1);
      assert popped[..|popped| - (k - 1)] == stack[..|stack| - k];
    }
  }

  /** Normal components are pushed one by one. */
  lemma {:induction false} NormFoldPush(rooted: bool, stack: seq<string>, comps: seq<string>)
    requires AllNormal(comps)
    ensures NormFold(rooted, stack, comps) == stack + comps
    decreases |comps|
  {
    if |comps| > 0 {
      NormFoldPush(rooted, stack + [comps[0]], comps[1..]);
      assert stack + [comps[0]] + comps[1..] == stack + comps;
    }
  }

  /** Joining relpath's result back onto the start directory gives a path
      with the same normalised components as the target. */
  lemma RelpathRoundTripComponents(path: string, start: string)
    requires IsAbs(path) && IsAbs(start)
    ensures AbsComponents(Join(start, Relpath(path, start))) == AbsComponents(path)
  {
    var a := AbsComponents(path);
    var b := AbsComponents(start);
    AbsComponentsNormal(path);
    AbsComponentsNormal(start);
    var i := CommonPrefixLen(b, a);
    var r := Relpath(path, start);
    RelpathShape(path, start);
    NormFoldJoin(true, [], start, r);
    assert AbsComponents(Join(start, r)) == NormFold(true, b, Split(r));
    if r == "." {
      SplitNoSep(r);
      assert NormFold(true, b, Split(r)) == b;
    } else {
      FoldRelParts(a, b, i);
    }
  }

  /** Climbing out of `b` with ".." components down to its first `i`. */
  lemma ClimbTo(b: seq<string>, i: nat)
    requires AllNormal(b) && i <= |b|
    ensures NormFold(true, b, Ups(|b| - i)) == b[..i]
  {
    NormFoldUps(b, |b| - i);
  }

  /** Pushing the rest of `a` onto its first `i` components gives `a`. */
  lemma DescendInto(a: seq<string>, i: nat)
    requires AllNormal(a) && i <= |a|
    ensures NormFold(true, a[..i], a[i..]) == a
  {
    var rest := a[i..];
    assert AllNormal(rest) by {
      forall j | 0 <= j < |rest| ensures Normal(rest[j]) {
        assert rest[j] == a[i + j];
      }
    }
    NormFoldPush(true, a[..i], rest);
    assert a[..i] + rest == a;
  }

  /** Climbing out of `b` to the common prefix and descending into `a`
      arrives at `a`. */
  lemma FoldRelParts(a: seq<string>, b: seq<string>, i: nat)
    requires AllNormal(a) && AllNormal(b)
    requires i <= |a| && i <= |b| && a[..i] == b[..i]
    ensures NormFold(true, b, Ups(|b| - i) + a[i..]) == a
  {
    NormFoldAppend(true, b, Ups(|b| - i), a[i..]);
    ClimbTo(b, i);
    DescendInto(a, i);
  }

  /** Round trip of relpath: joining the relative path back onto the start
      directory and normalising gives the normalised target. The paths must
      agree on normpath's count of initial slashes (both "//" or both not). */
  lemma RelpathRoundTrip(path: string, start: string)
    requires IsAbs(path) && IsAbs(start)
    requires InitialSlashes(path) == InitialSlashes(start)
    ensures Normpath(Join(start, Relpath(path, start))) == Normpath(path)
  {
    var r := Relpath(path, start);
    RelpathShape(path, start);
    var j := Join(start, r);
    RelpathRoundTripComponents(path, start);
    JoinLeadingSeps(start, r);
    InitialSlashesByLeading(j);
    InitialSlashesByLeading(start);
    assert IsAbs(j);
    NormpathAbs(j);
    NormpathAbs(path);
  }
}
