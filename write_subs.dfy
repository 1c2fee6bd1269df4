/**
 * The text half of `write_subs`: for each planned pair (old, new), in order,
 * `html = html.replace(old, new, 1)`. Writing the result to the file and
 * the confirmation print are not part of this model.
 */
module WriteSubs {
  /** `sub` occurs in `s` starting at index `j`. */
  predicate OccursAt(s: string, sub: string, j: int)
  {
    0 <= j && j + |sub| <= |s| && s[j..j + |sub|] == sub
  }

  /** `s.find(sub, from)` for `0 <= from <= |s|`: the first index from `from`
      on where `sub` occurs, or -1 when there is none. */
  function FindFrom(s: string, sub: string, from: nat): (i: int)
    requires from <= |s|
    ensures i == -1 || (from <= i && OccursAt(s, sub, i))
    ensures forall j :: from <= j < (if i == -1 then |s| + 1 else i) ==> !OccursAt(s, sub, j)
    decreases |s| - from
  {
    if OccursAt(s, sub, from) then from
    else if from == |s| then -1
    else FindFrom(s, sub, from + 1)
  }

  /** `s.find(sub)`. */
  function Find(s: string, sub: string): (i: int)
    ensures i == -1 || OccursAt(s, sub, i)
    ensures forall j :: 0 <= j < (if i == -1 then |s| + 1 else i) ==> !OccursAt(s, sub, j)
  {
    FindFrom(s, sub, 0)
  }

  /** `sub` occurs nowhere in `s`. */
  predicate Absent(s: string, sub: string)
  {
    forall j :: 0 <= j <= |s| ==> !OccursAt(s, sub, j)
  }

  /** `i` is where `sub` first occurs in `s`. */
  predicate FirstAt(s: string, sub: string, i: int)
  {
    OccursAt(s, sub, i) && forall j :: 0 <= j < i ==> !OccursAt(s, sub, j)
  }

  /** `s.replace(old, new, 1)`: the leftmost occurrence of `old` becomes
      `new`; an empty `old` occurs first at index 0, so `new` is put in front. */
  function ReplaceFirst(s: string, oldText: string, newText: string): (r: string)
    ensures Absent(s, oldText) ==> r == s
    ensures forall i :: FirstAt(s, oldText, i) ==> r == s[..i] + newText + s[i + |oldText|..]
  {
    var i := Find(s, oldText);
    if i == -1 then s
    else
      assert forall k :: FirstAt(s, oldText, k) ==> k == i;
      s[..i] + newText + s[i + |oldText|..]
  }

  /** Either `old` is absent, or it first occurs somewhere. */
  lemma AbsentOrFirst(s: string, oldText: string)
    ensures Absent(s, oldText) || FirstAt(s, oldText, Find(s, oldText))
  {
  }

  /** An occurrence at or after `m` is an occurrence in the text from `m` on. */
  lemma OccursInSuffix(s: string, sub: string, m: nat, j: int)
    requires m <= j && OccursAt(s, sub, j)
    ensures OccursAt(s[m..], sub, j - m)
  {
    assert s[m..][j - m..j - m + |sub|] == s[j..j + |sub|];
  }

  /** An occurrence survives putting text in front, shifted by its length. */
  lemma OccursAfterPrefix(a: string, t: string, sub: string, p: int)
    requires OccursAt(t, sub, p)
    ensures OccursAt(a + t, sub, |a| + p)
  {
    assert (a + t)[|a| + p..|a| + p + |sub|] == t[p..p + |sub|];
  }

  /** One replacement touches one occurrence: an occurrence of `old` that
      starts after the first one has ended is still there, shifted by the
      change in length. So N occurrences need N pairs. */
  lemma ReplaceFirstKeepsLater(s: string, oldText: string, newText: string, i: int, j: int)
    requires FirstAt(s, oldText, i) && OccursAt(s, oldText, j) && i + |oldText| <= j
    ensures OccursAt(ReplaceFirst(s, oldText, newText), oldText, j - |oldText| + |newText|)
  {
    ReplaceFirstAt(s, oldText, newText, i);
    SpliceKeepsLater(s, oldText, newText, ReplaceFirst(s, oldText, newText), i, j);
  }

  /** The occurrence at `j` in the text after a splice at `i`. */
  lemma SpliceKeepsLater(s: string, oldText: string, newText: string, r: string, i: int, j: int)
    requires 0 <= i && i + |oldText| <= j && OccursAt(s, oldText, j)
    requires r == (s[..i] + newText) + s[i + |oldText|..]
    ensures OccursAt(r, oldText, j - |oldText| + |newText|)
  {
    var m := i + |oldText|;
    var front := s[..i] + newText;
    OccursInSuffix(s, oldText, m, j);
    OccursAfterPrefix(front, s[m..], oldText, j - m);
  }

  /** The replacement at the first occurrence, as one concatenation. */
  lemma ReplaceFirstAt(s: string, oldText: string, newText: string, i: int)
    requires FirstAt(s, oldText, i)
    ensures ReplaceFirst(s, oldText, newText) == (s[..i] + newText) + s[i + |oldText|..]
  {
  }

  /** One replacement leaves everything before the first occurrence alone. */
  lemma ReplaceFirstKeepsPrefix(s: string, oldText: string, newText: string, i: int)
    requires FirstAt(s, oldText, i)
    ensures ReplaceFirst(s, oldText, newText)[..i] == s[..i]
    ensures OccursAt(ReplaceFirst(s, oldText, newText), newText, i)
  {
    var r := ReplaceFirst(s, oldText, newText);
    assert r == s[..i] + newText + s[i + |oldText|..];
    assert r[i..i + |newText|] == newText;
  }

  /** The text after the pairs of `subs` have been applied in order. */
  function ApplyAll(s: string, subs: seq<(string, string)>): string
  {
    if |subs| == 0 then s
    else
      var last := subs[|subs| - 1];
      ReplaceFirst(ApplyAll(s, subs[..|subs| - 1]), last.0, last.1)
  }

  /** Applying `a + b` applies `a`, then `b`. */
  lemma {:induction false} ApplyAllAppend(s: string, a: seq<(string, string)>, b: seq<(string, string)>)
    ensures ApplyAll(s, a + b) == ApplyAll(ApplyAll(s, a), b)
    decreases |b|
  {
    if |b| == 0 {
      assert a + b == a;
    } else {
      var last := b[|b| - 1];
      assert (a + b)[..|a + b| - 1] == a + b[..|b| - 1];
      ApplyAllAppend(s, a, b[..|b| - 1]);
    }
  }

  /** The first pair is applied first, to the text as it was. */
  lemma ApplyAllFirst(s: string, subs: seq<(string, string)>)
    requires |subs| > 0
    ensures ApplyAll(s, subs) == ApplyAll(ReplaceFirst(s, subs[0].0, subs[0].1), subs[1..])
  {
    assert subs == [subs[0]] + subs[1..];
    ApplyAllAppend(s, [subs[0]], subs[1..]);
    assert [subs[0]][..0] == [];
  }

  /** Pairs whose original text does not occur leave the text as it is. */
  lemma {:induction false} ApplyAllAbsent(s: string, subs: seq<(string, string)>)
    requires forall k :: 0 <= k < |subs| ==> Absent(s, subs[k].0)
    ensures ApplyAll(s, subs) == s
    decreases |subs|
  {
    if |subs| > 0 {
      var init := subs[..|subs| - 1];
      assert forall k :: 0 <= k < |init| ==> init[k] == subs[k];
      ApplyAllAbsent(s, init);
    }
  }

  /** The loop of `write_subs` on the text: `html = html.replace(old, new, 1)`
      for each pair in order. */
  method WriteSubsText(html: string, subs: seq<(string, string)>) returns (out: string)
    ensures out == ApplyAll(html, subs)
  {
    out := html;
    for k := 0 to |subs|
      invariant out == ApplyAll(html, subs[..k])
    {
      assert subs[..k + 1][..k] == subs[..k];
      var (oldText, newText) := subs[k];
      out := ReplaceFirst(out, oldText, newText);
    }
    assert subs[..|subs|] == subs;
  }
}
