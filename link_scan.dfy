/**
 * `get_links`: `re.findall` of the pattern (?:href|link|src)=["'](.*?)["']
 * over the text of an HTML file. The pattern has no word boundary, the
 * closing quote need not match the opening one, the lazy `.*?` stops at the
 * first quote character, and `.` does not match a newline.
 */
module LinkScan {
  import opened Wrappers

  predicate IsQuote(c: char)
  {
    c == '"' || c == '\''
  }

  /** The attribute names of the pattern's alternation. */
  const AttributeNames: seq<string> := ["href", "link", "src"]

  /** One match: the attribute name starts at `start`, the captured value is
      `text[valueStart..valueEnd]`, and the closing quote is at `valueEnd`. */
  datatype Match = Match(start: nat, valueStart: nat, valueEnd: nat)

  /** `m` is a match of the pattern in `text`: a listed name, '=', a quote,
      then characters that are neither quotes nor newlines up to a quote. */
  predicate IsMatch(text: string, m: Match)
  {
    && m.start + 2 <= m.valueStart <= m.valueEnd < |text|
    && text[m.start..m.valueStart - 2] in AttributeNames
    && text[m.valueStart - 2] == '='
    && IsQuote(text[m.valueStart - 1])
    && IsQuote(text[m.valueEnd])
    && forall j :: m.valueStart <= j < m.valueEnd ==> !IsQuote(text[j]) && text[j] != '\n'
  }

  /** No match of the pattern starts at a position in [lo, hi). */
  ghost predicate NoMatchBetween(text: string, lo: int, hi: int)
  {
    forall m: Match {:trigger IsMatch(text, m)} :: lo <= m.start < hi ==> !IsMatch(text, m)
  }

  /** Length of the attribute name at `p`, 0 when none of the names is there. */
  function NameLength(text: string, p: nat): (n: nat)
    ensures n == 0 || n == 3 || n == 4
    ensures n != 0 ==> p + n <= |text| && text[p..p + n] in AttributeNames
  {
    if p + 4 <= |text| && (text[p..p + 4] == "href" || text[p..p + 4] == "link") then 4
    else if p + 3 <= |text| && text[p..p + 3] == "src" then 3
    else 0
  }

  /** The first index from `i` on holding a quote or a newline, or |text|:
      where the lazy `.*?` either closes or fails. */
  function ValueEnd(text: string, i: nat): (e: nat)
    requires i <= |text|
    ensures i <= e <= |text|
    ensures forall j :: i <= j < e ==> !IsQuote(text[j]) && text[j] != '\n'
    ensures e < |text| ==> IsQuote(text[e]) || text[e] == '\n'
    decreases |text| - i
  {
    if i == |text| || IsQuote(text[i]) || text[i] == '\n' then i else ValueEnd(text, i + 1)
  }

  /** The pattern tried at position `p`. */
  function MatchAt(text: string, p: nat): Option<Match>
    requires p <= |text|
  {
    var n := NameLength(text, p);
    if n == 0 || p + n + 2 > |text| || text[p + n] != '=' || !IsQuote(text[p + n + 1]) then None
    else
      var e := ValueEnd(text, p + n + 2);
      if e < |text| && IsQuote(text[e]) then Some(Match(p, p + n + 2, e)) else None
  }

  /** The attribute name of a match is the one NameLength finds. */
  lemma NameOfMatch(text: string, m: Match)
    requires IsMatch(text, m)
    ensures NameLength(text, m.start) == m.valueStart - 2 - m.start
  {
    var p := m.start;
    var name := text[p..m.valueStart - 2];
    if name == "src" {
      assert text[p] == 's';
      if p + 4 <= |text| {
        assert text[p..p + 4][0] == 's';
      }
      assert text[p..p + 3] == name;
    } else {
      assert text[p..p + 4] == name;
    }
  }

  /** MatchAt finds exactly the match of the pattern at `p`, if there is one. */
  lemma MatchAtIff(text: string, p: nat, m: Match)
    requires p <= |text| && m.start == p
    ensures IsMatch(text, m) <==> MatchAt(text, p) == Some(m)
  {
    var n := NameLength(text, p);
    if IsMatch(text, m) {
      NameOfMatch(text, m);
      var e := ValueEnd(text, m.valueStart);
      assert e == m.valueEnd;
    }
    if MatchAt(text, p) == Some(m) {
      assert text[p..p + n] in AttributeNames;
    }
  }

  /** MatchAt finds a match of the pattern, and only that. */
  lemma MatchAtSound(text: string, p: nat)
    requires p <= |text|
    ensures MatchAt(text, p).Some? ==> MatchAt(text, p).value.start == p && IsMatch(text, MatchAt(text, p).value)
    ensures MatchAt(text, p).None? ==> NoMatchBetween(text, p, p + 1)
  {
    if MatchAt(text, p).Some? {
      MatchAtIff(text, p, MatchAt(text, p).value);
    }
    forall m: Match | p <= m.start < p + 1 ensures !IsMatch(text, m) || MatchAt(text, p).Some? {
      MatchAtIff(text, p, m);
    }
  }

  /** findall's scan from position `p`: try the pattern at `p`; after a match
      resume just past its closing quote, otherwise at `p + 1`. The result
      lists matches of the pattern, left to right and without overlap. */
  function Scan(text: string, p: nat): (ms: seq<Match>)
    requires p <= |text|
    ensures forall i :: 0 <= i < |ms| ==> IsMatch(text, ms[i]) && p <= ms[i].start
    decreases |text| - p
  {
    if p == |text| then []
    else
      MatchAtSound(text, p);
      match MatchAt(text, p)
      case Some(m) =>
        var rest := Scan(text, m.valueEnd + 1);
        var ms := [m] + rest;
        assert forall i :: 1 <= i < |ms| ==> ms[i] == rest[i - 1];
        ms
      case None =>
        Scan(text, p + 1)
  }

  /** Each reported match ends before the next one starts. */
  ghost predicate Ordered(ms: seq<Match>)
  {
    forall i, j :: 0 <= i < j < |ms| ==> ms[i].valueEnd < ms[j].start
  }

  /** A match ending before every later match keeps a left-to-right list so. */
  lemma OrderedCons(m: Match, rest: seq<Match>, lo: int)
    requires Ordered(rest)
    requires m.valueEnd < lo && forall k :: 0 <= k < |rest| ==> lo <= rest[k].start
    ensures Ordered([m] + rest)
  {
    var ms := [m] + rest;
    forall i, j | 0 <= i < j < |ms| ensures ms[i].valueEnd < ms[j].start {
      assert ms[j] == rest[j - 1];
      if i > 0 {
        assert ms[i] == rest[i - 1];
      }
    }
  }

  /** The matches Scan reports come left to right without overlap: each one
      ends before the next one starts. */
  lemma {:induction false} ScanOrdered(text: string, p: nat)
    requires p <= |text|
    ensures Ordered(Scan(text, p))
    decreases |text| - p, 1
  {
    if p < |text| {
      if MatchAt(text, p).Some? {
        ScanOrderedMatch(text, p, MatchAt(text, p).value);
      } else {
        assert Scan(text, p) == Scan(text, p + 1);
        ScanOrdered(text, p + 1);
      }
    }
  }

  /** A scan step that reports `m` puts it before everything reported later. */
  lemma ScanOrderedMatch(text: string, p: nat, m: Match)
    requires p < |text| && MatchAt(text, p) == Some(m)
    ensures Ordered(Scan(text, p))
    decreases |text| - p, 0
  {
    var q := m.valueEnd + 1;
    assert p < q <= |text| && Scan(text, p) == [m] + Scan(text, q) by {
      ScanCons(text, p, m);
    }
    ScanOrdered(text, q);
    OrderedCons(m, Scan(text, q), q);
  }

  /** No match starts between the end of the i-th reported match and the
      start of the next one (or the end of the text, after the last). */
  ghost predicate ClearAfter(text: string, ms: seq<Match>, i: int)
    requires 0 <= i < |ms|
  {
    NoMatchBetween(text, ms[i].valueEnd + 1, if i + 1 < |ms| then ms[i + 1].start else |text|)
  }

  lemma NoMatchUnion(text: string, lo: int, mid: int, hi: int)
    requires lo <= mid <= hi
    requires NoMatchBetween(text, lo, mid) && NoMatchBetween(text, mid, hi)
    ensures NoMatchBetween(text, lo, hi)
  {
    forall m: Match | lo <= m.start < hi ensures !IsMatch(text, m) {
      if m.start < mid {
      }
    }
  }

  /** Scan misses nothing before the first match it reports (or, when it
      reports none, anywhere from `p` on). */
  lemma {:induction false} ScanFirstGap(text: string, p: nat)
    requires p <= |text|
    ensures var ms := Scan(text, p);
      NoMatchBetween(text, p, if |ms| == 0 then |text| else ms[0].start)
    decreases |text| - p
  {
    if p < |text| {
      MatchAtSound(text, p);
      if MatchAt(text, p).None? {
        var rest := Scan(text, p + 1);
        ScanFirstGap(text, p + 1);
        NoMatchUnion(text, p, p + 1, if |rest| == 0 then |text| else rest[0].start);
      }
    }
  }

  /** A gap after the i-th match of `rest` is the gap after the (i+1)-th
      match once `m` is put in front. */
  lemma ClearAfterShift(text: string, m: Match, rest: seq<Match>, i: int)
    requires 0 <= i < |rest| && ClearAfter(text, rest, i)
    ensures ClearAfter(text, [m] + rest, i + 1)
  {
    var ms := [m] + rest;
    assert ms[i + 1] == rest[i];
    if i + 1 < |rest| {
      assert ms[i + 2] == rest[i + 1];
    }
  }

  /** No match starts in any gap after a match of `ms`. */
  ghost predicate AllClear(text: string, ms: seq<Match>)
  {
    forall i :: 0 <= i < |ms| ==> ClearAfter(text, ms, i)
  }

  /** Putting a match in front keeps every gap clear when the gap from it to
      the first match of `rest` is clear. */
  lemma AllClearCons(text: string, m: Match, rest: seq<Match>)
    requires AllClear(text, rest)
    requires NoMatchBetween(text, m.valueEnd + 1, if |rest| == 0 then |text| else rest[0].start)
    ensures AllClear(text, [m] + rest)
  {
    var ms := [m] + rest;
    forall i | 0 <= i < |ms| ensures ClearAfter(text, ms, i) {
      if i == 0 {
        if |rest| > 0 {
          assert ms[1] == rest[0];
        }
      } else {
        ClearAfterShift(text, m, rest, i - 1);
      }
    }
  }

  /** A scan step that reports `m` keeps every gap clear. */
  lemma ScanStepMatch(text: string, p: nat, m: Match)
    requires p < |text| && MatchAt(text, p) == Some(m)
    ensures AllClear(text, Scan(text, p))
    decreases |text| - p, 0
  {
    var q := m.valueEnd + 1;
    assert p < q <= |text| && Scan(text, p) == [m] + Scan(text, q) by {
      ScanCons(text, p, m);
    }
    ScanLaterGaps(text, q);
    assert AllClear(text, [m] + Scan(text, q)) by {
      ScanFirstGap(text, q);
      AllClearCons(text, m, Scan(text, q));
    }
  }

  /** A scan step that reports `m` goes on just past its closing quote. */
  lemma ScanCons(text: string, p: nat, m: Match)
    requires p < |text| && MatchAt(text, p) == Some(m)
    ensures p <= m.valueEnd < |text|
    ensures Scan(text, p) == [m] + Scan(text, m.valueEnd + 1)
  {
    MatchAtSound(text, p);
  }

  /** A scan step that reports nothing keeps every gap clear. */
  lemma ScanStepNone(text: string, p: nat)
    requires p < |text| && MatchAt(text, p).None?
    ensures AllClear(text, Scan(text, p))
    decreases |text| - p, 0
  {
    assert Scan(text, p) == Scan(text, p + 1);
    ScanLaterGaps(text, p + 1);
  }

  /** Scan misses nothing after a match it reports, up to the next one. */
  lemma {:induction false} ScanLaterGaps(text: string, p: nat)
    requires p <= |text|
    ensures AllClear(text, Scan(text, p))
    decreases |text| - p, 1
  {
    if p < |text| {
      if MatchAt(text, p).Some? {
        ScanStepMatch(text, p, MatchAt(text, p).value);
      } else {
        ScanStepNone(text, p);
      }
    }
  }

  /** Scan misses nothing: no match starts in a gap the scan stepped over,
      before the first match it reports, between two of them, or after the
      last. */
  lemma ScanComplete(text: string, p: nat)
    requires p <= |text|
    ensures var ms := Scan(text, p);
      && NoMatchBetween(text, p, if |ms| == 0 then |text| else ms[0].start)
      && forall i :: 0 <= i < |ms| ==> ClearAfter(text, ms, i)
  {
    ScanFirstGap(text, p);
    ScanLaterGaps(text, p);
  }

  /** The matches `get_links` reports, in order. */
  function LinkMatches(html: string): seq<Match>
  {
    Scan(html, 0)
  }

  /** `get_links(html)`: the captured values of the matches. */
  function GetLinks(html: string): (links: seq<string>)
    ensures |links| == |LinkMatches(html)|
  {
    var ms := LinkMatches(html);
    seq(|ms|, i requires 0 <= i < |ms| => html[ms[i].valueStart..ms[i].valueEnd])
  }

  /** Every link is the value of `name=` plus a quote, is followed by a quote,
      and holds no quote or newline; the i-th link is the i-th match's value. */
  lemma GetLinksValues(html: string, i: nat)
    requires i < |GetLinks(html)|
    ensures var m := LinkMatches(html)[i];
      && IsMatch(html, m)
      && GetLinks(html)[i] == html[m.valueStart..m.valueEnd]
      && html[m.start..m.valueStart - 2] in AttributeNames
      && '"' !in GetLinks(html)[i] && '\'' !in GetLinks(html)[i] && '\n' !in GetLinks(html)[i]
  {
    var m := LinkMatches(html)[i];
    var v := GetLinks(html)[i];
    assert v == html[m.valueStart..m.valueEnd];
    forall c | c in v ensures c != '"' && c != '\'' && c != '\n' {
      var j :| 0 <= j < |v| && v[j] == c;
      assert v[j] == html[m.valueStart + j];
    }
  }

  /** A value between two quotes, after a listed name and '=', is a match. */
  lemma MatchShape(pre: string, value: string, post: string, start: nat)
    requires start + 2 <= |pre|
    requires pre[start..|pre| - 2] in AttributeNames
    requires pre[|pre| - 2] == '=' && IsQuote(pre[|pre| - 1])
    requires post != [] && IsQuote(post[0])
    requires '"' !in value && '\'' !in value && '\n' !in value
    ensures IsMatch(pre + value + post, Match(start, |pre|, |pre| + |value|))
  {
    var text := pre + value + post;
    var m := Match(start, |pre|, |pre| + |value|);
    assert text[..|pre|] == pre;
    assert text[m.start..m.valueStart - 2] == pre[start..|pre| - 2];
    assert text[m.valueEnd] == post[0];
    forall j | m.valueStart <= j < m.valueEnd ensures !IsQuote(text[j]) && text[j] != '\n' {
      assert text[j] == value[j - |pre|];
      assert value[j - |pre|] in value;
    }
  }

  /** The pattern matches wherever the name stands, even inside a longer
      attribute name such as `data-src`, and with mismatched quotes. */
  lemma MatchesAnywhere(before: string, name: string, open: char, value: string, close: char, after: string)
    requires name in AttributeNames && IsQuote(open) && IsQuote(close)
    requires '"' !in value && '\'' !in value && '\n' !in value
    ensures var text := before + name + "=" + [open] + value + [close] + after;
      var vs := |before| + |name| + 2;
      MatchAt(text, |before|) == Some(Match(|before|, vs, vs + |value|))
  {
    var pre := before + name + "=" + [open];
    var post := [close] + after;
    assert pre[|before|..|pre| - 2] == name;
    MatchShape(pre, value, post, |before|);
    assert before + name + "=" + [open] + value + [close] + after == pre + value + post;
    MatchAtIff(pre + value + post, |before|, Match(|before|, |pre|, |pre| + |value|));
  }
}
