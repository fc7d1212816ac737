/**
 * The JavaScript string built-ins the core relies on, modelled over ASCII:
 * `trim`, `toLowerCase`, `split(/\s+/)`, `replace(/[..]+/g, sep)`, `includes`
 * and `Array.prototype.join`. Characters outside ASCII are left as they are by
 * `Lower` and are never white space.
 */
module Text {

  /** `\s` of a JavaScript regular expression over ASCII; also what `trim` strips. */
  predicate IsSpace(c: char) {
    c == ' ' || c == '\t' || c == '\n' || c == '\r' || c == '\U{000B}' || c == '\U{000C}'
  }

  predicate IsNonSpace(c: char) { !IsSpace(c) }

  predicate IsUpper(c: char) { 'A' <= c <= 'Z' }

  /** `[a-z0-9]` */
  predicate IsLowerAlnum(c: char) { 'a' <= c <= 'z' || '0' <= c <= '9' }

  /** `[^a-z0-9]` */
  predicate IsNotLowerAlnum(c: char) { !IsLowerAlnum(c) }

  /** `\w` of a JavaScript regular expression: `[A-Za-z0-9_]`. */
  predicate IsWordChar(c: char) { 'A' <= c <= 'Z' || 'a' <= c <= 'z' || '0' <= c <= '9' || c == '_' }

  predicate IsNotUpper(c: char) { !IsUpper(c) }

  predicate NoSpace(s: string) { forall i :: 0 <= i < |s| ==> !IsSpace(s[i]) }

  predicate NoUpper(s: string) { forall i :: 0 <= i < |s| ==> !IsUpper(s[i]) }

  /** Empty or made only of white space: what `s.trim()` turns into `''`. */
  predicate IsBlank(s: string) { forall i :: 0 <= i < |s| ==> IsSpace(s[i]) }

  function LowerChar(c: char): (d: char)
    ensures !IsUpper(d)
    ensures IsUpper(c) ==> d as int == c as int + 32
    ensures !IsUpper(c) ==> d == c
  {
    if IsUpper(c) then (c as int + 32) as char else c
  }

  /** `s.toLowerCase()` over ASCII. */
  function Lower(s: string): (r: string)
    ensures |r| == |s| && NoUpper(r)
    ensures forall i :: 0 <= i < |s| ==> r[i] == LowerChar(s[i])
  {
    seq(|s|, i requires 0 <= i < |s| => LowerChar(s[i]))
  }

  /** The length of the longest prefix of `s` whose characters all satisfy `p`. */
  function Span(s: string, p: char -> bool): (n: nat)
    ensures n <= |s|
    ensures forall i :: 0 <= i < n ==> p(s[i])
    ensures n < |s| ==> !p(s[n])
  {
    if s == [] || !p(s[0]) then 0 else 1 + Span(s[1..], p)
  }

  /** `s.trimStart()` */
  function TrimStart(s: string): string {
    s[Span(s, IsSpace)..]
  }

  /** `s.trimEnd()` */
  function TrimEnd(s: string): string {
    if s != [] && IsSpace(s[|s| - 1]) then TrimEnd(s[..|s| - 1]) else s
  }

  /** `s.trim()` */
  function Trim(s: string): string {
    TrimEnd(TrimStart(s))
  }

  /** `s.split(/\s+/)`: the pieces between maximal runs of white space, including a leading or trailing empty piece. */
  function SplitWs(s: string): (parts: seq<string>)
    ensures |parts| >= 1
    ensures forall k :: 0 <= k < |parts| ==> NoSpace(parts[k])
    decreases |s|
  {
    var i := Span(s, IsNonSpace);
    if i == |s| then [s]
    else
      var rest := s[i..];
      [s[..i]] + SplitWs(rest[Span(rest, IsSpace)..])
  }

  /** `s.replace(/[p]+/g, sep)`: each maximal run of characters satisfying `p` becomes one `sep`. */
  function ReplaceRuns(s: string, p: char -> bool, sep: string): string
    decreases |s|
  {
    if s == [] then []
    else if p(s[0]) then sep + ReplaceRuns(s[Span(s, p)..], p, sep)
    else [s[0]] + ReplaceRuns(s[1..], p, sep)
  }

  /** `s.replace(/[^p]/g, '')`: the characters of `s` that satisfy `p`, in order. */
  function Keep(s: string, p: char -> bool): (r: string)
    ensures |r| <= |s|
    ensures forall i :: 0 <= i < |r| ==> p(r[i])
  {
    if s == [] then []
    else if p(s[0]) then [s[0]] + Keep(s[1..], p)
    else Keep(s[1..], p)
  }

  /** `parts.join(sep)` */
  function Join(parts: seq<string>, sep: string): string {
    if |parts| == 0 then ""
    else if |parts| == 1 then parts[0]
    else parts[0] + sep + Join(parts[1..], sep)
  }

  /** `h.includes(n)` */
  predicate Contains(h: string, n: string) {
    n <= h || (h != [] && Contains(h[1..], n))
  }

  // ---------------------------------------------------------------------------
  // Properties

  /** `TrimEnd` cuts white space, and only white space, off the end. */
  lemma {:induction false} TrimEndShape(s: string)
    ensures |TrimEnd(s)| <= |s| && TrimEnd(s) == s[..|TrimEnd(s)|]
    ensures TrimEnd(s) == [] || !IsSpace(TrimEnd(s)[|TrimEnd(s)| - 1])
    ensures IsBlank(s[|TrimEnd(s)|..])
  {
    if s != [] && IsSpace(s[|s| - 1]) {
      var s' := s[..|s| - 1];
      TrimEndShape(s');
      assert s'[..|TrimEnd(s')|] == s[..|TrimEnd(s')|];
      assert s[|TrimEnd(s')|..] == s'[|TrimEnd(s')|..] + [s[|s| - 1]];
    } else {
      assert s[|s|..] == [];
    }
  }

  /** The white space `trimStart` cuts off is blank. */
  lemma SpanBlank(s: string)
    ensures IsBlank(s[..Span(s, IsSpace)])
  {
    var a := Span(s, IsSpace);
    forall i | 0 <= i < a
      ensures IsSpace(s[..a][i])
    {
      assert s[..a][i] == s[i];
    }
  }

  /** Slices of a suffix `s[a..]` are slices of `s`. */
  lemma SuffixSlices(s: string, a: nat, r: string)
    requires a <= |s| && |r| <= |s| - a
    requires r == s[a..][..|r|] && IsBlank(s[a..][|r|..])
    ensures r == s[a..a + |r|] && IsBlank(s[a + |r|..])
  {
    assert s[a..][|r|..] == s[a + |r|..];
  }

  /** `s.trim()` is the part of `s` between a blank prefix and a blank suffix. */
  lemma TrimShape(s: string)
    ensures var a := Span(s, IsSpace);
      && a + |Trim(s)| <= |s|
      && Trim(s) == s[a..a + |Trim(s)|]
      && IsBlank(s[..a]) && IsBlank(s[a + |Trim(s)|..])
  {
    var a := Span(s, IsSpace);
    var r := TrimEnd(s[a..]);
    assert Trim(s) == r;
    TrimEndShape(s[a..]);
    SpanBlank(s);
    SuffixSlices(s, a, r);
  }

  /** `s.trim()` has no white space at either end. */
  lemma TrimEnds(s: string)
    ensures Trim(s) == [] || (!IsSpace(Trim(s)[0]) && !IsSpace(Trim(s)[|Trim(s)| - 1]))
  {
    var a := Span(s, IsSpace);
    var t := s[a..];
    var r := TrimEnd(t);
    TrimEndShape(t);
    if r != [] {
      assert r[0] == t[0];
    }
  }

  lemma TrimBlank(s: string)
    ensures Trim(s) == "" <==> IsBlank(s)
  {
    TrimShape(s);
    var a := Span(s, IsSpace);
    if Trim(s) == "" {
      assert s == s[..a] + s[a..];
      assert s[a..] == s[a + |Trim(s)|..];
    }
  }

  /** Trimming a trimmed string changes nothing. */
  lemma TrimIdempotent(s: string)
    ensures Trim(Trim(s)) == Trim(s)
  {
    TrimEnds(s);
    TrimFixed(Trim(s));
  }

  lemma {:induction false} ReplaceRunsKeepsOthers(s: string, p: char -> bool, sep: string, i: nat)
    requires i <= |s|
    requires forall j :: 0 <= j < i ==> !p(s[j])
    ensures ReplaceRuns(s, p, sep) == s[..i] + ReplaceRuns(s[i..], p, sep)
  {
    if i > 0 {
      ReplaceRunsKeepsOthers(s[1..], p, sep, i - 1);
      assert s[1..][i - 1..] == s[i..];
      assert [s[0]] + s[1..][..i - 1] == s[..i];
    }
  }

  /**
   * Replacing every white-space run by `sep` is the same as splitting on
   * white space and joining the pieces with `sep`: `s.replace(/\s+/g, sep)
   * == s.split(/\s+/).join(sep)`.
   */
  lemma {:induction false} ReplaceSpacesIsJoinOfSplit(s: string, sep: string)
    ensures ReplaceRuns(s, IsSpace, sep) == Join(SplitWs(s), sep)
    decreases |s|
  {
    var i := Span(s, IsNonSpace);
    if i == |s| {
      ReplaceRunsFixed(s, IsSpace, sep);
    } else {
      var after := s[i..][Span(s[i..], IsSpace)..];
      ReplaceStep(s, sep, i, after);
      SplitStep(s, sep, i, after);
      ReplaceSpacesIsJoinOfSplit(after, sep);
    }
  }

  /** The first word is kept, the white-space run after it becomes one `sep`. */
  lemma ReplaceStep(s: string, sep: string, i: nat, after: string)
    requires i == Span(s, IsNonSpace) < |s|
    requires after == s[i..][Span(s[i..], IsSpace)..]
    ensures ReplaceRuns(s, IsSpace, sep) == s[..i] + sep + ReplaceRuns(after, IsSpace, sep)
  {
    var rest := s[i..];
    ReplaceRunsKeepsOthers(s, IsSpace, sep, i);
    assert IsSpace(rest[0]);
  }

  /** The split's first piece is the first word; the rest is the split of the text after the white-space run. */
  lemma SplitStep(s: string, sep: string, i: nat, after: string)
    requires i == Span(s, IsNonSpace) < |s|
    requires after == s[i..][Span(s[i..], IsSpace)..]
    ensures Join(SplitWs(s), sep) == s[..i] + sep + Join(SplitWs(after), sep)
  {
    var parts := SplitWs(s);
    assert parts == [s[..i]] + SplitWs(after);
    assert parts[1..] == SplitWs(after);
  }

  /** What replacing the runs leaves: `sep` and the characters outside the runs. */
  lemma {:induction false} ReplaceRunsChars(s: string, p: char -> bool, sep: string, q: char -> bool)
    requires forall i :: 0 <= i < |sep| ==> q(sep[i])
    requires forall i :: 0 <= i < |s| && !p(s[i]) ==> q(s[i])
    ensures forall i :: 0 <= i < |ReplaceRuns(s, p, sep)| ==> q(ReplaceRuns(s, p, sep)[i])
    decreases |s|
  {
    if s != [] {
      if p(s[0]) {
        var n := Span(s, p);
        ReplaceRunsChars(s[n..], p, sep, q);
      } else {
        ReplaceRunsChars(s[1..], p, sep, q);
      }
    }
  }

  /** Lower-casing a string without upper-case letters changes nothing. */
  lemma LowerFixed(s: string)
    requires NoUpper(s)
    ensures Lower(s) == s
  {
  }

  /** Replacing runs in a string that has none changes nothing. */
  lemma ReplaceRunsFixed(s: string, p: char -> bool, sep: string)
    requires forall i :: 0 <= i < |s| ==> !p(s[i])
    ensures ReplaceRuns(s, p, sep) == s
  {
    ReplaceRunsKeepsOthers(s, p, sep, |s|);
    assert s[..|s|] == s;
  }

  /** Keeping the characters that satisfy `p`, when all of them do, changes nothing. */
  lemma {:induction false} KeepFixed(s: string, p: char -> bool)
    requires forall i :: 0 <= i < |s| ==> p(s[i])
    ensures Keep(s, p) == s
  {
    if s != [] {
      KeepFixed(s[1..], p);
    }
  }

  /** Every character `Keep` leaves satisfies whatever all characters of `s` satisfy. */
  lemma {:induction false} KeepChars(s: string, p: char -> bool, q: char -> bool)
    requires forall i :: 0 <= i < |s| ==> q(s[i])
    ensures forall i :: 0 <= i < |Keep(s, p)| ==> q(Keep(s, p)[i])
  {
    if s != [] {
      KeepChars(s[1..], p, q);
    }
  }

  /** Joining one more piece appends the separator only when there was a piece before. */
  lemma {:induction false} JoinAppend(parts: seq<string>, p: string, sep: string)
    ensures Join(parts + [p], sep) == if parts == [] then p else Join(parts, sep) + sep + p
  {
    if |parts| > 1 {
      JoinAppend(parts[1..], p, sep);
      assert (parts + [p])[1..] == parts[1..] + [p];
    } else if |parts| == 1 {
      assert (parts + [p])[1..] == [p];
    }
  }

  /** Non-empty pieces join to '' exactly when there are none. */
  lemma JoinEmpty(parts: seq<string>, sep: string)
    requires forall k :: 0 <= k < |parts| ==> parts[k] != ""
    ensures Join(parts, sep) == "" <==> parts == []
  {
    if |parts| > 1 {
      assert Join(parts, sep)[..|parts[0]|] == parts[0];
    }
  }

  /** Every piece `split(/\s+/)` yields keeps whatever all characters of `s` satisfy. */
  lemma {:induction false} SplitWsChars(s: string, q: char -> bool)
    requires forall i :: 0 <= i < |s| ==> q(s[i])
    ensures forall k, i :: 0 <= k < |SplitWs(s)| && 0 <= i < |SplitWs(s)[k]| ==> q(SplitWs(s)[k][i])
    decreases |s|
  {
    var i := Span(s, IsNonSpace);
    if i < |s| {
      var rest := s[i..];
      var after := rest[Span(rest, IsSpace)..];
      SplitWsChars(after, q);
      assert SplitWs(s) == [s[..i]] + SplitWs(after);
    }
  }

  /** No two neighbouring characters both satisfy `p`. */
  predicate Isolated(s: string, p: char -> bool) {
    forall i :: 0 <= i < |s| - 1 ==> !(p(s[i]) && p(s[i + 1]))
  }

  /** Replacing runs by a one-character separator from the run class leaves no two such characters side by side. */
  lemma {:induction false} ReplaceRunsIsolated(s: string, p: char -> bool, c: char)
    requires p(c)
    ensures Isolated(ReplaceRuns(s, p, [c]), p)
    ensures s != [] && !p(s[0]) ==> ReplaceRuns(s, p, [c]) != [] && ReplaceRuns(s, p, [c])[0] == s[0]
    decreases |s|
  {
    if s != [] {
      if p(s[0]) {
        var n := Span(s, p);
        ReplaceRunsIsolated(s[n..], p, c);
      } else {
        ReplaceRunsIsolated(s[1..], p, c);
      }
    }
  }

  /** A string whose run characters are already single separators is left as it is. */
  lemma {:induction false} ReplaceRunsIsolatedFixed(s: string, p: char -> bool, c: char)
    requires forall i :: 0 <= i < |s| && p(s[i]) ==> s[i] == c
    requires Isolated(s, p)
    ensures ReplaceRuns(s, p, [c]) == s
    decreases |s|
  {
    if s != [] {
      ReplaceRunsIsolatedFixed(s[1..], p, c);
      if p(s[0]) {
        assert Span(s, p) == 1;
      }
      assert s == [s[0]] + s[1..];
    }
  }

  /** A string with no white space at either end is its own `trim`. */
  lemma TrimFixed(s: string)
    requires s == [] || (!IsSpace(s[0]) && !IsSpace(s[|s| - 1]))
    ensures Trim(s) == s
  {
    assert Span(s, IsSpace) == 0;
    assert s[0..] == s;
  }

  lemma ContainsSelf(s: string)
    ensures Contains(s, s)
  {
  }
}
