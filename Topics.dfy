/**
 * The client's fuzzy topic resolver (public/js/app.js:355-366): `norm`, and
 * the choice of a topic from a list, exact normalised match first, then the
 * first topic whose normalised form contains the normalised keyword.
 */
module Topics {
  import opened Wrappers
  import opened Text
  import opened Seqs

  /** `String(s).toLowerCase().replace(/[^a-z0-9]+/g, ' ').trim()` */
  function Norm(s: string): (t: string)
    ensures Normal(t)
  {
    var x := ReplaceRuns(Lower(s), IsNotLowerAlnum, " ");
    ReplaceRunsChars(Lower(s), IsNotLowerAlnum, " ", IsNormChar);
    ReplaceRunsIsolated(Lower(s), IsNotLowerAlnum, ' ');
    assert [' '] == " ";
    TrimNormal(x);
    Trim(x)
  }

  /** `[a-z0-9 ]` */
  predicate IsNormChar(c: char) {
    IsLowerAlnum(c) || c == ' '
  }

  /** What `norm` yields: letters and digits, words split by single spaces, no space at either end. */
  predicate Normal(t: string) {
    && (forall i :: 0 <= i < |t| ==> IsNormChar(t[i]))
    && Isolated(t, IsNotLowerAlnum)
    && (t == [] || (t[0] != ' ' && t[|t| - 1] != ' '))
  }

  /** `norm(t) === key` */
  predicate NormEquals(t: string, key: string) {
    Norm(t) == key
  }

  /** `norm(t).includes(key)` */
  predicate NormContains(t: string, key: string) {
    Contains(Norm(t), key)
  }

  /**
   * `resolveTopic(keyword, list)` once the list is chosen: '' for an empty
   * keyword; else the first topic whose normalised form equals the
   * normalised keyword, unless that topic is '' (falsy); else the first topic
   * whose normalised form contains it, or ''.
   */
  function ResolveIn(keyword: string, list: seq<string>): (r: string)
    ensures keyword == "" ==> r == ""
    ensures r == "" || (r in list && Contains(Norm(r), Norm(keyword)))
  {
    if keyword == "" then ""
    else
      var key := Norm(keyword);
      var exact := FindBy(list, NormEquals, key);
      if exact.Some? && list[exact.value] != "" then
        ContainsSelf(key);
        list[exact.value]
      else
        var partial := FindBy(list, NormContains, key);
        if partial.Some? then list[partial.value] else ""
  }

  // ---------------------------------------------------------------------------
  // Properties

  /** Trimming text of `[a-z0-9 ]` with no two spaces side by side yields normal form. */
  lemma TrimNormal(x: string)
    requires forall i :: 0 <= i < |x| ==> IsNormChar(x[i])
    requires Isolated(x, IsNotLowerAlnum)
    ensures Normal(Trim(x))
  {
    TrimShape(x);
    TrimEnds(x);
    var a := Span(x, IsSpace);
    var t := Trim(x);
    assert forall i :: 0 <= i < |t| ==> t[i] == x[a + i];
  }

  /** A string in normal form is its own normalisation. */
  lemma NormalIsFixed(t: string)
    requires Normal(t)
    ensures Norm(t) == t
  {
    LowerFixed(t);
    ReplaceRunsIsolatedFixed(t, IsNotLowerAlnum, ' ');
    assert [' '] == " ";
    TrimFixed(t);
  }

  /** `norm` is idempotent. */
  lemma NormIdempotent(s: string)
    ensures Norm(Norm(s)) == Norm(s)
  {
    NormalIsFixed(Norm(s));
  }

  /** A non-empty topic that is the first exact normalised match wins over every contains-match. */
  lemma ResolvePrefersExact(keyword: string, list: seq<string>, i: nat)
    requires keyword != ""
    requires i < |list| && list[i] != "" && Norm(list[i]) == Norm(keyword)
    requires forall j :: 0 <= j < i ==> Norm(list[j]) != Norm(keyword)
    ensures ResolveIn(keyword, list) == list[i]
  {
    var exact := FindBy(list, NormEquals, Norm(keyword));
    assert NormEquals(list[i], Norm(keyword));
    assert exact == Some(i);
  }

  /**
   * An empty topic that is the first exact normalised match is falsy: no later
   * exact match wins, and the first topic containing the normalised keyword is chosen.
   */
  lemma ResolveSkipsEmptyExact(keyword: string, list: seq<string>, i: nat, k: nat)
    requires keyword != ""
    requires i < |list| && list[i] == "" && Norm(list[i]) == Norm(keyword)
    requires forall j :: 0 <= j < i ==> Norm(list[j]) != Norm(keyword)
    requires k < |list| && Contains(Norm(list[k]), Norm(keyword))
    requires forall j :: 0 <= j < k ==> !Contains(Norm(list[j]), Norm(keyword))
    ensures ResolveIn(keyword, list) == list[k]
  {
    var key := Norm(keyword);
    var exact := FindBy(list, NormEquals, key);
    assert NormEquals(list[i], key);
    assert exact == Some(i);
    var partial := FindBy(list, NormContains, key);
    assert NormContains(list[k], key);
    assert partial == Some(k);
  }

  /** With no exact normalised match, the first topic containing the normalised keyword is chosen. */
  lemma ResolveFallsBack(keyword: string, list: seq<string>, i: nat)
    requires keyword != ""
    requires forall j :: 0 <= j < |list| ==> Norm(list[j]) != Norm(keyword)
    requires i < |list| && Contains(Norm(list[i]), Norm(keyword))
    requires forall j :: 0 <= j < i ==> !Contains(Norm(list[j]), Norm(keyword))
    ensures ResolveIn(keyword, list) == list[i]
  {
    var key := Norm(keyword);
    var exact := FindBy(list, NormEquals, key);
    assert exact.None?;
    var partial := FindBy(list, NormContains, key);
    assert NormContains(list[i], key);
    assert partial == Some(i);
  }
}
