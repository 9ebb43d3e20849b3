/** The fixed regular expressions of the command-output parsers, written out by hand.
    Each has the shape `lit\s+(K+)`: a literal, a run of whitespace and a captured
    run of one character class, found by `re.search` at the leftmost position where
    the whole pattern matches. Whitespace belongs to none of the captured classes, so
    neither `\s+` nor the group can give back characters: the match at a position is
    unique and takes both runs whole. */
module Patterns {
  import opened Wrappers
  import opened Text

  /** The captured classes: `\S`, `\d` and `\w`. */
  datatype Class = NonSpace | Digit | Word

  predicate InClass(k: Class, c: char) {
    match k
    case NonSpace => !IsSpace(c)
    case Digit => IsDigit(c)
    case Word => IsWordChar(c)
  }

  /** Length of the leading run of `k` characters. */
  function ClassLen(k: Class, s: string): (n: nat)
    ensures n <= |s| && forall i :: 0 <= i < n ==> InClass(k, s[i])
    ensures n < |s| ==> !InClass(k, s[n])
  {
    if s == [] || !InClass(k, s[0]) then 0 else 1 + ClassLen(k, s[1..])
  }

  /** `\s+(K+)` matched at the start of `s`: the group and the text after it. */
  function SpacedRun(k: Class, s: string): (r: Option<(string, string)>)
    ensures r.Some? ==> r.value.0 != [] && (forall i :: 0 <= i < |r.value.0| ==> InClass(k, r.value.0[i]))
    ensures r.Some? ==>
      exists n :: 0 < n < |s| && (forall i :: 0 <= i < n ==> IsSpace(s[i])) &&
                  s == s[..n] + r.value.0 + r.value.1
    ensures r.Some? ==> r.value.1 == [] || !InClass(k, r.value.1[0])
  {
    var n := SpaceLen(s);
    var m := ClassLen(k, s[n..]);
    if n > 0 && m > 0 then
      assert s == s[..n] + s[n..][..m] + s[n..][m..];
      Some((s[n..][..m], s[n..][m..]))
    else None
  }

  /** The whole pattern matches at position `j` of `s`. */
  predicate MatchAt(s: string, lit: string, k: Class, j: nat) {
    OccursAt(s, lit, j) && SpacedRun(k, s[j + |lit|..]).Some?
  }

  /** `re.search(lit + r'\s+(K+)', s)` restricted to positions from `p` on. */
  function CaptureFrom(s: string, lit: string, k: Class, p: nat): (r: Option<string>)
    ensures r.Some? <==> exists j :: p <= j && MatchAt(s, lit, k, j)
    ensures r.Some? ==>
      exists j :: p <= j && MatchAt(s, lit, k, j) &&
                  r.value == SpacedRun(k, s[j + |lit|..]).value.0 &&
                  forall i :: p <= i < j ==> !MatchAt(s, lit, k, i)
    decreases |s| - p
  {
    if p + |lit| > |s| then None
    else if MatchAt(s, lit, k, p) then Some(SpacedRun(k, s[p + |lit|..]).value.0)
    else
      var r := CaptureFrom(s, lit, k, p + 1);
      assert forall j :: p <= j && MatchAt(s, lit, k, j) ==> j == p || p + 1 <= j;
      r
  }

  /** `re.search(lit + r'\s+(K+)', s).group(1)`, `None` when there is no match. */
  function Capture(s: string, lit: string, k: Class): Option<string> { CaptureFrom(s, lit, k, 0) }

  /** A line that starts with the literal, whitespace and a `k` run yields that run. */
  lemma CaptureAtStart(s: string, lit: string, k: Class)
    requires MatchAt(s, lit, k, 0)
    ensures Capture(s, lit, k) == Some(SpacedRun(k, s[|lit|..]).value.0)
  {
  }

  /** `lit + ws + w + rest` with `w` a run of `k` characters and `rest` starting outside
      the class: the run after the whitespace is `w`. */
  lemma {:induction false} SpacedRunOf(k: Class, ws: string, w: string, rest: string)
    requires ws != [] && (forall i :: 0 <= i < |ws| ==> IsSpace(ws[i]))
    requires w != [] && (forall i :: 0 <= i < |w| ==> InClass(k, w[i])) && !IsSpace(w[0])
    requires rest == [] || !InClass(k, rest[0])
    ensures SpacedRun(k, ws + w + rest) == Some((w, rest))
  {
    var s := ws + w + rest;
    SpaceLenOf(ws, w + rest);
    assert s[|ws|..] == w + rest;
    ClassLenOf(k, w, rest);
    assert (w + rest)[..|w|] == w && (w + rest)[|w|..] == rest;
  }

  lemma {:induction false} SpaceLenOf(ws: string, t: string)
    requires forall i :: 0 <= i < |ws| ==> IsSpace(ws[i])
    requires t != [] && !IsSpace(t[0])
    ensures SpaceLen(ws + t) == |ws|
  {
    if ws != [] {
      assert (ws + t)[1..] == ws[1..] + t;
      SpaceLenOf(ws[1..], t);
    } else {
      assert ws + t == t;
    }
  }

  lemma {:induction false} ClassLenOf(k: Class, w: string, rest: string)
    requires forall i :: 0 <= i < |w| ==> InClass(k, w[i])
    requires rest == [] || !InClass(k, rest[0])
    ensures ClassLen(k, w + rest) == |w|
  {
    if w != [] {
      assert (w + rest)[1..] == w[1..] + rest;
      ClassLenOf(k, w[1..], rest);
    } else {
      assert w + rest == rest;
    }
  }
}
