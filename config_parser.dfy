/** The configuration document of `bsd_netgui/utils/config_parser.py`: an ordered list
    of lines plus an index from key to the line that holds it. `Doc` is the state as a
    value, with the operations as functions; the class `ConfigParser` holds the same
    state in fields and its methods are proved to perform those functions. */
module ConfigParsing {
  import opened Wrappers
  import opened Text
  import opened ConfigLines

  /** `lines`, the `variables` index (key to position in `lines`; the Python dict holds
      the line object itself, which is at that position) and `keys`, the dict's
      insertion order. */
  datatype Doc = Doc(lines: seq<ConfigLine>, variables: map<string, nat>, keys: seq<string>)

  const EmptyDoc := Doc([], map[], [])

  predicate Distinct(s: seq<string>) {
    forall i, j :: 0 <= i < j < |s| ==> s[i] != s[j]
  }

  /** Every indexed key points at a line holding that key and a value, and `keys` lists
      each indexed key once. */
  predicate IndexOk(d: Doc) {
    (forall k :: k in d.variables ==>
      d.variables[k] < |d.lines| && d.lines[d.variables[k]].key == Some(k) && d.lines[d.variables[k]].value.Some?)
    && Distinct(d.keys)
    && (forall k :: k in d.variables ==> k in d.keys)
    && (forall k :: k in d.keys ==> k in d.variables)
  }

  /** `get`: the value of an indexed key (the caller supplies the default). */
  function GetDoc(d: Doc, key: string): (r: Option<string>)
    requires IndexOk(d)
    ensures r.Some? <==> key in d.variables
  {
    if key in d.variables then d.lines[d.variables[key]].value else None
  }

  // ---------------------------------------------------------------------------------
  // Reading a file.

  /** The lines Python's file iteration yields from text already read (so with its
      newlines translated, see `TranslateNewlines`): each keeps its `\n`, and a last
      line without one is kept when non-empty. */
  function SplitLines(text: string): (r: seq<string>)
    ensures Concat(r) == text
    decreases |text|
  {
    match IndexOf(text, '\n')
    case None => if text == [] then [] else [text]
    case Some(i) =>
      assert text == text[..i + 1] + text[i + 1..];
      [text[..i + 1]] + SplitLines(text[i + 1..])
  }

  /** A line the parser indexes: its key is non-empty (`if config_line.key:`). */
  predicate HasKey(l: ConfigLine) { Truthy(l.key) }

  /** One parsed line appended to the document and indexed when it has a key; a
      repeated key moves the index to the new line but keeps its place in `keys`. */
  function AppendLine(d: Doc, l: ConfigLine): Doc {
    if HasKey(l) then
      Doc(d.lines + [l], d.variables[l.key.value := |d.lines|],
          if l.key.value in d.variables then d.keys else d.keys + [l.key.value])
    else
      d.(lines := d.lines + [l])
  }

  /** `parse` on the lines `raws` of a file, numbered from 1, on top of `d`. */
  function ParseInto(d: Doc, raws: seq<string>): Doc {
    if raws == [] then d
    else AppendLine(ParseInto(d, raws[..|raws| - 1]), ParseLine(raws[|raws| - 1], |raws|))
  }

  // ---------------------------------------------------------------------------------
  // Writing a file.

  function Raws(ls: seq<ConfigLine>): seq<string> {
    seq(|ls|, i requires 0 <= i < |ls| => ls[i].raw)
  }

  /** What `write` puts in the file: every line's raw text, in order. */
  function Serialize(d: Doc): string {
    Concat(Raws(d.lines))
  }

  // ---------------------------------------------------------------------------------
  // Updates.

  function NewComment(comment: Option<string>): Option<string> {
    if Truthy(comment) then Some("# " + comment.value) else None
  }

  /** `set`: an indexed key has its line rewritten in place; otherwise one line is
      appended and indexed. */
  function SetDoc(d: Doc, key: string, value: string, comment: Option<string>): Doc
    requires IndexOk(d)
  {
    if key in d.variables then
      var p := d.variables[key];
      var l := d.lines[p];
      var c := if Truthy(comment) then NewComment(comment) else l.inlineComment;
      d.(lines := d.lines[p := l.(value := Some(value), inlineComment := c, raw := RawAssignment(key, value, c))])
    else
      var raw := RawAssignment(key, value, NewComment(comment));
      var parsed := ParseLine(raw, |d.lines| + 1);
      var l := parsed.(key := Some(key), value := Some(value),
                       inlineComment := if Truthy(comment) then NewComment(comment) else parsed.inlineComment);
      Doc(d.lines + [l], d.variables[key := |d.lines|], d.keys + [key])
  }

  function RemoveAt<T>(s: seq<T>, p: nat): (r: seq<T>)
    requires p < |s|
    ensures |r| == |s| - 1
  {
    s[..p] + s[p + 1..]
  }

  function Renumber(ls: seq<ConfigLine>): (r: seq<ConfigLine>)
    ensures |r| == |ls|
  {
    seq(|ls|, i requires 0 <= i < |ls| => ls[i].(lineNumber := i + 1))
  }

  function RemoveKey(ks: seq<string>, k: string): seq<string> {
    if ks == [] then []
    else if ks[0] == k then RemoveKey(ks[1..], k)
    else [ks[0]] + RemoveKey(ks[1..], k)
  }

  /** `delete`: an indexed key loses its line (that line only) and its index entry; the
      remaining lines are renumbered from 1. The result says whether the key was indexed. */
  function DeleteDoc(d: Doc, key: string): (Doc, bool)
    requires IndexOk(d)
  {
    if key !in d.variables then (d, false)
    else
      var p := d.variables[key];
      (Doc(Renumber(RemoveAt(d.lines, p)), Unindex(d.variables, key, p), RemoveKey(d.keys, key)), true)
  }

  /** The index once `key`'s line at `p` is gone: later positions move down by one. */
  function Unindex(vars: map<string, nat>, key: string, p: nat): (r: map<string, nat>)
    ensures forall k :: k in r <==> k in vars && k != key
    ensures forall k :: k in r ==> r[k] == if vars[k] > p then vars[k] - 1 else vars[k]
  {
    map k | k in vars && k != key :: if vars[k] > p then vars[k] - 1 else vars[k]
  }

  /** `add_comment`. */
  function AddCommentDoc(d: Doc, comment: string): Doc {
    d.(lines := d.lines + [ParseLine("# " + comment + "\n", |d.lines| + 1)])
  }

  /** `add_blank_line`. */
  function AddBlankLineDoc(d: Doc): Doc {
    d.(lines := d.lines + [ParseLine("\n", |d.lines| + 1)])
  }

  /** `get_all_variables`, in the index's insertion order. */
  function AllVariablesDoc(d: Doc): (r: seq<(string, string)>)
    requires IndexOk(d)
    ensures |r| == |d.keys|
    ensures forall i :: 0 <= i < |r| ==> r[i].0 == d.keys[i] && GetDoc(d, d.keys[i]) == Some(r[i].1)
  {
    PairsOf(d, d.keys)
  }

  function PairsOf(d: Doc, ks: seq<string>): (r: seq<(string, string)>)
    requires IndexOk(d) && forall k :: k in ks ==> k in d.variables
    ensures |r| == |ks|
    ensures forall i :: 0 <= i < |r| ==> r[i].0 == ks[i] && GetDoc(d, ks[i]) == Some(r[i].1)
  {
    if ks == [] then [] else [(ks[0], GetDoc(d, ks[0]).value)] + PairsOf(d, ks[1..])
  }

  // ---------------------------------------------------------------------------------
  // Validation.

  /** Line `l` counts towards key `k` in the duplicate check. */
  predicate CountsFor(l: ConfigLine, k: string) { HasKey(l) && l.key.value == k }

  /** Number of lines holding key `k`. */
  function Count(ls: seq<ConfigLine>, k: string): nat {
    if ls == [] then 0
    else Count(ls[..|ls| - 1], k) + (if CountsFor(ls[|ls| - 1], k) then 1 else 0)
  }

  /** The non-empty keys of `ls`, each once, in order of first appearance (the order of
      the `key_counts` dict). */
  function FirstKeys(ls: seq<ConfigLine>): seq<string> {
    if ls == [] then []
    else
      var prev := FirstKeys(ls[..|ls| - 1]);
      var l := ls[|ls| - 1];
      if HasKey(l) && l.key.value !in prev then prev + [l.key.value] else prev
  }

  /** Of the keys `ks`, those on more than one line, in order. */
  function Duplicated(ls: seq<ConfigLine>, ks: seq<string>): seq<string> {
    if ks == [] then []
    else
      var prev := Duplicated(ls, ks[..|ks| - 1]);
      var k := ks[|ks| - 1];
      if Count(ls, k) > 1 then prev + [k] else prev
  }

  function DuplicateMessage(k: string, count: nat): string {
    "Duplicate key: " + k + " (appears " + NatToString(count) + " times)"
  }

  function Messages(ls: seq<ConfigLine>, ks: seq<string>): (r: seq<string>)
    ensures |r| == |ks|
    ensures forall i :: 0 <= i < |ks| ==> r[i] == DuplicateMessage(ks[i], Count(ls, ks[i]))
  {
    if ks == [] then [] else Messages(ls, ks[..|ks| - 1]) + [DuplicateMessage(ks[|ks| - 1], Count(ls, ks[|ks| - 1]))]
  }

  /** `validate`: one message per key that appears on more than one line. */
  function ValidateDoc(d: Doc): (bool, seq<string>) {
    var errors := Messages(d.lines, Duplicated(d.lines, FirstKeys(d.lines)));
    (errors == [], errors)
  }

  // ---------------------------------------------------------------------------------
  // Properties of `set`.

  lemma SetKeepsIndex(d: Doc, key: string, value: string, comment: Option<string>)
    requires IndexOk(d)
    ensures IndexOk(SetDoc(d, key, value, comment))
  {
    var r := SetDoc(d, key, value, comment);
    if key !in d.variables {
      forall i, j | 0 <= i < j < |r.keys| ensures r.keys[i] != r.keys[j] {
        if j == |d.keys| {
          assert r.keys[i] == d.keys[i];
        }
      }
    }
  }

  /** After `set`, `get` returns the new value, and every other key keeps its value. */
  lemma GetAfterSet(d: Doc, key: string, value: string, comment: Option<string>, other: string)
    requires IndexOk(d)
    ensures SetKeepsIndexed(d, key, value, comment)
    ensures GetDoc(SetDoc(d, key, value, comment), key) == Some(value)
    ensures other != key ==> GetDoc(SetDoc(d, key, value, comment), other) == GetDoc(d, other)
  {
    SetKeepsIndex(d, key, value, comment);
  }

  /** `SetDoc` preserves the index invariant (a name for `IndexOk` on its result, so that
      lemmas can state facts about `Get` on it). */
  predicate SetKeepsIndexed(d: Doc, key: string, value: string, comment: Option<string>)
    requires IndexOk(d)
  {
    IndexOk(SetDoc(d, key, value, comment))
  }

  /** `set` on an indexed key rewrites that line only, at the same position, to
      `key=value` plus the new comment, or the line's old comment when none is given. */
  lemma SetExistingRewritesLine(d: Doc, key: string, value: string, comment: Option<string>)
    requires IndexOk(d) && key in d.variables
    ensures var r := SetDoc(d, key, value, comment);
      var p := d.variables[key];
      var c := if Truthy(comment) then Some("# " + comment.value) else d.lines[p].inlineComment;
      |r.lines| == |d.lines| && r.variables == d.variables && r.keys == d.keys &&
      (forall i :: 0 <= i < |d.lines| && i != p ==> r.lines[i] == d.lines[i]) &&
      r.lines[p].raw == RawAssignment(key, value, c) &&
      r.lines[p].lineNumber == d.lines[p].lineNumber &&
      Serialize(r) == Concat(Raws(d.lines[..p])) + RawAssignment(key, value, c) + Concat(Raws(d.lines[p + 1..])) &&
      Serialize(d) == Concat(Raws(d.lines[..p])) + d.lines[p].raw + Concat(Raws(d.lines[p + 1..]))
  {
    var r := SetDoc(d, key, value, comment);
    var p := d.variables[key];
    SplitAround(d.lines, p);
    SplitAround(r.lines, p);
    assert r.lines[..p] == d.lines[..p];
    assert r.lines[p + 1..] == d.lines[p + 1..];
  }

  /** The serialisation of a sequence of lines, cut around position `p`. */
  lemma SplitAround(ls: seq<ConfigLine>, p: nat)
    requires p < |ls|
    ensures Concat(Raws(ls)) == Concat(Raws(ls[..p])) + ls[p].raw + Concat(Raws(ls[p + 1..]))
  {
    assert Raws(ls) == Raws(ls[..p]) + [ls[p].raw] + Raws(ls[p + 1..]);
    ConcatAppend(Raws(ls[..p]), [ls[p].raw]);
    ConcatAppend(Raws(ls[..p]) + [ls[p].raw], Raws(ls[p + 1..]));
    assert Concat([ls[p].raw]) == ls[p].raw;
  }

  /** `set` on a new key appends exactly one line, numbered after the last, holding
      `key=value` and the comment; earlier lines are untouched. */
  lemma SetNewAppendsLine(d: Doc, key: string, value: string, comment: Option<string>)
    requires IndexOk(d) && key !in d.variables
    ensures var r := SetDoc(d, key, value, comment);
      |r.lines| == |d.lines| + 1 && r.lines[..|d.lines|] == d.lines &&
      r.lines[|d.lines|].raw == RawAssignment(key, value, NewComment(comment)) &&
      r.lines[|d.lines|].lineNumber == |d.lines| + 1 &&
      r.keys == d.keys + [key] &&
      Serialize(r) == Serialize(d) + RawAssignment(key, value, NewComment(comment))
  {
    var r := SetDoc(d, key, value, comment);
    assert r.lines == d.lines + [r.lines[|d.lines|]];
    assert Raws(r.lines) == Raws(d.lines) + [r.lines[|d.lines|].raw];
    ConcatAppend(Raws(d.lines), [r.lines[|d.lines|].raw]);
    assert Concat([r.lines[|d.lines|].raw]) == r.lines[|d.lines|].raw;
  }

  /** A second identical `set` changes nothing, unless the first one appended a line
      whose value the line parser reads an inline comment into: that comment is then
      kept and written after the value by the second call. */
  lemma SetIdempotent(d: Doc, key: string, value: string, comment: Option<string>)
    requires IndexOk(d)
    requires key !in d.variables && !Truthy(comment) ==>
      ParseLine(RawAssignment(key, value, None), |d.lines| + 1).inlineComment.None?
    ensures SetKeepsIndexed(d, key, value, comment)
    ensures SetDoc(SetDoc(d, key, value, comment), key, value, comment) == SetDoc(d, key, value, comment)
  {
    SetKeepsIndex(d, key, value, comment);
  }

  // ---------------------------------------------------------------------------------
  // Properties of `parse`.

  lemma AppendKeepsIndex(d: Doc, l: ConfigLine)
    requires IndexOk(d) && (l.key.Some? <==> l.value.Some?)
    ensures IndexOk(AppendLine(d, l))
  {
    var r := AppendLine(d, l);
    if HasKey(l) && l.key.value !in d.variables {
      forall i, j | 0 <= i < j < |r.keys| ensures r.keys[i] != r.keys[j] {
        if j == |d.keys| {
          assert r.keys[i] == d.keys[i];
        }
      }
    }
  }

  lemma {:induction false} ParseKeepsIndex(d: Doc, raws: seq<string>)
    requires IndexOk(d)
    ensures IndexOk(ParseInto(d, raws))
  {
    if raws != [] {
      ParseKeepsIndex(d, raws[..|raws| - 1]);
      AppendKeepsIndex(ParseInto(d, raws[..|raws| - 1]), ParseLine(raws[|raws| - 1], |raws|));
    }
  }

  /** `parse` appends one line per raw line, numbered from 1, whatever was there before. */
  lemma {:induction false} ParseAppendsLines(d: Doc, raws: seq<string>)
    ensures var r := ParseInto(d, raws);
      |r.lines| == |d.lines| + |raws| && r.lines[..|d.lines|] == d.lines &&
      forall i :: 0 <= i < |raws| ==> r.lines[|d.lines| + i] == ParseLine(raws[i], i + 1)
  {
    if raws != [] {
      var init := raws[..|raws| - 1];
      ParseAppendsLines(d, init);
      var prev := ParseInto(d, init);
      AppendLineLines(prev, ParseLine(raws[|raws| - 1], |raws|));
      forall i | 0 <= i < |raws| - 1 ensures raws[i] == init[i] { }
    }
  }

  /** One more raw line parsed is one more `AppendLine`. */
  lemma ParseIntoStep(d: Doc, raws: seq<string>, i: nat)
    requires i < |raws|
    ensures ParseInto(d, raws[..i + 1]) == AppendLine(ParseInto(d, raws[..i]), ParseLine(raws[i], i + 1))
  {
    assert raws[..i + 1][..i] == raws[..i];
  }

  lemma AppendLineLines(d: Doc, l: ConfigLine)
    ensures AppendLine(d, l).lines == d.lines + [l]
  {
  }

  /** With nothing changed in between, writing reproduces what was parsed: `write`
      after `parse` on a fresh parser gives back the file's text exactly. */
  lemma ParseRoundTrip(text: string)
    ensures Serialize(ParseInto(EmptyDoc, SplitLines(text))) == text
  {
    var raws := SplitLines(text);
    var r := ParseInto(EmptyDoc, raws);
    ParseAppendsLines(EmptyDoc, raws);
    assert Raws(r.lines) == raws;
  }

  /** The same from the file's bytes: `parse` reads in text mode, so `write` gives back
      the newline-translated text, which is the file's own text exactly when it holds
      no carriage return (a `\r\n` file is written back with `\n` endings). */
  lemma ReadRoundTrip(text: string)
    ensures Serialize(ParseInto(EmptyDoc, SplitLines(TranslateNewlines(text)))) == TranslateNewlines(text)
    ensures Serialize(ParseInto(EmptyDoc, SplitLines(TranslateNewlines(text)))) == text <==> HasNo(text, '\r')
  {
    ParseRoundTrip(TranslateNewlines(text));
    TranslateNewlinesIdentity(text);
  }

  /** Position `p` holds the last line of `ls` that holds key `k`. */
  predicate LastOccurrence(ls: seq<ConfigLine>, k: string, p: nat) {
    p < |ls| && CountsFor(ls[p], k) && forall j :: p < j < |ls| ==> !CountsFor(ls[j], k)
  }

  /** The index holds exactly the keys that occur on some line, each at its last line. */
  ghost predicate IndexesLast(d: Doc) {
    (forall k :: k in d.variables <==> Count(d.lines, k) > 0) &&
    (forall k :: k in d.variables ==> LastOccurrence(d.lines, k, d.variables[k]))
  }

  lemma AppendIndexesLast(d: Doc, l: ConfigLine)
    requires IndexesLast(d)
    ensures IndexesLast(AppendLine(d, l))
  {
    var r := AppendLine(d, l);
    assert r.lines[..|r.lines| - 1] == d.lines;
    forall k ensures k in r.variables <==> Count(r.lines, k) > 0 {
      assert Count(r.lines, k) == Count(d.lines, k) + (if CountsFor(l, k) then 1 else 0);
    }
    forall k | k in r.variables ensures LastOccurrence(r.lines, k, r.variables[k]) {
      if !CountsFor(l, k) {
        assert LastOccurrence(d.lines, k, d.variables[k]);
      }
    }
  }

  /** The parser indexes exactly the keys that occur on some line (blank lines, comment
      lines and lines with an empty key never do), each at its last occurrence. */
  lemma {:induction false} ParseIndexesLast(raws: seq<string>)
    ensures IndexOk(ParseInto(EmptyDoc, raws)) && IndexesLast(ParseInto(EmptyDoc, raws))
  {
    ParseKeepsIndex(EmptyDoc, raws);
    if raws != [] {
      ParseIndexesLast(raws[..|raws| - 1]);
      AppendIndexesLast(ParseInto(EmptyDoc, raws[..|raws| - 1]), ParseLine(raws[|raws| - 1], |raws|));
    }
  }

  // ---------------------------------------------------------------------------------
  // Properties of `delete`.

  lemma {:induction false} CountAppend(a: seq<ConfigLine>, b: seq<ConfigLine>, k: string)
    ensures Count(a + b, k) == Count(a, k) + Count(b, k)
  {
    if b != [] {
      assert (a + b)[..|a + b| - 1] == a + b[..|b| - 1];
      CountAppend(a, b[..|b| - 1], k);
    } else {
      assert a + b == a;
    }
  }

  lemma {:induction false} CountSameKeys(a: seq<ConfigLine>, b: seq<ConfigLine>, k: string)
    requires |a| == |b| && forall i :: 0 <= i < |a| ==> a[i].key == b[i].key
    ensures Count(a, k) == Count(b, k)
  {
    if a != [] {
      CountSameKeys(a[..|a| - 1], b[..|b| - 1], k);
    }
  }

  lemma CountOne(l: ConfigLine, k: string)
    ensures Count([l], k) == if CountsFor(l, k) then 1 else 0
  {
    assert [l][..0] == [];
  }

  lemma DeleteKeepsIndex(d: Doc, key: string)
    requires IndexOk(d)
    ensures IndexOk(DeleteDoc(d, key).0)
  {
    if key in d.variables {
      var r := DeleteDoc(d, key).0;
      var p := d.variables[key];
      RemoveKeyShape(d.keys, key);
      forall k | k in r.variables
        ensures r.variables[k] < |r.lines| && r.lines[r.variables[k]].key == Some(k) && r.lines[r.variables[k]].value.Some?
      {
        var q := d.variables[k];
        assert q != p;
        if q > p {
          assert RemoveAt(d.lines, p)[q - 1] == d.lines[q];
        } else {
          assert RemoveAt(d.lines, p)[q] == d.lines[q];
        }
      }
    }
  }

  lemma {:induction false} RemoveKeyMembers(ks: seq<string>, k: string)
    ensures forall x :: x in RemoveKey(ks, k) <==> x in ks && x != k
  {
    if ks != [] {
      RemoveKeyMembers(ks[1..], k);
      assert forall x :: x in ks <==> x == ks[0] || x in ks[1..];
    }
  }

  lemma DistinctCons(x: string, t: seq<string>)
    requires Distinct(t) && x !in t
    ensures Distinct([x] + t)
  {
    forall i, j | 0 <= i < j < |[x] + t| ensures ([x] + t)[i] != ([x] + t)[j] {
      assert ([x] + t)[j] == t[j - 1];
    }
  }

  lemma DistinctTail(ks: seq<string>)
    requires ks != [] && Distinct(ks)
    ensures Distinct(ks[1..]) && ks[0] !in ks[1..]
  {
  }

  lemma {:induction false} RemoveKeyShape(ks: seq<string>, k: string)
    requires Distinct(ks)
    ensures Distinct(RemoveKey(ks, k))
    ensures forall x :: x in RemoveKey(ks, k) <==> x in ks && x != k
  {
    RemoveKeyMembers(ks, k);
    if ks != [] {
      DistinctTail(ks);
      RemoveKeyShape(ks[1..], k);
      if ks[0] != k {
        DistinctCons(ks[0], RemoveKey(ks[1..], k));
      }
    }
  }

  /** `delete` of an indexed key removes exactly its line and index entry; the other
      lines keep their order and raw text and are numbered 1..n, and every other key
      keeps its value. */
  lemma DeleteRemovesLine(d: Doc, key: string, other: string)
    requires IndexOk(d) && key in d.variables
    ensures var (r, ok) := DeleteDoc(d, key);
      var p := d.variables[key];
      ok && IndexOk(r) && key !in r.variables &&
      Raws(r.lines) == RemoveAt(Raws(d.lines), p) &&
      (forall i :: 0 <= i < |r.lines| ==> r.lines[i].lineNumber == i + 1) &&
      (other != key ==> GetDoc(r, other) == GetDoc(d, other))
  {
    DeleteKeepsIndex(d, key);
    DeleteKeepsRaws(d, key);
    DeleteKeepsOthers(d, key, other);
  }

  lemma DeleteKeepsRaws(d: Doc, key: string)
    requires IndexOk(d) && key in d.variables
    ensures var r := DeleteDoc(d, key).0;
      Raws(r.lines) == RemoveAt(Raws(d.lines), d.variables[key]) &&
      (forall i :: 0 <= i < |r.lines| ==> r.lines[i].lineNumber == i + 1)
  {
    var p := d.variables[key];
    var rest := RemoveAt(d.lines, p);
    assert DeleteDoc(d, key).0.lines == Renumber(rest);
    assert Raws(Renumber(rest)) == RemoveAt(Raws(d.lines), p);
  }

  lemma DeleteKeepsOthers(d: Doc, key: string, other: string)
    requires IndexOk(d) && key in d.variables
    ensures var r := DeleteDoc(d, key).0;
      other != key ==>
        (other in r.variables <==> other in d.variables) &&
        (other in d.variables ==>
          r.variables[other] < |r.lines| &&
          r.lines[r.variables[other]].value == d.lines[d.variables[other]].value)
  {
    var r := DeleteDoc(d, key).0;
    if other != key && other in d.variables {
      var p := d.variables[key];
      var q := d.variables[other];
      var rest := RemoveAt(d.lines, p);
      var q' := if q > p then q - 1 else q;
      assert r.variables[other] == q';
      assert rest[q'] == d.lines[q];
      assert r.lines[q'].value == rest[q'].value;
    }
  }

  /** `delete` of a key that is not indexed reports false and changes nothing. */
  lemma DeleteMissing(d: Doc, key: string)
    requires IndexOk(d) && key !in d.variables
    ensures DeleteDoc(d, key) == (d, false)
  {
  }

  lemma CountRemoveAt(ls: seq<ConfigLine>, p: nat, k: string)
    requires p < |ls|
    ensures Count(RemoveAt(ls, p), k) + (if CountsFor(ls[p], k) then 1 else 0) == Count(ls, k)
  {
    assert ls == ls[..p] + [ls[p]] + ls[p + 1..];
    CountAppend(ls[..p] + [ls[p]], ls[p + 1..], k);
    CountAppend(ls[..p], [ls[p]], k);
    CountAppend(ls[..p], ls[p + 1..], k);
    CountOne(ls[p], k);
  }

  /** Deleting a key that occurs on several lines removes only the indexed line: the
      earlier duplicates stay in the document, out of the index. */
  lemma DeleteDuplicateLeavesEarlier(d: Doc, key: string)
    requires IndexOk(d) && key in d.variables && key != [] && Count(d.lines, key) > 1
    ensures var r := DeleteDoc(d, key).0;
      key !in r.variables && Count(r.lines, key) == Count(d.lines, key) - 1
  {
    var p := d.variables[key];
    var rest := RemoveAt(d.lines, p);
    assert CountsFor(d.lines[p], key);
    CountRemoveAt(d.lines, p, key);
    CountSameKeys(Renumber(rest), rest, key);
  }

  // ---------------------------------------------------------------------------------
  // Properties of `validate`.

  lemma {:induction false} FirstKeysShape(ls: seq<ConfigLine>)
    ensures Distinct(FirstKeys(ls))
    ensures forall k :: k in FirstKeys(ls) <==> Count(ls, k) > 0
  {
    if ls != [] {
      FirstKeysShape(ls[..|ls| - 1]);
      var prev := FirstKeys(ls[..|ls| - 1]);
      var l := ls[|ls| - 1];
      if HasKey(l) && l.key.value !in prev {
        forall i, j | 0 <= i < j < |prev + [l.key.value]|
          ensures (prev + [l.key.value])[i] != (prev + [l.key.value])[j]
        {
          assert (prev + [l.key.value])[i] == prev[i];
        }
      }
    }
  }

  lemma {:induction false} DuplicatedShape(ls: seq<ConfigLine>, ks: seq<string>)
    requires Distinct(ks)
    ensures Distinct(Duplicated(ls, ks))
    ensures forall k :: k in Duplicated(ls, ks) <==> k in ks && Count(ls, k) > 1
  {
    if ks != [] {
      var init := ks[..|ks| - 1];
      assert Distinct(init) by {
        forall i, j | 0 <= i < j < |init| ensures init[i] != init[j] {
          assert init[i] == ks[i] && init[j] == ks[j];
        }
      }
      DuplicatedShape(ls, init);
      assert forall k :: k in ks <==> k in init || k == ks[|ks| - 1];
      var prev := Duplicated(ls, init);
      var k := ks[|ks| - 1];
      assert k !in init;
      if Count(ls, k) > 1 {
        forall i, j | 0 <= i < j < |prev + [k]| ensures (prev + [k])[i] != (prev + [k])[j] {
          assert (prev + [k])[i] == prev[i];
        }
      }
    }
  }

  /** No key is on more than one line. */
  ghost predicate NoDuplicates(ls: seq<ConfigLine>) {
    forall k :: Count(ls, k) <= 1
  }

  /** `validate` succeeds exactly when no key is on more than one line; otherwise it
      gives one message per duplicated key (each such key once, in order of first
      appearance), naming the key and its number of lines. */
  lemma ValidateReportsDuplicates(d: Doc)
    ensures ValidateDoc(d).0 <==> NoDuplicates(d.lines)
    ensures var dups := Duplicated(d.lines, FirstKeys(d.lines));
      Distinct(dups) && (forall k :: k in dups <==> Count(d.lines, k) > 1)
    ensures var errors := ValidateDoc(d).1; var dups := Duplicated(d.lines, FirstKeys(d.lines));
      |errors| == |dups| &&
      forall i :: 0 <= i < |dups| ==> errors[i] == DuplicateMessage(dups[i], Count(d.lines, dups[i]))
  {
    var ks := FirstKeys(d.lines);
    FirstKeysShape(d.lines);
    DuplicatedShape(d.lines, ks);
    var dups := Duplicated(d.lines, ks);
    if !NoDuplicates(d.lines) {
      var k :| Count(d.lines, k) > 1;
      assert k in dups;
      assert ValidateDoc(d).1 == Messages(d.lines, dups);
      assert ValidateDoc(d).1 != [];
      assert !ValidateDoc(d).0;
    } else {
      assert ValidateDoc(d).1 == Messages(d.lines, dups);
      assert ValidateDoc(d).0;
    }
  }

  // ---------------------------------------------------------------------------------
  // Properties of `add_comment` and `add_blank_line`.

  /** `add_comment` appends one line `# comment` that holds no key: nothing indexed
      changes, and the file gains exactly that line. */
  lemma AddCommentAppends(d: Doc, comment: string, key: string)
    requires IndexOk(d)
    ensures var r := AddCommentDoc(d, comment);
      IndexOk(r) && GetDoc(r, key) == GetDoc(d, key) &&
      |r.lines| == |d.lines| + 1 && r.lines[|d.lines|].key.None? &&
      Serialize(r) == Serialize(d) + "# " + comment + "\n"
  {
    var raw := "# " + comment + "\n";
    StripKeepsHead(raw);
    var r := AddCommentDoc(d, comment);
    assert Raws(r.lines) == Raws(d.lines) + [raw];
    ConcatAppend(Raws(d.lines), [raw]);
  }

  /** `add_blank_line` appends one empty line in the same way. */
  lemma AddBlankLineAppends(d: Doc, key: string)
    requires IndexOk(d)
    ensures var r := AddBlankLineDoc(d);
      IndexOk(r) && GetDoc(r, key) == GetDoc(d, key) &&
      |r.lines| == |d.lines| + 1 && r.lines[|d.lines|].key.None? &&
      Serialize(r) == Serialize(d) + "\n"
  {
    var r := AddBlankLineDoc(d);
    assert TrimLeft("\n") == [];
    assert Raws(r.lines) == Raws(d.lines) + ["\n"];
    ConcatAppend(Raws(d.lines), ["\n"]);
  }

  // ---------------------------------------------------------------------------------
  // Behaviour on particular lines.

  /** A line `key="body"  # comment` as `set` writes it reads back as that key, the
      quoted value and the comment. */
  lemma ReparseQuoted(key: string, body: string, comment: Option<string>, n: nat)
    requires key != [] && key[0] != '#' && Trimmed(key)
    requires HasNo(key, '=') && HasNo(key, '"') && HasNo(key, '\'') && HasNo(key, '#')
    requires HasNo(body, '"') && HasNo(body, '#') && (body == [] || body[|body| - 1] != '\\')
    requires Truthy(comment) ==> comment.value[0] == '#' && Trimmed(comment.value)
    ensures var l := ParseLine(RawAssignment(key, "\"" + body + "\"", comment), n);
      l.key == Some(key) && l.value == Some("\"" + body + "\"") &&
      l.inlineComment == (if Truthy(comment) then comment else None)
  {
    var value := "\"" + body + "\"";
    QuotedInert(key, body);
    assert key + "=" + value == key + "=" + "\"" + body + "\"";
    ReparseAssignment(key, value, comment, n);
  }

  /** The rc.conf line of the test fixtures parses into its key, its value with the
      quotes kept, and its inline comment. */
  lemma ExampleCommentedAssignment(raw: string, key: string, body: string, comment: string)
    requires key == "hostname" && body == "freebsd.local" && comment == "# Main hostname"
    requires raw == RawAssignment(key, "\"" + body + "\"", Some(comment))
    ensures var l := ParseLine(raw, 1);
      l.key == Some(key) && l.value == Some("\"" + body + "\"") && l.inlineComment == Some(comment)
  {
    assert Trimmed(comment);
    ReparseQuoted(key, body, Some(comment), 1);
  }

  lemma ParseHashLine(raw: string)
    requires raw == "a=x#y\n"
    ensures var l := ParseLine(raw, 1);
      l.key == Some("a") && l.value == Some("x") && l.inlineComment == Some("#y")
  {
    var stripped := "a=x#y";
    assert raw == stripped + "\n";
    StripPadded(stripped, "\n");
    assert CommentStart(stripped) == Some(3) by {
      assert StateAt(stripped, 3) == Outside;
      assert CommentAt(stripped, 3);
    }
    var code := stripped[..3];
    assert code == "a" + ['='] + "x";
    assert stripped[3..] == "#y";
    StripNoSpace(code);
    StripNoSpace("#y");
    IndexOfAfter("a", '=', "x");
    assert code[..1] == "a" && code[2..] == "x";
    StripNoSpace("a");
    StripNoSpace("x");
  }

  lemma RawHashTwice(value: string)
    requires value == "x#y"
    ensures RawAssignment("a", value, Some("#y")) == "a=x#y  #y\n"
  {
    assert Truthy(Some("#y"));
  }

  /** A value holding an unquoted `#` is taken apart on re-reading: after
      `set("a", "x#y")` the new line's own parse sees value `x` and comment `#y`, which
      the line keeps as its inline comment, so a second identical `set` writes
      `a=x#y  #y`. */
  lemma ExampleHashInValue(value: string)
    requires value == "x#y"
    ensures var d1 := SetDoc(EmptyDoc, "a", value, None);
      GetDoc(d1, "a") == Some(value) &&
      ParseLine(d1.lines[0].raw, 1).value == Some("x") &&
      d1.lines[0].inlineComment == Some("#y") &&
      Serialize(SetDoc(d1, "a", value, None)) == "a=x#y  #y\n"
  {
    var raw := RawAssignment("a", value, None);
    assert raw == "a=x#y\n";
    ParseHashLine(raw);
    var d1 := SetDoc(EmptyDoc, "a", value, None);
    assert d1.lines[0].raw == raw;
    assert d1.lines[0].inlineComment == Some("#y");
    var d2 := SetDoc(d1, "a", value, None);
    assert d2.lines[0].raw == RawAssignment("a", value, Some("#y"));
    RawHashTwice(value);
    assert Raws(d2.lines) == [d2.lines[0].raw];
    assert Raws(d2.lines)[1..] == [];
    assert Serialize(d2) == d2.lines[0].raw + Concat([]);
  }

  /** The list comprehension of `delete`: every line but the one at `p`. */
  method Without(ls: seq<ConfigLine>, p: nat) returns (kept: seq<ConfigLine>)
    requires p < |ls|
    ensures kept == RemoveAt(ls, p)
  {
    kept := [];
    var i := 0;
    while i < |ls|
      invariant 0 <= i <= |ls|
      invariant kept == if i <= p then ls[..i] else ls[..p] + ls[p + 1..i]
    {
      if i != p {
        kept := kept + [ls[i]];
      }
      i := i + 1;
    }
  }

  /** The renumbering loop of `delete`: line `i` (from 0) gets number `i + 1`. */
  method Renumbered(ls: seq<ConfigLine>) returns (r: seq<ConfigLine>)
    ensures r == Renumber(ls)
  {
    r := ls;
    var j := 0;
    while j < |r|
      invariant 0 <= j <= |r| && |r| == |ls|
      invariant forall i :: 0 <= i < j ==> r[i] == ls[i].(lineNumber := i + 1)
      invariant forall i :: j <= i < |r| ==> r[i] == ls[i]
    {
      r := r[j := r[j].(lineNumber := j + 1)];
      j := j + 1;
    }
  }

  /** The writing loop of `write`: the raw lines, concatenated in order. */
  method Render(ls: seq<ConfigLine>) returns (text: string)
    ensures text == Concat(Raws(ls))
  {
    text := "";
    var i := 0;
    while i < |ls|
      invariant 0 <= i <= |ls|
      invariant text == Concat(Raws(ls[..i]))
    {
      assert Raws(ls[..i + 1]) == Raws(ls[..i]) + [ls[i].raw];
      ConcatAppend(Raws(ls[..i]), [ls[i].raw]);
      text := text + ls[i].raw;
      i := i + 1;
    }
    assert ls[..i] == ls;
  }

  /** The first loop of `validate`: `key_counts`, the number of lines of each key, and
      the order in which the keys first appear. */
  method CountKeys(ls: seq<ConfigLine>) returns (counts: map<string, nat>, order: seq<string>)
    ensures order == FirstKeys(ls)
    ensures forall k :: k in counts <==> Count(ls, k) > 0
    ensures forall k :: k in counts ==> counts[k] == Count(ls, k)
  {
    counts := map[];
    order := [];
    var i := 0;
    while i < |ls|
      invariant 0 <= i <= |ls|
      invariant order == FirstKeys(ls[..i])
      invariant forall k :: k in counts <==> Count(ls[..i], k) > 0
      invariant forall k :: k in counts ==> counts[k] == Count(ls[..i], k)
    {
      assert ls[..i + 1][..i] == ls[..i];
      FirstKeysShape(ls[..i]);
      var l := ls[i];
      if HasKey(l) {
        var k := l.key.value;
        if k !in counts {
          order := order + [k];
          counts := counts[k := 1];
        } else {
          counts := counts[k := counts[k] + 1];
        }
      }
      i := i + 1;
    }
    assert ls[..i] == ls;
  }

  /** The second loop of `validate`: a message for each counted key seen more than once. */
  method Report(ls: seq<ConfigLine>, counts: map<string, nat>, order: seq<string>) returns (errors: seq<string>)
    requires forall k :: k in order ==> k in counts && counts[k] == Count(ls, k)
    ensures errors == Messages(ls, Duplicated(ls, order))
  {
    errors := [];
    var j := 0;
    while j < |order|
      invariant 0 <= j <= |order|
      invariant errors == Messages(ls, Duplicated(ls, order[..j]))
    {
      assert order[..j + 1][..j] == order[..j];
      var k := order[j];
      assert k in order;
      if counts[k] > 1 {
        errors := errors + [DuplicateMessage(k, counts[k])];
      }
      j := j + 1;
    }
    assert order[..j] == order;
  }

  // ---------------------------------------------------------------------------------
  // The parser object.

  /** `ConfigParser(file_path)`. The file on disk is the field `file` (`None` when it
      does not exist) and its `.bak` copy is `backupFile`. */
  class ConfigParser {
    var lines: seq<ConfigLine>
    var variables: map<string, nat>
    var keys: seq<string>
    var file: Option<string>
    var backupFile: Option<string>

    function Model(): Doc
      reads this`lines, this`variables, this`keys
    {
      Doc(lines, variables, keys)
    }

    predicate Valid()
      reads this`lines, this`variables, this`keys
    {
      IndexOk(Model())
    }

    constructor (file: Option<string>, backupFile: Option<string>)
      ensures Valid() && Model() == EmptyDoc
      ensures this.file == file && this.backupFile == backupFile
    {
      lines := [];
      variables := map[];
      keys := [];
      this.file := file;
      this.backupFile := backupFile;
    }

    /** `parse`: false when the file does not exist; otherwise every line of it, as
        text-mode reading yields it, is appended (numbered from 1) and indexed. */
    method Parse() returns (ok: bool)
      requires Valid()
      modifies this
      ensures Valid()
      ensures file == old(file) && backupFile == old(backupFile)
      ensures ok <==> file.Some?
      ensures Model() == if ok then ParseInto(old(Model()), SplitLines(TranslateNewlines(file.value))) else old(Model())
    {
      if file.None? {
        return false;
      }
      var raws := SplitLines(TranslateNewlines(file.value));
      ghost var d0 := Model();
      var i := 0;
      while i < |raws|
        invariant 0 <= i <= |raws|
        invariant Model() == ParseInto(d0, raws[..i])
        invariant file == old(file) && backupFile == old(backupFile)
      {
        ParseIntoStep(d0, raws, i);
        var l := ReadLine(raws[i], i + 1);
        Add(l);
        i := i + 1;
      }
      assert raws[..i] == raws;
      ParseKeepsIndex(d0, raws);
      return true;
    }

    /** The body of `parse`'s loop: the line is appended, and indexed when it has a
        key. */
    method Add(l: ConfigLine)
      modifies this`lines, this`variables, this`keys
      ensures Model() == AppendLine(old(Model()), l)
    {
      if HasKey(l) {
        if l.key.value !in variables {
          keys := keys + [l.key.value];
        }
        variables := variables[l.key.value := |lines|];
      }
      lines := lines + [l];
    }

    /** `get`: the value of an indexed key, `None` for one that is not (the caller
        applies its default). */
    function Get(key: string): (r: Option<string>)
      requires Valid()
      reads this
      ensures r.Some? <==> key in variables
      ensures r.Some? ==> lines[variables[key]].key == Some(key) && lines[variables[key]].value == r
    {
      GetDoc(Model(), key)
    }

    /** `get_all_variables`: every indexed key with its value, in insertion order. */
    function AllVariables(): (r: seq<(string, string)>)
      requires Valid()
      reads this
      ensures |r| == |keys|
      ensures forall k, v :: (k, v) in r ==> Get(k) == Some(v)
      ensures forall k :: k in variables ==> exists v :: (k, v) in r
    {
      var pairs := AllVariablesDoc(Model());
      assert forall k :: k in variables ==> k in keys;
      assert forall i :: 0 <= i < |pairs| ==> pairs[i] in pairs;
      pairs
    }

    /** `set` */
    method Set(key: string, value: string, comment: Option<string>)
      requires Valid()
      modifies this
      ensures Valid() && Model() == SetDoc(old(Model()), key, value, comment)
      ensures file == old(file) && backupFile == old(backupFile)
    {
      SetKeepsIndex(Model(), key, value, comment);
      if key in variables {
        Rewrite(key, value, comment);
      } else {
        AppendNew(key, value, comment);
      }
    }

    /** The branch of `set` for an indexed key: its line is rewritten in place. */
    method Rewrite(key: string, value: string, comment: Option<string>)
      requires Valid() && key in variables
      modifies this`lines
      ensures Model() == SetDoc(old(Model()), key, value, comment)
    {
      var p := variables[key];
      var l := lines[p];
      var c := if Truthy(comment) then NewComment(comment) else l.inlineComment;
      lines := lines[p := l.(value := Some(value), inlineComment := c, raw := RawAssignment(key, value, c))];
    }

    /** The branch of `set` for a new key: a line is parsed from `key=value`, given the
        key and value, and appended and indexed. */
    method AppendNew(key: string, value: string, comment: Option<string>)
      requires Valid() && key !in variables
      modifies this`lines, this`variables, this`keys
      ensures Model() == SetDoc(old(Model()), key, value, comment)
    {
      var parsed := ReadLine(RawAssignment(key, value, NewComment(comment)), |lines| + 1);
      var l := parsed.(key := Some(key), value := Some(value));
      if Truthy(comment) {
        l := l.(inlineComment := NewComment(comment));
      }
      variables := variables[key := |lines|];
      keys := keys + [key];
      lines := lines + [l];
    }

    /** `delete`: the list is rebuilt without the indexed line (by identity, which here
        is its position) and the rest renumbered by a second loop. */
    method Delete(key: string) returns (ok: bool)
      requires Valid()
      modifies this
      ensures Valid() && (Model(), ok) == DeleteDoc(old(Model()), key)
      ensures file == old(file) && backupFile == old(backupFile)
    {
      DeleteKeepsIndex(Model(), key);
      if key !in variables {
        return false;
      }
      var p := variables[key];
      var kept := Without(lines, p);
      kept := Renumbered(kept);
      lines := kept;
      variables := Unindex(variables, key, p);
      keys := RemoveKey(keys, key);
      return true;
    }

    /** `write`: with `backup` and an existing file, the file is first copied to the
        `.bak` file; then every line's raw text is written, in order. */
    method Write(backup: bool) returns (ok: bool)
      modifies this
      ensures ok && Model() == old(Model())
      ensures file == Some(Serialize(Model()))
      ensures backupFile == if backup && old(file).Some? then old(file) else old(backupFile)
    {
      if backup && file.Some? {
        backupFile := file;
      }
      var text := Render(lines);
      file := Some(text);
      return true;
    }

    /** `validate`: a first loop counts the lines of each key, in order of first
        appearance; a second reports the keys counted more than once. */
    method Validate() returns (ok: bool, errors: seq<string>)
      ensures (ok, errors) == ValidateDoc(Model())
    {
      var counts, order := CountKeys(lines);
      FirstKeysShape(lines);
      errors := Report(lines, counts, order);
      ok := |errors| == 0;
    }

    /** `add_comment` */
    method AddComment(comment: string)
      modifies this
      ensures Model() == AddCommentDoc(old(Model()), comment)
      ensures file == old(file) && backupFile == old(backupFile)
    {
      var l := ReadLine("# " + comment + "\n", |lines| + 1);
      lines := lines + [l];
    }

    /** `add_blank_line` */
    method AddBlankLine()
      modifies this
      ensures Model() == AddBlankLineDoc(old(Model()))
      ensures file == old(file) && backupFile == old(backupFile)
    {
      var l := ReadLine("\n", |lines| + 1);
      lines := lines + [l];
    }
  }
}
