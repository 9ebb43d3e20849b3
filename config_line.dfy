/** One line of a shell-style configuration file (`ConfigLine` in
    `bsd_netgui/utils/config_parser.py`): its raw text, classification as blank,
    comment or assignment, the inline comment split off by a quote-tracking scan, and
    the key/value split on the first `=`. */
module ConfigLines {
  import opened Wrappers
  import opened Text

  /** A parsed line. `raw` keeps the line terminator; `lineNumber` is 1-based. */
  datatype ConfigLine = ConfigLine(
    raw: string,
    lineNumber: nat,
    key: Option<string>,
    value: Option<string>,
    inlineComment: Option<string>)

  /** Python truthiness of an optional string: present and non-empty. */
  predicate Truthy(s: Option<string>) { s.Some? && s.value != [] }

  /** `is_comment` of a stripped line: empty, or starting with `#`. */
  predicate IsCommentText(stripped: string) { stripped == [] || stripped[0] == '#' }

  predicate IsQuote(c: char) { c == '"' || c == '\'' }

  /** Character `i` is a quote that is not preceded by a backslash. */
  predicate UnescapedQuoteAt(line: string, i: nat)
    requires i < |line|
  {
    IsQuote(line[i]) && (i == 0 || line[i - 1] != '\\')
  }

  /** The scan's `in_quotes`/`quote_char` pair. */
  datatype QuoteState = Outside | Inside(quote: char)

  /** Effect of an unescaped quote character: it opens a pair when outside, and closes
      the pair only when it is the character that opened it. */
  function Advance(st: QuoteState, c: char): QuoteState {
    match st
    case Outside => Inside(c)
    case Inside(q) => if c == q then Outside else st
  }

  /** The quote state once the scan has read `line[..i]`. */
  function StateAt(line: string, i: nat): QuoteState
    requires i <= |line|
  {
    if i == 0 then Outside
    else if UnescapedQuoteAt(line, i - 1) then Advance(StateAt(line, i - 1), line[i - 1])
    else StateAt(line, i - 1)
  }

  /** Character `i` is a `#` outside every quote pair. */
  predicate CommentAt(line: string, i: nat)
    requires i < |line|
  {
    line[i] == '#' && StateAt(line, i).Outside?
  }

  /** Position of the first `#` outside every quote pair at or after `from`. */
  function CommentFrom(line: string, from: nat): (r: Option<nat>)
    requires from <= |line|
    ensures r.Some? ==> from <= r.value < |line| && CommentAt(line, r.value)
    ensures r.Some? ==> forall j :: from <= j < r.value ==> !CommentAt(line, j)
    ensures r.None? ==> forall j :: from <= j < |line| ==> !CommentAt(line, j)
    decreases |line| - from
  {
    if from == |line| then None
    else if CommentAt(line, from) then Some(from)
    else CommentFrom(line, from + 1)
  }

  /** Where the inline comment starts: the first `#` outside every quote pair. */
  function CommentStart(line: string): Option<nat> {
    CommentFrom(line, 0)
  }

  /** The character loop of `_parse_key_value` (bsd_netgui/utils/config_parser.py:42-57),
      with its `in_quotes` and `quote_char` variables, finds exactly `CommentStart`. */
  method FindInlineComment(line: string) returns (r: Option<nat>)
    ensures r == CommentStart(line)
  {
    if HasNo(line, '#') {
      assert forall j :: 0 <= j < |line| ==> !CommentAt(line, j);
      return None;
    }
    var inQuotes := false;
    var quoteChar: Option<char> := None;
    var i := 0;
    while i < |line|
      invariant 0 <= i <= |line|
      invariant inQuotes <==> quoteChar.Some?
      invariant StateAt(line, i) == if inQuotes then Inside(quoteChar.value) else Outside
      invariant forall j :: 0 <= j < i ==> !CommentAt(line, j)
    {
      var c := line[i];
      if IsQuote(c) && (i == 0 || line[i - 1] != '\\') {
        if !inQuotes {
          inQuotes := true;
          quoteChar := Some(c);
        } else if c == quoteChar.value {
          inQuotes := false;
          quoteChar := None;
        }
      } else if c == '#' && !inQuotes {
        FirstCommentIsStart(line, i);
        return Some(i);
      }
      i := i + 1;
    }
    return None;
  }

  /** The first unquoted `#` is where `CommentStart` points. */
  lemma FirstCommentIsStart(line: string, i: nat)
    requires i < |line| && CommentAt(line, i)
    requires forall j :: 0 <= j < i ==> !CommentAt(line, j)
    ensures CommentStart(line) == Some(i)
  {
  }

  /** The part of a stripped line before its inline comment, and the comment itself
      (which keeps its `#`). */
  function SplitComment(stripped: string): (string, Option<string>) {
    match CommentStart(stripped)
    case None => (stripped, None)
    case Some(i) => (Strip(stripped[..i]), Some(Strip(stripped[i..])))
  }

  /** `ConfigLine(raw_line, line_number)`: a blank or `#` line carries nothing; any
      other line may carry an inline comment, and carries a key and a value exactly
      when what precedes the comment has an `=`. */
  function ParseLine(raw: string, n: nat): (l: ConfigLine)
    ensures l.raw == raw && l.lineNumber == n
    ensures IsCommentText(Strip(raw)) ==> l.key.None? && l.value.None? && l.inlineComment.None?
    ensures l.key.Some? <==> l.value.Some?
    ensures l.key.Some? ==> HasNo(l.key.value, '=')
    ensures l.inlineComment.Some? ==> l.inlineComment.value != [] && l.inlineComment.value[0] == '#'
  {
    var stripped := Strip(raw);
    if IsCommentText(stripped) then ConfigLine(raw, n, None, None, None)
    else
      var (code, comment) := SplitComment(stripped);
      assert comment.Some? ==> comment.value != [] && comment.value[0] == '#' by {
        if comment.Some? {
          var i := CommentStart(stripped).value;
          StripKeepsHead(stripped[i..]);
        }
      }
      match IndexOf(code, '=')
      case None => ConfigLine(raw, n, None, None, comment)
      case Some(j) =>
        StripHasNo(code[..j], '=');
        ConfigLine(raw, n, Some(Strip(code[..j])), Some(Strip(code[j + 1..])), comment)
  }

  /** `ConfigLine(raw_line, line_number)` as the constructor runs it: the comment search
      is the character loop of `FindInlineComment`. */
  method ReadLine(raw: string, n: nat) returns (l: ConfigLine)
    ensures l == ParseLine(raw, n)
  {
    var stripped := Strip(raw);
    l := ConfigLine(raw, n, None, None, None);
    if IsCommentText(stripped) {
      return;
    }
    var code := stripped;
    var start := FindInlineComment(stripped);
    if start.Some? {
      l := l.(inlineComment := Some(Strip(stripped[start.value..])));
      code := Strip(stripped[..start.value]);
    }
    var eq := IndexOf(code, '=');
    if eq.Some? {
      l := l.(key := Some(Strip(code[..eq.value])), value := Some(Strip(code[eq.value + 1..])));
    }
  }

  lemma StripHasNo(s: string, c: char)
    requires HasNo(s, c)
    ensures HasNo(Strip(s), c)
  {
    var i, j := StripSlice(s);
    assert forall k :: 0 <= k < j - i ==> Strip(s)[k] == s[i + k];
  }

  /** Stripping a string that starts with a non-space character keeps that character. */
  lemma StripKeepsHead(s: string)
    requires s != [] && !IsSpace(s[0])
    ensures Strip(s) != [] && Strip(s)[0] == s[0]
  {
    assert TrimLeft(s) == s;
    TrimRightShape(s);
  }

  /** The text of an assignment line as `set` writes it: `key=value`, then two spaces
      and the inline comment when there is a non-empty one, then a newline. */
  function RawAssignment(key: string, value: string, comment: Option<string>): string {
    key + "=" + value + (if Truthy(comment) then "  " + comment.value else "") + "\n"
  }

  // ---------------------------------------------------------------------------------
  // Properties of the quote scan.

  /** A `#` after an opening quote that is never closed does not start a comment: the
      split, if any, happens before that quote. */
  lemma {:induction false} UnclosedQuoteNoSplit(line: string, i: nat)
    requires i < |line| && StateAt(line, i).Outside? && UnescapedQuoteAt(line, i)
    requires forall j :: i < j < |line| ==> !(UnescapedQuoteAt(line, j) && line[j] == line[i])
    ensures CommentStart(line).None? || CommentStart(line).value < i
  {
    forall k | i < k < |line| ensures !CommentAt(line, k) {
      StaysInside(line, i, k);
    }
  }

  lemma {:induction false} StaysInside(line: string, i: nat, k: nat)
    requires i < k <= |line| && StateAt(line, i).Outside? && UnescapedQuoteAt(line, i)
    requires forall j :: i < j < |line| ==> !(UnescapedQuoteAt(line, j) && line[j] == line[i])
    ensures StateAt(line, k) == Inside(line[i])
  {
    if k > i + 1 {
      StaysInside(line, i, k - 1);
    }
  }

  /** The scan over a prefix does not look past it. */
  lemma {:induction false} StatePrefix(a: string, b: string, k: nat)
    requires k <= |a|
    ensures StateAt(a + b, k) == StateAt(a, k)
  {
    if k > 0 {
      StatePrefix(a, b, k - 1);
      assert (a + b)[k - 1] == a[k - 1];
      if k > 1 {
        assert (a + b)[k - 2] == a[k - 2];
      }
    }
  }

  /** Code with no unquoted `#` that leaves every quote pair closed. */
  predicate Inert(code: string) {
    CommentStart(code).None? && StateAt(code, |code|).Outside?
  }

  lemma NoHashNoComment(line: string)
    requires HasNo(line, '#')
    ensures CommentStart(line).None?
  {
  }

  /** Appending `"  " + c` to inert code puts the inline comment exactly at `c`. */
  lemma CommentAfterInert(code: string, c: string)
    requires Inert(code) && c != [] && c[0] == '#'
    ensures CommentStart(code + "  " + c) == Some(|code| + 2)
  {
    var line := code + "  " + c;
    assert line == code + ("  " + c);
    forall j | 0 <= j < |code| ensures !CommentAt(line, j) {
      StatePrefix(code, "  " + c, j);
      assert line[j] == code[j];
      assert !CommentAt(code, j);
    }
    StatePrefix(code, "  " + c, |code|);
    assert line[|code|] == ' ' && line[|code| + 1] == ' ' && line[|code| + 2] == '#';
    assert StateAt(line, |code| + 2) == Outside;
    FirstCommentIsStart(line, |code| + 2);
  }

  /** Re-parsing a line that `set` wrote gives back its key, its value and its comment,
      provided the key has no `=`, neither starts a comment nor carries surrounding
      whitespace, the value is trimmed, and `key=value` is inert. */
  lemma ReparseAssignment(key: string, value: string, comment: Option<string>, n: nat)
    requires Trimmed(key) && Trimmed(value) && HasNo(key, '=')
    requires key == [] || key[0] != '#'
    requires Inert(key + "=" + value)
    requires Truthy(comment) ==> comment.value[0] == '#' && Trimmed(comment.value)
    ensures var l := ParseLine(RawAssignment(key, value, comment), n);
      l.key == Some(key) && l.value == Some(value) &&
      l.inlineComment == (if Truthy(comment) then comment else None)
  {
    if Truthy(comment) {
      assert RawAssignment(key, value, comment) == key + "=" + value + "  " + comment.value + "\n";
      ReparseCommented(key, value, comment.value, n);
    } else {
      assert RawAssignment(key, value, comment) == key + "=" + value + "\n";
      ReparsePlain(key, value, n);
    }
  }

  lemma ReparsePlain(key: string, value: string, n: nat)
    requires Trimmed(key) && Trimmed(value) && HasNo(key, '=')
    requires key == [] || key[0] != '#'
    requires Inert(key + "=" + value)
    ensures var raw := key + "=" + value + "\n";
      ParseLine(raw, n) == ConfigLine(raw, n, Some(key), Some(value), None)
  {
    var code := key + "=" + value;
    AssignmentCode(key, value);
    StripPadded(code, "\n");
    ParseAssignmentLine(code + "\n", n, code, code, None, |key|);
  }

  lemma ReparseCommented(key: string, value: string, c: string, n: nat)
    requires Trimmed(key) && Trimmed(value) && HasNo(key, '=')
    requires key == [] || key[0] != '#'
    requires Inert(key + "=" + value)
    requires c != [] && c[0] == '#' && Trimmed(c)
    ensures var raw := key + "=" + value + "  " + c + "\n";
      ParseLine(raw, n) == ConfigLine(raw, n, Some(key), Some(value), Some(c))
  {
    var code := key + "=" + value;
    AssignmentCode(key, value);
    ReparseWithComment(code, c);
    ParseAssignmentLine(code + "  " + c + "\n", n, code + "  " + c, code, Some(c), |key|);
  }

  lemma ReparseWithComment(code: string, c: string)
    requires code != [] && !IsSpace(code[0]) && !IsSpace(code[|code| - 1]) && Inert(code)
    requires c != [] && c[0] == '#' && Trimmed(c)
    ensures Strip(code + "  " + c + "\n") == code + "  " + c
    ensures SplitComment(code + "  " + c) == (code, Some(c))
  {
    var stripped := code + "  " + c;
    StripPadded(stripped, "\n");
    CommentAfterInert(code, c);
    assert stripped[..|code| + 2] == code + "  ";
    StripPadded(code, "  ");
    assert stripped[|code| + 2..] == c;
    StripNoSpace(c);
  }

  /** `ParseLine` on a line whose pieces are known. */
  lemma ParseAssignmentLine(raw: string, n: nat, stripped: string, code: string, comment: Option<string>, j: nat)
    requires Strip(raw) == stripped && !IsCommentText(stripped)
    requires SplitComment(stripped) == (code, comment)
    requires IndexOf(code, '=') == Some(j)
    requires Trimmed(code[..j]) && Trimmed(code[j + 1..])
    ensures ParseLine(raw, n) == ConfigLine(raw, n, Some(code[..j]), Some(code[j + 1..]), comment)
  {
    StripNoSpace(code[..j]);
    StripNoSpace(code[j + 1..]);
  }

  /** `key=value` with a trimmed, `=`-free key starts and ends with non-space
      characters and splits back at its first `=`. */
  lemma AssignmentCode(key: string, value: string)
    requires Trimmed(key) && Trimmed(value) && HasNo(key, '=')
    ensures var code := key + "=" + value;
      !IsSpace(code[0]) && !IsSpace(code[|code| - 1]) &&
      IndexOf(code, '=') == Some(|key|) && code[..|key|] == key && code[|key| + 1..] == value
  {
    var code := key + "=" + value;
    assert code[|key|] == '=';
    IndexOfAfter(key, '=', value);
    assert code[..|key|] == key && code[|key| + 1..] == value;
  }

  /** No quote in `line[i..j]` changes the state at `i`: either none is unescaped, or
      the state is inside a pair that none of them closes. */
  lemma {:induction false} StateSkips(line: string, i: nat, j: nat)
    requires i <= j <= |line|
    requires forall k :: i <= k < j ==> line[k] != '"' && (line[k] != '\'' || StateAt(line, i).Inside?)
    requires StateAt(line, i).Inside? ==> StateAt(line, i).quote == '"'
    ensures StateAt(line, j) == StateAt(line, i)
  {
    if j > i {
      StateSkips(line, i, j - 1);
    }
  }

  /** `key="body"` with no quote or `#` in the key and no `"` or `#` in the body, the body
      not ending in a backslash, holds no comment and leaves every quote closed. This is
      the shape of the quoted values the rc.conf handler writes. */
  lemma QuotedInert(key: string, body: string)
    requires HasNo(key, '"') && HasNo(key, '\'') && HasNo(key, '#')
    requires HasNo(body, '"') && HasNo(body, '#') && (body == [] || body[|body| - 1] != '\\')
    ensures Inert(key + "=" + "\"" + body + "\"")
  {
    var code := key + "=" + "\"" + body + "\"";
    var n := |key|;
    assert HasNo(code, '#') by {
      forall k | 0 <= k < |code| ensures code[k] != '#' {
        if k < n { assert code[k] == key[k]; }
        else if n + 1 < k < |code| - 1 { assert code[k] == body[k - n - 2]; }
      }
    }
    NoHashNoComment(code);
    forall k | 0 <= k < n + 1 ensures code[k] != '"' && code[k] != '\'' {
      if k < n { assert code[k] == key[k]; }
    }
    StateSkips(code, 0, n + 1);
    assert code[n + 1] == '"' && code[n] == '=';
    assert StateAt(code, n + 2) == Inside('"');
    forall k | n + 2 <= k < |code| - 1 ensures code[k] != '"' {
      assert code[k] == body[k - n - 2];
    }
    StateSkips(code, n + 2, |code| - 1);
    if body != [] {
      assert code[|code| - 2] == body[|body| - 1];
    }
    assert UnescapedQuoteAt(code, |code| - 1);
  }

  /** Code without quotes or `#` holds no comment and leaves no quote open. */
  lemma PlainInert(code: string)
    requires HasNo(code, '#') && HasNo(code, '"') && HasNo(code, '\'')
    ensures Inert(code)
  {
    NoHashNoComment(code);
    StateSkips(code, 0, |code|);
  }
}
