/** The selector filter line: a query printed the way Rust prints a string with `{:?}`, and the
    search that recognises the line for exactly one query.
 */
module DebugString {
  import opened Prelude
  import opened Text

  // ----- hexadecimal -----

  function HexDigit(d: nat): char
    requires d < 16
  {
    if d < 10 then '0' + d as char else 'a' + (d - 10) as char
  }

  function HexDigitValue(c: char): nat {
    if '0' <= c <= '9' then c as nat - '0' as nat
    else if 'a' <= c <= 'f' then c as nat - 'a' as nat + 10
    else 0
  }

  function Hex(n: nat): (s: string)
    ensures s != "" && Free(s, '}') && Free(s, '\n')
  {
    if n < 16 then [HexDigit(n)] else Hex(n / 16) + [HexDigit(n % 16)]
  }

  function HexValue(s: string): nat {
    if s == "" then 0 else 16 * HexValue(s[..|s| - 1]) + HexDigitValue(s[|s| - 1])
  }

  lemma {:induction false} HexRoundTrip(n: nat)
    ensures HexValue(Hex(n)) == n
  {
    if n >= 16 {
      HexRoundTrip(n / 16);
      assert Hex(n)[..|Hex(n)| - 1] == Hex(n / 16);
    } else {
      assert Hex(n)[..0] == "";
    }
  }

  /** Lower-case digits without leading zeros are what is printed for their value. */
  lemma {:induction false} HexOfValue(s: string)
    requires s != "" && (forall i :: 0 <= i < |s| ==> '0' <= s[i] <= '9' || 'a' <= s[i] <= 'f')
    requires s[0] != '0' || |s| == 1
    ensures Hex(HexValue(s)) == s
  {
    var n := |s| - 1;
    assert '0' <= s[n] <= '9' || 'a' <= s[n] <= 'f';
    if n == 0 {
      assert HexValue(s[..0]) == 0;
    } else {
      HexOfValue(s[..n]);
      assert HexValue(s) / 16 == HexValue(s[..n]);
    }
  }

  // ----- printing -----

  /** One character. `control` says which characters belong to a Unicode category starting with C. */
  function Escape(control: char -> bool, c: char): (s: string)
    ensures s != "" && Free(s, '\n')
  {
    if c == '\"' || c == '\\' then ['\\', c]
    else if c == '\n' then "\\n"
    else if c == '\r' then "\\r"
    else if c == '\t' then "\\t"
    else if c == '\0' then "\\0"
    else if control(c) then ['\\', 'u', '{'] + Hex(c as nat) + ['}']
    else [c]
  }

  function EscapeAll(control: char -> bool, text: string): string {
    if text == "" then "" else Escape(control, text[0]) + EscapeAll(control, text[1..])
  }

  function Quoted(control: char -> bool, text: string): string {
    ['\"'] + EscapeAll(control, text) + ['\"']
  }

  /** `rust_debug_str`. */
  method RustDebugStr(control: char -> bool, text: string) returns (s: string)
    ensures s == Quoted(control, text)
  {
    var out := "";
    assert EscapeAll(control, text[..0]) == "";
    for i := 0 to |text|
      invariant out == EscapeAll(control, text[..i])
    {
      EscapeSnoc(control, text[..i], text[i]);
      assert text[..i + 1] == text[..i] + [text[i]];
      out := out + Escape(control, text[i]);
    }
    assert text[..|text|] == text;
    s := ['\"'] + out + ['\"'];
  }

  lemma {:induction false} EscapeSnoc(control: char -> bool, text: string, c: char)
    ensures EscapeAll(control, text + [c]) == EscapeAll(control, text) + Escape(control, c)
  {
    if text == "" {
      assert [c][1..] == "";
      assert EscapeAll(control, [c]) == Escape(control, c) + "" == "" + Escape(control, c);
    } else {
      assert (text + [c])[1..] == text[1..] + [c];
      EscapeSnoc(control, text[1..], c);
      var e, m, f := Escape(control, text[0]), EscapeAll(control, text[1..]), Escape(control, c);
      assert (e + m) + f == e + (m + f);
    }
  }

  // ----- reading back -----

  predicate IsScalar(n: nat) { n < 0xD800 || 0xE000 <= n < 0x11_0000 }

  datatype Char = Bad | Got(c: char, rest: string)

  /** One escaped character off the front. */
  function ReadChar(s: string): Char
    requires s != ""
  {
    if s[0] != '\\' then Got(s[0], s[1..])
    else if |s| < 2 then Bad
    else if s[1] == '\"' || s[1] == '\\' then Got(s[1], s[2..])
    else if s[1] == 'n' then Got('\n', s[2..])
    else if s[1] == 'r' then Got('\r', s[2..])
    else if s[1] == 't' then Got('\t', s[2..])
    else if s[1] == '0' then Got('\0', s[2..])
    else if s[1] == 'u' && |s| > 3 then
      var code := Until(s[3..], '}');
      if code.None? then Bad
      else
        var n := HexValue(code.value.text);
        if IsScalar(n) then Got(n as char, code.value.rest) else Bad
    else Bad
  }

  lemma ReadControl(c: char, rest: string)
    ensures ReadChar(['\\', 'u', '{'] + Hex(c as nat) + ['}'] + rest) == Got(c, rest)
  {
    var h := Hex(c as nat);
    var s := ['\\', 'u', '{'] + h + ['}'] + rest;
    assert s[0] == '\\' && s[1] == 'u' && |s| > 3;
    assert s[3..] == h + ['}'] + rest;
    UntilFinds(h, '}', rest);
    HexRoundTrip(c as nat);
  }

  lemma ReadCharUndoes(control: char -> bool, c: char, rest: string)
    ensures ReadChar(Escape(control, c) + rest) == Got(c, rest)
  {
    var s := Escape(control, c) + rest;
    if c == '\"' || c == '\\' || c == '\n' || c == '\r' || c == '\t' || c == '\0' {
      assert s[2..] == rest;
    } else if control(c) {
      ReadControl(c, rest);
    } else {
      assert s[1..] == rest;
    }
  }

  /** The text up to the closing quote, and what follows that quote. */
  datatype Literal = NoLiteral | Literal(text: string, rest: string)

  /** A string literal in front: characters and escapes up to the first quote that no escape takes. */
  function ReadLiteral(s: string): Literal {
    if s == "" || s[0] != '\"' then NoLiteral else ReadBody(s[1..])
  }

  function ReadBody(s: string): Literal
    decreases |s|
  {
    if s == "" then NoLiteral
    else if s[0] == '\"' then Literal("", s[1..])
    else match ReadChar(s)
      case Bad => NoLiteral
      case Got(c, rest) =>
        if |rest| >= |s| then NoLiteral
        else match ReadBody(rest)
          case NoLiteral => NoLiteral
          case Literal(text, after) => Literal([c] + text, after)
  }

  /** A printed text is read back as one literal, whatever follows it. */
  lemma {:induction false} LiteralRoundTrip(control: char -> bool, text: string, rest: string)
    ensures ReadLiteral(Quoted(control, text) + rest) == Literal(text, rest)
  {
    var body := EscapeAll(control, text);
    BodyRoundTrip(control, text, rest);
    Assoc(['\"'] + body, ['\"'], rest);
    Assoc(['\"'], body, ['\"'] + rest);
    Assoc(body, ['\"'], rest);
    OpenLiteral(Quoted(control, text) + rest, body + ['\"'] + rest);
  }

  lemma {:induction false} OpenLiteral(s: string, body: string)
    requires s == ['\"'] + body
    ensures ReadLiteral(s) == ReadBody(body)
  {
    assert s[1..] == body;
  }

  lemma {:induction false} BodyRoundTrip(control: char -> bool, text: string, rest: string)
    ensures ReadBody(EscapeAll(control, text) + ['\"'] + rest) == Literal(text, rest)
  {
    if text == "" {
      assert EscapeAll(control, text) + ['\"'] + rest == ['\"'] + rest;
      assert (['\"'] + rest)[1..] == rest;
    } else {
      var first, later := Escape(control, text[0]), EscapeAll(control, text[1..]) + ['\"'] + rest;
      Assoc(first, EscapeAll(control, text[1..]), ['\"']);
      Assoc(first, EscapeAll(control, text[1..]) + ['\"'], rest);
      BodyRoundTrip(control, text[1..], rest);
      EscapeIsOneChar(control, text[0], later);
      assert text == [text[0]] + text[1..];
    }
  }

  lemma {:induction false} EscapeIsOneChar(control: char -> bool, c: char, later: string)
    requires ReadBody(later).Literal?
    ensures ReadBody(Escape(control, c) + later) == Literal([c] + ReadBody(later).text, ReadBody(later).rest)
  {
    ReadCharUndoes(control, c, later);
    var s := Escape(control, c) + later;
    assert s[0] == Escape(control, c)[0] != '\"' && |s| > |later|;
  }

  /** No two texts print alike. */
  lemma {:induction false} QuotedInjective(control: char -> bool, p: string, q: string)
    requires Quoted(control, p) == Quoted(control, q)
    ensures p == q
  {
    LiteralRoundTrip(control, p, "");
    LiteralRoundTrip(control, q, "");
  }

  /** A character that has an escape of its own. */
  predicate Special(c: char) { c == '\"' || c == '\\' || c == '\n' || c == '\r' || c == '\t' || c == '\0' }

  /** Text of other characters, none of them a control character, is printed as it is. */
  lemma {:induction false} PlainText(control: char -> bool, text: string)
    requires forall c :: c in text ==> !Special(c) && !control(c)
    ensures Quoted(control, text) == "\"" + text + "\""
  {
    PlainBody(control, text);
  }

  lemma {:induction false} PlainBody(control: char -> bool, text: string)
    requires forall c :: c in text ==> !Special(c) && !control(c)
    ensures EscapeAll(control, text) == text
  {
    if text != "" {
      assert text[0] in text;
      PlainBody(control, text[1..]);
      assert text == [text[0]] + text[1..];
    }
  }

  ghost predicate PrintsAs(control: char -> bool, c: char, escape: string) {
    Quoted(control, [c]) == "\"" + escape + "\""
  }

  /** The six short escapes; any other control character is printed by its number. */
  lemma {:induction false} EscapesOf(control: char -> bool, c: char)
    ensures c == '\"' ==> PrintsAs(control, c, "\\\"")
    ensures c == '\\' ==> PrintsAs(control, c, "\\\\")
    ensures c == '\n' ==> PrintsAs(control, c, "\\n")
    ensures c == '\r' ==> PrintsAs(control, c, "\\r")
    ensures c == '\t' ==> PrintsAs(control, c, "\\t")
    ensures c == '\0' ==> PrintsAs(control, c, "\\0")
    ensures control(c) && !Special(c) ==> PrintsAs(control, c, "\\u{" + Hex(c as nat) + "}")
  {
    assert [c][1..] == "";
    assert EscapeAll(control, [c]) == Escape(control, c);
  }

  /** A printed query is one line. */
  lemma {:induction false} EscapeAllIsLine(control: char -> bool, text: string)
    ensures Free(EscapeAll(control, text), '\n')
  {
    if text != "" {
      EscapeAllIsLine(control, text[1..]);
      FreeConcat(Escape(control, text[0]), EscapeAll(control, text[1..]), '\n');
    }
  }

  // ----- the filter line -----

  const OPEN := "[APP:SELECTOR_FILTER: query="
  const ITEMS := " items="

  function FilterLine(control: char -> bool, query: string, items: nat): string {
    "[APP:SELECTOR_FILTER: query=" + Quoted(control, query) + (" items=" + Dec(items) + "]")
  }

  /** What the pattern's digit class accepts, and the value of each digit: at least the ASCII digits. */
  type Digits = d: char -> Option<nat> | IncludesAscii(d) witness AsciiDigit

  ghost predicate IncludesAscii(d: char -> Option<nat>) {
    d(']') == None && forall c :: IsDigit(c) ==> d(c) == AsciiDigit(c)
  }

  function AsciiDigit(c: char): Option<nat> {
    if IsDigit(c) then Some(c as nat - '0' as nat) else None
  }

  /** Python's `int` of a string of digits. */
  function NumberOf(d: Digits, s: string): nat {
    if s == "" then 0
    else 10 * NumberOf(d, s[..|s| - 1]) + match d(s[|s| - 1]) case None => 0 case Some(value) => value
  }

  lemma {:induction false} AsciiNumber(d: Digits, s: string)
    requires forall i :: 0 <= i < |s| ==> IsDigit(s[i])
    ensures NumberOf(d, s) == Value(s)
  {
    if s != "" {
      assert IsDigit(s[|s| - 1]);
      AsciiNumber(d, s[..|s| - 1]);
    }
  }

  /** End of the run of digits at `from`. A digit run followed by "]" can end nowhere else. */
  function DigitsEnd(d: Digits, line: string, from: nat): (k: nat)
    requires from <= |line|
    ensures from <= k <= |line|
    ensures forall m :: from <= m < k ==> d(line[m]).Some?
    ensures k < |line| ==> d(line[k]).None?
    decreases |line| - from
  {
    if from < |line| && d(line[from]).Some? then DigitsEnd(d, line, from + 1) else from
  }

  predicate StartsAt(line: string, i: int, text: string) {
    0 <= i <= |line| - |text| && line[i..i + |text|] == text
  }

  /** " items=", digits and "]" stand at `j`. */
  predicate ItemsAt(d: Digits, line: string, j: int) {
    && StartsAt(line, j, ITEMS)
    && var from := j + |ITEMS|;
       var k := DigitsEnd(d, line, from);
       from < k < |line| && line[k] == ']'
  }

  /** The regular expression matches at `i` with the query group ending at `j`. */
  ghost predicate Matches(d: Digits, line: string, i: int, j: int) {
    && StartsAt(line, i, OPEN) && i + |OPEN| <= j && ItemsAt(d, line, j)
    && Free(line[i + |OPEN|..j], '\n')
  }

  /** The pattern piece by piece: its opening at `i`, a group of one line up to `j`, " items=", a digit and
      more digits up to `k`, and "]". */
  ghost predicate PatternAt(d: Digits, line: string, i: int, j: int, k: int) {
    && 0 <= i && i + 28 <= j && j + 7 < k < |line|
    && line[i..i + 28] == "[APP:SELECTOR_FILTER: query=" && '\n' !in line[i + 28..j]
    && line[j..j + 7] == " items="
    && (forall m :: j + 7 <= m < k ==> d(line[m]).Some?) && line[k] == ']'
  }

  lemma {:induction false} PatternLengths()
    ensures |OPEN| == 28 && |ITEMS| == 7 && OPEN == "[APP:SELECTOR_FILTER: query=" && ITEMS == " items="
  {
  }

  lemma {:induction false} OneDigitsEnd(d: Digits, line: string, from: nat, k: nat)
    requires from <= k < |line| && (forall m :: from <= m < k ==> d(line[m]).Some?) && line[k] == ']'
    ensures DigitsEnd(d, line, from) == k
  {
    EndIsNoDigit(d);
  }

  /** A match is a place where the pattern stands, and what it finds is the group and the number there. */
  lemma {:induction false} MatchMeaning(d: Digits, line: string, i: int, j: int)
    ensures Matches(d, line, i, j) <==> exists k :: PatternAt(d, line, i, j, k)
    ensures forall k :: PatternAt(d, line, i, j, k) ==>
              Matches(d, line, i, j) && FoundAt(d, line, i, j) == Found(line[i + 28..j], NumberOf(d, line[j + 7..k]))
  {
    PatternLengths();
    forall k | PatternAt(d, line, i, j, k)
      ensures Matches(d, line, i, j)
      ensures FoundAt(d, line, i, j) == Found(line[i + 28..j], NumberOf(d, line[j + 7..k]))
    {
      OneDigitsEnd(d, line, j + 7, k);
    }
    if Matches(d, line, i, j) {
      assert PatternAt(d, line, i, j, DigitsEnd(d, line, j + 7));
    }
  }

  datatype Found = Found(group: string, items: nat)

  function FoundAt(d: Digits, line: string, i: int, j: int): Found
    requires StartsAt(line, i, OPEN) && i + |OPEN| <= j && ItemsAt(d, line, j)
  {
    var from := j + |ITEMS|;
    Found(line[i + |OPEN|..j], NumberOf(d, line[from..DigitsEnd(d, line, from)]))
  }

  /** What `re.search` returns: the leftmost start, and there the longest group. */
  ghost predicate IsSearchResult(d: Digits, line: string, r: Option<Found>) {
    && (r.None? ==> forall i, j :: !Matches(d, line, i, j))
    && (r.Some? ==> exists i, j :: LeftmostLongest(d, line, i, j) && r.value == FoundAt(d, line, i, j))
  }

  ghost predicate LeftmostLongest(d: Digits, line: string, i: int, j: int) {
    && Matches(d, line, i, j)
    && (forall i', j' :: Matches(d, line, i', j') ==> i <= i')
    && (forall j' :: Matches(d, line, i, j') ==> j' <= j)
  }

  /** The longest group at one start. */
  method LongestGroup(d: Digits, line: string, i: nat) returns (j: int)
    requires StartsAt(line, i, OPEN)
    ensures j < 0 ==> forall j' :: !Matches(d, line, i, j')
    ensures j >= 0 ==> Matches(d, line, i, j) && forall j' :: Matches(d, line, i, j') ==> j' <= j
  {
    var from := i + |OPEN|;
    var stop := Find(line, '\n', from);  // the group is one line
    j := stop;
    forall j' | stop < j' <= |line|
      ensures !Free(line[from..j'], '\n')
    {
      assert line[from..j'][stop - from] == '\n';
    }
    while j >= from
      invariant from - 1 <= j <= stop
      invariant forall j' :: j < j' ==> !Matches(d, line, i, j')
    {
      assert forall m :: 0 <= m < |line[from..j]| ==> line[from..j][m] == line[from + m];
      if ItemsAt(d, line, j) { return; }
      j := j - 1;
    }
    j := -1;
  }

  /** `re.search` of the filter line pattern. */
  method Search(d: Digits, line: string) returns (r: Option<Found>)
    ensures IsSearchResult(d, line, r)
  {
    var i := 0;
    while i < |line|
      invariant forall i', j' :: i' < i ==> !Matches(d, line, i', j')
    {
      if StartsAt(line, i, OPEN) {
        var j := LongestGroup(d, line, i);
        if j >= 0 {
          assert LeftmostLongest(d, line, i, j);
          return Some(FoundAt(d, line, i, j));
        }
      }
      i := i + 1;
    }
    r := None;
  }

  /** `selector_filter_items`. */
  method SelectorFilterItems(d: Digits, control: char -> bool, line: string, query: string)
    returns (items: Option<nat>)
    ensures exists r :: IsSearchResult(d, line, r) &&
              items == if r.Some? && r.value.group == Quoted(control, query) then Some(r.value.items) else None
  {
    var r := Search(d, line);
    var quoted := RustDebugStr(control, query);
    items := if r.None? || r.value.group != quoted then None else Some(r.value.items);
  }

  /** A search has one result. */
  lemma SearchIsUnique(d: Digits, line: string, r: Option<Found>, i: int, j: int)
    requires IsSearchResult(d, line, r) && LeftmostLongest(d, line, i, j)
    ensures r == Some(FoundAt(d, line, i, j))
  {
    assert r.Some? by {
      assert Matches(d, line, i, j);
    }
    var i', j' :| LeftmostLongest(d, line, i', j') && r.value == FoundAt(d, line, i', j');
    LeftmostLongestIsUnique(d, line, i, j, i', j');
  }

  lemma LeftmostLongestIsUnique(d: Digits, line: string, i: int, j: int, i': int, j': int)
    requires LeftmostLongest(d, line, i, j) && LeftmostLongest(d, line, i', j')
    ensures i == i' && j == j'
  {
    assert Matches(d, line, i, j) && Matches(d, line, i', j');
  }

  /** A filter line in its parts, with text around it that has no bracket of its own kind. */
  ghost predicate IsLine(line: string, before: string, quoted: string, digits: string, after: string) {
    && Free(before, '[') && Free(after, ']') && IsNumber(digits) && Free(quoted, '\n')
    && line == before + (OPEN + quoted + (ITEMS + digits + "]")) + after
  }

  /** Where the parts stand: `j` after the group, `from` at the digits. */
  ghost predicate PartsStand(line: string, i: nat, quoted: string, j: nat, from: nat, n: nat) {
    && j == i + |OPEN| + |quoted| && from == j + |ITEMS| && from + n < |line|
    && StartsAt(line, i, OPEN) && line[i + |OPEN|..j] == quoted
    && StartsAt(line, j, ITEMS)
    && (forall m :: from <= m < from + n ==> IsDigit(line[m])) && line[from + n] == ']'
    && (forall m :: 0 <= m < i ==> line[m] != '[') && (forall m :: from + n < m < |line| ==> line[m] != ']')
  }

  lemma {:induction false} LineParts(line: string, before: string, quoted: string, digits: string, after: string)
    requires IsLine(line, before, quoted, digits, after)
    ensures var j := |before| + |OPEN| + |quoted|;
            && PartsStand(line, |before|, quoted, j, j + |ITEMS|, |digits|)
            && line[j + |ITEMS|..j + |ITEMS| + |digits|] == digits
  {
    var tail, rest := ITEMS + digits + "]", ITEMS + digits + "]" + after;
    Regroup(before, OPEN, quoted, tail, after);
    HeadStands(line, before, quoted, rest);
    TailStands(line, before + OPEN + quoted, digits, after);
  }

  lemma Regroup(a: string, b: string, c: string, d: string, e: string)
    ensures a + (b + c + d) + e == a + b + c + (d + e)
  {
  }

  lemma {:induction false} HeadStands(line: string, before: string, quoted: string, rest: string)
    requires line == before + OPEN + quoted + rest && Free(before, '[')
    ensures var j := |before| + |OPEN| + |quoted|;
            && StartsAt(line, |before|, OPEN) && line[|before| + |OPEN|..j] == quoted
            && forall m :: 0 <= m < |before| ==> line[m] != '['
  {
    assert forall m :: 0 <= m < |before| ==> line[m] == before[m];
  }

  lemma {:induction false} TailStands(line: string, head: string, digits: string, after: string)
    requires line == head + (ITEMS + digits + "]" + after) && IsNumber(digits) && Free(after, ']')
    ensures var from := |head| + |ITEMS|;
            && StartsAt(line, |head|, ITEMS) && line[from..from + |digits|] == digits
            && from + |digits| < |line| && line[from + |digits|] == ']'
            && (forall m :: from <= m < from + |digits| ==> IsDigit(line[m]))
            && (forall m :: from + |digits| < m < |line| ==> line[m] != ']')
  {
    var from, n := |head| + |ITEMS|, |digits|;
    assert line[from..from + n] == digits;
    assert forall m :: from <= m < from + n ==> line[m] == line[from..from + n][m - from];
    assert line[from + n + 1..] == after;
    assert forall m :: from + n < m < |line| ==> line[m] == line[from + n + 1..][m - from - n - 1];
  }

  /** The search can only match where the parts stand: every "[" that opens a line comes later, and no
      match ends beyond the last bracket. */
  lemma {:induction false} PartsAreFound(d: Digits, line: string, i: nat, quoted: string, j: nat, from: nat, n: nat)
    requires PartsStand(line, i, quoted, j, from, n) && n > 0 && Free(quoted, '\n')
    ensures LeftmostLongest(d, line, i, j)
    ensures FoundAt(d, line, i, j) == Found(quoted, NumberOf(d, line[from..from + n]))
  {
    RunOfDigits(d, line, from, n);
    assert ItemsAt(d, line, j);
    assert Matches(d, line, i, j);
    forall i', j' | Matches(d, line, i', j')
      ensures i <= i' && j' <= j
    {
      assert line[i'] == OPEN[0] == '[';
      LastBracket(line, from, n, j', DigitsEnd(d, line, j' + |ITEMS|));
    }
  }

  /** On a printed filter line the search finds exactly the printed query and count: no text inside the
      query can be taken for the end. */
  lemma {:induction false} SearchFindsPrinted(
    d: Digits, control: char -> bool, before: string, query: string, items: nat, after: string,
    line: string, quoted: string)
    requires Free(before, '[') && Free(after, ']')
    requires line == before + FilterLine(control, query, items) + after && quoted == Quoted(control, query)
    ensures var j := |before| + |OPEN| + |quoted|;
            LeftmostLongest(d, line, |before|, j) && FoundAt(d, line, |before|, j) == Found(quoted, items)
  {
    QuotedIsLine(control, query);
    DecRoundTrip(items);
    FoundInLine(d, line, before, quoted, Dec(items), after);
  }

  lemma {:induction false} FoundInLine(d: Digits, line: string, before: string, quoted: string, digits: string,
                                       after: string)
    requires IsLine(line, before, quoted, digits, after)
    ensures var j := |before| + |OPEN| + |quoted|;
            LeftmostLongest(d, line, |before|, j) && FoundAt(d, line, |before|, j) == Found(quoted, Value(digits))
  {
    var j := |before| + |OPEN| + |quoted|;
    LineParts(line, before, quoted, digits, after);
    PartsAreFound(d, line, |before|, quoted, j, j + |ITEMS|, |digits|);
    AsciiNumber(d, digits);
  }

  lemma QuotedIsLine(control: char -> bool, query: string)
    ensures Free(Quoted(control, query), '\n')
  {
    EscapeAllIsLine(control, query);
    FreeConcat(['\"'], EscapeAll(control, query), '\n');
    FreeConcat(['\"'] + EscapeAll(control, query), ['\"'], '\n');
  }

  lemma {:induction false} RunOfDigits(d: Digits, line: string, from: nat, n: nat)
    requires from + n < |line| && (forall m :: from <= m < from + n ==> IsDigit(line[m])) && line[from + n] == ']'
    ensures DigitsEnd(d, line, from) == from + n
    decreases n
  {
    EndIsNoDigit(d);
    if n > 0 {
      AsciiIsDigit(d, line[from]);
      RunOfDigits(d, line, from + 1, n - 1);
    }
  }

  lemma EndIsNoDigit(d: Digits)
    ensures d(']') == None
  {
  }

  lemma AsciiIsDigit(d: Digits, c: char)
    requires IsDigit(c)
    ensures d(c).Some?
  {
  }

  /** A match cannot start its " items=" after the printed one: no blank follows that one's. */
  lemma LastBracket(line: string, from: nat, n: nat, j': int, k: int)
    requires |ITEMS| <= from && from + n < |line| && StartsAt(line, from - |ITEMS|, ITEMS)
    requires forall m :: from <= m < from + n ==> IsDigit(line[m])
    requires line[from + n] == ']' && forall m :: from + n < m < |line| ==> line[m] != ']'
    requires StartsAt(line, j', ITEMS) && j' + |ITEMS| <= k < |line| && line[k] == ']'
    ensures j' <= from - |ITEMS|
  {
    assert k <= from + n;
    assert line[j'] == ITEMS[0] == ' ';
    assert forall m :: 0 <= m < |ITEMS| ==> line[from - |ITEMS| + m] == ITEMS[m];
  }

  /** Asking a printed line for a query gives its count exactly when it is the printed query. */
  lemma {:induction false} FilterLineAnswers(
    d: Digits, control: char -> bool, before: string, printed: string, items: nat, after: string, query: string,
    r: Option<Found>)
    requires Free(before, '[') && Free(after, ']')
    requires IsSearchResult(d, before + FilterLine(control, printed, items) + after, r)
    ensures (if r.Some? && r.value.group == Quoted(control, query) then Some(r.value.items) else None)
            == if query == printed then Some(items) else None
  {
    OnlyResult(d, control, before, printed, items, after, r, before + FilterLine(control, printed, items) + after);
    SameQuery(control, printed, query);
  }

  lemma {:induction false} OnlyResult(
    d: Digits, control: char -> bool, before: string, printed: string, items: nat, after: string, r: Option<Found>,
    line: string)
    requires Free(before, '[') && Free(after, ']')
    requires line == before + FilterLine(control, printed, items) + after && IsSearchResult(d, line, r)
    ensures r == Some(Found(Quoted(control, printed), items))
  {
    var quoted := Quoted(control, printed);
    SearchFindsPrinted(d, control, before, printed, items, after, line, quoted);
    SearchIsUnique(d, line, r, |before|, |before| + |OPEN| + |quoted|);
  }

  lemma {:induction false} SameQuery(control: char -> bool, p: string, q: string)
    ensures Quoted(control, p) == Quoted(control, q) <==> p == q
  {
    if Quoted(control, p) == Quoted(control, q) {
      QuotedInjective(control, p, q);
    }
  }
}
