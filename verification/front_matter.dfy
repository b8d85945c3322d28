/** The front-matter reader of the post page: `parseFrontMatter` splits an
    optional `---`-delimited header off a markdown document and reads the
    header's `key: value` lines into a metadata object. */
module FrontMatter {
  import opened Text

  datatype Option<T> = None | Some(value: T)

  /** A value as `JSON.parse` builds it; a number keeps its literal text. */
  datatype Json =
    | JNull
    | JBool(b: bool)
    | JNumber(literal: string)
    | JString(s: string)
    | JArray(items: seq<Json>)
    | JObject(members: seq<(string, Json)>)

  /** `JSON.parse` on a text that starts with `[` and ends with `]`: such a
      text, when it is valid JSON, is an array, so the parser yields the
      array's elements, or None where `JSON.parse` throws. */
  type JsonArrayParser = string -> Option<seq<Json>>

  /** A metadata value: a string, the array `JSON.parse` returned for `tags`,
      or the array of strings the comma-split fallback built for `tags`. */
  datatype Value =
    | Str(s: string)
    | JsonList(items: seq<Json>)
    | CommaList(tags: seq<string>)

  /** The metadata object: own keys and their values. */
  type Metadata = map<string, Value>

  /** One header line that yielded a key. */
  datatype Entry = Entry(key: string, value: Value)

  /** What `parseFrontMatter` returns: `{ metadata, content }`. */
  datatype ParsedPost = ParsedPost(metadata: Metadata, content: string)

  /** The header and the remaining document, as the delimiter regex captures them. */
  datatype Block = Block(header: string, body: string)

  const Bom: char := '\U{FEFF}'

  /** The `charCodeAt(0) === 0xfeff` test and `slice(1)`: at most one mark
      goes, and only from the front. */
  function StripBom(s: string): (r: string)
    ensures |s| > 0 && s[0] == Bom ==> s == [Bom] + r
    ensures !(|s| > 0 && s[0] == Bom) ==> r == s
  {
    if |s| > 0 && s[0] == Bom then s[1..] else s
  }

  // ---------------------------------------------------------------------------
  // The delimiter regex  /^---\r?\n([\s\S]*?)\r?\n---\r?\n([\s\S]*)$/
  // ---------------------------------------------------------------------------

  /** The opening delimiter line, `---` and a line break. */
  ghost predicate IsOpening(t: string) {
    t == "---\n" || t == "---\r\n"
  }

  /** A line break, `---`, and a line break. */
  ghost predicate IsClosing(t: string) {
    || t == "\n---\n" || t == "\n---\r\n"
    || t == "\r\n---\n" || t == "\r\n---\r\n"
  }

  /** The text is opening delimiter, header, closing delimiter, body. */
  ghost predicate Decomposes(s: string, header: string, body: string) {
    exists o, c :: IsOpening(o) && IsClosing(c) && s == o + header + c + body
  }

  /** `\r?\n` matched at position `i`: where the match ends. Under the regex's
      backtracking the choice is forced: a `\r` not followed by `\n` fails. */
  function NewlineAt(s: string, i: nat): (r: Option<nat>)
    ensures r.Some? ==> i < r.value <= |s|
    ensures r.Some? <==> (i < |s| && s[i] == '\n') || (i + 1 < |s| && s[i..i + 2] == "\r\n")
    ensures r.Some? ==> (s[i..r.value] == "\n" || s[i..r.value] == "\r\n")
  {
    if i + 1 < |s| && s[i] == '\r' && s[i + 1] == '\n' then Some(i + 2)
    else if i < |s| && s[i] == '\n' then Some(i + 1)
    else None
  }

  /** `^---\r?\n`: where the header starts. */
  function OpeningEnd(s: string): (r: Option<nat>)
    ensures r.Some? ==> r.value <= |s| && IsOpening(s[..r.value])
  {
    if DashesAt(s, 0) then
      var r := NewlineAt(s, 3);
      if r.Some? then
        assert s[..3] == "---";
        assert s[..r.value] == s[..3] + s[3..r.value];
        r
      else r
    else None
  }

  /** `---` at position `i`. */
  predicate DashesAt(s: string, i: nat) {
    i + 3 <= |s| && s[i] == '-' && s[i + 1] == '-' && s[i + 2] == '-'
  }

  /** `\r?\n---\r?\n` matched at position `p`: where the body starts. */
  function ClosingAt(s: string, p: nat): (r: Option<nat>)
    ensures r.Some? ==> p < r.value <= |s| && IsClosing(s[p..r.value])
  {
    match NewlineAt(s, p)
    case None => None
    case Some(a) =>
      if DashesAt(s, a) then
        var r := NewlineAt(s, a + 3);
        if r.Some? then
          ClosingShape(s, p, a, r.value);
          r
        else r
      else None
  }

  lemma ClosingShape(s: string, p: nat, a: nat, e: nat)
    requires p < a && a + 3 < e <= |s|
    requires s[p..a] == "\n" || s[p..a] == "\r\n"
    requires DashesAt(s, a)
    requires s[a + 3..e] == "\n" || s[a + 3..e] == "\r\n"
    ensures IsClosing(s[p..e])
  {
    var e1, e2 := s[p..a], s[a + 3..e];
    assert s[a..a + 3] == "---";
    assert s[p..e] == e1 + "---" + e2;
  }

  /** The lazy `([\s\S]*?)`: the first position from `from` on at which the
      closing delimiter matches, with the position just after it. */
  function FindClosing(s: string, from: nat): (r: Option<(nat, nat)>)
    ensures r.Some? ==> from <= r.value.0 && ClosingAt(s, r.value.0) == Some(r.value.1)
    ensures r.Some? ==> forall q :: from <= q < r.value.0 ==> ClosingAt(s, q).None?
    ensures r.None? ==> forall q :: from <= q ==> ClosingAt(s, q).None?
    decreases |s| - from
  {
    if from >= |s| then None
    else match ClosingAt(s, from)
      case Some(b) => Some((from, b))
      case None => FindClosing(s, from + 1)
  }

  /** What the delimiter regex captures, or None when it does not match. */
  function SplitBlock(s: string): (r: Option<Block>)
    ensures r.Some? ==> Decomposes(s, r.value.header, r.value.body)
  {
    match OpeningEnd(s)
    case None => None
    case Some(start) =>
      match FindClosing(s, start)
      case None => None
      case Some((p, b)) =>
        FourParts(s, start, p, b);
        Some(Block(s[start..p], s[b..]))
  }

  /** Cutting a text at three positions and joining the parts gives it back. */
  lemma FourParts(s: string, i: nat, j: nat, k: nat)
    requires i <= j <= k <= |s|
    ensures s == s[..i] + s[i..j] + s[j..k] + s[k..]
  {
    assert s[..k] == s[..i] + s[i..j] + s[j..k];
  }

  lemma OpeningEndComplete(s: string, o: string)
    requires IsOpening(o) && o <= s
    ensures OpeningEnd(s) == Some(|o|)
  {
    assert s[0] == o[0] && s[1] == o[1] && s[2] == o[2] && s[3] == o[3];
    if |o| == 5 {
      assert s[4] == o[4];
    }
  }

  lemma ClosingAtComplete(s: string, p: nat, c: string)
    requires IsClosing(c) && p + |c| <= |s| && s[p..p + |c|] == c
    ensures ClosingAt(s, p) == Some(p + |c|)
  {
    if c == "\n---\n" {
      ClosingPartsComplete(s, p, "\n", "\n");
    } else if c == "\n---\r\n" {
      ClosingPartsComplete(s, p, "\n", "\r\n");
    } else if c == "\r\n---\n" {
      ClosingPartsComplete(s, p, "\r\n", "\n");
    } else {
      ClosingPartsComplete(s, p, "\r\n", "\r\n");
    }
  }

  lemma ClosingPartsComplete(s: string, p: nat, e1: string, e2: string)
    requires e1 == "\n" || e1 == "\r\n"
    requires e2 == "\n" || e2 == "\r\n"
    requires p + |e1| + 3 + |e2| <= |s| && s[p..p + |e1| + 3 + |e2|] == e1 + "---" + e2
    ensures ClosingAt(s, p) == Some(p + |e1| + 3 + |e2|)
  {
    var a := p + |e1|;
    SliceParts(s, p, e1, "---", e2);
    assert NewlineAt(s, p) == Some(a);
    assert DashesAt(s, a);
  }

  lemma SliceParts(s: string, p: nat, x: string, y: string, z: string)
    requires p + |x| + |y| + |z| <= |s| && s[p..p + |x| + |y| + |z|] == x + y + z
    ensures s[p..p + |x|] == x
    ensures s[p + |x|..p + |x| + |y|] == y
    ensures s[p + |x| + |y|..p + |x| + |y| + |z|] == z
  {
    var w := s[p..p + |x| + |y| + |z|];
    assert forall i :: 0 <= i < |x| ==> s[p + i] == w[i] == x[i];
    assert forall i :: 0 <= i < |y| ==> s[p + |x| + i] == w[|x| + i] == y[i];
    assert forall i :: 0 <= i < |z| ==> s[p + |x| + |y| + i] == w[|x| + |y| + i] == z[i];
  }

  /** The regex matches exactly when the text decomposes into opening
      delimiter, header, closing delimiter and body; it captures the
      decomposition with the shortest header (the lazy quantifier). */
  lemma SplitBlockShortest(s: string)
    ensures SplitBlock(s).None? <==> forall h, b :: !Decomposes(s, h, b)
    ensures SplitBlock(s).Some? ==>
              && Decomposes(s, SplitBlock(s).value.header, SplitBlock(s).value.body)
              && forall h, b :: Decomposes(s, h, b) ==> |SplitBlock(s).value.header| <= |h|
  {
    forall h, b | Decomposes(s, h, b)
      ensures SplitBlock(s).Some? && |SplitBlock(s).value.header| <= |h|
    {
      SplitBlockComplete(s, h, b);
    }
  }

  /** Every decomposition is seen by the regex, which settles on a header no longer. */
  lemma SplitBlockComplete(s: string, h: string, b: string)
    requires Decomposes(s, h, b)
    ensures SplitBlock(s).Some? && |SplitBlock(s).value.header| <= |h|
  {
    var o, c :| IsOpening(o) && IsClosing(c) && s == o + h + c + b;
    var p := |o| + |h|;
    assert s[..|o|] == o;
    assert s[p..p + |c|] == c;
    OpeningEndComplete(s, o);
    ClosingAtComplete(s, p, c);
    var found := FindClosing(s, |o|);
    assert found.Some? && found.value.0 <= p;
    assert SplitBlock(s) == Some(Block(s[|o|..found.value.0], s[found.value.1..]));
  }

  // ---------------------------------------------------------------------------
  // Header lines
  // ---------------------------------------------------------------------------

  /** Drops one trailing carriage return: the `\r?` of the split regex. */
  function DropCR(t: string): string {
    if |t| > 0 && t[|t| - 1] == '\r' then t[..|t| - 1] else t
  }

  /** `header.split(/\r?\n/)`: the header cut at every line feed; a piece
      that a line feed ends loses one trailing carriage return, the last
      piece is kept as it is. */
  function SplitLines(s: string): (r: seq<string>)
    ensures |r| == Count(s, '\n') + 1
    ensures forall i :: 0 <= i < |r| ==> '\n' !in r[i]
    decreases |s|
  {
    var k := IndexOf(s, '\n');
    if k == -1 then
      CountAbsent(s, '\n');
      [s]
    else
      CountSplit(s, '\n', k);
      [DropCR(s[..k])] + SplitLines(s[k + 1..])
  }

  /** The split on `/\r?\n/` is the split on LF with one CR dropped from
      the end of every piece but the last. */
  lemma {:induction false} SplitLinesSplitOn(s: string)
    ensures LinesOfPieces(SplitLines(s), SplitOn(s, '\n'))
    decreases |s|
  {
    var k := IndexOf(s, '\n');
    var lines, pieces := SplitLines(s), SplitOn(s, '\n');
    if k == -1 {
      assert lines == [s] && pieces == [s];
    } else {
      var t := s[k + 1..];
      var lines', pieces' := SplitLines(t), SplitOn(t, '\n');
      assert lines == [DropCR(s[..k])] + lines';
      assert pieces == [s[..k]] + pieces';
      assert LinesOfPieces(lines', pieces') by {
        SplitLinesSplitOn(t);
      }
      LinesOfPiecesCons(s[..k], lines', pieces');
    }
  }

  /** `lines` are the `pieces`, each but the last with one trailing CR dropped. */
  ghost predicate LinesOfPieces(lines: seq<string>, pieces: seq<string>) {
    && |lines| == |pieces| > 0
    && (forall i :: 0 <= i < |lines| - 1 ==> lines[i] == DropCR(pieces[i]))
    && lines[|lines| - 1] == pieces[|pieces| - 1]
  }

  /** One more piece in front, cut by a line feed, loses its trailing CR. */
  lemma LinesOfPiecesCons(x: string, lines: seq<string>, pieces: seq<string>)
    requires LinesOfPieces(lines, pieces)
    ensures LinesOfPieces([DropCR(x)] + lines, [x] + pieces)
  {
    var l, p := [DropCR(x)] + lines, [x] + pieces;
    assert forall i :: 1 <= i < |l| ==> l[i] == lines[i - 1] && p[i] == pieces[i - 1];
  }

  /** Line endings may be mixed: each break is cut on its own, a CRLF
      losing its CR and an LF cutting where it stands. */
  lemma MixedLineEnds(a: string, b: string, c: string)
    requires '\n' !in a && '\n' !in b && '\n' !in c && DropCR(b) == b
    ensures SplitLines(a + "\r\n" + b + "\n" + c) == [a, b, c]
  {
    var rest := b + "\n" + c;
    RegroupAfter(a, "\r\n", b, "\n", c);
    FirstLineCrlf(a, rest);
    FirstLineLf(b, c);
    assert IndexOf(c, '\n') == -1;
  }

  /** Everything after the first break, taken as one text. */
  lemma RegroupAfter(a: string, e: string, b: string, f: string, c: string)
    ensures a + e + b + f + c == a + e + (b + f + c)
  {
  }

  /** Lines joined with CRLF split back into the same lines. */
  lemma {:induction false} SplitLinesJoinCrlf(lines: seq<string>)
    requires |lines| > 0
    requires forall i :: 0 <= i < |lines| ==> '\n' !in lines[i]
    ensures SplitLines(Join(lines, "\r\n")) == lines
    decreases |lines|
  {
    if |lines| == 1 {
      assert IndexOf(lines[0], '\n') == -1;
    } else {
      FirstLineCrlf(lines[0], Join(lines[1..], "\r\n"));
      SplitLinesJoinCrlf(lines[1..]);
    }
  }

  /** The split cuts at the CRLF after a first line and drops its CR. */
  lemma FirstLineCrlf(first: string, rest: string)
    requires '\n' !in first
    ensures SplitLines(first + "\r\n" + rest) == [first] + SplitLines(rest)
  {
    var s := first + "\r\n" + rest;
    var k := |first| + 1;
    assert s[..k] == first + "\r";
    assert s[k] == '\n';
    assert IndexOf(s, '\n') == k;
    assert DropCR(s[..k]) == first;
    assert s[k + 1..] == rest;
  }

  /** Lines joined with LF split back into the same lines, provided no line
      ends in a carriage return the split would take as part of the break. */
  lemma {:induction false} SplitLinesJoinLf(lines: seq<string>)
    requires |lines| > 0
    requires forall i :: 0 <= i < |lines| ==> '\n' !in lines[i]
    requires forall i :: 0 <= i < |lines| - 1 ==> DropCR(lines[i]) == lines[i]
    ensures SplitLines(Join(lines, "\n")) == lines
    decreases |lines|
  {
    if |lines| == 1 {
      assert IndexOf(lines[0], '\n') == -1;
    } else {
      FirstLineLf(lines[0], Join(lines[1..], "\n"));
      SplitLinesJoinLf(lines[1..]);
    }
  }

  /** The split cuts at the LF after a first line. */
  lemma FirstLineLf(first: string, rest: string)
    requires '\n' !in first && DropCR(first) == first
    ensures SplitLines(first + "\n" + rest) == [first] + SplitLines(rest)
  {
    var s := first + "\n" + rest;
    var k := |first|;
    assert s[..k] == first;
    assert s[k] == '\n';
    assert IndexOf(s, '\n') == k;
    assert s[k + 1..] == rest;
  }

  predicate IsQuote(c: char) {
    c == '"' || c == '\''
  }

  /** The trimmed value starts and ends with the same quote character; a
      lone quote counts, as it both starts and ends the value. */
  predicate IsWrapped(v: string) {
    |v| > 0 && ((v[0] == '"' && v[|v| - 1] == '"') || (v[0] == '\'' && v[|v| - 1] == '\''))
  }

  /** `value.slice(1, -1)` applied to a wrapped value. */
  function StripQuotes(v: string): (r: string)
    ensures !IsWrapped(v) ==> r == v
    ensures IsWrapped(v) ==> |r| == (if |v| >= 2 then |v| - 2 else 0)
    ensures IsWrapped(v) && |v| >= 2 ==> v == [v[0]] + r + [v[0]]
  {
    if IsWrapped(v) then
      if |v| >= 2 then v[1..|v| - 1] else ""
    else v
  }

  /** Quoting a text and stripping the quotes gives the text back. */
  lemma StripQuotesRoundTrip(q: char, t: string)
    requires IsQuote(q)
    ensures StripQuotes([q] + t + [q]) == t
  {
    assert ([q] + t + [q])[1..|t| + 1] == t;
  }

  /** `tag.replace(/^['"]|['"]$/g, "")`: one leading quote of either kind,
      then one trailing quote of either kind of what remains. */
  function StripTagQuotes(t: string): (r: string)
    ensures var lead := if |t| > 0 && IsQuote(t[0]) then 1 else 0;
            var trail := if |t| > lead && IsQuote(t[|t| - 1]) then 1 else 0;
            && |r| == |t| - lead - trail
            && t == t[..lead] + r + t[|t| - trail..]
  {
    var a := if |t| > 0 && IsQuote(t[0]) then t[1..] else t;
    if |a| > 0 && IsQuote(a[|a| - 1]) then a[..|a| - 1] else a
  }

  /** The removed characters are quotes, at most one at each end, and the
      inner text is kept whatever it holds: a quote at each end goes, a quote
      inside stays. */
  lemma StripTagQuotesEnds(q1: char, t: string, q2: char)
    requires IsQuote(q1) && IsQuote(q2)
    ensures StripTagQuotes([q1] + t + [q2]) == t
    ensures (t == [] || !IsQuote(t[0])) ==> StripTagQuotes(t + [q2]) == t
    ensures (t == [] || !IsQuote(t[|t| - 1])) ==> StripTagQuotes([q1] + t) == t
    ensures (t == [] || (!IsQuote(t[0]) && !IsQuote(t[|t| - 1]))) ==> StripTagQuotes(t) == t
  {
    assert ([q1] + t)[1..] == t;
    assert ([q1] + t + [q2])[1..] == t + [q2];
    assert (t + [q2])[..|t|] == t;
  }

  /** Of two quotes after a text only the last goes, and of three quotes one
      is left. */
  lemma StripTagQuotesRuns(c: char)
    requires !IsQuote(c)
    ensures StripTagQuotes([c, '\'', '\'']) == [c, '\'']
    ensures StripTagQuotes("'''") == "'"
  {
    assert [c, '\'', '\''] == [c, '\''] + ['\''];
    StripTagQuotesEnds('\'', [c, '\''], '\'');
    assert "'''" == ['\''] + "'" + ['\''];
    StripTagQuotesEnds('\'', "'", '\'');
  }

  /** The `catch` branch: strip the brackets, split on commas, trim each
      piece, then strip one quote from each end of it. */
  function FallbackTags(v: string): (r: seq<string>)
    requires |v| >= 2
    ensures |r| == Count(v[1..|v| - 1], ',') + 1
    ensures forall i :: 0 <= i < |r| ==>
              r[i] == StripTagQuotes(Trim(SplitOn(v[1..|v| - 1], ',')[i]))
  {
    var pieces := SplitOn(v[1..|v| - 1], ',');
    seq(|pieces|, i requires 0 <= i < |pieces| => StripTagQuotes(Trim(pieces[i])))
  }

  /** `[` ... `]`; such a value has at least two characters. */
  predicate IsBracketed(v: string) {
    |v| > 0 && v[0] == '[' && v[|v| - 1] == ']'
  }

  /** The value stored for `key`: for `tags` with a bracketed value, the
      `JSON.parse` array or, where that throws, the fallback split; a
      string otherwise. */
  function Interpret(key: string, v: string, json: JsonArrayParser): (r: Value)
    ensures key != "tags" || !IsBracketed(v) ==> r == Str(v)
    ensures key == "tags" && IsBracketed(v) && json(v).Some? ==> r == JsonList(json(v).value)
    ensures key == "tags" && IsBracketed(v) && json(v).None? ==> r == CommaList(FallbackTags(v))
  {
    if key == "tags" && IsBracketed(v) then
      match json(v)
      case Some(items) => JsonList(items)
      case None => CommaList(FallbackTags(v))
    else Str(v)
  }

  /** The key a line contributes: the trimmed text before its first colon,
      when that colon is not the line's first character. */
  function KeyOf(line: string): (r: Option<string>)
    ensures r.None? <==> ':' !in line || line[0] == ':'
  {
    var colon := IndexOf(line, ':');
    if colon <= 0 then None else Some(Trim(line[..colon]))
  }

  /** One header line: key before the first colon, value after it, both
      trimmed, the value unquoted and, for `tags`, interpreted. */
  function ParseLine(line: string, json: JsonArrayParser): (r: Option<Entry>)
    ensures r.None? <==> KeyOf(line).None?
    ensures r.Some? ==> r.value.key == KeyOf(line).value
  {
    match KeyOf(line)
    case None => None
    case Some(key) =>
      var value := StripQuotes(Trim(line[IndexOf(line, ':') + 1..]));
      Some(Entry(key, Interpret(key, value, json)))
  }

  /** A line splits at its FIRST colon: the key is everything before it,
      trimmed, and the value everything after it, later colons included. */
  lemma ParseLineAtFirstColon(pre: string, rest: string, json: JsonArrayParser)
    requires pre != [] && ':' !in pre
    ensures ParseLine(pre + ":" + rest, json)
            == Some(Entry(Trim(pre), Interpret(Trim(pre), StripQuotes(Trim(rest)), json)))
  {
    var line := pre + ":" + rest;
    assert line[..|pre|] == pre;
    assert line[|pre|] == ':';
    assert IndexOf(line, ':') == |pre|;
    assert line[|pre| + 1..] == rest;
  }

  /** A `key: value` line with a trimmed key and value: the value is
      unquoted and interpreted as it stands. */
  lemma TrimmedLine(key: string, value: string, json: JsonArrayParser)
    requires key != [] && ':' !in key && Trim(key) == key && Trim(value) == value
    ensures ParseLine(key + ": " + value, json)
            == Some(Entry(key, Interpret(key, StripQuotes(value), json)))
  {
    ColonBlank(key, value);
    ParseLineAtFirstColon(key, " " + value, json);
    TrimAfterBlank(value);
  }

  /** The blank after the colon belongs to the value's side. */
  lemma ColonBlank(key: string, value: string)
    ensures key + ": " + value == key + ":" + (" " + value)
  {
  }

  /** A plain `key: value` line stores the value as written. */
  lemma PlainLineRoundTrip(key: string, value: string, json: JsonArrayParser)
    requires key != [] && ':' !in key && Trim(key) == key && key != "tags"
    requires Trim(value) == value && !IsWrapped(value)
    ensures ParseLine(key + ": " + value, json) == Some(Entry(key, Str(value)))
  {
    TrimmedLine(key, value, json);
  }

  /** A text that begins and ends with a non-space is already trimmed. */
  lemma TrimmedEnds(t: string)
    requires t != [] && !IsSpace(t[0]) && !IsSpace(t[|t| - 1])
    ensures Trim(t) == t
  {
    assert t == [] + t + [];
    TrimPadded([], t, []);
  }

  /** A quoted value is stored without its quotes, whatever it contains. */
  lemma QuotedLineRoundTrip(key: string, q: char, value: string, json: JsonArrayParser)
    requires key != [] && ':' !in key && Trim(key) == key && key != "tags"
    requires IsQuote(q)
    ensures ParseLine(key + ": " + ([q] + value + [q]), json) == Some(Entry(key, Str(value)))
  {
    var w := [q] + value + [q];
    TrimmedEnds(w);
    TrimmedLine(key, w, json);
    StripQuotesRoundTrip(q, value);
  }

  /** A `tags` line whose bracketed value `JSON.parse` rejects is read by
      the comma-split fallback. */
  lemma TagsLineFallback(v: string, json: JsonArrayParser)
    requires IsBracketed(v) && json(v).None?
    ensures ParseLine("tags: " + v, json) == Some(Entry("tags", CommaList(FallbackTags(v))))
  {
    assert Trim("tags") == "tags" by { TrimmedEnds("tags"); }
    assert Trim(v) == v by { TrimmedEnds(v); }
    assert "tags" + ": " == "tags: ";
    assert StripQuotes(v) == v;
    TrimmedLine("tags", v, json);
  }

  /** The comma-split fallback on a bracketed list of pieces: one tag per
      piece, each trimmed and unquoted. */
  lemma FallbackTagsOfPieces(pieces: seq<string>)
    requires |pieces| > 0
    requires forall i :: 0 <= i < |pieces| ==> ',' !in pieces[i]
    ensures FallbackTags("[" + Join(pieces, ",") + "]")
            == seq(|pieces|, i requires 0 <= i < |pieces| => StripTagQuotes(Trim(pieces[i])))
  {
    var inner := Join(pieces, ",");
    var v := "[" + inner + "]";
    assert v[1..|v| - 1] == inner;
    SplitJoin(pieces, ',');
  }

  /** A tag as written inside the brackets: bare, or in double quotes. */
  function QuoteTag(t: string, quoted: bool): string {
    if quoted then ['"'] + t + ['"'] else t
  }

  /** A tag the fallback can carry: no comma, and no space or quote at
      either end. */
  predicate PlainTag(t: string) {
    && ',' !in t
    && (t == [] || (!IsSpace(t[0]) && !IsSpace(t[|t| - 1]) && !IsQuote(t[0]) && !IsQuote(t[|t| - 1])))
  }

  /** The fallback reads back a list written as `[t1, "t2", t3]`, each tag
      bare or quoted. */
  lemma FallbackTagsRoundTrip(tags: seq<string>, quoted: seq<bool>)
    requires |tags| == |quoted| > 0
    requires forall i :: 0 <= i < |tags| ==> PlainTag(tags[i])
    ensures FallbackTags("[" + Join(RenderTags(tags, quoted), ", ") + "]") == tags
  {
    var w := RenderTags(tags, quoted);
    var pieces := BlankAfterFirst(w);
    JoinBlankAfterFirst(w);
    forall i | 0 <= i < |tags|
      ensures ',' !in pieces[i] && StripTagQuotes(Trim(pieces[i])) == tags[i]
    {
      TagPieceRead(tags[i], quoted[i]);
    }
    FallbackTagsOfPieces(pieces);
  }

  /** The tags as written inside the brackets. */
  function RenderTags(tags: seq<string>, quoted: seq<bool>): (w: seq<string>)
    requires |tags| == |quoted|
    ensures |w| == |tags|
    ensures forall i :: 0 <= i < |w| ==> w[i] == QuoteTag(tags[i], quoted[i])
  {
    seq(|tags|, i requires 0 <= i < |tags| => QuoteTag(tags[i], quoted[i]))
  }

  /** One piece of the split: the rendered tag, after a blank unless first. */
  lemma TagPieceRead(t: string, quoted: bool)
    requires PlainTag(t)
    ensures ',' !in QuoteTag(t, quoted) && StripTagQuotes(Trim(QuoteTag(t, quoted))) == t
    ensures ',' !in " " + QuoteTag(t, quoted) && StripTagQuotes(Trim(" " + QuoteTag(t, quoted))) == t
  {
    RenderedTagTrimmed(t, quoted);
    TrimAfterBlank(QuoteTag(t, quoted));
  }

  /** A rendered tag is already trimmed, and unquoting it gives the tag. */
  lemma RenderedTagTrimmed(t: string, quoted: bool)
    requires PlainTag(t)
    ensures ',' !in QuoteTag(t, quoted)
    ensures Trim(QuoteTag(t, quoted)) == QuoteTag(t, quoted)
    ensures StripTagQuotes(QuoteTag(t, quoted)) == t
  {
    var w := QuoteTag(t, quoted);
    if quoted {
      assert w == ['"'] + t + ['"'];
      TrimmedEnds(w);
      StripTagQuotesEnds('"', t, '"');
    } else if t == [] {
      assert Trim(w) == w;
    } else {
      TrimmedEnds(w);
      StripTagQuotesEnds('"', t, '"');
    }
  }

  // ---------------------------------------------------------------------------
  // The metadata object
  // ---------------------------------------------------------------------------

  /** `metadata[key] = value` on an object literal: assigning a string to
      `__proto__` runs the inherited setter, which ignores non-objects, so
      that key never becomes an own key. */
  function Assign(m: Metadata, e: Entry): (r: Metadata)
    ensures e.key != "__proto__" ==> e.key in r && r[e.key] == e.value
    ensures forall k :: k != e.key ==> (k in r <==> k in m) && (k in m ==> r[k] == m[k])
    ensures e.key == "__proto__" ==> r == m
  {
    if e.key == "__proto__" then m else m[e.key := e.value]
  }

  /** Every header line parsed on its own, in order. */
  function ParseLines(lines: seq<string>, json: JsonArrayParser): (r: seq<Option<Entry>>)
    ensures |r| == |lines|
    ensures forall i :: 0 <= i < |lines| ==> r[i] == ParseLine(lines[i], json)
  {
    seq(|lines|, i requires 0 <= i < |lines| => ParseLine(lines[i], json))
  }

  /** The entry `e` carries the key `k`. */
  predicate HasKey(e: Option<Entry>, k: string) {
    e.Some? && e.value.key == k
  }

  /** `lines.forEach(...)`: the metadata once every entry, in order, has
      been assigned. A key is present iff some entry carries it (`__proto__`
      aside), and its value is the one the LAST such entry gives. */
  function Collect(entries: seq<Option<Entry>>): (m: Metadata)
    ensures CollectSpec(entries, m)
    decreases |entries|
  {
    if entries == [] then map[]
    else
      var n := |entries| - 1;
      var m0 := Collect(entries[..n]);
      var m := match entries[n]
        case None => m0
        case Some(e) => Assign(m0, e);
      CollectStep(entries, entries[..n], m0, m);
      m
  }

  /** `m` holds exactly the keys the entries carry, other than `__proto__`,
      each with the value of the last entry that carries it. */
  ghost predicate CollectSpec(entries: seq<Option<Entry>>, m: Metadata) {
    && (forall k :: k in m ==> k != "__proto__" && LastWith(entries, k, m[k]))
    && (forall i :: 0 <= i < |entries| && entries[i].Some? && entries[i].value.key != "__proto__"
          ==> entries[i].value.key in m)
  }

  /** Some entry gives `k` the value `v`, and no later entry carries `k`. */
  ghost predicate LastWith(entries: seq<Option<Entry>>, k: string, v: Value) {
    exists i :: 0 <= i < |entries| && entries[i] == Some(Entry(k, v))
                && forall j :: i < j < |entries| ==> !HasKey(entries[j], k)
  }

  /** The inductive step of `Collect`: assigning the last entry. */
  lemma CollectStep(entries: seq<Option<Entry>>, init: seq<Option<Entry>>, m0: Metadata, m: Metadata)
    requires |entries| > 0 && init == entries[..|entries| - 1]
    requires m == match entries[|entries| - 1]
                  case None => m0
                  case Some(e) => Assign(m0, e)
    requires CollectSpec(init, m0)
    ensures CollectSpec(entries, m)
  {
    var n := |entries| - 1;
    forall k | k in m
      ensures k != "__proto__" && LastWith(entries, k, m[k])
    {
      if HasKey(entries[n], k) {
        assert entries[n] == Some(Entry(k, m[k]));
      } else {
        assert k in m0 && m[k] == m0[k];
        LastWithExtend(entries, init, k, m[k]);
      }
    }
    forall i | 0 <= i < |entries| && entries[i].Some? && entries[i].value.key != "__proto__"
      ensures entries[i].value.key in m
    {
      if i < n {
        assert init[i] == entries[i];
      }
    }
  }

  /** An entry that does not carry `k` keeps the last entry that does. */
  lemma LastWithExtend(entries: seq<Option<Entry>>, init: seq<Option<Entry>>, k: string, v: Value)
    requires |entries| > 0 && init == entries[..|entries| - 1]
    requires LastWith(init, k, v) && !HasKey(entries[|entries| - 1], k)
    ensures LastWith(entries, k, v)
  {
    var i :| 0 <= i < |init| && init[i] == Some(Entry(k, v))
             && forall j :: i < j < |init| ==> !HasKey(init[j], k);
    assert entries[i] == init[i];
    assert forall j :: i < j < |entries| ==> !HasKey(entries[j], k) by {
      forall j | i < j < |entries|
        ensures !HasKey(entries[j], k)
      {
        if j < |init| {
          assert entries[j] == init[j];
        }
      }
    }
  }

  /** The description of `Collect` leaves no freedom: one metadata object
      meets it. */
  lemma CollectSpecUnique(entries: seq<Option<Entry>>, m1: Metadata, m2: Metadata)
    requires CollectSpec(entries, m1) && CollectSpec(entries, m2)
    ensures m1 == m2
  {
    forall k | k in m1
      ensures k in m2 && m2[k] == m1[k]
    {
      var i :| 0 <= i < |entries| && entries[i] == Some(Entry(k, m1[k]))
               && forall j :: i < j < |entries| ==> !HasKey(entries[j], k);
      assert entries[i].Some? && entries[i].value.key == k;
      LastWithUnique(entries, k, m1[k], m2[k]);
    }
    forall k | k in m2
      ensures k in m1
    {
      var i :| 0 <= i < |entries| && entries[i] == Some(Entry(k, m2[k]))
               && forall j :: i < j < |entries| ==> !HasKey(entries[j], k);
      assert entries[i].Some? && entries[i].value.key == k;
    }
  }

  /** Only one entry is the last to carry a key. */
  lemma LastWithUnique(entries: seq<Option<Entry>>, k: string, v1: Value, v2: Value)
    requires LastWith(entries, k, v1) && LastWith(entries, k, v2)
    ensures v1 == v2
  {
    var i1 :| 0 <= i1 < |entries| && entries[i1] == Some(Entry(k, v1))
              && forall j :: i1 < j < |entries| ==> !HasKey(entries[j], k);
    var i2 :| 0 <= i2 < |entries| && entries[i2] == Some(Entry(k, v2))
              && forall j :: i2 < j < |entries| ==> !HasKey(entries[j], k);
    if i1 < i2 {
      assert HasKey(entries[i2], k);
    } else if i2 < i1 {
      assert HasKey(entries[i1], k);
    }
  }

  /** `parseFrontMatter`: strip one byte-order mark, then split and read the
      header if the delimiter regex matches; never fails. */
  function ParseFrontMatter(raw: string, json: JsonArrayParser): (r: ParsedPost)
    ensures (forall h, b :: !Decomposes(StripBom(raw), h, b))
              ==> r == ParsedPost(map[], StripBom(raw))
    ensures (exists h, b :: Decomposes(StripBom(raw), h, b))
              ==> exists h :: && Decomposes(StripBom(raw), h, r.content)
                              && r.metadata == Collect(ParseLines(SplitLines(h), json))
                              && forall h', b' :: Decomposes(StripBom(raw), h', b') ==> |h| <= |h'|
  {
    var s := StripBom(raw);
    SplitBlockShortest(s);
    match SplitBlock(s)
    case None => ParsedPost(map[], s)
    case Some(Block(h, b)) => ParsedPost(Collect(ParseLines(SplitLines(h), json)), b)
  }

  // ---------------------------------------------------------------------------
  // Properties of the whole reader
  // ---------------------------------------------------------------------------

  /** Only one byte-order mark is removed: a second one stays in the content,
      and since the text then does not start with `---` no header is read. */
  lemma SecondBomKept(t: string, json: JsonArrayParser)
    ensures ParseFrontMatter([Bom, Bom] + t, json) == ParsedPost(map[], [Bom] + t)
  {
    var s := [Bom] + t;
    assert StripBom([Bom, Bom] + t) == s;
    assert OpeningEnd(s).None?;
  }

  /** Without a leading mark a text is read as it is: adding one changes nothing. */
  lemma NoBomUnchanged(s: string, json: JsonArrayParser)
    requires s == [] || s[0] != Bom
    ensures ParseFrontMatter([Bom] + s, json) == ParseFrontMatter(s, json)
  {
    assert ([Bom] + s)[1..] == s;
  }

  /** No line after the first starts with `---`, and the header does not end
      in a carriage return: then no closing delimiter can match inside it. */
  ghost predicate SafeHeader(h: string) {
    && (h == [] || h[|h| - 1] != '\r')
    && forall i :: 0 <= i && i + 3 < |h| && h[i] == '\n' ==> !DashesAt(h, i + 1)
  }

  /** The document a header and a body make with LF delimiters. */
  function Render(h: string, body: string): string {
    "---\n" + h + "\n---\n" + body
  }

  /** Rendering then reading gives back the body unchanged and the metadata
      of the header's lines. */
  lemma RenderRoundTrip(h: string, body: string, json: JsonArrayParser)
    requires SafeHeader(h)
    ensures ParseFrontMatter(Render(h, body), json)
            == ParsedPost(Collect(ParseLines(SplitLines(h), json)), body)
  {
    var s := Render(h, body);
    assert s[0] == '-';
    SplitRendered(h, body);
  }

  /** The delimiter regex captures exactly the rendered header and body. */
  lemma SplitRendered(h: string, body: string)
    requires SafeHeader(h)
    ensures SplitBlock(Render(h, body)) == Some(Block(h, body))
  {
    var s := Render(h, body);
    var n := |h|;
    RenderedParts(h, body);
    OpeningEndComplete(s, "---\n");
    ClosingPartsComplete(s, 4 + n, "\n", "\n");
    forall q | 4 <= q < 4 + n
      ensures ClosingAt(s, q).None?
    {
      NoEarlyClosing(s, h, q - 4);
    }
    FindClosingFirst(s, 4, 4 + n);
  }

  /** Where the parts of a rendered document sit. */
  lemma RenderedParts(h: string, body: string)
    ensures var s, n := Render(h, body), |h|;
            && |s| == n + |body| + 9
            && "---\n" <= s
            && s[4..4 + n] == h
            && s[4 + n] == '\n'
            && s[4 + n..9 + n] == "\n" + "---" + "\n"
            && s[9 + n..] == body
  {
    var s, n := Render(h, body), |h|;
    assert s == "---\n" + h + "\n---\n" + body;
    SliceParts(s, 0, "---\n", h, "\n---\n");
    assert s[4 + n..9 + n][0] == s[4 + n];
  }

  /** The search for the closing delimiter stops at its first match. */
  lemma {:induction false} FindClosingFirst(s: string, from: nat, p: nat)
    requires from <= p && ClosingAt(s, p).Some?
    requires forall q :: from <= q < p ==> ClosingAt(s, q).None?
    ensures FindClosing(s, from) == Some((p, ClosingAt(s, p).value))
    decreases p - from
  {
    if from < p {
      FindClosingFirst(s, from + 1, p);
    }
  }

  /** No closing delimiter starts inside a safe header that is followed by a
      line break. */
  lemma NoEarlyClosing(s: string, h: string, q: nat)
    requires SafeHeader(h) && q < |h| && 4 + |h| < |s|
    requires s[4..4 + |h|] == h && s[4 + |h|] == '\n'
    ensures ClosingAt(s, 4 + q).None?
  {
    var n, p := |h|, 4 + q;
    assert forall i :: 0 <= i < n ==> s[4 + i] == h[i];
    if s[p] == '\n' {
      if q + 3 < n {
        assert !DashesAt(h, q + 1);
        assert s[p + 1] == h[q + 1] && s[p + 2] == h[q + 2] && s[p + 3] == h[q + 3];
      }
      assert !DashesAt(s, p + 1);
    } else if s[p] == '\r' {
      assert q + 1 < n;
      if s[p + 1] == '\n' {
        if q + 4 < n {
          assert !DashesAt(h, q + 2);
          assert s[p + 2] == h[q + 2] && s[p + 3] == h[q + 3] && s[p + 4] == h[q + 4];
        }
        assert !DashesAt(s, p + 2);
      }
    }
  }

  /** No closing delimiter after the opening one: the text is returned
      whole, with no metadata. */
  lemma NoClosingIsText(s: string, json: JsonArrayParser)
    requires DashesAt(s, 0)
    requires forall q :: 4 <= q < |s| ==> ClosingAt(s, q).None?
    ensures ParseFrontMatter(s, json) == ParsedPost(map[], s)
  {
    assert StripBom(s) == s;
    match OpeningEnd(s)
    case None =>
    case Some(start) =>
      assert FindClosing(s, start).None? by {
        if start < |s| {
          NoClosingFrom(s, start);
        }
      }
  }

  lemma {:induction false} NoClosingFrom(s: string, from: nat)
    requires forall q :: from <= q < |s| ==> ClosingAt(s, q).None?
    ensures FindClosing(s, from).None?
    decreases |s| - from
  {
    if from < |s| {
      NoClosingFrom(s, from + 1);
    }
  }

  /** An empty header is not recognised: the closing `---` must follow a
      line break of its own, so `---`, line break, `---`, line break is
      read as plain text. */
  lemma EmptyHeaderIsText(json: JsonArrayParser)
    ensures ParseFrontMatter("---\n---\n", json) == ParsedPost(map[], "---\n---\n")
  {
    var s := "---\n---\n";
    forall q | 4 <= q < |s|
      ensures ClosingAt(s, q).None?
    {
      assert q == 7 || s[q] != '\n';
    }
    NoClosingIsText(s, json);
  }

  /** A closing `---` at the very end, with no line break after it, does not
      close the header: for every header in which nothing else could close,
      the text is read whole, with no metadata. */
  lemma UnterminatedClosingIsText(h: string, json: JsonArrayParser)
    requires SafeHeader(h)
    ensures ParseFrontMatter("---\n" + h + "\n---", json)
            == ParsedPost(map[], "---\n" + h + "\n---")
  {
    var s := "---\n" + h + "\n---";
    UnterminatedNoClosing(h, s);
    NoClosingIsText(s, json);
  }

  /** No closing delimiter matches anywhere after the opening of such a text. */
  lemma UnterminatedNoClosing(h: string, s: string)
    requires SafeHeader(h) && s == "---\n" + h + "\n---"
    ensures DashesAt(s, 0)
    ensures forall q :: 4 <= q < |s| ==> ClosingAt(s, q).None?
  {
    var n := |h|;
    UnterminatedParts(h);
    forall q | 4 <= q < 4 + n
      ensures ClosingAt(s, q).None?
    {
      NoEarlyClosing(s, h, q - 4);
    }
    DashesNoClosing(s, 4 + n);
  }

  /** A line feed followed by nothing but dashes holds no closing delimiter:
      a line break must follow the `---`. */
  lemma DashesNoClosing(s: string, p: nat)
    requires p + 4 == |s| && s[p] == '\n'
    requires forall i :: p < i < |s| ==> s[i] == '-'
    ensures forall q :: p <= q < |s| ==> ClosingAt(s, q).None?
  {
    assert NewlineAt(s, p + 4).None?;
    assert forall q :: p < q < |s| ==> NewlineAt(s, q).None?;
  }

  /** Where the parts of a document with an unterminated closing sit. */
  lemma UnterminatedParts(h: string)
    ensures var s, n := "---\n" + h + "\n---", |h|;
            && |s| == n + 8
            && DashesAt(s, 0)
            && s[4..4 + n] == h
            && s[4 + n] == '\n'
            && forall i :: 5 + n <= i < |s| ==> s[i] == '-'
  {
    var s, n := "---\n" + h + "\n---", |h|;
    SliceParts(s, 0, "---\n", h, "\n---");
    assert s[4 + n..8 + n] == "\n---";
  }
}
