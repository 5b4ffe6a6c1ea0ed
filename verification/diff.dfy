/** Diff rendering (src/diff.ts): change detection, HTML escaping, and the
    colouring of a unified diff into a `<pre>` block for the notification
    e-mail. The diff itself (the `diff` library's `createPatch`) is not
    modelled: callers receive it as a function. */
module Diff {

  import opened Wrappers
  import opened Strings

  /** hasChanged: outputs are compared exactly, white space included. */
  function HasChanged(oldOutput: string, newOutput: string): bool {
    oldOutput != newOutput
  }

  /** The unit tests' white-space cases all count as changes. */
  lemma HasChangedOnWhitespace()
    ensures HasChanged("hello", "hello ") && HasChanged("a\nb", "a\r\nb")
    ensures !HasChanged("same\n", "same\n")
  {
    assert "hello" != "hello " by { assert |"hello"| != |"hello "|; }
    assert "a\nb" != "a\r\nb" by { assert |"a\nb"| != |"a\r\nb"|; }
  }

  // =====================================================================
  // escapeHtml

  /** escapeHtml: four global replacements, `&` first so the entities the
      later ones introduce are not escaped again. */
  function EscapeHtml(s: string): string {
    ReplaceAll(ReplaceAll(ReplaceAll(ReplaceAll(s, '&', "&amp;"), '<', "&lt;"), '>', "&gt;"), '"', "&quot;")
  }

  /** The escape of one character, as an independent reference. */
  function EscapeChar(c: char): string {
    if c == '&' then "&amp;"
    else if c == '<' then "&lt;"
    else if c == '>' then "&gt;"
    else if c == '"' then "&quot;"
    else [c]
  }

  /** Character-by-character escaping. */
  function EscapeEach(s: string): string
    decreases |s|
  {
    if |s| == 0 then "" else EscapeChar(s[0]) + EscapeEach(s[1..])
  }

  lemma EscapeHtmlAppend(a: string, b: string)
    ensures EscapeHtml(a + b) == EscapeHtml(a) + EscapeHtml(b)
  {
    ReplaceAllAppend(a, b, '&', "&amp;");
    var a1, b1 := ReplaceAll(a, '&', "&amp;"), ReplaceAll(b, '&', "&amp;");
    ReplaceAllAppend(a1, b1, '<', "&lt;");
    var a2, b2 := ReplaceAll(a1, '<', "&lt;"), ReplaceAll(b1, '<', "&lt;");
    ReplaceAllAppend(a2, b2, '>', "&gt;");
    var a3, b3 := ReplaceAll(a2, '>', "&gt;"), ReplaceAll(b2, '>', "&gt;");
    ReplaceAllAppend(a3, b3, '"', "&quot;");
  }

  lemma ReplaceAllSingle(x: char, c: char, rep: string)
    ensures ReplaceAll([x], c, rep) == if x == c then rep else [x]
  {
    assert [x][1..] == [];
  }

  /** On one character the four passes produce that character's entity. */
  lemma EscapeHtmlChar(c: char)
    ensures EscapeHtml([c]) == EscapeChar(c)
  {
    if c == '&' {
      EscapeAmp(c);
    } else if c == '<' {
      EscapeLt(c);
    } else if c == '>' {
      EscapeGt(c);
    } else if c == '"' {
      EscapeQuot(c);
    } else {
      ReplaceAllSingle(c, '&', "&amp;");
      ReplaceAllSingle(c, '<', "&lt;");
      ReplaceAllSingle(c, '>', "&gt;");
      ReplaceAllSingle(c, '"', "&quot;");
    }
  }

  // The later passes leave an earlier entity alone.

  lemma EscapeAmp(c: char)
    requires c == '&'
    ensures EscapeHtml([c]) == EscapeChar(c)
  {
    ReplaceAllSingle(c, '&', "&amp;");
    LaterPassesKeep("&amp;");
  }

  /** Text without `<`, `>` or `"` passes the last three replacements
      unchanged. */
  lemma LaterPassesKeep(s: string)
    requires '<' !in s && '>' !in s && '"' !in s
    ensures ReplaceAll(ReplaceAll(ReplaceAll(s, '<', "&lt;"), '>', "&gt;"), '"', "&quot;") == s
  {
    ReplaceAllAbsent(s, '<', "&lt;");
    ReplaceAllAbsent(s, '>', "&gt;");
    ReplaceAllAbsent(s, '"', "&quot;");
  }

  lemma EscapeLt(c: char)
    requires c == '<'
    ensures EscapeHtml([c]) == EscapeChar(c)
  {
    ReplaceAllSingle(c, '&', "&amp;");
    ReplaceAllSingle(c, '<', "&lt;");
    var s2 := ReplaceAll([c], '<', "&lt;");
    ReplaceAllAbsent(s2, '>', "&gt;");
    ReplaceAllAbsent(s2, '"', "&quot;");
  }

  lemma EscapeGt(c: char)
    requires c == '>'
    ensures EscapeHtml([c]) == EscapeChar(c)
  {
    ReplaceAllSingle(c, '&', "&amp;");
    ReplaceAllSingle(c, '<', "&lt;");
    ReplaceAllSingle(c, '>', "&gt;");
    var s3 := ReplaceAll([c], '>', "&gt;");
    ReplaceAllAbsent(s3, '"', "&quot;");
  }

  lemma EscapeQuot(c: char)
    requires c == '"'
    ensures EscapeHtml([c]) == EscapeChar(c)
  {
    ReplaceAllSingle(c, '&', "&amp;");
    ReplaceAllSingle(c, '<', "&lt;");
    ReplaceAllSingle(c, '>', "&gt;");
    ReplaceAllSingle(c, '"', "&quot;");
  }

  /** The four passes agree with escaping each character on its own: `&`,
      `<`, `>` and `"` become entities and every other character is kept. */
  lemma {:induction false} EscapeHtmlIsEscapeEach(s: string)
    ensures EscapeHtml(s) == EscapeEach(s)
    decreases |s|
  {
    if |s| == 0 {
      assert EscapeHtml(s) == "";
    } else {
      assert s == [s[0]] + s[1..];
      EscapeHtmlAppend([s[0]], s[1..]);
      EscapeHtmlChar(s[0]);
      EscapeHtmlIsEscapeEach(s[1..]);
    }
  }

  /** The output of escapeHtml holds no raw `<`, `>` or `"`. */
  lemma EscapeHtmlNoMarkup(s: string)
    ensures '<' !in EscapeHtml(s) && '>' !in EscapeHtml(s) && '"' !in EscapeHtml(s)
  {
    var s1 := ReplaceAll(s, '&', "&amp;");
    var s2 := ReplaceAll(s1, '<', "&lt;");
    var s3 := ReplaceAll(s2, '>', "&gt;");
    ReplaceAllExcludes(s1, '<', "&lt;", '<');
    ReplaceAllExcludes(s2, '>', "&gt;", '<');
    ReplaceAllExcludes(s3, '"', "&quot;", '<');
    ReplaceAllExcludes(s2, '>', "&gt;", '>');
    ReplaceAllExcludes(s3, '"', "&quot;", '>');
    ReplaceAllExcludes(s3, '"', "&quot;", '"');
  }

  /** Escaping introduces no character that was absent, other than the
      entities' own letters, `&` and `;`. In particular it adds no newline. */
  lemma EscapeHtmlKeepsAbsent(s: string, d: char)
    requires d !in s
    requires d !in "&amp;lt;gt;quot"
    ensures d !in EscapeHtml(s)
  {
    var s1 := ReplaceAll(s, '&', "&amp;");
    var s2 := ReplaceAll(s1, '<', "&lt;");
    var s3 := ReplaceAll(s2, '>', "&gt;");
    ReplaceAllExcludes(s, '&', "&amp;", d);
    ReplaceAllExcludes(s1, '<', "&lt;", d);
    ReplaceAllExcludes(s2, '>', "&gt;", d);
    ReplaceAllExcludes(s3, '"', "&quot;", d);
  }

  /** Decoding of the four entities; any other text is copied. */
  function UnescapeHtml(s: string): string
    decreases |s|
  {
    if |s| == 0 then ""
    else if StartsWith(s, "&amp;") then "&" + UnescapeHtml(s[5..])
    else if StartsWith(s, "&lt;") then "<" + UnescapeHtml(s[4..])
    else if StartsWith(s, "&gt;") then ">" + UnescapeHtml(s[4..])
    else if StartsWith(s, "&quot;") then "\"" + UnescapeHtml(s[6..])
    else [s[0]] + UnescapeHtml(s[1..])
  }

  lemma UnescapeEntity(e: string, rest: string)
    requires e in {"&amp;", "&lt;", "&gt;", "&quot;"}
    ensures UnescapeHtml(e + rest) == EscapeInverse(e) + UnescapeHtml(rest)
  {
    var s := e + rest;
    assert s[..|e|] == e;
    assert s[|e|..] == rest;
    if e == "&lt;" {
      assert !StartsWith(s, "&amp;") by { assert s[1] == 'l'; }
    } else if e == "&gt;" {
      assert !StartsWith(s, "&amp;") by { assert s[1] == 'g'; }
      assert !StartsWith(s, "&lt;") by { assert s[1] == 'g'; }
    } else if e == "&quot;" {
      assert !StartsWith(s, "&amp;") by { assert s[1] == 'q'; }
      assert !StartsWith(s, "&lt;") by { assert s[1] == 'q'; }
      assert !StartsWith(s, "&gt;") by { assert s[1] == 'q'; }
    }
  }

  function EscapeInverse(e: string): string {
    if e == "&amp;" then "&" else if e == "&lt;" then "<" else if e == "&gt;" then ">" else "\""
  }

  /** Unescaping undoes escaping: the round trip gives the text back. */
  lemma {:induction false} UnescapeEscape(s: string)
    ensures UnescapeHtml(EscapeHtml(s)) == s
  {
    EscapeHtmlIsEscapeEach(s);
    UnescapeEscapeEach(s);
  }

  /** Text that does not start with `&` is copied one character on. */
  lemma UnescapeOther(c: char, rest: string)
    requires c != '&'
    ensures UnescapeHtml([c] + rest) == [c] + UnescapeHtml(rest)
  {
    var t := [c] + rest;
    assert t[0] == c && t[1..] == rest;
    NotStartsWithAt(t, "&amp;", 0);
    NotStartsWithAt(t, "&lt;", 0);
    NotStartsWithAt(t, "&gt;", 0);
    NotStartsWithAt(t, "&quot;", 0);
  }

  lemma {:induction false} UnescapeEscapeEach(s: string)
    ensures UnescapeHtml(EscapeEach(s)) == s
    decreases |s|
  {
    if |s| > 0 {
      var c := s[0];
      var rest := EscapeEach(s[1..]);
      assert EscapeEach(s) == EscapeChar(c) + rest;
      UnescapeEscapeEach(s[1..]);
      UnescapeChar(c, rest);
      assert s == [c] + s[1..];
    }
  }

  /** Decoding reads one escaped character back and resumes after it. */
  lemma UnescapeChar(c: char, rest: string)
    ensures UnescapeHtml(EscapeChar(c) + rest) == [c] + UnescapeHtml(rest)
  {
    if c == '&' || c == '<' || c == '>' || c == '"' {
      UnescapeEntity(EscapeChar(c), rest);
    } else {
      UnescapeOther(c, rest);
    }
  }

  // =====================================================================
  // diffToHtml

  // The markup is assembled from short pieces; the text is exactly that of
  // the template literals.
  const SPAN_HEAD: string := "<span style=\""
  const TAG_END: string := "\">"
  const GREEN_OPEN: string := SPAN_HEAD + "color:#22863a;" + "background:#f0fff4" + TAG_END
  const RED_OPEN: string := SPAN_HEAD + "color:#cb2431;" + "background:#ffeef0" + TAG_END
  const PURPLE_OPEN: string := SPAN_HEAD + "color:#6f42c1" + TAG_END
  const SPAN_CLOSE: string := "</span>"
  const PRE_HEAD: string := "<pre style=\""
  const PRE_STYLE: string :=
    "font-family:" + "'SFMono-Regular'," + "Consolas," + "'Liberation Mono',"
    + "Menlo,monospace;" + "font-size:13px;" + "line-height:1.45;" + "padding:16px;"
    + "overflow:auto;" + "background:#f6f8fa;" + "border-radius:6px"
  const PRE_OPEN: string := PRE_HEAD + PRE_STYLE + TAG_END
  const PRE_CLOSE: string := "</pre>"

  /** How a diff line is coloured. */
  datatype LineKind = Added | Removed | Hunk | Plain

  /** Additions and removals by their first character, excluding the
      `+++`/`---` file headers; hunk headers by `@@`. */
  function Classify(line: string): LineKind {
    if StartsWith(line, "+") && !StartsWith(line, "+++") then Added
    else if StartsWith(line, "-") && !StartsWith(line, "---") then Removed
    else if StartsWith(line, "@@") then Hunk
    else Plain
  }

  function OpenTag(k: LineKind): string
    requires k != Plain
  {
    match k
    case Added => GREEN_OPEN
    case Removed => RED_OPEN
    case Hunk => PURPLE_OPEN
  }

  /** One line of the `<pre>` body: the escaped line, wrapped in its span. */
  function RenderLine(line: string): string {
    var escaped := EscapeHtml(line);
    var k := Classify(line);
    if k == Plain then escaped else OpenTag(k) + escaped + SPAN_CLOSE
  }

  /** diffToHtml. */
  function DiffToHtml(diffText: string): (html: string)
    ensures StartsWith(html, "<pre") && EndsWith(html, "</pre>")
  {
    var lines := Split(diffText, NEWLINE);
    var htmlLines := seq(|lines|, i requires 0 <= i < |lines| => RenderLine(lines[i]));
    var html := PRE_OPEN + Join(htmlLines, NEWLINE) + PRE_CLOSE;
    PreWrapped(Join(htmlLines, NEWLINE));
    html
  }

  /** Any body wrapped in the `<pre>` tags starts and ends as a `<pre>`
      element. */
  lemma PreWrapped(body: string)
    ensures StartsWith(PRE_OPEN + body + PRE_CLOSE, "<pre")
    ensures EndsWith(PRE_OPEN + body + PRE_CLOSE, "</pre>")
  {
    var html := PRE_OPEN + body + PRE_CLOSE;
    assert html == PRE_HEAD + (PRE_STYLE + TAG_END + body + PRE_CLOSE);
    assert PRE_HEAD[..4] == "<pre";
    assert html[..4] == PRE_HEAD[..4];
    assert html[|html| - 6..] == PRE_CLOSE;
  }

  // ---------------------------------------------------------------------
  // Reading the HTML back: the inverse of the rendering

  /** The colour and text of one rendered line, read off its markup. */
  function ReadLine(r: string): (LineKind, string) {
    if StartsWith(r, GREEN_OPEN) && EndsWith(r, SPAN_CLOSE) && |r| >= |GREEN_OPEN| + |SPAN_CLOSE|
    then (Added, UnescapeHtml(r[|GREEN_OPEN|..|r| - |SPAN_CLOSE|]))
    else if StartsWith(r, RED_OPEN) && EndsWith(r, SPAN_CLOSE) && |r| >= |RED_OPEN| + |SPAN_CLOSE|
    then (Removed, UnescapeHtml(r[|RED_OPEN|..|r| - |SPAN_CLOSE|]))
    else if StartsWith(r, PURPLE_OPEN) && EndsWith(r, SPAN_CLOSE) && |r| >= |PURPLE_OPEN| + |SPAN_CLOSE|
    then (Hunk, UnescapeHtml(r[|PURPLE_OPEN|..|r| - |SPAN_CLOSE|]))
    else (Plain, UnescapeHtml(r))
  }

  /** The diff text a rendered `<pre>` block shows, if it is one. */
  function ReadHtml(html: string): Option<string> {
    if |html| >= |PRE_OPEN| + |PRE_CLOSE| && StartsWith(html, PRE_OPEN) && EndsWith(html, PRE_CLOSE)
    then
      var body := html[|PRE_OPEN|..|html| - |PRE_CLOSE|];
      var rendered := Split(body, NEWLINE);
      Some(Join(seq(|rendered|, i requires 0 <= i < |rendered| => ReadLine(rendered[i]).1), NEWLINE))
    else None
  }

  lemma WrappedParts(o: string, e: string)
    ensures StartsWith(o + e + SPAN_CLOSE, o) && EndsWith(o + e + SPAN_CLOSE, SPAN_CLOSE)
    ensures (o + e + SPAN_CLOSE)[|o|..|o + e + SPAN_CLOSE| - |SPAN_CLOSE|] == e
  {
    var r := o + e + SPAN_CLOSE;
    assert r[..|o|] == o;
    assert r[|r| - |SPAN_CLOSE|..] == SPAN_CLOSE;
  }

  /** The three opening tags differ at their 21st character. */
  lemma OpenTagsDiffer(r: string, o: string)
    requires StartsWith(r, o)
    ensures o == RED_OPEN ==> !StartsWith(r, GREEN_OPEN)
    ensures o == PURPLE_OPEN ==> !StartsWith(r, GREEN_OPEN) && !StartsWith(r, RED_OPEN)
  {
    if o == RED_OPEN || o == PURPLE_OPEN {
      assert r[20] == o[20];
      assert GREEN_OPEN[20] == '2' && RED_OPEN[20] == 'c' && PURPLE_OPEN[20] == '6';
    }
  }

  /** Escaped text starts with no tag, since it holds no raw `<`. */
  lemma EscapedIsNotTag(line: string, o: string)
    requires |o| > 0 && o[0] == '<'
    ensures !StartsWith(EscapeHtml(line), o)
  {
    EscapeHtmlNoMarkup(line);
    var e := EscapeHtml(line);
    if |o| <= |e| {
      assert e[0] in e;
      assert e[..|o|][0] != o[0];
    }
  }

  lemma TagFacts()
    ensures GREEN_OPEN[0] == '<' && RED_OPEN[0] == '<' && PURPLE_OPEN[0] == '<'
    ensures NEWLINE !in GREEN_OPEN && NEWLINE !in RED_OPEN && NEWLINE !in PURPLE_OPEN
    ensures NEWLINE !in SPAN_CLOSE
  {
  }

  /** A rendered line reads back as its colour and its original text. */
  lemma ReadRenderLine(line: string)
    ensures ReadLine(RenderLine(line)) == (Classify(line), line)
  {
    var e := EscapeHtml(line);
    var r := RenderLine(line);
    var k := Classify(line);
    UnescapeEscape(line);
    TagFacts();
    if k == Plain {
      EscapedIsNotTag(line, GREEN_OPEN);
      EscapedIsNotTag(line, RED_OPEN);
      EscapedIsNotTag(line, PURPLE_OPEN);
    } else {
      WrappedParts(OpenTag(k), e);
      OpenTagsDiffer(r, OpenTag(k));
    }
  }

  /** Rendered lines are newline-free when the line is. */
  lemma RenderLineNoNewline(line: string)
    requires NEWLINE !in line
    ensures NEWLINE !in RenderLine(line)
  {
    EscapeHtmlKeepsAbsent(line, NEWLINE);
    TagFacts();
  }

  /** The `<pre>` body holds exactly one rendered line per line of the diff
      text, in order. */
  lemma DiffToHtmlLines(diffText: string)
    ensures var html := DiffToHtml(diffText);
      var lines := Split(diffText, NEWLINE);
      && |html| >= |PRE_OPEN| + |PRE_CLOSE|
      && var rendered := Split(html[|PRE_OPEN|..|html| - |PRE_CLOSE|], NEWLINE);
      && |rendered| == |lines|
      && forall i :: 0 <= i < |lines| ==> rendered[i] == RenderLine(lines[i])
  {
    var lines := Split(diffText, NEWLINE);
    var htmlLines := seq(|lines|, i requires 0 <= i < |lines| => RenderLine(lines[i]));
    var body := Join(htmlLines, NEWLINE);
    var html := DiffToHtml(diffText);
    assert html == PRE_OPEN + body + PRE_CLOSE;
    assert html[|PRE_OPEN|..|html| - |PRE_CLOSE|] == body;
    SplitPiecesFree(diffText, NEWLINE);
    forall i | 0 <= i < |htmlLines| ensures NEWLINE !in htmlLines[i] {
      RenderLineNoNewline(lines[i]);
    }
    SplitJoin(htmlLines, NEWLINE);
  }

  /** Reading the HTML back recovers the diff text exactly: the colouring
      and escaping lose nothing. */
  lemma ReadDiffToHtml(diffText: string)
    ensures ReadHtml(DiffToHtml(diffText)) == Some(diffText)
  {
    var html := DiffToHtml(diffText);
    var lines := Split(diffText, NEWLINE);
    DiffToHtmlLines(diffText);
    assert html[..|PRE_OPEN|] == PRE_OPEN;
    assert html[|html| - |PRE_CLOSE|..] == PRE_CLOSE;
    var rendered := Split(html[|PRE_OPEN|..|html| - |PRE_CLOSE|], NEWLINE);
    var texts := seq(|rendered|, i requires 0 <= i < |rendered| => ReadLine(rendered[i]).1);
    forall i | 0 <= i < |lines| ensures texts[i] == lines[i] {
      ReadRenderLine(lines[i]);
    }
    assert texts == lines;
    JoinSplit(diffText, NEWLINE);
  }

  /** The classification the unit tests expect. */
  lemma ClassifyExamples()
    ensures Classify("+added line") == Added
    ensures Classify("-removed line") == Removed
    ensures Classify("@@ -1,3 +1,3 @@") == Hunk
    ensures Classify("--- previous") == Plain && Classify("+++ current") == Plain
  {
    assert "+added line"[..1] == "+";
    NotStartsWithAt("+added line", "+++", 1);
    NotStartsWithAt("-removed line", "+", 0);
    assert "-removed line"[..1] == "-";
    NotStartsWithAt("-removed line", "---", 1);
    NotStartsWithAt("@@ -1,3 +1,3 @@", "+", 0);
    NotStartsWithAt("@@ -1,3 +1,3 @@", "-", 0);
    assert "@@ -1,3 +1,3 @@"[..2] == "@@";
    NotStartsWithAt("--- previous", "+", 0);
    assert "--- previous"[..3] == "---";
    NotStartsWithAt("--- previous", "@@", 0);
    assert "+++ current"[..3] == "+++";
    NotStartsWithAt("+++ current", "-", 0);
    NotStartsWithAt("+++ current", "@@", 0);
  }
}
