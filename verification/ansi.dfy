/** The terminal-text helpers of the watch loop (src/watch.ts): removing
    escape sequences before outputs are compared, and cutting a line to the
    terminal width without counting escape sequences as columns.

    The two helpers use two different notions of "escape sequence":
    - `StripAnsi` removes exactly the matches of two regular expressions,
      CSI sequences (ESC `[` digits-or-semicolons letter) and OSC sequences
      (ESC `]` anything-but-BEL BEL), one left-to-right pass each;
    - `TruncateLine` treats everything from an ESC up to the first ASCII
      letter as zero-width, whatever sits between them. */
module Ansi {

  import opened Wrappers
  import opened Strings

  // =====================================================================
  // stripAnsi

  predicate IsParamChar(c: char) {
    IsDigit(c) || c == ';'
  }

  /** Length of the longest run of digits and semicolons at the head of `s`
      (the greedy `[0-9;]*`). */
  function ParamRun(s: string): (n: nat)
    ensures n <= |s|
    ensures forall k :: 0 <= k < n ==> IsParamChar(s[k])
    ensures n < |s| ==> !IsParamChar(s[n])
    decreases |s|
  {
    if |s| == 0 || !IsParamChar(s[0]) then 0 else 1 + ParamRun(s[1..])
  }

  /** A run of exactly `n` parameter characters followed by something else
      is what ParamRun measures. */
  lemma ParamRunExact(s: string, n: nat)
    requires n <= |s|
    requires forall k :: 0 <= k < n ==> IsParamChar(s[k])
    requires n < |s| ==> !IsParamChar(s[n])
    ensures ParamRun(s) == n
  {
  }

  /** Length of the match of `/\x1b\[[0-9;]*[a-zA-Z]/` at the head of `s`.
      Backtracking into the digit run never helps, because the character
      that ends a shorter run is itself a digit or semicolon, not a letter. */
  function CsiLength(s: string): (r: Option<nat>)
    ensures r.Some? ==> 3 <= r.value <= |s|
  {
    if 2 <= |s| && s[0] == ESC && s[1] == '[' then
      var k := 2 + ParamRun(s[2..]);
      if k < |s| && IsAsciiLetter(s[k]) then Some(k + 1) else None
    else None
  }

  /** Length of the match of `/\x1b\][^\x07]*\x07/` at the head of `s`:
      ESC `]` up to and including the first BEL. */
  function OscLength(s: string): (r: Option<nat>)
    ensures r.Some? ==> 3 <= r.value <= |s|
  {
    if 2 <= |s| && s[0] == ESC && s[1] == ']' then
      match IndexOf(s[2..], BEL)
      case Some(j) => Some(j + 3)
      case None => None
    else None
  }

  /** `s.replace(/\x1b\[[0-9;]*[a-zA-Z]/g, "")`: a global replace tries the
      pattern at each position, drops a match and resumes after it. */
  function StripCsi(s: string): string
    decreases |s|
  {
    if |s| == 0 then []
    else
      match CsiLength(s)
      case Some(n) => StripCsi(s[n..])
      case None => [s[0]] + StripCsi(s[1..])
  }

  /** `s.replace(/\x1b\][^\x07]*\x07/g, "")`. */
  function StripOsc(s: string): string
    decreases |s|
  {
    if |s| == 0 then []
    else
      match OscLength(s)
      case Some(n) => StripOsc(s[n..])
      case None => [s[0]] + StripOsc(s[1..])
  }

  /** stripAnsi: the CSI pass, then the OSC pass over its result. It only
      ever deletes, so the result is never longer than the input. */
  function StripAnsi(s: string): (r: string)
    ensures |r| <= |s|
  {
    StripCsiShorter(s);
    StripOscShorter(StripCsi(s));
    StripOsc(StripCsi(s))
  }

  lemma {:induction false} StripCsiShorter(s: string)
    ensures |StripCsi(s)| <= |s|
    decreases |s|
  {
    if |s| > 0 {
      match CsiLength(s)
      case Some(n) => StripCsiShorter(s[n..]);
      case None => StripCsiShorter(s[1..]);
    }
  }

  lemma {:induction false} StripOscShorter(s: string)
    ensures |StripOsc(s)| <= |s|
    decreases |s|
  {
    if |s| > 0 {
      match OscLength(s)
      case Some(n) => StripOscShorter(s[n..]);
      case None => StripOscShorter(s[1..]);
    }
  }

  // ---------------------------------------------------------------------
  // Text without escapes passes through both passes unchanged

  lemma {:induction false} StripCsiEscFreePrefix(p: string, rest: string)
    requires EscFree(p)
    ensures StripCsi(p + rest) == p + StripCsi(rest)
    decreases |p|
  {
    if |p| > 0 {
      assert (p + rest)[0] == p[0];
      assert (p + rest)[1..] == p[1..] + rest;
      StripCsiEscFreePrefix(p[1..], rest);
      assert p == [p[0]] + p[1..];
    } else {
      assert p + rest == rest;
    }
  }

  lemma {:induction false} StripOscEscFreePrefix(p: string, rest: string)
    requires EscFree(p)
    ensures StripOsc(p + rest) == p + StripOsc(rest)
    decreases |p|
  {
    if |p| > 0 {
      assert (p + rest)[0] == p[0];
      assert (p + rest)[1..] == p[1..] + rest;
      StripOscEscFreePrefix(p[1..], rest);
      assert p == [p[0]] + p[1..];
    } else {
      assert p + rest == rest;
    }
  }

  /** Text without any ESC comes out of stripAnsi unchanged. */
  lemma StripAnsiPlain(s: string)
    requires EscFree(s)
    ensures StripAnsi(s) == s
  {
    StripCsiEscFreePrefix(s, []);
    StripOscEscFreePrefix(s, []);
    assert s + [] == s;
  }

  // ---------------------------------------------------------------------
  // Rendering styled text and stripping it again

  /** A piece of terminal output: plain text, a CSI (SGR) sequence
      ESC `[` params final, or an OSC title sequence ESC `]` body BEL. */
  datatype Chunk = Text(text: string) | Csi(params: string, final: char) | Osc(body: string)

  predicate WellFormed(c: Chunk) {
    match c
    case Text(t) => EscFree(t)
    case Csi(p, f) => (forall k :: 0 <= k < |p| ==> IsParamChar(p[k])) && IsAsciiLetter(f)
    case Osc(b) => EscFree(b) && BEL !in b
  }

  predicate AllWellFormed(cs: seq<Chunk>) {
    forall k :: 0 <= k < |cs| ==> WellFormed(cs[k])
  }

  function RenderChunk(c: Chunk): string {
    match c
    case Text(t) => t
    case Csi(p, f) => [ESC, '['] + p + [f]
    case Osc(b) => [ESC, ']'] + b + [BEL]
  }

  /** The characters written to the terminal for a sequence of chunks. */
  function Render(cs: seq<Chunk>): string
    decreases |cs|
  {
    if |cs| == 0 then [] else RenderChunk(cs[0]) + Render(cs[1..])
  }

  /** The text a reader sees: the plain chunks only. */
  function PlainText(cs: seq<Chunk>): string
    decreases |cs|
  {
    if |cs| == 0 then []
    else (if cs[0].Text? then cs[0].text else []) + PlainText(cs[1..])
  }

  function WithoutCsi(cs: seq<Chunk>): seq<Chunk>
    decreases |cs|
  {
    if |cs| == 0 then [] else (if cs[0].Csi? then [] else [cs[0]]) + WithoutCsi(cs[1..])
  }

  lemma CsiChunkLength(p: string, f: char, rest: string)
    requires WellFormed(Csi(p, f))
    ensures CsiLength(RenderChunk(Csi(p, f)) + rest) == Some(|p| + 3)
  {
    var s := RenderChunk(Csi(p, f)) + rest;
    assert s[2..] == p + [f] + rest;
    ParamRunExact(s[2..], |p|);
    assert s[|p| + 2] == f;
  }

  lemma OscChunkLength(b: string, rest: string)
    requires WellFormed(Osc(b))
    ensures OscLength(RenderChunk(Osc(b)) + rest) == Some(|b| + 3)
  {
    var s := RenderChunk(Osc(b)) + rest;
    var t := s[2..];
    assert t == b + [BEL] + rest;
    assert t[..|b|] == b;
    IndexOfExact(t, BEL, |b|);
  }

  lemma {:induction false} StripCsiRender(cs: seq<Chunk>)
    requires AllWellFormed(cs)
    ensures StripCsi(Render(cs)) == Render(WithoutCsi(cs))
    decreases |cs|
  {
    if |cs| > 0 {
      var c := cs[0];
      assert AllWellFormed(cs[1..]) by {
        forall k | 0 <= k < |cs[1..]| ensures WellFormed(cs[1..][k]) {
          assert cs[1..][k] == cs[k + 1];
        }
      }
      StripCsiRender(cs[1..]);
      StripCsiChunk(c, Render(cs[1..]));
      var kept := if c.Csi? then [] else [c];
      assert WithoutCsi(cs) == kept + WithoutCsi(cs[1..]);
      RenderAppend(kept, WithoutCsi(cs[1..]));
    }
  }

  /** The CSI pass drops a colour chunk whole and copies any other chunk. */
  lemma StripCsiChunk(c: Chunk, rest: string)
    requires WellFormed(c)
    ensures StripCsi(RenderChunk(c) + rest) == (if c.Csi? then [] else RenderChunk(c)) + StripCsi(rest)
  {
    match c
    case Text(t) =>
      StripCsiEscFreePrefix(t, rest);
    case Csi(p, f) =>
      StripCsiCode(p, f, rest);
      assert [] + StripCsi(rest) == StripCsi(rest);
    case Osc(b) =>
      StripCsiTitle(b, rest);
  }

  lemma StripCsiCode(p: string, f: char, rest: string)
    requires WellFormed(Csi(p, f))
    ensures StripCsi(RenderChunk(Csi(p, f)) + rest) == StripCsi(rest)
  {
    var s := RenderChunk(Csi(p, f)) + rest;
    CsiChunkLength(p, f, rest);
    assert s[|p| + 3..] == rest;
  }

  lemma StripCsiTitle(b: string, rest: string)
    requires WellFormed(Osc(b))
    ensures StripCsi(RenderChunk(Osc(b)) + rest) == RenderChunk(Osc(b)) + StripCsi(rest)
  {
    var tail := [']'] + b + [BEL];
    var s := [ESC] + (tail + rest);
    assert s == RenderChunk(Osc(b)) + rest;
    assert s[1] == ']';
    assert CsiLength(s) == None;
    assert s[1..] == tail + rest;
    assert ESC !in b && ESC !in [']'] && ESC !in [BEL];
    assert EscFree(tail);
    StripCsiEscFreePrefix(tail, rest);
  }

  /** Rendering distributes over concatenation of at most one chunk. */
  lemma RenderAppend(head: seq<Chunk>, tail: seq<Chunk>)
    requires |head| <= 1
    ensures Render(head + tail) == Render(head) + Render(tail)
  {
    if |head| == 1 {
      assert (head + tail)[0] == head[0];
      assert (head + tail)[1..] == tail;
      assert head[1..] == [];
    } else {
      assert head + tail == tail;
    }
  }

  lemma {:induction false} StripOscRender(cs: seq<Chunk>)
    requires AllWellFormed(cs)
    requires forall k :: 0 <= k < |cs| ==> !cs[k].Csi?
    ensures StripOsc(Render(cs)) == PlainText(cs)
    decreases |cs|
  {
    if |cs| > 0 {
      var c := cs[0];
      var rest := Render(cs[1..]);
      assert AllWellFormed(cs[1..]) by {
        forall k | 0 <= k < |cs[1..]| ensures WellFormed(cs[1..][k]) {
          assert cs[1..][k] == cs[k + 1];
        }
      }
      assert forall k :: 0 <= k < |cs[1..]| ==> !cs[1..][k].Csi? by {
        forall k | 0 <= k < |cs[1..]| ensures !cs[1..][k].Csi? {
          assert cs[1..][k] == cs[k + 1];
        }
      }
      StripOscRender(cs[1..]);
      assert WellFormed(c) && !c.Csi? by { assert cs[0] == c; }
      match c
      case Text(t) =>
        StripOscEscFreePrefix(t, rest);
      case Osc(b) =>
        OscChunkLength(b, rest);
        assert (RenderChunk(c) + rest)[|b| + 3..] == rest;
    }
  }

  lemma {:induction false} WithoutCsiFacts(cs: seq<Chunk>)
    requires AllWellFormed(cs)
    ensures AllWellFormed(WithoutCsi(cs))
    ensures forall k :: 0 <= k < |WithoutCsi(cs)| ==> !WithoutCsi(cs)[k].Csi?
    ensures PlainText(WithoutCsi(cs)) == PlainText(cs)
    decreases |cs|
  {
    if |cs| > 0 {
      assert AllWellFormed(cs[1..]) by {
        forall k | 0 <= k < |cs[1..]| ensures WellFormed(cs[1..][k]) {
          assert cs[1..][k] == cs[k + 1];
        }
      }
      WithoutCsiFacts(cs[1..]);
      var head := if cs[0].Csi? then [] else [cs[0]];
      var w := WithoutCsi(cs[1..]);
      assert WithoutCsi(cs) == head + w;
      assert PlainText(head + w) == PlainText(head) + PlainText(w) by {
        if head != [] {
          assert (head + w)[1..] == w;
        } else {
          assert head + w == w;
        }
      }
    }
  }

  /** Round trip: stripping the rendering of well-formed styled text yields
      exactly its plain text, so CSI colour codes and BEL-terminated titles
      are removed and nothing else is. */
  lemma StripAnsiRender(cs: seq<Chunk>)
    requires AllWellFormed(cs)
    ensures StripAnsi(Render(cs)) == PlainText(cs)
  {
    StripCsiRender(cs);
    WithoutCsiFacts(cs);
    StripOscRender(WithoutCsi(cs));
  }

  /** The two passes do not make stripAnsi idempotent: removing an inner
      colour code can assemble a new one from the surrounding characters. */
  lemma StripAnsiNotIdempotent()
    ensures StripAnsi("\U{1B}[\U{1B}[0m1m") == "\U{1B}[1m"
    ensures StripAnsi(StripAnsi("\U{1B}[\U{1B}[0m1m")) == ""
  {
    StripNestedCode();
    StripAssembledCode();
  }

  lemma StripNestedCode()
    ensures StripAnsi("\U{1B}[\U{1B}[0m1m") == "\U{1B}[1m"
  {
    NestedCsiPass();
    OscPassKeepsCode();
  }

  lemma OscPassKeepsCode()
    ensures StripOsc("\U{1B}[1m") == "\U{1B}[1m"
  {
    var t := "\U{1B}[1m";
    assert OscLength(t) == None;
    assert t[1..] == "[1m";
    StripOscEscFreePrefix("[1m", []);
    assert "[1m" + [] == "[1m";
    assert StripOsc([]) == [];
    assert StripOsc(t) == [t[0]] + StripOsc("[1m");
  }

  /** The CSI pass removes the inner code only: the outer `ESC [` is not
      followed by parameters and a letter. */
  lemma NestedCsiPass()
    ensures StripCsi("\U{1B}[\U{1B}[0m1m") == "\U{1B}[1m"
  {
    var s := "\U{1B}[\U{1B}[0m1m";
    var t := "[\U{1B}[0m1m";
    var u := "\U{1B}[0m1m";
    OuterNotCode();
    StripCsiNoMatch(s);
    assert s[1..] == t;
    assert CsiLength(t) == None;
    StripCsiNoMatch(t);
    assert t[1..] == u;
    InnerCodePass();
    assert [ESC] + ("[" + "1m") == "\U{1B}[1m";
  }

  /** Where no code starts, the CSI pass keeps the first character. */
  lemma StripCsiNoMatch(s: string)
    requires |s| > 0 && CsiLength(s) == None
    ensures StripCsi(s) == [s[0]] + StripCsi(s[1..])
  {
  }

  /** `ESC [` followed by ESC is not a CSI match. */
  lemma OuterNotCode()
    ensures CsiLength("\U{1B}[\U{1B}[0m1m") == None
  {
    var s := "\U{1B}[\U{1B}[0m1m";
    assert s[2..] == "\U{1B}[0m1m";
    assert ParamRun(s[2..]) == 0;
  }

  lemma InnerCodePass()
    ensures StripCsi("\U{1B}[0m1m") == "1m"
  {
    var u := "\U{1B}[0m1m";
    assert CsiLength(u) == Some(4) by {
      assert u[2..] == "0m1m";
      assert ParamRun("0m1m") == 1;
    }
    assert u[4..] == "1m";
    StripCsiEscFreePrefix("1m", []);
    assert "1m" + [] == "1m";
  }

  lemma StripAssembledCode()
    ensures StripAnsi("\U{1B}[1m") == ""
  {
    var t := "\U{1B}[1m";
    assert CsiLength(t) == Some(4) by {
      assert t[2..] == "1m";
      assert ParamRun("1m") == 1;
    }
    assert t[4..] == [];
  }

  // =====================================================================
  // truncateLine

  /** Whether truncateLine's scanner is inside an escape after reading all
      of `s`: an ESC opens one, the first ASCII letter after it closes it. */
  function InEscapeAfter(s: string): bool
    decreases |s|
  {
    if |s| == 0 then false
    else
      var c := s[|s| - 1];
      if c == ESC then true
      else if InEscapeAfter(s[..|s| - 1]) then !IsAsciiLetter(c)
      else false
  }

  /** The character at `i` costs one column: it is neither an ESC nor inside
      an escape opened before it. */
  predicate CostsColumn(s: string, i: nat)
    requires i < |s|
  {
    s[i] != ESC && !InEscapeAfter(s[..i])
  }

  /** Columns `s` occupies by truncateLine's own measure. */
  function VisibleWidth(s: string): nat
    decreases |s|
  {
    if |s| == 0 then 0
    else VisibleWidth(s[..|s| - 1]) + (if CostsColumn(s, |s| - 1) then 1 else 0)
  }

  /** The visible width never decreases as a prefix grows. */
  lemma {:induction false} VisibleWidthMonotone(s: string, j: nat, k: nat)
    ensures j <= k <= |s| ==> VisibleWidth(s[..j]) <= VisibleWidth(s[..k])
    decreases k
  {
    if j < k <= |s| {
      VisibleWidthMonotone(s, j, k - 1);
      assert s[..k][..k - 1] == s[..k - 1];
    }
  }

  /** Without escapes, every character costs one column. */
  lemma {:induction false} VisibleWidthEscFree(s: string)
    requires EscFree(s)
    ensures !InEscapeAfter(s)
    ensures VisibleWidth(s) == |s|
    decreases |s|
  {
    if |s| > 0 {
      var q := s[..|s| - 1];
      assert EscFree(q) by {
        forall k | 0 <= k < |q| ensures q[k] != ESC {
          assert q[k] == s[k];
        }
      }
      VisibleWidthEscFree(q);
      assert s[|s| - 1] != ESC;
    }
  }

  /** What truncateLine must return: the longest prefix of `line` whose
      visible width is within `maxWidth` (negative widths act as zero). */
  predicate IsTruncation(line: string, maxWidth: int, r: string) {
    && |r| <= |line|
    && r == line[..|r|]
    && VisibleWidth(r) <= Max(maxWidth, 0)
    && (|r| == |line| || VisibleWidth(line[..|r| + 1]) > Max(maxWidth, 0))
  }

  /** At most one prefix meets IsTruncation, so it pins the result down. */
  lemma TruncationUnique(line: string, maxWidth: int, r1: string, r2: string)
    requires IsTruncation(line, maxWidth, r1)
    requires IsTruncation(line, maxWidth, r2)
    ensures r1 == r2
  {
    VisibleWidthMonotone(line, |r1| + 1, |r2|);
    VisibleWidthMonotone(line, |r2| + 1, |r1|);
  }

  /** truncateLine: scan left to right; escape characters are copied at no
      cost; every other character is copied while columns remain. */
  method TruncateLine(line: string, maxWidth: int) returns (r: string)
    ensures IsTruncation(line, maxWidth, r)
    ensures r == line[..|r|]
    ensures VisibleWidth(r) == Min(Max(maxWidth, 0), VisibleWidth(line))
    ensures VisibleWidth(line) <= maxWidth ==> r == line
    ensures EscFree(line) ==> r == line[..Min(Max(maxWidth, 0), |line|)]
  {
    var displayWidth := 0;
    var inEscape := false;
    r := "";
    var i := 0;
    while i < |line|
      invariant 0 <= i <= |line|
      invariant r == line[..i]
      invariant inEscape == InEscapeAfter(line[..i])
      invariant displayWidth == VisibleWidth(line[..i])
      invariant displayWidth <= Max(maxWidth, 0)
    {
      var ch := line[i];
      assert line[..i + 1][..i] == line[..i];
      assert line[..i + 1][i] == ch;
      if ch == ESC {
        inEscape := true;
        r := r + [ch];
        i := i + 1;
        continue;
      }
      if inEscape {
        r := r + [ch];
        if IsAsciiLetter(ch) {
          inEscape := false;
        }
        i := i + 1;
        continue;
      }
      if displayWidth >= maxWidth {
        break;
      }
      r := r + [ch];
      displayWidth := displayWidth + 1;
      i := i + 1;
    }
    assert |r| == i;
    assert IsTruncation(line, maxWidth, r);
    if |r| < |line| {
      VisibleWidthMonotone(line, |r| + 1, |line|);
      assert line[..|line|] == line;
    } else {
      assert r == line;
    }
    if EscFree(line) {
      VisibleWidthEscFree(line);
      assert EscFree(r) by {
        forall k | 0 <= k < |r| ensures r[k] != ESC { assert r[k] == line[k]; }
      }
      VisibleWidthEscFree(r);
    }
  }

  // ---------------------------------------------------------------------
  // Zero-width escape runs, for worked examples

  /** ESC followed by letter-free, ESC-free text leaves the scanner inside
      the escape at no cost; a closing letter ends it, still at no cost. */
  lemma {:induction false} OpenEscapeRun(p: string)
    requires EscFree(p)
    requires forall k :: 0 <= k < |p| ==> !IsAsciiLetter(p[k])
    ensures InEscapeAfter([ESC] + p)
    ensures VisibleWidth([ESC] + p) == 0
    decreases |p|
  {
    var s := [ESC] + p;
    if |p| == 0 {
      assert s[..0] == [];
    } else {
      var q := p[..|p| - 1];
      assert s[..|s| - 1] == [ESC] + q;
      OpenEscapeRun(q);
      assert s[|s| - 1] == p[|p| - 1];
    }
  }

  lemma {:induction false} ClosedEscape(p: string, f: char)
    requires EscFree(p)
    requires forall k :: 0 <= k < |p| ==> !IsAsciiLetter(p[k])
    requires IsAsciiLetter(f)
    ensures !InEscapeAfter([ESC] + p + [f])
    ensures VisibleWidth([ESC] + p + [f]) == 0
  {
    var s := [ESC] + p + [f];
    assert s[..|s| - 1] == [ESC] + p;
    OpenEscapeRun(p);
  }

  /** Reading text after a prefix that ends outside an escape is the same
      as reading it from the start. */
  lemma {:induction false} WidthAfterClosedPrefix(a: string, b: string)
    requires !InEscapeAfter(a)
    ensures InEscapeAfter(a + b) == InEscapeAfter(b)
    ensures VisibleWidth(a + b) == VisibleWidth(a) + VisibleWidth(b)
    decreases |b|
  {
    if |b| == 0 {
      assert a + b == a;
    } else {
      var b' := b[..|b| - 1];
      assert (a + b)[..|a + b| - 1] == a + b';
      WidthAfterClosedPrefix(a, b');
    }
  }

  /** A colour code before the cut is kept whole and costs nothing:
      `"\x1b[31mhello\x1b[0m"` cut to 3 columns is `"\x1b[31mhel"`. */
  lemma TruncateKeepsLeadingEscape(r: string)
    requires IsTruncation("\U{1B}[31mhello\U{1B}[0m", 3, r)
    ensures r == "\U{1B}[31mhel"
  {
    var line := "\U{1B}[31mhello\U{1B}[0m";
    var open := "\U{1B}[31m";
    ClosedEscape("[31", 'm');
    assert open == [ESC] + "[31" + ['m'];
    assert line[..8] == open + "hel";
    assert line[..9] == open + "hell";
    WidthAfterClosedPrefix(open, "hel");
    WidthAfterClosedPrefix(open, "hell");
    VisibleWidthEscFree("hel");
    VisibleWidthEscFree("hell");
    assert IsTruncation(line, 3, open + "hel");
    TruncationUnique(line, 3, r, open + "hel");
  }

  /** An OSC title is not an escape to truncateLine beyond its first letter:
      `"\x1b]0;title\x07xyz"` cut to 0 columns is `"\x1b]0;t"`, so the width
      budget is spent on what stripAnsi would have removed. */
  lemma TruncateTitleAtZero(r: string)
    requires IsTruncation("\U{1B}]0;title\U{7}xyz", 0, r)
    ensures r == "\U{1B}]0;t"
  {
    var line := "\U{1B}]0;title\U{7}xyz";
    var open := "\U{1B}]0;t";
    ClosedEscape("]0;", 't');
    assert open == [ESC] + "]0;" + ['t'];
    assert line[..5] == open;
    assert line[..6] == open + "i";
    WidthAfterClosedPrefix(open, "i");
    VisibleWidthEscFree("i");
    assert IsTruncation(line, 0, open);
    TruncationUnique(line, 0, r, open);
  }
}
