/** Splitting a message into chunks that fit (`chunkDiscordMessage` in
    packages/notifications/src/render.ts): nothing is lost but white space, and every line that
    fits stays in one piece. */
module Chunking {
  import opened Arithmetic
  import opened Text

  /** The units of s that are not white space. */
  function Ink(s: JsString): JsString
    decreases |s|
  {
    if s == [] then []
    else Ink(s[..|s| - 1]) + if IsSpace(s[|s| - 1]) then [] else [s[|s| - 1]]
  }

  function InkOf(parts: seq<JsString>): JsString
    decreases |parts|
  {
    if parts == [] then [] else InkOf(parts[..|parts| - 1]) + Ink(parts[|parts| - 1])
  }

  /** content.split("\n") */
  function Lines(content: JsString): (lines: seq<JsString>)
    ensures lines != []
    decreases |content|
  {
    if content == [] then [[]]
    else
      var before, last := Lines(content[..|content| - 1]), content[|content| - 1];
      if last == NEWLINE then before + [[]]
      else before[..|before| - 1] + [before[|before| - 1] + [last]]
  }

  ghost predicate PartAt(s: JsString, part: JsString, i: int) {
    0 <= i <= |s| - |part| && s[i..i + |part|] == part
  }

  ghost predicate Contains(s: JsString, part: JsString) {
    exists i :: PartAt(s, part, i)
  }

  /** A line that fits, and is not blank, is found in one chunk, trimmed or not. */
  ghost predicate Kept(line: JsString, chunks: seq<JsString>) {
    exists k :: 0 <= k < |chunks| && Contains(chunks[k], Trim(line))
  }

  // ----- Ink is additive and survives trimming -----

  lemma {:induction false} InkConcat(a: JsString, b: JsString)
    ensures Ink(a + b) == Ink(a) + Ink(b)
    decreases |b|
  {
    if b == [] {
      assert a + b == a;
    } else {
      InkConcat(a, b[..|b| - 1]);
      assert (a + b)[..|a + b| - 1] == a + b[..|b| - 1];
    }
  }

  lemma {:induction false} InkTrimEnd(s: JsString)
    ensures Ink(TrimEnd(s)) == Ink(s)
    decreases |s|
  {
    if s != [] && IsSpace(s[|s| - 1]) {
      InkTrimEnd(s[..|s| - 1]);
    }
  }

  lemma {:induction false} InkTrimStart(s: JsString)
    ensures Ink(TrimStart(s)) == Ink(s)
    decreases |s|
  {
    if s != [] && IsSpace(s[0]) {
      InkTrimStart(s[1..]);
      InkConcat(s[..1], s[1..]);
      assert s == s[..1] + s[1..];
      assert Ink(s[..1]) == [] by { assert s[..1][..0] == []; }
    }
  }

  lemma InkTrim(s: JsString)
    ensures Ink(Trim(s)) == Ink(s)
  {
    InkTrimStart(s);
    InkTrimEnd(TrimStart(s));
  }

  lemma InkOfPushed(parts: seq<JsString>, s: JsString)
    ensures InkOf(parts + [s]) == InkOf(parts) + Ink(s)
  {
  }

  lemma LinesStep(content: JsString)
    requires content != []
    ensures var before, last := Lines(content[..|content| - 1]), content[|content| - 1];
            Lines(content) ==
            if last == NEWLINE then before + [[]] else before[..|before| - 1] + [before[|before| - 1] + [last]]
  {
  }

  lemma InkStep(content: JsString)
    requires content != []
    ensures var front, last := content[..|content| - 1], content[|content| - 1];
            Ink(content) == Ink(front) + Ink([last]) && (last == NEWLINE ==> Ink([last]) == [])
  {
    assert [content[|content| - 1]][..0] == [];
  }

  lemma InkNewLine(lines: seq<JsString>)
    ensures InkOf(lines + [[]]) == InkOf(lines)
  {
    InkOfPushed(lines, []);
  }

  lemma InkLongerLine(lines: seq<JsString>, last: Unit)
    requires lines != []
    ensures var n := |lines| - 1; InkOf(lines[..n] + [lines[n] + [last]]) == InkOf(lines) + Ink([last])
  {
    var n := |lines| - 1;
    InkOfPushed(lines[..n], lines[n] + [last]);
    InkConcat(lines[n], [last]);
  }

  lemma {:induction false} InkOfLines(content: JsString)
    ensures InkOf(Lines(content)) == Ink(content)
    decreases |content|
  {
    if content == [] {
      InkNewLine([]);
      assert [] + [[]] == Lines(content);
    } else {
      hide Ink, InkOf, Lines;
      LinesStep(content);
      InkStep(content);
      InkOfLines(content[..|content| - 1]);
      InkNewLine(Lines(content[..|content| - 1]));
      InkLongerLine(Lines(content[..|content| - 1]), content[|content| - 1]);
    }
  }

  // ----- Containment -----

  lemma ContainsAt(s: JsString, part: JsString, i: nat)
    requires i + |part| <= |s| && s[i..i + |part|] == part
    ensures Contains(s, part)
  {
    assert PartAt(s, part, i);
  }

  lemma ContainsInConcat(a: JsString, s: JsString, b: JsString, part: JsString)
    requires Contains(s, part)
    ensures Contains(a + s + b, part)
  {
    var i :| PartAt(s, part, i);
    assert PartAt(a + s + b, part, |a| + i);
  }

  predicate Tight(s: JsString) {
    s != [] && !IsSpace(s[0]) && !IsSpace(s[|s| - 1])
  }

  lemma {:induction false} TrimEndKeepsTight(s: JsString, part: JsString)
    requires Contains(s, part) && Tight(part)
    ensures Contains(TrimEnd(s), part)
    decreases |s|
  {
    if s != [] && IsSpace(s[|s| - 1]) {
      var i :| PartAt(s, part, i);
      assert s[i..i + |part|][|part| - 1] == s[i + |part| - 1];
      var front := s[..|s| - 1];
      assert PartAt(front, part, i);
      TrimEndKeepsTight(front, part);
    }
  }

  lemma {:induction false} TrimStartKeepsTight(s: JsString, part: JsString)
    requires Contains(s, part) && Tight(part)
    ensures Contains(TrimStart(s), part)
    decreases |s|
  {
    if s != [] && IsSpace(s[0]) {
      var i :| PartAt(s, part, i);
      assert s[i..i + |part|][0] == s[i];
      var tail := s[1..];
      assert PartAt(tail, part, i - 1);
      TrimStartKeepsTight(tail, part);
    }
  }

  lemma TrimKeepsTightPart(s: JsString, part: JsString)
    requires Contains(s, part) && Tight(part)
    ensures Contains(Trim(s), part)
  {
    TrimStartKeepsTight(s, part);
    TrimEndKeepsTight(TrimStart(s), part);
  }

  lemma {:induction false} ContainsOwnTrim(s: JsString)
    ensures Contains(s, Trim(s)) && (Trim(s) != [] ==> Tight(Trim(s)))
    decreases |s|
  {
    if s != [] && IsSpace(s[0]) {
      ContainsOwnTrim(s[1..]);
      ContainsInConcat(s[..1], s[1..], [], Trim(s));
      assert s[..1] + s[1..] + [] == s;
    } else if s != [] {
      TrimEndIsPrefix(s);
      ContainsAt(s, Trim(s), 0);
    } else {
      ContainsAt(s, [], 0);
    }
  }

  lemma {:induction false} TrimEndIsPrefix(s: JsString)
    ensures TrimEnd(s) <= s && (TrimEnd(s) != [] ==> !IsSpace(TrimEnd(s)[|TrimEnd(s)| - 1]))
    ensures s != [] && !IsSpace(s[0]) ==> TrimEnd(s) != []
    decreases |s|
  {
    if s != [] && IsSpace(s[|s| - 1]) {
      TrimEndIsPrefix(s[..|s| - 1]);
    }
  }

  /** A line of a message is one of the message without its last unit, or ends with that unit. */
  lemma LineOrLast(content: JsString, line: JsString)
    requires content != [] && line in Lines(content)
    ensures var before, last := Lines(content[..|content| - 1]), content[|content| - 1];
            line in before || (last == NEWLINE && line == []) || line == before[|before| - 1] + [last]
  {
    LinesStep(content);
    hide Lines;
  }

  lemma {:induction false} ContainsItsLines(content: JsString, line: JsString)
    requires line in Lines(content)
    ensures Contains(content, line)
    decreases |content|
  {
    if content == [] {
      ContainsAt(content, line, 0);
    } else {
      hide Contains, Lines;
      var front, last := content[..|content| - 1], content[|content| - 1];
      LineOrLast(content, line);
      if line in Lines(front) {
        ContainsItsLines(front, line);
        ContainsInConcat([], front, [last], line);
        assert content == [] + front + [last];
      } else if line == [] {
        ContainsAt(content, line, 0);
      } else {
        LastLineEnds(front);
        EndsWith(front, Lines(front)[|Lines(front)| - 1], last);
        assert content == front + [last];
      }
    }
  }

  lemma EndsWith(front: JsString, part: JsString, last: Unit)
    requires |part| <= |front| && front[|front| - |part|..] == part
    ensures Contains(front + [last], part + [last])
  {
    ContainsAt(front + [last], part + [last], |front| - |part|);
  }

  lemma {:induction false} LastLineEnds(content: JsString)
    ensures var last := Lines(content)[|Lines(content)| - 1];
            |last| <= |content| && content[|content| - |last|..] == last
    decreases |content|
  {
    if content != [] {
      LinesStep(content);
      hide Lines;
      var front, last := content[..|content| - 1], content[|content| - 1];
      if last != NEWLINE {
        LastLineEnds(front);
        assert content == front + [last];
      }
    }
  }

  // ----- Blank chunks -----

  predicate Blank(s: JsString) { Ink(s) == [] }

  ghost predicate AnyBlank(chunks: seq<JsString>) {
    exists k :: 0 <= k < |chunks| && Blank(chunks[k])
  }

  lemma AnyBlankConcat(a: seq<JsString>, b: seq<JsString>)
    ensures AnyBlank(a + b) <==> AnyBlank(a) || AnyBlank(b)
  {
    if AnyBlank(b) {
      var k :| 0 <= k < |b| && Blank(b[k]);
      assert (a + b)[|a| + k] == b[k];
    }
    if AnyBlank(a) {
      var k :| 0 <= k < |a| && Blank(a[k]);
      assert (a + b)[k] == a[k];
    }
  }

  lemma AnyBlankPushed(chunks: seq<JsString>, s: JsString)
    ensures AnyBlank(chunks + [s]) <==> AnyBlank(chunks) || Blank(s)
  {
    AnyBlankConcat(chunks, [s]);
    assert AnyBlank([s]) <==> Blank([s][0]);
  }

  /** Some maxLen units of a long line, counted from its start, are all white space. */
  predicate BlankSlice(line: JsString, maxLen: int)
    requires maxLen >= 1
    decreases |line|
  {
    line != [] && (Blank(line[..Min(maxLen, |line|)]) || BlankSlice(line[Min(maxLen, |line|)..], maxLen))
  }

  /** Lines that follow `len` units already packed, blank or not: a blank pack meets a line it cannot
      hold, or a long line has a blank slice. */
  predicate BlankPack(lines: seq<JsString>, len: nat, blank: bool, maxLen: int)
    requires maxLen >= 1
    decreases |lines|
  {
    lines != [] &&
    var line, rest := lines[0], lines[1..];
    if len + |line| + 1 > maxLen then
      (len > 0 && blank) ||
      if |line| > maxLen then BlankSlice(line, maxLen) || BlankPack(rest, 0, true, maxLen)
      else BlankPack(rest, |line|, Blank(line), maxLen)
    else BlankPack(rest, len + (if len > 0 then 1 else 0) + |line|, blank && Blank(line), maxLen)
  }

  /** When a message has a blank chunk, said of its lines: it is short and blank, or long with a blank
      pack. What is left blank at the end is not sent. */
  predicate SendsABlank(content: JsString, maxLen: int)
    requires maxLen >= 1
  {
    if |content| <= maxLen then Blank(content) else BlankPack(Lines(content), 0, true, maxLen)
  }

  // ----- The chunks as they lie in the message -----

  /** The text is the chunks in order, word for word, with nothing but white space around them. */
  ghost predicate Spaced(text: JsString, chunks: seq<JsString>)
    decreases |chunks|
  {
    if chunks == [] then Blank(text)
    else exists i :: EndsAt(text, chunks[|chunks| - 1], i) && Spaced(text[..i], chunks[..|chunks| - 1])
  }

  /** So many chunks cost no more than the budget. */
  predicate Few(count: nat, maxLen: int, budget: int) {
    count * maxLen <= budget
  }

  lemma OneMore(count: nat, maxLen: int, budget: int)
    requires Few(count, maxLen, budget)
    ensures Few(count + 1, maxLen, budget + maxLen)
  {
    assert (count + 1) * maxLen == count * maxLen + maxLen;
  }

  lemma Cheaper(count: nat, maxLen: int, a: int, b: int)
    requires Few(count, maxLen, a) && a <= b
    ensures Few(count, maxLen, b)
  {
  }

  lemma AllTogether(a: nat, b: nat, maxLen: int, x: int, y: int)
    requires Few(a, maxLen, x) && Few(b, maxLen, y)
    ensures Few(a + b, maxLen, x + y)
  {
    assert (a + b) * maxLen == a * maxLen + b * maxLen;
  }

  /** The part lies at i, and only white space follows it. */
  ghost predicate EndsAt(text: JsString, part: JsString, i: int) {
    PartAt(text, part, i) && Blank(text[i + |part|..])
  }

  /** The text is the chunks so laid out, and then the current one. */
  ghost predicate Laid(text: JsString, chunks: seq<JsString>, current: JsString) {
    && |current| <= |text| && text[|text| - |current|..] == current
    && Spaced(text[..|text| - |current|], chunks)
  }

  lemma BlankAppend(a: JsString, b: JsString)
    requires Blank(a) && Blank(b)
    ensures Blank(a + b)
  {
    InkConcat(a, b);
  }

  lemma EndsAtStill(text: JsString, part: JsString, i: int, blank: JsString)
    requires EndsAt(text, part, i) && Blank(blank)
    ensures EndsAt(text + blank, part, i) && (text + blank)[..i] == text[..i]
  {
    hide Blank;
    assert (text + blank)[i..i + |part|] == text[i..i + |part|];
    assert (text + blank)[i + |part|..] == text[i + |part|..] + blank;
    BlankAppend(text[i + |part|..], blank);
  }

  lemma SpacedAt(text: JsString, chunks: seq<JsString>, i: int)
    requires chunks != [] && EndsAt(text, chunks[|chunks| - 1], i) && Spaced(text[..i], chunks[..|chunks| - 1])
    ensures Spaced(text, chunks)
  {
  }

  lemma SpacedGrows(text: JsString, chunks: seq<JsString>, blank: JsString)
    requires Spaced(text, chunks) && Blank(blank)
    ensures Spaced(text + blank, chunks)
  {
    if chunks == [] {
      BlankAppend(text, blank);
    } else {
      var i :| EndsAt(text, chunks[|chunks| - 1], i) && Spaced(text[..i], chunks[..|chunks| - 1]);
      EndsAtStill(text, chunks[|chunks| - 1], i, blank);
      SpacedAt(text + blank, chunks, i);
    }
  }

  lemma SpacedPushed(text: JsString, chunks: seq<JsString>, part: JsString, blank: JsString)
    requires Spaced(text, chunks) && Blank(blank)
    ensures Spaced(text + part + blank, chunks + [part])
  {
    var all := text + part + blank;
    assert all[|text|..|text| + |part|] == part && all[|text| + |part|..] == blank && all[..|text|] == text;
    assert EndsAt(all, part, |text|);
    assert (chunks + [part])[..|chunks|] == chunks;
  }

  lemma {:induction false} TrimLeaves(s: JsString) returns (before: JsString, after: JsString)
    ensures s == before + Trim(s) + after && Blank(before) && Blank(after)
    decreases |s|
  {
    if s != [] && IsSpace(s[0]) {
      before, after := TrimLeaves(s[1..]);
      InkConcat([s[0]], before);
      assert [s[0]][..0] == [] && s == [s[0]] + s[1..];
      before := [s[0]] + before;
    } else {
      before := [];
      after := EndLeaves(s);
    }
  }

  lemma {:induction false} EndLeaves(s: JsString) returns (after: JsString)
    ensures s == TrimEnd(s) + after && Blank(after)
    decreases |s|
  {
    after := [];
    if s != [] && IsSpace(s[|s| - 1]) {
      after := EndLeaves(s[..|s| - 1]);
      InkConcat(after, [s[|s| - 1]]);
      assert [s[|s| - 1]][..0] == [];
      after := after + [s[|s| - 1]];
    }
  }

  lemma LaidFlush(text: JsString, chunks: seq<JsString>, current: JsString)
    requires Laid(text, chunks, current)
    ensures Laid(text, chunks + [Trim(current)], [])
  {
    hide Spaced, Trim, Blank;
    var before, after := TrimLeaves(current);
    var start := text[..|text| - |current|];
    SpacedGrows(start, chunks, before);
    SpacedPushed(start + before, chunks, Trim(current), after);
    assert text == start + current;
    assert text == start + before + Trim(current) + after;
    assert text[..|text| - 0] == text;
  }

  lemma LaidNext(text: JsString, chunks: seq<JsString>, line: JsString)
    requires Laid(text, chunks, [])
    ensures Laid(text + [NEWLINE] + line, chunks, line)
  {
    GlueIsBlank([NEWLINE]);
    assert text[..|text| - 0] == text;
    SpacedGrows(text, chunks, [NEWLINE]);
    assert (text + [NEWLINE] + line)[..|text| + 1] == text + [NEWLINE];
  }

  lemma LaidMore(text: JsString, chunks: seq<JsString>, current: JsString, line: JsString)
    requires Laid(text, chunks, current)
    ensures Laid(text + [NEWLINE] + line, chunks, current + [NEWLINE] + line)
  {
    var all := text + [NEWLINE] + line;
    var start := |text| - |current|;
    assert all[..start] == text[..start] && all[start..] == text[start..] + [NEWLINE] + line;
  }

  lemma LaidFirst(line: JsString)
    ensures Laid(line, [], line)
  {
    assert line[..0] == [];
  }

  lemma {:induction false} SpacedSlices(start: JsString, chunks: seq<JsString>, slices: seq<JsString>)
    requires Spaced(start, chunks)
    ensures Spaced(start + Joined(slices), chunks + slices)
    decreases |slices|
  {
    hide Spaced, Blank;
    if slices == [] {
      assert chunks + slices == chunks && start + [] == start;
    } else {
      var front, last := slices[..|slices| - 1], slices[|slices| - 1];
      SpacedSlices(start, chunks, front);
      BlankStart();
      SpacedPushed(start + Joined(front), chunks + front, last, []);
      Regroup(start, Joined(front), last);
      assert start + Joined(front) + last + [] == start + Joined(front) + last;
      assert chunks + front + [last] == chunks + slices;
    }
  }

  lemma LaidSlices(text: JsString, chunks: seq<JsString>, slices: seq<JsString>)
    requires Laid(text, chunks, Joined(slices))
    ensures Laid(text, chunks + slices, [])
  {
    hide Spaced, Joined;
    var start := text[..|text| - |Joined(slices)|];
    SpacedSlices(start, chunks, slices);
    assert start + Joined(slices) == text == text[..|text| - 0];
  }

  lemma LaidToTheEnd(text: JsString, chunks: seq<JsString>, current: JsString)
    requires Laid(text, chunks, current) && Blank(current)
    ensures Spaced(text, chunks)
  {
    SpacedGrows(text[..|text| - |current|], chunks, current);
    assert text == text[..|text| - |current|] + current;
  }

  /** A line begins after the lines before it, or at the very start. */
  lemma LaidLine(lines: seq<JsString>, n: nat, chunks: seq<JsString>)
    requires n < |lines|
    requires if n == 0 then chunks == [] else Laid(TextOf(lines[..n]), chunks, [])
    ensures Laid(TextOf(lines[..n + 1]), chunks, lines[n])
  {
    if n == 0 {
      LaidFirst(lines[0]);
    } else {
      LaidNext(TextOf(lines[..n]), chunks, lines[n]);
      TextGrows(lines, n);
    }
  }

  lemma WholeIsSpaced(content: JsString)
    ensures Spaced(content, [content])
  {
    assert Blank([]);
    SpacedPushed([], [], content, []);
    assert [] + content + [] == content && [] + [content] == [content];
  }

  function Joined(parts: seq<JsString>): JsString
    decreases |parts|
  {
    if parts == [] then [] else Joined(parts[..|parts| - 1]) + parts[|parts| - 1]
  }

  /** The first lines of a message with the newlines between them. */
  function TextOf(lines: seq<JsString>): JsString
    requires lines != []
    decreases |lines|
  {
    if |lines| == 1 then lines[0] else TextOf(lines[..|lines| - 1]) + [NEWLINE] + lines[|lines| - 1]
  }

  lemma TextNewLine(lines: seq<JsString>)
    requires lines != []
    ensures TextOf(lines + [[]]) == TextOf(lines) + [NEWLINE]
  {
    assert (lines + [[]])[..|lines|] == lines;
  }

  lemma TextEnds(lines: seq<JsString>, line: JsString)
    ensures TextOf(lines + [line]) == (if lines == [] then line else TextOf(lines) + [NEWLINE] + line)
  {
    assert (lines + [line])[..|lines|] == lines;
  }

  lemma Regroup(a: JsString, b: JsString, c: JsString)
    ensures a + b + c == a + (b + c)
  {
  }

  lemma TextLongerEnd(front: seq<JsString>, line: JsString, last: Unit)
    ensures TextOf(front + [line + [last]]) == TextOf(front + [line]) + [last]
  {
    TextEnds(front, line);
    TextEnds(front, line + [last]);
    hide TextOf;
    if front != [] {
      Regroup(TextOf(front) + [NEWLINE], line, [last]);
    }
  }

  lemma TextLongerLine(lines: seq<JsString>, last: Unit)
    requires lines != []
    ensures var n := |lines| - 1; TextOf(lines[..n] + [lines[n] + [last]]) == TextOf(lines) + [last]
  {
    hide TextOf;
    var n := |lines| - 1;
    TextLongerEnd(lines[..n], lines[n], last);
    assert lines[..n] + [lines[n]] == lines;
  }

  lemma {:induction false} TextOfLines(content: JsString)
    ensures TextOf(Lines(content)) == content
    decreases |content|
  {
    if content != [] {
      hide TextOf, Lines;
      LinesStep(content);
      TextOfLines(content[..|content| - 1]);
      TextNewLine(Lines(content[..|content| - 1]));
      TextLongerLine(Lines(content[..|content| - 1]), content[|content| - 1]);
    }
  }

  lemma TextStarts(lines: seq<JsString>)
    requires lines != []
    ensures lines[..1] == [lines[0]] && TextOf(lines[..1]) == lines[0]
  {
  }

  lemma TextGrows(lines: seq<JsString>, n: nat)
    requires 0 < n < |lines|
    ensures TextOf(lines[..n + 1]) == TextOf(lines[..n]) + [NEWLINE] + lines[n]
  {
    assert lines[..n + 1][..n] == lines[..n];
  }

  // ----- The loop -----

  /** Every non-blank fitting line among `lines` is in a finished chunk or in the current one. */
  ghost predicate AllKept(lines: seq<JsString>, chunks: seq<JsString>, current: JsString, maxLen: int) {
    forall j :: 0 <= j < |lines| && |lines[j]| <= maxLen && Trim(lines[j]) != [] ==>
      Kept(lines[j], chunks) || Contains(current, Trim(lines[j]))
  }

  lemma KeptStays(line: JsString, chunks: seq<JsString>, more: seq<JsString>)
    requires Kept(line, chunks)
    ensures Kept(line, chunks + more)
  {
    var k :| 0 <= k < |chunks| && Contains(chunks[k], Trim(line));
    assert (chunks + more)[k] == chunks[k];
  }

  lemma FlushKeeps(lines: seq<JsString>, chunks: seq<JsString>, current: JsString, maxLen: int)
    requires AllKept(lines, chunks, current, maxLen)
    ensures AllKept(lines, chunks + [Trim(current)], [], maxLen)
  {
    forall j | 0 <= j < |lines| && |lines[j]| <= maxLen && Trim(lines[j]) != []
      ensures Kept(lines[j], chunks + [Trim(current)])
    {
      if Kept(lines[j], chunks) {
        KeptStays(lines[j], chunks, [Trim(current)]);
      } else {
        ContainsOwnTrim(lines[j]);
        TrimKeepsTightPart(current, Trim(lines[j]));
        assert (chunks + [Trim(current)])[|chunks|] == Trim(current);
      }
    }
  }

  lemma ExtendKeeps(lines: seq<JsString>, chunks: seq<JsString>, current: JsString, glue: JsString, line: JsString,
                    maxLen: int)
    requires AllKept(lines, chunks, current, maxLen)
    ensures AllKept(lines + [line], chunks, current + glue + line, maxLen)
  {
    forall j | 0 <= j < |lines| + 1 && |(lines + [line])[j]| <= maxLen && Trim((lines + [line])[j]) != []
      ensures Kept((lines + [line])[j], chunks) || Contains(current + glue + line, Trim((lines + [line])[j]))
    {
      if j < |lines| {
        if !Kept(lines[j], chunks) {
          ContainsInConcat([], current, glue + line, Trim(lines[j]));
          assert [] + current + (glue + line) == current + glue + line;
        }
      } else {
        ContainsOwnTrim(line);
        ContainsInConcat(current + glue, line, [], Trim(line));
        assert current + glue + line + [] == current + glue + line;
      }
    }
  }

  lemma LongLineKeeps(lines: seq<JsString>, chunks: seq<JsString>, more: seq<JsString>, line: JsString, maxLen: int)
    requires AllKept(lines, chunks, [], maxLen) && |line| > maxLen
    ensures AllKept(lines + [line], chunks + more, [], maxLen)
  {
    forall j | 0 <= j < |lines| + 1 && |(lines + [line])[j]| <= maxLen && Trim((lines + [line])[j]) != []
      ensures Kept((lines + [line])[j], chunks + more)
    {
      assert j < |lines| && !Contains([], Trim(lines[j]));
      KeptStays(lines[j], chunks, more);
    }
  }

  lemma InkOfNoParts()
    ensures InkOf([]) == []
  {
  }

  lemma InkOfNothing(line: JsString)
    ensures InkOf([]) == Ink(line[..0])
  {
  }

  lemma NoneBlank()
    ensures !AnyBlank([])
  {
  }

  lemma SliceOf(line: JsString, i: nat, end: nat)
    requires i <= end <= |line|
    ensures line[i..][..end - i] == line[i..end] && line[i..][end - i..] == line[end..]
    ensures line[..i] + line[i..end] == line[..end]
  {
  }

  /** Slices of a line that is too long. */
  method SliceLine(line: JsString, maxLen: int) returns (slices: seq<JsString>)
    requires maxLen >= 1
    ensures forall k :: 0 <= k < |slices| ==> |slices[k]| <= maxLen
    ensures InkOf(slices) == Ink(line)
    ensures AnyBlank(slices) <==> BlankSlice(line, maxLen)
    ensures Joined(slices) == line
    ensures Few(|slices|, maxLen, |line| + maxLen)
  {
    hide Ink, InkOf, AnyBlank, Blank;
    assert Few(0, maxLen, 0);
    hide Few;
    NoneBlank();
    slices := [];
    InkOfNothing(line);
    var i := 0;
    while i < |line|
      invariant 0 <= i
      invariant forall k :: 0 <= k < |slices| ==> |slices[k]| <= maxLen
      invariant InkOf(slices) == Ink(line[..if i < |line| then i else |line|])
      invariant BlankSlice(line, maxLen) <==>
                AnyBlank(slices) || BlankSlice(line[if i < |line| then i else |line|..], maxLen)
      invariant Few(|slices|, maxLen, i) && (i >= maxLen || slices == []) && i <= |line| + maxLen
      invariant Joined(slices) == line[..if i < |line| then i else |line|]
      decreases |line| - i
    {
      var end := if i + maxLen < |line| then i + maxLen else |line|;
      InkOfPushed(slices, line[i..end]);
      InkConcat(line[..i], line[i..end]);
      AnyBlankPushed(slices, line[i..end]);
      assert (slices + [line[i..end]])[..|slices|] == slices;
      SliceOf(line, i, end);
      OneMore(|slices|, maxLen, i);
      slices := slices + [line[i..end]];
      i := i + maxLen;
    }
    assert line[..|line|] == line;
  }

  lemma {:induction false} InkOfConcat(a: seq<JsString>, b: seq<JsString>)
    ensures InkOf(a + b) == InkOf(a) + InkOf(b)
    decreases |b|
  {
    hide Ink, InkOf;
    if b == [] {
      assert a + b == a;
      assert InkOf(b) == [] by { InkOfNoParts(); }
    } else {
      var front, last := b[..|b| - 1], b[|b| - 1];
      InkOfConcat(a, front);
      InkOfPushed(a + front, last);
      InkOfPushed(front, last);
      assert front + [last] == b;
      assert a + b == (a + front) + [last];
      assert InkOf(a) + (InkOf(front) + Ink(last)) == (InkOf(a) + InkOf(front)) + Ink(last);
    }
  }

  // ----- What the loop keeps -----

  /** After n lines: where the chunks and the current one stand, how much text is packed, and how much
      of the next line is already accounted for. */
  datatype Stand = Stand(chunks: seq<JsString>, current: JsString, packed: nat, credit: nat)

  ghost predicate AllFit(chunks: seq<JsString>, maxLen: int) {
    forall k :: 0 <= k < |chunks| ==> |chunks[k]| <= maxLen
  }

  ghost predicate InkStands(lines: seq<JsString>, n: nat, s: Stand, maxLen: int)
    requires n <= |lines|
  {
    && AllFit(s.chunks, maxLen) && |s.current| <= maxLen
    && InkOf(s.chunks) + Ink(s.current) == InkOf(lines[..n])
    && AllKept(lines[..n], s.chunks, s.current, maxLen)
  }

  ghost predicate BlanksStand(lines: seq<JsString>, n: nat, s: Stand, maxLen: int, sends: bool)
    requires n <= |lines| && maxLen >= 1
  {
    sends <==> AnyBlank(s.chunks) || BlankPack(lines[n..], |s.current|, Blank(s.current), maxLen)
  }

  ghost predicate TextStands(lines: seq<JsString>, n: nat, s: Stand, maxLen: int)
    requires n <= |lines|
  {
    && (if n == 0 then s.chunks == [] && s.current == [] else Laid(TextOf(lines[..n]), s.chunks, s.current))
    && s.packed + |s.current| <= (if n == 0 then 0 else |TextOf(lines[..n])|)
    && Few(|s.chunks|, maxLen, 3 * s.packed + |s.current| + s.credit)
  }

  ghost predicate Stands(lines: seq<JsString>, n: nat, s: Stand, maxLen: int, sends: bool)
    requires n <= |lines| && maxLen >= 1
  {
    InkStands(lines, n, s, maxLen) && BlanksStand(lines, n, s, maxLen, sends) && TextStands(lines, n, s, maxLen)
  }

  lemma StandsAtFirst(lines: seq<JsString>, maxLen: int)
    requires maxLen >= 1
    ensures Stands(lines, 0, Stand([], [], 0, 0), maxLen, BlankPack(lines, 0, true, maxLen))
  {
    Start(lines, maxLen);
    NoneBlank();
    assert lines[0..] == lines;
  }

  lemma FlushStands(lines: seq<JsString>, n: nat, s: Stand, maxLen: int, sends: bool)
    requires n < |lines| && maxLen >= 1 && s.current != [] && s.credit == 0 && Stands(lines, n, s, maxLen, sends)
    requires |s.current| + |lines[n]| + 1 > maxLen
    ensures Stands(lines, n, Stand(s.chunks + [Trim(s.current)], [], s.packed + |s.current|, |lines[n]|), maxLen, sends)
  {
    hide Ink, InkOf, AllKept, AnyBlank, Blank, BlankPack, BlankSlice, Laid, Few, TextOf, Trim;
    InkTrim(s.current);
    InkOfPushed(s.chunks, Trim(s.current));
    assert Ink([]) == [] by { GlueIsBlank([]); }
    FlushKeeps(lines[..n], s.chunks, s.current, maxLen);
    TrimShrinks(s.current);
    BlankTrim(s.current);
    BlankStart();
    AnyBlankPushed(s.chunks, Trim(s.current));
    NextPack(lines, n, |s.current|, Blank(s.current), maxLen);
    NextPack(lines, n, 0, true, maxLen);
    if n > 0 {
      LaidFlush(TextOf(lines[..n]), s.chunks, s.current);
    }
    OneMore(|s.chunks|, maxLen, 3 * s.packed + |s.current|);
    Cheaper(|s.chunks| + 1, maxLen, 3 * s.packed + |s.current| + maxLen,
            3 * (s.packed + |s.current|) + |lines[n]|);
  }

  lemma NextText(lines: seq<JsString>, n: nat)
    requires n < |lines|
    ensures lines[..n + 1] == lines[..n] + [lines[n]]
    ensures |TextOf(lines[..n + 1])| >= (if n == 0 then 0 else |TextOf(lines[..n])|) + |lines[n]|
  {
    if n == 0 {
      TextStarts(lines);
    } else {
      TextGrows(lines, n);
    }
  }

  lemma StartStands(lines: seq<JsString>, n: nat, s: Stand, maxLen: int, sends: bool)
    requires n < |lines| && maxLen >= 1 && s.current == [] && s.credit <= |lines[n]| <= maxLen
    requires Stands(lines, n, s, maxLen, sends)
    ensures Stands(lines, n + 1, Stand(s.chunks, lines[n], s.packed, 0), maxLen, sends)
  {
    hide Ink, InkOf, AllKept, AnyBlank, Blank, BlankPack, BlankSlice, Laid, Few, TextOf;
    NextText(lines, n);
    InkOfPushed(lines[..n], lines[n]);
    assert Ink([]) == [] by { GlueIsBlank([]); }
    ExtendKeeps(lines[..n], s.chunks, [], [], lines[n], maxLen);
    assert [] + [] + lines[n] == lines[n];
    NextPack(lines, n, 0, true, maxLen);
    BlankStart();
    LaidLine(lines, n, s.chunks);
    Cheaper(|s.chunks|, maxLen, 3 * s.packed + s.credit, 3 * s.packed + |lines[n]|);
  }

  lemma MoreStands(lines: seq<JsString>, n: nat, s: Stand, maxLen: int, sends: bool)
    requires n < |lines| && maxLen >= 1 && s.current != [] && s.credit == 0 && Stands(lines, n, s, maxLen, sends)
    requires |s.current| + |lines[n]| + 1 <= maxLen
    ensures Stands(lines, n + 1, s.(current := s.current + [NEWLINE] + lines[n]), maxLen, sends)
  {
    hide Ink, InkOf, AllKept, AnyBlank, Blank, BlankPack, BlankSlice, Laid, Few, TextOf;
    var line, current := lines[n], s.current + [NEWLINE] + lines[n];
    NextText(lines, n);
    TextGrows(lines, n);
    InkOfPushed(lines[..n], line);
    ExtendKeeps(lines[..n], s.chunks, s.current, [NEWLINE], line, maxLen);
    InkConcat(s.current + [NEWLINE], line);
    InkConcat(s.current, [NEWLINE]);
    GlueIsBlank([NEWLINE]);
    assert InkOf(s.chunks) + Ink(current) == InkOf(s.chunks) + Ink(s.current) + Ink(line);
    BlankConcat(s.current, [NEWLINE], line);
    NextPack(lines, n, |s.current|, Blank(s.current), maxLen);
    LaidMore(TextOf(lines[..n]), s.chunks, s.current, line);
    Cheaper(|s.chunks|, maxLen, 3 * s.packed + |s.current|, 3 * s.packed + |current|);
  }

  lemma LongInk(lines: seq<JsString>, n: nat, s: Stand, slices: seq<JsString>, maxLen: int)
    requires n < |lines| && s.current == [] && maxLen < |lines[n]| && InkStands(lines, n, s, maxLen)
    requires AllFit(slices, maxLen) && InkOf(slices) == Ink(lines[n])
    ensures InkStands(lines, n + 1, Stand(s.chunks + slices, [], s.packed + |lines[n]|, 0), maxLen)
  {
    hide Ink, InkOf, AllKept;
    assert lines[..n + 1] == lines[..n] + [lines[n]];
    InkOfPushed(lines[..n], lines[n]);
    assert Ink([]) == [] by { GlueIsBlank([]); }
    InkOfConcat(s.chunks, slices);
    LongLineKeeps(lines[..n], s.chunks, slices, lines[n], maxLen);
  }

  lemma LongBlanks(lines: seq<JsString>, n: nat, s: Stand, slices: seq<JsString>, maxLen: int, sends: bool)
    requires n < |lines| && maxLen >= 1 && s.current == [] && maxLen < |lines[n]|
    requires BlanksStand(lines, n, s, maxLen, sends) && (AnyBlank(slices) <==> BlankSlice(lines[n], maxLen))
    ensures BlanksStand(lines, n + 1, Stand(s.chunks + slices, [], s.packed + |lines[n]|, 0), maxLen, sends)
  {
    hide AnyBlank, Blank, BlankPack, BlankSlice;
    AnyBlankConcat(s.chunks, slices);
    BlankStart();
    NextPack(lines, n, 0, true, maxLen);
  }

  lemma LongText(lines: seq<JsString>, n: nat, s: Stand, slices: seq<JsString>, maxLen: int)
    requires n < |lines| && maxLen >= 1 && s.current == [] && s.credit <= |lines[n]| && maxLen < |lines[n]|
    requires TextStands(lines, n, s, maxLen) && Joined(slices) == lines[n]
    requires Few(|slices|, maxLen, |lines[n]| + maxLen)
    ensures TextStands(lines, n + 1, Stand(s.chunks + slices, [], s.packed + |lines[n]|, 0), maxLen)
  {
    hide Laid, TextOf, Joined;
    NextText(lines, n);
    assert Laid(TextOf(lines[..n + 1]), s.chunks + slices, []) by {
      hide Few;
      LaidLine(lines, n, s.chunks);
      LaidSlices(TextOf(lines[..n + 1]), s.chunks, slices);
    }
    LongFew(|s.chunks|, |slices|, maxLen, s.packed, s.credit, |lines[n]|);
    hide Few;
    assert |s.chunks + slices| == |s.chunks| + |slices|;
  }

  lemma LongFew(a: nat, b: nat, maxLen: int, packed: nat, credit: nat, length: nat)
    requires Few(a, maxLen, 3 * packed + credit) && Few(b, maxLen, length + maxLen)
    requires credit <= length && maxLen < length
    ensures Few(a + b, maxLen, 3 * (packed + length))
  {
    hide Few;
    AllTogether(a, b, maxLen, 3 * packed + credit, length + maxLen);
    Cheaper(a + b, maxLen, 3 * packed + credit + (length + maxLen), 3 * (packed + length));
  }

  lemma LongStands(lines: seq<JsString>, n: nat, s: Stand, slices: seq<JsString>, maxLen: int, sends: bool)
    requires n < |lines| && maxLen >= 1 && s.current == [] && s.credit <= |lines[n]| && maxLen < |lines[n]|
    requires Stands(lines, n, s, maxLen, sends)
    requires AllFit(slices, maxLen) && InkOf(slices) == Ink(lines[n]) && Joined(slices) == lines[n]
    requires (AnyBlank(slices) <==> BlankSlice(lines[n], maxLen)) && Few(|slices|, maxLen, |lines[n]| + maxLen)
    ensures Stands(lines, n + 1, Stand(s.chunks + slices, [], s.packed + |lines[n]|, 0), maxLen, sends)
  {
    hide InkStands, BlanksStand, TextStands;
    LongInk(lines, n, s, slices, maxLen);
    LongBlanks(lines, n, s, slices, maxLen, sends);
    LongText(lines, n, s, slices, maxLen);
  }

  /** What is promised of the chunks. */
  ghost predicate Chunked(content: JsString, chunks: seq<JsString>, maxLen: int)
    requires maxLen >= 1
  {
    && AllFit(chunks, maxLen)
    && InkOf(chunks) == Ink(content)
    && (forall line :: line in Lines(content) && |line| <= maxLen && Trim(line) != [] ==> Kept(line, chunks))
    && (AnyBlank(chunks) <==> SendsABlank(content, maxLen))
    && Spaced(content, chunks)
    && Few(|chunks|, maxLen, 3 * |content| + maxLen)
  }

  lemma StandsAtTheEnd(content: JsString, s: Stand, maxLen: int)
    requires maxLen >= 1 && |content| > maxLen && s.credit == 0
    requires Stands(Lines(content), |Lines(content)|, s, maxLen, SendsABlank(content, maxLen))
    ensures Chunked(content, if |Trim(s.current)| > 0 then s.chunks + [Trim(s.current)] else s.chunks, maxLen)
  {
    hide Ink, InkOf, AllKept, AnyBlank, Blank, BlankPack, BlankSlice, Laid, Few, TextOf, Spaced, Kept, Trim, Lines;
    var lines, last := Lines(content), Trim(s.current);
    assert lines[..|lines|] == lines && lines[|lines|..] == [];
    InkOfLines(content);
    TextOfLines(content);
    InkTrim(s.current);
    BlankTrim(s.current);
    NoMorePack(|s.current|, Blank(s.current), maxLen);
    if |last| > 0 {
      InkOfPushed(s.chunks, last);
      TrimShrinks(s.current);
      TightHasInk(s.current);
      AnyBlankPushed(s.chunks, last);
      LaidFlush(content, s.chunks, s.current);
      BlankStart();
      LaidToTheEnd(content, s.chunks + [last], []);
      OneMore(|s.chunks|, maxLen, 3 * s.packed + |s.current|);
      Cheaper(|s.chunks| + 1, maxLen, 3 * s.packed + |s.current| + maxLen, 3 * |content| + maxLen);
      FlushKeeps(lines, s.chunks, s.current, maxLen);
      AllKeptAtTheEnd(lines, s.chunks + [last], maxLen);
    } else {
      BlankStart();
      NoInk(s.current);
      LaidToTheEnd(content, s.chunks, s.current);
      Cheaper(|s.chunks|, maxLen, 3 * s.packed + |s.current|, 3 * |content| + maxLen);
      BlankKeepsNothing(lines, s.chunks, s.current, maxLen);
      AllKeptAtTheEnd(lines, s.chunks, maxLen);
    }
  }

  lemma NoInk(s: JsString)
    requires Trim(s) == []
    ensures Blank(s) && Ink(s) == []
  {
    InkTrim(s);
  }

  /** For every positive length: each chunk fits, the chunks are the message word for word with nothing
      but white space cut between them, a line that fits is not torn apart, exactly the stated messages
      send a blank chunk, and there are not many more chunks than the length calls for. */
  method ChunkDiscordMessage(content: JsString, maxLen: int) returns (chunks: seq<JsString>)
    requires maxLen >= 1
    ensures forall k :: 0 <= k < |chunks| ==> |chunks[k]| <= maxLen
    ensures InkOf(chunks) == Ink(content)
    ensures forall line :: line in Lines(content) && |line| <= maxLen && Trim(line) != [] ==> Kept(line, chunks)
    ensures AnyBlank(chunks) <==> SendsABlank(content, maxLen)
    ensures Spaced(content, chunks)
    ensures |content| <= maxLen ==> chunks == [content]
    ensures (|chunks| - 1) * maxLen <= 3 * |content|
  {
    hide Stands, InkOf, Ink, Lines, Kept, Spaced, AnyBlank, SendsABlank, BlankSlice, Joined, Trim;
    if |content| <= maxLen {
      ShortMessage(content, maxLen);
      return [content];
    }
    var lines := Lines(content);
    var current: JsString := [];
    chunks := [];
    ghost var s := Stand([], [], 0, 0);
    ghost var sends := SendsABlank(content, maxLen);
    StandsAtFirst(lines, maxLen);
    LongSends(content, maxLen);
    for n := 0 to |lines|
      invariant s.chunks == chunks && s.current == current && s.credit == 0
      invariant Stands(lines, n, s, maxLen, sends)
    {
      var line := lines[n];
      if |current| + |line| + 1 > maxLen {
        if |current| > 0 {
          FlushStands(lines, n, s, maxLen, sends);
          s := Stand(chunks + [Trim(current)], [], s.packed + |current|, |line|);
          chunks := chunks + [Trim(current)];
          current := [];
        }
        if |line| > maxLen {
          var slices := SliceLine(line, maxLen);
          LongStands(lines, n, s, slices, maxLen, sends);
          s := Stand(chunks + slices, [], s.packed + |line|, 0);
          chunks := chunks + slices;
        } else {
          StartStands(lines, n, s, maxLen, sends);
          s := Stand(chunks, line, s.packed, 0);
          current := line;
        }
      } else {
        if current == [] {
          StartStands(lines, n, s, maxLen, sends);
          s := Stand(chunks, line, s.packed, 0);
        } else {
          MoreStands(lines, n, s, maxLen, sends);
          s := s.(current := current + [NEWLINE] + line);
        }
        current := if current == [] then line else current + [NEWLINE] + line;
      }
    }
    StandsAtTheEnd(content, s, maxLen);
    if |Trim(current)| > 0 {
      chunks := chunks + [Trim(current)];
    }
    FewAreFew(|chunks|, maxLen, |content|);
  }

  lemma LongSends(content: JsString, maxLen: int)
    requires maxLen >= 1 && |content| > maxLen
    ensures SendsABlank(content, maxLen) == BlankPack(Lines(content), 0, true, maxLen)
  {
  }

  lemma FewAreFew(count: nat, maxLen: int, length: nat)
    requires Few(count, maxLen, 3 * length + maxLen)
    ensures (count - 1) * maxLen <= 3 * length
  {
    assert (count - 1) * maxLen == count * maxLen - maxLen;
  }

  lemma NextPack(lines: seq<JsString>, n: nat, len: nat, blank: bool, maxLen: int)
    requires n < |lines| && maxLen >= 1
    ensures var line := lines[n];
            BlankPack(lines[n..], len, blank, maxLen) <==>
            if len + |line| + 1 > maxLen then
              (len > 0 && blank) ||
              if |line| > maxLen then BlankSlice(line, maxLen) || BlankPack(lines[n + 1..], 0, true, maxLen)
              else BlankPack(lines[n + 1..], |line|, Blank(line), maxLen)
            else
              BlankPack(lines[n + 1..], len + (if len > 0 then 1 else 0) + |line|, blank && Blank(line), maxLen)
  {
    assert lines[n..][1..] == lines[n + 1..];
  }

  lemma NoMorePack(len: nat, blank: bool, maxLen: int)
    requires maxLen >= 1
    ensures !BlankPack([], len, blank, maxLen)
  {
  }

  lemma BlankStart()
    ensures Blank([])
  {
  }

  lemma BlankTrim(s: JsString)
    ensures Blank(Trim(s)) == Blank(s)
  {
    InkTrim(s);
  }

  lemma BlankConcat(a: JsString, glue: JsString, b: JsString)
    requires glue == [] || glue == [NEWLINE]
    ensures Blank(a + glue + b) == (Blank(a) && Blank(b))
  {
    GlueIsBlank(glue);
    InkConcat(a + glue, b);
    InkConcat(a, glue);
  }

  /** What trimming leaves of a string has ink, if it leaves anything. */
  lemma {:induction false} TightHasInk(s: JsString)
    requires Trim(s) != []
    ensures !Blank(Trim(s))
    decreases |s|
  {
    if IsSpace(s[0]) {
      TightHasInk(s[1..]);
    } else {
      EndHasInk(s);
    }
  }

  lemma {:induction false} EndHasInk(s: JsString)
    requires TrimEnd(s) != []
    ensures !Blank(TrimEnd(s))
    decreases |s|
  {
    if IsSpace(s[|s| - 1]) {
      EndHasInk(s[..|s| - 1]);
    }
  }

  lemma GlueIsBlank(glue: JsString)
    requires glue == [] || glue == [NEWLINE]
    ensures Ink(glue) == []
  {
  }

  lemma ShortMessage(content: JsString, maxLen: int)
    requires maxLen >= 1 && |content| <= maxLen
    ensures Spaced(content, [content]) && (AnyBlank([content]) <==> SendsABlank(content, maxLen))
    ensures InkOf([content]) == Ink(content)
    ensures forall line :: line in Lines(content) && |line| <= maxLen && Trim(line) != [] ==> Kept(line, [content])
  {
    WholeIsSpaced(content);
    AnyBlankPushed([], content);
    NoneBlank();
    InkOfPushed([], content);
    assert [] + [content] == [content];
    forall line | line in Lines(content)
      ensures Kept(line, [content])
    {
      ContainsItsLines(content, line);
      ContainsOwnTrim(line);
      ContainsTransitively(content, line, Trim(line));
      assert Contains([content][0], Trim(line));
    }
  }

  lemma Start(lines: seq<JsString>, maxLen: int)
    ensures lines[..0] == []
    ensures InkOf([]) + Ink([]) == InkOf(lines[..0])
    ensures AllKept(lines[..0], [], [], maxLen)
  {
  }

  lemma AllKeptAtTheEnd(lines: seq<JsString>, chunks: seq<JsString>, maxLen: int)
    requires AllKept(lines, chunks, [], maxLen)
    ensures forall line :: line in lines && |line| <= maxLen && Trim(line) != [] ==> Kept(line, chunks)
  {
  }

  lemma BlankKeepsNothing(lines: seq<JsString>, chunks: seq<JsString>, current: JsString, maxLen: int)
    requires AllKept(lines, chunks, current, maxLen) && Trim(current) == []
    ensures AllKept(lines, chunks, [], maxLen)
  {
    forall j | 0 <= j < |lines| && |lines[j]| <= maxLen && Trim(lines[j]) != []
      ensures Kept(lines[j], chunks)
    {
      ContainsOwnTrim(lines[j]);
      if Contains(current, Trim(lines[j])) {
        TrimKeepsTightPart(current, Trim(lines[j]));
      }
    }
  }

  lemma ContainsTransitively(s: JsString, middle: JsString, part: JsString)
    requires Contains(s, middle) && Contains(middle, part)
    ensures Contains(s, part)
  {
    var i :| PartAt(s, middle, i);
    assert s == s[..i] + middle + s[i + |middle|..];
    ContainsInConcat(s[..i], middle, s[i + |middle|..], part);
  }

  lemma {:induction false} TrimShrinks(s: JsString)
    ensures |Trim(s)| <= |s|
    decreases |s|
  {
    if s != [] && IsSpace(s[0]) {
      TrimShrinks(s[1..]);
    } else {
      TrimEndIsPrefix(s);
    }
  }
}
