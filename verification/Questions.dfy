/**
 * Turning the generation service's reply into the list of interview
 * questions (app.py line 68): the reply is split on '\n', each line is
 * stripped, and the lines left empty are dropped, in order.
 */
module Questions {
  import opened Text

  /** What one line of the reply contributes: the line stripped, or
      nothing when it is blank. */
  function LineQuestion(line: string): (qs: seq<string>)
    ensures |qs| <= 1
    ensures qs == [] <==> IsBlank(line)
    ensures qs != [] ==> qs[0] == Strip(line)
  {
    if Strip(line) == [] then [] else [Strip(line)]
  }

  /** `[l.strip() for l in lines if l.strip()]`. */
  function StripNonBlank(lines: seq<string>): (qs: seq<string>)
    ensures |qs| <= |lines|
  {
    if lines == [] then [] else LineQuestion(lines[0]) + StripNonBlank(lines[1..])
  }

  /** The questions parsed from the service's reply: every one is a
      non-empty line with no whitespace at either end. */
  function ParseQuestions(reply: string): (qs: seq<string>)
    ensures forall k :: 0 <= k < |qs| ==> IsQuestion(qs[k])
  {
    SplitLinesAreLines(reply);
    StripNonBlankWellFormed(SplitLines(reply));
    StripNonBlank(SplitLines(reply))
  }

  /** What every parsed question looks like: a non-empty line with no
      whitespace at either end. */
  predicate IsQuestion(q: string) {
    q != [] && Trimmed(q) && IsLine(q)
  }

  /** A stripped line still holds no newline. */
  lemma StripNoNewline(line: string)
    requires IsLine(line)
    ensures IsLine(Strip(line))
  {
    StripDecomposes(line);
    var k := LeadingSpaces(line);
    var r := Strip(line);
    forall j | 0 <= j < |r| ensures r[j] != '\n' {
      assert r[j] == line[k + j];
    }
  }

  /** Stripping newline-free lines and dropping the empty results leaves
      only well-formed questions. */
  lemma {:induction false} StripNonBlankWellFormed(lines: seq<string>)
    requires forall k :: 0 <= k < |lines| ==> IsLine(lines[k])
    ensures forall k :: 0 <= k < |StripNonBlank(lines)| ==> IsQuestion(StripNonBlank(lines)[k])
  {
    if lines != [] {
      StripNonBlankWellFormed(lines[1..]);
      StripNoNewline(lines[0]);
      var first, rest := LineQuestion(lines[0]), StripNonBlank(lines[1..]);
      assert StripNonBlank(lines) == first + rest;
      forall k | 0 <= k < |first + rest| ensures IsQuestion((first + rest)[k]) {
        if k >= |first| {
          assert (first + rest)[k] == rest[k - |first|];
        }
      }
    }
  }

  /** Every question equals its own strip. */
  lemma ParseQuestionsStripped(reply: string)
    ensures forall k :: 0 <= k < |ParseQuestions(reply)| ==>
              Strip(ParseQuestions(reply)[k]) == ParseQuestions(reply)[k]
  {
    var qs := ParseQuestions(reply);
    forall k | 0 <= k < |qs| ensures Strip(qs[k]) == qs[k] {
      StripTrimmed(qs[k]);
    }
  }

  /** The comprehension distributes over concatenation of line lists. */
  lemma {:induction false} StripNonBlankAppend(xs: seq<string>, ys: seq<string>)
    ensures StripNonBlank(xs + ys) == StripNonBlank(xs) + StripNonBlank(ys)
  {
    if xs != [] {
      assert (xs + ys)[1..] == xs[1..] + ys;
      StripNonBlankAppend(xs[1..], ys);
    } else {
      assert xs + ys == ys;
    }
  }

  /** Blank lines contribute nothing. */
  lemma {:induction false} StripNonBlankBlank(lines: seq<string>)
    requires forall k :: 0 <= k < |lines| ==> IsBlank(lines[k])
    ensures StripNonBlank(lines) == []
  {
    if lines != [] {
      StripNonBlankBlank(lines[1..]);
    }
  }

  /** Order and content: when the reply is built from newline-free lines,
      the questions are those lines, stripped, with the blank ones left
      out, in their original order. */
  lemma ParseQuestionsOfLines(lines: seq<string>)
    requires forall k :: 0 <= k < |lines| ==> IsLine(lines[k])
    ensures ParseQuestions(Join("\n", lines)) == StripNonBlank(lines)
  {
    if lines == [] {
      ParseQuestionsBlankReply("");
    } else {
      SplitLinesJoin(lines);
    }
  }

  /** Parsing is compositional over a line break: the questions of
      `a + "\n" + b` are those of `a` followed by those of `b`. */
  lemma ParseQuestionsAppend(a: string, b: string)
    ensures ParseQuestions(a + "\n" + b) == ParseQuestions(a) + ParseQuestions(b)
  {
    SplitLinesAppend(a, b);
    StripNonBlankAppend(SplitLines(a), SplitLines(b));
  }

  /** A whitespace-only reply yields no question at all. */
  lemma ParseQuestionsBlankReply(reply: string)
    requires IsBlank(reply)
    ensures ParseQuestions(reply) == []
  {
    SplitLinesBlank(reply);
    StripNonBlankBlank(SplitLines(reply));
  }

  /** A blank line contributes no question. */
  lemma ParseQuestionsBlankLine(a: string, blank: string, b: string)
    requires IsBlank(blank)
    ensures ParseQuestions(a + "\n" + blank + "\n" + b) == ParseQuestions(a) + ParseQuestions(b)
  {
    var ab := a + "\n" + blank;
    ParseQuestionsBlankReply(blank);
    ParseQuestionsAppend(a, blank);
    assert ParseQuestions(ab) == ParseQuestions(a);
    ParseQuestionsAppend(ab, b);
  }

  /** A reply of one line yields that line stripped, unless it is blank. */
  lemma ParseQuestionsOneLine(line: string)
    requires IsLine(line)
    ensures ParseQuestions(line) == if IsBlank(line) then [] else [Strip(line)]
  {
    LineEndOfLine(line);
    assert SplitLines(line) == [line];
    assert [line][1..] == [];
  }

  /** The prompt asks for five questions, but nothing enforces that count:
      any two non-blank lines with a blank line between them yield exactly
      two questions. */
  lemma ParseQuestionsCountNotEnforced(x: string, y: string)
    requires IsLine(x) && IsLine(y)
    requires !IsBlank(x) && !IsBlank(y)
    ensures ParseQuestions(x + "\n\n" + y) == [Strip(x), Strip(y)]
  {
    EmptyMiddleLine(x, y);
    ParseQuestionsBlankLine(x, "", y);
    ParseQuestionsOneLine(x);
    ParseQuestionsOneLine(y);
  }

  /** `"\n\n"` is two line breaks around an empty line. */
  lemma EmptyMiddleLine(x: string, y: string)
    ensures x + "\n\n" + y == x + "\n" + "" + "\n" + y
  {
  }
}
