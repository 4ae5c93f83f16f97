/**
 * The string helpers of the page generator: cutting a description out of a
 * page's Markdown (`cropDescription`), splitting the rendered HTML at the
 * problems marker (`splitSectionsBetweenProblem`) and filling the page
 * template's placeholders (the `replaceAll` chain of `renderPage`).
 */
module Generator {
  import opened JsString

  /** The line that ends a description early. */
  const CropLimit: string := "<!--more-->"
  /** The line limit `cropDescription` uses when no other is given. */
  const DefaultLines: int := 30
  /** The marker between a page's body and its problems. */
  const ProblemsMarker: string := "<!--problems-->"

  // ---------------------------------------------------------------------------
  // cropDescription
  // ---------------------------------------------------------------------------

  /** The characters the regular-expression class `\s` matches: the white
      space characters and the line terminators of ECMAScript. */
  predicate IsWhitespace(c: char)
  {
    var u := c as int;
    (0x09 <= u <= 0x0D) || u == 0x20 || u == 0xA0 || u == 0x1680 ||
    (0x2000 <= u <= 0x200A) || u == 0x2028 || u == 0x2029 || u == 0x202F ||
    u == 0x205F || u == 0x3000 || u == 0xFEFF
  }

  /** A line with every white-space character removed: the characters of `s`
      that are not white space, in order. */
  function StripWhitespace(s: string): (r: string)
    ensures |r| <= |s|
    ensures forall k :: 0 <= k < |r| ==> !IsWhitespace(r[k])
  {
    if |s| == 0 then ""
    else (if IsWhitespace(s[0]) then "" else [s[0]]) + StripWhitespace(s[1..])
  }

  /** One character is kept exactly when it is not white space. */
  lemma StripChar(c: char)
    ensures StripWhitespace([c]) == if IsWhitespace(c) then "" else [c]
  {
  }

  /** Stripping works piece by piece: the kept characters of `a + b` are those
      of `a` followed by those of `b`. */
  lemma {:induction false} StripConcat(a: string, b: string)
    ensures StripWhitespace(a + b) == StripWhitespace(a) + StripWhitespace(b)
  {
    if |a| > 0 {
      StripConcat(a[1..], b);
      assert (a + b)[0] == a[0] && (a + b)[1..] == a[1..] + b;
    } else {
      assert a + b == b;
    }
  }

  /** A string without white space is its own stripped form. */
  lemma {:induction false} StripClean(s: string)
    requires forall k :: 0 <= k < |s| ==> !IsWhitespace(s[k])
    ensures StripWhitespace(s) == s
  {
    if |s| > 0 {
      StripClean(s[1..]);
      assert s == [s[0]] + s[1..];
    }
  }

  /** Stripping twice is stripping once. */
  lemma StripIdempotent(s: string)
    ensures StripWhitespace(StripWhitespace(s)) == StripWhitespace(s)
  {
    StripClean(StripWhitespace(s));
  }

  /** The marker line itself reads as the marker after stripping. */
  lemma CropLimitIsClean()
    ensures StripWhitespace(CropLimit) == CropLimit
  {
    StripClean(CropLimit);
  }

  /** The lines of the content: the pieces between its line breaks. */
  function Lines(content: string): seq<string>
  {
    Split(content, "\n")
  }

  /** The lines written out one after another, each followed by a line break. */
  function Terminated(lines: seq<string>): (r: string)
    ensures |r| >= |lines|
  {
    if |lines| == 0 then "" else Terminated(lines[..|lines| - 1]) + lines[|lines| - 1] + "\n"
  }

  /** The number of line breaks in `s`. */
  function LineBreaks(s: string): nat
  {
    if |s| == 0 then 0 else LineBreaks(s[..|s| - 1]) + (if s[|s| - 1] == '\n' then 1 else 0)
  }

  /** The loop over `lines.entries()` stops at index `i`: the line is the crop
      marker once its white space is removed (this counts only when some line
      is exactly the marker), or `i` is the line limit. */
  predicate ShouldStop(lines: seq<string>, i: nat, hasCropLimit: bool, defaultLines: int)
    requires i < |lines|
  {
    (hasCropLimit && StripWhitespace(lines[i]) == CropLimit) || i == defaultLines
  }

  /** The first index at or after `from` where the loop stops, or the number
      of lines when it never does. */
  function StopIndex(lines: seq<string>, hasCropLimit: bool, defaultLines: int, from: nat): (r: nat)
    requires from <= |lines|
    ensures from <= r <= |lines|
    ensures forall i :: from <= i < r ==> !ShouldStop(lines, i, hasCropLimit, defaultLines)
    ensures r < |lines| ==> ShouldStop(lines, r, hasCropLimit, defaultLines)
    ensures from <= defaultLines ==> r <= defaultLines
    decreases |lines| - from
  {
    if from == |lines| || ShouldStop(lines, from, hasCropLimit, defaultLines) then from
    else StopIndex(lines, hasCropLimit, defaultLines, from + 1)
  }

  /** The lines that make up the description. */
  function CropLines(content: string, defaultLines: int): seq<string>
  {
    var lines := Lines(content);
    lines[..StopIndex(lines, CropLimit in lines, defaultLines, 0)]
  }

  /** The description `cropDescription(content, defaultLines)` returns. */
  function Crop(content: string, defaultLines: int): string
  {
    Terminated(CropLines(content, defaultLines))
  }

  /** `cropDescription`: appends the lines of `content`, each with its line
      break, until the stop condition holds. */
  method CropDescription(content: string, defaultLines: int) returns (description: string)
    ensures description == Crop(content, defaultLines)
  {
    var lines := Split(content, "\n");
    var hasCropLimit := CropLimit in lines;
    ghost var stop := StopIndex(lines, hasCropLimit, defaultLines, 0);
    description := "";
    var i := 0;
    while i < |lines|
      invariant i <= stop
      invariant description == Terminated(lines[..i])
    {
      var line := StripWhitespace(lines[i]);
      var shouldStop := (hasCropLimit && line == CropLimit) || i == defaultLines;
      if shouldStop {
        assert ShouldStop(lines, i, hasCropLimit, defaultLines);
        break;
      }
      assert lines[..i + 1][..i] == lines[..i];
      description := description + lines[i] + "\n";
      i := i + 1;
    }
  }

  /** Writing out two runs of lines is writing out the run of both. */
  lemma {:induction false} TerminatedAppend(a: seq<string>, b: seq<string>)
    ensures Terminated(a + b) == Terminated(a) + Terminated(b)
    decreases |b|
  {
    if |b| == 0 {
      assert a + b == a;
    } else {
      var n := |b| - 1;
      assert (a + b)[..|a + b| - 1] == a + b[..n];
      TerminatedAppend(a, b[..n]);
    }
  }

  /** Lines written out with their breaks are the lines joined by breaks,
      plus one final break. */
  lemma {:induction false} TerminatedJoin(lines: seq<string>)
    requires |lines| >= 1
    ensures Terminated(lines) == Join(lines, "\n") + "\n"
    decreases |lines|
  {
    if |lines| > 1 {
      TerminatedJoin(lines[1..]);
      TerminatedAppend([lines[0]], lines[1..]);
      assert lines == [lines[0]] + lines[1..];
      assert Terminated([lines[0]]) == lines[0] + "\n" by {
        assert [lines[0]][..0] == [];
      }
    } else {
      assert lines[..0] == [];
    }
  }

  /** Line breaks add up over a concatenation. */
  lemma {:induction false} LineBreaksAppend(a: string, b: string)
    ensures LineBreaks(a + b) == LineBreaks(a) + LineBreaks(b)
    decreases |b|
  {
    if |b| == 0 {
      assert a + b == a;
    } else {
      var n := |b| - 1;
      assert (a + b)[..|a + b| - 1] == a + b[..n];
      LineBreaksAppend(a, b[..n]);
    }
  }

  /** A string without a line break counts none. */
  lemma {:induction false} LineBreaksNone(s: string)
    requires '\n' !in s
    ensures LineBreaks(s) == 0
    decreases |s|
  {
    if |s| > 0 {
      assert s[..|s| - 1] <= s;
      LineBreaksNone(s[..|s| - 1]);
    }
  }

  /** Written-out lines that hold no break themselves count one break each. */
  lemma {:induction false} LineBreaksTerminated(lines: seq<string>)
    requires forall i :: 0 <= i < |lines| ==> '\n' !in lines[i]
    ensures LineBreaks(Terminated(lines)) == |lines|
    decreases |lines|
  {
    if |lines| > 0 {
      var n := |lines| - 1;
      LineBreaksTerminated(lines[..n]);
      LineBreaksAppend(Terminated(lines[..n]), lines[n]);
      LineBreaksAppend(Terminated(lines[..n]) + lines[n], "\n");
      LineBreaksNone(lines[n]);
      assert LineBreaks("\n") == 1 by {
        assert "\n"[..0] == "";
      }
    }
  }

  /** No piece of `content.split("\n")` holds a line break. */
  lemma LinesHaveNoBreak(content: string)
    ensures forall i :: 0 <= i < |Lines(content)| ==> '\n' !in Lines(content)[i]
  {
    var lines := Lines(content);
    SplitPiecesFree(content, "\n");
    forall i | 0 <= i < |lines|
      ensures '\n' !in lines[i]
    {
      IndexOfChar(lines[i], '\n');
    }
  }

  /** The loop index the description ends at is the only index where the
      loop stops with every earlier index passed. */
  lemma StopIndexUnique(lines: seq<string>, hasCropLimit: bool, defaultLines: int, n: nat)
    requires n <= |lines|
    requires forall i :: 0 <= i < n ==> !ShouldStop(lines, i, hasCropLimit, defaultLines)
    requires n < |lines| ==> ShouldStop(lines, n, hasCropLimit, defaultLines)
    ensures StopIndex(lines, hasCropLimit, defaultLines, 0) == n
  {
  }

  /** Without a line that is exactly the marker, the description is the first
      `defaultLines` lines, or all of them when there are fewer (or the limit
      is negative, so that no index equals it). */
  lemma CropWithoutMarker(content: string, defaultLines: int)
    requires CropLimit !in Lines(content)
    ensures var lines := Lines(content);
      CropLines(content, defaultLines) ==
        lines[..if 0 <= defaultLines < |lines| then defaultLines else |lines|]
  {
    var lines := Lines(content);
    var n := if 0 <= defaultLines < |lines| then defaultLines else |lines|;
    StopIndexUnique(lines, false, defaultLines, n);
  }

  /** With a line that is exactly the marker, the description ends before the
      first line that reads as the marker once white space is removed, or at
      the line limit if that comes first. */
  lemma CropAtMarker(content: string, defaultLines: int, m: nat)
    requires CropLimit in Lines(content)
    requires m < |Lines(content)| && StripWhitespace(Lines(content)[m]) == CropLimit
    requires forall i :: 0 <= i < m ==> StripWhitespace(Lines(content)[i]) != CropLimit
    ensures CropLines(content, defaultLines) ==
      Lines(content)[..if 0 <= defaultLines < m then defaultLines else m]
  {
    var lines := Lines(content);
    var n := if 0 <= defaultLines < m then defaultLines else m;
    StopIndexUnique(lines, true, defaultLines, n);
  }

  /** Every line of the description is a line of the content, unstripped and
      in its place: the description is a prefix of `content + "\n"`. */
  lemma CropIsPrefix(content: string, defaultLines: int)
    ensures CropLines(content, defaultLines) <= Lines(content)
    ensures Crop(content, defaultLines) <= content + "\n"
  {
    var lines := Lines(content);
    var n := StopIndex(lines, CropLimit in lines, defaultLines, 0);
    assert lines == lines[..n] + lines[n..];
    TerminatedAppend(lines[..n], lines[n..]);
    TerminatedJoin(lines);
    JoinSplit(content, "\n");
  }

  /** The description holds one line break per line, and no more lines than
      the limit when that is not negative: at most 30 by default. */
  lemma CropLineBound(content: string, defaultLines: int)
    ensures LineBreaks(Crop(content, defaultLines)) == |CropLines(content, defaultLines)|
    ensures 0 <= defaultLines ==> |CropLines(content, defaultLines)| <= defaultLines
    ensures LineBreaks(Crop(content, DefaultLines)) <= DefaultLines
  {
    CropBreaks(content, defaultLines);
    CropBreaks(content, DefaultLines);
  }

  /** One line break per line of the description. */
  lemma CropBreaks(content: string, defaultLines: int)
    ensures LineBreaks(Crop(content, defaultLines)) == |CropLines(content, defaultLines)|
    ensures 0 <= defaultLines ==> |CropLines(content, defaultLines)| <= defaultLines
  {
    var lines := Lines(content);
    LinesHaveNoBreak(content);
    var cropped := CropLines(content, defaultLines);
    assert cropped <= lines;
    assert forall i :: 0 <= i < |cropped| ==> cropped[i] == lines[i];
    LineBreaksTerminated(cropped);
  }

  /** When the loop never stops, the description is the whole content plus a
      final line break. */
  lemma CropAll(content: string, defaultLines: int)
    requires var lines := Lines(content);
      StopIndex(lines, CropLimit in lines, defaultLines, 0) == |lines|
    ensures Crop(content, defaultLines) == content + "\n"
  {
    var lines := Lines(content);
    assert lines[..|lines|] == lines;
    TerminatedJoin(lines);
    JoinSplit(content, "\n");
  }

  /** When the loop stops early, the description is shorter than the content
      plus a final line break. */
  lemma CropShort(content: string, defaultLines: int)
    requires var lines := Lines(content);
      StopIndex(lines, CropLimit in lines, defaultLines, 0) < |lines|
    ensures |Crop(content, defaultLines)| < |content| + 1
  {
    var lines := Lines(content);
    var n := StopIndex(lines, CropLimit in lines, defaultLines, 0);
    assert lines == lines[..n] + lines[n..];
    TerminatedAppend(lines[..n], lines[n..]);
    assert |Terminated(lines[n..])| >= 1;
    TerminatedJoin(lines);
    JoinSplit(content, "\n");
  }

  /** The description is the whole content plus a final line break exactly
      when no line is exactly the marker and the content has no more lines
      than a non-negative limit. */
  lemma CropWholeIff(content: string, defaultLines: int)
    ensures Crop(content, defaultLines) == content + "\n" <==>
      CropLimit !in Lines(content) && !(0 <= defaultLines < |Lines(content)|)
  {
    var lines := Lines(content);
    var hasCropLimit := CropLimit in lines;
    var n := StopIndex(lines, hasCropLimit, defaultLines, 0);
    if hasCropLimit {
      var j :| 0 <= j < |lines| && lines[j] == CropLimit;
      CropLimitIsClean();
      assert ShouldStop(lines, j, hasCropLimit, defaultLines);
    }
    if n < |lines| {
      CropShort(content, defaultLines);
    } else {
      CropAll(content, defaultLines);
    }
  }

  // ---------------------------------------------------------------------------
  // splitSectionsBetweenProblem
  // ---------------------------------------------------------------------------

  /** The HTML before and after the problems marker. */
  datatype Sections = Sections(body: string, problems: string)

  /** `splitSectionsBetweenProblem`: the first two pieces of the content split
      at the marker, or the whole content and no problems when there is a
      single piece. */
  function SplitSections(content: string): (r: Sections)
    ensures IndexOf(r.body, ProblemsMarker) == -1 && IndexOf(r.problems, ProblemsMarker) == -1
  {
    SplitPiecesFree(content, ProblemsMarker);
    SplitShape(content, ProblemsMarker);
    var sections := Split(content, ProblemsMarker);
    if |sections| < 2 then Sections(content, "") else Sections(sections[0], sections[1])
  }

  /** Without the marker, all of the content is body. */
  lemma SplitSectionsWithoutMarker(content: string)
    requires IndexOf(content, ProblemsMarker) == -1
    ensures SplitSections(content) == Sections(content, "")
  {
    SplitShape(content, ProblemsMarker);
  }

  /** With the marker, the body is the text before its first occurrence and
      the problems are the text from there up to the second occurrence (or the
      end); neither holds the marker, and body, marker and problems in a row
      are a prefix of the content. */
  lemma SplitSectionsWithMarker(content: string)
    requires IndexOf(content, ProblemsMarker) != -1
    ensures var k := IndexOf(content, ProblemsMarker);
      var start := k + |ProblemsMarker|;
      var next := IndexOfFrom(content, ProblemsMarker, start);
      var end := if next == -1 then |content| else next;
      var r := SplitSections(content);
      r.body == content[..k] && r.problems == content[start..end] &&
      IndexOf(r.body, ProblemsMarker) == -1 && IndexOf(r.problems, ProblemsMarker) == -1 &&
      r.body + ProblemsMarker + r.problems <= content
  {
    var k := IndexOf(content, ProblemsMarker);
    var start := k + |ProblemsMarker|;
    SplitShape(content, ProblemsMarker);
    SplitPiecesFree(content, ProblemsMarker);
    var parts := Split(content, ProblemsMarker);
    assert SplitSections(content) == Sections(parts[0], parts[1]);
    var next := IndexOfFrom(content, ProblemsMarker, start);
    var end := if next == -1 then |content| else next;
    SplitFromFirst(content, ProblemsMarker, start);
    assert content[k..start] == ProblemsMarker;
    PrefixSlices(content, k, start, end);
  }

  // ---------------------------------------------------------------------------
  // The placeholder chain of renderPage
  // ---------------------------------------------------------------------------

  /** The fields of a problem page that the template is filled from. */
  datatype Page = Page(
    title: string,
    tags: seq<string>,
    topic: string,
    description: string,
    date: string,
    renderedContent: string)

  /** The tags separated by single spaces. */
  function TagsText(tags: seq<string>): string
  {
    Join(tags, " ")
  }

  /** The template with every placeholder replaced, in the order title, tags,
      topic, description, date, content, problems; each `replaceAll` works on
      the result of the one before. */
  function FillTemplate(page: Page, templateContent: string): string
  {
    var sections := SplitSections(page.renderedContent);
    var s1 := ReplaceAll(templateContent, "{{title}}", page.title);
    var s2 := ReplaceAll(s1, "{{tags}}", TagsText(page.tags));
    var s3 := ReplaceAll(s2, "{{topic}}", page.topic);
    var s4 := ReplaceAll(s3, "{{description}}", page.description);
    var s5 := ReplaceAll(s4, "{{date}}", page.date);
    var s6 := ReplaceAll(s5, "{{content}}", sections.body);
    ReplaceAll(s6, "{{problems}}", sections.problems)
  }

  /** A template with none of the seven placeholders comes out unchanged. */
  lemma FillTemplateUnchanged(page: Page, templateContent: string)
    requires IndexOf(templateContent, "{{title}}") == -1
    requires IndexOf(templateContent, "{{tags}}") == -1
    requires IndexOf(templateContent, "{{topic}}") == -1
    requires IndexOf(templateContent, "{{description}}") == -1
    requires IndexOf(templateContent, "{{date}}") == -1
    requires IndexOf(templateContent, "{{content}}") == -1
    requires IndexOf(templateContent, "{{problems}}") == -1
    ensures FillTemplate(page, templateContent) == templateContent
  {
    var sections := SplitSections(page.renderedContent);
    ReplaceAllAbsent(templateContent, "{{title}}", page.title);
    ReplaceAllAbsent(templateContent, "{{tags}}", TagsText(page.tags));
    ReplaceAllAbsent(templateContent, "{{topic}}", page.topic);
    ReplaceAllAbsent(templateContent, "{{description}}", page.description);
    ReplaceAllAbsent(templateContent, "{{date}}", page.date);
    ReplaceAllAbsent(templateContent, "{{content}}", sections.body);
    ReplaceAllAbsent(templateContent, "{{problems}}", sections.problems);
  }

  /** The title placeholder holds none of the other six. */
  lemma TitleHoldsNoOtherPlaceholder()
    ensures IndexOf("{{title}}", "{{tags}}") == -1 && IndexOf("{{title}}", "{{topic}}") == -1
    ensures IndexOf("{{title}}", "{{description}}") == -1 && IndexOf("{{title}}", "{{date}}") == -1
    ensures IndexOf("{{title}}", "{{content}}") == -1 && IndexOf("{{title}}", "{{problems}}") == -1
  {
    AbsentByChar("{{title}}", "{{tags}}", 3);
    AbsentByChar("{{title}}", "{{topic}}", 3);
    AbsentByChar("{{title}}", "{{date}}", 2);
    AbsentByChar("{{title}}", "{{content}}", 2);
    AbsentByChar("{{title}}", "{{problems}}", 2);
  }

  /** The date placeholder holds none of the three before it. */
  lemma DateHoldsNoEarlierPlaceholder()
    ensures IndexOf("{{date}}", "{{tags}}") == -1 && IndexOf("{{date}}", "{{topic}}") == -1
    ensures IndexOf("{{date}}", "{{description}}") == -1
  {
    AbsentByChar("{{date}}", "{{tags}}", 4);
    AbsentByChar("{{date}}", "{{topic}}", 3);
  }

  /** The steps run in order on the text built so far: a title that reads
      "{{date}}" is replaced in its turn by the date. */
  lemma EarlierValueFeedsLaterStep(page: Page)
    requires page.title == "{{date}}"
    requires '$' !in page.date
    requires IndexOf(page.date, "{{content}}") == -1 && IndexOf(page.date, "{{problems}}") == -1
    ensures FillTemplate(page, "{{title}}") == page.date
  {
    var sections := SplitSections(page.renderedContent);
    DateHoldsNoEarlierPlaceholder();
    ReplaceAllWhole("{{title}}", "{{date}}");
    ReplaceAllAbsent("{{date}}", "{{tags}}", TagsText(page.tags));
    ReplaceAllAbsent("{{date}}", "{{topic}}", page.topic);
    ReplaceAllAbsent("{{date}}", "{{description}}", page.description);
    ReplaceAllWhole("{{date}}", page.date);
    ReplaceAllAbsent(page.date, "{{content}}", sections.body);
    ReplaceAllAbsent(page.date, "{{problems}}", sections.problems);
  }

  /** A value is a `replaceAll` replacement text, so its `$` patterns are
      expanded: a title "$&" puts the matched placeholder back. */
  lemma DollarPatternInValue(page: Page)
    requires page.title == "$&"
    ensures FillTemplate(page, "{{title}}") == "{{title}}"
  {
    var sections := SplitSections(page.renderedContent);
    var t := "{{title}}";
    TitleHoldsNoOtherPlaceholder();
    ReplaceAllWholeMatched(t);
    ReplaceAllAbsent(t, "{{tags}}", TagsText(page.tags));
    ReplaceAllAbsent(t, "{{topic}}", page.topic);
    ReplaceAllAbsent(t, "{{description}}", page.description);
    ReplaceAllAbsent(t, "{{date}}", page.date);
    ReplaceAllAbsent(t, "{{content}}", sections.body);
    ReplaceAllAbsent(t, "{{problems}}", sections.problems);
  }

  /** The tags text splits back at single spaces into the tags, as long as
      there is at least one tag and none holds a space. */
  lemma TagsRoundTrip(tags: seq<string>)
    requires |tags| >= 1
    requires forall i :: 0 <= i < |tags| ==> ' ' !in tags[i]
    ensures Split(TagsText(tags), " ") == tags
  {
    SplitJoinChar(tags, ' ');
  }
}
