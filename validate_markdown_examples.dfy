/**
 The concrete cases the checker's unit tests pin down, stated about the model.
 Each string fact is proved in a lemma of its own, so that the verifier
 evaluates one literal at a time.
 */
module MarkdownExamples {
  import opened Wrappers
  import opened Text
  import opened Markdown

  /** The lines of the tests' sample document, after its surrounding blank lines are stripped. */
  const SampleLines: seq<string> := [
    "# Title", "", "Some intro", "", "## Overview", "Content", "", "### NotThis", "More content", "",
    "## Details", "Some details", "", "## Summary ####", "Text", "", "Normal text"
  ]

  /** The sample document itself. */
  const SampleMd: string := JoinLines(SampleLines)

  lemma SampleLinesPlain()
    ensures forall i :: 0 <= i < |SampleLines| ==> NoLineBreak(SampleLines[i])
  {
  }

  lemma SampleMdLines()
    ensures Lines(SampleMd) == SampleLines
  {
    SampleLinesPlain();
    LinesOfJoin(SampleLines);
  }

  // The level-2 headings of the sample, one at a time.

  lemma OverviewSpelled() ensures "## " + "Overview" + "" + "" + "" == "## Overview" {}
  lemma OverviewLower() ensures Lower("Overview") == "overview" {}
  lemma OverviewName()
    ensures HeadingName("## Overview") == Some("overview")
  {
    SimpleHeadingName("Overview", "", "", "");
    OverviewSpelled();
    OverviewLower();
  }

  lemma DetailsSpelled() ensures "## " + "Details" + "" + "" + "" == "## Details" {}
  lemma DetailsLower() ensures Lower("Details") == "details" {}
  lemma DetailsName()
    ensures HeadingName("## Details") == Some("details")
  {
    SimpleHeadingName("Details", "", "", "");
    DetailsSpelled();
    DetailsLower();
  }

  lemma SummarySpelled() ensures "## " + "Summary" + " " + "####" + "" == "## Summary ####" {}
  lemma SummaryLower() ensures Lower("Summary") == "summary" {}
  /** `## Summary ####` gives `summary`: the trailing `####` is removed. */
  lemma SummaryName()
    ensures HeadingName("## Summary ####") == Some("summary")
  {
    SimpleHeadingName("Summary", " ", "####", "");
    SummarySpelled();
    SummaryLower();
  }

  // The other lines of the sample contribute nothing.

  /** A line that is its own strip and is not a level-2 heading names nothing. */
  lemma PlainLine(line: string)
    requires line == [] || (line[0] !in Whitespace && line[|line| - 1] !in Whitespace)
    requires !IsLevelTwo(line)
    ensures HeadingName(line) == None
  {
    StripUnchanged(line, Whitespace);
  }

  lemma TitleIgnored() ensures HeadingName("# Title") == None { PlainLine("# Title"); }
  lemma NotThisIgnored() ensures HeadingName("### NotThis") == None { PlainLine("### NotThis"); }
  lemma BlankIgnored() ensures HeadingName("") == None { PlainLine(""); }
  lemma IntroIgnored() ensures HeadingName("Some intro") == None { PlainLine("Some intro"); }
  lemma ContentIgnored() ensures HeadingName("Content") == None { PlainLine("Content"); }
  lemma MoreContentIgnored() ensures HeadingName("More content") == None { PlainLine("More content"); }
  lemma SomeDetailsIgnored() ensures HeadingName("Some details") == None { PlainLine("Some details"); }
  lemma TextIgnored() ensures HeadingName("Text") == None { PlainLine("Text"); }
  lemma NormalTextIgnored() ensures HeadingName("Normal text") == None { PlainLine("Normal text"); }

  // The sample is taken in four runs of lines, each small enough to evaluate.

  lemma IntroRun()
    ensures ExtractFromLines(["# Title", "", "Some intro", "", "## Overview"]) == {"overview"}
  {
    TitleIgnored();
    BlankIgnored();
    IntroIgnored();
    OverviewName();
  }

  lemma ContentRun()
    ensures ExtractFromLines(["Content", "", "### NotThis", "More content", ""]) == {}
  {
    ContentIgnored();
    BlankIgnored();
    NotThisIgnored();
    MoreContentIgnored();
  }

  lemma DetailsRun()
    ensures ExtractFromLines(["## Details", "Some details", "", "## Summary ####"]) == {"details", "summary"}
  {
    DetailsName();
    SomeDetailsIgnored();
    BlankIgnored();
    SummaryName();
  }

  lemma ClosingRun()
    ensures ExtractFromLines(["Text", "", "Normal text"]) == {}
  {
    TextIgnored();
    BlankIgnored();
    NormalTextIgnored();
  }

  lemma ExtractSampleLines()
    ensures ExtractFromLines(SampleLines) == {"overview", "details", "summary"}
  {
    var a := ["# Title", "", "Some intro", "", "## Overview"];
    var b := ["Content", "", "### NotThis", "More content", ""];
    var c := ["## Details", "Some details", "", "## Summary ####"];
    var d := ["Text", "", "Normal text"];
    assert SampleLines == a + b + c + d;
    IntroRun();
    ContentRun();
    DetailsRun();
    ClosingRun();
    ExtractFromLinesAppend(a + b + c, d);
    ExtractFromLinesAppend(a + b, c);
    ExtractFromLinesAppend(a, b);
  }

  /** Only the level-2 headings are found, lower-cased and without the trailing `####`; `# Title` and `### NotThis` are not. */
  lemma ExtractSample()
    ensures ExtractH2Sections(SampleMd) == {"overview", "details", "summary"}
  {
    SampleMdLines();
    ExtractSampleLines();
  }

  lemma HeadingSpelled() ensures "## " + "Heading" + " " + "####" + "   " == "## Heading ####   " {}
  lemma HeadingLower() ensures Lower("Heading") == "heading" {}
  lemma HeadingLineName()
    ensures HeadingName("## Heading ####   ") == Some("heading")
  {
    SimpleHeadingName("Heading", " ", "####", "   ");
    HeadingSpelled();
    HeadingLower();
  }

  lemma HeadingTextRun()
    ensures ExtractFromLines(["## Heading ####   ", "Text"]) == {"heading"}
  {
    HeadingLineName();
    TextIgnored();
  }

  lemma HeadingTextJoined() ensures JoinLines(["## Heading ####   ", "Text"]) == "## Heading ####   \nText" {}

  /** A trailing run of `#` and the spaces after it are removed. */
  lemma ExtractTrailingHashesAndSpaces()
    ensures ExtractH2Sections("## Heading ####   \nText") == {"heading"}
  {
    HeadingTextJoined();
    LinesOfJoin(["## Heading ####   ", "Text"]);
    HeadingTextRun();
  }

  lemma SpacedSpelled() ensures "## " + "A #" + " " + "#" + "" == "## A # #" {}
  lemma SpacedLower() ensures Lower("A #") == "a #" {}
  /** Only the last run of `#` is removed: one that stands before whitespace stays in the name. */
  lemma SpacedHashRunKept()
    ensures HeadingName("## A # #") == Some("a #")
  {
    SimpleHeadingName("A #", " ", "#", "");
    SpacedSpelled();
    SpacedLower();
  }

  // Required names, normalised one at a time.

  /** A name that starts with a capital and ends with a letter is its own trim. */
  lemma LetterEnds(s: string)
    requires s != [] && IsAsciiUpper(s[0]) && (IsAsciiUpper(s[|s| - 1]) || 'a' <= s[|s| - 1] <= 'z')
    ensures Trim(s) == s
  {
    StripUnchanged(s, Whitespace);
  }

  lemma OverviewNormalized() ensures Normalize("Overview") == "overview" { LetterEnds("Overview"); OverviewLower(); }
  lemma SummaryNormalized() ensures Normalize("Summary") == "summary" { LetterEnds("Summary"); SummaryLower(); }
  lemma DetailsCapsLower() ensures Lower("DETAILS") == "details" {}
  lemma DetailsCapsNormalized() ensures Normalize("DETAILS") == "details" { LetterEnds("DETAILS"); DetailsCapsLower(); }

  /** A required name already in lower case without surrounding blanks normalises to itself. */
  lemma PlainName(s: string)
    requires s != [] && s[0] !in Whitespace && s[|s| - 1] !in Whitespace
    requires forall i :: 0 <= i < |s| ==> 'a' <= s[i] <= 'z'
    ensures Normalize(s) == s
  {
    StripUnchanged(s, Whitespace);
    LowerUnchanged(s);
  }

  lemma OverviewPlain() ensures Normalize("overview") == "overview" { PlainName("overview"); }
  lemma SummaryPlain() ensures Normalize("summary") == "summary" { PlainName("summary"); }
  lemma BogusPlain() ensures Normalize("bogus") == "bogus" { PlainName("bogus"); }
  lemma MissingPlain() ensures Normalize("missing") == "missing" { PlainName("missing"); }
  lemma AnyPlain() ensures Normalize("any") == "any" { PlainName("any"); }

  /** Two required names give the set of their two normal forms. */
  lemma TwoNames(a: string, b: string, na: string, nb: string)
    requires Normalize(a) == na && Normalize(b) == nb
    ensures NormalizedNames([a, b]) == {na, nb}
  {
    var r := NormalizedNames([a, b]);
    forall n ensures n in r <==> n in {na, nb} {
      if n == na {
        assert Normalize([a, b][0]) == n;
      } else if n == nb {
        assert Normalize([a, b][1]) == n;
      }
    }
  }

  /** Required names are compared case-insensitively; the one not found is reported lower-cased. */
  lemma ValidateMissingAndPresent()
    ensures ValidateSections({"overview", "details"}, ["Overview", "Summary"]) == Verdict(false, {"summary"})
  {
    OverviewNormalized();
    SummaryNormalized();
    TwoNames("Overview", "Summary", "overview", "summary");
  }

  lemma ValidateAllPresent()
    ensures ValidateSections({"overview", "details", "summary"}, ["overview", "DETAILS"]) == Verdict(true, {})
  {
    OverviewPlain();
    DetailsCapsNormalized();
    TwoNames("overview", "DETAILS", "overview", "details");
  }

  /** A file that cannot be read is invalid, with every required name missing. */
  lemma MissingFileReturnsFalse()
    ensures ValidateMarkdownFile(None, ["any"]) == Verdict(false, {"any"})
  {
    AnyPlain();
  }

  /** With nothing required, an unreadable file is still invalid although nothing is missing. */
  lemma MissingFileNothingRequired()
    ensures ValidateMarkdownFile(None, []) == Verdict(false, {})
  {
  }

  /** Of two required names, one found and one not: only the other is missing. */
  lemma OneOfTwoFound(found: set<string>, a: string, b: string, na: string, nb: string)
    requires Normalize(a) == na && Normalize(b) == nb
    requires na in found && nb !in found
    ensures ValidateSections(found, [a, b]) == Verdict(false, {nb})
  {
    TwoNames(a, b, na, nb);
  }

  lemma OverviewInSample() ensures "overview" in ExtractH2Sections(SampleMd) { ExtractSample(); }
  lemma SummaryInSample() ensures "summary" in ExtractH2Sections(SampleMd) { ExtractSample(); }
  lemma NotASampleSection(found: set<string>, n: string)
    requires found == {"overview", "details", "summary"}
    requires n != "overview" && n != "details" && n != "summary"
    ensures n !in found
  {
  }

  lemma BogusDistinct() ensures "bogus" != "overview" && "bogus" != "details" && "bogus" != "summary" {}
  lemma MissingDistinct() ensures "missing" != "overview" && "missing" != "details" && "missing" != "summary" {}

  lemma BogusNotInSample()
    ensures "bogus" !in ExtractH2Sections(SampleMd)
  {
    ExtractSample();
    BogusDistinct();
    NotASampleSection(ExtractH2Sections(SampleMd), "bogus");
  }

  lemma MissingNotInSample()
    ensures "missing" !in ExtractH2Sections(SampleMd)
  {
    ExtractSample();
    MissingDistinct();
    NotASampleSection(ExtractH2Sections(SampleMd), "missing");
  }

  lemma FileValidWhenAllSectionsPresent()
    ensures ValidateMarkdownFile(Some(SampleMd), ["overview", "summary"]) == Verdict(true, {})
  {
    OverviewPlain();
    SummaryPlain();
    OverviewInSample();
    SummaryInSample();
    TwoNames("overview", "summary", "overview", "summary");
  }

  lemma FileInvalidWhenAnyMissing()
    ensures ValidateMarkdownFile(Some(SampleMd), ["overview", "bogus"]) == Verdict(false, {"bogus"})
  {
    OverviewPlain();
    BogusPlain();
    OverviewInSample();
    BogusNotInSample();
    OneOfTwoFound(ExtractH2Sections(SampleMd), "overview", "bogus", "overview", "bogus");
  }

  /** `main` exits with 0 on the sample when `overview` and `summary` are required. */
  lemma MainSuccessExitCodeZero()
    ensures ExitCode(Some(SampleMd), ["overview", "summary"]) == 0
  {
    FileValidWhenAllSectionsPresent();
  }

  /** `main` exits with 1 on the sample when a section it lacks is required. */
  lemma MainFailureWhenMissingSection()
    ensures ExitCode(Some(SampleMd), ["overview", "missing"]) == 1
  {
    MissingPlain();
    MissingNotInSample();
    assert Normalize(["overview", "missing"][1]) !in ExtractH2Sections(SampleMd);
  }
}
