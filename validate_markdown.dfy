/**
 The Markdown section checker: finds the level-2 headings of a document,
 brings them to a canonical comparable form, and checks that a list of
 required section names is present.
 */
module Markdown {
  import opened Wrappers
  import opened Text

  /** A heading name as the checker compares it: not empty, no ASCII upper case, no surrounding whitespace. */
  predicate IsCanonical(n: string)
  {
    && n != []
    && n[0] !in Whitespace
    && n[|n| - 1] !in Whitespace
    && forall i :: 0 <= i < |n| ==> !IsAsciiUpper(n[i])
  }

  /** Canonical form of a name: stripped of surrounding whitespace and lower-cased. */
  function Normalize(s: string): (r: string)
    ensures r == [] <==> forall k :: 0 <= k < |s| ==> s[k] in Whitespace
    ensures r != [] ==> IsCanonical(r)
  {
    TrimEmpty(s);
    var t := Trim(s);
    var r := Lower(t);
    StripSpec(s, Whitespace);
    LowerKeepsWhitespace(t);
    r
  }

  /** A canonical name is its own normal form. */
  lemma NormalizeCanonical(s: string)
    requires IsCanonical(s)
    ensures Normalize(s) == s
  {
    StripUnchanged(s, Whitespace);
    LowerUnchanged(s);
  }

  /** A stripped line is a level-2 heading when it starts with `##` and the next character, if any, is not `#`. */
  predicate IsLevelTwo(t: string)
  {
    && |t| >= 2 && t[0] == '#' && t[1] == '#'
    && (|t| == 2 || t[2] != '#')
  }

  /** A line is level 2 exactly when it starts with a run of exactly two `#` characters. */
  lemma LevelTwoExact(t: string)
    ensures IsLevelTwo(t) <==> |t| - |LStrip(t, {'#'})| == 2
  {
    LStripSpec(t, {'#'});
    if IsLevelTwo(t) {
      assert t[2..] == LStrip(t[2..], {'#'});
      assert t[1..][1..] == t[2..];
    }
  }

  /**
   The name a single line contributes, if any: the stripped line must be a
   level-2 heading; its `##` marker and trailing run of `#` are removed and
   the rest is normalised; an empty name is dropped.
   */
  function HeadingName(line: string): (r: Option<string>)
    ensures r.Some? ==> IsLevelTwo(Trim(line)) && IsCanonical(r.value)
    ensures r.Some? ==> Normalize(RStrip(Trim(line)[2..], {'#'})) == r.value
  {
    var t := Trim(line);
    if IsLevelTwo(t) then
      var name := Normalize(RStrip(t[2..], {'#'}));
      if name == [] then None else Some(name)
    else
      None
  }

  /** `x` is `k` whitespace characters followed only by `#` characters. */
  predicate BlankThenHashes(x: string, k: nat)
  {
    && k <= |x|
    && (forall i :: 0 <= i < k ==> x[i] in Whitespace)
    && (forall i :: k <= i < |x| ==> x[i] == '#')
  }

  /**
   A level-2 heading contributes nothing exactly when, after its `##`
   marker, it holds only whitespace followed by `#` characters.
   */
  lemma BlankHeadingDropped(line: string)
    requires IsLevelTwo(Trim(line))
    ensures HeadingName(line).None? <==> exists k :: BlankThenHashes(Trim(line)[2..], k)
  {
    var x := Trim(line)[2..];
    var y := RStrip(x, {'#'});
    RStripSpec(x, {'#'});
    if HeadingName(line).None? {
      assert BlankThenHashes(x, |y|);
    }
    if k :| BlankThenHashes(x, k) {
      assert k > 0 ==> x[k - 1] !in {'#'};
      assert |y| == k;
    }
  }

  /**
   A heading written `## Title`, optionally followed by whitespace and a run
   of `#`, and by trailing whitespace, is named by its lower-cased title. A
   title ending in `#` keeps it only when whitespace and a `#` run follow.
   */
  lemma SimpleHeadingName(title: string, gap: string, hashes: string, pad: string)
    requires title != [] && title[0] !in Whitespace && title[|title| - 1] !in Whitespace
    requires title[|title| - 1] != '#' || (gap != [] && hashes != [])
    requires forall k :: 0 <= k < |gap| ==> gap[k] in Whitespace
    requires forall k :: 0 <= k < |hashes| ==> hashes[k] == '#'
    requires forall k :: 0 <= k < |pad| ==> pad[k] in Whitespace
    ensures HeadingName("## " + title + gap + hashes + pad) == Some(Lower(title))
  {
    var rest := if hashes == [] then [] else gap;
    HeadingLineTrim(title, gap, hashes, pad);
    HeadingBodyName(title, rest, hashes);
  }

  /** What follows the `##` marker normalises to the lower-cased title. */
  lemma HeadingBodyName(title: string, gap: string, hashes: string)
    requires title != [] && title[0] !in Whitespace && title[|title| - 1] !in Whitespace
    requires title[|title| - 1] != '#' || gap != []
    requires forall k :: 0 <= k < |gap| ==> gap[k] in Whitespace
    requires forall k :: 0 <= k < |hashes| ==> hashes[k] == '#'
    ensures RStrip(" " + title + gap + hashes, {'#'}) == " " + title + gap
    ensures Normalize(" " + title + gap) == Lower(title) != []
  {
    var body := " " + title + gap;
    RStripSuffix(body, hashes, {'#'});
    if gap == [] {
      assert body[|body| - 1] == title[|title| - 1];
    } else {
      assert body[|body| - 1] == gap[|gap| - 1];
    }
    RStripStops(body, {'#'});
    StripAround(" ", title, gap, Whitespace);
  }

  /** The stripped heading line keeps the `#` run, or loses the gap with the padding when there is none. */
  lemma HeadingLineTrim(title: string, gap: string, hashes: string, pad: string)
    requires title != [] && title[0] !in Whitespace && title[|title| - 1] !in Whitespace
    requires forall k :: 0 <= k < |gap| ==> gap[k] in Whitespace
    requires forall k :: 0 <= k < |hashes| ==> hashes[k] == '#'
    requires forall k :: 0 <= k < |pad| ==> pad[k] in Whitespace
    ensures var t := Trim("## " + title + gap + hashes + pad);
      && IsLevelTwo(t)
      && t[2..] == " " + title + (if hashes == [] then [] else gap) + hashes
  {
    var core := "## " + title;
    var line := core + gap + hashes + pad;
    if hashes == [] {
      assert line == [] + core + (gap + pad);
      StripAround([], core, gap + pad, Whitespace);
    } else {
      var t := core + gap + hashes;
      assert line == [] + t + pad;
      StripAround([], t, pad, Whitespace);
    }
  }

  /**
   The set of canonical names the level-2 headings among `lines` contribute.
   A name is in it exactly when some line contributes it.
   */
  function ExtractFromLines(lines: seq<string>): (r: set<string>)
    ensures forall n :: n in r ==> IsCanonical(n)
    ensures forall n :: n in r <==> exists line :: line in lines && HeadingName(line) == Some(n)
  {
    if lines == [] then {}
    else
      var rest := ExtractFromLines(lines[1..]);
      match HeadingName(lines[0])
      case Some(n) => {n} + rest
      case None => rest
  }

  /** `extract_h2_sections(text)`: the canonical names of the level-2 headings of `text`. */
  function ExtractH2Sections(text: string): (r: set<string>)
    ensures forall n :: n in r ==> IsCanonical(n)
    ensures forall n :: n in r <==> exists line :: line in Lines(text) && HeadingName(line) == Some(n)
  {
    ExtractFromLines(Lines(text))
  }

  /** Extraction over a list of lines is the union of extraction over its parts. */
  lemma ExtractFromLinesAppend(xs: seq<string>, ys: seq<string>)
    ensures ExtractFromLines(xs + ys) == ExtractFromLines(xs) + ExtractFromLines(ys)
  {
    forall line ensures line in xs + ys <==> line in xs || line in ys {
    }
  }

  /** Joining two texts at a line break joins their heading sets. */
  lemma ExtractConcat(a: string, c: char, b: string)
    requires c in LineBreaks
    ensures ExtractH2Sections(a + [c] + b) == ExtractH2Sections(a) + ExtractH2Sections(b)
  {
    LinesConcat(a, c, b);
    ExtractFromLinesAppend(Lines(a), Lines(b));
  }

  /** A single line yields its own heading name, or nothing. */
  lemma ExtractOneLine(line: string)
    requires NoLineBreak(line)
    ensures ExtractH2Sections(line) == if HeadingName(line).Some? then {HeadingName(line).value} else {}
  {
    LinesOfOneLine(line);
    assert ExtractFromLines([line])
      == (if HeadingName(line).Some? then {HeadingName(line).value} else {}) + ExtractFromLines([]);
  }

  /** The order of the parts of a document does not change the headings found. */
  lemma ExtractOrderIndependent(a: string, b: string)
    ensures ExtractH2Sections(a + "\n" + b) == ExtractH2Sections(b + "\n" + a)
  {
    ExtractConcat(a, '\n', b);
    ExtractConcat(b, '\n', a);
  }

  /** Repeating a document adds no headings: duplicates collapse to one entry. */
  lemma ExtractDuplicatesCollapse(a: string)
    ensures ExtractH2Sections(a + "\n" + a) == ExtractH2Sections(a)
  {
    ExtractConcat(a, '\n', a);
  }

  /** A line that is not a level-2 heading (a `#` title, a `###` subsection, text) adds nothing wherever it stands. */
  lemma NonLevelTwoLineIgnored(a: string, line: string, b: string)
    requires NoLineBreak(line)
    requires !IsLevelTwo(Trim(line))
    ensures ExtractH2Sections(a + "\n" + line + "\n" + b) == ExtractH2Sections(a) + ExtractH2Sections(b)
  {
    assert a + "\n" + line + "\n" + b == a + ['\n'] + (line + ['\n'] + b);
    ExtractConcat(a, '\n', line + ['\n'] + b);
    ExtractConcat(line, '\n', b);
    ExtractOneLine(line);
  }

  /** The verdict on the sections of a document: `valid` and the set of `missing` canonical names. */
  datatype Verdict = Verdict(valid: bool, missing: set<string>)

  /** The canonical forms of the required section names. */
  function NormalizedNames(expected: seq<string>): (r: set<string>)
    ensures forall n :: n in r <==> exists i :: 0 <= i < |expected| && Normalize(expected[i]) == n
    ensures forall n :: n in r ==> n == [] || IsCanonical(n)
    ensures r == {} <==> |expected| == 0
  {
    var r := set e | e in expected :: Normalize(e);
    assert |expected| > 0 ==> Normalize(expected[0]) in r;
    r
  }

  /** Required lists that agree entry by entry after lowercasing name the same sections. */
  lemma {:induction false} NormalizedNamesCaseInsensitive(e1: seq<string>, e2: seq<string>)
    requires |e1| == |e2|
    requires forall i :: 0 <= i < |e1| ==> Lower(e1[i]) == Lower(e2[i])
    ensures NormalizedNames(e1) == NormalizedNames(e2)
  {
    forall i | 0 <= i < |e1| ensures Normalize(e1[i]) == Normalize(e2[i]) {
      TrimLowerCommute(e1[i]);
      TrimLowerCommute(e2[i]);
    }
  }

  /** Neither the order of the required names nor their repetition matters. */
  lemma NormalizedNamesOrderIndependent(e1: seq<string>, e2: seq<string>)
    requires forall e :: e in e1 <==> e in e2
    ensures NormalizedNames(e1) == NormalizedNames(e2)
  {
  }

  /**
   `validate_sections(found, expected)`: a required name is missing exactly
   when its canonical form is not among `found`; the verdict is valid
   exactly when nothing is missing, that is, when every required name is found.
   */
  function ValidateSections(found: set<string>, expected: seq<string>): (r: Verdict)
    ensures forall n :: n in r.missing <==> n in NormalizedNames(expected) && n !in found
    ensures r.valid <==> r.missing == {}
    ensures r.valid <==> forall i :: 0 <= i < |expected| ==> Normalize(expected[i]) in found
  {
    var missing := NormalizedNames(expected) - found;
    assert (forall i :: 0 <= i < |expected| ==> Normalize(expected[i]) in found) ==> missing == {};
    Verdict(missing == {}, missing)
  }

  /** With nothing required, every set of sections is valid. */
  lemma ValidateNothingRequired(found: set<string>)
    ensures ValidateSections(found, []) == Verdict(true, {})
  {
  }

  /** Finding more sections never adds to what is missing. */
  lemma ValidateMonotone(found1: set<string>, found2: set<string>, expected: seq<string>)
    requires found1 <= found2
    ensures ValidateSections(found2, expected).missing <= ValidateSections(found1, expected).missing
    ensures ValidateSections(found1, expected).valid ==> ValidateSections(found2, expected).valid
  {
  }

  /** Required names that differ only in ASCII letter case give the same verdict. */
  lemma {:induction false} ValidateCaseInsensitive(found: set<string>, e1: seq<string>, e2: seq<string>)
    requires |e1| == |e2|
    requires forall i :: 0 <= i < |e1| ==> Lower(e1[i]) == Lower(e2[i])
    ensures ValidateSections(found, e1) == ValidateSections(found, e2)
  {
    NormalizedNamesCaseInsensitive(e1, e2);
  }

  /** Normalising the required names beforehand changes nothing. */
  lemma {:induction false} ValidatePreNormalized(found: set<string>, expected: seq<string>)
    ensures ValidateSections(found, expected) == ValidateSections(found, seq(|expected|, i requires 0 <= i < |expected| => Normalize(expected[i])))
  {
    var pre := seq(|expected|, i requires 0 <= i < |expected| => Normalize(expected[i]));
    forall i | 0 <= i < |expected| ensures Normalize(pre[i]) == Normalize(expected[i]) {
      NormalizeIdempotent(expected[i]);
    }
    assert NormalizedNames(pre) == NormalizedNames(expected);
  }

  /** Normalising twice is normalising once. */
  lemma {:induction false} NormalizeIdempotent(s: string)
    ensures Normalize(Normalize(s)) == Normalize(s)
  {
    var t := Trim(s);
    TrimLowerCommute(t);
    StripIdempotent(s, Whitespace);
    LowerIdempotent(t);
  }

  /**
   `validate_markdown_file(path, expected)`, with the file's contents given as
   `None` when it cannot be read. An unreadable file is invalid with every
   required name missing; a readable one is judged by its level-2 headings.
   */
  function ValidateMarkdownFile(contents: Option<string>, expected: seq<string>): (r: Verdict)
    ensures contents.None? ==> !r.valid && r.missing == NormalizedNames(expected)
    ensures contents.Some? ==> r == ValidateSections(ExtractH2Sections(contents.value), expected)
    ensures r.valid <==> contents.Some? && forall i :: 0 <= i < |expected| ==> Normalize(expected[i]) in ExtractH2Sections(contents.value)
    ensures r.missing <= NormalizedNames(expected)
  {
    match contents
    case None => Verdict(false, NormalizedNames(expected))
    case Some(text) => ValidateSections(ExtractH2Sections(text), expected)
  }

  /** For a readable file, `valid` holds exactly when nothing is missing. */
  lemma ReadableVerdictConsistent(text: string, expected: seq<string>)
    ensures ValidateMarkdownFile(Some(text), expected).valid <==> ValidateMarkdownFile(Some(text), expected).missing == {}
  {
  }

  /** A required name that is blank can never be found, so the file is never valid. */
  lemma BlankRequiredNameNeverFound(contents: Option<string>, expected: seq<string>, i: nat)
    requires i < |expected|
    requires forall k :: 0 <= k < |expected[i]| ==> expected[i][k] in Whitespace
    ensures !ValidateMarkdownFile(contents, expected).valid
    ensures "" in ValidateMarkdownFile(contents, expected).missing
  {
    assert Normalize(expected[i]) == "";
  }

  /** The process exit code of `main`: 0 when every required section is present, 1 otherwise. */
  function ExitCode(contents: Option<string>, sections: seq<string>): (code: int)
    ensures code == 0 || code == 1
    ensures code == 0 <==> contents.Some? && forall i :: 0 <= i < |sections| ==> Normalize(sections[i]) in ExtractH2Sections(contents.value)
  {
    if ValidateMarkdownFile(contents, sections).valid then 0 else 1
  }
}
