/**
 The string operations the model describes the section checker with, each
 stated as the Python operation it stands for: `str.strip`, `str.lstrip(chars)`,
 `str.rstrip(chars)`, `str.lower` (restricted to ASCII letters) and
 `str.splitlines`.
 */
module Text {

  /** The characters for which Python's `str.isspace()` holds: what `str.strip()` removes. */
  const Whitespace: set<char> := {
    '\t', '\n', '\U{B}', '\U{C}', '\r', '\U{1C}', '\U{1D}', '\U{1E}', '\U{1F}', ' ',
    '\U{85}', '\U{A0}', '\U{1680}',
    '\U{2000}', '\U{2001}', '\U{2002}', '\U{2003}', '\U{2004}', '\U{2005}',
    '\U{2006}', '\U{2007}', '\U{2008}', '\U{2009}', '\U{200A}',
    '\U{2028}', '\U{2029}', '\U{202F}', '\U{205F}', '\U{3000}'
  }

  /** The characters at which Python's `str.splitlines()` ends a line. */
  const LineBreaks: set<char> := {
    '\n', '\r', '\U{B}', '\U{C}', '\U{1C}', '\U{1D}', '\U{1E}', '\U{85}', '\U{2028}', '\U{2029}'
  }

  /** `s.lstrip(chars)`. */
  function LStrip(s: string, chars: set<char>): string
  {
    if s != [] && s[0] in chars then LStrip(s[1..], chars) else s
  }

  /** `s.lstrip(chars)` drops the longest prefix made of `chars`. */
  lemma {:induction false} LStripSpec(s: string, chars: set<char>)
    ensures var r := LStrip(s, chars);
      && |r| <= |s| && r == s[|s| - |r|..]
      && (forall i :: 0 <= i < |s| - |r| ==> s[i] in chars)
      && (r == [] || r[0] !in chars)
  {
    if s != [] && s[0] in chars {
      LStripSpec(s[1..], chars);
      var r := LStrip(s, chars);
      assert r == LStrip(s[1..], chars);
      assert s[1..][|s[1..]| - |r|..] == s[|s| - |r|..];
      forall i | 0 <= i < |s| - |r| ensures s[i] in chars {
        if i > 0 {
          assert s[i] == s[1..][i - 1];
        }
      }
    }
  }

  /** `s.rstrip(chars)`. */
  function RStrip(s: string, chars: set<char>): string
  {
    if s != [] && s[|s| - 1] in chars then RStrip(s[..|s| - 1], chars) else s
  }

  /** `s.rstrip(chars)` drops the longest suffix made of `chars`. */
  lemma {:induction false} RStripSpec(s: string, chars: set<char>)
    ensures var r := RStrip(s, chars);
      && |r| <= |s| && r == s[..|r|]
      && (forall i :: |r| <= i < |s| ==> s[i] in chars)
      && (r == [] || r[|r| - 1] !in chars)
  {
    if s != [] && s[|s| - 1] in chars {
      RStripSpec(s[..|s| - 1], chars);
    }
  }

  /** `s.strip(chars)`. */
  function Strip(s: string, chars: set<char>): string
  {
    RStrip(LStrip(s, chars), chars)
  }

  /** `s.strip(chars)` is a slice of `s` whose cut-off ends are made of `chars` and which neither starts nor ends with one. */
  lemma StripSpec(s: string, chars: set<char>)
    ensures var r := Strip(s, chars);
      && (exists i, j ::
            && 0 <= i <= j <= |s| && r == s[i..j]
            && (forall k :: 0 <= k < i ==> s[k] in chars)
            && (forall k :: j <= k < |s| ==> s[k] in chars))
      && (r == [] || (r[0] !in chars && r[|r| - 1] !in chars))
  {
    var left := LStrip(s, chars);
    LStripSpec(s, chars);
    var r := RStrip(left, chars);
    RStripSpec(left, chars);
    var i, j := |s| - |left|, |s| - |left| + |r|;
    assert left == s[i..];
    assert r == left[..|r|];
    assert r == s[i..j];
    forall k | j <= k < |s| ensures s[k] in chars {
      assert s[k] == left[k - i];
    }
  }

  /** `Trim(s)` is Python's `s.strip()`. */
  function Trim(s: string): string
  {
    Strip(s, Whitespace)
  }

  predicate IsAsciiUpper(c: char)
  {
    'A' <= c <= 'Z'
  }

  function LowerChar(c: char): char
  {
    if IsAsciiUpper(c) then (c as int + 32) as char else c
  }

  /** `s.lower()` for ASCII letters: only the letters `A`-`Z` change, each to its lower-case form. */
  function Lower(s: string): (r: string)
    ensures |r| == |s|
    ensures forall i :: 0 <= i < |s| ==> !IsAsciiUpper(r[i])
    ensures forall i :: 0 <= i < |s| ==> r[i] == LowerChar(s[i])
  {
    if s == [] then [] else [LowerChar(s[0])] + Lower(s[1..])
  }

  /**
   `s.splitlines()`, except that every line-break character ends a line on its
   own (so `\r\n` gives an empty line between the two) and the text after the
   last break is always a line (so `""` gives `[""]`). The extra lines are empty.
   */
  function Lines(s: string): (r: seq<string>)
    ensures |r| >= 1
    ensures forall i, k :: 0 <= i < |r| && 0 <= k < |r[i]| ==> r[i][k] !in LineBreaks
  {
    if s == [] then [[]]
    else
      var rest := Lines(s[1..]);
      if s[0] in LineBreaks then [[]] + rest else [[s[0]] + rest[0]] + rest[1..]
  }

  /** The lines `ls` written one after another, each but the last followed by `\n`. */
  function JoinLines(ls: seq<string>): string
  {
    if ls == [] then [] else if |ls| == 1 then ls[0] else ls[0] + "\n" + JoinLines(ls[1..])
  }

  predicate NoLineBreak(s: string)
  {
    forall k :: 0 <= k < |s| ==> s[k] !in LineBreaks
  }

  /** Text without a line break is a single line. */
  lemma {:induction false} LinesOfOneLine(s: string)
    requires NoLineBreak(s)
    ensures Lines(s) == [s]
  {
    if s != [] {
      LinesOfOneLine(s[1..]);
      assert [s[0]] + s[1..] == s;
    }
  }

  /** A line break splits the text into the lines before it and the lines after it. */
  lemma {:induction false} LinesConcat(a: string, c: char, b: string)
    requires c in LineBreaks
    ensures Lines(a + [c] + b) == Lines(a) + Lines(b)
  {
    if a == [] {
      assert a + [c] + b == [c] + b;
      assert ([c] + b)[1..] == b;
    } else {
      assert (a + [c] + b)[1..] == a[1..] + [c] + b;
      LinesConcat(a[1..], c, b);
    }
  }

  /** A string that neither starts nor ends with one of `chars` is its own strip. */
  lemma StripUnchanged(s: string, chars: set<char>)
    requires s == [] || (s[0] !in chars && s[|s| - 1] !in chars)
    ensures Strip(s, chars) == s
  {
  }

  /** Characters of `chars` appended to a string are removed again by `rstrip`. */
  lemma {:induction false} RStripSuffix(s: string, suffix: string, chars: set<char>)
    requires forall k :: 0 <= k < |suffix| ==> suffix[k] in chars
    ensures RStrip(s + suffix, chars) == RStrip(s, chars)
  {
    if suffix != [] {
      var n := |suffix| - 1;
      assert (s + suffix)[..|s + suffix| - 1] == s + suffix[..n];
      RStripSuffix(s, suffix[..n], chars);
    } else {
      assert s + suffix == s;
    }
  }

  /** Characters of `chars` prepended to a string are removed again by `lstrip`. */
  lemma {:induction false} LStripPrefix(prefix: string, s: string, chars: set<char>)
    requires forall k :: 0 <= k < |prefix| ==> prefix[k] in chars
    ensures LStrip(prefix + s, chars) == LStrip(s, chars)
  {
    if prefix != [] {
      assert (prefix + s)[1..] == prefix[1..] + s;
      LStripPrefix(prefix[1..], s, chars);
    } else {
      assert prefix + s == s;
    }
  }

  /** `rstrip` leaves a string alone that does not end with one of `chars`. */
  lemma RStripStops(s: string, chars: set<char>)
    requires s != [] && s[|s| - 1] !in chars
    ensures RStrip(s, chars) == s
  {
  }

  /** Surrounding a string that neither starts nor ends with one of `chars` by such characters does not change its strip. */
  lemma StripAround(prefix: string, s: string, suffix: string, chars: set<char>)
    requires s != [] && s[0] !in chars && s[|s| - 1] !in chars
    requires forall k :: 0 <= k < |prefix| ==> prefix[k] in chars
    requires forall k :: 0 <= k < |suffix| ==> suffix[k] in chars
    ensures Strip(prefix + s + suffix, chars) == s
  {
    assert prefix + s + suffix == prefix + (s + suffix);
    LStripPrefix(prefix, s + suffix, chars);
    assert LStrip(s + suffix, chars) == s + suffix;
    RStripSuffix(s, suffix, chars);
  }

  /** A string without upper-case ASCII letters is its own lower-casing. */
  lemma LowerUnchanged(s: string)
    requires forall i :: 0 <= i < |s| ==> !IsAsciiUpper(s[i])
    ensures Lower(s) == s
  {
  }

  /** Splitting lines that were joined by `\n` gives them back. */
  lemma {:induction false} LinesOfJoin(ls: seq<string>)
    requires ls != []
    requires forall i :: 0 <= i < |ls| ==> NoLineBreak(ls[i])
    ensures Lines(JoinLines(ls)) == ls
  {
    if |ls| == 1 {
      LinesOfOneLine(ls[0]);
    } else {
      LinesOfJoin(ls[1..]);
      LinesConcat(ls[0], '\n', JoinLines(ls[1..]));
      LinesOfOneLine(ls[0]);
      assert ls == [ls[0]] + ls[1..];
    }
  }

  /** The whitespace-stripped string is empty exactly when the string is all whitespace. */
  lemma TrimEmpty(s: string)
    ensures Trim(s) == [] <==> forall k :: 0 <= k < |s| ==> s[k] in Whitespace
  {
    StripSpec(s, Whitespace);
  }

  /** Stripping twice is stripping once. */
  lemma StripIdempotent(s: string, chars: set<char>)
    ensures Strip(Strip(s, chars), chars) == Strip(s, chars)
  {
    StripSpec(s, chars);
    StripUnchanged(Strip(s, chars), chars);
  }

  /** Lower-casing keeps whitespace where it is, so it commutes with stripping whitespace. */
  lemma {:induction false} TrimLowerCommute(s: string)
    ensures Trim(Lower(s)) == Lower(Trim(s))
  {
    LStripLower(s);
    var left := LStrip(s, Whitespace);
    RStripLower(left);
  }

  lemma LowerCharKeepsWhitespace(c: char)
    ensures LowerChar(c) in Whitespace <==> c in Whitespace
  {
  }

  /** Lower-casing leaves every position whitespace exactly when it was. */
  lemma LowerKeepsWhitespace(s: string)
    ensures forall i :: 0 <= i < |s| ==> (Lower(s)[i] in Whitespace <==> s[i] in Whitespace)
  {
    forall i | 0 <= i < |s| ensures Lower(s)[i] in Whitespace <==> s[i] in Whitespace {
      LowerCharKeepsWhitespace(s[i]);
    }
  }

  lemma {:induction false} LStripLower(s: string)
    ensures LStrip(Lower(s), Whitespace) == Lower(LStrip(s, Whitespace))
  {
    if s != [] {
      LowerCharKeepsWhitespace(s[0]);
      assert Lower(s)[1..] == Lower(s[1..]);
      LStripLower(s[1..]);
    }
  }

  lemma {:induction false} RStripLower(s: string)
    ensures RStrip(Lower(s), Whitespace) == Lower(RStrip(s, Whitespace))
  {
    if s != [] {
      var n := |s| - 1;
      LowerCharKeepsWhitespace(s[n]);
      LowerPrefix(s, n);
      RStripLower(s[..n]);
      var t := Lower(s);
      assert t[n] == LowerChar(s[n]);
      assert t[..|t| - 1] == Lower(s[..n]);
    }
  }

  lemma LowerPrefix(s: string, n: nat)
    requires n <= |s|
    ensures Lower(s)[..n] == Lower(s[..n])
  {
    var a, b := Lower(s)[..n], Lower(s[..n]);
    assert |a| == |b|;
    forall i | 0 <= i < n ensures a[i] == b[i] {
      assert a[i] == LowerChar(s[i]);
    }
  }

  /** Lower-casing twice is lower-casing once. */
  lemma LowerIdempotent(s: string)
    ensures Lower(Lower(s)) == Lower(s)
  {
  }
}
