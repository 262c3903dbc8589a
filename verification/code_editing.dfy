/**
 * Preparing a code block's text before highlighting
 * (`src/plugins/highlight/code-editing.ts`): `betterTrim` drops blank lines at both
 * ends and removes the common indentation, and `<`/`>` are escaped unless
 * the block opts out.
 */
module CodeEditing {
  import opened Wrappers
  import opened Text

  // ---------------------------------------------------------------------
  // Escaping

  /** `replace(/c/g, rep)`: every occurrence of `c` replaced by `rep`. */
  function ReplaceAll(s: string, c: char, rep: string): (r: string)
    ensures c !in rep ==> c !in r
  {
    if |s| == 0 then ""
    else (if s[0] == c then rep else [s[0]]) + ReplaceAll(s[1..], c, rep)
  }

  lemma {:induction false} ReplaceAllAppend(a: string, b: string, c: char, rep: string)
    ensures ReplaceAll(a + b, c, rep) == ReplaceAll(a, c, rep) + ReplaceAll(b, c, rep)
  {
    if |a| > 0 {
      assert (a + b)[0] == a[0];
      assert (a + b)[1..] == a[1..] + b;
      ReplaceAllAppend(a[1..], b, c, rep);
    } else {
      assert a + b == b;
    }
  }

  /** Replacing a character that does not occur changes nothing. */
  lemma {:induction false} ReplaceAllAbsent(s: string, c: char, rep: string)
    requires c !in s
    ensures ReplaceAll(s, c, rep) == s
  {
    if |s| > 0 {
      ReplaceAllAbsent(s[1..], c, rep);
      assert [s[0]] + s[1..] == s;
    }
  }

  /** The two passes of `prepareCodeBlock`: `<` first, then `>`. */
  function Escape(s: string): string
  {
    ReplaceAll(ReplaceAll(s, '<', "&lt;"), '>', "&gt;")
  }

  /** What one character becomes in escaped text. */
  function EscapeChar(c: char): string
  {
    if c == '<' then "&lt;" else if c == '>' then "&gt;" else [c]
  }

  /** A one-pass reference: every character replaced by its escape, left to right. */
  function EscapeEach(s: string): (r: string)
    ensures '<' !in r && '>' !in r
    ensures |r| == |s| + 3 * (Count(s, '<') + Count(s, '>'))
  {
    if |s| == 0 then "" else EscapeChar(s[0]) + EscapeEach(s[1..])
  }

  /** The two `replace` passes agree with escaping character by character. */
  lemma {:induction false} EscapeIsEscapeEach(s: string)
    ensures Escape(s) == EscapeEach(s)
  {
    if |s| > 0 {
      var rest := ReplaceAll(s[1..], '<', "&lt;");
      var first := if s[0] == '<' then "&lt;" else [s[0]];
      assert ReplaceAll(s, '<', "&lt;") == first + rest;
      ReplaceAllAppend(first, rest, '>', "&gt;");
      if s[0] == '<' {
        ReplaceAllAbsent("&lt;", '>', "&gt;");
      } else {
        assert ReplaceAll([s[0]], '>', "&gt;") == EscapeChar(s[0]);
      }
      EscapeIsEscapeEach(s[1..]);
    }
  }

  /** Escaped text holds no tag brackets, and escaping it again changes nothing. */
  lemma EscapeIdempotent(s: string)
    ensures '<' !in Escape(s) && '>' !in Escape(s)
    ensures Escape(Escape(s)) == Escape(s)
  {
    EscapeIsEscapeEach(s);
    var e := Escape(s);
    ReplaceAllAbsent(e, '<', "&lt;");
    ReplaceAllAbsent(e, '>', "&gt;");
  }

  // ---------------------------------------------------------------------
  // trimLineBreaks

  /** How many lines the first `while` loop shifts off: the leading blank lines. */
  function LeadingBlankLines(lines: seq<string>): (k: nat)
    ensures k <= |lines| && forall i :: 0 <= i < k ==> IsBlank(lines[i])
    ensures k < |lines| ==> !IsBlank(lines[k])
  {
    if |lines| == 0 || !IsBlank(lines[0]) then 0
    else
      var k := 1 + LeadingBlankLines(lines[1..]);
      assert forall i :: 1 <= i < k ==> lines[i] == lines[1..][i - 1];
      k
  }

  /** How many lines the second `while` loop keeps: up to the last non-blank line. */
  function KeptLines(lines: seq<string>): (k: nat)
    ensures k <= |lines| && forall i :: k <= i < |lines| ==> IsBlank(lines[i])
    ensures k > 0 ==> !IsBlank(lines[k - 1])
  {
    if |lines| == 0 || !IsBlank(lines[|lines| - 1]) then |lines|
    else KeptLines(lines[..|lines| - 1])
  }

  /** The lines left once blank lines are removed from both ends. */
  function TrimBlankLines(lines: seq<string>): (r: seq<string>)
  {
    var rest := lines[LeadingBlankLines(lines)..];
    rest[..KeptLines(rest)]
  }

  /**
   * The kept lines are one contiguous stretch of the input, the lines around
   * it are blank, and it starts and ends with a non-blank line unless
   * nothing is kept, which happens exactly when every line is blank.
   */
  lemma TrimBlankLinesSpec(lines: seq<string>)
    ensures var r := TrimBlankLines(lines);
      var a := LeadingBlankLines(lines);
      && a + |r| <= |lines|
      && r == lines[a..a + |r|]
      && (forall i :: 0 <= i < a ==> IsBlank(lines[i]))
      && (forall i :: a + |r| <= i < |lines| ==> IsBlank(lines[i]))
      && (|r| > 0 ==> !IsBlank(r[0]) && !IsBlank(r[|r| - 1]))
      && (|r| == 0 <==> forall i :: 0 <= i < |lines| ==> IsBlank(lines[i]))
  {
    var a := LeadingBlankLines(lines);
    var rest := lines[a..];
    var k := KeptLines(rest);
    BlankTail(lines, a, rest, k);
    SliceOfSuffix(lines, a, k);
    TrimEnds(lines, a, rest, k);
  }

  /** Blank lines at the end of a suffix are blank lines of the whole. */
  lemma BlankTail(lines: seq<string>, a: nat, rest: seq<string>, k: nat)
    requires a <= |lines| && rest == lines[a..] && k <= |rest|
    requires forall i :: k <= i < |rest| ==> IsBlank(rest[i])
    ensures forall i :: a + k <= i < |lines| ==> IsBlank(lines[i])
  {
    forall i | a + k <= i < |lines| ensures IsBlank(lines[i]) {
      assert lines[i] == rest[i - a];
    }
  }

  /** A prefix of a suffix is a slice. */
  lemma SliceOfSuffix(lines: seq<string>, a: nat, k: nat)
    requires a + k <= |lines|
    ensures lines[a..][..k] == lines[a..a + k]
  {
  }

  /** The kept lines start and end non-blank, and there are none exactly when all lines are blank. */
  lemma TrimEnds(lines: seq<string>, a: nat, rest: seq<string>, k: nat)
    requires a <= |lines| && (forall i :: 0 <= i < a ==> IsBlank(lines[i]))
    requires a < |lines| ==> !IsBlank(lines[a])
    requires rest == lines[a..] && k <= |rest|
    requires (forall i :: k <= i < |rest| ==> IsBlank(rest[i])) && (k > 0 ==> !IsBlank(rest[k - 1]))
    ensures k > 0 ==> !IsBlank(lines[a]) && !IsBlank(lines[a + k - 1])
    ensures k == 0 <==> forall i :: 0 <= i < |lines| ==> IsBlank(lines[i])
  {
    if k > 0 {
      assert lines[a + k - 1] == rest[k - 1];
    } else {
      assert a == |lines|;
    }
  }

  /** `trimLineBreaks`: split into lines, drop blank lines at both ends, join again. */
  function TrimLineBreaks(input: string): string
  {
    Join(TrimBlankLines(Split(input, '\n')), '\n')
  }

  // ---------------------------------------------------------------------
  // The common indentation (the `reduce` of betterTrim)

  /** One step of the `reduce`; `None` stands for `Number.POSITIVE_INFINITY`. */
  function PadStep(acc: Option<nat>, line: string): Option<nat>
  {
    var indent := LeadingWhitespace(line);
    if indent < |line| && (acc.None? || acc.value > indent) then Some(indent) else acc
  }

  function PadFrom(lines: seq<string>, acc: Option<nat>): Option<nat>
  {
    if |lines| == 0 then acc else PadFrom(lines[1..], PadStep(acc, lines[0]))
  }

  /** The indentation of the least indented non-blank line; `None` when every line is blank. */
  function Pad(lines: seq<string>): Option<nat>
  {
    PadFrom(lines, None)
  }

  /** A line is blank exactly when its leading white space is all of it. */
  lemma BlankIffAllIndent(line: string)
    ensures IsBlank(line) <==> LeadingWhitespace(line) == |line|
  {
    var k := LeadingWhitespace(line);
    if k == |line| {
      assert line[..k] == line;
    }
  }

  /** Indentation of a non-blank line. */
  predicate IndentedBy(line: string, p: nat)
  {
    !IsBlank(line) && LeadingWhitespace(line) == p
  }

  lemma {:induction false} PadFromSpec(lines: seq<string>, acc: Option<nat>)
    ensures var r := PadFrom(lines, acc);
      && (r.None? <==> acc.None? && forall i :: 0 <= i < |lines| ==> IsBlank(lines[i]))
      && (r.Some? ==> (acc == r || exists i :: 0 <= i < |lines| && IndentedBy(lines[i], r.value)))
      && (r.Some? ==> forall i :: 0 <= i < |lines| && !IsBlank(lines[i]) ==> r.value <= LeadingWhitespace(lines[i]))
      && (r.Some? && acc.Some? ==> r.value <= acc.value)
  {
    if |lines| > 0 {
      var line := lines[0];
      var next := PadStep(acc, line);
      BlankIffAllIndent(line);
      PadFromSpec(lines[1..], next);
      var r := PadFrom(lines, acc);
      assert r == PadFrom(lines[1..], next);
      assert forall i :: 1 <= i < |lines| ==> lines[i] == lines[1..][i - 1];
      if r.Some? && next != r && next.Some? && next != acc {
        assert IndentedBy(lines[0], next.value);
      }
      if r.Some? && next == r && r != acc {
        assert IndentedBy(lines[0], r.value);
      }
      if r.Some? && exists j :: 0 <= j < |lines[1..]| && IndentedBy(lines[1..][j], r.value) {
        var j :| 0 <= j < |lines[1..]| && IndentedBy(lines[1..][j], r.value);
        assert IndentedBy(lines[j + 1], r.value);
      }
    }
  }

  /**
   * The `reduce` finds the smallest indentation of a non-blank line, and
   * stays at infinity exactly when every line is blank.
   */
  lemma PadIsLeastIndent(lines: seq<string>)
    ensures Pad(lines).None? <==> forall i :: 0 <= i < |lines| ==> IsBlank(lines[i])
    ensures Pad(lines).Some? ==>
      && (exists i :: 0 <= i < |lines| && IndentedBy(lines[i], Pad(lines).value))
      && (forall i :: 0 <= i < |lines| && !IsBlank(lines[i]) ==> Pad(lines).value <= LeadingWhitespace(lines[i]))
  {
    PadFromSpec(lines, None);
  }

  // ---------------------------------------------------------------------
  // betterTrim

  /** `line.slice(pad)`: nothing is left when `pad` is infinite or past the end. */
  function SliceFrom(line: string, pad: Option<nat>): (r: string)
  {
    if pad.None? || pad.value >= |line| then "" else line[pad.value..]
  }

  function Dedent(lines: seq<string>): (r: seq<string>)
    ensures |r| == |lines| && forall i :: 0 <= i < |lines| ==> r[i] == SliceFrom(lines[i], Pad(lines))
  {
    var pad := Pad(lines);
    seq(|lines|, i requires 0 <= i < |lines| => SliceFrom(lines[i], pad))
  }

  /** `betterTrim`: blank lines off both ends, then the common indentation off every line. */
  function BetterTrim(text: string): string
  {
    Join(Dedent(Split(TrimLineBreaks(text), '\n')), '\n')
  }

  /**
   * Dedenting removes from every non-blank line exactly the common
   * indentation, which is white space; blank lines lose all of it, or as
   * much of it as the indentation; and at least one non-blank line ends up
   * starting with a non-white-space character.
   */
  lemma DedentSpec(lines: seq<string>)
    ensures var r := Dedent(lines);
      && (forall i :: 0 <= i < |lines| && !IsBlank(lines[i]) ==>
            Pad(lines).Some? && Pad(lines).value <= |lines[i]|
            && IsBlank(lines[i][..Pad(lines).value]) && lines[i] == lines[i][..Pad(lines).value] + r[i])
      && (forall i :: 0 <= i < |lines| && IsBlank(lines[i]) ==> IsBlank(r[i]))
      && ((exists i :: 0 <= i < |lines| && !IsBlank(lines[i])) ==>
            exists i :: 0 <= i < |lines| && |r[i]| > 0 && !IsWhitespace(r[i][0]))
  {
    var r := Dedent(lines);
    PadIsLeastIndent(lines);
    forall i | 0 <= i < |lines| && !IsBlank(lines[i])
      ensures Pad(lines).Some? && Pad(lines).value <= |lines[i]|
      ensures IsBlank(lines[i][..Pad(lines).value]) && lines[i] == lines[i][..Pad(lines).value] + r[i]
    {
      DedentNonBlankLine(lines[i], Pad(lines).value, r[i]);
    }
    forall i | 0 <= i < |lines| && IsBlank(lines[i]) ensures IsBlank(r[i]) {
      SliceOfBlank(lines[i], Pad(lines));
    }
    if exists i :: 0 <= i < |lines| && !IsBlank(lines[i]) {
      var i :| 0 <= i < |lines| && IndentedBy(lines[i], Pad(lines).value);
      DedentLeastIndented(lines[i], Pad(lines).value, r[i]);
    }
  }

  /** A non-blank line indented by at least `p` loses a blank prefix of length `p`. */
  lemma DedentNonBlankLine(line: string, p: nat, rest: string)
    requires !IsBlank(line) && p <= LeadingWhitespace(line)
    requires rest == SliceFrom(line, Some(p))
    ensures p <= |line| && IsBlank(line[..p]) && line == line[..p] + rest
  {
    var w := LeadingWhitespace(line);
    BlankIffAllIndent(line);
    assert p <= w < |line|;
    assert line[..p] == line[..w][..p];
    assert line == line[..p] + line[p..];
  }

  /** Any cut of a blank line is blank. */
  lemma SliceOfBlank(line: string, pad: Option<nat>)
    requires IsBlank(line)
    ensures IsBlank(SliceFrom(line, pad))
  {
    var r := SliceFrom(line, pad);
    assert forall j :: 0 <= j < |r| ==> r[j] == line[|line| - |r| + j];
  }

  /** The least indented line starts with a visible character once cut. */
  lemma DedentLeastIndented(line: string, p: nat, rest: string)
    requires IndentedBy(line, p)
    requires rest == SliceFrom(line, Some(p))
    ensures |rest| > 0 && !IsWhitespace(rest[0])
  {
    BlankIffAllIndent(line);
    assert rest == line[p..];
    assert rest[0] == line[LeadingWhitespace(line)];
  }

  lemma DedentAvoids(lines: seq<string>, c: char)
    requires forall i :: 0 <= i < |lines| ==> c !in lines[i]
    ensures forall i :: 0 <= i < |lines| ==> c !in Dedent(lines)[i]
  {
    forall i, j | 0 <= i < |lines| && 0 <= j < |Dedent(lines)[i]|
      ensures Dedent(lines)[i][j] != c
    {
      var pad := Pad(lines);
      assert Dedent(lines)[i][j] == lines[i][pad.value + j];
    }
  }

  /**
   * `betterTrim` keeps the line structure of the trimmed text: one output
   * line per line left after dropping the blank lines at both ends, each
   * the dedented form of that line; text with no visible character
   * becomes empty.
   */
  lemma BetterTrimLines(text: string)
    ensures var kept := TrimBlankLines(Split(text, '\n'));
      && (|kept| == 0 ==> BetterTrim(text) == "")
      && (|kept| > 0 ==> Split(BetterTrim(text), '\n') == Dedent(kept))
  {
    var kept := TrimBlankLines(Split(text, '\n'));
    var pieces := Split(text, '\n');
    TrimBlankLinesSpec(pieces);
    forall i | 0 <= i < |kept| ensures '\n' !in kept[i] {
      assert kept[i] == pieces[LeadingBlankLines(pieces) + i];
    }
    if |kept| == 0 {
      assert TrimLineBreaks(text) == "";
      assert Split("", '\n') == [""];
      assert Dedent([""]) == [""];
    } else {
      SplitJoin(kept, '\n');
      DedentAvoids(kept, '\n');
      SplitJoin(Dedent(kept), '\n');
    }
  }

  // ---------------------------------------------------------------------
  // prepareCodeBlock

  /**
   * `prepareCodeBlock` on a block's HTML, given whether the block carries
   * `data-trim` and `data-noescape` and whether escaping is configured.
   */
  function PrepareCodeBlock(html: string, hasTrim: bool, hasNoEscape: bool, escapeHTML: bool): (r: string)
    ensures escapeHTML && !hasNoEscape ==> '<' !in r && '>' !in r
  {
    var trimmed := if hasTrim then BetterTrim(html) else html;
    if escapeHTML && !hasNoEscape then
      EscapeIdempotent(trimmed);
      Escape(trimmed)
    else trimmed
  }

  /**
   * The prepared text is the (trimmed) HTML escaped character by character
   * when escaping applies, and the (trimmed) HTML untouched otherwise.
   */
  lemma PrepareCodeBlockSpec(html: string, hasTrim: bool, hasNoEscape: bool, escapeHTML: bool)
    ensures var trimmed := if hasTrim then BetterTrim(html) else html;
      && (escapeHTML && !hasNoEscape ==> PrepareCodeBlock(html, hasTrim, hasNoEscape, escapeHTML) == EscapeEach(trimmed))
      && (!(escapeHTML && !hasNoEscape) ==> PrepareCodeBlock(html, hasTrim, hasNoEscape, escapeHTML) == trimmed)
  {
    EscapeIsEscapeEach(if hasTrim then BetterTrim(html) else html);
  }
}
