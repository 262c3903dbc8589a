/**
 * The highlight-spec codec of `src/plugins/highlight/serialize.ts`: the
 * attribute string `[prefix ":"] frame ("|" frame)*` is parsed into a
 * line-number configuration and, per frame, the highlighted sections; one
 * frame is rendered back with `SerializeHighlightSection`.
 */
module Serialize {
  import opened Wrappers
  import opened Text

  /**
   * One highlighted target: a line, an inclusive line range, or one column
   * interval of a line (the code's singular `column` field).
   */
  datatype Section =
    | Single(start: nat)
    | Range(start: nat, end: nat)
    | Column(start: nat, from: nat, to: nat)

  /** `showLineNumber` together with the `offset` it carries only when true. */
  datatype LineNumbers = Hidden | Shown(offset: nat)

  datatype Definition = Definition(lineNumbers: LineNumbers, highlightSections: seq<seq<Section>>)

  /** The prefix split off on `:` and the highlight part that remains. */
  datatype Parsed = Parsed(lineNumbers: LineNumbers, highlight: string)

  const MoreThanOneColon := "Invalid format if more than one colon"
  const NegativeOffset := "Invalid offset value, it can not be lower than 0"

  // ---------------------------------------------------------------------
  // One section: the regular expression ^(\d+)(?:-(\d+))?(?:\((\d+)(?:-(\d+))?\))?$

  /** The four capture groups of the section regular expression. */
  datatype Captures = Captures(line: string, end: Option<string>, colFrom: Option<string>, colTo: Option<string>)

  predicate DigitGroup(g: Option<string>)
  {
    g.Some? ==> |g.value| >= 1 && AllDigits(g.value)
  }

  /** Captures the regular expression can produce: digit groups, group 4 only inside group 3. */
  predicate WellFormed(c: Captures)
  {
    && |c.line| >= 1 && AllDigits(c.line)
    && DigitGroup(c.end) && DigitGroup(c.colFrom) && DigitGroup(c.colTo)
    && (c.colTo.Some? ==> c.colFrom.Some?)
  }

  function Opt(prefix: string, g: Option<string>): string
  {
    if g.Some? then prefix + g.value else ""
  }

  /** The text a match with these captures spans: the declarative reading of the pattern. */
  function Assemble(c: Captures): string
  {
    c.line + Opt("-", c.end)
      + (if c.colFrom.Some? then "(" + c.colFrom.value + Opt("-", c.colTo) + ")" else "")
  }

  /** The optional `(?:-(\d+))?` group at the front of `r`, and what follows it. */
  function DashGroup(r: string): (res: (Option<string>, string))
    ensures DigitGroup(res.0) && r == Opt("-", res.0) + res.1
    ensures res.0.Some? ==> |res.1| == 0 || !IsDigit(res.1[0])
  {
    var n := if |r| >= 1 && r[0] == '-' then DigitRun(r[1..]) else 0;
    if n > 0 then
      assert r == "-" + r[1..][..n] + r[1..][n..];
      (Some(r[1..][..n]), r[1..][n..])
    else (None, r)
  }

  /** The column suffix `\((\d+)(?:-(\d+))?\)` spanning all of `r`, if it does. */
  function ColumnGroup(r: string): (res: Option<(string, Option<string>)>)
    ensures res.Some? ==>
      && |res.value.0| >= 1 && AllDigits(res.value.0) && DigitGroup(res.value.1)
      && r == "(" + res.value.0 + Opt("-", res.value.1) + ")"
  {
    if |r| == 0 || r[0] != '(' then None
    else
      var n := DigitRun(r[1..]);
      if n == 0 then None
      else
        var from := r[1..][..n];
        var (to, rest) := DashGroup(r[1..][n..]);
        if rest != ")" then None
        else
          ColumnShape(r, n, to, rest);
          Some((from, to))
  }

  lemma ColumnShape(r: string, n: nat, to: Option<string>, rest: string)
    requires |r| >= 1 && r[0] == '(' && n <= |r| - 1
    requires r[1..][n..] == Opt("-", to) + rest && rest == ")"
    ensures r == "(" + r[1..][..n] + Opt("-", to) + ")"
  {
    var t := r[1..];
    assert r == [r[0]] + t;
    assert t == t[..n] + (Opt("-", to) + ")");
    assert "(" + (t[..n] + (Opt("-", to) + ")")) == "(" + t[..n] + Opt("-", to) + ")";
  }

  /**
   * Scans `s` against the section pattern. Every digit group is maximal:
   * a shorter `\d+` would leave a digit where the pattern needs `-`, `(`,
   * `)` or the end, so backtracking never finds another match.
   */
  function MatchSection(s: string): (r: Option<Captures>)
    ensures r.Some? ==> WellFormed(r.value) && Assemble(r.value) == s
  {
    var n := DigitRun(s);
    if n == 0 then None
    else
      var line := s[..n];
      assert s == line + s[n..];
      var (end, rest) := DashGroup(s[n..]);
      if |rest| == 0 then
        AssembleOf(Captures(line, end, None, None), rest, s);
        Some(Captures(line, end, None, None))
      else
        match ColumnGroup(rest)
        case None => None
        case Some((from, to)) =>
          AssembleOf(Captures(line, end, Some(from), to), rest, s);
          Some(Captures(line, end, Some(from), to))
  }

  /** The line group, then the dash group, then the column part spell out `s`. */
  lemma AssembleOf(c: Captures, tail: string, s: string)
    requires s == c.line + (Opt("-", c.end) + tail)
    requires c.colFrom.None? ==> tail == ""
    requires c.colFrom.Some? ==> tail == "(" + c.colFrom.value + Opt("-", c.colTo) + ")"
    ensures Assemble(c) == s
  {
    var col := if c.colFrom.Some? then "(" + c.colFrom.value + Opt("-", c.colTo) + ")" else "";
    assert col == tail;
    assert c.line + Opt("-", c.end) + col == c.line + (Opt("-", c.end) + tail);
  }

  lemma DigitsThenNonDigit(d: string, t: string)
    requires AllDigits(d)
    requires |t| == 0 || !IsDigit(t[0])
    ensures DigitRun(d + t) == |d| && (d + t)[..|d|] == d && (d + t)[|d|..] == t
  {
    DigitRunOfDigitsThen(d, t);
  }

  lemma DashGroupOf(g: Option<string>, t: string)
    requires DigitGroup(g)
    requires g.None? ==> |t| == 0 || t[0] != '-'
    requires g.Some? ==> |t| == 0 || !IsDigit(t[0])
    ensures DashGroup(Opt("-", g) + t) == (g, t)
  {
    if g.Some? {
      var r := Opt("-", g) + t;
      assert r[1..] == g.value + t;
      DigitsThenNonDigit(g.value, t);
    } else {
      assert Opt("-", g) + t == t;
    }
  }

  lemma ColumnGroupOf(from: string, to: Option<string>)
    requires |from| >= 1 && AllDigits(from) && DigitGroup(to)
    ensures ColumnGroup("(" + from + Opt("-", to) + ")") == Some((from, to))
  {
    var r := "(" + from + Opt("-", to) + ")";
    assert r[1..] == from + (Opt("-", to) + ")");
    DigitsThenNonDigit(from, Opt("-", to) + ")");
    DashGroupOf(to, ")");
  }

  /** Every well-formed set of captures is found again by the scanner. */
  lemma MatchAssembled(c: Captures)
    requires WellFormed(c)
    ensures MatchSection(Assemble(c)) == Some(c)
  {
    var colPart := if c.colFrom.Some? then "(" + c.colFrom.value + Opt("-", c.colTo) + ")" else "";
    var r1 := Opt("-", c.end) + colPart;
    assert Assemble(c) == c.line + r1;
    DigitsThenNonDigit(c.line, r1);
    DashGroupOf(c.end, colPart);
    if c.colFrom.Some? {
      ColumnGroupOf(c.colFrom.value, c.colTo);
    }
  }

  /**
   * One `,`-piece of a frame: `s(f)` and `s(f-t)` give a column (to = from
   * when there is no dash), `s-e` a range and `s` a single line; a column
   * suffix wins over a range; anything else is dropped (`None`).
   */
  function ParseSection(piece: string): (r: Option<Section>)
    ensures r.None? <==> MatchSection(piece).None?
  {
    match MatchSection(piece)
    case None => None
    case Some(c) => Some(SectionOf(c))
  }

  /**
   * What a matching piece parses to: a column group gives a column section,
   * even after a range group, with `to` equal to `from` when the column has
   * no dash; otherwise a range group gives a range, and a bare line a single
   * line. All numbers are the decimal values of their digit groups.
   */
  lemma ParseAssembled(c: Captures)
    requires WellFormed(c)
    ensures var start := DigitsValue(c.line);
      && (c.colFrom.Some? ==>
            var from := DigitsValue(c.colFrom.value);
            ParseSection(Assemble(c)) == Some(Column(start, from, if c.colTo.Some? then DigitsValue(c.colTo.value) else from)))
      && (c.colFrom.None? && c.end.Some? ==> ParseSection(Assemble(c)) == Some(Range(start, DigitsValue(c.end.value))))
      && (c.colFrom.None? && c.end.None? ==> ParseSection(Assemble(c)) == Some(Single(start)))
  {
    MatchAssembled(c);
  }

  /** `s-e(f)` and `s-e(f-t)`: the column suffix wins over the range, and the range end is ignored. */
  lemma ColumnWinsOverRange(c: Captures)
    requires WellFormed(c) && c.end.Some? && c.colFrom.Some?
    ensures ParseSection(Assemble(c)).Some? && ParseSection(Assemble(c)).value.Column?
    ensures ParseSection(Assemble(c)) == ParseSection(Assemble(c.(end := None)))
  {
    ParseAssembled(c);
    ParseAssembled(c.(end := None));
  }

  /** The section a match stands for: a column group wins over the range group. */
  function SectionOf(c: Captures): Section
    requires WellFormed(c)
  {
    var start := DigitsValue(c.line);
    var colFrom: Option<nat> := if c.colFrom.Some? then Some(DigitsValue(c.colFrom.value)) else None;
    var colTo: Option<nat> := if c.colTo.Some? then Some(DigitsValue(c.colTo.value)) else colFrom;
    if colFrom.Some? && colTo.Some? then Column(start, colFrom.value, colTo.value)
    else if c.end.Some? then Range(start, DigitsValue(c.end.value))
    else Single(start)
  }

  /** The sections of the pieces that match, in order; the rest are dropped. */
  function ParseSections(pieces: seq<string>): (r: seq<Section>)
    ensures |r| <= |pieces|
  {
    if |pieces| == 0 then []
    else
      match ParseSection(pieces[0])
      case None => ParseSections(pieces[1..])
      case Some(sec) => [sec] + ParseSections(pieces[1..])
  }

  /** One frame: a naive split on `,` followed by per-piece parsing. */
  function ParseFrame(frame: string): seq<Section>
  {
    ParseSections(Split(frame, ','))
  }

  /** The frames of the highlight part: one per `|`-piece. */
  function ParseFrames(frames: seq<string>): (r: seq<seq<Section>>)
    ensures |r| == |frames|
    ensures forall i :: 0 <= i < |frames| ==> r[i] == ParseFrame(frames[i])
  {
    seq(|frames|, i requires 0 <= i < |frames| => ParseFrame(frames[i]))
  }

  // ---------------------------------------------------------------------
  // The line-number prefix

  /** A sign followed by at least one decimal digit. */
  predicate SignedDigits(p: string, sign: char)
  {
    |p| >= 2 && p[0] == sign && AllDigits(p[1..])
  }

  /** The strings `Number()` is taken to read as a number: decimal digits, optionally after `-` or `+`. */
  predicate IsNotNumber(p: string)
  {
    !(AllDigits(p) || SignedDigits(p, '-') || SignedDigits(p, '+'))
  }

  /** `Number(p)`; the empty string reads as 0, as in JavaScript. */
  function NumberValue(p: string): int
    requires !IsNotNumber(p)
  {
    if AllDigits(p) then DigitsValue(p)
    else if p[0] == '+' then DigitsValue(p[1..])
    else 0 - DigitsValue(p[1..])
  }

  /**
   * Splits off the optional line-number prefix. More than one `:` is an
   * error; `N` shows line numbers from 0; a number at least 0 is the offset;
   * a negative number is an error; any other prefix hides line numbers.
   */
  function ParseHighlightDefinition(input: string): (r: Result<Parsed>)
    ensures Count(input, ':') > 1 ==> r == Err(MoreThanOneColon)
    ensures Count(input, ':') == 0 ==> r == Ok(Parsed(Hidden, input))
    ensures r.Ok? ==> r.value.highlight == Split(input, ':')[|Split(input, ':')| - 1]
  {
    var parts := Split(input, ':');
    if |parts| > 2 then Err(MoreThanOneColon)
    else if |parts| == 1 then
      SplitWithoutSeparatorCount(input, ':');
      Ok(Parsed(Hidden, parts[0]))
    else
      var lineNumberConfig := parts[0];
      var highlight := parts[1];
      if IsNotNumber(lineNumberConfig) then
        if lineNumberConfig == "N" then Ok(Parsed(Shown(0), highlight))
        else Ok(Parsed(Hidden, highlight))
      else
        var offset := NumberValue(lineNumberConfig);
        if offset < 0 then Err(NegativeOffset)
        else Ok(Parsed(Shown(offset), highlight))
  }

  lemma SplitWithoutSeparatorCount(s: string, sep: char)
    requires Count(s, sep) == 0
    ensures Split(s, sep) == [s]
  {
    CountZero(s, sep);
    SplitWithoutSeparator(s, sep);
  }

  /**
   * `deserializeHighlightDefinitions`: a missing or empty attribute has no
   * frames; otherwise the prefix is split off and the highlight part is cut
   * into frames on `|`, so there is always one frame more than there are `|`.
   */
  function DeserializeHighlightDefinitions(input: Option<string>): (r: Result<Definition>)
    ensures input.None? || input == Some("") ==> r == Ok(Definition(Hidden, []))
    ensures input.Some? && input.value != "" && r.Ok? ==>
      ParseHighlightDefinition(input.value).Ok?
      && |r.value.highlightSections| == Count(ParseHighlightDefinition(input.value).value.highlight, '|') + 1
    ensures input.Some? && Count(input.value, ':') > 1 ==> r == Err(MoreThanOneColon)
  {
    if input.None? then Ok(Definition(Hidden, []))
    else if input.value == "" then Ok(Definition(Hidden, []))
    else
      match ParseHighlightDefinition(input.value)
      case Err(message) => Err(message)
      case Ok(parsed) =>
        Ok(Definition(parsed.lineNumbers, ParseFrames(Split(parsed.highlight, '|'))))
  }

  // ---------------------------------------------------------------------
  // Rendering one frame back

  function SerializeSection(section: Section): string
  {
    match section
    case Column(start, from, to) =>
      NatToString(start) + (if from == to then "(" + NatToString(from) + ")"
                           else "(" + NatToString(from) + "-" + NatToString(to) + ")")
    case Range(start, end) => NatToString(start) + "-" + NatToString(end)
    case Single(start) => NatToString(start)
  }

  /** `serializeHighlightSection`: the sections of one frame joined by `,`. */
  function SerializeHighlightSection(frame: seq<Section>): string
  {
    Join(SectionTexts(frame), ',')
  }

  function SectionTexts(frame: seq<Section>): (r: seq<string>)
    ensures |r| == |frame| && forall i :: 0 <= i < |frame| ==> r[i] == SerializeSection(frame[i])
  {
    seq(|frame|, i requires 0 <= i < |frame| => SerializeSection(frame[i]))
  }

  // ---------------------------------------------------------------------
  // Round trip

  /** The captures whose span is the rendering of `section`. */
  function CapturesOf(section: Section): Captures
  {
    match section
    case Single(start) => Captures(NatToString(start), None, None, None)
    case Range(start, end) => Captures(NatToString(start), Some(NatToString(end)), None, None)
    case Column(start, from, to) =>
      Captures(NatToString(start), None, Some(NatToString(from)), if from == to then None else Some(NatToString(to)))
  }

  lemma AssembleRange(line: string, e: string)
    ensures Assemble(Captures(line, Some(e), None, None)) == line + "-" + e
  {
    assert Opt("-", Some(e)) == "-" + e;
  }

  lemma AssembleColumn(line: string, f: string)
    ensures Assemble(Captures(line, None, Some(f), None)) == line + ("(" + f + ")")
  {
    assert "(" + f + Opt("-", None) + ")" == "(" + f + ")";
  }

  lemma AssembleColumnRange(line: string, f: string, t: string)
    ensures Assemble(Captures(line, None, Some(f), Some(t))) == line + ("(" + f + "-" + t + ")")
  {
    assert "(" + f + Opt("-", Some(t)) + ")" == "(" + f + "-" + t + ")";
  }

  /** The captures of a section are well formed and spell out its rendering. */
  lemma CapturesOfSection(section: Section)
    ensures WellFormed(CapturesOf(section))
    ensures Assemble(CapturesOf(section)) == SerializeSection(section)
  {
    var line := NatToString(section.start);
    match section
    case Single(_) =>
      assert Assemble(CapturesOf(section)) == line + "";
    case Range(_, end) =>
      AssembleRange(line, NatToString(end));
    case Column(_, from, to) =>
      if from == to {
        AssembleColumn(line, NatToString(from));
      } else {
        AssembleColumnRange(line, NatToString(from), NatToString(to));
      }
  }

  /** Parsing the rendering of any section gives that section back. */
  lemma SectionRoundTrip(section: Section)
    ensures ParseSection(SerializeSection(section)) == Some(section)
  {
    var c := CapturesOf(section);
    CapturesOfSection(section);
    MatchAssembled(c);
    assert MatchSection(SerializeSection(section)) == Some(c);
    SectionOfCaptures(section);
  }

  /** The captures of a section stand for that section. */
  lemma SectionOfCaptures(section: Section)
    ensures WellFormed(CapturesOf(section)) && SectionOf(CapturesOf(section)) == section
  {
    CapturesOfSection(section);
    DigitsValueOfNatToString(section.start);
    match section
    case Single(_) =>
    case Range(_, end) => DigitsValueOfNatToString(end);
    case Column(_, from, to) => DigitsValueOfNatToString(from); DigitsValueOfNatToString(to);
  }

  lemma DigitsAvoid(d: string, c: char)
    requires AllDigits(d) && !IsDigit(c)
    ensures c !in d
  {
  }

  /** A rendered section holds only digits, `-`, `(` and `)`. */
  lemma SerializedSectionCharacters(section: Section, c: char)
    requires c == ',' || c == '|' || c == ':'
    ensures c !in SerializeSection(section)
  {
    DigitsAvoid(NatToString(section.start), c);
    match section
    case Single(_) =>
    case Range(_, end) => DigitsAvoid(NatToString(end), c);
    case Column(_, from, to) => DigitsAvoid(NatToString(from), c); DigitsAvoid(NatToString(to), c);
  }

  /** Pieces that each parse to the corresponding section parse, together, to the whole frame. */
  lemma {:induction false} ParseSectionsOf(texts: seq<string>, frame: seq<Section>)
    requires |texts| == |frame|
    requires forall i :: 0 <= i < |texts| ==> ParseSection(texts[i]) == Some(frame[i])
    ensures ParseSections(texts) == frame
  {
    if |texts| > 0 {
      var tail := texts[1..];
      forall i | 0 <= i < |tail| ensures ParseSection(tail[i]) == Some(frame[1..][i]) {
        assert tail[i] == texts[i + 1];
      }
      ParseSectionsOf(tail, frame[1..]);
      ParseSectionsCons(texts, frame[0]);
      assert [frame[0]] + frame[1..] == frame;
    }
  }

  /** A first piece that parses contributes its section in front. */
  lemma ParseSectionsCons(texts: seq<string>, sec: Section)
    requires |texts| > 0 && ParseSection(texts[0]) == Some(sec)
    ensures ParseSections(texts) == [sec] + ParseSections(texts[1..])
  {
  }

  lemma ParseSectionTexts(frame: seq<Section>)
    ensures ParseSections(SectionTexts(frame)) == frame
  {
    var texts := SectionTexts(frame);
    forall i | 0 <= i < |texts| ensures ParseSection(texts[i]) == Some(frame[i]) {
      SectionRoundTrip(frame[i]);
    }
    ParseSectionsOf(texts, frame);
  }

  /** A rendered frame contains neither `|` nor `:`. */
  lemma SerializedFrameCharacters(frame: seq<Section>, c: char)
    requires c == '|' || c == ':'
    ensures c !in SerializeHighlightSection(frame)
  {
    forall i | 0 <= i < |frame| ensures c !in SectionTexts(frame)[i] {
      SerializedSectionCharacters(frame[i], c);
    }
    JoinAvoids(SectionTexts(frame), ',', c);
  }

  /**
   * The round trip of the codec: cutting the rendering of a frame on `,` and
   * parsing every piece gives exactly the frame, for every frame (the empty
   * frame renders as "", whose one piece matches nothing).
   */
  lemma FrameRoundTrip(frame: seq<Section>)
    ensures ParseFrame(SerializeHighlightSection(frame)) == frame
  {
    if |frame| == 0 {
      assert SerializeHighlightSection(frame) == "";
      assert Split("", ',') == [""];
      assert MatchSection("") == None;
    } else {
      forall i | 0 <= i < |frame| ensures ',' !in SectionTexts(frame)[i] {
        SerializedSectionCharacters(frame[i], ',');
      }
      SplitJoin(SectionTexts(frame), ',');
      ParseSectionTexts(frame);
    }
  }

  lemma SerializedFrameNotEmpty(frame: seq<Section>)
    requires |frame| >= 1
    ensures |SerializeHighlightSection(frame)| >= 1
  {
    var texts := SectionTexts(frame);
    if |frame| > 1 {
      assert SerializeHighlightSection(frame) == texts[0] + [','] + Join(texts[1..], ',');
    }
  }

  // ---------------------------------------------------------------------
  // Whole attribute strings

  /** A prefix that makes the definition an error: a number below zero. */
  predicate NegativePrefix(p: string)
  {
    !IsNotNumber(p) && NumberValue(p) < 0
  }

  /**
   * The two error cases and nothing else: more than one `:`, or exactly one
   * `:` after a negative number. Every other string gives a definition.
   */
  lemma DeserializeErrorIff(input: string)
    ensures DeserializeHighlightDefinitions(Some(input)).Err? <==>
      Count(input, ':') > 1 || (Count(input, ':') == 1 && NegativePrefix(Split(input, ':')[0]))
  {
    if input == "" {
      assert Count(input, ':') == 0;
    }
  }

  /** The prefix `N`, a number and any other non-number before the single `:`. */
  lemma PrefixRules(p: string, highlight: string)
    requires ':' !in p && ':' !in highlight
    ensures p == "N" ==> ParseHighlightDefinition(p + ":" + highlight) == Ok(Parsed(Shown(0), highlight))
    ensures AllDigits(p) ==> ParseHighlightDefinition(p + ":" + highlight) == Ok(Parsed(Shown(DigitsValue(p)), highlight))
    ensures SignedDigits(p, '+') ==> ParseHighlightDefinition(p + ":" + highlight) == Ok(Parsed(Shown(DigitsValue(p[1..])), highlight))
    ensures NegativePrefix(p) ==> ParseHighlightDefinition(p + ":" + highlight) == Err(NegativeOffset)
    ensures IsNotNumber(p) && p != "N" ==> ParseHighlightDefinition(p + ":" + highlight) == Ok(Parsed(Hidden, highlight))
  {
    SplitAfterPiece(p, highlight, ':');
    SplitWithoutSeparator(highlight, ':');
    assert p + ":" + highlight == p + [':'] + highlight;
  }

  /** A `+` before the offset is read by `Number()` like no sign at all: `+5:1` shows line numbers from 5. */
  lemma PlusPrefixExample(input: string)
    requires input == "+5:1"
    ensures ParseHighlightDefinition(input) == Ok(Parsed(Shown(5), "1"))
  {
    var p, highlight := "+5", "1";
    assert input == p + ":" + highlight;
    assert p[1..] == "5" && DigitsValue("5") == 5;
    PrefixRules(p, highlight);
  }

  /** The frames of a frame list joined by `|`. */
  function FramesText(frames: seq<seq<Section>>): string
  {
    Join(RenderedFrames(frames), '|')
  }

  function RenderedFrames(frames: seq<seq<Section>>): (r: seq<string>)
    ensures |r| == |frames| && forall i :: 0 <= i < |frames| ==> r[i] == SerializeHighlightSection(frames[i])
  {
    seq(|frames|, i requires 0 <= i < |frames| => SerializeHighlightSection(frames[i]))
  }

  /** An attribute string for a definition: `N:` for offset 0, `<offset>:` otherwise, nothing when hidden. */
  function DefinitionText(d: Definition): string
  {
    match d.lineNumbers
    case Hidden => FramesText(d.highlightSections)
    case Shown(offset) => (if offset == 0 then "N" else NatToString(offset)) + ":" + FramesText(d.highlightSections)
  }

  lemma FramesTextRoundTrip(frames: seq<seq<Section>>)
    requires |frames| >= 1
    ensures ':' !in FramesText(frames)
    ensures ParseFrames(Split(FramesText(frames), '|')) == frames
  {
    var texts := RenderedFrames(frames);
    forall i | 0 <= i < |frames| ensures '|' !in texts[i] && ':' !in texts[i] {
      SerializedFrameCharacters(frames[i], '|');
      SerializedFrameCharacters(frames[i], ':');
    }
    JoinAvoids(texts, '|', ':');
    SplitJoin(texts, '|');
    forall i | 0 <= i < |frames| ensures ParseFrame(texts[i]) == frames[i] {
      FrameRoundTrip(frames[i]);
    }
  }

  /**
   * Deserializing the attribute string of a definition with at least one
   * frame gives the definition back (a hidden definition whose only frame is
   * empty would be the empty string, which has no frames).
   */
  lemma DefinitionRoundTrip(d: Definition)
    requires |d.highlightSections| >= 1
    requires d.lineNumbers.Hidden? ==> d.highlightSections != [[]]
    ensures DeserializeHighlightDefinitions(Some(DefinitionText(d))) == Ok(d)
  {
    var frames := d.highlightSections;
    var body := FramesText(frames);
    FramesTextRoundTrip(frames);
    match d.lineNumbers
    case Hidden =>
      if |frames| == 1 {
        assert frames[0] != [];
        SerializedFrameNotEmpty(frames[0]);
      } else {
        assert |body| >= 1;
      }
      CountZero(body, ':');
    case Shown(offset) =>
      var p := if offset == 0 then "N" else NatToString(offset);
      assert ':' !in p by {
        if offset != 0 { DigitsAvoid(p, ':'); }
      }
      PrefixRules(p, body);
      if offset != 0 {
        DigitsValueOfNatToString(offset);
      }
  }

  /** `25:` shows line numbers from 25 and has one empty frame (not none, as the doc comment says). */
  lemma OffsetOnly()
    ensures DeserializeHighlightDefinitions(Some("25:")) == Ok(Definition(Shown(25), [[]]))
  {
    var d := Definition(Shown(25), [[]]);
    assert NatToString(25) == "25";
    assert FramesText([[]]) == "";
    assert DefinitionText(d) == "25:";
    DefinitionRoundTrip(d);
  }

  lemma JoinTwo(a: string, b: string, sep: char)
    ensures Join([a, b], sep) == a + [sep] + b
  {
    assert [a, b][1..] == [b];
  }

  lemma JoinFour(a: string, b: string, c: string, d: string, sep: char)
    ensures Join([a, b, c, d], sep) == a + [sep] + b + [sep] + c + [sep] + d
  {
    assert [a, b, c, d][1..] == [b, c, d];
    assert [b, c, d][1..] == [c, d];
    JoinTwo(c, d, sep);
  }

  lemma FrameOfOne(frame: seq<Section>, a: string)
    requires |frame| == 1 && SerializeSection(frame[0]) == a
    ensures SerializeHighlightSection(frame) == a
  {
    assert SectionTexts(frame) == [a];
  }

  lemma FrameOfTwo(frame: seq<Section>, a: string, b: string)
    requires |frame| == 2 && SerializeSection(frame[0]) == a && SerializeSection(frame[1]) == b
    ensures SerializeHighlightSection(frame) == a + [','] + b
  {
    assert SectionTexts(frame) == [a, b];
    JoinTwo(a, b, ',');
  }

  lemma FrameTextA(f: seq<Section>)
    requires f == [Single(1), Single(2)]
    ensures SerializeHighlightSection(f) == "1,2"
  {
    FrameOfTwo(f, "1", "2");
  }

  lemma FrameTextB(f: seq<Section>)
    requires f == [Single(3), Range(5, 10)]
    ensures SerializeHighlightSection(f) == "3,5-10"
  {
    assert NatToString(10) == "10";
    FrameOfTwo(f, "3", "5-10");
  }

  lemma FrameTextC(f: seq<Section>)
    requires f == [Column(6, 1, 1)]
    ensures SerializeHighlightSection(f) == "6(1)"
  {
    FrameOfOne(f, "6(1)");
  }

  lemma FrameTextD(f: seq<Section>)
    requires f == [Column(6, 5, 10)]
    ensures SerializeHighlightSection(f) == "6(5-10)"
  {
    assert NatToString(10) == "10";
    FrameOfOne(f, "6(5-10)");
  }

  lemma FramesOfFour(frames: seq<seq<Section>>, a: string, b: string, c: string, d: string)
    requires |frames| == 4
    requires SerializeHighlightSection(frames[0]) == a && SerializeHighlightSection(frames[1]) == b
    requires SerializeHighlightSection(frames[2]) == c && SerializeHighlightSection(frames[3]) == d
    ensures FramesText(frames) == a + ['|'] + b + ['|'] + c + ['|'] + d
  {
    assert RenderedFrames(frames) == [a, b, c, d];
    JoinFour(a, b, c, d, '|');
  }

  /** The frames of the documented example render as written in its attribute. */
  lemma ExampleFramesText(frames: seq<seq<Section>>)
    requires frames == [[Single(1), Single(2)], [Single(3), Range(5, 10)], [Column(6, 1, 1)], [Column(6, 5, 10)]]
    ensures FramesText(frames) == "1,2|3,5-10|6(1)|6(5-10)"
  {
    FrameTextA(frames[0]);
    FrameTextB(frames[1]);
    FrameTextC(frames[2]);
    FrameTextD(frames[3]);
    FramesOfFour(frames, "1,2", "3,5-10", "6(1)", "6(5-10)");
    ExampleConcat("1,2", "3,5-10", "6(1)", "6(5-10)");
  }

  lemma ExampleConcat(a: string, b: string, c: string, d: string)
    requires a == "1,2" && b == "3,5-10" && c == "6(1)" && d == "6(5-10)"
    ensures a + ['|'] + b + ['|'] + c + ['|'] + d == "1,2|3,5-10|6(1)|6(5-10)"
  {
  }

  /**
   * The documented example, without a prefix: the four frames as documented,
   * but with line numbers hidden (the doc comment says they are shown).
   */
  lemma DocumentedExample(input: string, expected: Definition)
    requires input == "1,2|3,5-10|6(1)|6(5-10)"
    requires expected == Definition(Hidden, [
        [Single(1), Single(2)],
        [Single(3), Range(5, 10)],
        [Column(6, 1, 1)],
        [Column(6, 5, 10)]])
    ensures DeserializeHighlightDefinitions(Some(input)) == Ok(expected)
  {
    ExampleFramesText(expected.highlightSections);
    assert DefinitionText(expected) == input;
    DefinitionRoundTrip(expected);
  }

  /** A piece that does not start with a digit matches nothing and is dropped. */
  lemma NonDigitPieceDropped(piece: string)
    requires |piece| > 0 && !IsDigit(piece[0])
    ensures ParseSection(piece) == None
  {
  }

  /** A match has no parentheses at all, or a `(` and the closing `)` of its column group last. */
  lemma AssembledParens(c: Captures)
    requires WellFormed(c)
    ensures c.colFrom.None? ==> '(' !in Assemble(c) && ')' !in Assemble(c)
    ensures c.colFrom.Some? ==> '(' in Assemble(c) && Assemble(c)[|Assemble(c)| - 1] == ')'
  {
    DigitsAvoid(c.line, '(');
    DigitsAvoid(c.line, ')');
    if c.end.Some? {
      DigitsAvoid(c.end.value, '(');
      DigitsAvoid(c.end.value, ')');
    }
  }

  lemma MatchParens(s: string)
    ensures MatchSection(s).Some? ==> ('(' !in s && ')' !in s) || ('(' in s && s[|s| - 1] == ')')
  {
    var m := MatchSection(s);
    if m.Some? {
      AssembledParens(m.value);
    }
  }

  /**
   * A piece with unbalanced parentheses (a `(` whose piece does not end in
   * `)`, or a `)` without any `(`) matches nothing and is dropped: it is
   * not reported as an error.
   */
  lemma UnbalancedPieceDropped(piece: string)
    requires ('(' in piece && piece[|piece| - 1] != ')') || ('(' !in piece && ')' in piece)
    ensures ParseSection(piece) == None
  {
    MatchParens(piece);
  }

  /** A frame of two pieces neither of which matches is empty. */
  lemma FrameOfTwoDropped(x: string, y: string)
    requires ',' !in x && ',' !in y
    requires ParseSection(x) == None && ParseSection(y) == None
    ensures ParseFrame(x + [','] + y) == []
  {
    SplitWithoutSeparator(y, ',');
    SplitAfterPiece(x, y, ',');
    assert Split(x + [','] + y, ',') == [x, y];
    assert [x, y][1..] == [y];
    assert [y][1..] == [];
    assert ParseSections([x, y]) == ParseSections([y]);
  }

  /**
   * Two column intervals inside one pair of parentheses: the frame is split
   * on every comma before any piece is matched, so `6(1-3,5-7)` falls apart
   * into `6(1-3` and `5-7)`, and both are dropped.
   */
  lemma ColumnListDropped(frame: string)
    requires frame == "6(1-3,5-7)"
    ensures ParseFrame(frame) == []
  {
    var x, y := "6(1-3", "5-7)";
    ColumnListPieces(frame, x, y);
    OpenPiece(x);
    ClosePiece(y);
    FrameOfTwoDropped(x, y);
  }

  lemma ColumnListPieces(frame: string, x: string, y: string)
    requires frame == "6(1-3,5-7)" && x == "6(1-3" && y == "5-7)"
    ensures frame == x + [','] + y && ',' !in x && ',' !in y
  {
  }

  lemma OpenPiece(x: string)
    requires x == "6(1-3"
    ensures ParseSection(x) == None
  {
    assert x[1] == '(';
    UnbalancedPieceDropped(x);
  }

  lemma ClosePiece(y: string)
    requires y == "5-7)"
    ensures ParseSection(y) == None
  {
    assert y[3] == ')';
    UnbalancedPieceDropped(y);
  }

  /** A frame of two pieces of which only the second matches holds only that piece's section. */
  lemma FrameOfDroppedAndOne(x: string, y: string, sec: Section)
    requires ',' !in x && ',' !in y
    requires ParseSection(x) == None && ParseSection(y) == Some(sec)
    ensures ParseFrame(x + [','] + y) == [sec]
  {
    SplitWithoutSeparator(y, ',');
    SplitAfterPiece(x, y, ',');
    assert Split(x + [','] + y, ',') == [x, y];
    assert [x, y][1..] == [y];
    assert [y][1..] == [];
    assert ParseSections([y]) == [sec] + ParseSections([]);
    assert ParseSections([x, y]) == ParseSections([y]);
  }

  /** A non-empty definition without a colon hides line numbers and parses every `|`-piece. */
  lemma NoColonDefinition(input: string)
    requires input != "" && ':' !in input
    ensures DeserializeHighlightDefinitions(Some(input)) == Ok(Definition(Hidden, ParseFrames(Split(input, '|'))))
  {
    CountZero(input, ':');
  }

  /** The first frame of the second documented example: `X1` is not a section, so only line 2 is left. */
  lemma XFrame(frame: string)
    requires frame == "X1,2"
    ensures ParseFrame(frame) == [Single(2)]
  {
    assert frame == "X1" + [','] + "2";
    NonDigitPieceDropped("X1");
    assert SerializeSection(Single(2)) == "2";
    SectionRoundTrip(Single(2));
    FrameOfDroppedAndOne("X1", "2", Single(2));
  }

  /**
   * Prefixing the first frame of a definition without colons changes that
   * frame only.
   */
  lemma FirstFrameReplaced(first: string, other: string, rest: string, d: Definition, f: seq<Section>)
    requires ':' !in first && ':' !in other && ':' !in rest && '|' !in first && '|' !in other
    requires DeserializeHighlightDefinitions(Some(first + ['|'] + rest)) == Ok(d)
    requires ParseFrame(other) == f
    ensures DeserializeHighlightDefinitions(Some(other + ['|'] + rest)) ==
      Ok(Definition(Hidden, [f] + d.highlightSections[1..]))
  {
    var a := first + ['|'] + rest;
    var b := other + ['|'] + rest;
    assert ':' !in a && ':' !in b;
    NoColonDefinition(a);
    NoColonDefinition(b);
    SplitAfterPiece(first, rest, '|');
    SplitAfterPiece(other, rest, '|');
    var tail := Split(rest, '|');
    ParseFramesCons(first, tail);
    ParseFramesCons(other, tail);
    assert d.highlightSections[1..] == ParseFrames(tail);
  }

  lemma ParseFramesCons(x: string, tail: seq<string>)
    ensures ParseFrames([x] + tail) == [ParseFrame(x)] + ParseFrames(tail)
  {
    var l := ParseFrames([x] + tail);
    var r := [ParseFrame(x)] + ParseFrames(tail);
    assert |l| == |r|;
    forall i | 0 <= i < |l| ensures l[i] == r[i] {
      if i > 0 {
        assert ([x] + tail)[i] == tail[i - 1];
      }
    }
  }

  /** The first documented text is its first frame, a bar and the rest. */
  lemma DocumentedTextShape(documented: string, rest: string)
    requires documented == "1,2|3,5-10|6(1)|6(5-10)" && rest == "3,5-10|6(1)|6(5-10)"
    ensures documented == "1,2" + ['|'] + rest && ':' !in rest
  {
  }

  /** The second documented text is its first frame, a bar and the same rest. */
  lemma PrefixedTextShape(prefixed: string, rest: string)
    requires prefixed == "X1,2|3,5-10|6(1)|6(5-10)" && rest == "3,5-10|6(1)|6(5-10)"
    ensures prefixed == "X1,2" + ['|'] + rest
  {
  }

  lemma FirstFramesAvoid(a: string, b: string)
    requires a == "1,2" && b == "X1,2"
    ensures ':' !in a && ':' !in b && '|' !in a && '|' !in b
  {
  }

  /**
   * The second documented example: with the `X` in front of the first
   * frame and no colon, line numbers are hidden as documented, but the
   * first frame loses line 1 (the doc comment keeps it).
   */
  lemma XPrefixedExample(input: string, expected: Definition)
    requires input == "X1,2|3,5-10|6(1)|6(5-10)"
    requires expected == Definition(Hidden, [
        [Single(2)],
        [Single(3), Range(5, 10)],
        [Column(6, 1, 1)],
        [Column(6, 5, 10)]])
    ensures DeserializeHighlightDefinitions(Some(input)) == Ok(expected)
  {
    var rest := "3,5-10|6(1)|6(5-10)";
    var documentedText := "1,2|3,5-10|6(1)|6(5-10)";
    var documented := Definition(Hidden, [
        [Single(1), Single(2)],
        [Single(3), Range(5, 10)],
        [Column(6, 1, 1)],
        [Column(6, 5, 10)]]);
    DocumentedTextShape(documentedText, rest);
    PrefixedTextShape(input, rest);
    FirstFramesAvoid("1,2", "X1,2");
    DocumentedExample(documentedText, documented);
    XFrame("X1,2");
    FirstFrameReplaced("1,2", "X1,2", rest, documented, [Single(2)]);
    ExampleFramesShared(documented, expected);
  }

  lemma ExampleFramesShared(documented: Definition, expected: Definition)
    requires documented == Definition(Hidden, [
        [Single(1), Single(2)],
        [Single(3), Range(5, 10)],
        [Column(6, 1, 1)],
        [Column(6, 5, 10)]])
    requires expected == Definition(Hidden, [
        [Single(2)],
        [Single(3), Range(5, 10)],
        [Column(6, 1, 1)],
        [Column(6, 5, 10)]])
    ensures expected == Definition(Hidden, [[Single(2)]] + documented.highlightSections[1..])
  {
  }

  /** Two colons are an error, whatever surrounds them. */
  lemma TwoColonsExample()
    ensures DeserializeHighlightDefinitions(Some("1:2:3")).Err?
  {
    assert Count("1:2:3", ':') == 2;
  }
}
