/**
 * The pure decisions of the highlight plugin (`src/plugins/highlight/plugin.ts`):
 * the configuration defaults, the fragment-index counter, which block of a
 * code sample shows which frame, and when `createFragmentCodeBlocks` stops
 * early.
 */
module Plugin {
  import opened Wrappers
  import opened Text
  import opened Serialize

  // ---------------------------------------------------------------------
  // getConfig

  /** What a configuration key holds, as far as `typeof` can tell. */
  datatype ConfigValue = Absent | Bool(b: bool) | NotBool

  /** The two keys of the `highlight` configuration that are read. */
  datatype RawConfig = RawConfig(highlightOnLoad: ConfigValue, escapeHTML: ConfigValue)

  datatype Config = Config(highlightOnLoad: bool, escapeHTML: bool)

  /** A boolean is taken as it is; anything else, or nothing, means `true`. */
  function BoolOrTrue(v: ConfigValue): bool
  {
    if v.Bool? then v.b else true
  }

  /** `getConfig`; a missing `highlight` section reads as an empty one. */
  function GetConfig(highlight: Option<RawConfig>): (c: Config)
    ensures highlight.None? ==> c == Config(true, true)
    ensures highlight.Some? ==>
      && (c.highlightOnLoad <==> !(highlight.value.highlightOnLoad == Bool(false)))
      && (c.escapeHTML <==> !(highlight.value.escapeHTML == Bool(false)))
  {
    var raw := if highlight.None? then RawConfig(Absent, Absent) else highlight.value;
    Config(BoolOrTrue(raw.highlightOnLoad), BoolOrTrue(raw.escapeHTML))
  }

  // ---------------------------------------------------------------------
  // parseInt(s, 10)

  /** The longest run of decimal digits at the start, read as a number; `None` when there is none. */
  function ParseDigits(u: string): (r: Option<nat>)
    ensures r.None? <==> |u| == 0 || !IsDigit(u[0])
  {
    var k := DigitRun(u);
    if k == 0 then None else Some(DigitsValue(u[..k]))
  }

  /** An optional sign, then digits. */
  function ParseSigned(t: string): Option<int>
  {
    if |t| > 0 && t[0] == '-' then
      (match ParseDigits(t[1..]) case None => None case Some(m) => Some(0 - m))
    else if |t| > 0 && t[0] == '+' then
      (match ParseDigits(t[1..]) case None => None case Some(m) => Some(m))
    else
      (match ParseDigits(t) case None => None case Some(m) => Some(m))
  }

  /**
   * `parseInt(s, 10)`: leading white space, an optional sign, then the
   * longest run of decimal digits; `None` (NaN) when there is no digit.
   */
  function ParseInt(s: string): Option<int>
  {
    ParseSigned(s[LeadingWhitespace(s)..])
  }

  lemma ParseDigitsOfNumber(n: nat, rest: string)
    requires |rest| == 0 || !IsDigit(rest[0])
    ensures ParseDigits(NatToString(n) + rest) == Some(n)
  {
    var d := NatToString(n);
    DigitRunOfDigitsThen(d, rest);
    assert (d + rest)[..|d|] == d;
    DigitsValueOfNatToString(n);
  }

  /**
   * A decimal number, with optional leading white space and a minus sign,
   * followed by anything that does not start with a digit, parses to its
   * value.
   */
  lemma ParseIntOfNumber(ws: string, negative: bool, n: nat, rest: string)
    requires IsBlank(ws)
    requires |rest| == 0 || !IsDigit(rest[0])
    ensures ParseInt(ws + (if negative then "-" else "") + NatToString(n) + rest) == Some(if negative then 0 - n else n)
  {
    var d := NatToString(n);
    var u := d + rest;
    ParseDigitsOfNumber(n, rest);
    assert IsDigit(u[0]);
    var t := (if negative then "-" else "") + u;
    assert ws + (if negative then "-" else "") + d + rest == ws + t;
    ParseIntAfterBlank(ws, t);
    if negative {
      ParseSignedMinus(u, n);
    } else {
      assert t == u;
      ParseSignedDigits(u, n);
    }
  }

  lemma ParseIntAfterBlank(ws: string, t: string)
    requires IsBlank(ws)
    requires |t| == 0 || !IsWhitespace(t[0])
    ensures ParseInt(ws + t) == ParseSigned(t)
  {
    LeadingWhitespaceOfBlankThen(ws, t);
  }

  lemma ParseSignedMinus(u: string, m: nat)
    requires ParseDigits(u) == Some(m)
    ensures ParseSigned("-" + u) == Some(0 - m)
  {
    assert ("-" + u)[1..] == u;
  }

  lemma ParseSignedDigits(u: string, m: nat)
    requires |u| > 0 && IsDigit(u[0]) && ParseDigits(u) == Some(m)
    ensures ParseSigned(u) == Some(m)
  {
  }

  /** White space followed by text that does not start with white space: the white space is the whole leading run. */
  lemma {:induction false} LeadingWhitespaceOfBlankThen(ws: string, t: string)
    requires IsBlank(ws)
    requires |t| == 0 || !IsWhitespace(t[0])
    ensures LeadingWhitespace(ws + t) == |ws| && (ws + t)[|ws|..] == t
  {
    if |ws| > 0 {
      assert (ws + t)[1..] == ws[1..] + t;
      LeadingWhitespaceOfBlankThen(ws[1..], t);
    } else {
      assert ws + t == t;
    }
  }

  /** Text that holds no digit at all is NaN. */
  lemma ParseIntNoDigits(s: string)
    requires forall i :: 0 <= i < |s| ==> !IsDigit(s[i])
    ensures ParseInt(s) == None
  {
  }

  // ---------------------------------------------------------------------
  // FragmentIndexHandler

  /**
   * The handler's state. A NaN value never reaches an attribute, since it
   * leaves the handler inactive; it is kept here as 0.
   */
  datatype FragmentIndex = FragmentIndex(active: bool, value: int)

  /** The constructor, from the block's `data-fragment-index` attribute (`None` when absent). */
  function NewFragmentIndex(original: Option<string>): (h: FragmentIndex)
    ensures h.active <==> original.Some? && ParseInt(original.value).Some?
    ensures h.active ==> h.value == ParseInt(original.value).value
    ensures original.None? ==> h.value == 0
  {
    var parsed := ParseInt(if original.None? then "0" else original.value);
    if original.None? then
      assert "0" == "" + "" + NatToString(0) + "";
      ParseIntOfNumber("", false, 0, "");
      FragmentIndex(false, parsed.value)
    else FragmentIndex(parsed.Some?, if parsed.Some? then parsed.value else 0)
  }

  /** The handler after one call, and the index written to the block, if any. */
  datatype Applied = Applied(handler: FragmentIndex, written: Option<int>)

  /** `applyFrameIndex`: an active handler writes its value and counts up; an inactive one does nothing. */
  function ApplyFrameIndex(h: FragmentIndex): (r: Applied)
    ensures !h.active ==> r == Applied(h, None)
    ensures h.active ==> r.handler == FragmentIndex(true, h.value + 1) && r.written == Some(h.value)
  {
    if !h.active then Applied(h, None)
    else Applied(h.(value := h.value + 1), Some(h.value))
  }

  /** The indices written by `n` calls in a row. */
  function ApplyRepeatedly(h: FragmentIndex, n: nat): (w: seq<Option<int>>)
    ensures |w| == n
    decreases n
  {
    if n == 0 then []
    else
      var step := ApplyFrameIndex(h);
      [step.written] + ApplyRepeatedly(step.handler, n - 1)
  }

  /** The `k`-th call (counting from 1) of an active handler writes `initial + k - 1`; an inactive one never writes. */
  lemma {:induction false} ApplyRepeatedlyWrites(h: FragmentIndex, n: nat)
    ensures forall k :: 0 <= k < n ==>
      ApplyRepeatedly(h, n)[k] == (if h.active then Some(h.value + k) else None)
    decreases n
  {
    if n > 0 {
      var step := ApplyFrameIndex(h);
      ApplyRepeatedlyWrites(step.handler, n - 1);
      var w := ApplyRepeatedly(h, n);
      forall k | 0 <= k < n ensures w[k] == (if h.active then Some(h.value + k) else None) {
        if k > 0 {
          assert w[k] == ApplyRepeatedly(step.handler, n - 1)[k - 1];
        }
      }
    }
  }

  // ---------------------------------------------------------------------
  // One block per frame (createFragmentCodeBlocks, lines 165-194)

  /**
   * A `<code>` element showing one frame: whether it is a clone made a
   * fragment, its `data-fragment-index`, and its `data-line-numbers`.
   */
  datatype Block = Block(fragment: bool, fragmentIndex: Option<int>, lineNumbers: string)

  /**
   * The `map` over the frames: frame 0 stays on the original block, which
   * has lost its `data-fragment-index`; every further frame gets a clone
   * made a fragment and numbered by the handler. Every block is then given
   * its frame's serialisation.
   */
  method CreateFragmentBlocks(frames: seq<seq<Section>>, initial: FragmentIndex) returns (blocks: seq<Block>)
    ensures |blocks| == |frames|
    ensures |blocks| > 0 ==> !blocks[0].fragment && blocks[0].fragmentIndex.None?
    ensures forall i :: 1 <= i < |blocks| ==> blocks[i].fragment
    ensures forall i :: 1 <= i < |blocks| ==>
      blocks[i].fragmentIndex == (if initial.active then Some(initial.value + i - 1) else None)
    ensures forall i :: 0 <= i < |blocks| ==> ParseFrame(blocks[i].lineNumbers) == frames[i]
  {
    var handler := initial;
    blocks := [];
    var i := 0;
    while i < |frames|
      invariant 0 <= i <= |frames| && |blocks| == i
      invariant handler == FragmentIndex(initial.active, initial.value + (if i == 0 || !initial.active then 0 else i - 1))
      invariant forall j :: 0 <= j < i ==> blocks[j] == ExpectedBlock(frames, initial, j)
    {
      var text := SerializeHighlightSection(frames[i]);
      if i == 0 {
        blocks := blocks + [Block(false, None, text)];
      } else {
        var applied := ApplyFrameIndex(handler);
        handler := applied.handler;
        blocks := blocks + [Block(true, applied.written, text)];
      }
      i := i + 1;
    }
    ExpectedBlocksFacts(blocks, frames, initial);
  }

  /** What the expected blocks say about fragments, indices and line numbers. */
  lemma ExpectedBlocksFacts(blocks: seq<Block>, frames: seq<seq<Section>>, initial: FragmentIndex)
    requires |blocks| == |frames|
    requires forall j :: 0 <= j < |blocks| ==> blocks[j] == ExpectedBlock(frames, initial, j)
    ensures |blocks| > 0 ==> !blocks[0].fragment && blocks[0].fragmentIndex.None?
    ensures forall i :: 1 <= i < |blocks| ==> blocks[i].fragment
    ensures forall i :: 1 <= i < |blocks| ==>
      blocks[i].fragmentIndex == (if initial.active then Some(initial.value + i - 1) else None)
    ensures forall i :: 0 <= i < |blocks| ==> ParseFrame(blocks[i].lineNumbers) == frames[i]
  {
    forall j | 1 <= j < |blocks|
      ensures blocks[j].fragment
      ensures blocks[j].fragmentIndex == (if initial.active then Some(initial.value + j - 1) else None)
    {
      assert blocks[j] == ExpectedBlock(frames, initial, j);
    }
    forall j | 0 <= j < |blocks| ensures ParseFrame(blocks[j].lineNumbers) == frames[j] {
      assert blocks[j] == ExpectedBlock(frames, initial, j);
      FrameRoundTrip(frames[j]);
    }
  }

  /** The index the handler writes on the clone of frame `j`. */
  function ExpectedIndex(initial: FragmentIndex, j: nat): Option<int>
  {
    if j == 0 || !initial.active then None else Some(initial.value + j - 1)
  }

  /** The block of frame `j`, stated without the handler's state. */
  function ExpectedBlock(frames: seq<seq<Section>>, initial: FragmentIndex, j: nat): Block
    requires j < |frames|
  {
    Block(j > 0, ExpectedIndex(initial, j), SerializeHighlightSection(frames[j]))
  }

  // ---------------------------------------------------------------------
  // createFragmentCodeBlocks: where it stops

  /** How the line-number gutter is set up. */
  datatype Gutter = Gutter(showLineNumbers: bool, startFrom: Option<string>)

  datatype Outcome =
    | NothingToDo
    | ConfigError(logged: string)
    | NoFrames(gutter: Gutter)
    | Fragments(gutter: Gutter, blocks: seq<Block>)

  /**
   * Shown line numbers set `data-show-line-numbers`, and `data-ln-start-from`
   * only for a non-zero offset (0 is falsy).
   */
  function GutterOf(lineNumbers: LineNumbers): (g: Gutter)
    ensures g.showLineNumbers <==> lineNumbers.Shown?
    ensures g.startFrom.Some? <==> lineNumbers.Shown? && lineNumbers.offset != 0
    ensures g.startFrom.Some? ==> AllDigits(g.startFrom.value) && DigitsValue(g.startFrom.value) == lineNumbers.offset
  {
    match lineNumbers
    case Hidden => Gutter(false, None)
    case Shown(offset) =>
      DigitsValueOfNatToString(offset);
      Gutter(true, if offset != 0 then Some(NatToString(offset)) else None)
  }

  /**
   * The first block keeps the original and carries no index; every later
   * block is a fragment, numbered on from the handler's start when the
   * handler is active and left unnumbered otherwise.
   */
  predicate NumberedFrom(blocks: seq<Block>, h: FragmentIndex)
  {
    && (|blocks| > 0 ==> !blocks[0].fragment && blocks[0].fragmentIndex.None?)
    && forall i :: 1 <= i < |blocks| ==>
      blocks[i].fragment && blocks[i].fragmentIndex == (if h.active then Some(h.value + i - 1) else None)
  }

  /**
   * `createFragmentCodeBlocks` on a block's HTML, its `data-code-config`
   * and its `data-fragment-index`.
   */
  method CreateFragmentCodeBlocks(html: string, codeConfig: Option<string>, fragmentIndex: Option<string>)
    returns (r: Outcome)
    ensures r.NothingToDo? <==> IsBlank(html)
    ensures !IsBlank(html) ==>
      (r.ConfigError? <==> DeserializeHighlightDefinitions(codeConfig).Err?)
    ensures r.ConfigError? ==>
      r.logged == "Code block config error: " + DeserializeHighlightDefinitions(codeConfig).message
    ensures r.NoFrames? ==> DeserializeHighlightDefinitions(codeConfig) == Ok(Definition(DeserializeHighlightDefinitions(codeConfig).value.lineNumbers, []))
    ensures r.NoFrames? ==> r.gutter == GutterOf(DeserializeHighlightDefinitions(codeConfig).value.lineNumbers)
    ensures r.Fragments? ==>
      var d := DeserializeHighlightDefinitions(codeConfig);
      && d.Ok? && |r.blocks| == |d.value.highlightSections| > 0
      && r.gutter == GutterOf(d.value.lineNumbers)
      && forall i :: 0 <= i < |r.blocks| ==> ParseFrame(r.blocks[i].lineNumbers) == d.value.highlightSections[i]
    ensures r.Fragments? ==> NumberedFrom(r.blocks, NewFragmentIndex(fragmentIndex))
  {
    if IsBlank(html) {
      return NothingToDo;
    }
    var definition := DeserializeHighlightDefinitions(codeConfig);
    if definition.Err? {
      return ConfigError("Code block config error: " + definition.message);
    }
    var gutter := GutterOf(definition.value.lineNumbers);
    if |definition.value.highlightSections| == 0 {
      return NoFrames(gutter);
    }
    var h := NewFragmentIndex(fragmentIndex);
    var blocks := CreateFragmentBlocks(definition.value.highlightSections, h);
    assert NumberedFrom(blocks, h);
    r := Fragments(gutter, blocks);
  }

  /**
   * A block with a non-blank text reaches fragment creation exactly when
   * its configuration parses to at least one frame; an absent or empty
   * configuration never does.
   */
  lemma NoFramesWithoutConfig(codeConfig: Option<string>)
    ensures codeConfig.None? || codeConfig == Some("") ==>
      DeserializeHighlightDefinitions(codeConfig) == Ok(Definition(Hidden, []))
    ensures codeConfig.Some? && codeConfig.value != "" && DeserializeHighlightDefinitions(codeConfig).Ok? ==>
      |DeserializeHighlightDefinitions(codeConfig).value.highlightSections| > 0
  {
  }
}
