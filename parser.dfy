/**
 * The ECMA-48 node parser (src/parser.rs).
 *
 * The Rust parser walks a clonable `Chars` cursor; here a cursor is the
 * remaining text itself, so "the cursor after a match" is a suffix of the
 * input. Every sub-parser answers with a three-way `TryResult`: a match with
 * the remaining text, "definitely not this kind" (`NoMatch`), or "the input
 * ran out before this could be decided" (`Indeterminate`). Rust's `?` becomes
 * an explicit `match` that passes both failures on unchanged.
 *
 * The pure compositions (`Parse*`) use closed-form specification functions
 * (`SkipDelimiter`, `CaptureGroup`, `CaptureGroupLazy`,
 * `CaptureCharacterString`, `Parse`); the loops of the source are the
 * methods `ScanDelimiter`, `ScanGroup`, `ScanGroupLazy`,
 * `ScanCharacterString` and `ParseNode`, each proved to compute its
 * specification function.
 */
module Parser {
  import opened Wrappers

  const ESC: char := '\U{1B}'
  const BEL: char := '\U{07}'
  /** String Terminator (ECMA-48 section 8.3.143), ESC 05/12 */
  const ST: string := [ESC, '\\']
  /** Control Sequence Introducer in its 7-bit form, ESC 05/11 */
  const CSI: string := [ESC, '[']

  // The five openings of a control string (ECMA-48 section 5.6)
  const DCS: char := '\U{50}'
  const SOS: char := '\U{58}'
  const OSC: char := '\U{5D}'
  const PM: char := '\U{5E}'
  const APC: char := '\U{5F}'

  datatype Node =
    | Text(text: string)
    | C0Control(code: char)
    | C1Control(code: char)
    | ControlSequence(parameterBytes: Option<string>, intermediateBytes: Option<string>, finalByte: char)
    | IndependentControlFunction(code: char)
    | ControlString(opening: char, characterString: string)
    | Unknown(code: char)

  /** What `parse` returns: a node and the text after it, or "need more input". */
  datatype NodeParseResult = NodeMatch(rest: string, node: Node) | NodeIndeterminate

  /** `TryIntermediateResult<T>` of the source. */
  datatype TryResult<T> = Match(rest: string, value: T) | NoMatch | Indeterminate

  /** The character predicates the source passes to its capture functions. */
  datatype CharClass =
    | Range(lo: char, hi: char)   // `range.contains(&ch)`
    | Opening                     // `matches!(ch, APC | DCS | OSC | PM | SOS)`
    | NonControl                  // `!ch.is_control()`
    | AnyChar                     // `|_| true`

  const C0Set: CharClass := Range('\U{00}', '\U{1F}')
  const C1Set: CharClass := Range('\U{40}', '\U{5F}')
  const ParameterByte: CharClass := Range('\U{30}', '\U{3F}')
  const IntermediateByte: CharClass := Range('\U{20}', '\U{2F}')
  const FinalByte: CharClass := Range('\U{40}', '\U{7E}')
  const IndependentFunction: CharClass := Range('\U{60}', '\U{7E}')

  /** Rust's `char::is_control`: the Unicode general category Cc. */
  predicate IsControl(c: char) {
    c <= '\U{1F}' || ('\U{7F}' <= c <= '\U{9F}')
  }

  predicate Accepts(cls: CharClass, c: char) {
    match cls
    case Range(lo, hi) => lo <= c <= hi
    case Opening => c == APC || c == DCS || c == OSC || c == PM || c == SOS
    case NonControl => !IsControl(c)
    case AnyChar => true
  }

  predicate AllAccepted(s: string, cls: CharClass) {
    forall j :: 0 <= j < |s| ==> Accepts(cls, s[j])
  }

  /** The length of the longest prefix of `s` whose characters `cls` accepts. */
  function Run(s: string, cls: CharClass): (n: nat)
    ensures n <= |s|
    ensures AllAccepted(s[..n], cls)
    ensures n < |s| ==> !Accepts(cls, s[n])
  {
    if s == [] || !Accepts(cls, s[0]) then 0
    else
      var n := 1 + Run(s[1..], cls);
      assert s[..n] == [s[0]] + s[1..][..n - 1];
      n
  }

  /** `t` is what remains of `s` after at least one character was consumed. */
  predicate IsStrictSuffix(t: string, s: string) {
    |t| < |s| && s[|s| - |t|..] == t
  }

  // ---------------------------------------------------------------------
  // Combinators (parser.rs:69-155)
  // ---------------------------------------------------------------------

  /** `TryIntermediateResult::optional`: a missing group is a match of nothing. */
  function Optional<T>(t: TryResult<T>, s: string): (r: TryResult<Option<T>>)
    ensures !r.NoMatch?
    ensures r.Indeterminate? <==> t.Indeterminate?
    ensures r.Match? && r.value.None? <==> t.NoMatch?
    ensures r.Match? && r.value.None? ==> r.rest == s
    ensures t.Match? ==> r == Match(t.rest, Some(t.value))
  {
    match t
    case Match(rest, v) => Match(rest, Some(v))
    case NoMatch => Match(s, None)
    case Indeterminate => Indeterminate
  }

  /**
   * `skip_delimiter`, in closed form: the prefix is there, the input is still
   * too short to tell, or the input differs from the prefix.
   */
  function SkipDelimiter(s: string, prefix: string): (r: TryResult<()>)
    ensures r.Match? ==> s == prefix + r.rest
    ensures r.Indeterminate? <==> |s| < |prefix| && s == prefix[..|s|]
  {
    if prefix <= s then Match(s[|prefix|..], ())
    else if s < prefix then Indeterminate
    else NoMatch
  }

  /** `skip_delimiter` answers NoMatch exactly when the input and the prefix differ at some common index. */
  lemma SkipDelimiterMismatch(s: string, prefix: string)
    ensures SkipDelimiter(s, prefix).NoMatch? <==> exists i :: 0 <= i < |s| && i < |prefix| && s[i] != prefix[i]
  {
    if prefix <= s || s < prefix {
      assert forall i :: 0 <= i < |s| && i < |prefix| ==> s[i] == prefix[i];
    } else if |prefix| <= |s| {
      assert prefix != s[..|prefix|];
      var i :| 0 <= i < |prefix| && prefix[i] != s[..|prefix|][i];
    } else {
      assert s != prefix[..|s|];
      var i :| 0 <= i < |s| && s[i] != prefix[..|s|][i];
    }
  }

  /** `capture_single` / `capture_single_range`: one accepted character. */
  function CaptureSingle(s: string, cls: CharClass): (r: TryResult<char>)
    ensures r.Indeterminate? <==> s == []
    ensures r.Match? <==> s != [] && Accepts(cls, s[0])
    ensures r.Match? ==> r.value == s[0] && r.rest == s[1..] && Accepts(cls, r.value)
  {
    if s == [] then Indeterminate
    else if Accepts(cls, s[0]) then Match(s[1..], s[0])
    else NoMatch
  }

  /**
   * `capture_group` / `capture_group_range`: a non-empty run of accepted
   * characters, which is only decided once a character outside the run is seen.
   */
  function CaptureGroup(s: string, cls: CharClass): (r: TryResult<string>)
    ensures r.NoMatch? <==> s != [] && !Accepts(cls, s[0])
    ensures r.Indeterminate? <==> AllAccepted(s, cls)
    ensures r.Match? ==>
      && r.value != [] && s == r.value + r.rest && AllAccepted(r.value, cls)
      && r.rest != [] && !Accepts(cls, r.rest[0])
  {
    match CaptureSingle(s, cls)
    case NoMatch => NoMatch
    case Indeterminate => Indeterminate
    case Match(_, _) =>
      var n := Run(s, cls);
      if n == |s| then Indeterminate else Match(s[n..], s[..n])
  }

  /**
   * `capture_group_lazy`: like `CaptureGroup`, but the end of the input ends
   * the run instead of leaving it undecided.
   */
  function CaptureGroupLazy(s: string, cls: CharClass): (r: TryResult<string>)
    ensures r.NoMatch? <==> s != [] && !Accepts(cls, s[0])
    ensures r.Indeterminate? <==> s == []
    ensures r.Match? ==>
      && r.value != [] && s == r.value + r.rest && AllAccepted(r.value, cls)
      && (r.rest == [] || !Accepts(cls, r.rest[0]))
  {
    match CaptureSingle(s, cls)
    case NoMatch => NoMatch
    case Indeterminate => Indeterminate
    case Match(_, _) =>
      var n := Run(s, cls);
      Match(s[n..], s[..n])
  }

  /** Position `i` is where a character string stops: BEL, ESC \, or an ESC that ends the input. */
  predicate Stops(s: string, i: nat)
    requires i < |s|
  {
    s[i] == BEL || (s[i] == ESC && (i + 1 == |s| || s[i + 1] == '\\'))
  }

  /** The first stop at or after `from`, or `|s|` when there is none. */
  function BodyEnd(s: string, from: nat): (n: nat)
    requires from <= |s|
    ensures from <= n <= |s|
    ensures forall j :: from <= j < n ==> !Stops(s, j)
    ensures n < |s| ==> Stops(s, n)
    decreases |s| - from
  {
    if from == |s| || Stops(s, from) then from else BodyEnd(s, from + 1)
  }

  /** No BEL and no String Terminator occurs in `b`. */
  predicate NoTerminatorIn(b: string) {
    forall j :: 0 <= j < |b| ==> b[j] != BEL && !(b[j] == ESC && j + 1 < |b| && b[j + 1] == '\\')
  }

  /**
   * `capture_character_string`: everything up to the first ST or BEL; the
   * terminator is consumed but not returned. Without a terminator the string
   * may still be growing.
   */
  function CaptureCharacterString(s: string): (r: TryResult<string>)
    ensures !r.NoMatch?
    ensures r.Indeterminate? <==> NoTerminatorIn(s)
    ensures r.Match? ==>
      && NoTerminatorIn(r.value)
      && (s == r.value + ST + r.rest || s == r.value + [BEL] + r.rest)
  {
    var n := BodyEnd(s, 0);
    NoTerminatorBeforeStop(s, n);
    if n == |s| then
      assert s[..n] == s;
      Indeterminate
    else if s[n] == BEL then
      assert s == s[..n] + [BEL] + s[n + 1..];
      Match(s[n + 1..], s[..n])
    else if n + 1 == |s| then
      Indeterminate
    else
      assert s == s[..n] + ST + s[n + 2..];
      Match(s[n + 2..], s[..n])
  }

  /** Up to the first stop there is no terminator; an ESC at the very end is not one either. */
  lemma NoTerminatorBeforeStop(s: string, n: nat)
    requires n <= |s| && forall j :: 0 <= j < n ==> !Stops(s, j)
    ensures NoTerminatorIn(s[..n])
    ensures n < |s| && s[n] == ESC && n + 1 == |s| ==> NoTerminatorIn(s)
    ensures n + 1 < |s| && s[n] == ESC && s[n + 1] == '\\' ==> !NoTerminatorIn(s)
  {
    var b := s[..n];
    forall j | 0 <= j < |b|
      ensures b[j] != BEL && !(b[j] == ESC && j + 1 < |b| && b[j + 1] == '\\')
    {
      assert b[j] == s[j] && !Stops(s, j);
    }
    if n < |s| && s[n] == ESC && n + 1 == |s| {
      forall j | 0 <= j < |s|
        ensures s[j] != BEL && !(s[j] == ESC && j + 1 < |s| && s[j + 1] == '\\')
      {
        if j < n {
          assert !Stops(s, j);
        }
      }
    }
  }

  // ---------------------------------------------------------------------
  // What a match means: the spelling of each node kind
  // ---------------------------------------------------------------------

  /** `g` is an absent group, or a non-empty run of characters of `cls`. */
  predicate IsGroup(g: Option<string>, cls: CharClass) {
    g.Some? ==> g.value != [] && AllAccepted(g.value, cls)
  }

  /** The fields of `node` lie in the ECMA-48 ranges of its kind. */
  predicate WellFormed(node: Node) {
    match node
    case Text(t) => t != [] && AllAccepted(t, NonControl)
    case C0Control(c) => Accepts(C0Set, c)
    case C1Control(c) => Accepts(C1Set, c)
    case ControlSequence(p, i, f) =>
      IsGroup(p, ParameterByte) && IsGroup(i, IntermediateByte) && Accepts(FinalByte, f)
    case IndependentControlFunction(c) => Accepts(IndependentFunction, c)
    case ControlString(o, body) => Accepts(Opening, o) && NoTerminatorIn(body)
    case Unknown(_) => true
  }

  /** The characters of a control sequence. */
  function CsiSpelling(p: Option<string>, i: Option<string>, f: char): string {
    CSI + p.GetOr([]) + i.GetOr([]) + [f]
  }

  /** `t` is a spelling of `node`; a control string may end with either terminator. */
  predicate Spells(t: string, node: Node) {
    match node
    case Text(x) => t == x
    case C0Control(c) => t == [c]
    case C1Control(c) => t == [ESC, c]
    case ControlSequence(p, i, f) => t == CsiSpelling(p, i, f)
    case IndependentControlFunction(c) => t == [ESC, c]
    case ControlString(o, body) => t == [ESC, o] + body + ST || t == [ESC, o] + body + [BEL]
    case Unknown(c) => t == [c]
  }

  /** `s` is a spelling of `node` followed by `rest`, and the node is well formed. */
  predicate Consumes(s: string, rest: string, node: Node) {
    && IsStrictSuffix(rest, s)
    && Spells(s[..|s| - |rest|], node)
    && WellFormed(node)
  }

  lemma SpelledPrefix(s: string, t: string, rest: string, node: Node)
    requires s == t + rest && t != [] && Spells(t, node) && WellFormed(node)
    ensures Consumes(s, rest, node)
  {
    assert s[..|s| - |rest|] == t;
    assert s[|s| - |rest|..] == rest;
  }

  // ---------------------------------------------------------------------
  // The seven node parsers (parser.rs:157-252)
  // ---------------------------------------------------------------------

  function ParseC0Control(s: string): (r: TryResult<Node>)
    ensures r.Indeterminate? <==> s == []
    ensures r.Match? <==> s != [] && Accepts(C0Set, s[0])
    ensures r.Match? ==> r == Match(s[1..], C0Control(s[0])) && Consumes(s, r.rest, r.value)
  {
    match CaptureSingle(s, C0Set)
    case Match(s1, code) =>
      SpelledPrefix(s, [code], s1, C0Control(code));
      Match(s1, C0Control(code))
    case NoMatch => NoMatch
    case Indeterminate => Indeterminate
  }

  function ParseC1Control(s: string): (r: TryResult<Node>)
    ensures r.Indeterminate? <==> s == [] || s == [ESC]
    ensures r.Match? <==> |s| >= 2 && s[0] == ESC && Accepts(C1Set, s[1])
    ensures r.Match? ==> r == Match(s[2..], C1Control(s[1])) && Consumes(s, r.rest, r.value)
  {
    match SkipDelimiter(s, [ESC])
    case NoMatch => NoMatch
    case Indeterminate => Indeterminate
    case Match(s1, _) =>
      match CaptureSingle(s1, C1Set)
      case NoMatch => NoMatch
      case Indeterminate => Indeterminate
      case Match(s2, code) =>
        SpelledPrefix(s, [ESC, code], s2, C1Control(code));
        Match(s2, C1Control(code))
  }

  /** The text after CSI is a (possibly empty) run of parameter bytes followed by intermediate bytes only. */
  predicate ParametersThenIntermediates(t: string) {
    AllAccepted(t[Run(t, ParameterByte)..], IntermediateByte)
  }

  function ParseControlSequence(s: string): (r: TryResult<Node>)
    ensures r.Indeterminate? <==> s < CSI || (CSI <= s && ParametersThenIntermediates(s[2..]))
    ensures r.Match? ==> r.value.ControlSequence? && Consumes(s, r.rest, r.value)
  {
    match SkipDelimiter(s, CSI)
    case NoMatch => NoMatch
    case Indeterminate => Indeterminate
    case Match(s1, _) =>
      match ParseCsiFields(s1)
      case NoMatch => NoMatch
      case Indeterminate => Indeterminate
      case Match(s4, node) =>
        CsiSpelled(s, s1, s4, node);
        Match(s4, node)
  }

  lemma CsiSpelled(s: string, s1: string, s4: string, node: Node)
    requires CSI <= s && s1 == s[|CSI|..]
    requires node.ControlSequence? && WellFormed(node)
    requires s1 == node.parameterBytes.GetOr([]) + node.intermediateBytes.GetOr([]) + [node.finalByte] + s4
    ensures Consumes(s, s4, node)
  {
    var t := CsiSpelling(node.parameterBytes, node.intermediateBytes, node.finalByte);
    assert s == CSI + s1;
    assert s == t + s4;
    SpelledPrefix(s, t, s4, node);
  }

  /** The fields of a control sequence after CSI (parser.rs:170-182). */
  function ParseCsiFields(s1: string): (r: TryResult<Node>)
    ensures r.Indeterminate? <==> ParametersThenIntermediates(s1)
    ensures r.Match? ==>
      && r.value.ControlSequence? && WellFormed(r.value)
      && s1 == r.value.parameterBytes.GetOr([]) + r.value.intermediateBytes.GetOr([]) + [r.value.finalByte] + r.rest
  {
    match Optional(CaptureGroup(s1, ParameterByte), s1)
    case NoMatch => NoMatch
    case Indeterminate =>
      RunIsMaximal(s1, ParameterByte, |s1|);
      Indeterminate
    case Match(s2, parameterBytes) =>
      ParametersEndAt(s1, s2, parameterBytes);
      var r := ParseCsiTail(s2, parameterBytes);
      FieldsAfterParameters(s1, s2, parameterBytes, r);
      r
  }

  lemma ParametersEndAt(s1: string, s2: string, parameterBytes: Option<string>)
    requires Optional(CaptureGroup(s1, ParameterByte), s1) == Match(s2, parameterBytes)
    ensures s2 == s1[Run(s1, ParameterByte)..]
    ensures s1 == parameterBytes.GetOr([]) + s2
    ensures IsGroup(parameterBytes, ParameterByte)
  {
    var g := CaptureGroup(s1, ParameterByte);
    if g.Match? {
      assert s1[..|g.value|] == g.value;
      RunIsMaximal(s1, ParameterByte, |g.value|);
    } else {
      RunIsMaximal(s1, ParameterByte, 0);
    }
  }

  /** The parameters in front of what `ParseCsiTail` read make a well-formed control sequence. */
  lemma FieldsAfterParameters(s1: string, s2: string, parameterBytes: Option<string>, r: TryResult<Node>)
    requires s1 == parameterBytes.GetOr([]) + s2 && IsGroup(parameterBytes, ParameterByte)
    requires s2 == s1[Run(s1, ParameterByte)..] && (s2 != [] || parameterBytes.None?)
    requires r.Indeterminate? <==> AllAccepted(s2, IntermediateByte)
    requires r.Match? ==>
      && r.value.ControlSequence? && r.value.parameterBytes == parameterBytes
      && IsGroup(r.value.intermediateBytes, IntermediateByte) && Accepts(FinalByte, r.value.finalByte)
      && s2 == r.value.intermediateBytes.GetOr([]) + [r.value.finalByte] + r.rest
    ensures r.Indeterminate? <==> ParametersThenIntermediates(s1)
    ensures r.Match? ==>
      && r.value.ControlSequence? && WellFormed(r.value)
      && s1 == r.value.parameterBytes.GetOr([]) + r.value.intermediateBytes.GetOr([]) + [r.value.finalByte] + r.rest
  {
    if r.Match? {
      var node := r.value;
      assert WellFormed(node);
      assert s1 == parameterBytes.GetOr([]) + node.intermediateBytes.GetOr([]) + [node.finalByte] + r.rest;
    }
  }

  /** Intermediate bytes and the final byte of a control sequence (parser.rs:172-182). */
  function ParseCsiTail(s2: string, parameterBytes: Option<string>): (r: TryResult<Node>)
    requires s2 != [] || parameterBytes.None?
    ensures r.Indeterminate? <==> AllAccepted(s2, IntermediateByte)
    ensures r.Match? ==>
      && r.value.ControlSequence? && r.value.parameterBytes == parameterBytes
      && IsGroup(r.value.intermediateBytes, IntermediateByte) && Accepts(FinalByte, r.value.finalByte)
      && s2 == r.value.intermediateBytes.GetOr([]) + [r.value.finalByte] + r.rest
  {
    match Optional(CaptureGroup(s2, IntermediateByte), s2)
    case NoMatch => NoMatch
    case Indeterminate => Indeterminate
    case Match(s3, intermediateBytes) =>
      match CaptureSingle(s3, FinalByte)
      case NoMatch => NoMatch
      case Indeterminate => Indeterminate
      case Match(s4, finalByte) =>
        Match(s4, ControlSequence(parameterBytes, intermediateBytes, finalByte))
  }

  function ParseIndependentControlFunction(s: string): (r: TryResult<Node>)
    ensures r.Indeterminate? <==> s == [] || s == [ESC]
    ensures r.Match? <==> |s| >= 2 && s[0] == ESC && Accepts(IndependentFunction, s[1])
    ensures r.Match? ==> r == Match(s[2..], IndependentControlFunction(s[1])) && Consumes(s, r.rest, r.value)
  {
    match SkipDelimiter(s, [ESC])
    case NoMatch => NoMatch
    case Indeterminate => Indeterminate
    case Match(s1, _) =>
      match CaptureSingle(s1, IndependentFunction)
      case NoMatch => NoMatch
      case Indeterminate => Indeterminate
      case Match(s2, code) =>
        SpelledPrefix(s, [ESC, code], s2, IndependentControlFunction(code));
        Match(s2, IndependentControlFunction(code))
  }

  function ParseControlString(s: string): (r: TryResult<Node>)
    ensures r.NoMatch? <==> s != [] && (s[0] != ESC || (|s| >= 2 && !Accepts(Opening, s[1])))
    ensures r.Indeterminate? <==>
      s == [] || s == [ESC] || (|s| >= 2 && s[0] == ESC && Accepts(Opening, s[1]) && NoTerminatorIn(s[2..]))
    ensures r.Match? ==> r.value.ControlString? && r.value.opening == s[1] && Consumes(s, r.rest, r.value)
  {
    match SkipDelimiter(s, [ESC])
    case NoMatch => NoMatch
    case Indeterminate => Indeterminate
    case Match(s1, _) =>
      match CaptureSingle(s1, Opening)
      case NoMatch => NoMatch
      case Indeterminate => Indeterminate
      case Match(s2, opening) =>
        var r := CaptureCharacterString(s2);
        ControlStringFromBody(s, opening, s2, r);
        match r
        case NoMatch => NoMatch
        case Indeterminate => Indeterminate
        case Match(s3, body) => Match(s3, ControlString(opening, body))
  }

  /** What `capture_character_string` answers after ESC and an opening decides the control string. */
  lemma ControlStringFromBody(s: string, opening: char, s2: string, r: TryResult<string>)
    requires s == [ESC, opening] + s2 && Accepts(Opening, opening)
    requires !r.NoMatch? && (r.Indeterminate? <==> NoTerminatorIn(s2))
    requires r.Match? ==> NoTerminatorIn(r.value) && (s2 == r.value + ST + r.rest || s2 == r.value + [BEL] + r.rest)
    ensures s[2..] == s2
    ensures r.Match? ==> Consumes(s, r.rest, ControlString(opening, r.value))
  {
    assert s[2..] == s2;
    if r.Match? {
      var node := ControlString(opening, r.value);
      var t := if s2 == r.value + ST + r.rest then [ESC, opening] + r.value + ST else [ESC, opening] + r.value + [BEL];
      assert s == t + r.rest;
      SpelledPrefix(s, t, r.rest, node);
    }
  }

  function ParseText(s: string): (r: TryResult<Node>)
    ensures r.Indeterminate? <==> s == []
    ensures r.NoMatch? <==> s != [] && IsControl(s[0])
    ensures r.Match? ==>
      && r.value.Text? && Consumes(s, r.rest, r.value)
      && (r.rest == [] || IsControl(r.rest[0]))
  {
    match CaptureGroupLazy(s, NonControl)
    case NoMatch => NoMatch
    case Indeterminate => Indeterminate
    case Match(s1, text) =>
      SpelledPrefix(s, text, s1, Text(text));
      Match(s1, Text(text))
  }

  function ParseUnknown(s: string): (r: TryResult<Node>)
    ensures !r.NoMatch?
    ensures r.Indeterminate? <==> s == []
    ensures r.Match? ==> r == Match(s[1..], Unknown(s[0])) && Consumes(s, r.rest, r.value)
  {
    match CaptureSingle(s, AnyChar)
    case NoMatch => NoMatch
    case Indeterminate => Indeterminate
    case Match(s1, ch) =>
      SpelledPrefix(s, [ch], s1, Unknown(ch));
      Match(s1, Unknown(ch))
  }

  // ---------------------------------------------------------------------
  // parse (parser.rs:254-274)
  // ---------------------------------------------------------------------

  /** The number of entries of `parse_fns`. */
  const AlternativeCount: nat := 7

  /** `parse_fns[k]`, in the fixed priority order of the source. */
  function Alternative(k: nat, s: string): TryResult<Node>
    requires k < AlternativeCount
  {
    match k
    case 0 => ParseControlString(s)
    case 1 => ParseIndependentControlFunction(s)
    case 2 => ParseControlSequence(s)
    case 3 => ParseC1Control(s)
    case 4 => ParseC0Control(s)
    case 5 => ParseText(s)
    case _ => ParseUnknown(s)
  }

  /** First-match-wins: `second` is only consulted when `first` is `NoMatch`. */
  function OrElse(first: TryResult<Node>, second: TryResult<Node>): TryResult<Node> {
    if first.NoMatch? then second else first
  }

  /** The first alternative that does not answer `NoMatch`. */
  function FirstDecided(s: string): TryResult<Node> {
    OrElse(ParseControlString(s),
    OrElse(ParseIndependentControlFunction(s),
    OrElse(ParseControlSequence(s),
    OrElse(ParseC1Control(s),
    OrElse(ParseC0Control(s),
    OrElse(ParseText(s),
    ParseUnknown(s)))))))
  }

  /**
   * `Node::parse`. The branch of `unreachable!()` is dead: `parse_unknown`
   * decides every input, so some alternative always answers.
   */
  function Parse(s: string): (r: NodeParseResult)
    ensures s == [] ==> r == NodeIndeterminate
    ensures r.NodeMatch? ==> Consumes(s, r.rest, r.node)
  {
    match FirstDecided(s)
    case Match(rest, node) => NodeMatch(rest, node)
    case Indeterminate => NodeIndeterminate
    case NoMatch => assert false; NodeIndeterminate
  }

  /** The alternatives before `k` said `NoMatch` and `k` answered: that answer is `Parse`'s. */
  lemma FirstAnswerIsParse(s: string, k: nat)
    requires k < AlternativeCount
    requires forall j :: 0 <= j < k ==> Alternative(j, s).NoMatch?
    requires !Alternative(k, s).NoMatch?
    ensures Parse(s) == (match Alternative(k, s)
                         case Match(rest, node) => NodeMatch(rest, node)
                         case _ => NodeIndeterminate)
  {
    assert forall j :: 0 <= j < k ==> Alternative(j, s).NoMatch?;
    if k >= 1 { assert Alternative(0, s).NoMatch?; }
    if k >= 2 { assert Alternative(1, s).NoMatch?; }
    if k >= 3 { assert Alternative(2, s).NoMatch?; }
    if k >= 4 { assert Alternative(3, s).NoMatch?; }
    if k >= 5 { assert Alternative(4, s).NoMatch?; }
    if k >= 6 { assert Alternative(5, s).NoMatch?; }
  }

  // ---------------------------------------------------------------------
  // The loops of the source, proved against the functions above
  // ---------------------------------------------------------------------

  /** `skip_delimiter`: walk the input and the prefix together. */
  method ScanDelimiter(s: string, prefix: string) returns (r: TryResult<()>)
    ensures r == SkipDelimiter(s, prefix)
    ensures r.Match? <==> prefix <= s
    ensures r.Indeterminate? <==> s < prefix
  {
    var i := 0;
    while i < |s| && i < |prefix| && s[i] == prefix[i]
      invariant i <= |s| && i <= |prefix|
      invariant s[..i] == prefix[..i]
    {
      i := i + 1;
    }
    if i == |prefix| {
      assert prefix == s[..i];
      r := Match(s[i..], ());
    } else if i == |s| {
      assert s == prefix[..i];
      r := Indeterminate;
    } else {
      assert s[i] != prefix[i];
      r := NoMatch;
    }
  }

  /** `capture_group`: one accepted character, then more until a rejected one. */
  method ScanGroup(s: string, cls: CharClass) returns (r: TryResult<string>)
    ensures r == CaptureGroup(s, cls)
  {
    if s == [] {
      return Indeterminate;
    }
    if !Accepts(cls, s[0]) {
      return NoMatch;
    }
    var result := [s[0]];
    var i := 1;
    while i < |s| && Accepts(cls, s[i])
      invariant 1 <= i <= |s|
      invariant result == s[..i] && AllAccepted(result, cls)
    {
      result := result + [s[i]];
      i := i + 1;
    }
    if i == |s| {
      r := Indeterminate;
    } else {
      r := Match(s[i..], result);
    }
    RunIsMaximal(s, cls, i);
  }

  /** `capture_group_lazy`: as `capture_group`, but the end of the input ends the group. */
  method ScanGroupLazy(s: string, cls: CharClass) returns (r: TryResult<string>)
    ensures r == CaptureGroupLazy(s, cls)
  {
    if s == [] {
      return Indeterminate;
    }
    if !Accepts(cls, s[0]) {
      return NoMatch;
    }
    var result := [s[0]];
    var i := 1;
    while i < |s| && Accepts(cls, s[i])
      invariant 1 <= i <= |s|
      invariant result == s[..i] && AllAccepted(result, cls)
    {
      result := result + [s[i]];
      i := i + 1;
    }
    r := Match(s[i..], result);
    RunIsMaximal(s, cls, i);
  }

  /** A run that is all accepted and ends at the input's end or a rejected character is `Run`. */
  lemma {:induction false} RunIsMaximal(s: string, cls: CharClass, n: nat)
    requires n <= |s| && AllAccepted(s[..n], cls)
    requires n < |s| ==> !Accepts(cls, s[n])
    ensures Run(s, cls) == n
  {
    if n > 0 {
      assert s[..n][0] == s[0];
      assert s[1..][..n - 1] == s[..n][1..];
      RunIsMaximal(s[1..], cls, n - 1);
    }
  }

  /**
   * `capture_character_string`: at each position try ST, then BEL, then take
   * one character into the body.
   */
  method ScanCharacterString(s: string) returns (r: TryResult<string>)
    ensures r == CaptureCharacterString(s)
  {
    var i := 0;
    var characterString: string := [];
    while true
      invariant i <= |s|
      invariant characterString == s[..i]
      invariant forall j :: 0 <= j < i ==> !Stops(s, j)
      decreases |s| - i
    {
      var atST := ScanDelimiter(s[i..], ST);
      match atST {
        case Match(rest, _) =>
          StopIsBodyEnd(s, i);
          return Match(rest, characterString);
        case Indeterminate =>
          StopIsBodyEnd(s, i);
          return Indeterminate;
        case NoMatch =>
      }
      var atBEL := ScanDelimiter(s[i..], [BEL]);
      match atBEL {
        case Match(rest, _) =>
          StopIsBodyEnd(s, i);
          return Match(rest, characterString);
        case Indeterminate =>
          return Indeterminate;
        case NoMatch =>
      }
      assert i < |s| && !Stops(s, i);
      characterString := characterString + [s[i]];
      i := i + 1;
    }
  }

  /** The first stop (or the end of the input) is where `BodyEnd` lands. */
  lemma StopIsBodyEnd(s: string, i: nat)
    requires i <= |s|
    requires forall j :: 0 <= j < i ==> !Stops(s, j)
    requires i < |s| ==> Stops(s, i)
    ensures BodyEnd(s, 0) == i
  {
    var k := 0;
    while k < i
      invariant k <= i
      invariant BodyEnd(s, 0) == BodyEnd(s, k)
    {
      k := k + 1;
    }
  }

  /** `Node::parse`: try each entry of `parse_fns` in turn. */
  method ParseNode(s: string) returns (r: NodeParseResult)
    ensures r == Parse(s)
  {
    for k := 0 to AlternativeCount
      invariant forall j :: 0 <= j < k ==> Alternative(j, s).NoMatch?
      // parse_unknown, the last entry, answers every input: the loop never runs out
      invariant k < AlternativeCount
    {
      match Alternative(k, s) {
        case Match(rest, node) =>
          FirstAnswerIsParse(s, k);
          return NodeMatch(rest, node);
        case Indeterminate =>
          FirstAnswerIsParse(s, k);
          return NodeIndeterminate;
        case NoMatch =>
      }
    }
    // unreachable!()
    assert false;
    r := NodeIndeterminate;
  }
}
