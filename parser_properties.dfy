/**
 * What `Node::parse` promises as a whole: when it asks for more input, which
 * node it picks for text, control strings and control sequences, and the
 * examples of the parser's own tests (src/parser.rs:283-376).
 */
module ParserProperties {
  import opened Wrappers
  import opened Parser

  /**
   * The inputs for which `parse` answers Indeterminate: nothing at all, a lone
   * ESC, a control string whose terminator has not arrived, or CSI followed by
   * nothing but parameter bytes and then intermediate bytes.
   */
  predicate Undecided(s: string) {
    || s == []
    || s == [ESC]
    || (|s| >= 2 && s[0] == ESC && Accepts(Opening, s[1]) && NoTerminatorIn(s[2..]))
    || (CSI <= s && ParametersThenIntermediates(s[2..]))
  }

  /** `parse` never guesses: it is undecided exactly on the inputs above. */
  lemma ParseIndeterminateIff(s: string)
    ensures Parse(s) == NodeIndeterminate <==> Undecided(s)
  {
    if |s| >= 2 && s[0] == ESC {
      if Accepts(Opening, s[1]) {
        UndecidedControlString(s);
      } else {
        UndecidedAfterEsc(s);
      }
    } else {
      UndecidedWithoutEsc(s);
    }
  }

  /** After ESC and an opening, only the control string can answer. */
  lemma UndecidedControlString(s: string)
    requires |s| >= 2 && s[0] == ESC && Accepts(Opening, s[1])
    ensures Parse(s) == NodeIndeterminate <==> Undecided(s)
  {
    ControlStringAnswers(s);
    assert ParseControlString(s).Indeterminate? <==> NoTerminatorIn(s[2..]);
  }

  /** After ESC and an opening, the control string entry gives the first decided answer. */
  lemma ControlStringAnswers(s: string)
    requires |s| >= 2 && s[0] == ESC && Accepts(Opening, s[1])
    ensures !ParseControlString(s).NoMatch? && FirstDecided(s) == ParseControlString(s)
  {
    assert !(CSI <= s);
    assert !ParseControlString(s).NoMatch?;
  }

  /** After ESC and a character that opens no control string, only CSI can leave `parse` undecided. */
  lemma UndecidedAfterEsc(s: string)
    requires |s| >= 2 && s[0] == ESC && !Accepts(Opening, s[1])
    ensures Parse(s) == NodeIndeterminate <==> Undecided(s)
  {
    assert ParseControlString(s).NoMatch?;
    if ParseIndependentControlFunction(s).NoMatch? {
      assert s[..2] == [ESC, s[1]];
      if ParseControlSequence(s).NoMatch? {
        assert ParseC1Control(s).Match? || ParseC0Control(s).Match?;
      }
    }
  }

  /** Input that does not start with ESC and another character is decided unless it is empty or a lone ESC. */
  lemma UndecidedWithoutEsc(s: string)
    requires !(|s| >= 2 && s[0] == ESC)
    ensures Parse(s) == NodeIndeterminate <==> Undecided(s)
  {
    if s != [] && s != [ESC] {
      assert !(CSI <= s);
      assert ParseC0Control(s).Match? || ParseText(s).Match? || ParseUnknown(s).Match?;
    }
  }

  /** Text is greedy and decided at the end of the input: the maximal run of non-Cc characters. */
  lemma TextIsMaximalRun(s: string)
    requires s != [] && !IsControl(s[0])
    ensures Parse(s) == NodeMatch(s[Run(s, NonControl)..], Text(s[..Run(s, NonControl)]))
  {
    var r := ParseText(s);
    assert r.Match?;
    var t := r.value.text;
    assert s[..|s| - |r.rest|] == t;
    assert s == t + r.rest;
    assert s[..|t|] == t;
    RunIsMaximal(s, NonControl, |t|);
  }

  /** Input made only of non-Cc characters is one Text node, with nothing left. */
  lemma WholeTextIsOneNode(s: string)
    requires s != [] && AllAccepted(s, NonControl)
    ensures Parse(s) == NodeMatch([], Text(s))
  {
    assert s[..|s|] == s;
    RunIsMaximal(s, NonControl, |s|);
    TextIsMaximalRun(s);
    assert s[|s|..] == [];
  }

  /**
   * ESC followed by one of the five openings is a control string or
   * undecided, never a C1 control, whose body stops at the first terminator.
   */
  lemma ControlStringOpeningDecides(s: string)
    requires |s| >= 2 && s[0] == ESC && Accepts(Opening, s[1])
    ensures Parse(s) == NodeIndeterminate || Parse(s).node.ControlString?
    ensures Parse(s).NodeMatch? ==>
      && Parse(s).node.opening == s[1]
      && NoTerminatorIn(Parse(s).node.characterString)
      && (|| s == [ESC, s[1]] + Parse(s).node.characterString + ST + Parse(s).rest
          || s == [ESC, s[1]] + Parse(s).node.characterString + [BEL] + Parse(s).rest)
  {
    ControlStringAnswers(s);
    var r := ParseControlString(s);
    if r.Match? {
      ConsumedControlString(s, r.rest, r.value.opening, r.value.characterString);
    }
  }

  /** A control string consumed from `s` spells its opening, its body and one of the two terminators. */
  lemma ConsumedControlString(s: string, rest: string, opening: char, body: string)
    requires Consumes(s, rest, ControlString(opening, body))
    ensures NoTerminatorIn(body)
    ensures || s == [ESC, opening] + body + ST + rest
            || s == [ESC, opening] + body + [BEL] + rest
  {
    var t := s[..|s| - |rest|];
    assert s == t + rest;
  }

  /** A group followed by a character outside its class is captured exactly. */
  lemma OptionalGroupExact(g: Option<string>, t: string, cls: CharClass)
    requires IsGroup(g, cls) && t != [] && !Accepts(cls, t[0])
    ensures Optional(CaptureGroup(g.GetOr([]) + t, cls), g.GetOr([]) + t) == Match(t, g)
  {
    var a := g.GetOr([]);
    if g.Some? {
      assert (a + t)[..|a|] == a;
      RunIsMaximal(a + t, cls, |a|);
      assert (a + t)[|a|..] == t;
    } else {
      assert a + t == t;
    }
  }

  /** The intermediates and final byte of a control sequence are read back exactly. */
  lemma CsiTailExact(p: Option<string>, i: Option<string>, f: char, rest: string)
    requires WellFormed(ControlSequence(p, i, f))
    ensures ParseCsiTail(i.GetOr([]) + ([f] + rest), p) == Match(rest, ControlSequence(p, i, f))
  {
    OptionalGroupExact(i, [f] + rest, IntermediateByte);
    assert ([f] + rest)[0] == f && ([f] + rest)[1..] == rest;
  }

  /** The fields after CSI of a control sequence are read back exactly. */
  lemma CsiFieldsExact(p: Option<string>, i: Option<string>, f: char, rest: string)
    requires WellFormed(ControlSequence(p, i, f))
    ensures ParseCsiFields(p.GetOr([]) + (i.GetOr([]) + ([f] + rest))) == Match(rest, ControlSequence(p, i, f))
  {
    var s2 := i.GetOr([]) + ([f] + rest);
    if i.Some? {
      assert s2[0] == i.value[0];
    } else {
      assert s2[0] == f;
    }
    OptionalGroupExact(p, s2, ParameterByte);
    CsiTailExact(p, i, f, rest);
  }

  /** After CSI, `parse` is decided by the fields of the control sequence. */
  lemma IntroducedByCsi(s: string, s1: string)
    requires s == CSI + s1 && ParseCsiFields(s1).Match?
    ensures Parse(s) == NodeMatch(ParseCsiFields(s1).rest, ParseCsiFields(s1).value)
  {
    assert CSI <= s && s[2..] == s1;
    EscBracketIsNeither(s);
    assert ParseControlSequence(s) == ParseCsiFields(s1);
    assert FirstDecided(s) == ParseCsiFields(s1);
  }

  /** ESC [ opens neither a control string nor an independent control function. */
  lemma EscBracketIsNeither(s: string)
    requires |s| >= 2 && s[0] == ESC && s[1] == '['
    ensures ParseControlString(s).NoMatch? && ParseIndependentControlFunction(s).NoMatch?
  {
    assert s != [] && s != [ESC];
    assert !Accepts(Opening, s[1]) && !Accepts(IndependentFunction, s[1]);
  }

  /** Every well-formed control sequence is read back as itself, whatever follows it. */
  lemma ControlSequenceRoundTrip(p: Option<string>, i: Option<string>, f: char, rest: string)
    requires WellFormed(ControlSequence(p, i, f))
    ensures Parse(CsiSpelling(p, i, f) + rest) == NodeMatch(rest, ControlSequence(p, i, f))
  {
    var s := CsiSpelling(p, i, f) + rest;
    var s1 := p.GetOr([]) + (i.GetOr([]) + ([f] + rest));
    assert s == CSI + s1;
    CsiFieldsExact(p, i, f, rest);
    IntroducedByCsi(s, s1);
  }

  /** A body without terminators, then ST or BEL, is read back as that control string. */
  lemma ControlStringRoundTrip(o: char, body: string, terminator: string, rest: string)
    requires Accepts(Opening, o) && NoTerminatorIn(body)
    requires terminator == ST || terminator == [BEL]
    ensures Parse([ESC, o] + body + terminator + rest) == NodeMatch(rest, ControlString(o, body))
  {
    var x := body + terminator + rest;
    forall j | 0 <= j < |body|
      ensures !Stops(x, j)
    {
      assert x[j] == body[j];
      if j + 1 < |body| {
        assert x[j + 1] == body[j + 1];
      } else {
        assert x[j + 1] == terminator[0];
      }
    }
    assert x[|body|] == terminator[0];
    assert terminator == ST ==> x[|body| + 1] == '\\';
    StopIsBodyEnd(x, |body|);
    assert x[..|body|] == body;
    assert terminator == ST ==> x[|body| + 2..] == rest;
    assert terminator == [BEL] ==> x[|body| + 1..] == rest;
    assert CaptureCharacterString(x) == Match(rest, body);
    var s := [ESC, o] + body + terminator + rest;
    assert s == [ESC] + ([o] + x);
    assert s[1..] == [o] + x;
    assert Alternative(0, s) == Match(rest, ControlString(o, body));
    FirstAnswerIsParse(s, 0);
  }

  /** Input that ends inside a CSI parameter or intermediate run, or after a lone ESC, is undecided. */
  lemma PartialSequencesUndecided(params: string, intermediates: string)
    requires AllAccepted(params, ParameterByte) && AllAccepted(intermediates, IntermediateByte)
    ensures Parse(CSI + params + intermediates) == NodeIndeterminate
    ensures Parse([ESC]) == NodeIndeterminate
  {
    var s := CSI + params + intermediates;
    var t := params + intermediates;
    assert s[2..] == t;
    assert t[..|params|] == params;
    if |params| < |t| {
      assert t[|params|] == intermediates[0];
    }
    RunIsMaximal(t, ParameterByte, |params|);
    assert t[|params|..] == intermediates;
    ParseIndeterminateIff(s);
    ParseIndeterminateIff([ESC]);
  }

  // ---------------------------------------------------------------------
  // The parser's own tests (src/parser.rs:283-376)
  // ---------------------------------------------------------------------

  lemma ParseC0Example()
    ensures Parse("\U{07}world") == NodeMatch("world", C0Control('\U{07}'))
  {
    assert ParseControlString("\U{07}world").NoMatch?;
  }

  lemma ParseC1Example()
    ensures Parse("\U{1B}\U{40}world") == NodeMatch("world", C1Control('\U{40}'))
  {
    assert "\U{1B}\U{40}world"[2..] == "world";
  }

  lemma ParseControlSequenceExample()
    ensures Parse("\U{1B}[0;1;2!mworld") == NodeMatch("world", ControlSequence(Some("0;1;2"), Some("!"), 'm'))
  {
    var p, i := "0;1;2", "!";
    ExampleSpellings();
    assert AllAccepted(p, ParameterByte) && AllAccepted(i, IntermediateByte);
    ControlSequenceRoundTrip(Some(p), Some(i), 'm', "world");
  }

  lemma ParseControlSequenceWithoutParametersExample()
    ensures Parse("\U{1B}[!mworld") == NodeMatch("world", ControlSequence(None, Some("!"), 'm'))
  {
    var i := "!";
    ExampleSpellings();
    assert AllAccepted(i, IntermediateByte);
    ControlSequenceRoundTrip(None, Some(i), 'm', "world");
  }

  lemma ParseControlSequenceWithoutIntermediatesExample()
    ensures Parse("\U{1B}[0;1;2mworld") == NodeMatch("world", ControlSequence(Some("0;1;2"), None, 'm'))
  {
    var p := "0;1;2";
    ExampleSpellings();
    assert AllAccepted(p, ParameterByte);
    ControlSequenceRoundTrip(Some(p), None, 'm', "world");
  }

  /** The inputs of the three control sequence tests, spelled out. */
  lemma ExampleSpellings()
    ensures CsiSpelling(Some("0;1;2"), Some("!"), 'm') + "world" == "\U{1B}[0;1;2!mworld"
    ensures CsiSpelling(None, Some("!"), 'm') + "world" == "\U{1B}[!mworld"
    ensures CsiSpelling(Some("0;1;2"), None, 'm') + "world" == "\U{1B}[0;1;2mworld"
  {
  }

  lemma ParseIndependentControlFunctionExample()
    ensures Parse("\U{1B}\U{60}world") == NodeMatch("world", IndependentControlFunction('\U{60}'))
  {
    assert "\U{1B}\U{60}world"[2..] == "world";
  }

  lemma ParseTextExample()
    ensures Parse("Hello, world") == NodeMatch("", Text("Hello, world"))
  {
    assert AllAccepted("Hello, world", NonControl);
    WholeTextIsOneNode("Hello, world");
  }

  lemma ParseControlStringExample()
    ensures Parse("\U{1B}]0;Hello\U{07}world") == NodeMatch("world", ControlString(']', "0;Hello"))
  {
    var body := "0;Hello";
    var s := "\U{1B}]0;Hello\U{07}world";
    assert s == [ESC, ']'] + body + [BEL] + "world";
    assert forall j | 0 <= j < |body| :: body[j] != ESC && body[j] != BEL;
    ControlStringRoundTrip(']', body, [BEL], "world");
  }
}
