/**
 * The translator of src/translator.rs: it keeps the text that does not yet
 * form a node, and on each write hands every node it can parse to the grid.
 */
module Translator {
  import opened Wrappers
  import opened Parser
  import opened ParserProperties
  import opened Data

  /**
   * What the loop of `write` makes of a buffer: the nodes it dispatches, the
   * text each of them consumed, and the tail it retains.
   */
  datatype Drained = Drained(nodes: seq<Node>, consumed: seq<string>, tail: string)

  /** `d` accounts for all of `s`: its nodes, in order, spelled by the consumed texts, then the tail. */
  predicate Accounts(s: string, d: Drained) {
    && |d.nodes| == |d.consumed|
    && Concat(d.consumed) + d.tail == s
    && forall k :: 0 <= k < |d.nodes| ==>
         d.consumed[k] != [] && Spells(d.consumed[k], d.nodes[k]) && WellFormed(d.nodes[k])
  }

  /**
   * Parse nodes off the front of `s` until `parse` is undecided. Nothing is
   * lost or duplicated: the consumed texts, in order, followed by the tail
   * give back `s`; each consumed text is the non-empty spelling of its node;
   * and the tail is undecided.
   */
  function Drain(s: string): (d: Drained)
    ensures Accounts(s, d)
    ensures Parse(d.tail) == NodeIndeterminate
    decreases |s|
  {
    match Parse(s)
    case NodeIndeterminate => Drained([], [], s)
    case NodeMatch(rest, node) =>
      var d := Drain(rest);
      AccountsForOneMore(s, rest, node, d);
      Drained([node] + d.nodes, [s[..|s| - |rest|]] + d.consumed, d.tail)
  }

  /** One more node in front keeps the account. */
  lemma AccountsForOneMore(s: string, rest: string, node: Node, d: Drained)
    requires Consumes(s, rest, node) && Accounts(rest, d)
    ensures Accounts(s, Drained([node] + d.nodes, [s[..|s| - |rest|]] + d.consumed, d.tail))
  {
    var t := s[..|s| - |rest|];
    assert ([t] + d.consumed)[1..] == d.consumed;
    assert t + rest == s;
  }

  /** The retained tail is exactly an undecided input: an unfinished control string or sequence, or nothing. */
  lemma RetainedTailIsUndecided(s: string)
    ensures Undecided(Drain(s).tail)
  {
    ParseIndeterminateIff(Drain(s).tail);
  }

  /** `Translator` (translator.rs:6-8). */
  class Translator {
    var textBuffer: string

    /** `Translator::new` (translator.rs:11-15). */
    constructor ()
      ensures textBuffer == []
    {
      textBuffer := [];
    }

    /**
     * `Translator::write`: append `text`, dispatch every node parsed off the
     * front in input order, and keep the undecided rest. Panics of the grid
     * along the way are excluded by the precondition.
     */
    method Write(text: string, data: DataComponent, seg: Segmenter)
      requires RunNodes(data.State(), Drain(textBuffer + text).nodes, seg).Some?
      modifies this, data
      ensures textBuffer == Drain(old(textBuffer) + text).tail
      ensures data.State() == RunNodes(old(data.State()), Drain(old(textBuffer) + text).nodes, seg).value
    {
      textBuffer := textBuffer + text;
      var chars := textBuffer;
      ghost var all := Drain(chars);
      ghost var dispatched: seq<Node> := [];
      assert dispatched + Drain(chars).nodes == all.nodes;
      assert RunNodes(old(data.State()), dispatched, seg) == Some(data.State());
      var r := ParseNode(chars);
      while r.NodeMatch?
        invariant r == Parse(chars)
        invariant all.nodes == dispatched + Drain(chars).nodes
        invariant all.tail == Drain(chars).tail
        invariant RunNodes(old(data.State()), dispatched, seg) == Some(data.State())
        invariant RunNodes(data.State(), Drain(chars).nodes, seg).Some?
        decreases |chars|
      {
        var node := r.node;
        DrainMatch(chars);
        DispatchOne(old(data.State()), dispatched, data.State(), node, Drain(r.rest).nodes, seg);
        chars := r.rest;
        data.WriteNode(node, seg);
        dispatched := dispatched + [node];
        r := ParseNode(chars);
      }
      DispatchedAll(old(data.State()), dispatched, data.State(), all, chars, seg);
      textBuffer := chars;
    }
  }

  /** When `parse` is undecided the loop of `write` stops: what was dispatched is all there is to dispatch. */
  lemma DispatchedAll(start: Screen, dispatched: seq<Node>, g: Screen, all: Drained, chars: string, seg: Segmenter)
    requires !Parse(chars).NodeMatch?
    requires all.nodes == dispatched + Drain(chars).nodes
    requires all.tail == Drain(chars).tail
    requires RunNodes(start, dispatched, seg) == Some(g)
    ensures all.tail == chars
    ensures RunNodes(start, all.nodes, seg) == Some(g)
  {
    assert Drain(chars) == Drained([], [], chars);
    assert dispatched + [] == dispatched;
  }

  /** A matched node is the first one dispatched; the rest is drained from where it ended. */
  lemma DrainMatch(chars: string)
    requires Parse(chars).NodeMatch?
    ensures Drain(chars).nodes == [Parse(chars).node] + Drain(Parse(chars).rest).nodes
    ensures Drain(chars).tail == Drain(Parse(chars).rest).tail
  {
  }

  /** One turn of the loop of `write`: the next node fits the grid, and what comes after it still runs. */
  lemma DispatchOne(start: Screen, dispatched: seq<Node>, g: Screen, node: Node, later: seq<Node>, seg: Segmenter)
    requires RunNodes(start, dispatched, seg) == Some(g)
    requires RunNodes(g, [node] + later, seg).Some?
    ensures dispatched + ([node] + later) == (dispatched + [node]) + later
    ensures g.NodeFits(node)
    ensures RunNodes(start, dispatched + [node], seg) == Some(g.WriteNode(node, seg))
    ensures RunNodes(g.WriteNode(node, seg), later, seg).Some?
  {
    assert ([node] + later)[0] == node && ([node] + later)[1..] == later;
    RunNodesAppend(start, dispatched, [node], seg);
  }

  // ---------------------------------------------------------------------
  // Examples
  // ---------------------------------------------------------------------

  /** Each character of `s` as a segment of its own. */
  function Singletons(s: string): (segs: seq<string>)
    ensures |segs| == |s|
  {
    seq(|s|, i requires 0 <= i < |s| => [s[i]])
  }

  /** Plain text is one node, and nothing is retained. */
  lemma DrainText(s: string)
    requires s != [] && AllAccepted(s, NonControl)
    ensures Drain(s) == Drained([Text(s)], [s], [])
  {
    assert s[..|s|] == s;
    RunIsMaximal(s, NonControl, |s|);
    TextIsMaximalRun(s);
    assert s[|s|..] == [];
  }

  /**
   * "hello world" on a fresh grid, with one segment per character, leaves
   * the cursor on row 0, column 10 (the test at translator.rs:35-41).
   */
  lemma HelloWorldRun(seg: Segmenter)
    requires seg("hello world") == Singletons("hello world")
    ensures RunNodes(Fresh(), Drain([] + "hello world").nodes, seg).Some?
    ensures RunNodes(Fresh(), Drain([] + "hello world").nodes, seg).value.pos == Position(0, 10)
  {
    var s := "hello world";
    assert [] + s == s;
    assert AllAccepted(s, NonControl);
    DrainText(s);
    assert Fresh().ActiveCell().GetOr([]) + s == s;
  }

  /** The test at translator.rs:35-41, on its cursor assertion. */
  method HelloWorldCursor(seg: Segmenter) returns (p: Position)
    requires seg("hello world") == Singletons("hello world")
    ensures p == Position(0, 10)
  {
    var data := new DataComponent();
    var translator := new Translator();
    HelloWorldRun(seg);
    translator.Write("hello world", data, seg);
    p := data.GetActivePosition();
  }

  /** A node followed by an undecided rest: that node alone is dispatched, and the rest is kept. */
  lemma DrainOne(s: string, rest: string, node: Node)
    requires Parse(s) == NodeMatch(rest, node) && Parse(rest) == NodeIndeterminate
    ensures Drain(s) == Drained([node], [s[..|s| - |rest|]], rest)
  {
    var d := Drain(rest);
    assert d == Drained([], [], rest);
    var t := s[..|s| - |rest|];
    assert Drain(s) == Drained([node] + d.nodes, [t] + d.consumed, d.tail);
    assert [node] + d.nodes == [node] && [t] + d.consumed == [t];
  }

  /** Text up to a control character is one Text node, whatever follows. */
  lemma TextBeforeControl(s: string, t: string, tail: string)
    requires s == t + tail && t != [] && AllAccepted(t, NonControl)
    requires tail != [] && IsControl(tail[0])
    ensures Parse(s) == NodeMatch(tail, Text(t)) && s[..|s| - |tail|] == t
  {
    assert s[..|t|] == t && s[|t|] == tail[0];
    RunIsMaximal(s, NonControl, |t|);
    TextIsMaximalRun(s);
    assert s[|t|..] == tail;
  }

  lemma UnfinishedSequenceSplit()
    ensures "ab" + "\U{1B}[3" == "ab\U{1B}[3"
    ensures CSI + "3" + [] == "\U{1B}[3"
  {
  }

  /** "ab" then an unfinished CSI: `Text("ab")` is dispatched and "ESC [ 3" is kept for the next write. */
  lemma UnfinishedSequenceRetained()
    ensures Drain("ab\U{1B}[3") == Drained([Text("ab")], ["ab"], "\U{1B}[3")
  {
    var t, tail := "ab", "\U{1B}[3";
    UnfinishedSequenceSplit();
    assert AllAccepted(t, NonControl) && IsControl(tail[0]);
    PartialSequencesUndecided("3", []);
    TextBeforeControl(t + tail, t, tail);
    DrainOne(t + tail, tail, Text(t));
  }

  /** Writing nothing to an empty buffer dispatches nothing and keeps nothing. */
  lemma EmptyWrite()
    ensures Drain([] + []) == Drained([], [], [])
  {
  }
}
