/**
 * The two checks on XML nesting that run before a document is converted: the BPMN validator, which
 * keeps the open elements on a stack, and the CMMN one, which only counts. Both read a stream of
 * events; the BPMN limit also bounds the recursion of the later passes.
 */
module Nesting {
  import opened Common
  import opened FlowModel
  import ExtensionXml
  import ElementIndex

  const MAX_CMMN_NESTING_DEPTH: nat := 64

  /** `Malformed` is an error of the tokeniser, `Content` anything but a tag. */
  datatype XmlEvent = Start(name: string) | Empty(name: string) | End(name: string) | Content | Malformed

  datatype NestingError = MalformedXml | TooDeep | UnexpectedClosing | MismatchedClosing | UnexpectedEof

  function Local(name: string): string {
    ExtensionXml.LocalName(name)
  }

  // ---- The BPMN validator ---------------------------------------------------------

  /** The verdict on the remaining events with the local names in `stack` open. */
  function Verdict(events: seq<XmlEvent>, stack: seq<string>): Option<NestingError>
    decreases |events|
  {
    if |events| == 0 then (if stack == [] then None else Some(UnexpectedEof)) else
      match events[0]
      case Malformed => Some(MalformedXml)
      case Start(name) =>
        if |stack| + 1 > ElementIndex.MAX_XML_NESTING_DEPTH then Some(TooDeep)
            else Verdict(events[1..], stack + [Local(name)])
      case End(name) =>
        if stack == [] then Some(UnexpectedClosing)
        else if stack[|stack| - 1] != Local(name) then Some(MismatchedClosing)
        else Verdict(events[1..], stack[..|stack| - 1])
      case Empty(_) => Verdict(events[1..], stack)
      case Content => Verdict(events[1..], stack)
  }

  method ValidateWellFormedXml(events: seq<XmlEvent>) returns (error: Option<NestingError>)
    ensures error == Verdict(events, [])
  {
    hide Local;
    var open: seq<string> := [];
    for i := 0 to |events|
      invariant Verdict(events[i..], open) == Verdict(events, [])
    {
      assert events[i..][0] == events[i] && events[i..][1..] == events[i + 1..];
      match events[i]
      case Start(name) =>
        open := open + [Local(name)];
        if |open| > ElementIndex.MAX_XML_NESTING_DEPTH {
          return Some(TooDeep);
        }
      case End(name) =>
        if open == [] {
          return Some(UnexpectedClosing);
        }
        var top := open[|open| - 1];
        open := open[..|open| - 1];
        if top != Local(name) {
          return Some(MismatchedClosing);
        }
      case Malformed =>
        return Some(MalformedXml);
      case Empty(_) =>
      case Content =>
    }
    assert events[|events|..] == [];
    if open != [] {
      return Some(UnexpectedEof);
    }
    return None;
  }

  // ---- Documents ------------------------------------------------------------------

  /** Element content: an element with its two tags, a self-closing element, or anything else. */
  datatype Xml = Nest(name: string, closing: string, children: seq<Xml>) | Closed(name: string) | Text

  function Events(forest: seq<Xml>): seq<XmlEvent>
    decreases forest
  {
    if |forest| == 0 then [] else
      (match forest[0]
       case Nest(name, closing, children) => [Start(name)] + Events(children) + [End(closing)]
       case Closed(name) => [Empty(name)]
       case Text => [Content])
      + Events(forest[1..])
  }

  /** Start and end tags agree in their local names, throughout. */
  predicate Matching(forest: seq<Xml>)
    decreases forest
  {
    |forest| > 0 ==>
      && (forest[0].Nest? ==> Local(forest[0].name) == Local(forest[0].closing) && Matching(forest[0].children))
      && Matching(forest[1..])
  }

  function Max(a: nat, b: nat): nat {
    if a > b then a else b
  }

  /** How deeply start tags are nested. */
  function OpenDepth(forest: seq<Xml>): nat
    decreases forest
  {
    if |forest| == 0 then 0
    else Max(if forest[0].Nest? then 1 + OpenDepth(forest[0].children) else 0, OpenDepth(forest[1..]))
  }

  /** How deeply elements are nested, self-closing ones included. */
  function XmlHeight(forest: seq<Xml>): nat
    decreases forest
  {
    if |forest| == 0 then 0
    else Max(if forest[0].Nest? then 1 + XmlHeight(forest[0].children) else if forest[0].Closed? then 1 else 0,
             XmlHeight(forest[1..]))
  }

  // ---- The BPMN validator accepts exactly the shallow matching forests --------------

  lemma EventsOfNest(x: Xml, others: seq<Xml>, rest: seq<XmlEvent>)
    requires x.Nest?
    ensures Events([x] + others) + rest
         == [Start(x.name)] + (Events(x.children) + ([End(x.closing)] + (Events(others) + rest)))
  {
    var all, inner, tail := [x] + others, Events(x.children), Events(others);
    assert all[1..] == others;
    assert Events(all) == [Start(x.name)] + inner + [End(x.closing)] + tail;
    hide Events;
    assert [Start(x.name)] + inner + [End(x.closing)] + tail + rest == [Start(x.name)]
        + (inner + ([End(x.closing)] + (tail + rest)));
  }

  function Leaf(x: Xml): XmlEvent {
    if x.Closed? then Empty(x.name) else Content
  }

  lemma EventsOfLeaf(x: Xml, others: seq<Xml>, rest: seq<XmlEvent>)
    requires !x.Nest?
    ensures Events([x] + others) + rest == [Leaf(x)] + (Events(others) + rest)
  {
    var all, tail := [x] + others, Events(others);
    assert all[1..] == others;
    assert Events(all) == [Leaf(x)] + tail;
    hide Events;
    assert [Leaf(x)] + tail + rest == [Leaf(x)] + (tail + rest);
  }

  lemma VerdictOfStart(name: string, events: seq<XmlEvent>, stack: seq<string>)
    requires |stack| < ElementIndex.MAX_XML_NESTING_DEPTH
    ensures Verdict([Start(name)] + events, stack) == Verdict(events, stack + [Local(name)])
  {
    assert ([Start(name)] + events)[1..] == events;
  }

  lemma VerdictOfEnd(name: string, events: seq<XmlEvent>, stack: seq<string>)
    ensures Verdict([End(name)] + events, stack + [Local(name)]) == Verdict(events, stack)
  {
    assert ([End(name)] + events)[1..] == events;
    assert (stack + [Local(name)])[..|stack|] == stack;
  }

  lemma VerdictOfLeaf(x: Xml, events: seq<XmlEvent>, stack: seq<string>)
    requires !x.Nest?
    ensures Verdict([Leaf(x)] + events, stack) == Verdict(events, stack)
  {
    assert ([Leaf(x)] + events)[1..] == events;
  }

  /** A shallow matching forest is read to its end with the stack as it was. */
  lemma {:induction false} ForestIsRead(forest: seq<Xml>, rest: seq<XmlEvent>, stack: seq<string>)
    requires Matching(forest) && |stack| + OpenDepth(forest) <= ElementIndex.MAX_XML_NESTING_DEPTH
    ensures Verdict(Events(forest) + rest, stack) == Verdict(rest, stack)
    decreases forest
  {
    hide Local, Verdict;
    if |forest| == 0 {
      assert Events(forest) + rest == rest;
    } else {
      var x, others := forest[0], forest[1..];
      ForestIsRead(others, rest, stack);
      hide Events;
      assert forest == [x] + others;
      var tail := Events(others) + rest;
      if x.Nest? {
        EventsOfNest(x, others, rest);
        VerdictOfStart(x.name, Events(x.children) + ([End(x.closing)] + tail), stack);
        ForestIsRead(x.children, [End(x.closing)] + tail, stack + [Local(x.name)]);
        VerdictOfEnd(x.closing, tail, stack);
      } else {
        EventsOfLeaf(x, others, rest);
        VerdictOfLeaf(x, tail, stack);
      }
    }
  }

  /** What an accepted stream consists of, up to the end tag of the innermost open element. */
  lemma {:induction false} AcceptedIsForest(
      events: seq<XmlEvent>, stack: seq<string>)
      returns (forest: seq<Xml>, rest: seq<XmlEvent>)
    requires Verdict(events, stack).None? && |stack| <= ElementIndex.MAX_XML_NESTING_DEPTH
    ensures events == Events(forest) + rest
    ensures Matching(forest) && |stack| + OpenDepth(forest) <= ElementIndex.MAX_XML_NESTING_DEPTH
    ensures stack == [] ==> rest == []
    ensures stack != [] ==> && |rest| > 0 && rest[0].End? && Local(rest[0].name) == stack[|stack| - 1]
                            && Verdict(rest[1..], stack[..|stack| - 1]).None?
    decreases |events|
  {
    hide Local, Matching, OpenDepth, Events;
    if |events| == 0 || events[0].End? {
      forest, rest := [], events;
      NothingOpen(events);
    } else if events[0].Start? {
      var name := events[0].name;
      var inner, mid := AcceptedIsForest(events[1..], stack + [Local(name)]);
      assert (stack + [Local(name)])[..|stack|] == stack;
      hide Verdict;
      var others, end := AcceptedIsForest(mid[1..], stack);
      var x := Nest(name, mid[0].name, inner);
      forest, rest := [x] + others, end;
      NestOnTop(x, others);
      EventsOfNest(x, others, end);
      HeadAndRest(mid);
      HeadAndRest(events);
    } else {
      var others, end := AcceptedIsForest(events[1..], stack);
      hide Verdict;
      var x := if events[0].Empty? then Closed(events[0].name) else Text;
      forest, rest := [x] + others, end;
      LeafOnTop(x, others);
      EventsOfLeaf(x, others, end);
      HeadAndRest(events);
      NoMalformed(events, stack);
    }
  }

  lemma NothingOpen(events: seq<XmlEvent>)
    ensures Events([]) + events == events && Matching([]) && OpenDepth([]) == 0
  {
  }

  lemma HeadAndRest(events: seq<XmlEvent>)
    requires |events| > 0
    ensures events == [events[0]] + events[1..]
  {
  }

  lemma NoMalformed(events: seq<XmlEvent>, stack: seq<string>)
    requires |events| > 0 && Verdict(events, stack).None?
    ensures !events[0].Malformed?
  {
  }

  lemma NestOnTop(x: Xml, others: seq<Xml>)
    requires x.Nest? && Local(x.name) == Local(x.closing) && Matching(x.children) && Matching(others)
    ensures Matching([x] + others) && OpenDepth([x] + others) == Max(1 + OpenDepth(x.children), OpenDepth(others))
  {
    assert ([x] + others)[1..] == others;
  }

  lemma LeafOnTop(x: Xml, others: seq<Xml>)
    requires !x.Nest? && Matching(others)
    ensures Matching([x] + others) && OpenDepth([x] + others) == OpenDepth(others)
    ensures Events([x] + others) == [Leaf(x)] + Events(others)
  {
    assert ([x] + others)[1..] == others;
  }

  /** The forest a stream serialises, with matching names and shallow enough. */
  ghost predicate IsShallowDocument(events: seq<XmlEvent>, forest: seq<Xml>) {
    events == Events(forest) && Matching(forest) && OpenDepth(forest) <= ElementIndex.MAX_XML_NESTING_DEPTH
  }

  /** The validator accepts exactly the streams of forests with matching names and at most 512 start tags nested. */
  lemma AcceptedIffShallowDocument(events: seq<XmlEvent>)
    ensures Verdict(events, []).None? <==> exists forest :: IsShallowDocument(events, forest)
  {
    if Verdict(events, []).None? {
      var forest, rest := AcceptedIsForest(events, []);
      assert Events(forest) + [] == Events(forest);
      assert IsShallowDocument(events, forest);
    }
    forall forest | IsShallowDocument(events, forest) ensures Verdict(events, []).None? {
      ForestIsRead(forest, [], []);
      assert Events(forest) + [] == Events(forest);
    }
  }

  // ---- What is wrong with a rejected stream -----------------------------------------

  /** An element still open, and what its parent holds before it. */
  datatype Level = Level(before: seq<Xml>, name: string)

  /** The stream up to a point at which the elements of `levels` are open and the innermost holds `last`. */
  function Opened(levels: seq<Level>, last: seq<Xml>): seq<XmlEvent> {
    if |levels| == 0 then Events(last)
    else Opened(levels[..|levels| - 1], levels[|levels| - 1].before) + [Start(levels[|levels| - 1].name)] + Events(last)
  }

  function OpenNames(levels: seq<Level>): (names: seq<string>)
    ensures |names| == |levels|
  {
    seq(|levels|, i requires 0 <= i < |levels| => Local(levels[i].name))
  }

  /** Everything closed so far matches and nothing was nested too deeply. */
  ghost predicate Sound(levels: seq<Level>, last: seq<Xml>) {
    && |levels| <= ElementIndex.MAX_XML_NESTING_DEPTH
    && (forall i :: 0 <= i < |levels| ==> Shallow(levels[i].before, i))
    && Shallow(last, |levels|)
  }

  predicate Shallow(forest: seq<Xml>, level: nat) {
    Matching(forest) && level + OpenDepth(forest) <= ElementIndex.MAX_XML_NESTING_DEPTH
  }

  /** What is wrong with the next event, or with there being none, while `levels` are open. */
  function Fault(levels: seq<Level>, rest: seq<XmlEvent>): Option<NestingError> {
    if |rest| == 0 then (if |levels| > 0 then Some(UnexpectedEof) else None)
    else if rest[0].Malformed? then Some(MalformedXml)
    else if rest[0].Start? && |levels| == ElementIndex.MAX_XML_NESTING_DEPTH then Some(TooDeep)
    else if rest[0].End? && |levels| == 0 then Some(UnexpectedClosing)
    else if rest[0].End? && Local(levels[|levels| - 1].name) != Local(rest[0].name) then Some(MismatchedClosing)
    else None
  }

  /** The stream is sound up to a point at which something is wrong. */
  ghost predicate FailsAt(
      events: seq<XmlEvent>, levels: seq<Level>, last: seq<Xml>, rest: seq<XmlEvent>, e: NestingError)
  {
    events == Opened(levels, last) + rest && Sound(levels, last) && Fault(levels, rest) == Some(e)
  }

  lemma {:induction false} EventsAppend(f: seq<Xml>, g: seq<Xml>)
    ensures Events(f + g) == Events(f) + Events(g)
    decreases f
  {
    if |f| == 0 {
      assert f + g == g;
    } else {
      EventsAppend(f[1..], g);
      hide Events;
      assert f == [f[0]] + f[1..] && f + g == [f[0]] + (f[1..] + g);
      if f[0].Nest? {
        EventsOfNest(f[0], f[1..], Events(g));
        EventsOfNest(f[0], f[1..] + g, []);
      } else {
        EventsOfLeaf(f[0], f[1..], Events(g));
        EventsOfLeaf(f[0], f[1..] + g, []);
      }
      assert Events(f[1..] + g) + [] == Events(f[1..] + g) && Events(f + g) + [] == Events(f + g);
    }
  }

  lemma {:induction false} ShallowAppend(f: seq<Xml>, x: Xml, level: nat)
    requires Shallow(f, level)
    requires x.Nest? ==> Local(x.name) == Local(x.closing) && Shallow(x.children, level + 1)
    ensures Shallow(f + [x], level)
    decreases |f|
  {
    hide Local;
    if |f| == 0 {
      assert f + [x] == [x] && [x][1..] == [];
    } else {
      assert (f + [x])[1..] == f[1..] + [x];
      ShallowAppend(f[1..], x, level);
    }
  }

  lemma OneEvents(x: Xml)
    ensures Events([x]) == if x.Nest? then [Start(x.name)] + Events(x.children) + [End(x.closing)] else [Leaf(x)]
  {
    assert [x][1..] == [];
  }

  /** One more tag or text in the innermost open element. */
  lemma LeafOpened(levels: seq<Level>, last: seq<Xml>, x: Xml)
    requires Sound(levels, last) && !x.Nest?
    ensures Sound(levels, last + [x]) && Opened(levels, last + [x]) == Opened(levels, last) + [Leaf(x)]
  {
    hide Events, Shallow;
    EventsAppend(last, [x]);
    OneEvents(x);
    ShallowAppend(last, x, |levels|);
  }

  lemma StartOpened(levels: seq<Level>, last: seq<Xml>, name: string)
    requires Sound(levels, last) && |levels| < ElementIndex.MAX_XML_NESTING_DEPTH
    ensures var more := levels + [Level(last, name)];
            && Sound(more, []) && Opened(more, []) == Opened(levels, last) + [Start(name)]
            && OpenNames(more) == OpenNames(levels) + [Local(name)]
  {
    hide Shallow, Local;
    var more := levels + [Level(last, name)];
    assert more[..|more| - 1] == levels && Events([]) == [];
    assert Shallow([], |more|) by { EmptyIsShallow(|more|); }
  }

  lemma EmptyIsShallow(level: nat)
    requires level <= ElementIndex.MAX_XML_NESTING_DEPTH
    ensures Shallow([], level)
  {
  }

  lemma EndOpened(levels: seq<Level>, last: seq<Xml>, closing: string)
    requires Sound(levels, last) && |levels| > 0 && Local(levels[|levels| - 1].name) == Local(closing)
    ensures var top, outer := levels[|levels| - 1], levels[..|levels| - 1];
            var held := top.before + [Nest(top.name, closing, last)];
            && Sound(outer, held) && Opened(outer, held) == Opened(levels, last) + [End(closing)]
            && OpenNames(levels) == OpenNames(outer) + [Local(closing)]
  {
    hide Events, Shallow, Local, Opened;
    var top, outer := levels[|levels| - 1], levels[..|levels| - 1];
    var x := Nest(top.name, closing, last);
    ShallowAppend(top.before, x, |outer|);
    ClosedOpened(levels, last, closing);
    assert OpenNames(levels) == OpenNames(outer) + [Local(closing)];
  }

  lemma ClosedOpened(levels: seq<Level>, last: seq<Xml>, closing: string)
    requires |levels| > 0
    ensures var top, outer := levels[|levels| - 1], levels[..|levels| - 1];
            Opened(outer, top.before + [Nest(top.name, closing, last)]) == Opened(levels, last) + [End(closing)]
  {
    hide Events, Opened;
    var top, outer := levels[|levels| - 1], levels[..|levels| - 1];
    var x := Nest(top.name, closing, last);
    var a, b, c := Opened(outer, []), Events(top.before), Events(last);
    EventsAppend(top.before, [x]);
    OneEvents(x);
    OpenedBy(outer, top.before + [x]);
    OpenedBy(outer, top.before);
    OpenedLast(levels, last);
    Regroup(a, b, [Start(top.name)] + c, [End(closing)]);
    Regroup(a, b, [Start(top.name)], c);
  }

  lemma Regroup(a: seq<XmlEvent>, b: seq<XmlEvent>, c: seq<XmlEvent>, d: seq<XmlEvent>)
    ensures a + (b + (c + d)) == a + b + (c + d) == a + b + c + d == a + (b + c) + d == a + (b + c + d)
  {
  }

  lemma OpenedLast(levels: seq<Level>, last: seq<Xml>)
    requires |levels| > 0
    ensures var top := levels[|levels| - 1];
            Opened(levels, last) == Opened(levels[..|levels| - 1], top.before) + [Start(top.name)] + Events(last)
  {
  }

  lemma OpenedBy(levels: seq<Level>, last: seq<Xml>)
    ensures Opened(levels, last) == Opened(levels, []) + Events(last)
  {
    assert Events([]) == [];
  }

  /** A sound beginning is read with the names of the open elements on the stack. */
  lemma {:induction false} OpenedIsRead(levels: seq<Level>, last: seq<Xml>, rest: seq<XmlEvent>)
    requires Sound(levels, last)
    ensures Verdict(Opened(levels, last) + rest, []) == Verdict(rest, OpenNames(levels))
    decreases |levels|
  {
    hide Local, Verdict, Events;
    var n := |levels|;
    if n == 0 {
      ForestIsRead(last, rest, []);
      assert OpenNames(levels) == [];
    } else {
      var outer, top := levels[..n - 1], levels[n - 1];
      OpenedIsRead(outer, top.before, [Start(top.name)] + (Events(last) + rest));
      assert Opened(levels, last) + rest == Opened(outer, top.before) + ([Start(top.name)] + (Events(last) + rest));
      VerdictOfStart(top.name, Events(last) + rest, OpenNames(outer));
      assert OpenNames(levels) == OpenNames(outer) + [Local(top.name)];
      ForestIsRead(last, rest, OpenNames(levels));
    }
  }

  lemma FaultIsVerdict(levels: seq<Level>, rest: seq<XmlEvent>)
    requires Fault(levels, rest).Some? && |levels| <= ElementIndex.MAX_XML_NESTING_DEPTH
    ensures Verdict(rest, OpenNames(levels)) == Fault(levels, rest)
  {
    hide Local;
  }

  /** From a sound beginning on, a rejected stream goes on to the point where something is wrong. */
  lemma {:induction false} FaultIsReached(
    levels: seq<Level>, last: seq<Xml>, events: seq<XmlEvent>, e: NestingError)
    returns (levels': seq<Level>, last': seq<Xml>, rest: seq<XmlEvent>)
    requires Sound(levels, last) && Verdict(events, OpenNames(levels)) == Some(e)
    ensures FailsAt(Opened(levels, last) + events, levels', last', rest, e)
    decreases |events|
  {
    hide Local, Sound, Opened;
    if Fault(levels, events).Some? {
      SoundLevels(levels, last);
      FaultIsVerdict(levels, events);
      return levels, last, events;
    }
    SoundLevels(levels, last);
    NoFaultGoesOn(levels, events);
    var event, next := events[0], events[1..];
    assert Opened(levels, last) + events == Opened(levels, last) + [event] + next;
    if event.Start? {
      StartOpened(levels, last, event.name);
      levels', last', rest := FaultIsReached(levels + [Level(last, event.name)], [], next, e);
    } else if event.End? {
      EndOpened(levels, last, event.name);
      var top, outer := levels[|levels| - 1], levels[..|levels| - 1];
      assert OpenNames(levels)[..|levels| - 1] == OpenNames(outer);
      levels', last', rest := FaultIsReached(outer, top.before + [Nest(top.name, event.name, last)], next, e);
    } else {
      var x := if event.Empty? then Closed(event.name) else Text;
      LeafOpened(levels, last, x);
      levels', last', rest := FaultIsReached(levels, last + [x], next, e);
    }
  }

  lemma SoundLevels(levels: seq<Level>, last: seq<Xml>)
    requires Sound(levels, last)
    ensures |levels| <= ElementIndex.MAX_XML_NESTING_DEPTH
  {
  }

  lemma NoFaultGoesOn(levels: seq<Level>, events: seq<XmlEvent>)
    requires Fault(levels, events).None? && Verdict(events, OpenNames(levels)).Some?
    ensures |events| > 0 && !events[0].Malformed?
  {
  }

  /**
   * A stream is rejected with an error exactly when it is sound up to a point at which that is wrong,
   * so the error is the one at the first such point and says what it is.
   */
  lemma RejectedIff(events: seq<XmlEvent>, e: NestingError)
    ensures Verdict(events, []) == Some(e) <==> exists levels, last, rest :: FailsAt(events, levels, last, rest, e)
  {
    hide Sound;
    if Verdict(events, []) == Some(e) {
      NothingYet(events);
      var levels, last, rest := FaultIsReached([], [], events, e);
      assert FailsAt(events, levels, last, rest, e);
    }
    forall levels, last, rest | FailsAt(events, levels, last, rest, e) ensures Verdict(events, []) == Some(e) {
      OpenedIsRead(levels, last, rest);
      SoundLevels(levels, last);
      FaultIsVerdict(levels, rest);
    }
  }

  lemma NothingYet(events: seq<XmlEvent>)
    ensures Sound([], []) && OpenNames([]) == [] && Opened([], []) + events == events
  {
  }

  // ---- A stream serialises one forest only ------------------------------------------

  ghost predicate Stops(rest: seq<XmlEvent>) {
    |rest| == 0 || rest[0].End?
  }

  lemma SplitFirst(forest: seq<Xml>, rest: seq<XmlEvent>)
    requires |forest| > 0
    ensures |Events(forest) + rest| > 0
    ensures (Events(forest) + rest)[0] == if forest[0].Nest? then Start(forest[0].name) else Leaf(forest[0])
    ensures forest[0].Nest? ==>
              (Events(forest) + rest)[1..] == Events(forest[0].children)
                  + ([End(forest[0].closing)] + (Events(forest[1..]) + rest))
    ensures !forest[0].Nest? ==> (Events(forest) + rest)[1..] == Events(forest[1..]) + rest
  {
    hide Events;
    assert forest == [forest[0]] + forest[1..];
    if forest[0].Nest? {
      EventsOfNest(forest[0], forest[1..], rest);
    } else {
      EventsOfLeaf(forest[0], forest[1..], rest);
    }
  }

  /** What a stream serialises up to an unmatched end tag is determined by it. */
  lemma {:induction false} ForestIsUnique(f: seq<Xml>, g: seq<Xml>, p: seq<XmlEvent>, q: seq<XmlEvent>)
    requires Events(f) + p == Events(g) + q && Stops(p) && Stops(q)
    ensures f == g && p == q
    decreases f
  {
    if |f| == 0 || |g| == 0 {
      NoEvents(f, p);
      NoEvents(g, q);
    } else {
      SplitFirst(f, p);
      SplitFirst(g, q);
      hide Events;
      var x, y := f[0], g[0];
      if x.Nest? {
        var r, s := [End(x.closing)] + (Events(f[1..]) + p), [End(y.closing)] + (Events(g[1..]) + q);
        ForestIsUnique(x.children, y.children, r, s);
        assert r[0] == s[0] && r[1..] == Events(f[1..]) + p && s[1..] == Events(g[1..]) + q;
      }
      ForestIsUnique(f[1..], g[1..], p, q);
      assert f == [x] + f[1..] && g == [y] + g[1..];
    }
  }

  lemma NoEvents(f: seq<Xml>, p: seq<XmlEvent>)
    requires Stops(p)
    ensures Stops(Events(f) + p) <==> f == []
    ensures f == [] ==> Events(f) + p == p
  {
    if |f| > 0 {
      SplitFirst(f, p);
    }
  }

  // ---- The CMMN check -------------------------------------------------------------

  function CmmnVerdict(events: seq<XmlEvent>, depth: nat): Option<NestingError>
    decreases |events|
  {
    if |events| == 0 then None else
      match events[0]
      case Malformed => Some(MalformedXml)
      case Start(_) => if depth + 1 > MAX_CMMN_NESTING_DEPTH then Some(TooDeep) else CmmnVerdict(events[1..], depth + 1)
      case Empty(_) => if depth + 1 > MAX_CMMN_NESTING_DEPTH then Some(TooDeep) else CmmnVerdict(events[1..], depth)
      case End(_) => CmmnVerdict(events[1..], if depth == 0 then 0 else depth - 1)
      case Content => CmmnVerdict(events[1..], depth)
  }

  method RejectDeepNesting(events: seq<XmlEvent>) returns (error: Option<NestingError>)
    ensures error == CmmnVerdict(events, 0)
  {
    var depth: nat := 0;
    for i := 0 to |events|
      invariant CmmnVerdict(events[i..], depth) == CmmnVerdict(events, 0)
    {
      assert events[i..][0] == events[i] && events[i..][1..] == events[i + 1..];
      match events[i]
      case Start(_) =>
        depth := depth + 1;
        if depth > MAX_CMMN_NESTING_DEPTH {
          return Some(TooDeep);
        }
      case Empty(_) =>
        if depth + 1 > MAX_CMMN_NESTING_DEPTH {
          return Some(TooDeep);
        }
      case End(_) =>
        depth := if depth == 0 then 0 else depth - 1;
      case Malformed =>
        return Some(MalformedXml);
      case Content =>
    }
    assert events[|events|..] == [];
    return None;
  }

  /** Reading a forest costs its height and leaves the counter as it was. */
  lemma {:induction false} ForestIsCounted(forest: seq<Xml>, rest: seq<XmlEvent>, depth: nat)
    requires depth <= MAX_CMMN_NESTING_DEPTH
    ensures CmmnVerdict(Events(forest) + rest, depth)
         == if depth + XmlHeight(forest) <= MAX_CMMN_NESTING_DEPTH then CmmnVerdict(rest, depth) else Some(TooDeep)
    decreases forest
  {
    if |forest| == 0 {
      assert Events(forest) + rest == rest;
    } else {
      SplitFirst(forest, rest);
      var x, tail := forest[0], Events(forest[1..]) + rest;
      ForestIsCounted(forest[1..], rest, depth);
      if x.Nest? && depth < MAX_CMMN_NESTING_DEPTH {
        hide Events;
        ForestIsCounted(x.children, [End(x.closing)] + tail, depth + 1);
        assert ([End(x.closing)] + tail)[1..] == tail;
      }
    }
  }

  /** On a balanced stream the counter accepts exactly the documents of height at most 64. */
  lemma CmmnAcceptsIffShallow(forest: seq<Xml>)
    ensures CmmnVerdict(Events(forest), 0).None? <==> XmlHeight(forest) <= MAX_CMMN_NESTING_DEPTH
  {
    ForestIsCounted(forest, [], 0);
    assert Events(forest) + [] == Events(forest);
  }

  /** How many more elements are opened than closed from event `i` to just before event `j`. */
  function Excess(events: seq<XmlEvent>, i: nat, j: nat): int
    requires i <= j <= |events|
    decreases j - i
  {
    if i == j then 0
    else (if events[i].Start? then 1 else if events[i].End? then -1 else 0) + Excess(events, i + 1, j)
  }

  /** The event at `j` is acceptable after a start at depth `depth`. */
  ghost predicate Allowed(events: seq<XmlEvent>, depth: nat, j: nat)
    requires j < |events|
  {
    && !events[j].Malformed?
    && (events[j].Start? || events[j].Empty? ==>
          && depth + Excess(events, 0, j) < MAX_CMMN_NESTING_DEPTH
          && forall i :: 0 <= i <= j ==> Excess(events, i, j) < MAX_CMMN_NESTING_DEPTH)
  }

  lemma {:induction false} ExcessOfRest(events: seq<XmlEvent>, i: nat, j: nat)
    requires 1 <= i <= j <= |events|
    ensures Excess(events, i, j) == Excess(events[1..], i - 1, j - 1)
    decreases j - i
  {
    if i < j {
      ExcessOfRest(events, i + 1, j);
    }
  }

  function NextDepth(event: XmlEvent, depth: nat): nat {
    if event.Start? then depth + 1 else if event.End? && depth > 0 then depth - 1 else depth
  }

  lemma AllowedOfRest(events: seq<XmlEvent>, depth: nat, j: nat)
    requires 0 < j < |events|
    ensures Allowed(events, depth, j) <==> Allowed(events[1..], NextDepth(events[0], depth), j - 1)
  {
    hide Excess;
    var rest := events[1..];
    forall i | 1 <= i <= j ensures Excess(events, i, j) == Excess(rest, i - 1, j - 1) {
      ExcessOfRest(events, i, j);
    }
    ExcessFirst(events, j);
    if Allowed(events, depth, j) {
      var last := j - 1;
      forall i | 0 <= i <= last && (rest[last].Start? || rest[last].Empty?)
        ensures Excess(rest, i, last) < MAX_CMMN_NESTING_DEPTH
      {
        assert Excess(events, i + 1, j) < MAX_CMMN_NESTING_DEPTH;
      }
      assert Allowed(rest, NextDepth(events[0], depth), j - 1);
    }
    if Allowed(rest, NextDepth(events[0], depth), j - 1) {
      forall i | 0 <= i <= j && (events[j].Start? || events[j].Empty?)
        ensures Excess(events, i, j) < MAX_CMMN_NESTING_DEPTH
      {
        assert i > 0 ==> Excess(rest, i - 1, j - 1) < MAX_CMMN_NESTING_DEPTH;
      }
    }
  }

  lemma ExcessFirst(events: seq<XmlEvent>, j: nat)
    requires 0 < j <= |events|
    ensures Excess(events, 0, j) == (if events[0].Start? then 1 else if events[0].End? then -1 else 0)
                                    + Excess(events, 1, j)
  {
  }

  lemma AllowedFirst(events: seq<XmlEvent>, depth: nat)
    requires |events| > 0
    ensures Allowed(events, depth, 0) <==>
            !events[0].Malformed? && (events[0].Start? || events[0].Empty? ==> depth < MAX_CMMN_NESTING_DEPTH)
  {
    assert Excess(events, 0, 0) == 0;
  }

  lemma {:induction false} CountedIff(events: seq<XmlEvent>, depth: nat)
    ensures CmmnVerdict(events, depth).None? <==> forall j :: 0 <= j < |events| ==> Allowed(events, depth, j)
    decreases |events|
  {
    hide Allowed, Excess;
    if |events| > 0 {
      var rest, next := events[1..], NextDepth(events[0], depth);
      AllowedFirst(events, depth);
      CountedIff(rest, next);
      forall j | 0 < j < |events| ensures Allowed(events, depth, j) <==> Allowed(rest, next, j - 1) {
        AllowedOfRest(events, depth, j);
      }
      if forall j :: 0 <= j < |events| ==> Allowed(events, depth, j) {
        forall j | 0 <= j < |rest| ensures Allowed(rest, next, j) {
          assert Allowed(events, depth, j + 1);
        }
      }
    }
  }

  ghost predicate NeverDeep(events: seq<XmlEvent>) {
    && (forall j :: 0 <= j < |events| ==> !events[j].Malformed?)
    && (forall i, j :: 0 <= i <= j < |events| && (events[j].Start? || events[j].Empty?) ==>
          Excess(events, i, j) < MAX_CMMN_NESTING_DEPTH)
  }

  /**
   * On any stream, balanced or not, the counter accepts exactly when no event is malformed and no tag
   * opens an element where some stretch before it opened 64 elements more than it closed.
   */
  lemma CmmnAcceptsIff(events: seq<XmlEvent>)
    ensures CmmnVerdict(events, 0).None? <==> NeverDeep(events)
  {
    hide Excess, CmmnVerdict;
    CountedIff(events, 0);
    if CmmnVerdict(events, 0).None? {
      forall i, j | 0 <= i <= j < |events| && (events[j].Start? || events[j].Empty?)
        ensures Excess(events, i, j) < MAX_CMMN_NESTING_DEPTH
      {
        assert Allowed(events, 0, j);
      }
      forall j | 0 <= j < |events| ensures !events[j].Malformed? {
        assert Allowed(events, 0, j);
      }
    }
    if NeverDeep(events) {
      forall j | 0 <= j < |events| ensures Allowed(events, 0, j) {
      }
    }
  }

  // ---- The limit bounds the later passes --------------------------------------------

  /** `x` occurs in the forest, at any depth. */
  predicate Inside(x: Xml, forest: seq<Xml>)
    decreases forest
  {
    |forest| > 0 && (forest[0] == x || (forest[0].Nest? && Inside(x, forest[0].children)) || Inside(x, forest[1..]))
  }

  lemma {:induction false} InsideIsShallower(x: Xml, forest: seq<Xml>)
    requires Inside(x, forest) && x.Nest?
    ensures 1 + OpenDepth(x.children) <= OpenDepth(forest)
    decreases forest
  {
    if forest[0] != x {
      if forest[0].Nest? && Inside(x, forest[0].children) {
        InsideIsShallower(x, forest[0].children);
      } else {
        InsideIsShallower(x, forest[1..]);
      }
    }
  }

  /**
   * `e` was read from the XML element `x`: what a subprocess contains was read from elements inside
   * its own, directly or inside tags the parser does not know.
   */
  ghost predicate ReadFrom(e: Element, x: Xml)
    decreases e
  {
    !x.Text? && (e.IsSubProcess() && |e.children| > 0 ==> x.Nest? && AllReadFrom(e.children, x.children))
  }

  ghost predicate AllReadFrom(elements: seq<Element>, forest: seq<Xml>)
    decreases elements
  {
    |elements| > 0 ==> (exists x :: Inside(x, forest) && ReadFrom(elements[0], x)) && AllReadFrom(elements[1..], forest)
  }

  lemma {:induction false} ElementsNoDeeper(elements: seq<Element>, forest: seq<Xml>)
    requires AllReadFrom(elements, forest)
    ensures ElementIndex.Height(elements) <= 1 + OpenDepth(forest)
    decreases elements
  {
    if |elements| > 0 {
      var e := elements[0];
      var x :| Inside(x, forest) && ReadFrom(e, x);
      if e.IsSubProcess() && |e.children| > 0 {
        ElementsNoDeeper(e.children, x.children);
        InsideIsShallower(x, forest);
      }
      ElementsNoDeeper(elements[1..], forest);
    }
  }

  /**
   * The process elements of an accepted document stay one level clear of the limit, so no pass over
   * them is ever cut off: the map builder enters all of them.
   */
  lemma AcceptedIsNeverCutOff(forest: seq<Xml>, definitions: Xml, process: Xml, elements: seq<Element>)
    requires Verdict(Events(forest), []).None?
    requires Inside(definitions, forest) && definitions.Nest?
    requires Inside(process, definitions.children) && process.Nest?
    requires AllReadFrom(elements, process.children)
    ensures ElementIndex.Height(elements) < ElementIndex.MAX_XML_NESTING_DEPTH
    ensures ElementIndex.Upper(elements, ElementIndex.MAX_XML_NESTING_DEPTH) == ElementIndex.Nested(elements)
    ensures ElementIndex.Collected(elements, map[], 0) == ElementIndex.InsertAll(map[], ElementIndex.Nested(elements))
  {
    var same, rest := AcceptedIsForest(Events(forest), []);
    ForestIsUnique(forest, same, [], rest);
    InsideIsShallower(definitions, forest);
    InsideIsShallower(process, definitions.children);
    ElementsNoDeeper(elements, process.children);
    ElementIndex.UpperIsNested(elements, ElementIndex.MAX_XML_NESTING_DEPTH);
    ElementIndex.CollectedIs(elements, map[], 0);
  }
}
