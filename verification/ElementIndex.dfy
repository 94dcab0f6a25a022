/**
 * Post-processing, second pass: every subprocess gets a map from id to element over everything
 * inside it, and the process one over all of its elements. The maps hold copies, and the copy of a
 * subprocess carries its own map.
 */
module ElementIndex {
  import opened Common
  import opened FlowModel

  const MAX_XML_NESTING_DEPTH: nat := 512

  function Entered(m: map<Id, Element>, e: Element): map<Id, Element> {
    if e.Name().Some? then m[e.Name().value := e] else m
  }

  /** What `populate_element_map` adds to `m`, given up at the nesting cap. */
  function Collected(elements: seq<Element>, m: map<Id, Element>, depth: nat): map<Id, Element>
    decreases elements
  {
    if depth >= MAX_XML_NESTING_DEPTH || |elements| == 0 then m else
      var m1 := Entered(m, elements[0]);
      var m2 := if elements[0].IsSubProcess() then Collected(elements[0].children, m1, depth + 1) else m1;
      Collected(elements[1..], m2, depth)
  }

  /** An element with the maps of all subprocesses in it filled in. */
  function Indexed(e: Element, depth: nat): Element
    decreases e
  {
    if depth >= MAX_XML_NESTING_DEPTH || !e.IsSubProcess() then e else
      var children := IndexedAll(e.children, depth + 1);
      e.(children := children, elementMap := Collected(children, map[], depth + 1))
  }

  function IndexedAll(elements: seq<Element>, depth: nat): seq<Element>
    decreases elements
  {
    if |elements| == 0 then [] else [Indexed(elements[0], depth)] + IndexedAll(elements[1..], depth)
  }

  function WithDataObjects(m: map<Id, Element>, objects: seq<Element>): map<Id, Element> {
    if |objects| == 0 then m else
      var rest := WithDataObjects(m, objects[..|objects| - 1]);
      var o := objects[|objects| - 1];
      if o.Name().Some? && o.Name().value !in rest then rest[o.Name().value := o] else rest
  }

  // ---- The pass as it runs --------------------------------------------------------

  method PopulateElementMap(elements: seq<Element>, m0: map<Id, Element>, depth: nat) returns (m: map<Id, Element>)
    ensures m == Collected(elements, m0, depth)
    decreases elements
  {
    m := m0;
    if depth >= MAX_XML_NESTING_DEPTH {
      return;
    }
    for i := 0 to |elements|
      invariant Collected(elements[i..], m, depth) == Collected(elements, m0, depth)
    {
      var e := elements[i];
      assert elements[i..][0] == e && elements[i..][1..] == elements[i + 1..];
      m := Entered(m, e);
      if e.IsSubProcess() {
        m := PopulateElementMap(e.children, m, depth + 1);
      }
    }
    assert elements[|elements|..] == [];
  }

  lemma {:induction false} IndexedAllAt(elements: seq<Element>, depth: nat)
    ensures |IndexedAll(elements, depth)| == |elements|
    ensures forall i :: 0 <= i < |elements| ==> IndexedAll(elements, depth)[i] == Indexed(elements[i], depth)
  {
    hide Indexed;
    if |elements| > 0 {
      IndexedAllAt(elements[1..], depth);
    }
  }

  method PopulateSubProcessMaps(e: Element, depth: nat) returns (r: Element)
    ensures r == Indexed(e, depth)
    decreases e
  {
    r := e;
    if depth >= MAX_XML_NESTING_DEPTH || !e.IsSubProcess() {
      return;
    }
    var children := e.children;
    for i := 0 to |children|
      invariant |children| == |e.children|
      invariant forall j :: 0 <= j < i ==> children[j] == Indexed(e.children[j], depth + 1)
      invariant forall j :: i <= j < |children| ==> children[j] == e.children[j]
    {
      var child := PopulateSubProcessMaps(e.children[i], depth + 1);
      children := children[i := child];
    }
    IndexedAllAt(e.children, depth + 1);
    assert children == IndexedAll(e.children, depth + 1);
    var m := PopulateElementMap(children, map[], depth + 1);
    r := r.(children := children, elementMap := m);
  }

  /** The process's elements with their maps, and the process's own map. */
  method PopulateAllMaps(elements: seq<Element>, dataObjects: seq<Element>)
    returns (finished: seq<Element>, index: map<Id, Element>)
    ensures finished == IndexedAll(elements, 0)
    ensures index == WithDataObjects(Collected(finished, map[], 0), dataObjects)
  {
    finished := elements;
    for i := 0 to |elements|
      invariant |finished| == |elements|
      invariant forall j :: 0 <= j < i ==> finished[j] == Indexed(elements[j], 0)
      invariant forall j :: i <= j < |elements| ==> finished[j] == elements[j]
    {
      var e := PopulateSubProcessMaps(elements[i], 0);
      finished := finished[i := e];
    }
    IndexedAllAt(elements, 0);
    assert finished == IndexedAll(elements, 0);
    index := PopulateElementMap(finished, map[], 0);
    ghost var collected := index;
    for k := 0 to |dataObjects|
      invariant index == WithDataObjects(collected, dataObjects[..k])
    {
      assert dataObjects[..k + 1][..k] == dataObjects[..k];
      var o := dataObjects[k];
      if o.Name().Some? && o.Name().value !in index {
        index := index[o.Name().value := o];
      }
    }
    assert dataObjects[..|dataObjects|] == dataObjects;
  }

  // ---- All elements, down to a level ----------------------------------------------

  /** The elements of the first `levels` levels, parents before what they contain. */
  function Upper(elements: seq<Element>, levels: nat): seq<Element>
    decreases elements
  {
    if levels == 0 || |elements| == 0 then [] else
      [elements[0]]
      + (if elements[0].IsSubProcess() then Upper(elements[0].children, levels - 1) else [])
      + Upper(elements[1..], levels)
  }

  /** The elements at every level. */
  function Nested(elements: seq<Element>): seq<Element>
    decreases elements
  {
    if |elements| == 0 then [] else
      [elements[0]]
      + (if elements[0].IsSubProcess() then Nested(elements[0].children) else [])
      + Nested(elements[1..])
  }

  function Height(elements: seq<Element>): nat
    decreases elements
  {
    if |elements| == 0 then 0 else
      var here := 1 + if elements[0].IsSubProcess() then Height(elements[0].children) else 0;
      var rest := Height(elements[1..]);
      if here > rest then here else rest
  }

  lemma {:induction false} UpperIsNested(elements: seq<Element>, levels: nat)
    ensures |Upper(elements, levels)| <= |Nested(elements)|
    ensures Height(elements) <= levels ==> Upper(elements, levels) == Nested(elements)
    ensures Height(elements) > levels ==> |Upper(elements, levels)| < |Nested(elements)|
    decreases elements
  {
    if levels > 0 && |elements| > 0 {
      if elements[0].IsSubProcess() {
        UpperIsNested(elements[0].children, levels - 1);
      }
      UpperIsNested(elements[1..], levels);
    }
  }

  function InsertAll(m: map<Id, Element>, s: seq<Element>): map<Id, Element>
    decreases |s|
  {
    if |s| == 0 then m else InsertAll(Entered(m, s[0]), s[1..])
  }

  lemma {:induction false} InsertSplit(m: map<Id, Element>, a: seq<Element>, b: seq<Element>)
    ensures InsertAll(m, a + b) == InsertAll(InsertAll(m, a), b)
    decreases |a|
  {
    if |a| == 0 {
      assert a + b == b;
    } else {
      assert (a + b)[1..] == a[1..] + b;
      InsertSplit(Entered(m, a[0]), a[1..], b);
    }
  }

  /** The recursive walk enters the upper levels, parents first. */
  lemma {:induction false} CollectedIs(elements: seq<Element>, m: map<Id, Element>, depth: nat)
    requires depth <= MAX_XML_NESTING_DEPTH
    ensures Collected(elements, m, depth) == InsertAll(m, Upper(elements, MAX_XML_NESTING_DEPTH - depth))
    decreases elements
  {
    if depth < MAX_XML_NESTING_DEPTH && |elements| > 0 {
      var levels := MAX_XML_NESTING_DEPTH - depth;
      var e, rest := elements[0], elements[1..];
      var inner := if e.IsSubProcess() then Upper(e.children, levels - 1) else [];
      var m1 := Entered(m, e);
      if e.IsSubProcess() {
        CollectedIs(e.children, m1, depth + 1);
      }
      CollectedIs(rest, InsertAll(m1, inner), depth);
      InsertSplit(m, [e], inner + Upper(rest, levels));
      InsertSplit(m1, inner, Upper(rest, levels));
      assert [e] + inner + Upper(rest, levels) == [e] + (inner + Upper(rest, levels));
      assert InsertAll(m, [e]) == m1;
    }
  }

  // ---- What a map holds -----------------------------------------------------------

  ghost predicate Bears(s: seq<Element>, id: Id) {
    exists i :: 0 <= i < |s| && s[i].Name() == Some(id)
  }

  /** `m` maps every id borne inside `elements`, at any depth, to the element bearing it, and nothing else. */
  ghost predicate IsIndex(m: map<Id, Element>, elements: seq<Element>) {
    && (forall id :: id in m <==> Bears(Nested(elements), id))
    && (forall i :: 0 <= i < |Nested(elements)| && Nested(elements)[i].Name().Some? ==>
          m[Nested(elements)[i].Name().value] == Nested(elements)[i])
  }

  lemma {:induction false} InsertedKeys(m: map<Id, Element>, s: seq<Element>, id: Id)
    ensures id in InsertAll(m, s) <==> id in m || Bears(s, id)
    decreases |s|
  {
    if |s| > 0 {
      InsertedKeys(Entered(m, s[0]), s[1..], id);
      assert s == [s[0]] + s[1..];
      assert Bears(s, id) <==> s[0].Name() == Some(id) || Bears(s[1..], id) by {
        assert forall i :: 0 < i < |s| ==> s[i] == s[1..][i - 1];
      }
    }
  }

  lemma {:induction false} InsertedValues(m: map<Id, Element>, s: seq<Element>, id: Id)
    requires DistinctNames(s)
    ensures !Bears(s, id) && id in m ==> id in InsertAll(m, s) && InsertAll(m, s)[id] == m[id]
    ensures forall i :: 0 <= i < |s| && s[i].Name() == Some(id) ==> id in InsertAll(m, s) && InsertAll(m, s)[id] == s[i]
    decreases |s|
  {
    if |s| > 0 {
      var rest := s[1..];
      assert forall i :: 0 <= i < |rest| ==> rest[i] == s[i + 1];
      InsertedValues(Entered(m, s[0]), rest, id);
      assert Bears(rest, id) ==> Bears(s, id);
      assert s[0].Name() == Some(id) ==> !Bears(rest, id);
    }
  }

  lemma InsertedIsIndex(elements: seq<Element>)
    requires DistinctNames(Nested(elements))
    ensures IsIndex(InsertAll(map[], Nested(elements)), elements)
  {
    var s := Nested(elements);
    var m := InsertAll(map[], s);
    hide Nested, InsertAll;
    forall id ensures id in m <==> Bears(s, id) {
      InsertedKeys(map[], s, id);
    }
    forall i | 0 <= i < |s| && s[i].Name().Some? ensures m[s[i].Name().value] == s[i] {
      InsertedValues(map[], s, s[i].Name().value);
    }
  }

  lemma IndexAtDepth(children: seq<Element>, depth: nat)
    requires depth + Height(children) <= MAX_XML_NESTING_DEPTH && DistinctNames(Nested(children))
    ensures IsIndex(Collected(children, map[], depth), children)
  {
    hide Collected, IsIndex, Nested, Upper, InsertAll, DistinctNames;
    CollectedIs(children, map[], depth);
    UpperIsNested(children, MAX_XML_NESTING_DEPTH - depth);
    InsertedIsIndex(children);
  }

  lemma NoIndexBeyondCap(elements: seq<Element>, depth: nat)
    requires depth <= MAX_XML_NESTING_DEPTH < depth + Height(elements) && DistinctNames(Nested(elements))
    requires forall i :: 0 <= i < |Nested(elements)| ==> Nested(elements)[i].Name().Some?
    ensures !IsIndex(Collected(elements, map[], depth), elements)
  {
    var levels := MAX_XML_NESTING_DEPTH - depth;
    CollectedIs(elements, map[], depth);
    UpperIsNested(elements, levels);
    hide Nested, Upper, InsertAll, Height, Collected;
    FewerThanAll(Nested(elements), Upper(elements, levels), Collected(elements, map[], depth));
  }

  /**
   * Among distinctly named elements the collected map is the complete index exactly when the
   * nesting stays within the cap.
   */
  lemma IndexIsCompleteIff(elements: seq<Element>, depth: nat)
    requires depth <= MAX_XML_NESTING_DEPTH && DistinctNames(Nested(elements))
    requires forall i :: 0 <= i < |Nested(elements)| ==> Nested(elements)[i].Name().Some?
    ensures IsIndex(Collected(elements, map[], depth), elements) <==> Height(elements) <= MAX_XML_NESTING_DEPTH - depth
  {
    hide Nested, Height, Collected, IsIndex;
    if depth + Height(elements) <= MAX_XML_NESTING_DEPTH {
      IndexAtDepth(elements, depth);
    } else {
      NoIndexBeyondCap(elements, depth);
    }
  }

  /** Fewer insertions than names cannot reach every name. */
  lemma FewerThanAll(all: seq<Element>, upper: seq<Element>, m: map<Id, Element>)
    requires DistinctNames(all) && |upper| < |all| && m == InsertAll(map[], upper)
    requires forall i :: 0 <= i < |all| ==> all[i].Name().Some?
    ensures exists id :: Bears(all, id) && id !in m
  {
    var names := seq(|all|, i requires 0 <= i < |all| => all[i].Name().value);
    var reached := set i | 0 <= i < |upper| :: upper[i].Name();
    ReachedBound(upper);
    if forall id :: Bears(all, id) ==> id in m {
      var wrapped := seq(|all|, i requires 0 <= i < |all| => all[i].Name());
      forall i | 0 <= i < |all| ensures wrapped[i] in reached {
        assert Bears(all, names[i]);
        InsertedKeys(map[], upper, names[i]);
      }
      assert Distinct(wrapped);
      DistinctLength(wrapped, reached);
      assert false;
    }
  }

  lemma {:induction false} ReachedBound(s: seq<Element>)
    ensures |set i | 0 <= i < |s| :: s[i].Name()| <= |s|
  {
    if |s| > 0 {
      var rest := s[..|s| - 1];
      ReachedBound(rest);
      var a, b := (set i | 0 <= i < |s| :: s[i].Name()), (set i | 0 <= i < |rest| :: rest[i].Name());
      assert a == b + {s[|s| - 1].Name()} by {
        assert forall i :: 0 <= i < |rest| ==> rest[i] == s[i];
      }
    }
  }

  // ---- Indexing keeps names and nesting -------------------------------------------

  ghost predicate SameNames(a: seq<Element>, b: seq<Element>) {
    |a| == |b| && forall i :: 0 <= i < |a| ==> a[i].Name() == b[i].Name()
  }

  /** Indexing changes nothing of an element but its map and what it contains. */
  lemma IndexedKeepsRest(e: Element, depth: nat)
    ensures var r := Indexed(e, depth);
            && r.Node? == e.Node?
            && (e.Flow? ==> r == e)
            && (e.Node? ==> r.(children := e.children, elementMap := e.elementMap) == e)
            && (!e.IsSubProcess() ==> r == e)
            && (e.IsSubProcess() ==>
                  r.children == if depth < MAX_XML_NESTING_DEPTH then IndexedAll(e.children, depth + 1) else e.children)
  {
    hide Collected, IndexedAll;
  }

  /** What indexing leaves of an element. */
  lemma IndexedHead(e: Element, depth: nat)
    ensures var r := Indexed(e, depth);
            && r.IsSubProcess() == e.IsSubProcess() && r.Name() == e.Name()
            && (e.IsSubProcess() ==> r.children == e.children || r.children == IndexedAll(e.children, depth + 1))
  {
    hide Collected, IndexedAll;
  }

  lemma {:induction false} IndexedKeepsHeight(elements: seq<Element>, depth: nat)
    ensures Height(IndexedAll(elements, depth)) == Height(elements)
    decreases elements
  {
    hide Indexed;
    if |elements| > 0 {
      var e, rest := elements[0], elements[1..];
      IndexedKeepsHeight(rest, depth);
      if e.IsSubProcess() {
        IndexedKeepsHeight(e.children, depth + 1);
      }
      IndexedHead(e, depth);
      var all := IndexedAll(elements, depth);
      assert all[0] == Indexed(e, depth) && all[1..] == IndexedAll(rest, depth);
    }
  }

  lemma SameNamesJoin(a: seq<Element>, b: seq<Element>, a': seq<Element>, b': seq<Element>)
    requires SameNames(a, a') && SameNames(b, b')
    ensures SameNames(a + b, a' + b')
  {
  }

  lemma {:induction false} IndexedKeepsNames(elements: seq<Element>, depth: nat)
    ensures SameNames(Nested(IndexedAll(elements, depth)), Nested(elements))
    decreases elements
  {
    hide Indexed, Nested, SameNames;
    if |elements| > 0 {
      var e, rest := elements[0], elements[1..];
      IndexedKeepsNames(rest, depth);
      if e.IsSubProcess() {
        IndexedKeepsNames(e.children, depth + 1);
      }
      IndexedHead(e, depth);
      var r := Indexed(e, depth);
      NestedCons(e, rest);
      NestedCons(r, IndexedAll(rest, depth));
      assert elements == [e] + rest;
      var inner := if r.IsSubProcess() then Nested(r.children) else [];
      var inner' := if e.IsSubProcess() then Nested(e.children) else [];
      SameNamesRefl(inner');
      OneName(r, e);
      SameNamesJoin([r], inner, [e], inner');
      SameNamesJoin([r] + inner, Nested(IndexedAll(rest, depth)), [e] + inner', Nested(rest));
    } else {
      NothingNested();
    }
  }

  lemma SameNamesRefl(a: seq<Element>)
    ensures SameNames(a, a)
  {
  }

  lemma OneName(a: Element, b: Element)
    requires a.Name() == b.Name()
    ensures SameNames([a], [b])
  {
  }

  lemma NothingNested()
    ensures Nested([]) == [] && SameNames([], [])
  {
  }

  lemma IndexedKeepsShape(elements: seq<Element>, depth: nat)
    ensures Height(IndexedAll(elements, depth)) == Height(elements)
    ensures SameNames(Nested(IndexedAll(elements, depth)), Nested(elements))
  {
    hide *;
    IndexedKeepsHeight(elements, depth);
    IndexedKeepsNames(elements, depth);
  }

  lemma DistinctParts(a: seq<Element>, b: seq<Element>, c: seq<Element>)
    requires DistinctNames(a + b + c)
    ensures DistinctNames(b) && DistinctNames(c)
  {
    var all := a + b + c;
    assert forall i :: 0 <= i < |b| ==> all[|a| + i] == b[i];
    assert forall i :: 0 <= i < |c| ==> all[|a| + |b| + i] == c[i];
  }

  lemma SameNamesDistinct(a: seq<Element>, b: seq<Element>)
    requires SameNames(a, b) && DistinctNames(b)
    ensures DistinctNames(a)
  {
  }

  /** Every subprocess among these elements has the complete index of what is inside it. */
  ghost predicate AllIndexed(s: seq<Element>) {
    forall i :: 0 <= i < |s| && s[i].IsSubProcess() ==> IsIndex(s[i].elementMap, s[i].children)
  }

  lemma AllIndexedJoin(a: seq<Element>, b: seq<Element>, c: seq<Element>)
    requires AllIndexed(a) && AllIndexed(b) && AllIndexed(c)
    ensures AllIndexed(a + b + c)
  {
    hide IsIndex;
    var all := a + b + c;
    assert forall x :: x in all <==> x in a || x in b || x in c;
    forall i | 0 <= i < |all| && all[i].IsSubProcess() ensures IsIndex(all[i].elementMap, all[i].children) {
      assert all[i] in all;
    }
  }

  lemma OneIsIndexed(e: Element, depth: nat)
    requires e.IsSubProcess() && DistinctNames(Nested(e.children))
    requires depth < MAX_XML_NESTING_DEPTH && depth + 1 + Height(e.children) <= MAX_XML_NESTING_DEPTH
    ensures var r := Indexed(e, depth);
            && r.IsSubProcess() && r.children == IndexedAll(e.children, depth + 1)
            && IsIndex(r.elementMap, r.children)
  {
    var r := Indexed(e, depth);
    IndexedKeepsShape(e.children, depth + 1);
    SameNamesDistinct(Nested(r.children), Nested(e.children));
    IndexAtDepth(r.children, depth + 1);
  }

  lemma NestedCons(e: Element, rest: seq<Element>)
    ensures Nested([e] + rest) == [e] + (if e.IsSubProcess() then Nested(e.children) else []) + Nested(rest)
    ensures Height([e] + rest) >= Height(rest)
    ensures Height([e] + rest) >= 1 + if e.IsSubProcess() then Height(e.children) else 0
  {
    assert ([e] + rest)[1..] == rest;
  }

  lemma IndexedCons(elements: seq<Element>, depth: nat)
    requires |elements| > 0
    ensures IndexedAll(elements, depth) == [Indexed(elements[0], depth)] + IndexedAll(elements[1..], depth)
  {
  }

  /** After the pass every subprocess, at every depth, agrees with its own finished subtree. */
  lemma {:induction false} SubProcessesAreIndexed(elements: seq<Element>, depth: nat)
    requires depth + Height(elements) <= MAX_XML_NESTING_DEPTH && DistinctNames(Nested(elements))
    ensures AllIndexed(Nested(IndexedAll(elements, depth)))
    decreases elements
  {
    if |elements| > 0 {
      hide Nested, Height, IsIndex, Collected, IndexedAll, DistinctNames;
      var e, rest := elements[0], elements[1..];
      assert elements == [e] + rest;
      var r, rest' := Indexed(e, depth), IndexedAll(rest, depth);
      IndexedCons(elements, depth);
      NestedCons(e, rest);
      NestedCons(r, rest');
      DistinctParts([e], if e.IsSubProcess() then Nested(e.children) else [], Nested(rest));
      SubProcessesAreIndexed(rest, depth);
      if e.IsSubProcess() {
        OneIsIndexed(e, depth);
        SubProcessesAreIndexed(e.children, depth + 1);
      }
      assert AllIndexed([r]);
      AllIndexedJoin([r], if r.IsSubProcess() then Nested(r.children) else [], Nested(rest'));
    }
  }

  /** The finished process: its map is the index of its finished elements, and so is every subprocess's. */
  lemma ProcessIsIndexed(elements: seq<Element>)
    requires Height(elements) <= MAX_XML_NESTING_DEPTH && DistinctNames(Nested(elements))
    ensures var finished := IndexedAll(elements, 0);
            && IsIndex(Collected(finished, map[], 0), finished)
            && AllIndexed(Nested(finished))
            && SameNames(Nested(finished), Nested(elements))
  {
    SubProcessesAreIndexed(elements, 0);
    IndexedKeepsShape(elements, 0);
    SameNamesDistinct(Nested(IndexedAll(elements, 0)), Nested(elements));
    IndexAtDepth(IndexedAll(elements, 0), 0);
  }

  /** Data objects fill in only the ids no element bears, the first of each id winning. */
  lemma {:induction false} DataObjectsFillIn(m: map<Id, Element>, objects: seq<Element>, id: Id)
    ensures id in WithDataObjects(m, objects) <==> id in m || Bears(objects, id)
    ensures id in m ==> WithDataObjects(m, objects)[id] == m[id]
    ensures id !in m && DistinctNames(objects) ==>
              forall i :: 0 <= i < |objects| && objects[i].Name() == Some(id) ==>
                  WithDataObjects(m, objects)[id] == objects[i]
  {
    if |objects| > 0 {
      var n := |objects| - 1;
      var rest := objects[..n];
      assert forall i :: 0 <= i < n ==> rest[i] == objects[i];
      DataObjectsFillIn(m, rest, id);
      assert Bears(objects, id) <==> Bears(rest, id) || objects[n].Name() == Some(id);
    }
  }
}
