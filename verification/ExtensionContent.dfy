/**
 * What the generic extension parser takes from a stream, said without the parser's own steps: where
 * an element ends, which texts and which elements are directly inside it, and which attribute of a
 * tag counts when a key is repeated. And what the writer puts into a tag, for any element.
 */
module ExtensionContent {
  import opened Common
  import opened ExtensionXml

  // ---- Where content ends -----------------------------------------------------------

  /** What follows the content of an element `tag`: the first end tag of that name not taken by an inner element. */
  function AfterContent(ts: seq<Token>, tag: string): (rest: seq<Token>)
    ensures |rest| <= |ts|
    decreases |ts|
  {
    if |ts| == 0 then []
    else if ts[0].Start? then AfterContent(AfterContent(ts[1..], ElementName(ts[0].name)), tag)
    else if ts[0].End? && ElementName(ts[0].name) == tag then ts[1..]
    else AfterContent(ts[1..], tag)
  }

  /** The texts directly inside, those of inner elements left out, in stream order. */
  function DirectTexts(ts: seq<Token>, tag: string): seq<string>
    decreases |ts|
  {
    if |ts| == 0 then []
    else if ts[0].Start? then DirectTexts(AfterContent(ts[1..], ElementName(ts[0].name)), tag)
    else if ts[0].End? && ElementName(ts[0].name) == tag then []
    else if ts[0].Text? || ts[0].CData? then [ts[0].text] + DirectTexts(ts[1..], tag)
    else DirectTexts(ts[1..], tag)
  }

  /** Where in the stream the elements directly inside begin. */
  function DirectStarts(ts: seq<Token>, tag: string): seq<seq<Token>>
    decreases |ts|
  {
    if |ts| == 0 then []
    else if ts[0].Start? then [ts] + DirectStarts(AfterContent(ts[1..], ElementName(ts[0].name)), tag)
    else if ts[0].Empty? then [ts] + DirectStarts(ts[1..], tag)
    else if ts[0].End? && ElementName(ts[0].name) == tag then []
    else DirectStarts(ts[1..], tag)
  }

  /** The normalised texts, one after the other; blank ones add nothing. */
  function Joined(texts: seq<string>): string {
    if |texts| == 0 then "" else Normalised(texts[0]) + Joined(texts[1..])
  }

  /** Text gathered so far and what more texts make of it: missing only as long as all are blank. */
  function WithTexts(text: Option<string>, texts: seq<string>): Option<string> {
    if text.None? && Joined(texts) == "" then None
    else Some((if text.Some? then text.value else "") + Joined(texts))
  }

  lemma {:induction false} BlankTexts(texts: seq<string>)
    ensures Joined(texts) == "" <==> forall i :: 0 <= i < |texts| ==> Normalised(texts[i]) == ""
  {
    hide Normalised;
    if |texts| > 0 {
      BlankTexts(texts[1..]);
      assert forall i :: 0 < i < |texts| ==> texts[i] == texts[1..][i - 1];
      if Joined(texts) == "" {
        assert |Joined(texts)| == |Normalised(texts[0])| + |Joined(texts[1..])|;
      }
      if forall i :: 0 <= i < |texts| ==> Normalised(texts[i]) == "" {
        forall i | 0 <= i < |texts| - 1 ensures Normalised(texts[1..][i]) == "" {
          assert texts[1..][i] == texts[i + 1];
        }
      }
    }
  }

  lemma AddTextIs(e: ExtensionElement, raw: string, more: seq<string>)
    ensures WithTexts(AddText(e, raw).text, more) == WithTexts(e.text, [raw] + more)
  {
    hide Normalised;
    assert ([raw] + more)[1..] == more;
    var text := Normalised(raw);
    assert Joined([raw] + more) == text + Joined(more);
    if text == "" {
      assert text + Joined(more) == Joined(more);
    } else if e.text.Some? {
      assert e.text.value + text + Joined(more) == e.text.value + (text + Joined(more));
    } else {
      assert "" + (text + Joined(more)) == text + Joined(more);
    }
  }

  /** Reading content stops where it ends and gathers the texts directly inside, in order. */
  lemma {:induction false} ContentText(ts: seq<Token>, e: ExtensionElement, tag: string, env: map<string, string>)
    ensures ParsedContent(ts, e, tag, env).1 == AfterContent(ts, tag)
    ensures ParsedContent(ts, e, tag, env).0.text == WithTexts(e.text, DirectTexts(ts, tag))
    ensures ParsedContent(ts, e, tag, env).0.(text := None, children := []) == e.(text := None, children := [])
    decreases |ts|
  {
    hide Normalised, Opened, Scope, Readable, ElementName;
    if |ts| == 0 {
      NoMoreText(e.text);
    } else {
      match ts[0] {
        case Start(name, attrs) =>
          var inner := Scope(env, Readable(attrs));
          ContentText(ts[1..], Opened(name, attrs, env), ElementName(name), inner);
          var (child, rest) := ParsedContent(ts[1..], Opened(name, attrs, env), ElementName(name), inner);
          ContentText(rest, AddChild(e, ElementName(name), child), tag, env);
        case Empty(name, attrs) =>
          ContentText(ts[1..], AddChild(e, ElementName(name), Opened(name, attrs, env)), tag, env);
        case Text(raw) =>
          ContentText(ts[1..], AddText(e, raw), tag, env);
          AddTextIs(e, raw, DirectTexts(ts[1..], tag));
        case CData(raw) =>
          ContentText(ts[1..], AddText(e, raw), tag, env);
          AddTextIs(e, raw, DirectTexts(ts[1..], tag));
        case End(name) =>
          NoMoreText(e.text);
          if ElementName(name) != tag {
            ContentText(ts[1..], e, tag, env);
          }
      }
    }
  }

  lemma NoMoreText(text: Option<string>)
    ensures WithTexts(text, []) == text
  {
    if text.Some? {
      assert text.value + "" == text.value;
    }
  }

  /**
   * The text of an element that was read is the normalised texts directly inside it, one after the
   * other in stream order, and it has none exactly when they are all blank; the stream is left right
   * behind the element.
   */
  lemma ElementText(ts: seq<Token>, env: map<string, string>)
    requires |ts| > 0 && ts[0].Start?
    ensures var texts := DirectTexts(ts[1..], ElementName(ts[0].name));
            var (e, rest) := ParsedElement(ts, env);
            && rest == AfterContent(ts[1..], ElementName(ts[0].name))
            && (e.text.None? <==> forall i :: 0 <= i < |texts| ==> Normalised(texts[i]) == "")
            && (e.text.Some? ==> e.text.value == Joined(texts))
  {
    hide Normalised, Scope, Readable, ElementName;
    var tag := ElementName(ts[0].name);
    var head := Opened(ts[0].name, ts[0].attrs, env);
    ContentText(ts[1..], head, tag, Scope(env, Readable(ts[0].attrs)));
    var texts := DirectTexts(ts[1..], tag);
    BlankTexts(texts);
    assert "" + Joined(texts) == Joined(texts);
  }

  // ---- Children ---------------------------------------------------------------------

  /** The list kept under a key. */
  function Under<T>(groups: seq<Group<T>>, key: string): seq<T> {
    if |groups| == 0 then [] else if groups[0].key == key then groups[0].values else Under(groups[1..], key)
  }

  lemma {:induction false} PushUnder<T>(groups: seq<Group<T>>, key: string, x: T, k: string)
    ensures Under(Push(groups, key, x), k) == Under(groups, k) + if k == key then [x] else []
  {
    if |groups| == 0 {
      assert [] + [x] == [x];
    } else if groups[0].key == key {
      var all := Push(groups, key, x);
      assert all[1..] == groups[1..];
    } else {
      PushUnder(groups[1..], key, x, k);
      assert Push(groups, key, x)[1..] == Push(groups[1..], key, x);
    }
  }

  /** The elements read from these places, those called `k`. */
  function ReadAt(starts: seq<seq<Token>>, env: map<string, string>, k: string): seq<ExtensionElement> {
    if |starts| == 0 then []
    else if |starts[0]| == 0 || !(starts[0][0].Start? || starts[0][0].Empty?) then ReadAt(starts[1..], env, k)
    else (if ElementName(starts[0][0].name) == k then [ParsedElement(starts[0], env).0] else [])
         + ReadAt(starts[1..], env, k)
  }

  lemma ReadAtFirst(ts: seq<Token>, more: seq<seq<Token>>, env: map<string, string>, k: string)
    requires |ts| > 0 && (ts[0].Start? || ts[0].Empty?)
    ensures ReadAt([ts] + more, env, k)
         == (if ElementName(ts[0].name) == k then [ParsedElement(ts, env).0] else []) + ReadAt(more, env, k)
  {
    hide ParsedElement, ElementName;
    assert ([ts] + more)[1..] == more;
  }

  /** Under each name are kept, in stream order, the elements of that name directly inside. */
  lemma {:induction false} ContentChildren(
      ts: seq<Token>, e: ExtensionElement, tag: string, env: map<string, string>, k: string)
    ensures Under(ParsedContent(ts, e, tag, env).0.children, k)
         == Under(e.children, k) + ReadAt(DirectStarts(ts, tag), env, k)
    decreases |ts|
  {
    hide Normalised, Opened, Scope, Readable, ElementName, Under;
    var had := Under(e.children, k);
    if |ts| == 0 {
      assert had + [] == had;
    } else {
      match ts[0] {
        case Start(name, attrs) =>
          var (child, rest) := ParsedElement(ts, env);
          ContentText(ts[1..], Opened(name, attrs, env), ElementName(name), Scope(env, Readable(attrs)));
          PushUnder(e.children, ElementName(name), child, k);
          ContentChildren(rest, AddChild(e, ElementName(name), child), tag, env, k);
          ReadAtFirst(ts, DirectStarts(rest, tag), env, k);
          Regrouped(had, if ElementName(name) == k then [child] else [], ReadAt(DirectStarts(rest, tag), env, k));
        case Empty(name, attrs) =>
          var child, rest := Opened(name, attrs, env), ts[1..];
          PushUnder(e.children, ElementName(name), child, k);
          ContentChildren(rest, AddChild(e, ElementName(name), child), tag, env, k);
          ReadAtFirst(ts, DirectStarts(rest, tag), env, k);
          Regrouped(had, if ElementName(name) == k then [child] else [], ReadAt(DirectStarts(rest, tag), env, k));
        case Text(raw) => ContentChildren(ts[1..], AddText(e, raw), tag, env, k);
        case CData(raw) => ContentChildren(ts[1..], AddText(e, raw), tag, env, k);
        case End(name) =>
          if ElementName(name) != tag {
            ContentChildren(ts[1..], e, tag, env, k);
          } else {
            assert had + [] == had;
          }
      }
    }
  }

  lemma Regrouped(a: seq<ExtensionElement>, b: seq<ExtensionElement>, c: seq<ExtensionElement>)
    ensures a + b + c == a + (b + c)
  {
  }

  /** The children of a read element, name by name in stream order, each read with the namespaces in force inside. */
  lemma ElementChildren(ts: seq<Token>, env: map<string, string>, k: string)
    requires |ts| > 0 && ts[0].Start?
    ensures Under(ParsedElement(ts, env).0.children, k)
         == ReadAt(DirectStarts(ts[1..], ElementName(ts[0].name)), Scope(env, Readable(ts[0].attrs)), k)
  {
    hide Scope, Readable, ElementName, ParsedContent, DirectStarts, ReadAt;
    var tag, inner := ElementName(ts[0].name), Scope(env, Readable(ts[0].attrs));
    var head := Opened(ts[0].name, ts[0].attrs, env);
    ContentChildren(ts[1..], head, tag, inner, k);
    var read := ReadAt(DirectStarts(ts[1..], tag), inner, k);
    assert Under(head.children, k) == [];
    assert [] + read == read;
  }

  // ---- Attributes -------------------------------------------------------------------

  /** Of attributes with one key the first counts. */
  lemma {:induction false} FirstAttrCounts(attrs: seq<Attr>, a: Attr)
    ensures a in Readable(attrs) <==>
            exists i :: 0 <= i < |attrs| && attrs[i] == a && forall j :: 0 <= j < i ==> attrs[j].key != a.key
  {
    if |attrs| > 0 {
      var n := |attrs| - 1;
      var rest, last := attrs[..n], attrs[n];
      FirstAttrCounts(rest, a);
      assert forall i :: 0 <= i < n ==> rest[i] == attrs[i];
      if a in Readable(rest) {
        var i :| 0 <= i < |rest| && rest[i] == a && forall j :: 0 <= j < i ==> rest[j].key != a.key;
        assert attrs[i] == a;
      }
      if a == last && !HasKey(rest, a.key) {
        assert attrs[n] == a && forall j :: 0 <= j < n ==> attrs[j].key != a.key;
      }
      if i :| 0 <= i < |attrs| && attrs[i] == a && forall j :: 0 <= j < i ==> attrs[j].key != a.key {
        if i < n {
          assert rest[i] == a;
        }
      }
    }
  }

  /** Every counting attribute that is no declaration is kept under its local name, with value and namespace. */
  lemma {:induction false} AttributesKept(attrs: seq<Attr>, env: map<string, string>, k: string, x: ExtensionAttribute)
    ensures x in Under(ReadAttrs(attrs, env), k) <==>
            exists i :: 0 <= i < |attrs| && !IsDeclaration(attrs[i].key) && LocalName(attrs[i].key) == k
                        && x == ExtensionAttribute(Some(k), Some(attrs[i].value), PrefixOf(attrs[i].key),
                            Lookup(env, PrefixOf(attrs[i].key)))
  {
    hide IsDeclaration, LocalName, PrefixOf, Lookup;
    if |attrs| > 0 {
      var n := |attrs| - 1;
      var rest, a := attrs[..n], attrs[n];
      AttributesKept(rest, env, k, x);
      assert forall i :: 0 <= i < n ==> rest[i] == attrs[i];
      if !IsDeclaration(a.key) {
        PushUnder(ReadAttrs(rest, env), LocalName(a.key), ReadAttr(a, env), k);
      }
    }
  }

  /** What the last attribute does to the meaning of a prefix. */
  lemma LastBinds(env: map<string, string>, attrs: seq<Attr>, p: string)
    requires p != "" && |attrs| > 0
    ensures var rest, a := attrs[..|attrs| - 1], attrs[|attrs| - 1];
            Lookup(Scope(env, attrs), Some(p)) ==
            if a.key == "xmlns:" + p then Some(a.value) else Lookup(Scope(env, rest), Some(p))
  {
    var a := attrs[|attrs| - 1];
    assert ("xmlns:" + p)[6..] == p;
    if "xmlns:" <= a.key {
      assert a.key == "xmlns:" + a.key[6..];
      assert a.key != "xmlns";
    }
  }

  /** A declaration binds its prefix inside the tag; every other prefix means what it did outside. */
  lemma {:induction false} DeclarationsBind(env: map<string, string>, attrs: seq<Attr>, p: string, i: nat)
    requires p != "" && DistinctKeys(attrs)
    ensures i < |attrs| && attrs[i].key == "xmlns:" + p ==> Lookup(Scope(env, attrs), Some(p)) == Some(attrs[i].value)
    ensures !HasKey(attrs, "xmlns:" + p) ==> Lookup(Scope(env, attrs), Some(p)) == Lookup(env, Some(p))
  {
    if |attrs| > 0 {
      var n := |attrs| - 1;
      var rest, a := attrs[..n], attrs[n];
      assert forall j :: 0 <= j < n ==> rest[j] == attrs[j];
      DeclarationsBind(env, rest, p, i);
      LastBinds(env, attrs, p);
      hide Scope, Lookup;
      assert attrs[n].key == a.key;
      if i < n && attrs[i].key == "xmlns:" + p {
        assert a.key != "xmlns:" + p;
      }
      if !HasKey(attrs, "xmlns:" + p) {
        assert !HasKey(rest, "xmlns:" + p);
      }
    }
  }

  // ---- What is written --------------------------------------------------------------

  /** The attribute written for `x`, which goes by its own name or else by its group's. */
  ghost predicate WritesAs(key: string, x: ExtensionAttribute, a: Attr) {
    x.value == Some(a.value) && a.key == QName(x.prefix, if x.name.Some? then x.name.value else key)
  }

  lemma {:induction false} GroupWrites(key: string, values: seq<ExtensionAttribute>, a: Attr)
    ensures a in WrittenGroup(key, values) <==> exists x :: x in values && WritesAs(key, x, a)
  {
    hide QName;
    if |values| > 0 {
      var rest, last := values[..|values| - 1], values[|values| - 1];
      GroupWrites(key, rest, a);
      assert values == rest + [last];
      assert a in WrittenAttr(key, last) <==> WritesAs(key, last, a);
    }
  }

  lemma {:induction false} GroupsWrite(groups: seq<Group<ExtensionAttribute>>, a: Attr)
    ensures a in WrittenAttrs(groups) <==>
            exists g, x :: g in groups && x in g.values && WritesAs(g.key, x, a)
  {
    hide WrittenGroup, WritesAs;
    if |groups| > 0 {
      var rest, last := groups[..|groups| - 1], groups[|groups| - 1];
      GroupsWrite(rest, a);
      GroupWrites(last.key, last.values, a);
      assert groups == rest + [last];
    }
  }

  /** The element, or one of its attributes, has this prefix and this namespace, neither of them empty. */
  ghost predicate HasUse(e: ExtensionElement, b: Binding) {
    && b.prefix != "" && b.namespace != ""
    && ((e.prefix == Some(b.prefix) && e.namespace == Some(b.namespace))
        || exists g, x :: g in e.attributes && x in g.values && UsesBinding(x, b))
  }

  predicate UsesBinding(x: ExtensionAttribute, b: Binding) {
    x.prefix == Some(b.prefix) && x.namespace == Some(b.namespace)
  }

  lemma {:induction false} GroupUsesAre(values: seq<ExtensionAttribute>, b: Binding)
    ensures b in GroupUses(values) <==>
            b.prefix != "" && b.namespace != "" && exists x :: x in values && UsesBinding(x, b)
  {
    if |values| > 0 {
      var rest, last := values[..|values| - 1], values[|values| - 1];
      GroupUsesAre(rest, b);
      assert values == rest + [last];
      assert b in Use(last.prefix, last.namespace) <==> b.prefix != "" && b.namespace != "" && UsesBinding(last, b);
    }
  }

  lemma {:induction false} AttrUsesAre(groups: seq<Group<ExtensionAttribute>>, b: Binding)
    ensures b in AttrUses(groups) <==>
            b.prefix != "" && b.namespace != "" && exists g, x :: g in groups && x in g.values && UsesBinding(x, b)
  {
    hide GroupUses, UsesBinding;
    if |groups| > 0 {
      var rest, last := groups[..|groups| - 1], groups[|groups| - 1];
      AttrUsesAre(rest, b);
      GroupUsesAre(last.values, b);
      assert groups == rest + [last];
    }
  }

  lemma {:induction false} MissingAre(used: seq<Binding>, scope: seq<Binding>, b: Binding)
    ensures b in Missing(used, scope) <==> b in used && b !in scope
  {
    if |used| > 0 {
      MissingAre(used[..|used| - 1], scope, b);
      assert used == used[..|used| - 1] + [used[|used| - 1]];
    }
  }

  lemma {:induction false} DeclarationsAre(bindings: seq<Binding>, a: Attr)
    ensures a in Declarations(bindings) <==>
            exists b :: b in bindings && a == Attr("xmlns:" + b.prefix, b.namespace)
  {
    if |bindings| > 0 {
      var rest, last := bindings[..|bindings| - 1], bindings[|bindings| - 1];
      DeclarationsAre(rest, a);
      assert bindings == rest + [last];
    }
  }

  /**
   * A start tag holds the element's id, its attributes that have a value, and a declaration of each
   * prefix it uses that the scope does not bind to that namespace; and nothing else.
   */
  lemma StartTagHolds(e: ExtensionElement, scope: seq<Binding>, a: Attr)
    ensures a in StartAttrs(e, scope) <==>
            || (e.id.Some? && a == Attr("id", e.id.value))
            || (exists g, x :: g in e.attributes && x in g.values && WritesAs(g.key, x, a))
            || (exists b :: HasUse(e, b) && b !in scope && a == Attr("xmlns:" + b.prefix, b.namespace))
  {
    hide WrittenAttrs, Declarations, Missing, AttrUses, WritesAs, UsesBinding;
    GroupsWrite(e.attributes, a);
    DeclarationsAre(Missing(Uses(e), scope), a);
    forall b ensures b in Missing(Uses(e), scope) <==> HasUse(e, b) && b !in scope {
      MissingAre(Uses(e), scope, b);
      AttrUsesAre(e.attributes, b);
      UsesAre(e, b);
    }
  }

  lemma UsesAre(e: ExtensionElement, b: Binding)
    ensures b in Uses(e) <==>
            || (b.prefix != "" && b.namespace != "" && e.prefix == Some(b.prefix) && e.namespace == Some(b.namespace))
            || b in AttrUses(e.attributes)
  {
    hide AttrUses;
  }

  /**
   * The element is one self-closing tag exactly when it has neither text nor children. Otherwise its
   * start tag comes first, its text next and its end tag last, both tags under the prefixed name,
   * which is "extension" when it has none.
   */
  lemma WrittenFrame(e: ExtensionElement, scope: seq<Binding>)
    ensures var ts := Written(e, scope);
            var name := QName(e.prefix, if e.name.Some? then e.name.value else "extension");
            && |ts| > 0 && !ts[0].End? && !ts[0].Text? && !ts[0].CData? && ts[0].name == name
            && ts[0].attrs == StartAttrs(e, scope)
            && (ts[0].Empty? <==> e.text.None? && e.children == [])
            && (ts[0].Empty? ==> |ts| == 1)
            && (ts[0].Start? ==> |ts| > 1 && ts[|ts| - 1] == End(name))
            && (e.text.Some? ==> |ts| > 1 && ts[1] == Text(e.text.value))
  {
    hide StartAttrs, WrittenGroups, QName;
  }
}
