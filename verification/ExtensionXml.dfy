/**
 * Generic BPMN extension elements as XML: the writer that re-declares the namespace prefixes an
 * ancestor has not declared, and the parser that resolves them again.
 *
 * XML is a stream of tokens; element text is an opaque string that the tokeniser passes through.
 */
module ExtensionXml {
  import opened Common

  datatype Attr = Attr(key: string, value: string)

  datatype Token =
    | Start(name: string, attrs: seq<Attr>)
    | Empty(name: string, attrs: seq<Attr>)
    | End(name: string)
    | Text(text: string)
    | CData(text: string)

  /** One entry of an insertion-ordered map from local name to a list. */
  datatype Group<T> = Group(key: string, values: seq<T>)

  datatype ExtensionAttribute = ExtensionAttribute(
    name: Option<string>, value: Option<string>, prefix: Option<string>, namespace: Option<string>)

  datatype ExtensionElement = ExtensionElement(
    id: Option<string>,
    attributes: seq<Group<ExtensionAttribute>>,
    name: Option<string>,
    prefix: Option<string>,
    namespace: Option<string>,
    text: Option<string>,
    children: seq<Group<ExtensionElement>>)

  datatype Binding = Binding(prefix: string, namespace: string)

  // ---- Names ----------------------------------------------------------------------

  /** Position of the first colon, or the length when there is none. */
  function Colon(name: string): nat {
    if |name| == 0 || name[0] == ':' then 0 else 1 + Colon(name[1..])
  }

  lemma {:induction false} ColonIs(name: string)
    ensures Colon(name) <= |name| && ':' !in name[..Colon(name)]
    ensures Colon(name) < |name| ==> name[Colon(name)] == ':'
  {
    if |name| > 0 && name[0] != ':' {
      ColonIs(name[1..]);
      var k := Colon(name);
      assert name[..k] == [name[0]] + name[1..][..k - 1];
    }
  }

  function LocalName(name: string): string {
    if Colon(name) < |name| then name[Colon(name) + 1..] else name
  }

  function PrefixOf(name: string): Option<string> {
    if Colon(name) < |name| then Some(name[..Colon(name)]) else None
  }

  function QName(prefix: Option<string>, local: string): string {
    if prefix.Some? && prefix.value != "" then prefix.value + ":" + local else local
  }

  /** The tokeniser has already cut the prefix off when the parser cuts once more. */
  function ElementName(name: string): string {
    LocalName(LocalName(name))
  }

  predicate PlainName(name: string) {
    ':' !in name
  }

  predicate PlainPrefix(prefix: Option<string>) {
    prefix.Some? ==> prefix.value != "" && PlainName(prefix.value)
  }

  lemma SplitQName(prefix: Option<string>, local: string)
    requires PlainPrefix(prefix) && PlainName(local)
    ensures LocalName(QName(prefix, local)) == local && PrefixOf(QName(prefix, local)) == prefix
    ensures ElementName(QName(prefix, local)) == local
  {
    PlainColon(local);
    if prefix.Some? {
      var q, p := QName(prefix, local), prefix.value;
      assert q[|p|] == ':' && q[..|p|] == p;
      FirstColon(q, |p|);
      assert q[|p| + 1..] == local;
    }
  }

  lemma {:induction false} FirstColon(name: string, i: nat)
    requires i < |name| && name[i] == ':' && ':' !in name[..i]
    ensures Colon(name) == i
  {
    if i > 0 {
      assert name[0] == name[..i][0];
      assert name[1..][..i - 1] == name[..i][1..];
      FirstColon(name[1..], i - 1);
    }
  }

  lemma PlainColon(name: string)
    requires PlainName(name)
    ensures Colon(name) == |name| && LocalName(name) == name && PrefixOf(name) == None
  {
    ColonIs(name);
  }

  // ---- Text -----------------------------------------------------------------------

  function TrimLeft(s: string): string {
    if |s| > 0 && IsSpace(s[0]) then TrimLeft(s[1..]) else s
  }

  function TrimRight(s: string): string {
    if |s| > 0 && IsSpace(s[|s| - 1]) then TrimRight(s[..|s| - 1]) else s
  }

  function JoinLineEnds(s: string): string {
    if |s| < 2 then s
    else if s[0] == '\r' && s[1] == '\n' then "\n" + JoinLineEnds(s[2..])
    else [s[0]] + JoinLineEnds(s[1..])
  }

  function Normalised(text: string): string {
    TrimRight(TrimLeft(JoinLineEnds(text)))
  }

  // ---- Grouping -------------------------------------------------------------------

  /** Appends to the list of `key`, which is created at the end when missing. */
  function Push<T>(groups: seq<Group<T>>, key: string, x: T): seq<Group<T>> {
    if |groups| == 0 then [Group(key, [x])]
    else if groups[0].key == key then [Group(key, groups[0].values + [x])] + groups[1..]
    else [groups[0]] + Push(groups[1..], key, x)
  }

  ghost predicate NoKey<T>(groups: seq<Group<T>>, key: string) {
    forall i :: 0 <= i < |groups| ==> groups[i].key != key
  }

  ghost predicate Grouped<T>(groups: seq<Group<T>>) {
    && (forall i, j :: 0 <= i < j < |groups| ==> groups[i].key != groups[j].key)
    && (forall i :: 0 <= i < |groups| ==> groups[i].values != [])
  }

  lemma {:induction false} PushNew<T>(groups: seq<Group<T>>, key: string, x: T)
    requires NoKey(groups, key)
    ensures Push(groups, key, x) == groups + [Group(key, [x])]
  {
    if |groups| > 0 {
      PushNew(groups[1..], key, x);
    }
  }

  lemma {:induction false} PushLast<T>(groups: seq<Group<T>>, key: string, values: seq<T>, x: T)
    requires NoKey(groups, key)
    ensures Push(groups + [Group(key, values)], key, x) == groups + [Group(key, values + [x])]
  {
    if |groups| > 0 {
      assert (groups + [Group(key, values)])[1..] == groups[1..] + [Group(key, values)];
      PushLast(groups[1..], key, values, x);
    }
  }

  // ---- Writer ---------------------------------------------------------------------

  function IdAttr(id: Option<string>): seq<Attr> {
    if id.Some? then [Attr("id", id.value)] else []
  }

  function WrittenAttr(fallback: string, a: ExtensionAttribute): seq<Attr> {
    if a.value.None? then []
    else [Attr(QName(a.prefix, if a.name.Some? then a.name.value else fallback), a.value.value)]
  }

  function WrittenGroup(fallback: string, values: seq<ExtensionAttribute>): seq<Attr> {
    if |values| == 0 then []
    else WrittenGroup(fallback, values[..|values| - 1]) + WrittenAttr(fallback, values[|values| - 1])
  }

  function WrittenAttrs(groups: seq<Group<ExtensionAttribute>>): seq<Attr> {
    if |groups| == 0 then []
    else WrittenAttrs(groups[..|groups| - 1]) + WrittenGroup(groups[|groups| - 1].key, groups[|groups| - 1].values)
  }

  /** The prefix and namespace of one use, when it has both and neither is empty. */
  function Use(prefix: Option<string>, namespace: Option<string>): seq<Binding> {
    if prefix.Some? && namespace.Some? && prefix.value != "" && namespace.value != ""
    then [Binding(prefix.value, namespace.value)] else []
  }

  function GroupUses(values: seq<ExtensionAttribute>): seq<Binding> {
    if |values| == 0 then []
    else GroupUses(values[..|values| - 1]) + Use(values[|values| - 1].prefix, values[|values| - 1].namespace)
  }

  function AttrUses(groups: seq<Group<ExtensionAttribute>>): seq<Binding> {
    if |groups| == 0 then [] else AttrUses(groups[..|groups| - 1]) + GroupUses(groups[|groups| - 1].values)
  }

  function Uses(e: ExtensionElement): seq<Binding> {
    Use(e.prefix, e.namespace) + AttrUses(e.attributes)
  }

  /** The bindings in `used` that `scope` lacks, each once, in order of first use. */
  function Missing(used: seq<Binding>, scope: seq<Binding>): seq<Binding> {
    if |used| == 0 then [] else
      var rest := Missing(used[..|used| - 1], scope);
      var b := used[|used| - 1];
      if b in scope || b in rest then rest else rest + [b]
  }

  function Declarations(bindings: seq<Binding>): seq<Attr> {
    if |bindings| == 0 then []
    else Declarations(bindings[..|bindings| - 1]) + [Attr("xmlns:" + bindings[|bindings| - 1].prefix,
        bindings[|bindings| - 1].namespace)]
  }

  function WrittenName(e: ExtensionElement): string {
    QName(e.prefix, if e.name.Some? then e.name.value else "extension")
  }

  function StartAttrs(e: ExtensionElement, scope: seq<Binding>): seq<Attr> {
    IdAttr(e.id) + WrittenAttrs(e.attributes) + Declarations(Missing(Uses(e), scope))
  }

  function Written(e: ExtensionElement, scope: seq<Binding>): seq<Token>
    decreases e, 1
  {
    if e.text.None? && e.children == [] then [Empty(WrittenName(e), StartAttrs(e, scope))]
    else
      [Start(WrittenName(e), StartAttrs(e, scope))]
      + (if e.text.Some? then [Text(e.text.value)] else [])
      + WrittenGroups(e.children, scope + Missing(Uses(e), scope))
      + [End(WrittenName(e))]
  }

  function WrittenGroups(groups: seq<Group<ExtensionElement>>, scope: seq<Binding>): seq<Token>
    decreases groups, 0
  {
    if |groups| == 0 then [] else WrittenAll(groups[0].values, scope) + WrittenGroups(groups[1..], scope)
  }

  function WrittenAll(elements: seq<ExtensionElement>, scope: seq<Binding>): seq<Token>
    decreases elements, 0
  {
    if |elements| == 0 then [] else Written(elements[0], scope) + WrittenAll(elements[1..], scope)
  }

  // ---- Parser ---------------------------------------------------------------------

  predicate HasKey(attrs: seq<Attr>, key: string) {
    exists i :: 0 <= i < |attrs| && attrs[i].key == key
  }

  /** The attribute iterator reports a repeated key as an error, which the parser skips. */
  function Readable(attrs: seq<Attr>): seq<Attr> {
    if |attrs| == 0 then [] else
      var a := attrs[|attrs| - 1];
      var rest := attrs[..|attrs| - 1];
      if HasKey(rest, a.key) then Readable(rest) else Readable(rest) + [a]
  }

  predicate IsDeclaration(key: string) {
    key == "xmlns" || "xmlns:" <= key
  }

  /** The namespaces in force inside an element with these attributes. */
  function Scope(env: map<string, string>, attrs: seq<Attr>): map<string, string> {
    if |attrs| == 0 then env else
      var outer := Scope(env, attrs[..|attrs| - 1]);
      var a := attrs[|attrs| - 1];
      if a.key == "xmlns" then outer["" := a.value]
      else if "xmlns:" <= a.key then outer[a.key[6..] := a.value]
      else outer
  }

  function Lookup(env: map<string, string>, prefix: Option<string>): Option<string> {
    if prefix.Some? && prefix.value in env then Some(env[prefix.value]) else None
  }

  function ReadAttr(a: Attr, env: map<string, string>): ExtensionAttribute {
    ExtensionAttribute(Some(LocalName(a.key)), Some(a.value), PrefixOf(a.key), Lookup(env, PrefixOf(a.key)))
  }

  function ReadAttrs(attrs: seq<Attr>, env: map<string, string>): seq<Group<ExtensionAttribute>> {
    if |attrs| == 0 then [] else
      var rest := ReadAttrs(attrs[..|attrs| - 1], env);
      var a := attrs[|attrs| - 1];
      if IsDeclaration(a.key) then rest else Push(rest, LocalName(a.key), ReadAttr(a, env))
  }

  /** The element of a start tag, before its content. */
  function Opened(name: string, attrs: seq<Attr>, env: map<string, string>): ExtensionElement {
    var inner := Scope(env, Readable(attrs));
    ExtensionElement(None, ReadAttrs(Readable(attrs), inner), Some(ElementName(name)),
                     PrefixOf(name), Lookup(inner, PrefixOf(name)), None, [])
  }

  function AddText(e: ExtensionElement, raw: string): ExtensionElement {
    var text := Normalised(raw);
    if text == "" then e
    else e.(text := Some(if e.text.Some? then e.text.value + text else text))
  }

  function AddChild(e: ExtensionElement, key: string, child: ExtensionElement): ExtensionElement {
    e.(children := Push(e.children, key, child))
  }

  /** Reads the content of `e` up to its end tag, and what is left of the stream. */
  function ParsedContent(
      ts: seq<Token>, e: ExtensionElement, tag: string, env: map<string, string>): (r: (ExtensionElement, seq<Token>))
    ensures |r.1| <= |ts|
    decreases |ts|
  {
    if |ts| == 0 then (e, []) else
      match ts[0]
      case Start(name, attrs) =>
        var (child, rest) := ParsedContent(ts[1..], Opened(name, attrs, env), ElementName(name),
            Scope(env, Readable(attrs)));
        ParsedContent(rest, AddChild(e, ElementName(name), child), tag, env)
      case Empty(name, attrs) => ParsedContent(ts[1..], AddChild(e, ElementName(name), Opened(name, attrs, env)), tag,
          env)
      case Text(raw) => ParsedContent(ts[1..], AddText(e, raw), tag, env)
      case CData(raw) => ParsedContent(ts[1..], AddText(e, raw), tag, env)
      case End(name) => if ElementName(name) == tag then (e, ts[1..]) else ParsedContent(ts[1..], e, tag, env)
  }

  // ---- Elements the parser can produce --------------------------------------------

  ghost predicate ShapedAttr(key: string, a: ExtensionAttribute) {
    && a.name == Some(key) && a.value.Some? && PlainName(key) && PlainPrefix(a.prefix)
    && (a.prefix.None? ==> a.namespace.None? && key != "xmlns")
    && a.prefix != Some("xmlns")
  }

  ghost predicate ShapedAttrs(groups: seq<Group<ExtensionAttribute>>) {
    && Grouped(groups)
    && (forall i, j :: 0 <= i < |groups| && 0 <= j < |groups[i].values| ==>
        ShapedAttr(groups[i].key, groups[i].values[j]))
  }

  ghost predicate DistinctKeys(attrs: seq<Attr>) {
    forall i, j :: 0 <= i < j < |attrs| ==> attrs[i].key != attrs[j].key
  }

  /** The elements the parser produces from a document with well-formed names. */
  ghost predicate Shaped(e: ExtensionElement)
    decreases e, 1
  {
    && e.id.None? && e.name.Some? && PlainName(e.name.value)
    && PlainPrefix(e.prefix) && (e.prefix.None? ==> e.namespace.None?)
    && ShapedAttrs(e.attributes) && DistinctKeys(WrittenAttrs(e.attributes))
    && Grouped(e.children)
    && ShapedGroups(e.children)
  }

  ghost predicate ShapedGroups(groups: seq<Group<ExtensionElement>>)
    decreases groups, 0
  {
    |groups| > 0 ==> ShapedAll(groups[0].key, groups[0].values) && ShapedGroups(groups[1..])
  }

  ghost predicate ShapedAll(key: string, elements: seq<ExtensionElement>)
    decreases elements, 0
  {
    |elements| > 0 ==> elements[0].name == Some(key) && Shaped(elements[0]) && ShapedAll(key, elements[1..])
  }

  // ---- What comes back ------------------------------------------------------------

  /** The namespaces in force inside an element that was written with these declarations. */
  function Declared(env: map<string, string>, bindings: seq<Binding>): map<string, string> {
    Scope(env, Readable(Declarations(bindings)))
  }

  function RereadValues(values: seq<ExtensionAttribute>, env: map<string, string>): seq<ExtensionAttribute> {
    if |values| == 0 then []
    else RereadValues(values[..|values| - 1], env) + [values[|values| - 1].(namespace :=
        Lookup(env, values[|values| - 1].prefix))]
  }

  function RereadAttrs(
      groups: seq<Group<ExtensionAttribute>>, env: map<string, string>): seq<Group<ExtensionAttribute>> {
    if |groups| == 0 then []
    else
      RereadAttrs(groups[..|groups| - 1], env)
      + [Group(groups[|groups| - 1].key, RereadValues(groups[|groups| - 1].values, env))]
  }

  /** A text as it is read again. */
  function ReadText(text: Option<string>): Option<string> {
    if text.Some? && Normalised(text.value) != "" then Some(Normalised(text.value)) else None
  }

  /** No text of the element changes when it is read again. */
  ghost predicate TextsKept(e: ExtensionElement)
    decreases e, 1
  {
    ReadText(e.text) == e.text && GroupTextsKept(e.children)
  }

  ghost predicate GroupTextsKept(groups: seq<Group<ExtensionElement>>)
    decreases groups, 0
  {
    |groups| > 0 ==> AllTextsKept(groups[0].values) && GroupTextsKept(groups[1..])
  }

  ghost predicate AllTextsKept(elements: seq<ExtensionElement>)
    decreases elements, 0
  {
    |elements| > 0 ==> TextsKept(elements[0]) && AllTextsKept(elements[1..])
  }

  /** The element with its texts read and every namespace looked up again where the writer put it. */
  function Reread(e: ExtensionElement, scope: seq<Binding>, env: map<string, string>): ExtensionElement
    decreases e, 1
  {
    var missing := Missing(Uses(e), scope);
    var inner := Declared(env, missing);
    e.(namespace := Lookup(inner, e.prefix),
       text := ReadText(e.text),
       attributes := RereadAttrs(e.attributes, inner),
       children := RereadGroups(e.children, scope + missing, inner))
  }

  function RereadGroups(
      groups: seq<Group<ExtensionElement>>, scope: seq<Binding>, env: map<string, string>): seq<Group<ExtensionElement>>
    decreases groups, 0
  {
    if |groups| == 0 then []
    else [Group(groups[0].key, RereadAll(groups[0].values, scope, env))] + RereadGroups(groups[1..], scope, env)
  }

  function RereadAll(
      elements: seq<ExtensionElement>, scope: seq<Binding>, env: map<string, string>): seq<ExtensionElement>
    decreases elements, 0
  {
    if |elements| == 0 then [] else [Reread(elements[0], scope, env)] + RereadAll(elements[1..], scope, env)
  }

  // ---- Reading a written start tag ------------------------------------------------

  ghost predicate NoDeclarations(attrs: seq<Attr>) {
    forall i :: 0 <= i < |attrs| ==> !IsDeclaration(attrs[i].key)
  }

  lemma NotDeclaration(key: string, a: ExtensionAttribute)
    requires ShapedAttr(key, a)
    ensures !IsDeclaration(QName(a.prefix, key))
  {
    var q := QName(a.prefix, key);
    SplitQName(a.prefix, key);
    if "xmlns:" <= q {
      assert q[5] == ':' && q[..5] == "xmlns";
      DeclarationPrefix(q);
    } else if q == "xmlns" {
      PlainColon("xmlns");
    }
  }

  lemma DeclarationPrefix(q: string)
    requires "xmlns:" <= q
    ensures PrefixOf(q) == Some("xmlns") && LocalName(q) == q[6..]
  {
    assert q[5] == ':' && q[..5] == "xmlns";
    FirstColon(q, 5);
  }

  lemma {:induction false} WrittenGroupPlain(key: string, values: seq<ExtensionAttribute>)
    requires forall j :: 0 <= j < |values| ==> ShapedAttr(key, values[j])
    ensures NoDeclarations(WrittenGroup(key, values))
  {
    if |values| > 0 {
      WrittenGroupPlain(key, values[..|values| - 1]);
      NotDeclaration(key, values[|values| - 1]);
    }
  }

  lemma {:induction false} WrittenAttrsPlain(groups: seq<Group<ExtensionAttribute>>)
    requires forall i, j :: 0 <= i < |groups| && 0 <= j < |groups[i].values| ==>
            ShapedAttr(groups[i].key, groups[i].values[j])
    ensures NoDeclarations(WrittenAttrs(groups))
  {
    if |groups| > 0 {
      var rest := groups[..|groups| - 1];
      assert forall i :: 0 <= i < |rest| ==> rest[i] == groups[i];
      WrittenAttrsPlain(rest);
      WrittenGroupPlain(groups[|groups| - 1].key, groups[|groups| - 1].values);
    }
  }

  lemma {:induction false} DeclarationKeys(bindings: seq<Binding>)
    ensures forall i :: 0 <= i < |Declarations(bindings)| ==> "xmlns:" <= Declarations(bindings)[i].key
  {
    if |bindings| > 0 {
      DeclarationKeys(bindings[..|bindings| - 1]);
    }
  }

  lemma NoDeclarationKey(attrs: seq<Attr>, rest: seq<Attr>, key: string)
    requires NoDeclarations(attrs) && "xmlns:" <= key
    ensures HasKey(attrs + rest, key) <==> HasKey(rest, key)
  {
    assert forall i :: 0 <= i < |attrs| ==> attrs[i].key != key;
    assert forall i :: 0 <= i < |rest| ==> (attrs + rest)[|attrs| + i] == rest[i];
  }

  /** Declarations never repeat the key of a written attribute. */
  lemma {:induction false} ReadableSplit(attrs: seq<Attr>, decls: seq<Attr>)
    requires DistinctKeys(attrs) && NoDeclarations(attrs)
    requires forall i :: 0 <= i < |decls| ==> "xmlns:" <= decls[i].key
    ensures Readable(attrs + decls) == attrs + Readable(decls)
  {
    if |decls| > 0 {
      var n := |decls| - 1;
      var d, rest := decls[n], decls[..n];
      assert (attrs + decls)[..|attrs| + n] == attrs + rest;
      ReadableSplit(attrs, rest);
      NoDeclarationKey(attrs, rest, d.key);
      hide HasKey, DistinctKeys, NoDeclarations;
      assert attrs + Readable(rest) + [d] == attrs + (Readable(rest) + [d]);
    } else {
      assert attrs + decls == attrs;
      ReadableDistinct(attrs);
    }
  }

  lemma {:induction false} ReadableDistinct(attrs: seq<Attr>)
    requires DistinctKeys(attrs)
    ensures Readable(attrs) == attrs
  {
    if |attrs| > 0 {
      ReadableDistinct(attrs[..|attrs| - 1]);
      assert attrs == attrs[..|attrs| - 1] + [attrs[|attrs| - 1]];
    }
  }

  lemma {:induction false} ReadableSubset(attrs: seq<Attr>)
    ensures forall i :: 0 <= i < |Readable(attrs)| ==> Readable(attrs)[i] in attrs
  {
    if |attrs| > 0 {
      ReadableSubset(attrs[..|attrs| - 1]);
    }
  }

  lemma {:induction false} ScopeSplit(env: map<string, string>, attrs: seq<Attr>, decls: seq<Attr>)
    requires NoDeclarations(attrs)
    ensures Scope(env, attrs + decls) == Scope(env, decls)
  {
    if |decls| > 0 {
      assert (attrs + decls)[..|attrs| + |decls| - 1] == attrs + decls[..|decls| - 1];
      ScopeSplit(env, attrs, decls[..|decls| - 1]);
    } else {
      assert attrs + decls == attrs;
      if |attrs| > 0 {
        assert attrs[..|attrs| - 1] + [] == attrs[..|attrs| - 1];
        ScopeSplit(env, attrs[..|attrs| - 1], []);
      }
    }
  }

  lemma {:induction false} ReadAttrsSplit(attrs: seq<Attr>, decls: seq<Attr>, env: map<string, string>)
    requires forall i :: 0 <= i < |decls| ==> IsDeclaration(decls[i].key)
    ensures ReadAttrs(attrs + decls, env) == ReadAttrs(attrs, env)
  {
    if |decls| > 0 {
      assert (attrs + decls)[..|attrs| + |decls| - 1] == attrs + decls[..|decls| - 1];
      ReadAttrsSplit(attrs, decls[..|decls| - 1], env);
    } else {
      assert attrs + decls == attrs;
    }
  }

  lemma ReadWrittenAttr(key: string, a: ExtensionAttribute, env: map<string, string>)
    requires ShapedAttr(key, a)
    ensures WrittenAttr(key, a) == [Attr(QName(a.prefix, key), a.value.value)]
    ensures !IsDeclaration(QName(a.prefix, key)) && LocalName(QName(a.prefix, key)) == key
    ensures ReadAttr(Attr(QName(a.prefix, key), a.value.value), env) == a.(namespace := Lookup(env, a.prefix))
  {
    NotDeclaration(key, a);
    SplitQName(a.prefix, key);
  }

  lemma ReadSnoc(attrs: seq<Attr>, key: string, a: ExtensionAttribute, env: map<string, string>)
    requires ShapedAttr(key, a)
    ensures ReadAttrs(attrs + WrittenAttr(key, a), env)
         == Push(ReadAttrs(attrs, env), key, a.(namespace := Lookup(env, a.prefix)))
  {
    ReadWrittenAttr(key, a, env);
    var x := Attr(QName(a.prefix, key), a.value.value);
    hide IsDeclaration, LocalName, QName, Lookup, ShapedAttr, Push;
    assert (attrs + [x])[..|attrs|] == attrs;
  }

  /** Reading the attributes of one more group, the first of them opening the group. */
  lemma {:induction false} ReadWrittenGroup(
      attrs: seq<Attr>, key: string, values: seq<ExtensionAttribute>, env: map<string, string>)
    requires forall j :: 0 <= j < |values| ==> ShapedAttr(key, values[j])
    requires values != [] && NoKey(ReadAttrs(attrs, env), key)
    ensures ReadAttrs(attrs + WrittenGroup(key, values), env)
         == ReadAttrs(attrs, env) + [Group(key, RereadValues(values, env))]
  {
    var n := |values| - 1;
    var a, rest := values[n], values[..n];
    var before := attrs + WrittenGroup(key, rest);
    assert attrs + WrittenGroup(key, values) == before + WrittenAttr(key, a);
    ReadSnoc(before, key, a, env);
    var groups, x := ReadAttrs(attrs, env), a.(namespace := Lookup(env, a.prefix));
    hide WrittenAttr, ReadAttrs, Lookup, ShapedAttr, NoKey, Push;
    if n == 0 {
      assert WrittenGroup(key, rest) == [];
      assert before == attrs;
      PushNew(groups, key, x);
      assert RereadValues(values, env) == [x];
    } else {
      ReadWrittenGroup(attrs, key, rest, env);
      PushLast(groups, key, RereadValues(rest, env), x);
    }
  }

  lemma {:induction false} RereadAttrsKeys(groups: seq<Group<ExtensionAttribute>>, env: map<string, string>)
    ensures |RereadAttrs(groups, env)| == |groups|
    ensures forall i :: 0 <= i < |groups| ==> RereadAttrs(groups, env)[i].key == groups[i].key
  {
    if |groups| > 0 {
      RereadAttrsKeys(groups[..|groups| - 1], env);
    }
  }

  lemma {:induction false} ReadWrittenAttrs(groups: seq<Group<ExtensionAttribute>>, env: map<string, string>)
    requires ShapedAttrs(groups)
    ensures ReadAttrs(WrittenAttrs(groups), env) == RereadAttrs(groups, env)
  {
    if |groups| > 0 {
      var n := |groups| - 1;
      var rest, g := groups[..n], groups[n];
      assert forall i :: 0 <= i < |rest| ==> rest[i] == groups[i];
      ReadWrittenAttrs(rest, env);
      RereadAttrsKeys(rest, env);
      ReadWrittenGroup(WrittenAttrs(rest), g.key, g.values, env);
    }
  }

  lemma OpenedWritten(e: ExtensionElement, scope: seq<Binding>, env: map<string, string>)
    requires Shaped(e)
    ensures ElementName(WrittenName(e)) == e.name.value
    ensures Scope(env, Readable(StartAttrs(e, scope))) == Declared(env, Missing(Uses(e), scope))
    ensures Opened(WrittenName(e), StartAttrs(e, scope), env) == Reread(e, scope, env).(text := None, children := [])
  {
    var attrs, decls := WrittenAttrs(e.attributes), Declarations(Missing(Uses(e), scope));
    assert StartAttrs(e, scope) == attrs + decls;
    SplitQName(e.prefix, e.name.value);
    WrittenAttrsPlain(e.attributes);
    DeclarationKeys(Missing(Uses(e), scope));
    ReadableSplit(attrs, decls);
    ReadableSubset(decls);
    ScopeSplit(env, attrs, Readable(decls));
    var inner := Declared(env, Missing(Uses(e), scope));
    ReadAttrsSplit(attrs, Readable(decls), inner);
    ReadWrittenAttrs(e.attributes, inner);
  }

  // ---- Parsing what was written ---------------------------------------------------

  /** Reads one element, whose tag is the first token, and what is left of the stream. */
  function ParsedElement(ts: seq<Token>, env: map<string, string>): (ExtensionElement, seq<Token>)
    requires |ts| > 0 && (ts[0].Start? || ts[0].Empty?)
  {
    if ts[0].Empty? then (Opened(ts[0].name, ts[0].attrs, env), ts[1..])
    else ParsedContent(ts[1..], Opened(ts[0].name, ts[0].attrs, env), ElementName(ts[0].name),
        Scope(env, Readable(ts[0].attrs)))
  }

  lemma ParseChild(ts: seq<Token>, parent: ExtensionElement, tag: string, env: map<string, string>)
    requires |ts| > 0 && (ts[0].Start? || ts[0].Empty?)
    ensures var (child, rest) := ParsedElement(ts, env);
            ParsedContent(ts, parent, tag, env) == ParsedContent(rest,
                AddChild(parent, ElementName(ts[0].name), child), tag, env)
  {
    hide Opened, ElementName, Scope, AddChild;
  }

  lemma ParseEnd(name: string, ts: seq<Token>, e: ExtensionElement, env: map<string, string>)
    ensures ParsedContent([End(name)] + ts, e, ElementName(name), env) == (e, ts)
  {
    hide Opened, ElementName, Scope, AddChild;
    assert ([End(name)] + ts)[1..] == ts;
  }

  lemma WrittenSplit(e: ExtensionElement, scope: seq<Binding>, rest: seq<Token>)
    requires e.text.Some? || e.children != []
    ensures Written(e, scope) + rest
         == [Start(WrittenName(e), StartAttrs(e, scope))]
            + ((if e.text.Some? then [Text(e.text.value)] else [])
               + (WrittenGroups(e.children, scope + Missing(Uses(e), scope)) + ([End(WrittenName(e))] + rest)))
  {
    hide WrittenGroups, WrittenName, StartAttrs, Missing, Uses;
    var name := WrittenName(e);
    var text: seq<Token> := if e.text.Some? then [Text(e.text.value)] else [];
    var body := WrittenGroups(e.children, scope + Missing(Uses(e), scope));
    var first := [Start(name, StartAttrs(e, scope))];
    Regroup(first, text, body, [End(name)], rest);
  }

  lemma Regroup(a: seq<Token>, b: seq<Token>, c: seq<Token>, d: seq<Token>, e: seq<Token>)
    ensures a + b + c + d + e == a + (b + (c + (d + e)))
  {
  }

  lemma RereadWhole(e: ExtensionElement, scope: seq<Binding>, env: map<string, string>)
    ensures var missing := Missing(Uses(e), scope);
            Reread(e, scope, env) == Reread(e, scope, env).(text := ReadText(e.text),
              children := [] + RereadGroups(e.children, scope + missing, Declared(env, missing)))
  {
    var groups := RereadGroups(e.children, scope + Missing(Uses(e), scope), Declared(env, Missing(Uses(e), scope)));
    assert [] + groups == groups;
  }

  /** A written element parses back to itself with its texts and namespaces read again. */
  lemma {:induction false} ParseWritten(
      e: ExtensionElement, scope: seq<Binding>, env: map<string, string>, rest: seq<Token>)
    requires Shaped(e)
    ensures var ts := Written(e, scope) + rest;
            && |ts| > 0 && (ts[0].Start? || ts[0].Empty?) && ts[0].name == WrittenName(e)
            && ParsedElement(ts, env) == (Reread(e, scope, env), rest)
    decreases e, 1
  {
    OpenedWritten(e, scope, env);
    var name, attrs := WrittenName(e), StartAttrs(e, scope);
    var head := Opened(name, attrs, env);
    hide ParsedContent, Opened, Scope, Readable, StartAttrs, WrittenName, ElementName, WrittenGroups, RereadGroups,
         Missing, Uses, AddChild, Declared, ReadText;
    if e.text.None? && e.children == [] {
      assert ([Empty(name, attrs)] + rest)[1..] == rest;
      RereadChildless(e, scope, env);
    } else {
      var missing := Missing(Uses(e), scope);
      var inner := Declared(env, missing);
      var body := WrittenGroups(e.children, scope + missing);
      var tail := [End(name)] + rest;
      WrittenSplit(e, scope, rest);
      ParseText(e, body + tail, head, e.name.value, inner);
      var withText := head.(text := ReadText(e.text));
      ParseGroups(e.children, scope + missing, withText, e.name.value, inner, tail);
      RereadWhole(e, scope, env);
      var whole := withText.(children := withText.children + RereadGroups(e.children, scope + missing, inner));
      ParseEnd(name, rest, whole, inner);
      var content := (if e.text.Some? then [Text(e.text.value)] else []) + (body + tail);
      assert ([Start(name, attrs)] + content)[1..] == content;
    }
  }

  /** The parse of a parent goes on as if the reread child had been added. */
  lemma {:induction false} ParseWrittenChild(e: ExtensionElement, scope: seq<Binding>, parent: ExtensionElement,
      tag: string,
                          env: map<string, string>, rest: seq<Token>)
    requires Shaped(e)
    ensures ParsedContent(Written(e, scope) + rest, parent, tag, env)
         == ParsedContent(rest, AddChild(parent, e.name.value, Reread(e, scope, env)), tag, env)
    decreases e, 2
  {
    hide *;
    OpenedWritten(e, scope, env);
    ParseWritten(e, scope, env, rest);
    ParseChild(Written(e, scope) + rest, parent, tag, env);
  }

  lemma RereadChildless(e: ExtensionElement, scope: seq<Binding>, env: map<string, string>)
    requires e.text.None? && e.children == []
    ensures Reread(e, scope, env).text.None? && Reread(e, scope, env).children == []
  {
  }

  lemma ParseText(e: ExtensionElement, rest: seq<Token>, head: ExtensionElement, tag: string, env: map<string, string>)
    requires head.text.None?
    ensures ParsedContent((if e.text.Some? then [Text(e.text.value)] else []) + rest, head, tag, env)
         == ParsedContent(rest, head.(text := ReadText(e.text)), tag, env)
  {
    hide Normalised, Opened, ElementName, Scope, AddChild;
    if e.text.Some? {
      assert ([Text(e.text.value)] + rest)[1..] == rest;
    } else {
      assert [] + rest == rest;
    }
  }

  ghost predicate Fresh(groups: seq<Group<ExtensionElement>>, more: seq<Group<ExtensionElement>>) {
    forall i, j :: 0 <= i < |groups| && 0 <= j < |more| ==> groups[i].key != more[j].key
  }

  lemma FirstGroup(
      groups: seq<Group<ExtensionElement>>, before: seq<Group<ExtensionElement>>, r: Group<ExtensionElement>)
    requires |groups| > 0 && Grouped(groups) && Fresh(before, groups) && r.key == groups[0].key
    ensures groups[0].values != [] && NoKey(before, groups[0].key)
    ensures Grouped(groups[1..]) && Fresh(before + [r], groups[1..])
  {
  }

  lemma {:induction false} ParseGroups(groups: seq<Group<ExtensionElement>>, scope: seq<Binding>,
      parent: ExtensionElement, tag: string,
                                       env: map<string, string>, rest: seq<Token>)
    requires Grouped(groups) && ShapedGroups(groups) && Fresh(parent.children, groups)
    ensures ParsedContent(WrittenGroups(groups, scope) + rest, parent, tag, env)
         == ParsedContent(rest, parent.(children := parent.children + RereadGroups(groups, scope, env)), tag, env)
    decreases groups, 0
  {
    hide ParsedContent, WrittenAll, RereadAll, ShapedAll, Grouped, Fresh, NoKey;
    if |groups| == 0 {
      assert [] + rest == rest;
      assert parent.children + [] == parent.children;
    } else {
      var g, more := groups[0], groups[1..];
      var r := Group(g.key, RereadAll(g.values, scope, env));
      FirstGroup(groups, parent.children, r);
      assert WrittenGroups(groups, scope) + rest == WrittenAll(g.values, scope) + (WrittenGroups(more, scope) + rest);
      ParseFirst(g.key, g.values, scope, parent, tag, env, WrittenGroups(more, scope) + rest);
      var next := parent.(children := parent.children + [r]);
      ParseGroups(more, scope, next, tag, env, rest);
      assert parent.children + [r] + RereadGroups(more, scope, env) == parent.children
          + ([r] + RereadGroups(more, scope, env));
    }
  }

  /** The first element of a group opens it, the others join it. */
  lemma {:induction false} ParseFirst(key: string, values: seq<ExtensionElement>, scope: seq<Binding>,
      parent: ExtensionElement, tag: string,
                                      env: map<string, string>, rest: seq<Token>)
    requires values != [] && ShapedAll(key, values) && NoKey(parent.children, key)
    ensures ParsedContent(WrittenAll(values, scope) + rest, parent, tag, env)
         == ParsedContent(rest, parent.(children := parent.children + [Group(key, RereadAll(values, scope, env))]),
             tag, env)
    decreases values, 0
  {
    hide ParsedContent, Written, Reread, Shaped;
    var v, more := values[0], values[1..];
    assert WrittenAll(values, scope) + rest == Written(v, scope) + (WrittenAll(more, scope) + rest);
    ParseWrittenChild(v, scope, parent, tag, env, WrittenAll(more, scope) + rest);
    PushNew(parent.children, key, Reread(v, scope, env));
    ParseMore(key, [Reread(v, scope, env)], more, scope, parent, tag, env, rest);
  }

  lemma {:induction false} ParseMore(key: string, done: seq<ExtensionElement>, values: seq<ExtensionElement>,
      scope: seq<Binding>,
                                     parent: ExtensionElement, tag: string, env: map<string, string>, rest: seq<Token>)
    requires ShapedAll(key, values) && NoKey(parent.children, key)
    ensures ParsedContent(WrittenAll(values, scope) + rest, parent.(children := parent.children + [Group(key, done)]),
            tag, env)
         == ParsedContent(rest, parent.(children := parent.children
             + [Group(key, done + RereadAll(values, scope, env))]), tag, env)
    decreases values, 0
  {
    hide ParsedContent, Written, Reread, Shaped, NoKey;
    if |values| == 0 {
      assert [] + rest == rest;
      assert done + [] == done;
    } else {
      var v, more := values[0], values[1..];
      var r := Reread(v, scope, env);
      var here := parent.(children := parent.children + [Group(key, done)]);
      assert WrittenAll(values, scope) + rest == Written(v, scope) + (WrittenAll(more, scope) + rest);
      ParseWrittenChild(v, scope, here, tag, env, WrittenAll(more, scope) + rest);
      PushLast(parent.children, key, done, r);
      ParseMore(key, done + [r], more, scope, parent, tag, env, rest);
      assert done + [r] + RereadAll(more, scope, env) == done + ([r] + RereadAll(more, scope, env));
    }
  }
}
