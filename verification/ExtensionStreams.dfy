/** The extension writer and parser as they run: over an output buffer and a reading position. */
module ExtensionStreams {
  import opened Common
  import opened ExtensionXml

  method CollectUses(value: ExtensionElement) returns (used: seq<Binding>)
    ensures used == Uses(value)
  {
    hide Use, GroupUses;
    var own := Use(value.prefix, value.namespace);
    used := own;
    var groups := value.attributes;
    for i := 0 to |groups|
      invariant used == own + AttrUses(groups[..i])
    {
      var uses := CollectGroupUses(groups[i].values);
      assert groups[..i + 1][..i] == groups[..i];
      assert own + AttrUses(groups[..i]) + uses == own + (AttrUses(groups[..i]) + uses);
      used := used + uses;
    }
    assert groups[..|groups|] == groups;
  }

  method CollectGroupUses(values: seq<ExtensionAttribute>) returns (used: seq<Binding>)
    ensures used == GroupUses(values)
  {
    used := [];
    for j := 0 to |values|
      invariant used == GroupUses(values[..j])
    {
      assert values[..j + 1][..j] == values[..j];
      used := used + Use(values[j].prefix, values[j].namespace);
    }
    assert values[..|values|] == values;
  }

  /** The bindings `value` and its attributes use that `scope` does not provide. */
  method MissingNamespaceDeclarations(value: ExtensionElement, scope: seq<Binding>) returns (missing: seq<Binding>)
    ensures missing == Missing(Uses(value), scope)
  {
    var used := CollectUses(value);
    hide Uses;
    missing := [];
    for i := 0 to |used|
      invariant missing == Missing(used[..i], scope)
    {
      assert used[..i + 1][..i] == used[..i];
      if used[i] !in scope && used[i] !in missing {
        missing := missing + [used[i]];
      }
    }
    assert used[..|used|] == used;
  }

  lemma {:induction false} WrittenAllSnoc(elements: seq<ExtensionElement>, j: nat, scope: seq<Binding>)
    requires j < |elements|
    ensures WrittenAll(elements[..j + 1], scope) == WrittenAll(elements[..j], scope) + Written(elements[j], scope)
  {
    hide Written;
    if j > 0 {
      WrittenAllSnoc(elements[1..], j - 1, scope);
      assert elements[..j + 1][1..] == elements[1..][..j] && elements[..j][1..] == elements[1..][..j - 1];
    } else {
      assert elements[..1][1..] == [] && elements[..0] == [];
    }
  }

  lemma {:induction false} WrittenGroupsSnoc(groups: seq<Group<ExtensionElement>>, i: nat, scope: seq<Binding>)
    requires i < |groups|
    ensures WrittenGroups(groups[..i + 1], scope) == WrittenGroups(groups[..i], scope)
            + WrittenAll(groups[i].values, scope)
  {
    hide WrittenAll;
    if i > 0 {
      WrittenGroupsSnoc(groups[1..], i - 1, scope);
      assert groups[..i + 1][1..] == groups[1..][..i] && groups[..i][1..] == groups[1..][..i - 1];
    } else {
      assert groups[..1][1..] == [] && groups[..0] == [];
    }
  }

  lemma NothingWritten(scope: seq<Binding>)
    ensures WrittenGroups([], scope) == [] && WrittenAll([], scope) == []
  {
  }

  class XmlWriter {
    var out: seq<Token>

    constructor ()
      ensures out == []
    {
      out := [];
    }

    method WriteExtension(value: ExtensionElement, inScope: seq<Binding>)
      modifies this
      ensures out == old(out) + Written(value, inScope)
      decreases value
    {
      var name := WrittenName(value);
      var declarations := MissingNamespaceDeclarations(value, inScope);
      var node := IdAttr(value.id) + WrittenAttrs(value.attributes) + Declarations(declarations);
      var scope := inScope + declarations;
      if value.text.None? && value.children == [] {
        out := out + [Empty(name, node)];
        return;
      }
      ghost var start := [Start(name, node)] + if value.text.Some? then [Text(value.text.value)] else [];
      out := out + [Start(name, node)];
      if value.text.Some? {
        out := out + [Text(value.text.value)];
      }
      assert out == old(out) + start;
      WriteChildren(value, scope);
      out := out + [End(name)];
      WrittenTail(value, inScope, old(out), start);
    }

    method WriteChildren(value: ExtensionElement, scope: seq<Binding>)
      modifies this
      ensures out == old(out) + WrittenGroups(value.children, scope)
      decreases value, 0
    {
      var groups := value.children;
      NothingWritten(scope);
      hide WrittenGroups, WrittenAll;
      for i := 0 to |groups|
        invariant out == old(out) + WrittenGroups(groups[..i], scope)
      {
        ghost var done := WrittenGroups(groups[..i], scope);
        WriteGroup(groups[i].values, scope);
        WrittenGroupsSnoc(groups, i, scope);
        assert old(out) + done + WrittenAll(groups[i].values, scope) == old(out)
            + (done + WrittenAll(groups[i].values, scope));
      }
      assert groups[..|groups|] == groups;
    }

    method WriteGroup(children: seq<ExtensionElement>, scope: seq<Binding>)
      modifies this
      ensures out == old(out) + WrittenAll(children, scope)
      decreases children, 0
    {
      NothingWritten(scope);
      hide WrittenAll, Written;
      for j := 0 to |children|
        invariant out == old(out) + WrittenAll(children[..j], scope)
      {
        ghost var done := WrittenAll(children[..j], scope);
        WriteExtension(children[j], scope);
        WrittenAllSnoc(children, j, scope);
        assert old(out) + done + Written(children[j], scope) == old(out) + (done + Written(children[j], scope));
      }
      assert children[..|children|] == children;
    }
  }

  lemma WrittenTail(e: ExtensionElement, scope: seq<Binding>, before: seq<Token>, start: seq<Token>)
    requires e.text.Some? || e.children != []
    requires start == [Start(WrittenName(e), StartAttrs(e, scope))] + if e.text.Some? then [Text(e.text.value)] else []
    ensures before + start + WrittenGroups(e.children, scope + Missing(Uses(e), scope)) + [End(WrittenName(e))]
         == before + Written(e, scope)
  {
    hide WrittenGroups, WrittenName, StartAttrs, Missing, Uses;
    var body := WrittenGroups(e.children, scope + Missing(Uses(e), scope));
    assert Written(e, scope) == start + body + [End(WrittenName(e))];
    assert before + start + body + [End(WrittenName(e))] == before + (start + body + [End(WrittenName(e))]);
  }

  lemma EmptyContent(ts: seq<Token>, e: ExtensionElement, tag: string, env: map<string, string>)
    requires ts == []
    ensures ParsedContent(ts, e, tag, env) == (e, [])
  {
  }

  /** What one token does. */
  lemma ContentStep(ts: seq<Token>, e: ExtensionElement, tag: string, env: map<string, string>)
    requires |ts| > 0
    ensures ts[0].Start? ==>
              var (child, rest) := ParsedContent(ts[1..], Opened(ts[0].name, ts[0].attrs, env), ElementName(ts[0].name),
                                                 Scope(env, Readable(ts[0].attrs)));
              ParsedContent(ts, e, tag, env) == ParsedContent(rest, AddChild(e, ElementName(ts[0].name), child), tag,
                  env)
    ensures ts[0].Empty? ==>
              ParsedContent(ts, e, tag, env)
              == ParsedContent(ts[1..], AddChild(e, ElementName(ts[0].name), Opened(ts[0].name, ts[0].attrs, env)),
                  tag, env)
    ensures ts[0].Text? || ts[0].CData? ==>
              ParsedContent(ts, e, tag, env) == ParsedContent(ts[1..], AddText(e, ts[0].text), tag, env)
    ensures ts[0].End? ==>
              ParsedContent(ts, e, tag, env)
              == if ElementName(ts[0].name) == tag then (e, ts[1..]) else ParsedContent(ts[1..], e, tag, env)
  {
    hide Opened, ElementName, Scope, Readable, AddChild, AddText;
  }

  class XmlReader {
    const tokens: seq<Token>
    var pos: nat

    ghost predicate Valid()
      reads this
    {
      pos <= |tokens|
    }

    constructor (tokens: seq<Token>)
      ensures Valid() && this.tokens == tokens && pos == 0
    {
      this.tokens := tokens;
      pos := 0;
    }

    /** Reads content into `e0` until the end tag `tag` or the end of the stream. */
    method ParseGenericExtensionChildren(
        e0: ExtensionElement, tag: string, env: map<string, string>)
        returns (e: ExtensionElement)
      requires Valid()
      modifies this
      ensures Valid() && pos >= old(pos)
      ensures (e, tokens[pos..]) == ParsedContent(tokens[old(pos)..], e0, tag, env)
      decreases |tokens| - pos
    {
      hide ParsedContent, Opened, ElementName, Scope, Readable, AddChild, AddText;
      e := e0;
      while pos < |tokens|
        invariant Valid() && pos >= old(pos)
        invariant ParsedContent(tokens[pos..], e, tag, env) == ParsedContent(tokens[old(pos)..], e0, tag, env)
        decreases |tokens| - pos
      {
        var token := tokens[pos];
        ghost var here := tokens[pos..];
        assert here[0] == token && here[1..] == tokens[pos + 1..];
        ContentStep(here, e, tag, env);
        pos := pos + 1;
        match token {
          case Start(name, attrs) =>
            var child := ParseGenericExtensionChildren(Opened(name, attrs, env), ElementName(name),
                Scope(env, Readable(attrs)));
            e := AddChild(e, ElementName(name), child);
          case Empty(name, attrs) =>
            e := AddChild(e, ElementName(name), Opened(name, attrs, env));
          case Text(raw) =>
            e := AddText(e, raw);
          case CData(raw) =>
            e := AddText(e, raw);
          case End(name) =>
            if ElementName(name) == tag {
              return;
            }
        }
      }
      EmptyContent(tokens[pos..], e, tag, env);
    }

    /** Reads the element whose tag is next. */
    method ParseGenericExtensionElement(env: map<string, string>) returns (e: ExtensionElement)
      requires Valid() && pos < |tokens| && (tokens[pos].Start? || tokens[pos].Empty?)
      modifies this
      ensures Valid()
      ensures (e, tokens[pos..]) == ParsedElement(tokens[old(pos)..], env)
    {
      var token := tokens[pos];
      assert tokens[pos..][1..] == tokens[pos + 1..];
      pos := pos + 1;
      e := Opened(token.name, token.attrs, env);
      if token.Start? {
        e := ParseGenericExtensionChildren(e, ElementName(token.name), Scope(env, Readable(token.attrs)));
      }
    }
  }
}
