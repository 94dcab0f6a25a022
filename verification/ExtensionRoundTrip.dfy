/**
 * When writing an extension element and parsing it back gives the same element.
 *
 * The writer skips a declaration whenever an ancestor declared the same prefix with the same
 * namespace, even if the prefix has been bound to something else in between. So the round trip
 * depends on the order in which a prefix changes its meaning on the way down, and `Faithful` says
 * exactly how.
 */
module ExtensionRoundTrip {
  import opened Common
  import opened ExtensionXml

  /** A prefix as an element or attribute uses it, with the namespace it resolved to. */
  datatype NsUse = NsUse(prefix: string, namespace: Option<string>)

  function UseOf(prefix: Option<string>, namespace: Option<string>): seq<NsUse> {
    if prefix.Some? then [NsUse(prefix.value, namespace)] else []
  }

  function GroupNsUses(values: seq<ExtensionAttribute>): seq<NsUse> {
    if |values| == 0 then []
    else GroupNsUses(values[..|values| - 1]) + UseOf(values[|values| - 1].prefix, values[|values| - 1].namespace)
  }

  function AttrNsUses(groups: seq<Group<ExtensionAttribute>>): seq<NsUse> {
    if |groups| == 0 then [] else AttrNsUses(groups[..|groups| - 1]) + GroupNsUses(groups[|groups| - 1].values)
  }

  /** All uses of prefixes on the element itself and its attributes. */
  function NsUses(e: ExtensionElement): seq<NsUse> {
    UseOf(e.prefix, e.namespace) + AttrNsUses(e.attributes)
  }

  predicate Resolved(u: NsUse) {
    u.prefix != "" && u.namespace.Some? && u.namespace.value != ""
  }

  /** `env` with each used prefix bound to its namespace. */
  function BindAll(env: map<string, string>, bindings: seq<Binding>): map<string, string> {
    if |bindings| == 0 then env
    else BindAll(env, bindings[..|bindings| - 1])[bindings[|bindings| - 1].prefix := bindings[|bindings| - 1].namespace]
  }

  /**
   * A prefix means one thing within the element, and a binding already met on the way down is the
   * prefix's current meaning. `known` holds every binding met so far, `env` the current ones.
   */
  ghost predicate NodeFaithful(e: ExtensionElement, known: set<Binding>, env: map<string, string>) {
    forall u :: u in NsUses(e) ==>
      && (forall v :: v in NsUses(e) && v.prefix == u.prefix ==> v.namespace == u.namespace)
      && ((Resolved(u) && Binding(u.prefix, u.namespace.value) !in known)
          || Lookup(env, Some(u.prefix)) == u.namespace)
  }

  ghost predicate Faithful(e: ExtensionElement, known: set<Binding>, env: map<string, string>)
    decreases e, 1
  {
    && NodeFaithful(e, known, env)
    && FaithfulGroups(e.children, known + Elements(Uses(e)), BindAll(env, Uses(e)))
  }

  ghost predicate FaithfulGroups(groups: seq<Group<ExtensionElement>>, known: set<Binding>, env: map<string, string>)
    decreases groups, 0
  {
    |groups| > 0 ==> FaithfulAll(groups[0].values, known, env) && FaithfulGroups(groups[1..], known, env)
  }

  ghost predicate FaithfulAll(elements: seq<ExtensionElement>, known: set<Binding>, env: map<string, string>)
    decreases elements, 0
  {
    |elements| > 0 ==> Faithful(elements[0], known, env) && FaithfulAll(elements[1..], known, env)
  }

  // ---- Uses and declarations ------------------------------------------------------

  lemma {:induction false} GroupUsesAre(values: seq<ExtensionAttribute>, b: Binding)
    ensures b in GroupUses(values) <==>
            NsUse(b.prefix, Some(b.namespace)) in GroupNsUses(values) && b.prefix != "" && b.namespace != ""
  {
    if |values| > 0 {
      GroupUsesAre(values[..|values| - 1], b);
    }
  }

  lemma {:induction false} AttrUsesAre(groups: seq<Group<ExtensionAttribute>>, b: Binding)
    ensures b in AttrUses(groups) <==>
            NsUse(b.prefix, Some(b.namespace)) in AttrNsUses(groups) && b.prefix != "" && b.namespace != ""
  {
    if |groups| > 0 {
      AttrUsesAre(groups[..|groups| - 1], b);
      GroupUsesAre(groups[|groups| - 1].values, b);
    }
  }

  /** The bindings the writer considers are the resolved uses. */
  lemma UsesAre(e: ExtensionElement, b: Binding)
    ensures b in Uses(e) <==>
            NsUse(b.prefix, Some(b.namespace)) in NsUses(e) && b.prefix != "" && b.namespace != ""
  {
    AttrUsesAre(e.attributes, b);
  }

  lemma {:induction false} MissingAre(used: seq<Binding>, scope: seq<Binding>, b: Binding)
    ensures b in Missing(used, scope) <==> b in used && b !in scope
  {
    if |used| > 0 {
      MissingAre(used[..|used| - 1], scope, b);
      assert used == used[..|used| - 1] + [used[|used| - 1]];
    }
  }

  ghost predicate Binds(bindings: seq<Binding>, prefix: string) {
    exists i :: 0 <= i < |bindings| && bindings[i].prefix == prefix
  }

  lemma {:induction false} DeclaredKey(bindings: seq<Binding>, prefix: string)
    ensures HasKey(Declarations(bindings), "xmlns:" + prefix) <==> Binds(bindings, prefix)
  {
    if |bindings| > 0 {
      var n := |bindings| - 1;
      var rest := bindings[..n];
      DeclaredKey(rest, prefix);
      var d := Declarations(rest);
      var last := Attr("xmlns:" + bindings[n].prefix, bindings[n].namespace);
      assert Declarations(bindings) == d + [last];
      assert last.key == "xmlns:" + prefix <==> bindings[n].prefix == prefix by {
        assert last.key[6..] == bindings[n].prefix && ("xmlns:" + prefix)[6..] == prefix;
      }
      HasKeySnoc(d, last, "xmlns:" + prefix);
      assert Binds(bindings, prefix) <==> Binds(rest, prefix) || bindings[n].prefix == prefix by {
        assert forall i :: 0 <= i < n ==> rest[i] == bindings[i];
      }
    }
  }

  lemma HasKeySnoc(attrs: seq<Attr>, a: Attr, key: string)
    ensures HasKey(attrs + [a], key) <==> HasKey(attrs, key) || a.key == key
  {
    if HasKey(attrs, key) {
      var i :| 0 <= i < |attrs| && attrs[i].key == key;
      assert (attrs + [a])[i].key == key;
    }
    if a.key == key {
      assert (attrs + [a])[|attrs|].key == key;
    }
  }

  lemma BindsSnoc(rest: seq<Binding>, b: Binding, prefix: string)
    ensures Binds(rest + [b], prefix) <==> Binds(rest, prefix) || b.prefix == prefix
  {
    var all := rest + [b];
    assert forall i :: 0 <= i < |rest| ==> all[i] == rest[i];
    assert all[|rest|] == b;
  }

  /** `prefix` is bound in `env` to one of the namespaces given for it. */
  ghost predicate MeansOneOf(env: map<string, string>, bindings: seq<Binding>, prefix: string) {
    exists b :: b in bindings && b.prefix == prefix && Lookup(env, Some(prefix)) == Some(b.namespace)
  }

  lemma StillMeansOneOf(
      env: map<string, string>, env': map<string, string>, rest: seq<Binding>, b: Binding, prefix: string)
    requires MeansOneOf(env, rest, prefix) && Lookup(env', Some(prefix)) == Lookup(env, Some(prefix))
    ensures MeansOneOf(env', rest + [b], prefix)
  {
    var c :| c in rest && c.prefix == prefix && Lookup(env, Some(prefix)) == Some(c.namespace);
    assert c in rest + [b];
  }

  /** A declared prefix means one of the declared namespaces, any other what it meant outside. */
  lemma {:induction false} DeclaredLookup(env: map<string, string>, bindings: seq<Binding>, prefix: string)
    ensures !Binds(bindings, prefix) ==> Lookup(Declared(env, bindings), Some(prefix)) == Lookup(env, Some(prefix))
    ensures Binds(bindings, prefix) ==> MeansOneOf(Declared(env, bindings), bindings, prefix)
  {
    if |bindings| > 0 {
      var n := |bindings| - 1;
      var rest, b := bindings[..n], bindings[n];
      DeclaredLookup(env, rest, prefix);
      DeclaredStep(env, bindings);
      assert bindings == rest + [b];
      BindsSnoc(rest, b, prefix);
      hide Declared, Binds, MeansOneOf;
      if Binds(rest, prefix) {
        StillMeansOneOf(Declared(env, rest), Declared(env, bindings), rest, b, prefix);
      } else if b.prefix == prefix {
        NowMeans(Declared(env, bindings), bindings, b);
      }
    }
  }

  lemma NowMeans(env: map<string, string>, bindings: seq<Binding>, b: Binding)
    requires b in bindings && Lookup(env, Some(b.prefix)) == Some(b.namespace)
    ensures MeansOneOf(env, bindings, b.prefix)
  {
  }

  lemma DeclaredStep(env: map<string, string>, bindings: seq<Binding>)
    requires |bindings| > 0
    ensures var n := |bindings| - 1;
            Declared(env, bindings) ==
            if Binds(bindings[..n], bindings[n].prefix) then Declared(env, bindings[..n])
            else Declared(env, bindings[..n])[bindings[n].prefix := bindings[n].namespace]
  {
    var n := |bindings| - 1;
    var d, x := Declarations(bindings[..n]), Attr("xmlns:" + bindings[n].prefix, bindings[n].namespace);
    DeclaredKey(bindings[..n], bindings[n].prefix);
    assert (d + [x])[..|d|] == d;
    var r := Readable(d);
    assert (r + [x])[..|r|] == r;
    assert x.key[6..] == bindings[n].prefix && "xmlns:" <= x.key && x.key != "xmlns";
  }

  lemma {:induction false} BindAllLookup(env: map<string, string>, bindings: seq<Binding>, prefix: string)
    ensures !Binds(bindings, prefix) ==> Lookup(BindAll(env, bindings), Some(prefix)) == Lookup(env, Some(prefix))
    ensures Binds(bindings, prefix) ==> MeansOneOf(BindAll(env, bindings), bindings, prefix)
  {
    if |bindings| > 0 {
      var n := |bindings| - 1;
      var rest, b := bindings[..n], bindings[n];
      BindAllLookup(env, rest, prefix);
      assert bindings == rest + [b];
      BindsSnoc(rest, b, prefix);
      hide Binds, MeansOneOf;
      if b.prefix == prefix {
        NowMeans(BindAll(env, bindings), bindings, b);
      } else if Binds(rest, prefix) {
        StillMeansOneOf(BindAll(env, rest), BindAll(env, bindings), rest, b, prefix);
      }
    }
  }

  // ---- One element ----------------------------------------------------------------

  /** Every use finds its own namespace in `env`. */
  ghost predicate AllFound(uses: seq<NsUse>, env: map<string, string>) {
    forall u :: u in uses ==> Lookup(env, Some(u.prefix)) == u.namespace
  }

  lemma {:induction false} RereadValuesSame(key: string, values: seq<ExtensionAttribute>, env: map<string, string>)
    requires forall j :: 0 <= j < |values| ==> ShapedAttr(key, values[j])
    ensures |RereadValues(values, env)| == |values|
    ensures RereadValues(values, env) == values <==> AllFound(GroupNsUses(values), env)
  {
    hide ShapedAttr, AllFound, Lookup, UseOf;
    NothingToFind(env);
    if |values| > 0 {
      var n := |values| - 1;
      var rest, a := values[..n], values[n];
      RereadValuesSame(key, rest, env);
      var r, x := RereadValues(rest, env), a.(namespace := Lookup(env, a.prefix));
      assert values == rest + [a];
      ValueSame(key, a, env);
      SnocSame(r, rest, x, a);
      AllFoundSplit(GroupNsUses(rest), UseOf(a.prefix, a.namespace), env);
    }
  }

  lemma ValueSame(key: string, a: ExtensionAttribute, env: map<string, string>)
    requires ShapedAttr(key, a)
    ensures a.(namespace := Lookup(env, a.prefix)) == a <==> AllFound(UseOf(a.prefix, a.namespace), env)
  {
    if a.prefix.Some? {
      assert NsUse(a.prefix.value, a.namespace) in UseOf(a.prefix, a.namespace);
    }
  }

  lemma SnocSame<T>(s: seq<T>, t: seq<T>, x: T, y: T)
    requires |s| == |t|
    ensures s + [x] == t + [y] <==> s == t && x == y
  {
    if s + [x] == t + [y] {
      assert (s + [x])[|s|] == (t + [y])[|t|];
      assert (s + [x])[..|s|] == s && (t + [y])[..|t|] == t;
    }
  }

  lemma NothingToFind(env: map<string, string>)
    ensures AllFound([], env)
  {
  }

  lemma AllFoundSplit(a: seq<NsUse>, b: seq<NsUse>, env: map<string, string>)
    ensures AllFound(a + b, env) <==> AllFound(a, env) && AllFound(b, env)
  {
    assert forall u :: u in a + b <==> u in a || u in b;
  }

  lemma {:induction false} RereadAttrsSame(groups: seq<Group<ExtensionAttribute>>, env: map<string, string>)
    requires forall i, j :: 0 <= i < |groups| && 0 <= j < |groups[i].values| ==>
            ShapedAttr(groups[i].key, groups[i].values[j])
    ensures RereadAttrs(groups, env) == groups <==> AllFound(AttrNsUses(groups), env)
  {
    hide ShapedAttr, AllFound, GroupNsUses, RereadValues;
    NothingToFind(env);
    if |groups| > 0 {
      var n := |groups| - 1;
      var rest, g := groups[..n], groups[n];
      assert forall i :: 0 <= i < n ==> rest[i] == groups[i];
      RereadAttrsSame(rest, env);
      RereadValuesSame(g.key, g.values, env);
      RereadAttrsKeys(rest, env);
      assert groups == rest + [g];
      SnocSame(RereadAttrs(rest, env), rest, Group(g.key, RereadValues(g.values, env)), g);
      AllFoundSplit(AttrNsUses(rest), GroupNsUses(g.values), env);
    }
  }

  lemma NodeSame(e: ExtensionElement, env: map<string, string>)
    requires Shaped(e)
    ensures Lookup(env, e.prefix) == e.namespace && RereadAttrs(e.attributes, env) == e.attributes
       <==> AllFound(NsUses(e), env)
  {
    RereadAttrsSame(e.attributes, env);
    AllFoundSplit(UseOf(e.prefix, e.namespace), AttrNsUses(e.attributes), env);
    assert e.prefix.Some? ==> NsUse(e.prefix.value, e.namespace) in UseOf(e.prefix, e.namespace);
  }

  /** A use whose prefix the writer declares is redeclared with the use's own namespace or another's. */
  lemma DeclaredUse(e: ExtensionElement, scope: seq<Binding>, env: map<string, string>, u: NsUse)
    requires u in NsUses(e)
    ensures var found := Lookup(Declared(env, Missing(Uses(e), scope)), Some(u.prefix));
            || (found == Lookup(env, Some(u.prefix))
                && forall v :: v in NsUses(e) && v.prefix == u.prefix && Resolved(v) ==>
                    Binding(v.prefix, v.namespace.value) in scope)
            || (exists v :: v in NsUses(e) && v.prefix == u.prefix && Resolved(v)
                            && Binding(v.prefix, v.namespace.value) !in scope && found == v.namespace)
  {
    var missing := Missing(Uses(e), scope);
    DeclaredLookup(env, missing, u.prefix);
    if Binds(missing, u.prefix) {
      var b :| b in missing && b.prefix == u.prefix && Lookup(Declared(env, missing), Some(u.prefix))
          == Some(b.namespace);
      MissingAre(Uses(e), scope, b);
      UsesAre(e, b);
      var v := NsUse(b.prefix, Some(b.namespace));
      assert v in NsUses(e) && Resolved(v) && Binding(v.prefix, v.namespace.value) !in scope;
    } else {
      forall v | v in NsUses(e) && v.prefix == u.prefix && Resolved(v)
          ensures Binding(v.prefix, v.namespace.value) in scope {
        var b := Binding(v.prefix, v.namespace.value);
        UsesAre(e, b);
        MissingAre(Uses(e), scope, b);
      }
    }
  }

  lemma NodeFaithfulIff(e: ExtensionElement, scope: seq<Binding>, env: map<string, string>)
    ensures AllFound(NsUses(e), Declared(env, Missing(Uses(e), scope))) <==> NodeFaithful(e, Elements(scope), env)
  {
    hide NsUses, Declared, Missing, Uses, Lookup;
    var inner := Declared(env, Missing(Uses(e), scope));
    if AllFound(NsUses(e), inner) {
      forall u | u in NsUses(e)
        ensures (Resolved(u) && Binding(u.prefix, u.namespace.value) !in Elements(scope))
                || Lookup(env, Some(u.prefix)) == u.namespace
      {
        DeclaredUse(e, scope, env, u);
      }
      assert NodeFaithful(e, Elements(scope), env);
    }
    if NodeFaithful(e, Elements(scope), env) {
      forall u | u in NsUses(e) ensures Lookup(inner, Some(u.prefix)) == u.namespace {
        DeclaredUse(e, scope, env, u);
      }
    }
  }

  // ---- Whole trees ----------------------------------------------------------------

  lemma SameLookups(m: map<string, string>, n: map<string, string>)
    requires forall p :: Lookup(m, Some(p)) == Lookup(n, Some(p))
    ensures m == n
  {
    assert forall p :: p in m <==> Lookup(m, Some(p)).Some?;
    assert forall p :: p in n <==> Lookup(n, Some(p)).Some?;
    assert m.Keys == n.Keys;
    assert forall p :: p in m ==> Lookup(m, Some(p)) == Some(m[p]);
  }

  /** In a faithful element the declarations leave every prefix with the meaning it is used with. */
  lemma FaithfulEnv(e: ExtensionElement, scope: seq<Binding>, env: map<string, string>)
    requires NodeFaithful(e, Elements(scope), env)
    ensures Declared(env, Missing(Uses(e), scope)) == BindAll(env, Uses(e))
  {
    var inner, bound := Declared(env, Missing(Uses(e), scope)), BindAll(env, Uses(e));
    NodeFaithfulIff(e, scope, env);
    hide NsUses, Declared, Missing, Uses, BindAll, NodeFaithful;
    forall p ensures Lookup(inner, Some(p)) == Lookup(bound, Some(p)) {
      FaithfulPrefix(e, scope, env, p);
    }
    SameLookups(inner, bound);
  }

  lemma FaithfulPrefix(e: ExtensionElement, scope: seq<Binding>, env: map<string, string>, p: string)
    requires NodeFaithful(e, Elements(scope), env)
    requires AllFound(NsUses(e), Declared(env, Missing(Uses(e), scope)))
    ensures Lookup(Declared(env, Missing(Uses(e), scope)), Some(p)) == Lookup(BindAll(env, Uses(e)), Some(p))
  {
    var inner, bound := Declared(env, Missing(Uses(e), scope)), BindAll(env, Uses(e));
    BindAllLookup(env, Uses(e), p);
    if Binds(Uses(e), p) {
      var b :| b in Uses(e) && b.prefix == p && Lookup(bound, Some(p)) == Some(b.namespace);
      UsesAre(e, b);
      hide NsUses, Declared, Missing, Uses, BindAll;
      assert Lookup(inner, Some(p)) == Some(b.namespace);
    } else {
      DeclaredLookup(env, Missing(Uses(e), scope), p);
      if Binds(Missing(Uses(e), scope), p) {
        var i :| 0 <= i < |Missing(Uses(e), scope)| && Missing(Uses(e), scope)[i].prefix == p;
        MissingAre(Uses(e), scope, Missing(Uses(e), scope)[i]);
        assert false;
      }
    }
  }

  lemma KnownAfter(e: ExtensionElement, scope: seq<Binding>)
    ensures Elements(scope + Missing(Uses(e), scope)) == Elements(scope) + Elements(Uses(e))
  {
    forall b ensures b in scope + Missing(Uses(e), scope) <==> b in scope || b in Uses(e) {
      MissingAre(Uses(e), scope, b);
    }
  }

  /** The reread element is the original exactly when the tree is faithful and its texts are kept. */
  lemma {:induction false} RereadSameIff(e: ExtensionElement, scope: seq<Binding>, env: map<string, string>)
    requires Shaped(e)
    ensures Reread(e, scope, env) == e <==> Faithful(e, Elements(scope), env) && TextsKept(e)
    decreases e, 1
  {
    var missing := Missing(Uses(e), scope);
    var inner := Declared(env, missing);
    NodeSame(e, inner);
    NodeFaithfulIff(e, scope, env);
    hide NsUses, Declared, Missing, Uses, BindAll, NodeFaithful, AllFound, Lookup, RereadAttrs, ReadText;
    if NodeFaithful(e, Elements(scope), env) {
      FaithfulEnv(e, scope, env);
      KnownAfter(e, scope);
      RereadGroupsSameIff(e.children, scope + missing, inner);
    }
  }

  lemma {:induction false} RereadGroupsSameIff(
      groups: seq<Group<ExtensionElement>>, scope: seq<Binding>, env: map<string, string>)
    requires ShapedGroups(groups)
    ensures RereadGroups(groups, scope, env) == groups <==>
            FaithfulGroups(groups, Elements(scope), env) && GroupTextsKept(groups)
    decreases groups, 0
  {
    hide RereadAll, Faithful, FaithfulAll, ShapedAll, AllTextsKept;
    if |groups| > 0 {
      var g, rest := groups[0], groups[1..];
      RereadAllSameIff(g.key, g.values, scope, env);
      RereadGroupsSameIff(rest, scope, env);
      ConsSame(Group(g.key, RereadAll(g.values, scope, env)), RereadGroups(rest, scope, env), g, rest);
      assert groups == [g] + rest;
    }
  }

  lemma {:induction false} RereadAllSameIff(
      key: string, elements: seq<ExtensionElement>, scope: seq<Binding>, env: map<string, string>)
    requires ShapedAll(key, elements)
    ensures RereadAll(elements, scope, env) == elements <==>
            FaithfulAll(elements, Elements(scope), env) && AllTextsKept(elements)
    decreases elements, 0
  {
    hide Reread, Faithful, Shaped, TextsKept;
    if |elements| > 0 {
      var e, rest := elements[0], elements[1..];
      RereadSameIff(e, scope, env);
      RereadAllSameIff(key, rest, scope, env);
      ConsSame(Reread(e, scope, env), RereadAll(rest, scope, env), e, rest);
      assert elements == [e] + rest;
    }
  }

  lemma ConsSame<T>(x: T, s: seq<T>, y: T, t: seq<T>)
    ensures [x] + s == [y] + t <==> x == y && s == t
  {
    if [x] + s == [y] + t {
      assert ([x] + s)[0] == ([y] + t)[0];
      assert ([x] + s)[1..] == s && ([y] + t)[1..] == t;
    }
  }

  /**
   * Writing an element and parsing it back gives the same element exactly when its texts are kept and
   * it is faithful: in each element a prefix means one thing, and a binding met before, or given by
   * the scope, is still in force wherever it is used again.
   */
  lemma RoundTripIff(e: ExtensionElement, scope: seq<Binding>, env: map<string, string>, rest: seq<Token>)
    requires Shaped(e)
    ensures var ts := Written(e, scope) + rest;
            && (ts[0].Start? || ts[0].Empty?)
            && ParsedElement(ts, env).1 == rest
            && (ParsedElement(ts, env).0 == e <==> Faithful(e, Elements(scope), env) && TextsKept(e))
  {
    ParseWritten(e, scope, env, rest);
    RereadSameIff(e, scope, env);
  }

  // ---- Two consequences -----------------------------------------------------------

  /** Every use is resolved, and no prefix changes its meaning on the way down. */
  ghost predicate OneMeaning(e: ExtensionElement, env: map<string, string>)
    decreases e, 1
  {
    && (forall u :: u in NsUses(e) ==>
          && Resolved(u)
          && Lookup(BindAll(env, Uses(e)), Some(u.prefix)) == u.namespace
          && (u.prefix in env ==> Lookup(env, Some(u.prefix)) == u.namespace))
    && OneMeaningGroups(e.children, BindAll(env, Uses(e)))
  }

  ghost predicate OneMeaningGroups(groups: seq<Group<ExtensionElement>>, env: map<string, string>)
    decreases groups, 0
  {
    |groups| > 0 ==> OneMeaningAll(groups[0].values, env) && OneMeaningGroups(groups[1..], env)
  }

  ghost predicate OneMeaningAll(elements: seq<ExtensionElement>, env: map<string, string>)
    decreases elements, 0
  {
    |elements| > 0 ==> OneMeaning(elements[0], env) && OneMeaningAll(elements[1..], env)
  }

  /** The bindings met so far are the current ones. */
  ghost predicate InForce(known: set<Binding>, env: map<string, string>) {
    forall b :: b in known ==> Lookup(env, Some(b.prefix)) == Some(b.namespace)
  }

  lemma InForceBelow(e: ExtensionElement, known: set<Binding>, env: map<string, string>)
    requires OneMeaning(e, env) && InForce(known, env)
    ensures InForce(known + Elements(Uses(e)), BindAll(env, Uses(e)))
  {
    var inner := BindAll(env, Uses(e));
    forall b | b in known + Elements(Uses(e)) ensures Lookup(inner, Some(b.prefix)) == Some(b.namespace) {
      if b in Uses(e) {
        UsesAre(e, b);
      } else {
        BindAllLookup(env, Uses(e), b.prefix);
        if Binds(Uses(e), b.prefix) {
          var c :| c in Uses(e) && c.prefix == b.prefix && Lookup(inner, Some(b.prefix)) == Some(c.namespace);
          UsesAre(e, c);
        }
      }
    }
  }

  lemma {:induction false} OneMeaningIsFaithful(e: ExtensionElement, known: set<Binding>, env: map<string, string>)
    requires OneMeaning(e, env) && InForce(known, env)
    ensures Faithful(e, known, env)
    decreases e, 1
  {
    InForceBelow(e, known, env);
    OneMeaningGroupsFaithful(e.children, known + Elements(Uses(e)), BindAll(env, Uses(e)));
    assert NodeFaithful(e, known, env) by {
      hide NsUses, Uses, BindAll;
      forall u | u in NsUses(e)
        ensures (Resolved(u) && Binding(u.prefix, u.namespace.value) !in known)
                || Lookup(env, Some(u.prefix)) == u.namespace
      {
        assert u.prefix in env || Binding(u.prefix, u.namespace.value) !in known;
      }
    }
  }

  lemma {:induction false} OneMeaningGroupsFaithful(
      groups: seq<Group<ExtensionElement>>, known: set<Binding>, env: map<string, string>)
    requires OneMeaningGroups(groups, env) && InForce(known, env)
    ensures FaithfulGroups(groups, known, env)
    decreases groups, 0
  {
    if |groups| > 0 {
      OneMeaningAllFaithful(groups[0].values, known, env);
      OneMeaningGroupsFaithful(groups[1..], known, env);
    }
  }

  lemma {:induction false} OneMeaningAllFaithful(
      elements: seq<ExtensionElement>, known: set<Binding>, env: map<string, string>)
    requires OneMeaningAll(elements, env) && InForce(known, env)
    ensures FaithfulAll(elements, known, env)
    decreases elements, 0
  {
    if |elements| > 0 {
      OneMeaningIsFaithful(elements[0], known, env);
      OneMeaningAllFaithful(elements[1..], known, env);
    }
  }

  const FLOWABLE_NS := "http://flowable.org/bpmn"
  const BPMNDI_NS := "http://www.omg.org/spec/BPMN/20100524/DI"
  const DC_NS := "http://www.omg.org/spec/DD/20100524/DC"
  const DI_NS := "http://www.omg.org/spec/DD/20100524/DI"

  /** The bindings the writer puts on the document's root element. */
  const ROOT_SCOPE := [
    Binding("flowable", FLOWABLE_NS), Binding("bpmndi", BPMNDI_NS), Binding("dc", DC_NS), Binding("di", DI_NS)]

  /** In a document that keeps the root bindings, such elements always survive. */
  lemma OneMeaningRoundTrip(e: ExtensionElement, env: map<string, string>, rest: seq<Token>)
    requires Shaped(e) && TextsKept(e) && OneMeaning(e, env) && InForce(Elements(ROOT_SCOPE), env)
    ensures var ts := Written(e, ROOT_SCOPE) + rest;
            (ts[0].Start? || ts[0].Empty?) && ParsedElement(ts, env) == (e, rest)
  {
    OneMeaningIsFaithful(e, Elements(ROOT_SCOPE), env);
    RoundTripIff(e, ROOT_SCOPE, env, rest);
  }

  /** An element `c:x` bound to `namespace`, with the given children. */
  function Bound(namespace: string, children: seq<Group<ExtensionElement>>): ExtensionElement {
    ExtensionElement(None, [], Some("x"), Some("c"), Some(namespace), None, children)
  }

  function Around(namespace: string, inner: ExtensionElement): ExtensionElement {
    Bound(namespace, [Group("x", [inner])])
  }

  lemma AroundUses(namespace: string, inner: ExtensionElement, env: map<string, string>)
    requires namespace != ""
    ensures Uses(Around(namespace, inner)) == [Binding("c", namespace)]
    ensures Elements(Uses(Around(namespace, inner))) == {Binding("c", namespace)}
    ensures BindAll(env, Uses(Around(namespace, inner))) == env["c" := namespace]
  {
    var u := Uses(Around(namespace, inner));
    assert u == [Binding("c", namespace)];
    assert u[..0] == [] && BindAll(env, []) == env;
  }

  lemma AroundShaped(namespace: string, inner: ExtensionElement)
    requires Shaped(inner) && inner.name == Some("x")
    ensures Shaped(Around(namespace, inner))
  {
    hide Shaped, ShapedAttrs;
    ChildOfAround(namespace, inner);
    AroundParts(namespace, inner);
  }

  lemma ChildOfAround(namespace: string, inner: ExtensionElement)
    requires Shaped(inner) && inner.name == Some("x")
    ensures ShapedGroups(Around(namespace, inner).children)
  {
    hide Shaped;
    var groups := Around(namespace, inner).children;
    assert groups[0].values == [inner] && groups[1..] == [] && [inner][1..] == [];
    assert ShapedAll("x", [inner]);
  }

  lemma AroundParts(namespace: string, inner: ExtensionElement)
    requires ShapedGroups(Around(namespace, inner).children)
    ensures Shaped(Around(namespace, inner))
  {
    hide ShapedGroups;
  }

  lemma AroundFacts(namespace: string, inner: ExtensionElement, known: set<Binding>, env: map<string, string>)
    requires namespace != "" && Shaped(inner) && inner.name == Some("x")
    ensures Shaped(Around(namespace, inner))
    ensures Faithful(Around(namespace, inner), known, env) ==>
              Faithful(inner, known + {Binding("c", namespace)}, env["c" := namespace])
  {
    AroundShaped(namespace, inner);
    AroundUses(namespace, inner, env);
    hide Shaped, NodeFaithful, BindAll, Uses, Elements;
    var e := Around(namespace, inner);
    var known', env' := known + {Binding("c", namespace)}, env["c" := namespace];
    if Faithful(e, known, env) {
      assert FaithfulGroups(e.children, known', env');
      assert e.children[0].values == [inner];
      assert FaithfulAll([inner], known', env');
      assert [inner][0] == inner;
    }
  }

  /** `c` bound to one namespace, then to another, then to the first again is misread. */
  lemma ReturningPrefixIsMisread(first: string, second: string, env: map<string, string>)
    requires first != "" && second != "" && first != second
    ensures var e := Around(first, Around(second, Bound(first, [])));
            && Shaped(e) && (Written(e, ROOT_SCOPE)[0].Start? || Written(e, ROOT_SCOPE)[0].Empty?)
            && ParsedElement(Written(e, ROOT_SCOPE), env).0 != e
  {
    var innermost := Bound(first, []);
    var middle := Around(second, innermost);
    var e := Around(first, middle);
    assert Shaped(innermost);
    var known := Elements(ROOT_SCOPE);
    var known2 := known + {Binding("c", first)};
    AroundFacts(second, innermost, known2, env["c" := first]);
    AroundFacts(first, middle, known, env);
    assert NsUse("c", Some(first)) in NsUses(innermost);
    assert !NodeFaithful(innermost, known2 + {Binding("c", second)}, env["c" := first]["c" := second]);
    RoundTripIff(e, ROOT_SCOPE, env, []);
    assert Written(e, ROOT_SCOPE) + [] == Written(e, ROOT_SCOPE);
  }
}
