/**
 * Conversion between the engine's app definitions and the canonical app model, and the resolution
 * of the definitions an app refers to.
 */
module AppConvert {
  import opened Common

  datatype DefinitionType = BpmnProcess | DmnDecision | CmmnCase | EventRegistry

  datatype Reference = Reference(
    id: string, name: Option<string>, description: Option<string>, definitionType: DefinitionType,
    definitionKey: string, definitionId: Option<string>, tenantId: Option<string>)

  datatype Page = Page(
    id: string, name: string, description: Option<string>, icon: Option<string>, order: Option<int>,
        references: seq<Reference>)

  /** The definition-level fields both models carry unchanged. */
  datatype Settings = Settings(
    description: Option<string>, category: Option<string>, theme: Option<string>, icon: Option<string>,
    usersAccess: Option<string>, groupsAccess: Option<string>, landingPage: Option<string>)

  datatype Definition = Definition(id: string, key: string, name: string, settings: Settings, pages: seq<Page>)

  datatype PageType = ProcessPage | DecisionPage | CasePage | EventPage

  datatype ReferenceType = Bpmn | Dmn | Cmmn | EventRegistryReference

  datatype CanonicalPage = CanonicalPage(
    id: string, name: Option<string>, description: Option<string>, pageType: PageType, definitionKey: string,
    icon: Option<string>, order: Option<int>)

  datatype CanonicalReference = CanonicalReference(
    id: Option<string>, name: Option<string>, description: Option<string>, referenceType: ReferenceType,
    definitionKey: string, definitionId: Option<string>, tenantId: Option<string>)

  datatype CanonicalDefinition = CanonicalDefinition(
    id: Option<string>, key: string, name: Option<string>, settings: Settings,
    pages: seq<CanonicalPage>, references: seq<CanonicalReference>)

  function PageTypeOf(t: DefinitionType): PageType {
    match t
    case BpmnProcess => ProcessPage
    case DmnDecision => DecisionPage
    case CmmnCase => CasePage
    case EventRegistry => EventPage
  }

  function OfPageType(t: PageType): DefinitionType {
    match t
    case ProcessPage => BpmnProcess
    case DecisionPage => DmnDecision
    case CasePage => CmmnCase
    case EventPage => EventRegistry
  }

  function ReferenceTypeOf(t: DefinitionType): ReferenceType {
    match t
    case BpmnProcess => Bpmn
    case DmnDecision => Dmn
    case CmmnCase => Cmmn
    case EventRegistry => EventRegistryReference
  }

  function OfReferenceType(t: ReferenceType): DefinitionType {
    match t
    case Bpmn => BpmnProcess
    case Dmn => DmnDecision
    case Cmmn => CmmnCase
    case EventRegistryReference => EventRegistry
  }

  function Or<T>(o: Option<T>, default: T): T {
    if o.Some? then o.value else default
  }

  function OrElse<T>(o: Option<T>, other: Option<T>): Option<T> {
    if o.Some? then o else other
  }

  function Decimal(n: nat): string {
    if n < 10 then ["0123456789"[n]] else Decimal(n / 10) + ["0123456789"[n % 10]]
  }

  const REFERENCES_PAGE := "app-references"

  // ---- Engine to canonical --------------------------------------------------------

  /** A canonical page has room for one reference without a pin or tenant. */
  predicate FitsPage(p: Page) {
    p.id != REFERENCES_PAGE && |p.references| == 1
    && p.references[0].definitionId.None? && p.references[0].tenantId.None?
  }

  function AsPage(p: Page): CanonicalPage
    requires FitsPage(p)
  {
    CanonicalPage(p.id, Some(p.name), p.description, PageTypeOf(p.references[0].definitionType),
                  p.references[0].definitionKey, p.icon, p.order)
  }

  /** A reference moved to the top level; it inherits missing texts from its page unless that is the references page. */
  function AsReference(p: Page, r: Reference): CanonicalReference {
    CanonicalReference(Some(r.id),
                       if p.id == REFERENCES_PAGE then r.name else OrElse(r.name, Some(p.name)),
                       if p.id == REFERENCES_PAGE then r.description else OrElse(r.description, p.description),
                       ReferenceTypeOf(r.definitionType), r.definitionKey, r.definitionId, r.tenantId)
  }

  function AsReferences(p: Page, references: seq<Reference>): seq<CanonicalReference> {
    if |references| == 0 then []
    else AsReferences(p, references[..|references| - 1]) + [AsReference(p, references[|references| - 1])]
  }

  function CanonicalPages(pages: seq<Page>): seq<CanonicalPage> {
    if |pages| == 0 then []
    else CanonicalPages(pages[..|pages| - 1]) + if FitsPage(pages[|pages| - 1]) then [AsPage(pages[|pages| - 1])]
        else []
  }

  function CanonicalReferences(pages: seq<Page>): seq<CanonicalReference> {
    if |pages| == 0 then []
    else CanonicalReferences(pages[..|pages| - 1])
         + if FitsPage(pages[|pages| - 1]) then [] else AsReferences(pages[|pages| - 1], pages[|pages| - 1].references)
  }

  function ToCanonical(d: Definition): CanonicalDefinition {
    CanonicalDefinition(Some(d.id), d.key, Some(d.name), d.settings, CanonicalPages(d.pages),
        CanonicalReferences(d.pages))
  }

  // ---- Canonical to engine --------------------------------------------------------

  function PageOf(index: nat, p: CanonicalPage): Page {
    var name := Or(p.name, p.id);
    Page(p.id, name, p.description, p.icon, p.order,
         [Reference(p.id + "-ref-" + Decimal(index + 1), Some(name), None, OfPageType(p.pageType), p.definitionKey,
             None, None)])
  }

  function PagesOf(pages: seq<CanonicalPage>): seq<Page> {
    if |pages| == 0 then [] else PagesOf(pages[..|pages| - 1]) + [PageOf(|pages| - 1, pages[|pages| - 1])]
  }

  function ReferenceOf(r: CanonicalReference): Reference {
    Reference(Or(r.id, r.definitionKey + "-ref"), r.name, r.description, OfReferenceType(r.referenceType),
              r.definitionKey, r.definitionId, r.tenantId)
  }

  function ReferencesOf(references: seq<CanonicalReference>): seq<Reference> {
    if |references| == 0 then []
    else ReferencesOf(references[..|references| - 1]) + [ReferenceOf(references[|references| - 1])]
  }

  function ReferencesPage(references: seq<CanonicalReference>): seq<Page> {
    if references == [] then []
    else [Page(REFERENCES_PAGE, "Application references", None, None, None, ReferencesOf(references))]
  }

  function ToEngine(c: CanonicalDefinition): Definition {
    Definition(Or(c.id, c.key), c.key, Or(c.name, c.key), c.settings, PagesOf(c.pages) + ReferencesPage(c.references))
  }

  // ---- The converters as they run -------------------------------------------------

  method EngineDefinitionToCanonical(d: Definition) returns (c: CanonicalDefinition)
    ensures c == ToCanonical(d)
  {
    hide AsPage, AsReferences;
    var pages: seq<CanonicalPage>, references: seq<CanonicalReference> := [], [];
    for i := 0 to |d.pages|
      invariant pages == CanonicalPages(d.pages[..i]) && references == CanonicalReferences(d.pages[..i])
    {
      var page := d.pages[i];
      assert d.pages[..i + 1][..i] == d.pages[..i];
      if FitsPage(page) {
        pages := pages + [AsPage(page)];
      } else {
        var more := FlattenReferences(page);
        references := references + more;
      }
    }
    assert d.pages[..|d.pages|] == d.pages;
    c := CanonicalDefinition(Some(d.id), d.key, Some(d.name), d.settings, pages, references);
  }

  method FlattenReferences(p: Page) returns (references: seq<CanonicalReference>)
    ensures references == AsReferences(p, p.references)
  {
    references := [];
    for i := 0 to |p.references|
      invariant references == AsReferences(p, p.references[..i])
    {
      assert p.references[..i + 1][..i] == p.references[..i];
      references := references + [AsReference(p, p.references[i])];
    }
    assert p.references[..|p.references|] == p.references;
  }

  method CanonicalDefinitionToEngine(c: CanonicalDefinition) returns (d: Definition)
    ensures d == ToEngine(c)
  {
    hide PageOf, ReferenceOf;
    var pages: seq<Page> := [];
    for i := 0 to |c.pages|
      invariant pages == PagesOf(c.pages[..i])
    {
      assert c.pages[..i + 1][..i] == c.pages[..i];
      pages := pages + [PageOf(i, c.pages[i])];
    }
    assert c.pages[..|c.pages|] == c.pages;
    if c.references != [] {
      var references: seq<Reference> := [];
      for i := 0 to |c.references|
        invariant references == ReferencesOf(c.references[..i])
      {
        assert c.references[..i + 1][..i] == c.references[..i];
        references := references + [ReferenceOf(c.references[i])];
      }
      assert c.references[..|c.references|] == c.references;
      pages := pages + [Page(REFERENCES_PAGE, "Application references", None, None, None, references)];
    } else {
      assert pages + [] == pages;
    }
    d := Definition(Or(c.id, c.key), c.key, Or(c.name, c.key), c.settings, pages);
  }

  // ---- The round trip normalises --------------------------------------------------

  /** What every canonical form of an engine definition looks like. */
  ghost predicate Normal(c: CanonicalDefinition) {
    && c.id.Some? && c.name.Some?
    && (forall i :: 0 <= i < |c.pages| ==> c.pages[i].id != REFERENCES_PAGE && c.pages[i].name.Some?)
    && (forall i :: 0 <= i < |c.references| ==> c.references[i].id.Some?)
  }

  lemma {:induction false} AsReferencesNamed(p: Page, references: seq<Reference>)
    ensures |AsReferences(p, references)| == |references|
    ensures forall i :: 0 <= i < |references| ==> AsReferences(p, references)[i].id.Some?
  {
    if |references| > 0 {
      AsReferencesNamed(p, references[..|references| - 1]);
    }
  }

  lemma {:induction false} CanonicalIsNormal(pages: seq<Page>)
    ensures forall i :: 0 <= i < |CanonicalPages(pages)| ==>
              CanonicalPages(pages)[i].id != REFERENCES_PAGE && CanonicalPages(pages)[i].name.Some?
    ensures forall i :: 0 <= i < |CanonicalReferences(pages)| ==> CanonicalReferences(pages)[i].id.Some?
  {
    if |pages| > 0 {
      CanonicalIsNormal(pages[..|pages| - 1]);
      AsReferencesNamed(pages[|pages| - 1], pages[|pages| - 1].references);
    }
  }

  lemma PageBack(index: nat, p: CanonicalPage)
    requires p.id != REFERENCES_PAGE && p.name.Some?
    ensures FitsPage(PageOf(index, p)) && AsPage(PageOf(index, p)) == p
  {
  }

  lemma {:induction false} PagesBack(pages: seq<CanonicalPage>)
    requires forall i :: 0 <= i < |pages| ==> pages[i].id != REFERENCES_PAGE && pages[i].name.Some?
    ensures CanonicalPages(PagesOf(pages)) == pages && CanonicalReferences(PagesOf(pages)) == []
  {
    hide PageOf, FitsPage, AsPage;
    if |pages| > 0 {
      var n := |pages| - 1;
      PagesBack(pages[..n]);
      PageBack(n, pages[n]);
      var engine := PagesOf(pages);
      assert engine[..|engine| - 1] == PagesOf(pages[..n]);
    }
  }

  lemma {:induction false} ReferencesBack(page: Page, references: seq<CanonicalReference>)
    requires page.id == REFERENCES_PAGE && forall i :: 0 <= i < |references| ==> references[i].id.Some?
    ensures AsReferences(page, ReferencesOf(references)) == references
  {
    hide AsReference, ReferenceOf;
    if |references| > 0 {
      var n := |references| - 1;
      ReferencesBack(page, references[..n]);
      ReferenceBack(page, references[n]);
      AsReferencesSnoc(page, ReferencesOf(references[..n]), ReferenceOf(references[n]));
      assert references == references[..n] + [references[n]];
    }
  }

  lemma ReferenceBack(page: Page, r: CanonicalReference)
    requires page.id == REFERENCES_PAGE && r.id.Some?
    ensures AsReference(page, ReferenceOf(r)) == r
  {
  }

  lemma AsReferencesSnoc(page: Page, references: seq<Reference>, r: Reference)
    ensures AsReferences(page, references + [r]) == AsReferences(page, references) + [AsReference(page, r)]
  {
    hide AsReference;
    assert (references + [r])[..|references|] == references;
  }

  lemma ReferencesPageBack(pages: seq<Page>, references: seq<CanonicalReference>)
    requires CanonicalReferences(pages) == []
    requires forall i :: 0 <= i < |references| ==> references[i].id.Some?
    ensures CanonicalPages(pages + ReferencesPage(references)) == CanonicalPages(pages)
    ensures CanonicalReferences(pages + ReferencesPage(references)) == references
  {
    hide AsPage, AsReferences, ReferencesOf;
    if references == [] {
      assert pages + [] == pages;
    } else {
      var page := ReferencesPage(references)[0];
      ReferencesBack(page, references);
      assert (pages + [page])[..|pages|] == pages;
    }
  }

  lemma NormalIsFixed(c: CanonicalDefinition)
    requires Normal(c)
    ensures ToCanonical(ToEngine(c)) == c
  {
    hide CanonicalPages, CanonicalReferences, PagesOf, ReferencesPage;
    PagesBack(c.pages);
    ReferencesPageBack(PagesOf(c.pages), c.references);
  }

  /** Engine to canonical to engine to canonical is the first canonical form, for every definition. */
  lemma RoundTripNormalises(d: Definition)
    ensures ToCanonical(ToEngine(ToCanonical(d))) == ToCanonical(d)
  {
    CanonicalIsNormal(d.pages);
    NormalIsFixed(ToCanonical(d));
  }

  /** The comparison made when a deployment brings both a model and its bytes. */
  predicate SemanticallyEqual(a: Definition, b: Definition) {
    ToCanonical(a).(id := None) == ToCanonical(b).(id := None)
  }

  /** A model always agrees with the bytes it was itself serialised to. */
  lemma OwnBytesAgree(d: Definition)
    ensures SemanticallyEqual(d, ToEngine(ToCanonical(d)))
  {
    RoundTripNormalises(d);
  }

  /** Two definitions with normal canonical forms compare equal exactly when these agree in all but the id. */
  lemma SemanticallyEqualIff(c: CanonicalDefinition, d: CanonicalDefinition)
    requires Normal(c) && Normal(d)
    ensures SemanticallyEqual(ToEngine(c), ToEngine(d)) <==> c.(id := None) == d.(id := None)
  {
    hide Normal, ToEngine, ToCanonical;
    NormalIsFixed(c);
    NormalIsFixed(d);
  }

  // ---- What the conversions fill in -------------------------------------------------

  /** A reference moved to the top level keeps its texts; missing ones come from its page, the references page apart. */
  lemma InheritedTexts(p: Page, r: Reference)
    ensures r.name.Some? ==> AsReference(p, r).name == r.name
    ensures r.description.Some? ==> AsReference(p, r).description == r.description
    ensures r.name.None? ==> AsReference(p, r).name == if p.id == REFERENCES_PAGE then None else Some(p.name)
    ensures r.description.None? ==>
              AsReference(p, r).description == if p.id == REFERENCES_PAGE then None else p.description
    ensures AsReference(p, r).id == Some(r.id)
  {
  }

  /** A canonical definition with every missing id and name filled in. */
  function WithDefaults(c: CanonicalDefinition): CanonicalDefinition {
    c.(id := Some(Or(c.id, c.key)), name := Some(Or(c.name, c.key)),
       pages := seq(|c.pages|, i requires 0 <= i < |c.pages| =>
         c.pages[i].(name := Some(Or(c.pages[i].name, c.pages[i].id)))),
       references := seq(|c.references|, i requires 0 <= i < |c.references| =>
         c.references[i].(id := Some(Or(c.references[i].id, c.references[i].definitionKey + "-ref")))))
  }

  lemma {:induction false} PagesDefault(pages: seq<CanonicalPage>, filled: seq<CanonicalPage>)
    requires |filled| == |pages|
    requires forall i :: 0 <= i < |pages| ==> filled[i] == pages[i].(name := Some(Or(pages[i].name, pages[i].id)))
    ensures PagesOf(pages) == PagesOf(filled)
  {
    if |pages| > 0 {
      PagesDefault(pages[..|pages| - 1], filled[..|pages| - 1]);
    }
  }

  lemma {:induction false} ReferencesDefault(references: seq<CanonicalReference>, filled: seq<CanonicalReference>)
    requires |filled| == |references|
    requires forall i :: 0 <= i < |references| ==>
               filled[i] == references[i].(id := Some(Or(references[i].id, references[i].definitionKey + "-ref")))
    ensures ReferencesOf(references) == ReferencesOf(filled)
  {
    if |references| > 0 {
      ReferencesDefault(references[..|references| - 1], filled[..|references| - 1]);
    }
  }

  lemma EngineOfDefaults(c: CanonicalDefinition)
    ensures ToEngine(c) == ToEngine(WithDefaults(c))
  {
    PagesDefault(c.pages, WithDefaults(c).pages);
    ReferencesDefault(c.references, WithDefaults(c).references);
  }

  /**
   * Read into the engine and converted back, a canonical definition has every missing id and name
   * filled in and nothing else changed, unless a page bears the references page's id.
   */
  lemma DefaultsAreFilledIn(c: CanonicalDefinition)
    requires forall i :: 0 <= i < |c.pages| ==> c.pages[i].id != REFERENCES_PAGE
    ensures ToCanonical(ToEngine(c)) == WithDefaults(c)
  {
    EngineOfDefaults(c);
    assert Normal(WithDefaults(c));
    hide ToEngine, ToCanonical, WithDefaults;
    NormalIsFixed(WithDefaults(c));
  }

  predicate IsDigit(c: char) {
    '0' <= c <= '9'
  }

  lemma {:induction false} DecimalDigits(n: nat)
    ensures |Decimal(n)| > 0 && forall i :: 0 <= i < |Decimal(n)| ==> IsDigit(Decimal(n)[i])
  {
    if n >= 10 {
      DecimalDigits(n / 10);
    }
  }

  lemma {:induction false} DecimalInjective(m: nat, n: nat)
    requires Decimal(m) == Decimal(n)
    ensures m == n
    decreases m
  {
    var a, b := Decimal(m), Decimal(n);
    assert a[|a| - 1] == "0123456789"[m % 10] && b[|b| - 1] == "0123456789"[n % 10];
    DigitInjective(m % 10, n % 10);
    if m >= 10 {
      DecimalDigits(m / 10);
      assert |a| > 1;
      assert a[..|a| - 1] == Decimal(m / 10) && b[..|b| - 1] == Decimal(n / 10);
      DecimalInjective(m / 10, n / 10);
    } else if n >= 10 {
      DecimalDigits(n / 10);
    }
  }

  lemma DigitInjective(m: nat, n: nat)
    requires m < 10 && n < 10 && "0123456789"[m] == "0123456789"[n]
    ensures m == n
  {
  }

  /** How many digits a text ends in. */
  function EndingDigits(s: string): nat {
    if s == "" || !IsDigit(s[|s| - 1]) then 0 else 1 + EndingDigits(s[..|s| - 1])
  }

  lemma {:induction false} EndsInNumber(u: string, a: string)
    requires u != "" && !IsDigit(u[|u| - 1]) && forall i :: 0 <= i < |a| ==> IsDigit(a[i])
    ensures EndingDigits(u + a) == |a|
    decreases |a|
  {
    hide IsDigit;
    if |a| == 0 {
      assert u + a == u;
    } else {
      EndsInNumber(u, a[..|a| - 1]);
      assert (u + a)[..|u + a| - 1] == u + a[..|a| - 1];
    }
  }

  lemma SameNumber(u: string, i: nat, v: string, j: nat)
    requires u + "-ref-" + Decimal(i) == v + "-ref-" + Decimal(j)
    ensures i == j
  {
    DecimalDigits(i);
    DecimalDigits(j);
    EndsInNumber(u + "-ref-", Decimal(i));
    EndsInNumber(v + "-ref-", Decimal(j));
    hide Decimal;
    var s, n := u + "-ref-" + Decimal(i), |Decimal(i)|;
    assert s[|s| - n..] == Decimal(i) && s[|s| - n..] == Decimal(j);
    DecimalInjective(i, j);
  }

  /** Whatever the pages are called, the references made for them get ids that all differ. */
  lemma MadeIdsDiffer(i: nat, p: CanonicalPage, j: nat, q: CanonicalPage)
    requires i != j
    ensures PageOf(i, p).references[0].id != PageOf(j, q).references[0].id
  {
    if PageOf(i, p).references[0].id == PageOf(j, q).references[0].id {
      SameNumber(p.id, i + 1, q.id, j + 1);
    }
  }

  // ---- References are conserved ---------------------------------------------------

  datatype RefKey = RefKey(definitionType: DefinitionType, key: string, definitionId: Option<string>,
      tenantId: Option<string>)

  function KeyOf(r: Reference): RefKey {
    RefKey(r.definitionType, r.definitionKey, r.definitionId, r.tenantId)
  }

  function KeysOf(references: seq<Reference>): seq<RefKey> {
    if |references| == 0 then [] else KeysOf(references[..|references| - 1]) + [KeyOf(references[|references| - 1])]
  }

  /** The references of an engine definition, page by page. */
  function EngineKeys(pages: seq<Page>): seq<RefKey> {
    if |pages| == 0 then [] else EngineKeys(pages[..|pages| - 1]) + KeysOf(pages[|pages| - 1].references)
  }

  function PageKeys(pages: seq<CanonicalPage>): seq<RefKey> {
    if |pages| == 0 then []
    else PageKeys(pages[..|pages| - 1]) + [RefKey(OfPageType(pages[|pages| - 1].pageType),
        pages[|pages| - 1].definitionKey, None, None)]
  }

  function CanonicalRefKeys(references: seq<CanonicalReference>): seq<RefKey> {
    if |references| == 0 then [] else
      var r := references[|references| - 1];
      CanonicalRefKeys(references[..|references| - 1])
      + [RefKey(OfReferenceType(r.referenceType), r.definitionKey, r.definitionId, r.tenantId)]
  }

  function CanonicalKeys(c: CanonicalDefinition): seq<RefKey> {
    PageKeys(c.pages) + CanonicalRefKeys(c.references)
  }

  lemma {:induction false} RefKeysSplit(a: seq<CanonicalReference>, b: seq<CanonicalReference>)
    ensures CanonicalRefKeys(a + b) == CanonicalRefKeys(a) + CanonicalRefKeys(b)
  {
    if |b| == 0 {
      assert a + b == a;
    } else {
      assert (a + b)[..|a| + |b| - 1] == a + b[..|b| - 1];
      RefKeysSplit(a, b[..|b| - 1]);
    }
  }

  lemma {:induction false} AsReferencesKeys(p: Page, references: seq<Reference>)
    ensures CanonicalRefKeys(AsReferences(p, references)) == KeysOf(references)
  {
    if |references| > 0 {
      var n := |references| - 1;
      AsReferencesKeys(p, references[..n]);
      var all := AsReferences(p, references);
      assert all[..|all| - 1] == AsReferences(p, references[..n]);
    }
  }

  lemma FittingPageKeys(c: seq<CanonicalPage>, p: Page)
    requires FitsPage(p)
    ensures PageKeys(c + [AsPage(p)]) == PageKeys(c) + KeysOf(p.references)
  {
    assert (c + [AsPage(p)])[..|c|] == c;
    assert p.references == [p.references[0]] && p.references[..0] == [];
    assert KeysOf(p.references) == [] + [KeyOf(p.references[0])];
  }

  lemma FlattenedPageKeys(c: seq<CanonicalReference>, p: Page)
    ensures CanonicalRefKeys(c + AsReferences(p, p.references)) == CanonicalRefKeys(c) + KeysOf(p.references)
  {
    AsReferencesKeys(p, p.references);
    RefKeysSplit(c, AsReferences(p, p.references));
  }

  lemma {:induction false} KeysToCanonical(pages: seq<Page>)
    ensures multiset(EngineKeys(pages))
         == multiset(PageKeys(CanonicalPages(pages))) + multiset(CanonicalRefKeys(CanonicalReferences(pages)))
  {
    hide FitsPage, AsPage, PageKeys, CanonicalRefKeys, KeysOf, AsReferences;
    if |pages| == 0 {
      NoKeys();
    } else {
      var n := |pages| - 1;
      var rest, p := pages[..n], pages[n];
      KeysToCanonical(rest);
      if FitsPage(p) {
        FittingPageKeys(CanonicalPages(rest), p);
        assert CanonicalReferences(pages) == CanonicalReferences(rest);
      } else {
        FlattenedPageKeys(CanonicalReferences(rest), p);
        assert CanonicalPages(pages) == CanonicalPages(rest);
      }
    }
  }

  lemma NoKeys()
    ensures PageKeys([]) == [] && CanonicalRefKeys([]) == [] && KeysOf([]) == []
  {
  }

  lemma {:induction false} EngineKeysSplit(a: seq<Page>, b: seq<Page>)
    ensures EngineKeys(a + b) == EngineKeys(a) + EngineKeys(b)
  {
    hide KeysOf;
    if |b| == 0 {
      assert a + b == a;
    } else {
      assert (a + b)[..|a| + |b| - 1] == a + b[..|b| - 1];
      EngineKeysSplit(a, b[..|b| - 1]);
    }
  }

  lemma {:induction false} PagesOfKeys(pages: seq<CanonicalPage>)
    ensures EngineKeys(PagesOf(pages)) == PageKeys(pages)
  {
    if |pages| > 0 {
      var n := |pages| - 1;
      PagesOfKeys(pages[..n]);
      var engine, p := PagesOf(pages), PageOf(n, pages[n]);
      assert engine[..|engine| - 1] == PagesOf(pages[..n]);
      assert KeysOf(p.references) == KeysOf(p.references[..0]) + [KeyOf(p.references[0])];
      assert p.references[..0] == [] && KeysOf([]) == [];
      assert engine[|engine| - 1] == p;
    }
  }

  lemma {:induction false} ReferencesOfKeys(references: seq<CanonicalReference>)
    ensures KeysOf(ReferencesOf(references)) == CanonicalRefKeys(references)
  {
    if |references| > 0 {
      var n := |references| - 1;
      ReferencesOfKeys(references[..n]);
      var engine := ReferencesOf(references);
      assert engine[..|engine| - 1] == ReferencesOf(references[..n]);
    }
  }

  lemma ReferencesPageKeys(references: seq<CanonicalReference>)
    ensures EngineKeys(ReferencesPage(references)) == CanonicalRefKeys(references)
  {
    ReferencesOfKeys(references);
    if references != [] {
      var page := ReferencesPage(references);
      assert page[..0] == [];
      assert EngineKeys(page) == [] + KeysOf(page[0].references);
    } else {
      assert |ReferencesPage(references)| == 0 && |references| == 0;
    }
  }

  /** Neither direction loses, adds or changes a reference. */
  lemma ReferencesConserved(d: Definition, c: CanonicalDefinition)
    ensures multiset(EngineKeys(d.pages)) == multiset(CanonicalKeys(ToCanonical(d)))
    ensures EngineKeys(ToEngine(c).pages) == CanonicalKeys(c)
  {
    hide CanonicalPages, CanonicalReferences, PageKeys, CanonicalRefKeys, EngineKeys, PagesOf, ReferencesPage;
    KeysToCanonical(d.pages);
    PagesOfKeys(c.pages);
    ReferencesPageKeys(c.references);
    EngineKeysSplit(PagesOf(c.pages), ReferencesPage(c.references));
  }

  // ---- Resolving the references of an app -----------------------------------------

  /** A definition deployed in one of the other engines. */
  datatype Found = Found(
    definitionType: DefinitionType, id: string, key: string, name: Option<string>, version: int,
    deploymentId: Option<string>, tenantId: Option<string>)

  datatype Lookup = Hit(found: Found) | Miss | LookupFailed

  /** The engines' lookups, by id and by key and tenant; the tenant policy is part of the latter. */
  datatype Catalog = Catalog(
    byId: (DefinitionType, string) -> Lookup,
    byKey: (DefinitionType, string, Option<string>) -> Lookup)

  datatype ResolutionError = CatalogError | PinMissing | PinOfOtherType | PinOfOtherKey | PinOfOtherTenant | KeyMissing

  /** One entry of a resolved composition. */
  datatype Resolved = Resolved(
    pageId: string, pageName: string, referenceId: string, referenceName: Option<string>,
    requestedKey: string, definition: Found)

  function Trim(s: string): string {
    if s == [] then s
    else if IsSpace(s[0]) then Trim(s[1..])
    else if IsSpace(s[|s| - 1]) then Trim(s[..|s| - 1])
    else s
  }

  function ResolveKey(catalog: Catalog, tenant: Option<string>, k: RefKey): Result<Found, ResolutionError> {
    var pin := if k.definitionId.Some? then Trim(k.definitionId.value) else "";
    if pin != "" then
      match catalog.byId(k.definitionType, pin)
      case LookupFailed => Err(CatalogError)
      case Miss => Err(PinMissing)
      case Hit(f) =>
        if f.definitionType != k.definitionType then Err(PinOfOtherType)
        else if k.key != "" && f.key != k.key then Err(PinOfOtherKey)
        else if k.tenantId.Some? && f.tenantId != k.tenantId then Err(PinOfOtherTenant)
        else Ok(f)
    else
      match catalog.byKey(k.definitionType, k.key, OrElse(k.tenantId, tenant))
      case LookupFailed => Err(CatalogError)
      case Miss => Err(KeyMissing)
      case Hit(f) => Ok(f)
  }

  // ---- Which definition a reference means -------------------------------------------

  ghost predicate Blank(s: string) {
    forall i :: 0 <= i < |s| ==> IsSpace(s[i])
  }

  /** Trimming takes white space off both ends and nothing else. */
  lemma {:induction false} TrimIs(s: string) returns (left: string, right: string)
    ensures s == left + Trim(s) + right && Blank(left) && Blank(right)
    ensures Trim(s) != "" ==> !IsSpace(Trim(s)[0]) && !IsSpace(Trim(s)[|Trim(s)| - 1])
    decreases |s|
  {
    hide IsSpace;
    left, right := "", "";
    if s == "" {
      assert s == "" + s + "";
    } else if IsSpace(s[0]) {
      left, right := TrimIs(s[1..]);
      assert s == [s[0]] + s[1..];
      left := [s[0]] + left;
    } else if IsSpace(s[|s| - 1]) {
      var n := |s| - 1;
      left, right := TrimIs(s[..n]);
      assert s == s[..n] + [s[n]];
      right := right + [s[n]];
    } else {
      assert s == "" + s + "";
    }
  }

  /** The pinned id, when there is one that is not blank. */
  predicate IsPinned(k: RefKey) {
    k.definitionId.Some? && Trim(k.definitionId.value) != ""
  }

  /** A pinned reference means the definition with that id, provided type, key and tenant agree where they are given. */
  lemma PinnedMeans(catalog: Catalog, tenant: Option<string>, k: RefKey, f: Found)
    requires IsPinned(k)
    ensures ResolveKey(catalog, tenant, k) == Ok(f) <==>
            && catalog.byId(k.definitionType, Trim(k.definitionId.value)) == Hit(f)
            && f.definitionType == k.definitionType
            && (k.key == "" || f.key == k.key)
            && (k.tenantId.None? || f.tenantId == k.tenantId)
    ensures ResolveKey(catalog, tenant, k) == Err(PinMissing) <==>
            catalog.byId(k.definitionType, Trim(k.definitionId.value)) == Miss
    ensures ResolveKey(catalog, tenant, k) == Err(CatalogError) <==>
            catalog.byId(k.definitionType, Trim(k.definitionId.value)) == LookupFailed
    ensures catalog.byId(k.definitionType, Trim(k.definitionId.value)) == Hit(f) ==>
              && (ResolveKey(catalog, tenant, k) == Err(PinOfOtherType) <==> f.definitionType != k.definitionType)
              && (ResolveKey(catalog, tenant, k) == Err(PinOfOtherKey) <==>
                  f.definitionType == k.definitionType && k.key != "" && f.key != k.key)
              && (ResolveKey(catalog, tenant, k) == Err(PinOfOtherTenant) <==>
                  && f.definitionType == k.definitionType && (k.key == "" || f.key == k.key)
                  && k.tenantId.Some? && f.tenantId != k.tenantId)
  {
    hide Trim;
  }

  /** It never falls back to the key, and the app's tenant plays no part. */
  lemma PinnedIgnoresKeyLookup(
      catalog: Catalog, other: Catalog, tenant: Option<string>, tenant': Option<string>, k: RefKey)
    requires IsPinned(k) && catalog.byId == other.byId
    ensures ResolveKey(catalog, tenant, k) == ResolveKey(other, tenant', k)
  {
    hide Trim;
  }

  /** Without a pin the key decides, looked up for the reference's own tenant or else the app's. */
  lemma UnpinnedMeans(catalog: Catalog, tenant: Option<string>, k: RefKey, f: Found)
    requires !IsPinned(k)
    ensures k.tenantId.Some? ==>
              (ResolveKey(catalog, tenant, k) == Ok(f) <==>
                  catalog.byKey(k.definitionType, k.key, k.tenantId) == Hit(f))
    ensures k.tenantId.None? ==>
              (ResolveKey(catalog, tenant, k) == Ok(f) <==> catalog.byKey(k.definitionType, k.key, tenant) == Hit(f))
    ensures var looked := catalog.byKey(k.definitionType, k.key, if k.tenantId.Some? then k.tenantId else tenant);
            && (ResolveKey(catalog, tenant, k) == Err(KeyMissing) <==> looked == Miss)
            && (ResolveKey(catalog, tenant, k) == Err(CatalogError) <==> looked == LookupFailed)
  {
    hide Trim;
  }

  /** A reference with a tenant of its own resolves alike in apps of all tenants. */
  lemma OwnTenantWins(catalog: Catalog, tenant: Option<string>, tenant': Option<string>, k: RefKey)
    requires k.tenantId.Some?
    ensures ResolveKey(catalog, tenant, k) == ResolveKey(catalog, tenant', k)
  {
    hide Trim;
  }

  /** The definitions a list of references resolves to, or the error of the first that does not resolve. */
  ghost predicate ResolvesTo(
      catalog: Catalog, tenant: Option<string>, keys: seq<RefKey>, r: Result<seq<Found>, ResolutionError>) {
    match r
    case Ok(fs) => |fs| == |keys| && forall i :: 0 <= i < |keys| ==> ResolveKey(catalog, tenant, keys[i]) == Ok(fs[i])
    case Err(e) => exists i :: 0 <= i < |keys| && ResolveKey(catalog, tenant, keys[i]) == Err(e)
                     && forall j :: 0 <= j < i ==> ResolveKey(catalog, tenant, keys[j]).Ok?
  }

  /** The entry names the page and the reference it was resolved for. */
  predicate Describes(entry: Resolved, page: Page, reference: Reference) {
    && entry.pageId == page.id && entry.pageName == page.name
    && entry.referenceId == reference.id && entry.referenceName == reference.name
    && entry.requestedKey == reference.definitionKey
  }

  /** A reference with the page it is on. */
  datatype Placed = Placed(page: Page, reference: Reference)

  function PlacedOn(page: Page, references: seq<Reference>): seq<Placed> {
    seq(|references|, i requires 0 <= i < |references| => Placed(page, references[i]))
  }

  /** All references of an app in resolution order. */
  function AllPlaced(pages: seq<Page>): seq<Placed> {
    if |pages| == 0 then []
    else AllPlaced(pages[..|pages| - 1]) + PlacedOn(pages[|pages| - 1], pages[|pages| - 1].references)
  }

  /** One entry per reference, in order. */
  ghost predicate DescribesAll(entries: seq<Resolved>, placed: seq<Placed>) {
    |entries| == |placed| && forall i :: 0 <= i < |entries| ==>
        Describes(entries[i], placed[i].page, placed[i].reference)
  }

  lemma DescribesMore(entries: seq<Resolved>, placed: seq<Placed>, more: seq<Resolved>, on: seq<Placed>)
    requires DescribesAll(entries, placed) && DescribesAll(more, on)
    ensures DescribesAll(entries + more, placed + on)
  {
    hide Describes;
  }

  function Definitions(rs: seq<Resolved>): seq<Found> {
    seq(|rs|, i requires 0 <= i < |rs| => rs[i].definition)
  }

  function Outcome(r: Result<seq<Resolved>, ResolutionError>): Result<seq<Found>, ResolutionError> {
    if r.Ok? then Ok(Definitions(r.value)) else Err(r.error)
  }

  lemma ResolvesOneMore(
      catalog: Catalog, tenant: Option<string>, keys: seq<RefKey>, rs: seq<Resolved>, k: RefKey, r: Resolved)
    requires ResolvesTo(catalog, tenant, keys, Ok(Definitions(rs)))
    ensures ResolveKey(catalog, tenant, k) == Ok(r.definition) ==>
            ResolvesTo(catalog, tenant, keys + [k], Ok(Definitions(rs + [r])))
    ensures ResolveKey(catalog, tenant, k).Err? ==> ResolvesTo(catalog, tenant, keys + [k],
            Err(ResolveKey(catalog, tenant, k).error))
  {
    hide ResolveKey;
    var all := keys + [k];
    assert all[|keys|] == k && forall i :: 0 <= i < |keys| ==> all[i] == keys[i];
    forall i | 0 <= i < |keys| ensures ResolveKey(catalog, tenant, all[i]).Ok? {
      assert ResolveKey(catalog, tenant, keys[i]) == Ok(Definitions(rs)[i]);
    }
  }

  lemma ErrorStays(catalog: Catalog, tenant: Option<string>, keys: seq<RefKey>, more: seq<RefKey>, e: ResolutionError)
    requires ResolvesTo(catalog, tenant, keys, Err(e))
    ensures ResolvesTo(catalog, tenant, keys + more, Err(e))
  {
    hide ResolveKey;
    var all := keys + more;
    var i :| 0 <= i < |keys| && ResolveKey(catalog, tenant, keys[i]) == Err(e)
             && forall j :: 0 <= j < i ==> ResolveKey(catalog, tenant, keys[j]).Ok?;
    assert all[i] == keys[i] && forall j :: 0 <= j < i ==> all[j] == keys[j];
  }

  /** Resolves one page's references after those in `target`. */
  method ResolvePageReferences(
      catalog: Catalog, tenant: Option<string>, page: Page, target: seq<Resolved>, ghost before: seq<RefKey>)
      returns (r: Result<seq<Resolved>, ResolutionError>)
    requires ResolvesTo(catalog, tenant, before, Ok(Definitions(target)))
    ensures ResolvesTo(catalog, tenant, before + KeysOf(page.references), Outcome(r))
    ensures r.Ok? ==> target <= r.value && DescribesAll(r.value[|target|..], PlacedOn(page, page.references))
  {
    hide ResolveKey, ResolvesTo, KeysOf;
    var rs := target;
    assert before + [] == before;
    NoKeys();
    for i := 0 to |page.references|
      invariant ResolvesTo(catalog, tenant, before + KeysOf(page.references[..i]), Ok(Definitions(rs)))
      invariant |rs| == |target| + i && rs[..|target|] == target
      invariant forall j :: 0 <= j < i ==> Describes(rs[|target| + j], page, page.references[j])
    {
      var reference := page.references[i];
      ghost var done := before + KeysOf(page.references[..i]);
      ghost var left := KeysOf(page.references[i + 1..]);
      KeysStep(page.references, i);
      assert done + [KeyOf(reference)] == before + KeysOf(page.references[..i + 1]);
      var found := ResolveKey(catalog, tenant, KeyOf(reference));
      if found.Err? {
        ResolvesOneMore(catalog, tenant, done, rs, KeyOf(reference),
            Resolved("", "", "", None, "", Found(BpmnProcess, "", "", None, 0, None, None)));
        ErrorStays(catalog, tenant, done + [KeyOf(reference)], left, found.error);
        assert done + [KeyOf(reference)] + left == before + KeysOf(page.references);
        return Err(found.error);
      }
      var entry := Resolved(page.id, page.name, reference.id, reference.name, reference.definitionKey, found.value);
      ResolvesOneMore(catalog, tenant, done, rs, KeyOf(reference), entry);
      rs := rs + [entry];
    }
    assert page.references[..|page.references|] == page.references;
    return Ok(rs);
  }

  lemma KeysStep(references: seq<Reference>, i: nat)
    requires i < |references|
    ensures KeysOf(references[..i + 1]) == KeysOf(references[..i]) + [KeyOf(references[i])]
    ensures KeysOf(references) == KeysOf(references[..i + 1]) + KeysOf(references[i + 1..])
  {
    hide *;
    TakeOneMore(references, i);
    KeysSnoc(references[..i], references[i]);
    TakeAndDrop(references, i + 1);
    KeysSplit(references[..i + 1], references[i + 1..]);
  }

  lemma KeysSnoc(references: seq<Reference>, r: Reference)
    ensures KeysOf(references + [r]) == KeysOf(references) + [KeyOf(r)]
  {
    hide KeyOf;
    assert (references + [r])[..|references|] == references;
  }

  lemma {:induction false} KeysSplit(a: seq<Reference>, b: seq<Reference>)
    ensures KeysOf(a + b) == KeysOf(a) + KeysOf(b)
  {
    hide KeyOf;
    if |b| == 0 {
      assert a + b == a;
    } else {
      assert (a + b)[..|a| + |b| - 1] == a + b[..|b| - 1];
      KeysSplit(a, b[..|b| - 1]);
    }
  }

  /** The references of a resolved composition, or the first failure. */
  method ResolveComposition(catalog: Catalog, tenant: Option<string>, d: Definition)
      returns (r: Result<seq<Resolved>, ResolutionError>)
    ensures ResolvesTo(catalog, tenant, EngineKeys(d.pages), Outcome(r))
    ensures r.Ok? ==> DescribesAll(r.value, AllPlaced(d.pages))
  {
    hide ResolveKey, KeysOf;
    var rs: seq<Resolved> := [];
    for i := 0 to |d.pages|
      invariant ResolvesTo(catalog, tenant, EngineKeys(d.pages[..i]), Ok(Definitions(rs)))
      invariant DescribesAll(rs, AllPlaced(d.pages[..i]))
    {
      hide ResolvesTo, DescribesAll, PlacedOn;
      assert d.pages[..i + 1][..i] == d.pages[..i];
      var page := ResolvePageReferences(catalog, tenant, d.pages[i], rs, EngineKeys(d.pages[..i]));
      if page.Err? {
        ErrorStays(catalog, tenant, EngineKeys(d.pages[..i + 1]), EngineKeys(d.pages[i + 1..]), page.error);
        EngineKeysSplit(d.pages[..i + 1], d.pages[i + 1..]);
        assert d.pages[..i + 1] + d.pages[i + 1..] == d.pages;
        return page;
      }
      DescribesMore(rs, AllPlaced(d.pages[..i]), page.value[|rs|..], PlacedOn(d.pages[i], d.pages[i].references));
      assert rs + page.value[|rs|..] == page.value;
      rs := page.value;
    }
    assert d.pages[..|d.pages|] == d.pages;
    return Ok(rs);
  }

  function Image<T, R>(f: T --> R, s: seq<T>): seq<R>
    requires forall i :: 0 <= i < |s| ==> f.requires(s[i])
  {
    seq(|s|, i requires 0 <= i < |s| => f(s[i]))
  }

  function Without<T>(s: seq<T>, k: nat): seq<T>
    requires k < |s|
  {
    s[..k] + s[k + 1..]
  }

  lemma ImageAt<T, R>(f: T --> R, s: seq<T>, k: nat)
    requires k < |s| && forall i :: 0 <= i < |s| ==> f.requires(s[i])
    ensures forall i :: 0 <= i < |Without(s, k)| ==> f.requires(Without(s, k)[i])
    ensures multiset(Image(f, s)) == multiset(Image(f, Without(s, k))) + multiset{f(s[k])}
  {
    var a, b := Image(f, s[..k]), Image(f, s[k + 1..]);
    var less := Without(s, k);
    forall i | 0 <= i < |less| ensures f.requires(less[i]) {
      assert less[i] == s[if i < k then i else i + 1];
    }
    assert Image(f, less) == a + b;
    assert Image(f, s) == a + [f(s[k])] + b;
  }

  lemma MultisetWithout<T>(s: seq<T>, k: nat)
    requires k < |s|
    ensures |Without(s, k)| == |s| - 1 && multiset(Without(s, k)) == multiset(s) - multiset{s[k]}
  {
    assert s == s[..k] + [s[k]] + s[k + 1..];
  }

  /** Reordering the arguments reorders the images. */
  lemma {:induction false} ImageOfPermutation<T, R>(f: T --> R, a: seq<T>, b: seq<T>)
    requires multiset(a) == multiset(b)
    requires forall i :: 0 <= i < |a| ==> f.requires(a[i])
    requires forall i :: 0 <= i < |b| ==> f.requires(b[i])
    ensures multiset(Image(f, a)) == multiset(Image(f, b))
    decreases |b|
  {
    hide Image, Without;
    if |b| == 0 {
      assert |multiset(a)| == 0;
      assert a == b;
    } else {
      var n := |b| - 1;
      assert b[n] in multiset(a);
      var k :| 0 <= k < |a| && a[k] == b[n];
      ImageAt(f, a, k);
      ImageAt(f, b, n);
      MultisetWithout(a, k);
      MultisetWithout(b, n);
      ImageOfPermutation(f, Without(a, k), Without(b, n));
    }
  }

  lemma SameKeysSameMembers(a: seq<RefKey>, b: seq<RefKey>, i: nat) returns (j: nat)
    requires multiset(a) == multiset(b) && i < |a|
    ensures j < |b| && b[j] == a[i]
  {
    assert a[i] in multiset(b);
    j :| 0 <= j < |b| && b[j] == a[i];
  }

  /** Two lists of the same references both fail, or resolve to the same definitions equally often. */
  lemma SameKeysResolveTogether(
      catalog: Catalog, tenant: Option<string>, a: seq<RefKey>, b: seq<RefKey>,
      ra: Result<seq<Found>, ResolutionError>, rb: Result<seq<Found>, ResolutionError>)
    requires multiset(a) == multiset(b)
    requires ResolvesTo(catalog, tenant, a, ra) && ResolvesTo(catalog, tenant, b, rb)
    ensures ra.Ok? <==> rb.Ok?
    ensures ra.Ok? ==> multiset(ra.value) == multiset(rb.value)
  {
    hide ResolveKey;
    if ra.Err? {
      OneFailsOtherFails(catalog, tenant, a, b, ra, rb);
    } else if rb.Err? {
      OneFailsOtherFails(catalog, tenant, b, a, rb, ra);
    } else {
      var f := (k: RefKey) requires ResolveKey(catalog, tenant, k).Ok? => ResolveKey(catalog, tenant, k).value;
      ImageOfPermutation(f, a, b);
      assert Image(f, a) == ra.value;
      assert Image(f, b) == rb.value;
    }
  }

  lemma OneFailsOtherFails(
      catalog: Catalog, tenant: Option<string>, a: seq<RefKey>, b: seq<RefKey>,
      ra: Result<seq<Found>, ResolutionError>, rb: Result<seq<Found>, ResolutionError>)
    requires multiset(a) == multiset(b)
    requires ResolvesTo(catalog, tenant, a, ra) && ResolvesTo(catalog, tenant, b, rb)
    requires ra.Err?
    ensures rb.Err?
  {
    hide ResolveKey;
    var i :| 0 <= i < |a| && ResolveKey(catalog, tenant, a[i]) == Err(ra.error);
    var j := SameKeysSameMembers(a, b, i);
    assert ResolveKey(catalog, tenant, b[j]).Err?;
  }

  /** A model and its reading back from bytes resolve, or fail, together and to the same definitions. */
  lemma RoundTripResolvesTogether(
      catalog: Catalog, tenant: Option<string>, d: Definition,
      before: Result<seq<Found>, ResolutionError>, after: Result<seq<Found>, ResolutionError>)
    requires ResolvesTo(catalog, tenant, EngineKeys(d.pages), before)
    requires ResolvesTo(catalog, tenant, EngineKeys(ToEngine(ToCanonical(d)).pages), after)
    ensures before.Ok? <==> after.Ok?
    ensures before.Ok? ==> multiset(before.value) == multiset(after.value)
  {
    hide ResolvesTo, ToEngine, ToCanonical, CanonicalKeys;
    ReferencesConserved(d, ToCanonical(d));
    SameKeysResolveTogether(catalog, tenant, EngineKeys(d.pages), EngineKeys(ToEngine(ToCanonical(d)).pages), before,
        after);
  }
}
