/**
 * The elements the generic extension parser can produce, and the texts that stay as they are. What is
 * read from a stream with well-formed names has the shape the round trip asks for; an element without
 * that shape does not survive being written and read; and a text that was read survives exactly when
 * no carriage return stood before a two-character line end in its middle.
 */
module ExtensionShape {
  import opened Common
  import opened ExtensionXml
  import opened ExtensionRoundTrip

  // ---- Streams with well-formed names -----------------------------------------------

  /** At most one colon, and something before it. */
  predicate WellNamed(q: string) {
    PlainPrefix(PrefixOf(q)) && PlainName(LocalName(q))
  }

  ghost predicate FineAttrs(attrs: seq<Attr>) {
    forall i :: 0 <= i < |attrs| ==> WellNamed(attrs[i].key)
  }

  ghost predicate FineToken(t: Token) {
    match t
    case Start(name, attrs) => WellNamed(name) && FineAttrs(attrs)
    case Empty(name, attrs) => WellNamed(name) && FineAttrs(attrs)
    case _ => true
  }

  ghost predicate Fine(ts: seq<Token>) {
    forall i :: 0 <= i < |ts| ==> FineToken(ts[i])
  }

  // ---- Names ------------------------------------------------------------------------

  /** A well-formed name is put together again from its parts. */
  lemma JoinName(q: string)
    requires WellNamed(q)
    ensures QName(PrefixOf(q), LocalName(q)) == q && ElementName(q) == LocalName(q)
    ensures PrefixOf(q) == Some("xmlns") ==> "xmlns:" <= q
  {
    ColonIs(q);
    PlainColon(LocalName(q));
    var k := Colon(q);
    if k < |q| {
      assert q == q[..k] + ":" + q[k + 1..];
    }
  }

  // ---- Text -------------------------------------------------------------------------

  ghost predicate OneCharLineEnds(s: string) {
    forall i :: 0 <= i < |s| - 1 ==> !(s[i] == '\r' && s[i + 1] == '\n')
  }

  ghost predicate Trimmed(s: string) {
    |s| > 0 ==> !IsSpace(s[0]) && !IsSpace(s[|s| - 1])
  }

  ghost predicate Clean(s: string) {
    OneCharLineEnds(s) && Trimmed(s)
  }

  lemma {:induction false} JoinedIsShorter(s: string)
    ensures |JoinLineEnds(s)| <= |s|
    ensures OneCharLineEnds(s) ==> JoinLineEnds(s) == s
    ensures !OneCharLineEnds(s) ==> |JoinLineEnds(s)| < |s|
    decreases |s|
  {
    if |s| >= 2 {
      if s[0] == '\r' && s[1] == '\n' {
        JoinedIsShorter(s[2..]);
      } else {
        JoinedIsShorter(s[1..]);
        assert s == [s[0]] + s[1..];
        if OneCharLineEnds(s[1..]) {
          forall i | 0 <= i < |s| - 1 ensures !(s[i] == '\r' && s[i + 1] == '\n') {
            if i > 0 {
              assert s[1..][i - 1] == s[i] && s[1..][i - 1 + 1] == s[i + 1];
            }
          }
        } else {
          var i :| 0 <= i < |s[1..]| - 1 && s[1..][i] == '\r' && s[1..][i + 1] == '\n';
          assert s[i + 1] == '\r' && s[i + 1 + 1] == '\n';
        }
      }
    }
  }

  /** Only white space. */
  ghost predicate Blank(s: string) {
    forall i :: 0 <= i < |s| ==> IsSpace(s[i])
  }

  lemma BlankJoin(a: string, b: string)
    ensures Blank(a + b) <==> Blank(a) && Blank(b)
  {
    hide IsSpace;
    var s := a + b;
    if Blank(s) {
      forall i | 0 <= i < |a| ensures IsSpace(a[i]) {
        assert s[i] == a[i];
      }
      forall i | 0 <= i < |b| ensures IsSpace(b[i]) {
        assert s[|a| + i] == b[i];
      }
    }
  }

  lemma {:induction false} TrimLeftIs(s: string) returns (k: nat)
    ensures k <= |s| && TrimLeft(s) == s[k..] && Blank(s[..k])
    ensures k < |s| ==> !IsSpace(s[k])
    decreases |s|
  {
    hide IsSpace;
    if |s| > 0 && IsSpace(s[0]) {
      k := TrimLeftIs(s[1..]);
      assert s[1..][k..] == s[k + 1..];
      BlankJoin([s[0]], s[1..][..k]);
      assert s[..k + 1] == [s[0]] + s[1..][..k];
      k := k + 1;
    } else {
      k := 0;
    }
  }

  lemma {:induction false} TrimRightIs(s: string) returns (k: nat)
    ensures k <= |s| && TrimRight(s) == s[..k] && Blank(s[k..])
    ensures k > 0 ==> !IsSpace(s[k - 1])
    decreases |s|
  {
    hide IsSpace;
    if |s| > 0 && IsSpace(s[|s| - 1]) {
      var n := |s| - 1;
      k := TrimRightIs(s[..n]);
      assert s[..n][..k] == s[..k];
      BlankJoin(s[..n][k..], [s[n]]);
      assert s[k..] == s[..n][k..] + [s[n]];
    } else {
      k := |s|;
    }
  }

  /** Trimming takes the text apart into white space, a trimmed part and white space. */
  lemma TrimIs(s: string) returns (left: string, right: string)
    ensures var t := TrimRight(TrimLeft(s)); s == left + t + right && Trimmed(t)
    ensures Blank(left) && Blank(right)
  {
    hide IsSpace;
    var i := TrimLeftIs(s);
    var inner := TrimLeft(s);
    var j := TrimRightIs(inner);
    left, right := s[..i], inner[j..];
    assert inner == inner[..j] + inner[j..];
    assert s == s[..i] + s[i..];
  }

  lemma TrimmedIsKept(s: string)
    requires Trimmed(s)
    ensures TrimRight(TrimLeft(s)) == s
  {
    hide IsSpace;
  }

  /** The texts that normalising leaves alone. */
  lemma NormalIffClean(s: string)
    ensures Normalised(s) == s <==> Clean(s)
  {
    hide OneCharLineEnds, JoinLineEnds, TrimLeft, TrimRight, Trimmed, Blank;
    JoinedIsShorter(s);
    var left, right := TrimIs(JoinLineEnds(s));
    if Clean(s) {
      TrimmedIsKept(s);
    }
  }

  // ---- Line ends --------------------------------------------------------------------

  /** From the part before `k` on, with `seen` for solid text further left: something solid. */
  ghost predicate Before(s: string, k: nat, seen: bool)
    requires k <= |s|
  {
    seen || !Blank(s[..k])
  }

  /** At `k` a two-character line end, with something solid before it and after it. */
  ghost predicate PairAt(s: string, k: nat, seen: bool) {
    k + 1 < |s| && s[k] == '\r' && s[k + 1] == '\n' && Before(s, k, seen) && !Blank(s[k + 2..])
  }

  ghost predicate InnerPair(s: string, seen: bool) {
    exists k: nat :: PairAt(s, k, seen)
  }

  /** At `k` a carriage return and a two-character line end, with something solid before and after them. */
  ghost predicate TripleAt(s: string, k: nat, seen: bool) {
    && k + 2 < |s| && s[k] == '\r' && s[k + 1] == '\r' && s[k + 2] == '\n'
    && Before(s, k, seen) && !Blank(s[k + 3..])
  }

  ghost predicate InnerTriple(s: string, seen: bool) {
    exists k: nat :: TripleAt(s, k, seen)
  }

  /** A text that reading twice does not change further. */
  ghost predicate StableText(raw: string) {
    !InnerTriple(raw, false)
  }

  lemma BeforeStep(s: string, k: nat, seen: bool)
    requires 0 < k <= |s|
    ensures Before(s, k, seen) <==> Before(s[1..], k - 1, seen || !IsSpace(s[0]))
  {
    hide IsSpace;
    assert s[..k] == [s[0]] + s[1..][..k - 1];
    BlankJoin([s[0]], s[1..][..k - 1]);
    assert Blank([s[0]]) <==> IsSpace(s[0]) by { assert [s[0]][0] == s[0]; }
  }

  lemma BeforeNothing(s: string, seen: bool)
    ensures Before(s, 0, seen) <==> seen
  {
  }

  lemma ShiftByOne(s: string, k: nat, seen: bool)
    requires 0 < k && |s| > 0
    ensures PairAt(s, k, seen) <==> PairAt(s[1..], k - 1, seen || !IsSpace(s[0]))
    ensures TripleAt(s, k, seen) <==> TripleAt(s[1..], k - 1, seen || !IsSpace(s[0]))
  {
    hide IsSpace, Blank, Before;
    var t := s[1..];
    if k < |s| {
      BeforeStep(s, k, seen);
    }
    if k + 1 < |s| {
      assert t[k - 1] == s[k] && t[k] == s[k + 1] && t[k + 1..] == s[k + 2..];
    }
    if k + 2 < |s| {
      assert t[k + 1] == s[k + 2] && t[k + 2..] == s[k + 3..];
    }
  }

  lemma PairStep(s: string, seen: bool)
    requires |s| > 0
    ensures InnerPair(s, seen) <==>
            || (seen && |s| > 1 && s[0] == '\r' && s[1] == '\n' && !Blank(s[2..]))
            || InnerPair(s[1..], seen || !IsSpace(s[0]))
  {
    BeforeNothing(s, seen);
    assert PairAt(s, 0, seen) <==> seen && |s| > 1 && s[0] == '\r' && s[1] == '\n' && !Blank(s[2..]);
    hide PairAt, IsSpace, Blank;
    if k: nat :| PairAt(s, k, seen) && k > 0 {
      ShiftByOne(s, k, seen);
    }
    var rest, flag := s[1..], seen || !IsSpace(s[0]);
    if k: nat :| PairAt(rest, k, flag) {
      ShiftByOne(s, k + 1, seen);
    }
  }

  lemma TripleStep(s: string, seen: bool)
    requires |s| > 0
    ensures InnerTriple(s, seen) <==>
            || (seen && |s| > 2 && s[0] == '\r' && s[1] == '\r' && s[2] == '\n' && !Blank(s[3..]))
            || InnerTriple(s[1..], seen || !IsSpace(s[0]))
  {
    BeforeNothing(s, seen);
    assert TripleAt(s, 0, seen) <==>
           seen && |s| > 2 && s[0] == '\r' && s[1] == '\r' && s[2] == '\n' && !Blank(s[3..]);
    hide TripleAt, IsSpace, Blank;
    if k: nat :| TripleAt(s, k, seen) && k > 0 {
      ShiftByOne(s, k, seen);
    }
    var rest, flag := s[1..], seen || !IsSpace(s[0]);
    if k: nat :| TripleAt(rest, k, flag) {
      ShiftByOne(s, k + 1, seen);
    }
  }

  lemma ShortHasNone(s: string, seen: bool)
    requires |s| < 2
    ensures !InnerPair(s, seen) && !InnerTriple(s, seen)
  {
  }

  lemma {:induction false} JoinKeepsBlank(s: string)
    ensures Blank(JoinLineEnds(s)) <==> Blank(s)
    decreases |s|
  {
    if |s| >= 2 {
      if s[0] == '\r' && s[1] == '\n' {
        JoinKeepsBlank(s[2..]);
        BlankJoin("\n", JoinLineEnds(s[2..]));
        BlankJoin("\r\n", s[2..]);
        assert s == "\r\n" + s[2..];
        assert Blank("\n") && Blank("\r\n");
      } else {
        JoinKeepsBlank(s[1..]);
        BlankJoin([s[0]], JoinLineEnds(s[1..]));
        BlankJoin([s[0]], s[1..]);
        assert s == [s[0]] + s[1..];
      }
    }
  }

  /** How a joined text begins. */
  lemma JoinedHead(s: string)
    ensures |JoinLineEnds(s)| > 0 <==> |s| > 0
    ensures |s| > 0 && !(|s| > 1 && s[0] == '\r' && s[1] == '\n') ==> JoinLineEnds(s)[0] == s[0]
    ensures |s| > 1 && s[0] == '\r' && s[1] == '\n' ==> JoinLineEnds(s) == "\n" + JoinLineEnds(s[2..])
  {
  }

  /** The two-character line ends that joining makes come from a carriage return before one. */
  lemma {:induction false} JoinedPairIsTriple(s: string, seen: bool)
    ensures InnerPair(JoinLineEnds(s), seen) <==> InnerTriple(s, seen)
    decreases |s|
  {
    hide InnerPair, InnerTriple, Blank, Before;
    if |s| < 2 {
      ShortHasNone(s, seen);
    } else if s[0] == '\r' && s[1] == '\n' {
      var rest := JoinLineEnds(s[2..]);
      JoinedPairIsTriple(s[2..], seen);
      PairStep("\n" + rest, seen);
      assert ("\n" + rest)[1..] == rest;
      TripleStep(s, seen);
      TripleStep(s[1..], seen);
      assert s[1..][1..] == s[2..];
    } else {
      var rest := JoinLineEnds(s[1..]);
      JoinedPairIsTriple(s[1..], seen || !IsSpace(s[0]));
      hide IsSpace;
      PairStep([s[0]] + rest, seen);
      assert ([s[0]] + rest)[1..] == rest;
      TripleStep(s, seen);
      JoinedHead(s[1..]);
      if s[0] == '\r' && |s| > 2 && s[1] == '\r' && s[2] == '\n' {
        assert s[1..][2..] == s[3..];
        assert ([s[0]] + rest)[2..] == JoinLineEnds(s[3..]);
        JoinKeepsBlank(s[3..]);
      }
    }
  }

  /** A trimmed part holds a two-character line end exactly when it stands between solid text. */
  lemma PairInTrimmed(left: string, t: string, right: string)
    requires Blank(left) && Blank(right) && Trimmed(t)
    ensures OneCharLineEnds(t) <==> !InnerPair(left + t + right, false)
  {
    var s := left + t + right;
    if k :| 0 <= k < |t| - 1 && t[k] == '\r' && t[k + 1] == '\n' {
      var m := |left| + k;
      assert IsSpace('\r') && IsSpace('\n');
      hide IsSpace;
      assert s[m] == '\r' && s[m + 1] == '\n';
      assert !Blank(s[..m]) by { assert s[..m][|left|] == t[0]; }
      assert !Blank(s[m + 2..]) by { assert s[m + 2..][|t| - k - 3] == t[|t| - 1]; }
      assert PairAt(s, m, false);
    }
    if m: nat :| PairAt(s, m, false) {
      hide IsSpace;
      SolidBounds(left, t, right, m);
      assert t[m - |left|] == '\r' && t[m - |left| + 1] == '\n';
    }
  }

  lemma SolidBounds(left: string, t: string, right: string, m: nat)
    requires Blank(left) && Blank(right) && m + 1 < |left + t + right|
    requires !Blank((left + t + right)[..m]) && !Blank((left + t + right)[m + 2..])
    ensures |left| < m && m + 2 < |left| + |t|
  {
    hide IsSpace;
    var s := left + t + right;
    forall i | 0 <= i < |left| ensures IsSpace(s[i]) {
      assert s[i] == left[i];
    }
    forall i | |left| + |t| <= i < |s| ensures IsSpace(s[i]) {
      assert s[i] == right[i - |left| - |t|];
    }
    var a :| 0 <= a < m && !IsSpace(s[..m][a]);
    assert s[..m][a] == s[a];
    var b :| 0 <= b < |s[m + 2..]| && !IsSpace(s[m + 2..][b]);
    assert s[m + 2..][b] == s[m + 2 + b];
  }

  /**
   * Reading a text a second time changes nothing exactly when no carriage return stands right before
   * a two-character line end in the middle of it, between characters that are not white space.
   */
  lemma StableTextIff(raw: string)
    ensures Normalised(Normalised(raw)) == Normalised(raw) <==> StableText(raw)
    ensures Trimmed(Normalised(raw))
    ensures OneCharLineEnds(Normalised(raw)) <==> StableText(raw)
  {
    hide OneCharLineEnds, JoinLineEnds, TrimLeft, TrimRight, Trimmed, Blank, InnerTriple, InnerPair;
    var left, right := TrimIs(JoinLineEnds(raw));
    PairInTrimmed(left, Normalised(raw), right);
    JoinedPairIsTriple(raw, false);
    NormalIffClean(Normalised(raw));
  }

  /** Between any two texts that are not blank, these characters leave a line end to be joined again. */
  lemma LineEndsAreJoinedTwice(a: string, b: string)
    requires !Blank(a) && !Blank(b)
    ensures !StableText(a + "\r\r\n" + b)
    ensures Normalised(Normalised(a + "\r\r\n" + b)) != Normalised(a + "\r\r\n" + b)
  {
    hide Blank, Normalised;
    var s, k := a + "\r\r\n" + b, |a|;
    assert s[k] == '\r' && s[k + 1] == '\r' && s[k + 2] == '\n';
    assert s[..k] == a && s[k + 3..] == b;
    assert TripleAt(s, k, false);
    StableTextIff(s);
  }

  /** At the edge of a text the same characters do no harm. */
  lemma LeadingTripleIsTrimmed(rest: string)
    requires StableText(rest)
    ensures StableText("\r\r\n" + rest)
  {
    hide Blank, Before;
    var s := "\r\r\n" + rest;
    TripleStep(s, false);
    TripleStep(s[1..], false);
    TripleStep(s[1..][1..], false);
    assert s[1..][1..][1..] == rest;
  }

  /** A text is kept exactly when it is not empty, is trimmed and has no two-character line ends. */
  lemma TextKeptIff(text: string)
    ensures ReadText(Some(text)) == Some(text) <==> text != "" && Clean(text)
  {
    hide Normalised, Clean;
    NormalIffClean(text);
  }

  /** Joining two trimmed texts makes no new line end. */
  lemma LineEndsJoin(a: string, b: string)
    requires a != "" && b != "" && Trimmed(a) && Trimmed(b)
    ensures Trimmed(a + b) && (OneCharLineEnds(a + b) <==> OneCharLineEnds(a) && OneCharLineEnds(b))
  {
    var s := a + b;
    assert IsSpace('\r');
    hide IsSpace;
    if OneCharLineEnds(s) {
      forall i | 0 <= i < |a| - 1 ensures !(a[i] == '\r' && a[i + 1] == '\n') {
        assert s[i] == a[i] && s[i + 1] == a[i + 1];
      }
      forall i | 0 <= i < |b| - 1 ensures !(b[i] == '\r' && b[i + 1] == '\n') {
        assert s[|a| + i] == b[i] && s[|a| + i + 1] == b[i + 1];
      }
    }
    if OneCharLineEnds(a) && OneCharLineEnds(b) {
      forall i | 0 <= i < |s| - 1 ensures !(s[i] == '\r' && s[i + 1] == '\n') {
        if i < |a| - 1 {
          assert s[i] == a[i] && s[i + 1] == a[i + 1];
        } else if i >= |a| {
          assert s[i] == b[i - |a|] && s[i + 1] == b[i - |a| + 1];
        } else {
          assert s[i] == a[|a| - 1];
        }
      }
    }
  }

  lemma NoText()
    ensures OneCharLineEnds("") && ReadText(None) == None
  {
  }

  lemma AddTextShaped(e: ExtensionElement, raw: string)
    requires Shaped(e)
    ensures Shaped(AddText(e, raw)) && AddText(e, raw).name == e.name
  {
    hide Normalised, WrittenAttrs, ShapedAttrs, ShapedGroups, Grouped, DistinctKeys;
  }

  /** What the parser has gathered is never blank at its ends. */
  ghost predicate Gathered(text: Option<string>) {
    text.Some? ==> text.value != "" && Trimmed(text.value)
  }

  /** Adding a text keeps the element's texts exactly when they were kept and the text is stable. */
  lemma AddTextKeptIff(e: ExtensionElement, raw: string)
    requires Gathered(e.text)
    ensures Gathered(AddText(e, raw).text)
    ensures TextsKept(AddText(e, raw)) <==> TextsKept(e) && StableText(raw)
  {
    hide Normalised, InnerTriple, GroupTextsKept, Trimmed, OneCharLineEnds, ReadText;
    var text := Normalised(raw);
    StableTextIff(raw);
    NoText();
    if text != "" {
      TextKeptIff(text);
      if e.text.Some? {
        TextKeptIff(e.text.value);
        LineEndsJoin(e.text.value, text);
        TextKeptIff(e.text.value + text);
      }
    }
  }

  // ---- Children ---------------------------------------------------------------------

  lemma {:induction false} PushGrouped<T>(groups: seq<Group<T>>, key: string, x: T)
    requires Grouped(groups)
    ensures Grouped(Push(groups, key, x))
    ensures forall k :: NoKey(Push(groups, key, x), k) <==> NoKey(groups, k) && k != key
  {
    var all := Push(groups, key, x);
    if |groups| == 0 {
      assert all[0].key == key;
    } else if groups[0].key == key {
      assert all[0].key == key && forall i :: 1 <= i < |groups| ==> all[i] == groups[i];
    } else {
      RestGrouped(groups);
      PushGrouped(groups[1..], key, x);
      var rest := Push(groups[1..], key, x);
      assert NoKey(rest, groups[0].key);
      assert all[0] == groups[0] && forall i :: 1 <= i < |all| ==> all[i] == rest[i - 1];
      forall k ensures NoKey(all, k) <==> NoKey(groups, k) && k != key {
        NoKeyCons(groups, k);
        assert all[1..] == rest;
        NoKeyCons(all, k);
      }
    }
  }

  lemma NoKeyCons<T>(groups: seq<Group<T>>, k: string)
    requires |groups| > 0
    ensures NoKey(groups, k) <==> groups[0].key != k && NoKey(groups[1..], k)
  {
    assert forall i :: 0 < i < |groups| ==> groups[i] == groups[1..][i - 1];
  }

  lemma RestGrouped<T>(groups: seq<Group<T>>)
    requires |groups| > 0 && Grouped(groups)
    ensures Grouped(groups[1..]) && NoKey(groups[1..], groups[0].key)
  {
  }

  lemma {:induction false} ShapedAllSnoc(key: string, elements: seq<ExtensionElement>, x: ExtensionElement)
    requires ShapedAll(key, elements) && x.name == Some(key) && Shaped(x)
    ensures ShapedAll(key, elements + [x])
    decreases |elements|
  {
    hide Shaped;
    if |elements| > 0 {
      ShapedAllSnoc(key, elements[1..], x);
      assert (elements + [x])[1..] == elements[1..] + [x];
    } else {
      assert (elements + [x])[1..] == [];
    }
  }

  lemma {:induction false} PushShaped(groups: seq<Group<ExtensionElement>>, key: string, x: ExtensionElement)
    requires ShapedGroups(groups) && x.name == Some(key) && Shaped(x)
    ensures ShapedGroups(Push(groups, key, x))
    decreases |groups|
  {
    hide Shaped;
    var all := Push(groups, key, x);
    if |groups| == 0 {
      ShapedAllSnoc(key, [], x);
      assert [] + [x] == [x];
      assert all[1..] == [];
    } else if groups[0].key == key {
      ShapedAllSnoc(key, groups[0].values, x);
      assert all[1..] == groups[1..];
    } else {
      PushShaped(groups[1..], key, x);
      assert all[1..] == Push(groups[1..], key, x);
    }
  }

  lemma AddChildShaped(e: ExtensionElement, key: string, x: ExtensionElement)
    requires Shaped(e) && Shaped(x) && x.name == Some(key)
    ensures Shaped(AddChild(e, key, x)) && AddChild(e, key, x).name == e.name
  {
    assert ShapedGroups(e.children) && Grouped(e.children);
    PushShaped(e.children, key, x);
    PushGrouped(e.children, key, x);
    hide Push, ShapedGroups, Grouped, ShapedAttrs, DistinctKeys;
  }

  // ---- Attributes -------------------------------------------------------------------

  ghost function KeySet(attrs: seq<Attr>): set<string> {
    set i | 0 <= i < |attrs| :: attrs[i].key
  }

  lemma KeySetOf(a: seq<Attr>, b: seq<Attr>)
    ensures KeySet(a + b) == KeySet(a) + KeySet(b)
  {
    var s := a + b;
    forall k ensures k in KeySet(s) <==> k in KeySet(a) || k in KeySet(b) {
      if k in KeySet(a) {
        var i :| 0 <= i < |a| && a[i].key == k;
        assert s[i].key == k;
      }
      if k in KeySet(b) {
        var i :| 0 <= i < |b| && b[i].key == k;
        assert s[|a| + i].key == k;
      }
    }
  }

  lemma DistinctParts(a: seq<Attr>, b: seq<Attr>)
    requires DistinctKeys(a + b)
    ensures DistinctKeys(a) && DistinctKeys(b) && KeySet(a) !! KeySet(b)
  {
    var s := a + b;
    forall i, j | 0 <= i < j < |a| ensures a[i].key != a[j].key {
      assert s[i].key != s[j].key;
    }
    forall i, j | 0 <= i < j < |b| ensures b[i].key != b[j].key {
      assert s[|a| + i].key != s[|a| + j].key;
    }
    forall k | k in KeySet(a) ensures k !in KeySet(b) {
      var i :| 0 <= i < |a| && a[i].key == k;
      forall j | 0 <= j < |b| ensures b[j].key != k {
        assert s[i].key != s[|a| + j].key;
      }
    }
  }

  lemma DistinctWhole(a: seq<Attr>, b: seq<Attr>)
    requires DistinctKeys(a) && DistinctKeys(b) && KeySet(a) !! KeySet(b)
    ensures DistinctKeys(a + b)
  {
    var s := a + b;
    forall i, j | 0 <= i < j < |s| ensures s[i].key != s[j].key {
      if i < |a| <= j {
        assert a[i].key in KeySet(a) && b[j - |a|].key in KeySet(b);
      }
    }
  }

  lemma KeySetJoin(a: seq<Attr>, b: seq<Attr>)
    ensures KeySet(a + b) == KeySet(a) + KeySet(b)
    ensures DistinctKeys(a + b) <==> DistinctKeys(a) && DistinctKeys(b) && KeySet(a) !! KeySet(b)
  {
    hide DistinctKeys, KeySet;
    KeySetOf(a, b);
    if DistinctKeys(a + b) {
      DistinctParts(a, b);
    } else if DistinctKeys(a) && DistinctKeys(b) && KeySet(a) !! KeySet(b) {
      DistinctWhole(a, b);
      assert false;
    }
  }

  lemma {:induction false} WrittenAttrsJoin(a: seq<Group<ExtensionAttribute>>, b: seq<Group<ExtensionAttribute>>)
    ensures WrittenAttrs(a + b) == WrittenAttrs(a) + WrittenAttrs(b)
    decreases |b|
  {
    hide WrittenGroup;
    if |b| == 0 {
      assert a + b == a;
    } else {
      assert (a + b)[..|a| + |b| - 1] == a + b[..|b| - 1];
      WrittenAttrsJoin(a, b[..|b| - 1]);
    }
  }

  lemma WrittenOne(key: string, values: seq<ExtensionAttribute>)
    ensures WrittenAttrs([Group(key, values)]) == WrittenGroup(key, values)
  {
    assert [Group(key, values)][..0] == [];
  }

  lemma WrittenCons(first: Group<ExtensionAttribute>, rest: seq<Group<ExtensionAttribute>>)
    ensures WrittenAttrs([first] + rest) == WrittenGroup(first.key, first.values) + WrittenAttrs(rest)
  {
    hide WrittenGroup, WrittenAttrs;
    WrittenAttrsJoin([first], rest);
    WrittenOne(first.key, first.values);
  }

  lemma WrittenGroupSnoc(key: string, values: seq<ExtensionAttribute>, x: ExtensionAttribute)
    ensures WrittenGroup(key, values + [x]) == WrittenGroup(key, values) + WrittenAttr(key, x)
  {
    hide WrittenAttr;
    assert (values + [x])[..|values|] == values;
  }

  lemma PushCases(groups: seq<Group<ExtensionAttribute>>, key: string, x: ExtensionAttribute)
    ensures |groups| == 0 ==> Push(groups, key, x) == [Group(key, [] + [x])] + [] && WrittenAttrs(groups) == []
    ensures |groups| > 0 && groups[0].key == key ==>
              Push(groups, key, x) == [Group(key, groups[0].values + [x])] + groups[1..]
    ensures |groups| > 0 && groups[0].key != key ==> Push(groups, key, x) == [groups[0]] + Push(groups[1..], key, x)
    ensures |groups| > 0 ==> groups == [groups[0]] + groups[1..]
    ensures WrittenGroup(key, []) == [] && WrittenAttrs([]) == []
  {
    assert [] + [x] == [x];
    assert [Group(key, [x])] + [] == [Group(key, [x])];
  }

  /** One more name, put between two lists of written attributes. */
  lemma NameBetween(here: seq<Attr>, q: Attr, rest: seq<Attr>)
    requires DistinctKeys(here + rest) && q.key !in KeySet(here + rest)
    ensures DistinctKeys(here + [q] + rest) && KeySet(here + [q] + rest) == KeySet(here + rest) + {q.key}
  {
    hide DistinctKeys;
    OneKey(q);
    KeySetJoin(here, rest);
    KeySetJoin(here, [q]);
    KeySetJoin(here + [q], rest);
  }

  /** A new attribute with a name of its own keeps the written names distinct. */
  lemma {:induction false} PushWritten(
      groups: seq<Group<ExtensionAttribute>>, key: string, x: ExtensionAttribute, q: Attr)
    requires WrittenAttr(key, x) == [q] && DistinctKeys(WrittenAttrs(groups)) && q.key !in KeySet(WrittenAttrs(groups))
    ensures DistinctKeys(WrittenAttrs(Push(groups, key, x)))
    ensures KeySet(WrittenAttrs(Push(groups, key, x))) == KeySet(WrittenAttrs(groups)) + {q.key}
    decreases |groups|
  {
    hide WrittenAttr, DistinctKeys, WrittenAttrs, WrittenGroup, Push, KeySet;
    PushCases(groups, key, x);
    var values := if |groups| > 0 then groups[0].values else [];
    var rest := if |groups| > 0 then groups[1..] else [];
    if |groups| == 0 || groups[0].key == key {
      var here := WrittenGroup(key, values);
      WrittenGroupSnoc(key, values, x);
      WrittenCons(Group(key, values + [x]), rest);
      if |groups| > 0 {
        WrittenCons(groups[0], rest);
      } else {
        assert here + WrittenAttrs(rest) == [];
      }
      NameBetween(here, q, WrittenAttrs(rest));
    } else {
      var here := WrittenGroup(groups[0].key, values);
      WrittenCons(groups[0], rest);
      KeySetJoin(here, WrittenAttrs(rest));
      PushWritten(rest, key, x, q);
      WrittenCons(groups[0], Push(rest, key, x));
      KeySetJoin(here, WrittenAttrs(Push(rest, key, x)));
    }
  }

  lemma OneKey(q: Attr)
    ensures DistinctKeys([q]) && KeySet([q]) == {q.key}
  {
    assert [q][0] == q;
  }

  lemma {:induction false} PushAttrShaped(groups: seq<Group<ExtensionAttribute>>, key: string, x: ExtensionAttribute)
    requires ShapedAttrs(groups) && ShapedAttr(key, x)
    ensures ShapedAttrs(Push(groups, key, x))
  {
    PushGrouped(groups, key, x);
    hide Grouped, ShapedAttr;
    assert ValuesShaped(groups);
    PushValues(groups, key, x);
  }

  ghost predicate ValuesShaped(groups: seq<Group<ExtensionAttribute>>) {
    forall i, j :: 0 <= i < |groups| && 0 <= j < |groups[i].values| ==> ShapedAttr(groups[i].key, groups[i].values[j])
  }

  lemma {:induction false} PushValues(groups: seq<Group<ExtensionAttribute>>, key: string, x: ExtensionAttribute)
    requires ShapedAttr(key, x) && ValuesShaped(groups)
    ensures ValuesShaped(Push(groups, key, x))
    decreases |groups|
  {
    hide ShapedAttr;
    var all := Push(groups, key, x);
    if |groups| > 0 && groups[0].key != key {
      var rest := Push(groups[1..], key, x);
      assert forall i :: 0 <= i < |groups[1..]| ==> groups[1..][i] == groups[i + 1];
      PushValues(groups[1..], key, x);
      forall i, j | 0 <= i < |all| && 0 <= j < |all[i].values| ensures ShapedAttr(all[i].key, all[i].values[j]) {
        if i > 0 {
          assert all[i] == rest[i - 1] && ShapedAttr(rest[i - 1].key, rest[i - 1].values[j]);
        } else {
          assert all[0] == groups[0] && ShapedAttr(groups[0].key, groups[0].values[j]);
        }
      }
    } else {
      forall i, j | 0 <= i < |all| && 0 <= j < |all[i].values| ensures ShapedAttr(all[i].key, all[i].values[j]) {
        if i > 0 {
          assert all[i] == groups[i];
        } else if |groups| > 0 && j < |groups[0].values| {
          assert all[0].values[j] == groups[0].values[j];
        }
      }
    }
  }

  /** A well-named attribute that is no declaration, as it is read and would be written. */
  lemma ReadAttrShaped(a: Attr, env: map<string, string>)
    requires WellNamed(a.key) && !IsDeclaration(a.key)
    ensures ShapedAttr(LocalName(a.key), ReadAttr(a, env)) && WrittenAttr(LocalName(a.key), ReadAttr(a, env)) == [a]
  {
    JoinName(a.key);
  }

  lemma {:induction false} ReadAttrsShaped(attrs: seq<Attr>, env: map<string, string>)
    requires FineAttrs(attrs) && DistinctKeys(attrs)
    ensures ShapedAttrs(ReadAttrs(attrs, env)) && DistinctKeys(WrittenAttrs(ReadAttrs(attrs, env)))
    ensures KeySet(WrittenAttrs(ReadAttrs(attrs, env))) <= KeySet(attrs)
  {
    hide WellNamed, ShapedAttr, WrittenAttr, ReadAttr, IsDeclaration;
    if |attrs| > 0 {
      var n := |attrs| - 1;
      var rest, a := attrs[..n], attrs[n];
      assert attrs == rest + [a];
      KeySetJoin(rest, [a]);
      assert KeySet([a]) == {a.key} by { assert [a][0] == a; }
      ReadAttrsShaped(rest, env);
      if !IsDeclaration(a.key) {
        ReadAttrShaped(a, env);
        PushAttrShaped(ReadAttrs(rest, env), LocalName(a.key), ReadAttr(a, env));
        PushWritten(ReadAttrs(rest, env), LocalName(a.key), ReadAttr(a, env), a);
      }
    } else {
      NoAttrs();
    }
  }

  lemma NoAttrs()
    ensures ShapedAttrs([]) && WrittenAttrs([]) == [] && DistinctKeys([])
  {
  }

  lemma {:induction false} ReadableIs(attrs: seq<Attr>)
    ensures DistinctKeys(Readable(attrs)) && (forall k :: HasKey(Readable(attrs), k) <==> HasKey(attrs, k))
    ensures FineAttrs(attrs) ==> FineAttrs(Readable(attrs))
  {
    hide WellNamed;
    if |attrs| > 0 {
      var n := |attrs| - 1;
      var rest, a := attrs[..n], attrs[n];
      ReadableIs(rest);
      assert attrs == rest + [a];
      forall k ensures HasKey(attrs, k) <==> HasKey(rest, k) || a.key == k {
        HasKeySnoc(rest, a, k);
      }
      if !HasKey(rest, a.key) {
        forall k ensures HasKey(Readable(rest) + [a], k) <==> HasKey(Readable(rest), k) || a.key == k {
          HasKeySnoc(Readable(rest), a, k);
        }
        assert forall i :: 0 <= i < |Readable(rest)| ==> Readable(rest)[i].key != a.key;
      }
    }
  }

  lemma OpenedShaped(name: string, attrs: seq<Attr>, env: map<string, string>)
    requires WellNamed(name) && FineAttrs(attrs)
    ensures Shaped(Opened(name, attrs, env)) && Opened(name, attrs, env).name == Some(ElementName(name))
  {
    hide FineAttrs, ShapedAttrs, WrittenAttrs, ReadAttrs, Readable, Scope, DistinctKeys;
    JoinName(name);
    ReadableIs(attrs);
    ReadAttrsShaped(Readable(attrs), Scope(env, Readable(attrs)));
  }

  // ---- Whatever is read has the shape -----------------------------------------------

  lemma FineRest(ts: seq<Token>, k: nat)
    requires Fine(ts) && k <= |ts|
    ensures Fine(ts[k..])
  {
    hide FineToken;
  }

  /** Reading content into an element of the shape keeps the shape. */
  lemma {:induction false} ContentShaped(ts: seq<Token>, e: ExtensionElement, tag: string, env: map<string, string>)
    requires Fine(ts) && Shaped(e)
    ensures Shaped(ParsedContent(ts, e, tag, env).0) && Fine(ParsedContent(ts, e, tag, env).1)
    ensures ParsedContent(ts, e, tag, env).0.name == e.name
    decreases |ts|
  {
    if |ts| > 0 {
      var t := ts[0];
      assert FineToken(t);
      FineRest(ts, 1);
      hide Shaped, Fine, Opened, AddChild, AddText, Scope, Readable;
      match t {
        case Start(name, attrs) =>
          OpenedShaped(name, attrs, env);
          var inner := Scope(env, Readable(attrs));
          ContentShaped(ts[1..], Opened(name, attrs, env), ElementName(name), inner);
          var (child, rest) := ParsedContent(ts[1..], Opened(name, attrs, env), ElementName(name), inner);
          AddChildShaped(e, ElementName(name), child);
          ContentShaped(rest, AddChild(e, ElementName(name), child), tag, env);
        case Empty(name, attrs) =>
          OpenedShaped(name, attrs, env);
          AddChildShaped(e, ElementName(name), Opened(name, attrs, env));
          ContentShaped(ts[1..], AddChild(e, ElementName(name), Opened(name, attrs, env)), tag, env);
        case Text(raw) =>
          AddTextShaped(e, raw);
          ContentShaped(ts[1..], AddText(e, raw), tag, env);
        case CData(raw) =>
          AddTextShaped(e, raw);
          ContentShaped(ts[1..], AddText(e, raw), tag, env);
        case End(name) =>
          if ElementName(name) != tag {
            ContentShaped(ts[1..], e, tag, env);
          }
      }
    }
  }

  /** Every element read from a stream with well-formed names has the shape. */
  lemma ParsedIsShaped(ts: seq<Token>, env: map<string, string>)
    requires Fine(ts) && |ts| > 0 && (ts[0].Start? || ts[0].Empty?)
    ensures Shaped(ParsedElement(ts, env).0) && Fine(ParsedElement(ts, env).1)
  {
    hide Shaped, Opened, ParsedContent;
    assert FineToken(ts[0]);
    FineRest(ts, 1);
    OpenedShaped(ts[0].name, ts[0].attrs, env);
    if ts[0].Start? {
      ContentShaped(ts[1..], Opened(ts[0].name, ts[0].attrs, env), ElementName(ts[0].name),
          Scope(env, Readable(ts[0].attrs)));
    }
  }

  // ---- Which of the texts read are kept ---------------------------------------------

  ghost predicate StableToken(t: Token) {
    (t.Text? || t.CData?) ==> StableText(t.text)
  }

  /** No text of the stream would change when it is read again. */
  ghost predicate StableTexts(ts: seq<Token>) {
    forall i :: 0 <= i < |ts| ==> StableToken(ts[i])
  }

  lemma StableTextsJoin(a: seq<Token>, b: seq<Token>)
    ensures StableTexts(a + b) <==> StableTexts(a) && StableTexts(b)
  {
    hide StableToken;
    var s := a + b;
    if StableTexts(s) {
      forall i | 0 <= i < |a| ensures StableToken(a[i]) {
        assert s[i] == a[i];
      }
      forall i | 0 <= i < |b| ensures StableToken(b[i]) {
        assert s[|a| + i] == b[i];
      }
    }
  }

  lemma OneStable(t: Token)
    ensures StableTexts([t]) <==> StableToken(t)
  {
    hide StableToken;
    assert [t][0] == t;
  }

  lemma {:induction false} AllKeptSnoc(elements: seq<ExtensionElement>, x: ExtensionElement)
    ensures AllTextsKept(elements + [x]) <==> AllTextsKept(elements) && TextsKept(x)
    decreases |elements|
  {
    hide TextsKept;
    if |elements| > 0 {
      AllKeptSnoc(elements[1..], x);
      assert (elements + [x])[1..] == elements[1..] + [x];
    } else {
      assert (elements + [x])[1..] == [];
    }
  }

  lemma {:induction false} PushKept(groups: seq<Group<ExtensionElement>>, key: string, x: ExtensionElement)
    ensures GroupTextsKept(Push(groups, key, x)) <==> GroupTextsKept(groups) && TextsKept(x)
    decreases |groups|
  {
    hide TextsKept;
    var all := Push(groups, key, x);
    if |groups| == 0 {
      AllKeptSnoc([], x);
      assert [] + [x] == [x] && all[1..] == [];
    } else if groups[0].key == key {
      AllKeptSnoc(groups[0].values, x);
      assert all[1..] == groups[1..];
    } else {
      PushKept(groups[1..], key, x);
      assert all[1..] == Push(groups[1..], key, x);
    }
  }

  lemma AddChildKeptIff(e: ExtensionElement, key: string, x: ExtensionElement)
    ensures AddChild(e, key, x).text == e.text
    ensures TextsKept(AddChild(e, key, x)) <==> TextsKept(e) && TextsKept(x)
  {
    PushKept(e.children, key, x);
    hide Push, GroupTextsKept, ReadText;
  }

  lemma OpenedKept(name: string, attrs: seq<Attr>, env: map<string, string>)
    ensures Opened(name, attrs, env).text.None? && TextsKept(Opened(name, attrs, env))
  {
    hide ReadAttrs, Scope, Readable;
  }

  /** The tokens read before `rest` is left. */
  function ReadTokens(ts: seq<Token>, rest: seq<Token>): seq<Token>
    requires |rest| <= |ts|
  {
    ts[..|ts| - |rest|]
  }

  /** Reading content keeps the texts exactly when they were kept and those read are stable. */
  lemma {:induction false} ContentKeptIff(ts: seq<Token>, e: ExtensionElement, tag: string, env: map<string, string>)
    requires Gathered(e.text)
    ensures var (r, rest) := ParsedContent(ts, e, tag, env);
            ts == ReadTokens(ts, rest) + rest && (TextsKept(r) <==> TextsKept(e) && StableTexts(ReadTokens(ts, rest)))
    decreases |ts|
  {
    if |ts| > 0 {
      hide TextsKept, StableTexts, StableToken, Opened, AddChild, AddText, Scope, Readable, Gathered, StableText;
      match ts[0] {
        case Start(name, attrs) =>
          OpenedKept(name, attrs, env);
          var inner := Scope(env, Readable(attrs));
          var opened_ := Opened(name, attrs, env);
          NothingGathered(opened_);
          ContentKeptIff(ts[1..], opened_, ElementName(name), inner);
          var (child, rest) := ParsedContent(ts[1..], opened_, ElementName(name), inner);
          AddChildKeptIff(e, ElementName(name), child);
          var next := AddChild(e, ElementName(name), child);
          ContentKeptIff(rest, next, tag, env);
          var last := ParsedContent(rest, next, tag, env).1;
          TagIsStable(ts[0]);
          ReadInThree(ts, rest, last);
        case Empty(name, attrs) =>
          OpenedKept(name, attrs, env);
          var next := AddChild(e, ElementName(name), Opened(name, attrs, env));
          AddChildKeptIff(e, ElementName(name), Opened(name, attrs, env));
          ContentKeptIff(ts[1..], next, tag, env);
          TagIsStable(ts[0]);
          ReadInTwo(ts, ParsedContent(ts[1..], next, tag, env).1);
        case Text(raw) =>
          AddTextKeptIff(e, raw);
          ContentKeptIff(ts[1..], AddText(e, raw), tag, env);
          TextIsStable(ts[0]);
          ReadInTwo(ts, ParsedContent(ts[1..], AddText(e, raw), tag, env).1);
        case CData(raw) =>
          AddTextKeptIff(e, raw);
          ContentKeptIff(ts[1..], AddText(e, raw), tag, env);
          TextIsStable(ts[0]);
          ReadInTwo(ts, ParsedContent(ts[1..], AddText(e, raw), tag, env).1);
        case End(name) =>
          TagIsStable(ts[0]);
          if ElementName(name) == tag {
            OneStable(ts[0]);
            assert ReadTokens(ts, ts[1..]) == [ts[0]];
          } else {
            ContentKeptIff(ts[1..], e, tag, env);
            ReadInTwo(ts, ParsedContent(ts[1..], e, tag, env).1);
          }
      }
    } else {
      assert ReadTokens(ts, []) == [];
    }
  }

  lemma NothingGathered(e: ExtensionElement)
    requires e.text.None?
    ensures Gathered(e.text)
  {
  }

  lemma TagIsStable(t: Token)
    requires !t.Text? && !t.CData?
    ensures StableToken(t)
  {
  }

  lemma TextIsStable(t: Token)
    requires t.Text? || t.CData?
    ensures StableToken(t) <==> StableText(t.text)
  {
  }

  lemma ReadInTwo(ts: seq<Token>, rest: seq<Token>)
    requires |ts| > 0 && |rest| <= |ts[1..]| && ts[1..] == ReadTokens(ts[1..], rest) + rest
    ensures ts == ReadTokens(ts, rest) + rest
    ensures StableTexts(ReadTokens(ts, rest)) <==> StableToken(ts[0]) && StableTexts(ReadTokens(ts[1..], rest))
  {
    hide StableTexts, StableToken;
    assert ReadTokens(ts, rest) == [ts[0]] + ReadTokens(ts[1..], rest);
    assert ts == [ts[0]] + ts[1..];
    OneStable(ts[0]);
    StableTextsJoin([ts[0]], ReadTokens(ts[1..], rest));
  }

  lemma ReadInThree(ts: seq<Token>, mid: seq<Token>, rest: seq<Token>)
    requires |ts| > 0 && |mid| <= |ts[1..]| && ts[1..] == ReadTokens(ts[1..], mid) + mid
    requires |rest| <= |mid| && mid == ReadTokens(mid, rest) + rest
    ensures ts == ReadTokens(ts, rest) + rest
    ensures StableTexts(ReadTokens(ts, rest)) <==>
            StableToken(ts[0]) && StableTexts(ReadTokens(ts[1..], mid)) && StableTexts(ReadTokens(mid, rest))
  {
    hide StableTexts, StableToken;
    ReadInTwo(ts, mid);
    assert ReadTokens(ts, rest) == ReadTokens(ts, mid) + ReadTokens(mid, rest);
    StableTextsJoin(ReadTokens(ts, mid), ReadTokens(mid, rest));
  }

  /** The texts of an element that was read are kept exactly when those in its tokens are stable. */
  lemma ParsedKeptIff(ts: seq<Token>, env: map<string, string>)
    requires |ts| > 0 && (ts[0].Start? || ts[0].Empty?)
    ensures var (e, rest) := ParsedElement(ts, env);
            && |rest| <= |ts| && ts == ReadTokens(ts, rest) + rest
            && (TextsKept(e) <==> StableTexts(ReadTokens(ts, rest)))
  {
    hide TextsKept, StableTexts, Opened, ParsedContent, Scope, Readable;
    var head := Opened(ts[0].name, ts[0].attrs, env);
    OpenedKept(ts[0].name, ts[0].attrs, env);
    NothingGathered(head);
    TagIsStable(ts[0]);
    if ts[0].Start? {
      var inner := Scope(env, Readable(ts[0].attrs));
      ContentKeptIff(ts[1..], head, ElementName(ts[0].name), inner);
      ReadInTwo(ts, ParsedContent(ts[1..], head, ElementName(ts[0].name), inner).1);
    } else {
      OneStable(ts[0]);
      assert ReadTokens(ts, ts[1..]) == [ts[0]];
    }
  }

  // ---- The round trip of anything ---------------------------------------------------

  lemma WrittenStarts(e: ExtensionElement, scope: seq<Binding>)
    ensures |Written(e, scope)| > 0 && (Written(e, scope)[0].Start? || Written(e, scope)[0].Empty?)
  {
    hide WrittenGroups, StartAttrs, WrittenName;
    if e.text.Some? || e.children != [] {
      var head := Start(WrittenName(e), StartAttrs(e, scope));
      var text := if e.text.Some? then [Text(e.text.value)] else [];
      var inner := WrittenGroups(e.children, scope + Missing(Uses(e), scope));
      assert Written(e, scope) == [head] + text + inner + [End(WrittenName(e))];
      assert ([head] + text + inner + [End(WrittenName(e))])[0] == head;
    }
  }

  /**
   * Whatever was read survives another round exactly when it is faithful and the texts it was read
   * from are stable.
   */
  lemma ReadElementRoundTripIff(
    ts: seq<Token>, env: map<string, string>, scope: seq<Binding>, outer: map<string, string>, rest: seq<Token>)
    requires Fine(ts) && |ts| > 0 && (ts[0].Start? || ts[0].Empty?)
    ensures var (e, left) := ParsedElement(ts, env);
            var again := Written(e, scope) + rest;
            && |again| > 0 && (again[0].Start? || again[0].Empty?) && ParsedElement(again, outer).1 == rest
            && |left| <= |ts|
            && (ParsedElement(again, outer).0 == e <==>
                Faithful(e, Elements(scope), outer) && StableTexts(ReadTokens(ts, left)))
  {
    hide ParsedElement, Shaped, Faithful, Written, TextsKept, StableTexts;
    ParsedIsShaped(ts, env);
    ParsedKeptIff(ts, env);
    WrittenStarts(ParsedElement(ts, env).0, scope);
    RoundTripIff(ParsedElement(ts, env).0, scope, outer, rest);
  }

  /**
   * Any element at all, written under well-formed names, survives exactly when it has the shape, is
   * faithful and its texts are kept: one with an id, without a name or with untrimmed text does not.
   */
  lemma AnyRoundTripIff(e: ExtensionElement, scope: seq<Binding>, env: map<string, string>)
    requires Fine(Written(e, scope))
    ensures |Written(e, scope)| > 0 && (Written(e, scope)[0].Start? || Written(e, scope)[0].Empty?)
    ensures ParsedElement(Written(e, scope), env) == (e, []) <==>
            Shaped(e) && Faithful(e, Elements(scope), env) && TextsKept(e)
  {
    hide Shaped, Faithful, Written, Fine, ParsedElement, TextsKept;
    WrittenStarts(e, scope);
    ParsedIsShaped(Written(e, scope), env);
    if Shaped(e) {
      RoundTripIff(e, scope, env, []);
      assert Written(e, scope) + [] == Written(e, scope);
    }
  }

  /** So an element read with such a text is never given back by writing and reading it. */
  lemma UnstableTextIsMisread(raw: string, env: map<string, string>, scope: seq<Binding>, outer: map<string, string>)
    requires !StableText(raw)
    ensures var e := ParsedElement([Start("x", []), Text(raw), End("x")], env).0;
            && |Written(e, scope)| > 0 && (Written(e, scope)[0].Start? || Written(e, scope)[0].Empty?)
            && ParsedElement(Written(e, scope), outer).0 != e
  {
    hide StableText, Faithful, Written, StableTexts;
    var ts := [Start("x", []), Text(raw), End("x")];
    PlainColon("x");
    assert Fine(ts);
    ReadsAll(raw, env);
    var e, left := ParsedElement(ts, env).0, ParsedElement(ts, env).1;
    hide ParsedElement;
    ReadElementRoundTripIff(ts, env, scope, outer, []);
    assert ReadTokens(ts, left) == ts;
    assert !StableTexts(ts) by { NotAllStable(ts, raw); }
    assert Written(e, scope) + [] == Written(e, scope);
  }

  lemma NotAllStable(ts: seq<Token>, raw: string)
    requires |ts| > 1 && ts[1] == Text(raw) && !StableText(raw)
    ensures !StableTexts(ts)
  {
    assert !StableToken(ts[1]);
  }

  lemma ReadsAll(raw: string, env: map<string, string>)
    ensures ParsedElement([Start("x", []), Text(raw), End("x")], env).1 == []
  {
    hide Normalised, Scope, ReadAttrs;
    var ts := [Start("x", []), Text(raw), End("x")];
    var e := Opened("x", [], env);
    var tag, inner := ElementName("x"), Scope(env, Readable([]));
    assert ts[1..][1..] == [End("x")] + [];
    assert ts[1..][0] == Text(raw);
    ParseEnd("x", [], AddText(e, raw), inner);
    assert ParsedContent(ts[1..], e, tag, inner) == ParsedContent(ts[1..][1..], AddText(e, raw), tag, inner);
  }
}
