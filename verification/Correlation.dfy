/**
 * Correlation keys of an event: one for every non-empty sub-map of its parameters, enumerated by a
 * counter whose bits say which parameters are taken. A subscription matches when it asks for no key
 * or for one of these.
 */
module Correlation {
  import opened Common

  datatype Entry = Entry(key: string, value: Option<string>)

  /** An ordered map, as the sequence of its entries. */
  type Params = seq<Entry>

  const WORD_BITS: nat := 64

  /** Bytes of one string in a vector, and the most bytes a vector may ask for. */
  const STRING_BYTES: nat := 24
  const MAX_ALLOCATION: nat := 0x7FFF_FFFF_FFFF_FFFF

  predicate Less(a: string, b: string) {
    a != b && TextLeq(a, b)
  }

  ghost predicate IsTreeMap(p: Params) {
    forall i, j :: 0 <= i < j < |p| ==> Less(p[i].key, p[j].key)
  }

  function AsMap(p: Params): map<string, Option<string>> {
    if |p| == 0 then map[] else AsMap(p[1..])[p[0].key := p[0].value]
  }

  // ---- One key ----------------------------------------------------------------------

  function EntryText(e: Entry): string {
    e.key + "=" + (if e.value.Some? then e.value.value else "") + ";"
  }

  function KeyText(p: Params): string {
    if |p| == 0 then "" else KeyText(p[..|p| - 1]) + EntryText(p[|p| - 1])
  }

  method GenerateCorrelationKey(digest: string -> string, p: Params) returns (key: string)
    ensures key == digest(KeyText(p))
  {
    var text := "";
    for i := 0 to |p|
      invariant text == KeyText(p[..i])
    {
      var value := if p[i].value.Some? then p[i].value.value else "";
      assert p[..i + 1][..i] == p[..i];
      assert text + EntryText(p[i]) == text + p[i].key + "=" + value + ";";
      text := text + p[i].key;
      text := text + "=";
      text := text + value;
      text := text + ";";
    }
    assert p[..|p|] == p;
    key := digest(text);
  }

  // ---- All keys ---------------------------------------------------------------------

  function Pow2(n: nat): nat {
    if n == 0 then 1 else 2 * Pow2(n - 1)
  }

  /** `c` shifted right by `i` bits. */
  function Shifted(c: nat, i: nat): nat {
    if i == 0 then c else Shifted(c, i - 1) / 2
  }

  predicate Bit(c: nat, i: nat) {
    Shifted(c, i) % 2 == 1
  }

  /** The parameters selected by the bits of `c`, the lowest bit deciding about the first. */
  function Sub(p: Params, c: nat): Params {
    if |p| == 0 then [] else (if c % 2 == 1 then [p[0]] else []) + Sub(p[1..], c / 2)
  }

  /** The keys for the counters from 1 up to, not including, `n`. */
  function KeysBelow(digest: string -> string, p: Params, n: nat): seq<string> {
    if n <= 1 then [] else KeysBelow(digest, p, n - 1) + [digest(KeyText(Sub(p, n - 1)))]
  }

  function EventKeys(digest: string -> string, p: Params): seq<string> {
    if |p| == 0 || |p| >= WORD_BITS then [] else KeysBelow(digest, p, Pow2(|p|))
  }

  /** Asking for room for all keys at once panics. */
  predicate CapacityOverflows(n: nat) {
    0 < n < WORD_BITS && (Pow2(n) - 1) * STRING_BYTES > MAX_ALLOCATION
  }

  method SelectParameters(p: Params, counter: nat) returns (subset: Params)
    ensures subset == Sub(p, counter)
  {
    subset := [];
    for i := 0 to |p|
      invariant subset + Sub(p[i..], Shifted(counter, i)) == Sub(p, counter)
    {
      assert p[i..][0] == p[i] && p[i..][1..] == p[i + 1..];
      if Bit(counter, i) {
        subset := subset + [p[i]];
      }
    }
    assert p[|p|..] == [];
  }

  /** `None` is the panic when room for the keys is asked for. */
  method GenerateEventCorrelationKeys(digest: string -> string, p: Params) returns (keys: Option<seq<string>>)
    ensures keys == if CapacityOverflows(|p|) then None else Some(EventKeys(digest, p))
  {
    hide Pow2, Sub, KeyText;
    if |p| == 0 || |p| >= WORD_BITS {
      return Some([]);
    }
    var subsetCount := Pow2(|p|);
    PowPositive(|p|);
    if (subsetCount - 1) * STRING_BYTES > MAX_ALLOCATION {
      return None;
    }
    var all: seq<string> := [];
    for counter := 1 to subsetCount
      invariant all == KeysBelow(digest, p, counter)
    {
      var subset := SelectParameters(p, counter);
      var key := GenerateCorrelationKey(digest, subset);
      all := all + [key];
    }
    keys := Some(all);
  }

  lemma {:induction false} PowRises(m: nat, n: nat)
    requires m <= n
    ensures Pow2(m) <= Pow2(n)
    decreases n
  {
    if m < n {
      PowRises(m, n - 1);
    }
  }

  lemma {:induction false} TenMore(n: nat)
    ensures Pow2(n + 10) == 1024 * Pow2(n)
  {
    if n == 0 {
      assert Pow2(2) == 4 && Pow2(4) == 16;
      assert Pow2(6) == 64 && Pow2(8) == 256;
    } else {
      TenMore(n - 1);
    }
  }

  lemma PowOf58()
    ensures Pow2(58) == 0x400_0000_0000_0000 && Pow2(59) == 0x800_0000_0000_0000
  {
    assert Pow2(2) == 4 && Pow2(4) == 16;
    assert Pow2(6) == 64 && Pow2(8) == 256;
    TenMore(8);
    TenMore(18);
    TenMore(28);
    TenMore(38);
    TenMore(48);
    assert Pow2(59) == 2 * Pow2(58);
  }

  /** The request panics exactly from 59 to 63 parameters on; with 64 and more it is not made. */
  lemma CapacityOverflowsIff(n: nat)
    ensures CapacityOverflows(n) <==> 59 <= n < WORD_BITS
  {
    PowOf58();
    hide Pow2;
    if n <= 58 {
      PowRises(n, 58);
    } else {
      PowRises(59, n);
    }
  }

  lemma {:induction false} PowPositive(n: nat)
    ensures Pow2(n) >= 1
  {
    if n > 0 {
      PowPositive(n - 1);
    }
  }

  predicate Matches(configuration: Option<string>, keys: seq<string>) {
    if |keys| == 0 then configuration.None?
    else configuration.None? || configuration.value in keys
  }

  // ---- Ordered maps -----------------------------------------------------------------

  lemma RestIsTreeMap(p: Params)
    requires IsTreeMap(p) && |p| > 0
    ensures IsTreeMap(p[1..]) && p[0].key !in AsMap(p[1..])
    ensures forall k :: k in AsMap(p[1..]) ==> Less(p[0].key, k)
  {
    hide Less;
    var rest := p[1..];
    forall i, j | 0 <= i < j < |rest| ensures Less(rest[i].key, rest[j].key) {
      assert rest[i] == p[i + 1] && rest[j] == p[j + 1];
    }
    forall k | k in AsMap(rest) ensures Less(p[0].key, k) {
      var i := EntryOf(rest, k);
      assert p[i + 1].key == k;
    }
    if p[0].key in AsMap(rest) {
      NotLessThanItself(p[0].key);
    }
  }

  lemma NotLessThanItself(a: string)
    ensures !Less(a, a)
  {
  }

  lemma {:induction false} EntryOf(p: Params, k: string) returns (i: nat)
    requires k in AsMap(p)
    ensures i < |p| && p[i].key == k
  {
    if p[0].key == k {
      i := 0;
    } else {
      i := EntryOf(p[1..], k);
      i := i + 1;
    }
  }

  lemma NotBothLess(a: string, b: string)
    ensures !(Less(a, b) && Less(b, a))
  {
    TextOrderTotal(a, b);
  }

  /** An ordered map has one sequence of entries. */
  lemma {:induction false} TreeMapIsUnique(p: Params, q: Params)
    requires IsTreeMap(p) && IsTreeMap(q) && AsMap(p) == AsMap(q)
    ensures p == q
    decreases |p|
  {
    hide Less, IsTreeMap;
    if |p| == 0 || |q| == 0 {
      EmptyMap(p);
      EmptyMap(q);
    } else {
      RestIsTreeMap(p);
      RestIsTreeMap(q);
      assert p[0].key in AsMap(q) && q[0].key in AsMap(p);
      NotBothLess(p[0].key, q[0].key);
      assert p[0].key == q[0].key && p[0].value == AsMap(p)[p[0].key];
      assert AsMap(p[1..]) == AsMap(p) - {p[0].key};
      assert AsMap(q[1..]) == AsMap(q) - {q[0].key};
      TreeMapIsUnique(p[1..], q[1..]);
      assert p == [p[0]] + p[1..] && q == [q[0]] + q[1..];
    }
  }

  // ---- Counters and sub-maps --------------------------------------------------------

  /** The counter that selects the keys in `keep`. */
  function Mask(p: Params, keep: set<string>): nat {
    if |p| == 0 then 0 else (if p[0].key in keep then 1 else 0) + 2 * Mask(p[1..], keep)
  }

  ghost predicate SubMap(m: map<string, Option<string>>, of: map<string, Option<string>>) {
    forall k :: k in m ==> k in of && m[k] == of[k]
  }

  lemma {:induction false} MaskBelow(p: Params, keep: set<string>)
    ensures Mask(p, keep) < Pow2(|p|)
  {
    if |p| > 0 {
      MaskBelow(p[1..], keep);
    }
  }

  lemma {:induction false} MaskDepends(p: Params, a: set<string>, b: set<string>)
    requires forall k :: k in AsMap(p) ==> (k in a <==> k in b)
    ensures Mask(p, a) == Mask(p, b)
  {
    if |p| > 0 {
      assert p[0].key in AsMap(p);
      MaskDepends(p[1..], a, b);
    }
  }

  lemma SubCons(p: Params, c: nat)
    requires |p| > 0
    ensures AsMap(Sub(p, c)) == if c % 2 == 1 then AsMap(Sub(p[1..], c / 2))[p[0].key := p[0].value]
            else AsMap(Sub(p[1..], c / 2))
  {
    var rest := Sub(p[1..], c / 2);
    if c % 2 == 1 {
      assert ([p[0]] + rest)[1..] == rest;
    } else {
      assert [] + rest == rest;
    }
  }

  /** Any counter selects a sub-map. */
  lemma {:induction false} SubIsSubMap(p: Params, c: nat)
    requires IsTreeMap(p)
    ensures SubMap(AsMap(Sub(p, c)), AsMap(p)) && IsTreeMap(Sub(p, c))
  {
    hide Less, IsTreeMap;
    if |p| > 0 {
      RestIsTreeMap(p);
      SubIsSubMap(p[1..], c / 2);
      SubCons(p, c);
      var rest := Sub(p[1..], c / 2);
      if c % 2 == 1 {
        FirstIsLeast(p[0], rest);
      } else {
        assert [] + rest == rest;
      }
    } else {
      NoEntries();
    }
  }

  lemma NoEntries()
    ensures IsTreeMap([])
  {
  }

  lemma FirstIsLeast(e: Entry, rest: Params)
    requires IsTreeMap(rest) && forall k :: k in AsMap(rest) ==> Less(e.key, k)
    ensures IsTreeMap([e] + rest)
  {
    hide Less;
    var all := [e] + rest;
    forall i, j | 0 <= i < j < |all| ensures Less(all[i].key, all[j].key) {
      assert all[j] == rest[j - 1];
      if i == 0 {
        KeyIsIn(rest, j - 1);
      } else {
        assert all[i] == rest[i - 1];
      }
    }
  }

  lemma {:induction false} KeyIsIn(p: Params, i: nat)
    requires i < |p|
    ensures p[i].key in AsMap(p)
  {
    if i > 0 {
      KeyIsIn(p[1..], i - 1);
    }
  }

  /** The selected keys give the counter back. */
  lemma {:induction false} MaskOfSub(p: Params, c: nat)
    requires IsTreeMap(p) && c < Pow2(|p|)
    ensures Mask(p, AsMap(Sub(p, c)).Keys) == c
  {
    hide Less, IsTreeMap;
    if |p| > 0 {
      RestIsTreeMap(p);
      MaskOfSub(p[1..], c / 2);
      SubCons(p, c);
      SubIsSubMap(p[1..], c / 2);
      MaskDepends(p[1..], AsMap(Sub(p, c)).Keys, AsMap(Sub(p[1..], c / 2)).Keys);
      assert p[0].key in AsMap(Sub(p, c)) <==> c % 2 == 1;
    }
  }

  lemma {:induction false} ShiftedHalf(c: nat, i: nat)
    requires i > 0
    ensures Shifted(c, i) == Shifted(c / 2, i - 1)
  {
    if i > 1 {
      ShiftedHalf(c, i - 1);
    }
  }

  /** Bit `i` of the counter decides about the `i`-th parameter. */
  lemma {:induction false} SelectedIffBit(p: Params, c: nat, i: nat)
    requires IsTreeMap(p) && i < |p|
    ensures p[i].key in AsMap(Sub(p, c)) <==> Bit(c, i)
    decreases |p|
  {
    hide Less, IsTreeMap;
    RestIsTreeMap(p);
    SubCons(p, c);
    SubIsSubMap(p[1..], c / 2);
    if i > 0 {
      SelectedIffBit(p[1..], c / 2, i - 1);
      ShiftedHalf(c, i);
      KeyIsIn(p[1..], i - 1);
      assert p[i].key != p[0].key;
    }
  }

  /** The counter of a set of keys selects the entries with those keys. */
  lemma {:induction false} SubOfMask(p: Params, keep: set<string>)
    requires IsTreeMap(p)
    ensures AsMap(Sub(p, Mask(p, keep))) == map k | k in AsMap(p) && k in keep :: AsMap(p)[k]
  {
    hide Less, IsTreeMap;
    if |p| > 0 {
      RestIsTreeMap(p);
      SubOfMask(p[1..], keep);
      var c := Mask(p, keep);
      assert c / 2 == Mask(p[1..], keep) && (c % 2 == 1 <==> p[0].key in keep);
      SubCons(p, c);
    }
  }

  /** `c` is a counter of the loop and selects `m`. */
  ghost predicate Selects(p: Params, c: nat, m: map<string, Option<string>>) {
    1 <= c < Pow2(|p|) && AsMap(Sub(p, c)) == m
  }

  /**
   * The loop's counters and the non-empty sub-maps correspond one to one: every counter selects one,
   * and every one is selected by exactly one counter.
   */
  lemma CountersAreSubMaps(p: Params)
    requires IsTreeMap(p)
    ensures forall c: nat :: 1 <= c < Pow2(|p|) ==> AsMap(Sub(p, c)) != map[] && SubMap(AsMap(Sub(p, c)), AsMap(p))
    ensures forall m :: m != map[] && SubMap(m, AsMap(p)) ==> Selects(p, Mask(p, m.Keys), m)
    ensures forall m, c: nat :: Selects(p, c, m) ==> c == Mask(p, m.Keys)
  {
    hide IsTreeMap, Sub, Mask, Pow2;
    NoKeysNoMask(p);
    forall c: nat | 1 <= c < Pow2(|p|) ensures AsMap(Sub(p, c)) != map[] && SubMap(AsMap(Sub(p, c)), AsMap(p)) {
      SubIsSubMap(p, c);
      MaskOfSub(p, c);
      assert AsMap(Sub(p, c)).Keys != {};
    }
    forall m | m != map[] && SubMap(m, AsMap(p)) ensures Selects(p, Mask(p, m.Keys), m) {
      MaskBelow(p, m.Keys);
      SubOfMask(p, m.Keys);
      assert m == map k | k in AsMap(p) && k in m.Keys :: AsMap(p)[k];
      ZeroSelectsNothing(p);
    }
    forall m, c: nat | Selects(p, c, m) ensures c == Mask(p, m.Keys) {
      MaskOfSub(p, c);
    }
  }

  lemma {:induction false} NoKeysNoMask(p: Params)
    ensures Mask(p, {}) == 0
  {
    if |p| > 0 {
      NoKeysNoMask(p[1..]);
    }
  }

  lemma {:induction false} ZeroSelectsNothing(p: Params)
    ensures AsMap(Sub(p, 0)) == map[]
  {
    if |p| > 0 {
      ZeroSelectsNothing(p[1..]);
      SubCons(p, 0);
    }
  }

  // ---- Matching ---------------------------------------------------------------------

  lemma {:induction false} KeysBelowAre(digest: string -> string, p: Params, n: nat)
    requires n >= 1
    ensures |KeysBelow(digest, p, n)| == n - 1
    ensures forall c :: 1 <= c < n ==> KeysBelow(digest, p, n)[c - 1] == digest(KeyText(Sub(p, c)))
  {
    hide KeyText, Sub;
    if n > 1 {
      KeysBelowAre(digest, p, n - 1);
    }
  }

  /** `sub` is a non-empty sub-map of the parameters with this key. */
  ghost predicate Offers(digest: string -> string, p: Params, sub: Params, key: string) {
    IsTreeMap(sub) && |sub| > 0 && SubMap(AsMap(sub), AsMap(p)) && digest(KeyText(sub)) == key
  }

  lemma SubMapIsSelected(p: Params, sub: Params)
    requires IsTreeMap(p) && IsTreeMap(sub) && |sub| > 0 && SubMap(AsMap(sub), AsMap(p))
    ensures 1 <= Mask(p, AsMap(sub).Keys) < Pow2(|p|) && Sub(p, Mask(p, AsMap(sub).Keys)) == sub
  {
    hide IsTreeMap, Sub, Mask, Pow2, SubMap;
    var c := Mask(p, AsMap(sub).Keys);
    assert sub[0].key in AsMap(sub);
    CountersAreSubMaps(p);
    assert Selects(p, c, AsMap(sub));
    SubIsSubMap(p, c);
    TreeMapIsUnique(Sub(p, c), sub);
  }

  lemma CounterOffers(digest: string -> string, p: Params, c: nat)
    requires IsTreeMap(p) && 1 <= c < Pow2(|p|)
    ensures Offers(digest, p, Sub(p, c), digest(KeyText(Sub(p, c))))
  {
    hide IsTreeMap, Sub, Mask, Pow2, SubMap, KeyText;
    CountersAreSubMaps(p);
    SubIsSubMap(p, c);
    EmptyMap(Sub(p, c));
  }

  lemma EmptyMap(p: Params)
    ensures p == [] <==> AsMap(p) == map[]
  {
    if |p| > 0 {
      assert p[0].key in AsMap(p);
    }
  }

  /**
   * A subscription with a configuration matches the keys generated exactly when some non-empty sub-map
   * of the event's parameters has that key; from 64 parameters on, none does. One without always
   * matches.
   */
  lemma MatchesIff(digest: string -> string, p: Params, configuration: Option<string>)
    requires IsTreeMap(p)
    ensures Matches(configuration, EventKeys(digest, p)) <==>
            configuration.None? || (|p| < WORD_BITS && exists sub :: Offers(digest, p, sub, configuration.value))
  {
    hide IsTreeMap, Sub, Mask, Pow2, KeyText, KeysBelow, SubMap, Offers;
    if configuration.Some? && 0 < |p| < WORD_BITS {
      PowPositive(|p|);
      KeysBelowAre(digest, p, Pow2(|p|));
      var keys := EventKeys(digest, p);
      if configuration.value in keys {
        var i :| 0 <= i < |keys| && keys[i] == configuration.value;
        assert keys[i + 1 - 1] == digest(KeyText(Sub(p, i + 1)));
        CounterOffers(digest, p, i + 1);
      }
      if sub :| Offers(digest, p, sub, configuration.value) {
        OfferedIsKey(digest, p, sub, configuration.value);
      }
    } else if configuration.Some? && |p| == 0 {
      NothingOffered(digest, p, configuration.value);
    }
  }

  lemma OfferedIsKey(digest: string -> string, p: Params, sub: Params, key: string)
    requires IsTreeMap(p) && Offers(digest, p, sub, key) && |p| < WORD_BITS
    ensures 0 < |p| && key in EventKeys(digest, p)
  {
    hide IsTreeMap, Sub, Mask, Pow2, KeyText, KeysBelow, SubMap;
    SubMapIsSelected(p, sub);
    var c := Mask(p, AsMap(sub).Keys);
    NoCounter(p);
    KeysBelowAre(digest, p, Pow2(|p|));
    assert EventKeys(digest, p)[c - 1] == key;
  }

  lemma NoCounter(p: Params)
    ensures |p| == 0 ==> Pow2(|p|) == 1
  {
  }

  lemma NothingOffered(digest: string -> string, p: Params, key: string)
    requires |p| == 0
    ensures !exists sub :: Offers(digest, p, sub, key)
  {
    hide KeyText, IsTreeMap;
    forall sub ensures !Offers(digest, p, sub, key) {
      if |sub| > 0 {
        KeyIsIn(sub, 0);
      }
    }
  }

  // ---- What a key text determines -----------------------------------------------------

  /** No '=' in a key and no ';' in a value. */
  ghost predicate Separable(p: Params) {
    forall i :: 0 <= i < |p| ==> '=' !in p[i].key && (p[i].value.Some? ==> ';' !in p[i].value.value)
  }

  function ValueText(e: Entry): string {
    if e.value.Some? then e.value.value else ""
  }

  /** The parameters with a missing value read as the empty one. */
  function Filled(p: Params): Params {
    seq(|p|, i requires 0 <= i < |p| => Entry(p[i].key, Some(ValueText(p[i]))))
  }

  /** Where `c` ends the first part, two texts agree exactly when both parts do. */
  lemma {:induction false} SplitAt(c: char, a: string, x: string, b: string, y: string)
    requires c !in a && c !in b
    ensures a + [c] + x == b + [c] + y <==> a == b && x == y
    decreases |a|
  {
    var s, t := a + [c] + x, b + [c] + y;
    if |a| == 0 || |b| == 0 {
      assert s[0] == if |a| == 0 then c else a[0];
      assert t[0] == if |b| == 0 then c else b[0];
      assert s[|a| + 1..] == x && t[|b| + 1..] == y;
    } else {
      assert s == [a[0]] + (a[1..] + [c] + x) && t == [b[0]] + (b[1..] + [c] + y);
      assert a == [a[0]] + a[1..] && b == [b[0]] + b[1..];
      ConsAgree(a[0], a[1..] + [c] + x, b[0], b[1..] + [c] + y);
      SplitAt(c, a[1..], x, b[1..], y);
    }
  }

  lemma ConsAgree(a: char, x: string, b: char, y: string)
    ensures [a] + x == [b] + y <==> a == b && x == y
  {
    assert ([a] + x)[0] == a && ([b] + y)[0] == b && ([a] + x)[1..] == x && ([b] + y)[1..] == y;
  }

  lemma {:induction false} TextOfFirst(p: Params)
    requires |p| > 0
    ensures KeyText(p) == EntryText(p[0]) + KeyText(p[1..])
    decreases |p|
  {
    hide EntryText;
    var n := |p| - 1;
    if n > 0 {
      TextOfFirst(p[..n]);
      assert p[..n][1..] == p[1..][..n - 1];
    } else {
      assert p[..0] == [] && p[1..] == [];
    }
  }

  /** The parts of an entry's text can be told from each other and from what follows. */
  lemma EntriesAgree(e: Entry, x: string, f: Entry, y: string)
    requires Separable([e]) && Separable([f])
    ensures EntryText(e) + x == EntryText(f) + y <==> e.key == f.key && ValueText(e) == ValueText(f) && x == y
  {
    assert [e][0] == e && [f][0] == f;
    var a, b := ValueText(e) + ";" + x, ValueText(f) + ";" + y;
    assert EntryText(e) + x == e.key + "=" + a && EntryText(f) + y == f.key + "=" + b;
    SplitAt('=', e.key, a, f.key, b);
    SplitAt(';', ValueText(e), x, ValueText(f), y);
  }

  lemma FilledCons(p: Params)
    requires |p| > 0
    ensures Filled(p) == [Entry(p[0].key, Some(ValueText(p[0])))] + Filled(p[1..])
  {
  }

  /**
   * Where no key holds '=' and no value ';', the key text determines the parameters up to the
   * difference between a missing and an empty value, and nothing less.
   */
  lemma {:induction false} TextDeterminesIff(p: Params, q: Params)
    requires Separable(p) && Separable(q)
    ensures KeyText(p) == KeyText(q) <==> Filled(p) == Filled(q)
    decreases |p|
  {
    if |p| == 0 || |q| == 0 {
      NonEmptyText(p);
      NonEmptyText(q);
    } else {
      TextOfFirst(p);
      TextOfFirst(q);
      FilledCons(p);
      FilledCons(q);
      SeparableParts(p);
      SeparableParts(q);
      hide KeyText, Filled, Separable, EntryText;
      TextDeterminesIff(p[1..], q[1..]);
      EntriesAgree(p[0], KeyText(p[1..]), q[0], KeyText(q[1..]));
      EntryConsAgree(Entry(p[0].key, Some(ValueText(p[0]))), Filled(p[1..]), Entry(q[0].key, Some(ValueText(q[0]))),
          Filled(q[1..]));
    }
  }

  lemma EntryConsAgree(a: Entry, x: Params, b: Entry, y: Params)
    ensures [a] + x == [b] + y <==> a == b && x == y
  {
    assert ([a] + x)[0] == a && ([b] + y)[0] == b && ([a] + x)[1..] == x && ([b] + y)[1..] == y;
  }

  lemma SeparableParts(p: Params)
    requires |p| > 0 && Separable(p)
    ensures Separable([p[0]]) && Separable(p[1..])
  {
  }

  lemma NonEmptyText(p: Params)
    ensures KeyText(p) == "" <==> p == []
    ensures |Filled(p)| == |p|
  {
    if |p| > 0 {
      TextOfFirst(p);
    }
  }

  /** A missing and an empty value always give the same text. */
  lemma {:induction false} MissingReadsEmpty(p: Params)
    ensures KeyText(p) == KeyText(Filled(p))
    decreases |p|
  {
    if |p| > 0 {
      MissingReadsEmpty(p[..|p| - 1]);
      assert Filled(p)[..|p| - 1] == Filled(p[..|p| - 1]);
    }
  }

  /** Every key with a '=' in it shares its text with a shorter key. */
  lemma EqualsSignIsAmbiguous(u: string, w: string, v: string)
    ensures var a, b := [Entry(u + "=" + w, Some(v))], [Entry(u, Some(w + "=" + v))];
            IsTreeMap(a) && IsTreeMap(b) && Filled(a) != Filled(b) && KeyText(a) == KeyText(b)
  {
    var e, f := Entry(u + "=" + w, Some(v)), Entry(u, Some(w + "=" + v));
    TextOfFirst([e]);
    TextOfFirst([f]);
    assert [e][1..] == [] && [f][1..] == [];
    assert EntryText(e) == u + "=" + w + "=" + v + ";" == EntryText(f);
    assert |Filled([e])[0].key| != |Filled([f])[0].key|;
  }

  /** A value that holds ';' and '=' shares its text with two parameters, whatever the parts. */
  lemma SemicolonIsAmbiguous(k: string, x: string, l: string, v: string)
    requires Less(k, l)
    ensures var a, b := [Entry(k, Some(x + ";" + l + "=" + v))], [Entry(k, Some(x)), Entry(l, Some(v))];
            IsTreeMap(a) && IsTreeMap(b) && Filled(a) != Filled(b) && KeyText(a) == KeyText(b)
  {
    var e, f, g := Entry(k, Some(x + ";" + l + "=" + v)), Entry(k, Some(x)), Entry(l, Some(v));
    TextOfFirst([e]);
    TextOfFirst([f, g]);
    TextOfFirst([g]);
    assert [e][1..] == [] && [f, g][1..] == [g] && [g][1..] == [];
    hide Less;
    assert EntryText(e) == EntryText(f) + EntryText(g);
    assert |Filled([e])| != |Filled([f, g])|;
  }
}
