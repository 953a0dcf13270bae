/**
 The scalar case-table compiler and the lookups it emits. The lowercase map and the
 extra-case relation are arbitrary: nothing depends on one Unicode version.
 */
module CaseTables {
  import opened SortedLists
  import Utf8

  type LowerMap = int -> int
  type ExtraCases = map<int, seq<int>>

  predicate IsScalar(c: int) {
    0 <= c < 0x11_0000 && !(0xD800 <= c <= 0xDFFF)
  }

  // ---------- what the tables stand for ----------

  /** Simple lowercasing; anything that is not a scalar is left alone. */
  function Lower(lower: LowerMap, s: int): int {
    if IsScalar(s) then lower(s) else s
  }

  function Extras(extra: ExtraCases, lo: int): seq<int> {
    if lo in extra then extra[lo] else []
  }

  /** `lo` and its extra cases. */
  predicate Related(extra: ExtraCases, lo: int, x: int) {
    x == lo || x in Extras(extra, lo)
  }

  /** The literal partners of a scalar with lowercase `lo`. */
  predicate IsPartner(lower: LowerMap, extra: ExtraCases, lo: int, x: int) {
    Related(extra, lo, x) || (IsScalar(x) && Related(extra, lo, lower(x)))
  }

  /** Some other scalar lowers to `lo`, or `lo` has an entry among the extra cases. */
  ghost predicate HasPartners(lower: LowerMap, extra: ExtraCases, lo: int) {
    lo in extra || exists c :: IsScalar(c) && c != lo && lower(c) == lo
  }

  ghost predicate ListsPartners(partners: seq<int>, lower: LowerMap, extra: ExtraCases, lo: int) {
    StrictlySorted(partners) && forall x :: x in partners <==> IsPartner(lower, extra, lo, x)
  }

  // ---------- the lowercase pairs and their inverse ----------

  type Pairs = seq<(int, int)>

  function Keys(pairs: Pairs): (keys: seq<int>)
    ensures |keys| == |pairs| && forall i :: 0 <= i < |pairs| ==> keys[i] == pairs[i].0
  {
    seq(|pairs|, i requires 0 <= i < |pairs| => pairs[i].0)
  }

  function Values(pairs: Pairs): (values: seq<int>)
    ensures |values| == |pairs| && forall i :: 0 <= i < |pairs| ==> values[i] == pairs[i].1
  {
    seq(|pairs|, i requires 0 <= i < |pairs| => pairs[i].1)
  }

  /** Exactly the scalars below `limit` that lowercasing changes, in order. */
  ghost predicate ChangedBelow(pairs: Pairs, lower: LowerMap, limit: int) {
    && (forall i, j :: 0 <= i < j < |pairs| ==> pairs[i].0 < pairs[j].0)
    && (forall i :: 0 <= i < |pairs| ==>
          IsScalar(pairs[i].0) && pairs[i].0 < limit && pairs[i].1 == lower(pairs[i].0) != pairs[i].0)
    && (forall c :: IsScalar(c) && c < limit && lower(c) != c ==> (c, lower(c)) in pairs)
  }

  method LowerPairs(lower: LowerMap) returns (pairs: Pairs)
    ensures ChangedBelow(pairs, lower, 0x11_0000)
  {
    pairs := [];
    for c := 0 to 0x11_0000
      invariant ChangedBelow(pairs, lower, c)
    {
      if IsScalar(c) && lower(c) != c {
        pairs := pairs + [(c, lower(c))];
      }
    }
  }

  /** The keys that have been given some pair, each with its family so far. */
  ghost predicate Inverts(inverse: map<int, set<int>>, pairs: Pairs) {
    && (forall lo :: lo in inverse <==> exists c :: (c, lo) in pairs)
    && (forall lo, x :: lo in inverse ==> (x in inverse[lo] <==> x == lo || (x, lo) in pairs))
  }

  method Invert(pairs: Pairs) returns (inverse: map<int, set<int>>)
    ensures Inverts(inverse, pairs)
  {
    inverse := map[];
    for n := 0 to |pairs|
      invariant Inverts(inverse, pairs[..n])
    {
      var (c, lo) := pairs[n];
      ghost var before := inverse;
      inverse := inverse[lo := (if lo in inverse then inverse[lo] else {}) + {c, lo}];
      assert pairs[..n + 1] == pairs[..n] + [(c, lo)];
      InvertsOneMore(before, pairs[..n], c, lo);
    }
    assert pairs[..|pairs|] == pairs;
  }

  lemma InvertsOneMore(before: map<int, set<int>>, pairs: Pairs, c: int, lo: int)
    requires Inverts(before, pairs)
    ensures Inverts(before[lo := (if lo in before then before[lo] else {}) + {c, lo}], pairs + [(c, lo)])
  {
    var longer := pairs + [(c, lo)];
    assert (c, lo) in longer;
    assert forall p :: p in longer <==> p in pairs || p == (c, lo);
    assert lo !in before ==> forall x :: (x, lo) !in pairs;
  }

  /** `inverse.get(lo, (lo,))` */
  function FamilyOf(inverse: map<int, set<int>>, lo: int): set<int> {
    if lo in inverse then inverse[lo] else {lo}
  }

  lemma FamilyOfInverse(lower: LowerMap, pairs: Pairs, inverse: map<int, set<int>>, lo: int)
    requires ChangedBelow(pairs, lower, 0x11_0000) && Inverts(inverse, pairs)
    ensures forall x :: x in FamilyOf(inverse, lo) <==> x == lo || (IsScalar(x) && lower(x) == lo)
    ensures lo in inverse <==> exists c :: IsScalar(c) && c != lo && lower(c) == lo
  {
    assert forall c :: (c, lo) in pairs <==> IsScalar(c) && c != lo && lower(c) == lo;
  }

  // ---------- the groups ----------

  /** `x` belongs to the family of one of the fixes. */
  ghost predicate InSomeFamily(inverse: map<int, set<int>>, fixes: seq<int>, x: int) {
    exists fix :: fix in fixes && x in FamilyOf(inverse, fix)
  }

  ghost predicate Gathers(members: set<int>, inverse: map<int, set<int>>, lo: int, fixes: seq<int>) {
    forall x :: x in members <==> x in FamilyOf(inverse, lo) || InSomeFamily(inverse, fixes, x)
  }

  ghost predicate IsGroup(group: seq<int>, inverse: map<int, set<int>>, extra: ExtraCases, lo: int) {
    StrictlySorted(group) && Gathers(Members(group), inverse, lo, Extras(extra, lo))
  }

  method BuildGroups(inverse: map<int, set<int>>, extra: ExtraCases) returns (groups: map<int, seq<int>>)
    ensures groups.Keys == inverse.Keys + extra.Keys
    ensures forall lo :: lo in groups ==> IsGroup(groups[lo], inverse, extra, lo)
  {
    hide IsGroup;
    groups := map[];
    var todo := inverse.Keys + extra.Keys;
    while todo != {}
      invariant groups.Keys + todo == inverse.Keys + extra.Keys && groups.Keys !! todo
      invariant forall lo :: lo in groups ==> IsGroup(groups[lo], inverse, extra, lo)
      decreases |todo|
    {
      MemberExists(todo);
      var lo :| lo in todo;
      var group := BuildGroup(inverse, extra, lo);
      groups := groups[lo := group];
      todo := todo - {lo};
    }
  }

  method BuildGroup(inverse: map<int, set<int>>, extra: ExtraCases, lo: int) returns (group: seq<int>)
    ensures IsGroup(group, inverse, extra, lo)
  {
    var members := GatherMembers(inverse, lo, Extras(extra, lo));
    group := Ascending(members);
    assert Members(group) == members;
  }

  method GatherMembers(inverse: map<int, set<int>>, lo: int, fixes: seq<int>) returns (members: set<int>)
    ensures Gathers(members, inverse, lo, fixes)
  {
    members := FamilyOf(inverse, lo);
    for n := 0 to |fixes|
      invariant Gathers(members, inverse, lo, fixes[..n])
    {
      members := members + FamilyOf(inverse, fixes[n]);
      OneMoreFix(inverse, fixes, n);
    }
    assert fixes[..|fixes|] == fixes;
  }

  lemma OneMoreFix(inverse: map<int, set<int>>, fixes: seq<int>, n: nat)
    requires n < |fixes|
    ensures forall x :: InSomeFamily(inverse, fixes[..n + 1], x) <==>
              InSomeFamily(inverse, fixes[..n], x) || x in FamilyOf(inverse, fixes[n])
  {
    assert fixes[..n + 1] == fixes[..n] + [fixes[n]];
    assert forall y :: y in fixes[..n + 1] <==> y in fixes[..n] || y == fixes[n];
  }

  /** A gathered group is exactly the partner list of its key. */
  lemma GroupListsPartners(lower: LowerMap, extra: ExtraCases, pairs: Pairs, inverse: map<int, set<int>>,
                           lo: int, group: seq<int>)
    requires ChangedBelow(pairs, lower, 0x11_0000) && Inverts(inverse, pairs)
    requires IsGroup(group, inverse, extra, lo)
    ensures ListsPartners(group, lower, extra, lo)
  {
    hide ChangedBelow, Inverts, FamilyOf;
    var fixes := Extras(extra, lo);
    FamilyOfInverse(lower, pairs, inverse, lo);
    forall x ensures x in group <==> IsPartner(lower, extra, lo, x) {
      assert x in group <==> x in Members(group);
      forall fix | fix in fixes
        ensures x in FamilyOf(inverse, fix) <==> x == fix || (IsScalar(x) && lower(x) == fix)
      {
        FamilyOfInverse(lower, pairs, inverse, fix);
      }
    }
  }

  // ---------- the shared pool ----------

  /** The distinct groups in order of first appearance. */
  function FirstAppearances(groups: seq<seq<int>>): seq<seq<int>> {
    if groups == [] then []
    else
      var before, last := FirstAppearances(groups[..|groups| - 1]), groups[|groups| - 1];
      if last in before then before else before + [last]
  }

  function Flatten(groups: seq<seq<int>>): seq<int> {
    if groups == [] then [] else Flatten(groups[..|groups| - 1]) + groups[|groups| - 1]
  }

  lemma {:induction false} FirstAppearancesKeepEachOnce(groups: seq<seq<int>>)
    ensures forall g :: g in FirstAppearances(groups) <==> g in groups
    ensures forall i, j :: 0 <= i < j < |FirstAppearances(groups)| ==>
              FirstAppearances(groups)[i] != FirstAppearances(groups)[j]
  {
    if groups == [] {
    } else {
      FirstAppearancesKeepEachOnce(groups[..|groups| - 1]);
      assert groups == groups[..|groups| - 1] + [groups[|groups| - 1]];
    }
  }

  predicate SliceIs(flat: seq<int>, offset: nat, length: nat, group: seq<int>) {
    offset + length <= |flat| && length == |group| && flat[offset..offset + length] == group
  }

  method SharePool(groups: seq<seq<int>>) returns (flat: seq<int>, offsets: seq<nat>, lengths: seq<nat>)
    ensures flat == Flatten(FirstAppearances(groups))
    ensures |offsets| == |lengths| == |groups|
    ensures forall i :: 0 <= i < |groups| ==> SliceIs(flat, offsets[i], lengths[i], groups[i])
  {
    hide FirstAppearances, Flatten, SliceIs;
    flat, offsets, lengths := [], [], [];
    var shared: map<seq<int>, nat> := map[];
    NothingSeen();
    for n := 0 to |groups|
      invariant flat == Flatten(FirstAppearances(groups[..n]))
      invariant forall g :: g in shared <==> g in FirstAppearances(groups[..n])
      invariant forall g :: g in shared ==> SliceIs(flat, shared[g], |g|, g)
      invariant |offsets| == |lengths| == n
      invariant forall i :: 0 <= i < n ==> SliceIs(flat, offsets[i], lengths[i], groups[i])
    {
      var g := groups[n];
      SeenNext(groups, n);
      if g !in shared {
        SlicesSurvive(flat, g);
        shared := shared[g := |flat|];
        flat := flat + g;
      }
      offsets := offsets + [shared[g]];
      lengths := lengths + [|g|];
    }
    assert groups[..|groups|] == groups;
  }

  lemma NothingSeen()
    ensures FirstAppearances([]) == [] && Flatten([]) == []
  {
  }

  lemma SeenNext(groups: seq<seq<int>>, n: nat)
    requires n < |groups|
    ensures var before, after := FirstAppearances(groups[..n]), FirstAppearances(groups[..n + 1]);
            if groups[n] in before then after == before
            else after == before + [groups[n]] && Flatten(after) == Flatten(before) + groups[n]
  {
    assert groups[..n + 1][..n] == groups[..n];
    var before := FirstAppearances(groups[..n]);
    assert (before + [groups[n]])[..|before|] == before;
  }

  /** Appending to the pool leaves every slice of it as it was. */
  lemma SlicesSurvive(flat: seq<int>, g: seq<int>)
    ensures forall offset: nat, length: nat, group :: SliceIs(flat, offset, length, group) ==>
              SliceIs(flat + g, offset, length, group)
    ensures SliceIs(flat + g, |flat|, |g|, g)
  {
    forall offset: nat, length: nat, group | SliceIs(flat, offset, length, group)
      ensures SliceIs(flat + g, offset, length, group)
    {
      assert (flat + g)[offset..offset + length] == flat[offset..offset + length];
    }
  }

  // ---------- the emitted tables and lookups ----------

  datatype Tables = Tables(
    lowerKeys: seq<int>, lowerValues: seq<int>,
    partnerKeys: seq<int>, partnerOffsets: seq<nat>, partnerLengths: seq<nat>, partners: seq<int>)
  {
    predicate WellFormed() {
      && StrictlySorted(lowerKeys) && |lowerValues| == |lowerKeys|
      && StrictlySorted(partnerKeys) && |partnerOffsets| == |partnerLengths| == |partnerKeys|
      && forall i :: 0 <= i < |partnerKeys| ==> partnerOffsets[i] + partnerLengths[i] <= |partners|
    }

    function LowerUnicode(scalar: int): int
      requires WellFormed()
    {
      var index := Find(lowerKeys, scalar);
      if index < 0 then scalar else lowerValues[index]
    }

    function LiteralPartners(scalar: int): seq<int>
      requires WellFormed()
    {
      var index := Find(partnerKeys, LowerUnicode(scalar));
      if index < 0 then [] else partners[partnerOffsets[index]..partnerOffsets[index] + partnerLengths[index]]
    }
  }

  /** The tables say of every integer what the map and the relation say. */
  ghost predicate Represents(t: Tables, lower: LowerMap, extra: ExtraCases) {
    && t.WellFormed()
    && (forall s :: t.LowerUnicode(s) == Lower(lower, s))
    && (forall s :: var lo := Lower(lower, s);
          if HasPartners(lower, extra, lo) then ListsPartners(t.LiteralPartners(s), lower, extra, lo)
          else t.LiteralPartners(s) == [])
  }

  // ---------- the same, said of Unicode scalars ----------

  ghost predicate LowersInto(lower: LowerMap, extra: ExtraCases, lo: int, c: Utf8.Scalar) {
    lower(Utf8.CodePoint(c)) == lo || (lo in extra && lower(Utf8.CodePoint(c)) in extra[lo])
  }

  /** Some scalar lowers to `lo` and is not itself `lo`, or `lo` has extra cases. */
  ghost predicate HasOthers(lower: LowerMap, extra: ExtraCases, lo: int) {
    lo in extra || exists c: Utf8.Scalar :: Utf8.CodePoint(c) != lo && lower(Utf8.CodePoint(c)) == lo
  }

  /** `lo`, its extra cases, and every scalar that lowers to one of these. */
  ghost predicate BelongsTo(lower: LowerMap, extra: ExtraCases, lo: int, x: int) {
    x == lo || (lo in extra && x in extra[lo]) || exists c: Utf8.Scalar :: Utf8.CodePoint(c) == x && LowersInto(lower, extra, lo, c)
  }

  /** Both lookups answer for every scalar as the map and the relation do, and leave every other number alone. */
  ghost predicate ServesScalars(t: Tables, lower: LowerMap, extra: ExtraCases) {
    && t.WellFormed()
    && (forall c: Utf8.Scalar :: t.LowerUnicode(Utf8.CodePoint(c)) == lower(Utf8.CodePoint(c)))
    && (forall s: int :: !Utf8.IsCodePoint(s) ==> t.LowerUnicode(s) == s)
    && (forall s: int :: StrictlySorted(t.LiteralPartners(s)))
    && (forall s: int, x: int :: x in t.LiteralPartners(s) <==>
          HasOthers(lower, extra, t.LowerUnicode(s)) && BelongsTo(lower, extra, t.LowerUnicode(s), x))
  }

  lemma ScalarsAreCodePoints(s: int)
    ensures IsScalar(s) <==> Utf8.IsCodePoint(s)
  {
    if IsScalar(s) {
      var c: Utf8.Scalar := s;
      assert Utf8.CodePoint(c) == s;
    }
  }

  lemma PartnersBelong(lower: LowerMap, extra: ExtraCases, lo: int, x: int)
    ensures IsPartner(lower, extra, lo, x) <==> BelongsTo(lower, extra, lo, x)
  {
    if IsScalar(x) {
      var c: Utf8.Scalar := x;
      assert Utf8.CodePoint(c) == x;
    }
  }

  lemma OthersArePartners(lower: LowerMap, extra: ExtraCases, lo: int)
    ensures HasPartners(lower, extra, lo) <==> HasOthers(lower, extra, lo)
  {
    if c :| IsScalar(c) && c != lo && lower(c) == lo {
      var d: Utf8.Scalar := c;
      assert Utf8.CodePoint(d) == c;
    }
    if c: Utf8.Scalar :| Utf8.CodePoint(c) != lo && lower(Utf8.CodePoint(c)) == lo {
      assert IsScalar(Utf8.CodePoint(c));
    }
  }

  lemma RepresentsScalars(t: Tables, lower: LowerMap, extra: ExtraCases)
    requires Represents(t, lower, extra)
    ensures ServesScalars(t, lower, extra)
  {
    hide IsPartner, BelongsTo, HasPartners, HasOthers, Utf8.IsCodePoint, IsScalar;
    forall c: Utf8.Scalar ensures t.LowerUnicode(Utf8.CodePoint(c)) == lower(Utf8.CodePoint(c)) {
      assert Utf8.IsCodePoint(Utf8.CodePoint(c)) by { Utf8.CodePointIs(c); }
      ScalarsAreCodePoints(Utf8.CodePoint(c));
    }
    forall s: int | !Utf8.IsCodePoint(s) ensures t.LowerUnicode(s) == s {
      ScalarsAreCodePoints(s);
    }
    forall s: int
      ensures StrictlySorted(t.LiteralPartners(s))
      ensures forall x :: x in t.LiteralPartners(s) <==>
                HasOthers(lower, extra, t.LowerUnicode(s)) && BelongsTo(lower, extra, t.LowerUnicode(s), x)
    {
      var lo := t.LowerUnicode(s);
      OthersArePartners(lower, extra, lo);
      forall x ensures IsPartner(lower, extra, lo, x) <==> BelongsTo(lower, extra, lo, x) {
        PartnersBelong(lower, extra, lo, x);
      }
    }
  }

  ghost predicate IsPool(groups: seq<seq<int>>, keys: seq<int>, lower: LowerMap, extra: ExtraCases) {
    |groups| == |keys| && forall i :: 0 <= i < |keys| ==> ListsPartners(groups[i], lower, extra, keys[i])
  }

  /** The compiler: every lookup in its tables answers as the map and the relation do. */
  method Compile(lower: LowerMap, extra: ExtraCases) returns (t: Tables, ghost groups: seq<seq<int>>)
    ensures Represents(t, lower, extra)
    ensures ServesScalars(t, lower, extra)
    ensures IsPool(groups, t.partnerKeys, lower, extra)
    ensures t.partners == Flatten(FirstAppearances(groups))
    ensures forall lo :: lo in t.partnerKeys <==> HasPartners(lower, extra, lo)
  {
    hide ChangedBelow, Inverts, IsGroup, ListsPartners, Represents, FirstAppearances, Flatten, HasPartners, SliceIs, ServesScalars;
    var pairs := LowerPairs(lower);
    var inverse := Invert(pairs);
    var table := BuildGroups(inverse, extra);
    var keys := Ascending(table.Keys);
    KeysHavePartners(lower, extra, pairs, inverse, keys);
    var lists: seq<seq<int>> := [];
    for n := 0 to |keys|
      invariant |lists| == n
      invariant forall i :: 0 <= i < n ==> ListsPartners(lists[i], lower, extra, keys[i])
    {
      var lo := keys[n];
      assert lo in keys;
      GroupListsPartners(lower, extra, pairs, inverse, lo, table[lo]);
      lists := lists + [table[lo]];
    }
    var flat, offsets, lengths := SharePool(lists);
    t := Tables(Keys(pairs), Values(pairs), keys, offsets, lengths, flat);
    groups := lists;
    TablesRepresent(t, lower, extra, pairs, lists);
    RepresentsScalars(t, lower, extra);
  }

  lemma KeysHavePartners(lower: LowerMap, extra: ExtraCases, pairs: Pairs, inverse: map<int, set<int>>, keys: seq<int>)
    requires ChangedBelow(pairs, lower, 0x11_0000) && Inverts(inverse, pairs)
    requires forall lo :: lo in keys <==> lo in inverse.Keys + extra.Keys
    ensures forall lo :: lo in keys <==> HasPartners(lower, extra, lo)
  {
    hide ChangedBelow, Inverts;
    forall lo ensures lo in keys <==> HasPartners(lower, extra, lo) {
      FamilyOfInverse(lower, pairs, inverse, lo);
    }
  }

  lemma TablesRepresent(t: Tables, lower: LowerMap, extra: ExtraCases, pairs: Pairs, lists: seq<seq<int>>)
    requires ChangedBelow(pairs, lower, 0x11_0000) && t.lowerKeys == Keys(pairs) && t.lowerValues == Values(pairs)
    requires StrictlySorted(t.partnerKeys) && |t.partnerOffsets| == |t.partnerLengths| == |t.partnerKeys|
    requires IsPool(lists, t.partnerKeys, lower, extra)
    requires forall i :: 0 <= i < |lists| ==> SliceIs(t.partners, t.partnerOffsets[i], t.partnerLengths[i], lists[i])
    requires forall lo :: lo in t.partnerKeys <==> HasPartners(lower, extra, lo)
    ensures Represents(t, lower, extra)
  {
    hide ListsPartners, HasPartners;
    assert t.WellFormed();
    forall s ensures t.LowerUnicode(s) == Lower(lower, s) {
      LookupLower(t, lower, pairs, s);
    }
  }

  lemma LookupLower(t: Tables, lower: LowerMap, pairs: Pairs, s: int)
    requires t.WellFormed() && ChangedBelow(pairs, lower, 0x11_0000)
    requires t.lowerKeys == Keys(pairs) && t.lowerValues == Values(pairs)
    ensures t.LowerUnicode(s) == Lower(lower, s)
  {
    if IsScalar(s) && lower(s) != s {
      assert (s, lower(s)) in pairs;
      var i :| 0 <= i < |pairs| && pairs[i] == (s, lower(s));
      var key := t.lowerKeys[i];
      assert key in t.lowerKeys;
    }
  }

  // ---------- what follows for the lookups ----------

  /** The lookup is empty only for a scalar that stands alone. */
  lemma EmptyIffAlone(t: Tables, lower: LowerMap, extra: ExtraCases, s: int)
    requires Represents(t, lower, extra)
    ensures t.LiteralPartners(s) == [] <==>
            (Lower(lower, s) == s && s !in extra && forall c :: IsScalar(c) && c != s ==> lower(c) != s)
  {
    var lo := Lower(lower, s);
    if HasPartners(lower, extra, lo) {
      assert IsPartner(lower, extra, lo, lo);
      assert lo in t.LiteralPartners(s);
    }
  }

  /** Lowercasing is idempotent and the extra cases form an equivalence on lowercase scalars. */
  ghost predicate Coherent(lower: LowerMap, extra: ExtraCases) {
    && (forall s :: Lower(lower, Lower(lower, s)) == Lower(lower, s))
    && (forall a :: a in extra ==> Lower(lower, a) == a)
    && (forall a, b :: a in extra && b in extra[a] ==> Lower(lower, b) == b && Related(extra, b, a))
    && (forall a, b, c :: Related(extra, a, b) && Related(extra, b, c) ==> Related(extra, a, c))
  }

  lemma RelatedIsEquivalence(lower: LowerMap, extra: ExtraCases, a: int, b: int)
    requires Coherent(lower, extra) && Related(extra, a, b)
    ensures Related(extra, b, a)
    ensures forall x :: Related(extra, a, x) <==> Related(extra, b, x)
    ensures Lower(lower, a) == a ==> Lower(lower, b) == b
  {
  }

  /** A partner of `lo` has a lowercase related to `lo`. */
  lemma PartnerLowersInto(lower: LowerMap, extra: ExtraCases, lo: int, x: int)
    requires Coherent(lower, extra) && Lower(lower, lo) == lo
    ensures IsPartner(lower, extra, lo, x) <==> Related(extra, lo, Lower(lower, x))
  {
    hide Coherent;
    if Related(extra, lo, x) {
      RelatedIsEquivalence(lower, extra, lo, x);
    }
  }

  /** Two partner sets are the same set or have no member in common. */
  lemma ClassesPartition(lower: LowerMap, extra: ExtraCases, s: int, t: int, x: int)
    requires Coherent(lower, extra)
    requires IsPartner(lower, extra, Lower(lower, s), x) && IsPartner(lower, extra, Lower(lower, t), x)
    ensures forall y :: IsPartner(lower, extra, Lower(lower, s), y) <==> IsPartner(lower, extra, Lower(lower, t), y)
    ensures IsPartner(lower, extra, Lower(lower, s), s)
  {
    var a, b, m := Lower(lower, s), Lower(lower, t), Lower(lower, x);
    assert Lower(lower, a) == a && Lower(lower, b) == b;
    hide Coherent, IsPartner, Lower;
    PartnerLowersInto(lower, extra, a, x);
    PartnerLowersInto(lower, extra, b, x);
    PartnerLowersInto(lower, extra, a, s);
    RelatedIsEquivalence(lower, extra, a, m);
    RelatedIsEquivalence(lower, extra, b, m);
    forall y ensures IsPartner(lower, extra, a, y) <==> IsPartner(lower, extra, b, y) {
      PartnerLowersInto(lower, extra, a, y);
      PartnerLowersInto(lower, extra, b, y);
    }
  }

  // ---------- no scalar is stored twice ----------

  predicate NoDuplicates(s: seq<int>) {
    forall i, j :: 0 <= i < j < |s| ==> s[i] != s[j]
  }

  predicate Disjoint(a: seq<int>, b: seq<int>) {
    forall x :: x in a ==> x !in b
  }

  lemma {:induction false} FlattenMember(groups: seq<seq<int>>, x: int)
    requires x in Flatten(groups)
    ensures exists i :: 0 <= i < |groups| && x in groups[i]
  {
    var n := |groups| - 1;
    if x in groups[n] {
    } else {
      FlattenMember(groups[..n], x);
      var i :| 0 <= i < n && x in groups[..n][i];
      assert x in groups[i];
    }
  }

  lemma {:induction false} FlattenDisjoint(groups: seq<seq<int>>)
    requires forall i :: 0 <= i < |groups| ==> StrictlySorted(groups[i])
    requires forall i, j :: 0 <= i < j < |groups| ==> Disjoint(groups[i], groups[j])
    ensures NoDuplicates(Flatten(groups))
  {
    if groups == [] {
    } else {
      var n := |groups| - 1;
      FlattenDisjoint(groups[..n]);
      forall x | x in Flatten(groups[..n]) ensures x !in groups[n] {
        FlattenMember(groups[..n], x);
        var i :| 0 <= i < n && x in groups[..n][i];
        assert Disjoint(groups[i], groups[n]);
      }
      JoinDisjoint(Flatten(groups[..n]), groups[n]);
    }
  }

  lemma JoinDisjoint(a: seq<int>, b: seq<int>)
    requires NoDuplicates(a) && StrictlySorted(b) && forall x :: x in a ==> x !in b
    ensures NoDuplicates(a + b)
  {
    forall i, j | 0 <= i < j < |a + b| ensures (a + b)[i] != (a + b)[j] {
      if i < |a| <= j {
        var x := a[i];
        assert x in a;
      }
    }
  }

  /** Distinct groups of coherent tables have no scalar in common. */
  lemma DistinctGroupsAreDisjoint(lower: LowerMap, extra: ExtraCases, k: int, l: int, g: seq<int>, h: seq<int>)
    requires Coherent(lower, extra) && Lower(lower, k) == k && Lower(lower, l) == l
    requires ListsPartners(g, lower, extra, k) && ListsPartners(h, lower, extra, l) && g != h
    ensures Disjoint(g, h)
  {
    hide Coherent, IsPartner, Lower;
    forall x | x in g ensures x !in h {
      if x in h {
        ClassesPartition(lower, extra, k, l, x);
        SortedListIsUnique(g, h);
      }
    }
  }

  lemma KeysAreLowercase(lower: LowerMap, extra: ExtraCases, lo: int)
    requires Coherent(lower, extra) && HasPartners(lower, extra, lo)
    ensures Lower(lower, lo) == lo
  {
    if lo !in extra {
      var c :| IsScalar(c) && c != lo && lower(c) == lo;
      assert Lower(lower, Lower(lower, c)) == Lower(lower, c);
    }
  }

  /** In the pool of coherent tables every scalar is stored exactly once. */
  lemma PoolHoldsEachScalarOnce(lower: LowerMap, extra: ExtraCases, keys: seq<int>, groups: seq<seq<int>>)
    requires Coherent(lower, extra) && IsPool(groups, keys, lower, extra)
    requires forall lo :: lo in keys ==> HasPartners(lower, extra, lo)
    ensures NoDuplicates(Flatten(FirstAppearances(groups)))
  {
    hide Coherent, HasPartners, Disjoint, FirstAppearances, Flatten;
    var distinct := FirstAppearances(groups);
    FirstAppearancesKeepEachOnce(groups);
    forall i | 0 <= i < |distinct| ensures StrictlySorted(distinct[i]) {
      var g := distinct[i];
      assert g in distinct;
    }
    forall i, j | 0 <= i < j < |distinct| ensures Disjoint(distinct[i], distinct[j]) {
      var g, h := distinct[i], distinct[j];
      assert g in distinct && h in distinct;
      var k :| 0 <= k < |groups| && groups[k] == g;
      var l :| 0 <= l < |groups| && groups[l] == h;
      var a, b := keys[k], keys[l];
      assert a in keys && b in keys;
      KeysAreLowercase(lower, extra, a);
      KeysAreLowercase(lower, extra, b);
      DistinctGroupsAreDisjoint(lower, extra, a, b, g, h);
    }
    FlattenDisjoint(distinct);
  }
}
