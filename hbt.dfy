/**
 * HBT (Hanbury Brown and Twiss) coherence analysis: the restriction of the
 * sheet to one (current, duration) category, exactly-one-row lookups by
 * measurement name, the g2 and heralded g2 formulas over nominal values, and
 * the driver that visits every category once and records its results.
 */
module Hbt {
  import opened Wrappers
  import opened Select
  import opened Uncertain

  /** One row of the sheet: pump current, duration in seconds, measurement name, mean value, deviation. */
  datatype Row = Row(current: real, duration: real, name: string, value: real, error: real)

  type Table = seq<Row>

  datatype Error =
    | LookupFailed(name: string) // ValueError: not exactly one row with that measurement name
    | ZeroDivision               // ZeroDivisionError in a quotient

  datatype Category = Category(current: real, duration: real)

  /** The nominal part of one record appended by the driver loop. */
  datatype Measurement = Measurement(current: real, duration: real, g2: real, gh2: real)

  predicate InCategory(row: Row, current: real, duration: real) {
    row.current == current && row.duration == duration
  }

  /** Membership of a row in a category, as a filter mask. */
  function CategoryMask(current: real, duration: real): Row -> bool {
    (row: Row) => InCategory(row, current, duration)
  }

  /** Selection of the rows with a given measurement name, as a filter mask. */
  function NameMask(name: string): Row -> bool {
    (row: Row) => row.name == name
  }

  /** The rows of one (current, duration) category, in table order. */
  function Restrict(t: Table, current: real, duration: real): (r: Table)
    ensures forall i :: 0 <= i < |r| ==> InCategory(r[i], current, duration)
    ensures forall i :: 0 <= i < |t| && InCategory(t[i], current, duration) ==> t[i] in r
  {
    Filter(t, CategoryMask(current, duration))
  }

  /**
   * Row `i` is the only row of `t` named `name`. This is `Select.ExactlyAt`
   * for `NameMask(name)`, spelled out so that the contracts below say it
   * without a function value.
   */
  ghost predicate OnlyNamed(t: Table, name: string, i: int) {
    && 0 <= i < |t|
    && t[i].name == name
    && forall j :: 0 <= j < |t| && j != i ==> t[j].name != name
  }

  /** The reading of the one row named `name`; fails on zero or several such rows. */
  function CValue(t: Table, name: string): (r: Result<Reading, Error>)
    ensures r.Ok? <==> exists i :: OnlyNamed(t, name, i)
    ensures forall i :: OnlyNamed(t, name, i) ==> r == Ok(Reading(t[i].value, t[i].error))
    ensures r.Err? ==> r.error == LookupFailed(name)
  {
    var p := NameMask(name);
    assert forall i :: OnlyNamed(t, name, i) <==> ExactlyAt(t, p, i);
    match TheOnly(t, p)
    case Some(row) => Ok(Reading(row.value, row.error))
    case None => Err(LookupFailed(name))
  }

  /** Row `i` is the only row of the whole table in the category with that name. */
  ghost predicate OnlyRow(t: Table, current: real, duration: real, name: string, i: int) {
    && 0 <= i < |t|
    && InCategory(t[i], current, duration) && t[i].name == name
    && forall j :: 0 <= j < |t| && j != i ==> !(InCategory(t[j], current, duration) && t[j].name == name)
  }

  /** A lookup in the restricted sheet is an exactly-one lookup of (current, duration, name) in the whole sheet. */
  lemma LookupInCategory(t: Table, current: real, duration: real, name: string)
    ensures CValue(Restrict(t, current, duration), name).Ok? <==> exists i :: OnlyRow(t, current, duration, name, i)
    ensures forall i :: OnlyRow(t, current, duration, name, i) ==>
      CValue(Restrict(t, current, duration), name) == Ok(Reading(t[i].value, t[i].error))
  {
    var p := CategoryMask(current, duration);
    var q := NameMask(name);
    var pq := (row: Row) => InCategory(row, current, duration) && row.name == name;
    FilterOfFilter(t, p, q, pq);
    FilterSingleton(t, pq);
    var sub := Restrict(t, current, duration);
    FilterSingleton(sub, q);
    assert forall i :: OnlyRow(t, current, duration, name, i) <==> ExactlyAt(t, pq, i);
    assert forall i :: OnlyNamed(sub, name, i) <==> ExactlyAt(sub, q, i);
  }

  /** Division of nominal values, which raises on a zero divisor. */
  function Quotient(numerator: real, denominator: real): (r: Result<real, Error>)
    ensures r.Err? <==> denominator == 0.0
    ensures r.Err? ==> r.error == ZeroDivision
    ensures r.Ok? ==> r.value * denominator == numerator
  {
    if denominator == 0.0 then Err(ZeroDivision) else Ok(numerator / denominator)
  }

  /** g2 from singles counts N1, N2 and coincidence count N12 over `duration` seconds. */
  function G2Formula(n1: real, n2: real, n12: real, duration: real): Result<real, Error> {
    Quotient(n12, n1 * n2 * duration)
  }

  /** Heralded g2 from herald count N0, twofold counts N01, N02 and threefold count N012. */
  function GH2Formula(n0: real, n01: real, n02: real, n012: real): Result<real, Error> {
    Quotient(n0 * n012, n01 * n02)
  }

  /** Second-order coherence g2 = N12 / (N1 * N2 * duration) of a category, nominal part. */
  function G2(t: Table, current: real, duration: real): (r: Result<real, Error>)
    ensures r.Err? ==>
      || r.error == LookupFailed("N1") || r.error == LookupFailed("N2") || r.error == LookupFailed("N12") || r.error == ZeroDivision
  {
    G2Of(Restrict(t, current, duration), duration)
  }

  /** The g2 formula over the rows `sub` of one category. */
  function G2Of(sub: Table, duration: real): Result<real, Error> {
    var n1 :- CValue(sub, "N1");
    var n2 :- CValue(sub, "N2");
    var n12 :- CValue(sub, "N12");
    G2Formula(n1.nominal, n2.nominal, n12.nominal, duration)
  }

  /** Heralded coherence g2h = (N0 * N012) / (N01 * N02) of a category, nominal part. */
  function GH2(t: Table, current: real, duration: real): (r: Result<real, Error>)
    ensures r.Err? ==>
      || r.error == LookupFailed("N0") || r.error == LookupFailed("N01") || r.error == LookupFailed("N02")
      || r.error == LookupFailed("N012") || r.error == ZeroDivision
  {
    GH2Of(Restrict(t, current, duration))
  }

  /** The g2h formula over the rows `sub` of one category. */
  function GH2Of(sub: Table): Result<real, Error> {
    var n0 :- CValue(sub, "N0");
    var n01 :- CValue(sub, "N01");
    var n02 :- CValue(sub, "N02");
    var n012 :- CValue(sub, "N012");
    GH2Formula(n0.nominal, n01.nominal, n02.nominal, n012.nominal)
  }

  /** g2 from the three rows it needs, when each is present exactly once in the category. */
  lemma G2FromRows(t: Table, current: real, duration: real, i1: int, i2: int, i12: int)
    requires OnlyRow(t, current, duration, "N1", i1)
    requires OnlyRow(t, current, duration, "N2", i2)
    requires OnlyRow(t, current, duration, "N12", i12)
    ensures G2(t, current, duration) == G2Formula(t[i1].value, t[i2].value, t[i12].value, duration)
  {
    LookupInCategory(t, current, duration, "N1");
    LookupInCategory(t, current, duration, "N2");
    LookupInCategory(t, current, duration, "N12");
  }

  /** g2 fails naming the first of N1, N2, N12 that is missing or repeated in the category. */
  lemma G2MissingRow(t: Table, current: real, duration: real)
    ensures (!exists i :: OnlyRow(t, current, duration, "N1", i)) ==>
      G2(t, current, duration) == Err(LookupFailed("N1"))
    ensures (exists i :: OnlyRow(t, current, duration, "N1", i)) &&
            (!exists i :: OnlyRow(t, current, duration, "N2", i)) ==>
      G2(t, current, duration) == Err(LookupFailed("N2"))
    ensures (exists i :: OnlyRow(t, current, duration, "N1", i)) &&
            (exists i :: OnlyRow(t, current, duration, "N2", i)) &&
            (!exists i :: OnlyRow(t, current, duration, "N12", i)) ==>
      G2(t, current, duration) == Err(LookupFailed("N12"))
  {
    LookupInCategory(t, current, duration, "N1");
    LookupInCategory(t, current, duration, "N2");
    LookupInCategory(t, current, duration, "N12");
  }

  /** g2h from the four rows it needs, when each is present exactly once in the category. */
  lemma GH2FromRows(t: Table, current: real, duration: real, i0: int, i01: int, i02: int, i012: int)
    requires OnlyRow(t, current, duration, "N0", i0)
    requires OnlyRow(t, current, duration, "N01", i01)
    requires OnlyRow(t, current, duration, "N02", i02)
    requires OnlyRow(t, current, duration, "N012", i012)
    ensures GH2(t, current, duration) == GH2Formula(t[i0].value, t[i01].value, t[i02].value, t[i012].value)
  {
    LookupInCategory(t, current, duration, "N0");
    LookupInCategory(t, current, duration, "N01");
    LookupInCategory(t, current, duration, "N02");
    LookupInCategory(t, current, duration, "N012");
  }

  /** g2h fails naming the first of N0, N01, N02, N012 that is missing or repeated in the category. */
  lemma GH2MissingRow(t: Table, current: real, duration: real)
    ensures (!exists i :: OnlyRow(t, current, duration, "N0", i)) ==>
      GH2(t, current, duration) == Err(LookupFailed("N0"))
    ensures (exists i :: OnlyRow(t, current, duration, "N0", i)) &&
            (!exists i :: OnlyRow(t, current, duration, "N01", i)) ==>
      GH2(t, current, duration) == Err(LookupFailed("N01"))
    ensures (exists i :: OnlyRow(t, current, duration, "N0", i)) &&
            (exists i :: OnlyRow(t, current, duration, "N01", i)) &&
            (!exists i :: OnlyRow(t, current, duration, "N02", i)) ==>
      GH2(t, current, duration) == Err(LookupFailed("N02"))
    ensures (exists i :: OnlyRow(t, current, duration, "N0", i)) &&
            (exists i :: OnlyRow(t, current, duration, "N01", i)) &&
            (exists i :: OnlyRow(t, current, duration, "N02", i)) &&
            (!exists i :: OnlyRow(t, current, duration, "N012", i)) ==>
      GH2(t, current, duration) == Err(LookupFailed("N012"))
  {
    LookupInCategory(t, current, duration, "N0");
    LookupInCategory(t, current, duration, "N01");
    LookupInCategory(t, current, duration, "N02");
    LookupInCategory(t, current, duration, "N012");
  }

  /**
   * A row of another category, wherever it is inserted, changes neither g2
   * nor g2h; so adding, removing or editing such rows never does.
   */
  lemma OtherCategoryIgnored(a: Table, x: Row, b: Table, current: real, duration: real)
    requires !InCategory(x, current, duration)
    ensures G2(a + [x] + b, current, duration) == G2(a + b, current, duration)
    ensures GH2(a + [x] + b, current, duration) == GH2(a + b, current, duration)
  {
    RestrictIgnoresOtherRow(a, x, b, current, duration);
  }

  lemma RestrictIgnoresOtherRow(a: Table, x: Row, b: Table, current: real, duration: real)
    requires !InCategory(x, current, duration)
    ensures Restrict(a + [x] + b, current, duration) == Restrict(a + b, current, duration)
  {
    var p := CategoryMask(current, duration);
    assert [x][1..] == [];
    assert Filter([x], p) == [];
    FilterConcat(a, [x], p);
    assert Filter(a + [x], p) == Filter(a, p);
    FilterConcat(a + [x], b, p);
    FilterConcat(a, b, p);
  }

  /** The record of one category; the percentage errors divide by g2 and g2h. */
  function Measure(t: Table, k: Category): (r: Result<Measurement, Error>)
    ensures r.Ok? <==>
      && G2(t, k.current, k.duration).Ok? && G2(t, k.current, k.duration).value != 0.0
      && GH2(t, k.current, k.duration).Ok? && GH2(t, k.current, k.duration).value != 0.0
    ensures r.Ok? ==>
      && r.value.current == k.current && r.value.duration == k.duration
      && G2(t, k.current, k.duration) == Ok(r.value.g2)
      && GH2(t, k.current, k.duration) == Ok(r.value.gh2)
    ensures r.Err? ==>
      r.error == if G2(t, k.current, k.duration).Err? then G2(t, k.current, k.duration).error
                 else if GH2(t, k.current, k.duration).Err? then GH2(t, k.current, k.duration).error
                 else ZeroDivision
  {
    var g2 :- G2(t, k.current, k.duration);
    var gh2 :- GH2(t, k.current, k.duration);
    if g2 == 0.0 || gh2 == 0.0 then Err(ZeroDivision)
    else Ok(Measurement(k.current, k.duration, g2, gh2))
  }

  /** The current column, in table order. */
  function Currents(t: Table): (r: seq<real>)
    ensures |r| == |t|
    ensures forall i :: 0 <= i < |t| ==> r[i] == t[i].current
  {
    seq(|t|, i requires 0 <= i < |t| => t[i].current)
  }

  /** The duration column of the rows with the given current, in table order. */
  function DurationsOf(t: Table, current: real): seq<real> {
    var rows := Filter(t, (row: Row) => row.current == current);
    seq(|rows|, i requires 0 <= i < |rows| => rows[i].duration)
  }

  /** A duration is listed for a current iff some row has both. */
  lemma DurationsOfMembers(t: Table, current: real, duration: real)
    ensures duration in DurationsOf(t, current) <==> exists i :: 0 <= i < |t| && InCategory(t[i], current, duration)
  {
    var rows := Filter(t, (row: Row) => row.current == current);
    var r := DurationsOf(t, current);
    if duration in r {
      var k :| 0 <= k < |r| && r[k] == duration;
      assert rows[k] in t;
      var i :| 0 <= i < |t| && t[i] == rows[k];
      assert InCategory(t[i], current, duration);
    }
    if exists i :: 0 <= i < |t| && InCategory(t[i], current, duration) {
      var i :| 0 <= i < |t| && InCategory(t[i], current, duration);
      assert t[i] in rows;
      var k :| 0 <= k < |rows| && rows[k] == t[i];
      assert r[k] == duration;
    }
  }

  /** The categories of one current, durations in first-appearance order. */
  function CategoriesOf(t: Table, current: real): (r: seq<Category>)
    ensures |r| == |Distinct(DurationsOf(t, current))|
    ensures forall k :: 0 <= k < |r| ==> r[k] == Category(current, Distinct(DurationsOf(t, current))[k])
  {
    var durations := Distinct(DurationsOf(t, current));
    seq(|durations|, k requires 0 <= k < |durations| => Category(current, durations[k]))
  }

  /** The categories of the given currents, current by current. */
  function CategoriesFrom(t: Table, currents: seq<real>): seq<Category>
    decreases |currents|
  {
    if currents == [] then []
    else CategoriesFrom(t, currents[..|currents| - 1]) + CategoriesOf(t, currents[|currents| - 1])
  }

  /** Every category in the order the driver's nested loops visit them. */
  function Categories(t: Table): (r: seq<Category>)
    ensures forall k :: k in r ==> exists i :: 0 <= i < |t| && InCategory(t[i], k.current, k.duration)
  {
    CategoriesFromSound(t, Distinct(Currents(t)));
    CategoriesFrom(t, Distinct(Currents(t)))
  }

  lemma {:induction false} CategoriesFromPrefix(t: Table, currents: seq<real>, n: nat)
    requires n <= |currents|
    ensures CategoriesFrom(t, currents[..n]) <= CategoriesFrom(t, currents)
    decreases |currents|
  {
    if n < |currents| {
      var init := currents[..|currents| - 1];
      assert init[..n] == currents[..n];
      CategoriesFromPrefix(t, init, n);
    } else {
      assert currents[..n] == currents;
    }
  }

  lemma {:induction false} CategoriesFromMembers(t: Table, currents: seq<real>, k: Category)
    ensures k in CategoriesFrom(t, currents) <==> k.current in currents && k.duration in DurationsOf(t, k.current)
    decreases |currents|
  {
    if currents != [] {
      var init, last := currents[..|currents| - 1], currents[|currents| - 1];
      assert currents == init + [last];
      CategoriesFromMembers(t, init, k);
      var ds := Distinct(DurationsOf(t, last));
      if k in CategoriesOf(t, last) {
        var j :| 0 <= j < |CategoriesOf(t, last)| && CategoriesOf(t, last)[j] == k;
        assert ds[j] in DurationsOf(t, last);
      }
      if k.current == last && k.duration in DurationsOf(t, last) {
        var j :| 0 <= j < |DurationsOf(t, last)| && DurationsOf(t, last)[j] == k.duration;
        var m :| 0 <= m < |ds| && ds[m] == k.duration;
        assert CategoriesOf(t, last)[m] == k;
      }
    }
  }

  lemma CategoriesFromSound(t: Table, currents: seq<real>)
    ensures forall k :: k in CategoriesFrom(t, currents) ==> exists i :: 0 <= i < |t| && InCategory(t[i], k.current, k.duration)
  {
    forall k | k in CategoriesFrom(t, currents)
      ensures exists i :: 0 <= i < |t| && InCategory(t[i], k.current, k.duration)
    {
      CategoriesFromMembers(t, currents, k);
      DurationsOfMembers(t, k.current, k.duration);
    }
  }

  /** A category is visited iff some row of the table has that current and duration. */
  lemma CategoriesCover(t: Table, k: Category)
    ensures k in Categories(t) <==> exists i :: 0 <= i < |t| && InCategory(t[i], k.current, k.duration)
  {
    var currents := Distinct(Currents(t));
    CategoriesFromMembers(t, currents, k);
    DurationsOfMembers(t, k.current, k.duration);
    if k in Categories(t) {
      var j :| 0 <= j < |currents| && currents[j] == k.current;
    }
    if exists i :: 0 <= i < |t| && InCategory(t[i], k.current, k.duration) {
      var i :| 0 <= i < |t| && InCategory(t[i], k.current, k.duration);
      assert Currents(t)[i] == k.current;
    }
  }

  lemma {:induction false} CategoriesFromNoDuplicates(t: Table, currents: seq<real>)
    requires NoDuplicates(currents)
    ensures NoDuplicates(CategoriesFrom(t, currents))
    decreases |currents|
  {
    if currents != [] {
      var init, last := currents[..|currents| - 1], currents[|currents| - 1];
      assert currents == init + [last];
      CategoriesFromNoDuplicates(t, init);
      var before, here := CategoriesFrom(t, init), CategoriesOf(t, last);
      var all := before + here;
      forall i, j | 0 <= i < j < |all| ensures all[i] != all[j] {
        if j >= |before| {
          if i < |before| {
            CategoriesFromMembers(t, init, all[i]);
            assert all[i].current in init;
            assert all[j].current == last;
          } else {
            assert all[i] == here[i - |before|] && all[j] == here[j - |before|];
          }
        }
      }
    }
  }

  /** No category is visited twice. */
  lemma CategoriesNoDuplicates(t: Table)
    ensures NoDuplicates(Categories(t))
  {
    CategoriesFromNoDuplicates(t, Distinct(Currents(t)));
  }

  /**
   * Category `a` comes before category `b` in a visit over the distinct
   * currents `currents`: by position of the current, then by position of the
   * duration among that current's distinct durations.
   */
  ghost predicate VisitedBefore(t: Table, currents: seq<real>, a: Category, b: Category) {
    && a.current in currents && b.current in currents
    && (|| FirstIndex(currents, a.current) < FirstIndex(currents, b.current)
        || (&& a.current == b.current
            && a.duration in Distinct(DurationsOf(t, a.current))
            && b.duration in Distinct(DurationsOf(t, a.current))
            && FirstIndex(Distinct(DurationsOf(t, a.current)), a.duration)
               < FirstIndex(Distinct(DurationsOf(t, a.current)), b.duration)))
  }

  lemma VisitedBeforeExtend(t: Table, currents: seq<real>, n: nat, a: Category, b: Category)
    requires n <= |currents|
    requires VisitedBefore(t, currents[..n], a, b)
    ensures VisitedBefore(t, currents, a, b)
  {
    assert a.current in currents && b.current in currents;
    FirstIndexOfPrefix(currents, n, a.current);
    FirstIndexOfPrefix(currents, n, b.current);
  }

  lemma {:induction false} CategoriesFromOrder(t: Table, currents: seq<real>, i: int, j: int)
    requires NoDuplicates(currents)
    requires 0 <= i < j < |CategoriesFrom(t, currents)|
    ensures VisitedBefore(t, currents, CategoriesFrom(t, currents)[i], CategoriesFrom(t, currents)[j])
    decreases |currents|
  {
    var n := |currents| - 1;
    var init, last := currents[..n], currents[n];
    var before, here := CategoriesFrom(t, init), CategoriesOf(t, last);
    assert CategoriesFrom(t, currents) == before + here;
    if j < |before| {
      CategoriesFromOrder(t, init, i, j);
      VisitedBeforeExtend(t, currents, n, before[i], before[j]);
    } else if i < |before| {
      CrossCurrentOrder(t, currents, before[i], here[j - |before|]);
    } else {
      SameCurrentOrder(t, currents, i - |before|, j - |before|);
    }
  }

  /** A category of an earlier current precedes every category of the last current. */
  lemma CrossCurrentOrder(t: Table, currents: seq<real>, a: Category, b: Category)
    requires NoDuplicates(currents) && |currents| > 0
    requires a in CategoriesFrom(t, currents[..|currents| - 1])
    requires b in CategoriesOf(t, currents[|currents| - 1])
    ensures VisitedBefore(t, currents, a, b)
  {
    var n := |currents| - 1;
    CategoriesFromMembers(t, currents[..n], a);
    FirstIndexOfPrefix(currents, n, a.current);
    assert currents[n] !in currents[..n];
    assert FirstIndex(currents, currents[n]) == n;
  }

  /** Within the last current, categories follow its distinct durations. */
  lemma SameCurrentOrder(t: Table, currents: seq<real>, i: int, j: int)
    requires NoDuplicates(currents) && |currents| > 0
    requires 0 <= i < j < |CategoriesOf(t, currents[|currents| - 1])|
    ensures VisitedBefore(t, currents, CategoriesOf(t, currents[|currents| - 1])[i],
                          CategoriesOf(t, currents[|currents| - 1])[j])
  {
    var last := currents[|currents| - 1];
    var ds := Distinct(DurationsOf(t, last));
    assert FirstIndex(ds, ds[i]) == i && FirstIndex(ds, ds[j]) == j;
  }

  /** Positions in a first-appearance listing follow first appearances in the original. */
  lemma DistinctIndexOrder(s: seq<real>, x: real, y: real)
    requires x in Distinct(s) && y in Distinct(s)
    requires FirstIndex(Distinct(s), x) < FirstIndex(Distinct(s), y)
    ensures x in s && y in s && FirstIndex(s, x) < FirstIndex(s, y)
  {
    DistinctOrder(s, FirstIndex(Distinct(s), x), FirstIndex(Distinct(s), y));
  }

  /**
   * The categories come current by current, currents in order of first
   * appearance in the table, and within a current by first appearance of
   * the duration among that current's rows.
   */
  lemma CategoriesOrder(t: Table, i: int, j: int)
    requires 0 <= i < j < |Categories(t)|
    ensures Categories(t)[i].current in Currents(t) && Categories(t)[j].current in Currents(t)
    ensures
      var a, b := Categories(t)[i], Categories(t)[j];
      || FirstIndex(Currents(t), a.current) < FirstIndex(Currents(t), b.current)
      || (&& a.current == b.current
          && a.duration in DurationsOf(t, a.current) && b.duration in DurationsOf(t, a.current)
          && FirstIndex(DurationsOf(t, a.current), a.duration) < FirstIndex(DurationsOf(t, a.current), b.duration))
  {
    var currents := Distinct(Currents(t));
    CategoriesFromOrder(t, currents, i, j);
    var a, b := Categories(t)[i], Categories(t)[j];
    if FirstIndex(currents, a.current) < FirstIndex(currents, b.current) {
      DistinctIndexOrder(Currents(t), a.current, b.current);
    } else {
      DistinctIndexOrder(DurationsOf(t, a.current), a.duration, b.duration);
    }
  }

  /** Where the `j`-th duration of the `i`-th current lands in the visit. */
  lemma VisitPosition(t: Table, currents: seq<real>, i: nat, j: nat)
    requires i < |currents| && j < |CategoriesOf(t, currents[i])|
    ensures |CategoriesFrom(t, currents[..i])| + j < |CategoriesFrom(t, currents)|
    ensures CategoriesFrom(t, currents)[|CategoriesFrom(t, currents[..i])| + j] == CategoriesOf(t, currents[i])[j]
  {
    assert currents[..i + 1][..i] == currents[..i];
    assert CategoriesFrom(t, currents[..i + 1]) == CategoriesFrom(t, currents[..i]) + CategoriesOf(t, currents[i]);
    CategoriesFromPrefix(t, currents, i + 1);
  }

  /** The categories of the first `i + 1` currents are those of the first `i` and then the `i`-th. */
  lemma VisitStep(t: Table, currents: seq<real>, i: nat)
    requires i < |currents|
    ensures |CategoriesFrom(t, currents[..i + 1])| == |CategoriesFrom(t, currents[..i])| + |Distinct(DurationsOf(t, currents[i]))|
    ensures |CategoriesFrom(t, currents[..i + 1])| <= |CategoriesFrom(t, currents)|
  {
    assert currents[..i + 1][..i] == currents[..i];
    CategoriesFromPrefix(t, currents, i + 1);
  }

  /**
   * Apply `f` to the first `n` elements in order and collect the results,
   * stopping at the first failure: the reference the driver loop is proved
   * against.
   */
  function RunAll<K, M, E>(f: K -> Result<M, E>, ks: seq<K>, n: nat): Result<seq<M>, E>
    requires n <= |ks|
  {
    if n == 0 then Ok([])
    else
      var done :- RunAll(f, ks, n - 1);
      var m :- f(ks[n - 1]);
      Ok(done + [m])
  }

  /**
   * The run succeeds iff every element does, and then holds their results
   * in order; otherwise it fails with the first failing element's error.
   */
  lemma {:induction false} RunAllMeaning<K, M, E>(f: K -> Result<M, E>, ks: seq<K>, n: nat)
    requires n <= |ks|
    ensures RunAll(f, ks, n).Ok? <==> forall k :: 0 <= k < n ==> f(ks[k]).Ok?
    ensures RunAll(f, ks, n).Ok? ==>
      |RunAll(f, ks, n).value| == n && forall k :: 0 <= k < n ==> f(ks[k]) == Ok(RunAll(f, ks, n).value[k])
    ensures RunAll(f, ks, n).Err? ==>
      exists k :: 0 <= k < n && f(ks[k]) == Err(RunAll(f, ks, n).error) && forall k' :: 0 <= k' < k ==> f(ks[k']).Ok?
  {
    if n > 0 {
      RunAllMeaning(f, ks, n - 1);
    }
  }

  /** Once the first `n` fail, every longer run fails with the same error. */
  lemma {:induction false} RunAllFailsEarly<K, M, E>(f: K -> Result<M, E>, ks: seq<K>, n: nat, m: nat)
    requires n <= m <= |ks| && RunAll(f, ks, n).Err?
    ensures RunAll(f, ks, m) == RunAll(f, ks, n)
    decreases m
  {
    if n < m {
      RunAllFailsEarly(f, ks, n, m - 1);
    }
  }

  /** `Measure` on the given table, as a function of the category alone. */
  function MeasureIn(t: Table): Category -> Result<Measurement, Error> {
    k => Measure(t, k)
  }

  /**
   * The driver's reference run succeeds iff every category measures, and then
   * holds one record per category in visit order, carrying that category's
   * current and duration and its g2 and g2h.
   */
  lemma RecordsFollowVisit(t: Table)
    ensures RunAll(MeasureIn(t), Categories(t), |Categories(t)|).Ok? <==>
      forall k :: 0 <= k < |Categories(t)| ==> Measure(t, Categories(t)[k]).Ok?
    ensures
      var cs, r := Categories(t), RunAll(MeasureIn(t), Categories(t), |Categories(t)|);
      r.Ok? ==> |r.value| == |cs| && forall k :: 0 <= k < |cs| ==>
        && r.value[k].current == cs[k].current && r.value[k].duration == cs[k].duration
        && G2(t, cs[k].current, cs[k].duration) == Ok(r.value[k].g2)
        && GH2(t, cs[k].current, cs[k].duration) == Ok(r.value[k].gh2)
  {
    RunAllMeaning(MeasureIn(t), Categories(t), |Categories(t)|);
  }

  /** From position `base` on, `all` lists `current` with each of `durations` in turn. */
  ghost predicate LaidOut(all: seq<Category>, base: nat, current: real, durations: seq<real>) {
    && base + |durations| <= |all|
    && forall j :: 0 <= j < |durations| ==> all[base + j] == Category(current, durations[j])
  }

  /**
   * The categories of the `i`-th current occupy the positions right after
   * those of the currents before it, in the order of its durations.
   */
  lemma VisitLayout(t: Table, currents: seq<real>, i: nat)
    requires i < |currents|
    ensures |CategoriesFrom(t, currents[..i])| + |Distinct(DurationsOf(t, currents[i]))| == |CategoriesFrom(t, currents[..i + 1])|
    ensures |CategoriesFrom(t, currents[..i + 1])| <= |CategoriesFrom(t, currents)|
    ensures LaidOut(CategoriesFrom(t, currents), |CategoriesFrom(t, currents[..i])|, currents[i], Distinct(DurationsOf(t, currents[i])))
  {
    VisitStep(t, currents, i);
    forall j | 0 <= j < |Distinct(DurationsOf(t, currents[i]))|
      ensures CategoriesFrom(t, currents)[|CategoriesFrom(t, currents[..i])| + j] == Category(currents[i], Distinct(DurationsOf(t, currents[i]))[j])
    {
      VisitPosition(t, currents, i, j);
    }
  }

  /**
   * The inner loop of the driver: measure `current` at each of `durations`,
   * which sit in the visit order `all` right after the categories already
   * measured, and append the records, or stop at the first failure.
   */
  method MeasureDurations(measure: Category -> Result<Measurement, Error>, ghost all: seq<Category>, current: real,
                        durations: seq<real>, measurements: seq<Measurement>)
      returns (r: Result<seq<Measurement>, Error>)
    requires LaidOut(all, |measurements|, current, durations)
    requires RunAll(measure, all, |measurements|) == Ok(measurements)
    ensures r.Ok? ==> |r.value| == |measurements| + |durations|
    ensures r.Ok? ==> RunAll(measure, all, |r.value|) == r
    ensures r.Err? ==> RunAll(measure, all, |all|) == r
  {
    var done := measurements;
    var j := 0;
    while j < |durations|
      invariant 0 <= j <= |durations|
      invariant |done| == |measurements| + j
      invariant RunAll(measure, all, |done|) == Ok(done)
    {
      var m := measure(Category(current, durations[j]));
      if m.Err? {
        RunAllFailsEarly(measure, all, |done| + 1, |all|);
        return Err(m.error);
      }
      done := done + [m.value];
      j := j + 1;
    }
    return Ok(done);
  }

  /** One pass of the outer loop: the records of the `i`-th current appended, or the first failure. */
  method MeasureCurrent(t: Table, currents: seq<real>, i: nat, measurements: seq<Measurement>)
      returns (r: Result<seq<Measurement>, Error>)
    requires i < |currents|
    requires |measurements| == |CategoriesFrom(t, currents[..i])| <= |CategoriesFrom(t, currents)|
    requires RunAll(MeasureIn(t), CategoriesFrom(t, currents), |measurements|) == Ok(measurements)
    ensures r.Ok? ==> |r.value| == |CategoriesFrom(t, currents[..i + 1])| <= |CategoriesFrom(t, currents)|
    ensures r.Ok? ==> RunAll(MeasureIn(t), CategoriesFrom(t, currents), |r.value|) == r
    ensures r.Err? ==> RunAll(MeasureIn(t), CategoriesFrom(t, currents), |CategoriesFrom(t, currents)|) == r
  {
    VisitLayout(t, currents, i);
    r := MeasureDurations(MeasureIn(t), CategoriesFrom(t, currents), currents[i], Distinct(DurationsOf(t, currents[i])), measurements);
  }

  /**
   * The driver: visit every category in order, current by current and
   * duration by duration, appending each record; the first failure aborts
   * the run.
   */
  method GCalc(t: Table) returns (r: Result<seq<Measurement>, Error>)
    ensures r == RunAll(MeasureIn(t), Categories(t), |Categories(t)|)
  {
    var currents := Distinct(Currents(t));
    ghost var all := CategoriesFrom(t, currents);
    var measurements: seq<Measurement> := [];
    var i := 0;
    while i < |currents|
      invariant 0 <= i <= |currents|
      invariant |measurements| == |CategoriesFrom(t, currents[..i])| <= |all|
      invariant RunAll(MeasureIn(t), all, |measurements|) == Ok(measurements)
    {
      var next := MeasureCurrent(t, currents, i, measurements);
      if next.Err? {
        return next;
      }
      measurements := next.value;
      i := i + 1;
    }
    assert currents[..i] == currents;
    return Ok(measurements);
  }
}
