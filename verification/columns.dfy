/**
 Columns and the column list (`column`, `columnList`).

 The source keeps the columns in a `std::map<corner, column>`. Its comparator is
 not a strict weak ordering, so the map's own tree behaviour is left aside: the
 list is modelled as an association list in insertion order in which a key is
 looked up by corner equivalence (neither key below the other) and the first
 equivalent entry wins.
 */
module Columns {
  import opened Tolerance
  import opened Corners

  datatype Option<T> = None | Some(value: T)

  /** The lowest and highest sampled height recorded for a column, and its element ids. */
  datatype Column = Column(lo: real, hi: real, elements: set<nat>)

  /** What `column()` default-constructs when `operator[]` meets a new key. */
  const EmptyColumn: Column := Column(0.0, 0.0, {})

  datatype Entry = Entry(key: Corner, col: Column)

  type ColumnList = seq<Entry>

  /** Two lists that hold the same keys in the same positions. */
  predicate SameKeys(a: ColumnList, b: ColumnList)
  {
    |a| == |b| && forall j :: 0 <= j < |a| ==> a[j].key == b[j].key
  }

  /** Position of the first entry at or after `from` whose key is equivalent to k. */
  function FindFrom(cols: ColumnList, k: Corner, from: nat): (r: Option<nat>)
    requires from <= |cols|
    ensures r.Some? ==> from <= r.value < |cols| && Equivalent(cols[r.value].key, k)
    ensures r.Some? ==> forall j :: from <= j < r.value ==> !Equivalent(cols[j].key, k)
    ensures r.None? ==> forall j :: from <= j < |cols| ==> !Equivalent(cols[j].key, k)
    decreases |cols| - from
  {
    if from == |cols| then None
    else if Equivalent(cols[from].key, k) then Some(from)
    else FindFrom(cols, k, from + 1)
  }

  /** The entry the map would find for key k. */
  function Find(cols: ColumnList, k: Corner): Option<nat>
  {
    FindFrom(cols, k, 0)
  }

  /** The column stored for key k, if any. */
  function Lookup(cols: ColumnList, k: Corner): Option<Column>
  {
    match Find(cols, k)
    case Some(i) => Some(cols[i].col)
    case None => None
  }

  /** Lookup depends on the keys only, never on the columns stored under them. */
  lemma FindFromSameKeys(a: ColumnList, b: ColumnList, k: Corner, from: nat)
    requires SameKeys(a, b) && from <= |a|
    ensures FindFrom(a, k, from) == FindFrom(b, k, from)
  {
  }

  /**
   `myCols[k]`: the position of k's entry, after inserting a default column at
   the end when no entry is equivalent to k.
   */
  function Subscript(cols: ColumnList, k: Corner): (ColumnList, nat)
  {
    match Find(cols, k)
    case Some(i) => (cols, i)
    case None => (cols + [Entry(k, EmptyColumn)], |cols|)
  }

  /** What `myCols[k]` resolves to, and that looking k up again finds the same entry. */
  lemma SubscriptSpec(cols: ColumnList, k: Corner)
    ensures var r := Subscript(cols, k);
            r.1 < |r.0| && Equivalent(r.0[r.1].key, k)
    ensures Find(cols, k).Some? ==> Subscript(cols, k) == (cols, Find(cols, k).value)
    ensures Find(cols, k).None? ==> Subscript(cols, k) == (cols + [Entry(k, EmptyColumn)], |cols|)
    ensures var r := Subscript(cols, k);
            Find(r.0, k) == Some(r.1)
  {
    if Find(cols, k).None? {
      var cols' := cols + [Entry(k, EmptyColumn)];
      assert Equivalent(cols'[|cols|].key, k) by { EquivalentIffEq(k, k); }
      assert forall j :: 0 <= j < |cols| ==> cols'[j] == cols[j];
    }
  }

  function SetColumn(cols: ColumnList, i: nat, c: Column): (r: ColumnList)
    requires i < |cols|
    ensures SameKeys(cols, r)
  {
    cols[i := Entry(cols[i].key, c)]
  }

  /** One statement on `myCols[k]`: insert an element id, or overwrite lo or hi. */
  datatype Update = Insert(idx: nat) | SetLo(z: real) | SetHi(z: real)

  function Apply(c: Column, u: Update): Column
  {
    match u
    case Insert(idx) => c.(elements := c.elements + {idx})
    case SetLo(z) => c.(lo := z)
    case SetHi(z) => c.(hi := z)
  }

  /** A column after a series of updates, in order. */
  function ApplyAll(c: Column, us: seq<Update>): Column
    decreases |us|
  {
    if |us| == 0 then c else ApplyAll(Apply(c, us[0]), us[1..])
  }

  /** The statements `myCols[k].<u>` for each u in turn; every statement subscripts again. */
  function Assign(cols: ColumnList, k: Corner, us: seq<Update>): ColumnList
    decreases |us|
  {
    if |us| == 0 then cols
    else
      SubscriptSpec(cols, k);
      var (c, i) := Subscript(cols, k);
      Assign(SetColumn(c, i, Apply(c[i].col, us[0])), k, us[1..])
  }

  /** The column `myCols[k]` starts from: the stored one, or a default-constructed one. */
  function Existing(cols: ColumnList, k: Corner): Column
  {
    match Find(cols, k)
    case Some(i) => cols[i].col
    case None => EmptyColumn
  }

  /**
   A series of statements on `myCols[k]` acts on one entry only: the one k
   resolves to, appended first if there was none.
   */
  lemma {:induction false} AssignSpec(cols: ColumnList, k: Corner, us: seq<Update>)
    requires |us| > 0
    ensures var r := Assign(cols, k, us);
            && Find(r, k).Some?
            && r[Find(r, k).value].col == ApplyAll(Existing(cols, k), us)
            && (Find(cols, k).Some? ==> |r| == |cols| && Find(r, k) == Find(cols, k))
            && (Find(cols, k).None? ==> |r| == |cols| + 1 && Find(r, k) == Some(|cols|) && r[|cols|].key == k)
            && (forall j :: 0 <= j < |cols| && Some(j) != Find(r, k) ==> r[j] == cols[j])
            && (forall j :: 0 <= j < |cols| ==> r[j].key == cols[j].key)
    decreases |us|
  {
    SubscriptSpec(cols, k);
    var (c, i) := Subscript(cols, k);
    var c' := SetColumn(c, i, Apply(c[i].col, us[0]));
    FindFromSameKeys(c, c', k, 0);
    assert Assign(cols, k, us) == Assign(c', k, us[1..]);
    assert c[i].col == Existing(cols, k);
    if |us| > 1 {
      AssignSpec(c', k, us[1..]);
      assert Existing(c', k) == Apply(Existing(cols, k), us[0]);
    }
  }

  /**
   The three statements that file element idx under the corner k:
   `myCols[k].elements.insert(idx); myCols[k].lo = minZ; myCols[k].hi = maxZ;`
   */
  function Record(cols: ColumnList, k: Corner, idx: nat, minZ: real, maxZ: real): ColumnList
  {
    Assign(cols, k, [Insert(idx), SetLo(minZ), SetHi(maxZ)])
  }

  /** What filing element idx under k does to the list. */
  lemma RecordSpec(cols: ColumnList, k: Corner, idx: nat, minZ: real, maxZ: real)
    // the entry for k now holds idx among its previous elements, and this element's heights:
    // lo and hi are overwritten, never merged with what was there
    ensures var r := Record(cols, k, idx, minZ, maxZ);
            && Find(r, k).Some?
            && var p := Find(r, k).value;
               var before := if Find(cols, k).Some? then cols[Find(cols, k).value].col.elements else {};
               r[p].col == Column(minZ, maxZ, before + {idx})
    // an existing entry is updated in place; otherwise one entry for k is appended
    ensures var r := Record(cols, k, idx, minZ, maxZ);
            Find(cols, k).Some? ==> |r| == |cols| && Find(r, k) == Find(cols, k)
    ensures var r := Record(cols, k, idx, minZ, maxZ);
            Find(cols, k).None? ==> |r| == |cols| + 1 && Find(r, k) == Some(|cols|) && r[|cols|].key == k
    // no other entry changes, and no key changes
    ensures var r := Record(cols, k, idx, minZ, maxZ);
            forall j :: 0 <= j < |cols| && Some(j) != Find(r, k) ==> r[j] == cols[j]
    ensures var r := Record(cols, k, idx, minZ, maxZ);
            forall j :: 0 <= j < |cols| ==> r[j].key == cols[j].key
  {
    var us := [Insert(idx), SetLo(minZ), SetHi(maxZ)];
    AssignSpec(cols, k, us);
    var c := Existing(cols, k);
    var c1 := c.(elements := c.elements + {idx});
    assert us[1..] == [SetLo(minZ), SetHi(maxZ)] && us[1..][1..] == [SetHi(maxZ)] && us[1..][1..][1..] == [];
    assert ApplyAll(c, us) == ApplyAll(c1, us[1..]);
    assert ApplyAll(c1, us[1..]) == ApplyAll(c1.(lo := minZ), us[1..][1..]);
    assert ApplyAll(c1.(lo := minZ), us[1..][1..]) == c1.(lo := minZ, hi := maxZ);
  }

  /**
   Filing under k leaves every other key's column alone, provided that key is
   not resolved to the same stored entry as k.
   */
  lemma RecordKeepsOtherKeys(cols: ColumnList, k: Corner, idx: nat, minZ: real, maxZ: real, k2: Corner)
    requires !Equivalent(k2, k)
    requires Find(cols, k2).None? || Find(cols, k2) != Find(cols, k)
    ensures Lookup(Record(cols, k, idx, minZ, maxZ), k2) == Lookup(cols, k2)
  {
    var r := Record(cols, k, idx, minZ, maxZ);
    RecordSpec(cols, k, idx, minZ, maxZ);
    if Find(cols, k2).Some? {
      FindFromExtended(cols, r, k2, 0);
    } else {
      forall j | 0 <= j < |r| ensures !Equivalent(r[j].key, k2) {
        if j == |cols| {
          assert r[j].key == k;
        }
      }
    }
  }

  /** Element e is in the column that key k resolves to. */
  predicate Filed(cols: ColumnList, k: Corner, e: nat)
  {
    Find(cols, k).Some? && e in cols[Find(cols, k).value].col.elements
  }

  lemma RecordFiles(cols: ColumnList, k: Corner, idx: nat, minZ: real, maxZ: real)
    ensures Filed(Record(cols, k, idx, minZ, maxZ), k, idx)
  {
    RecordSpec(cols, k, idx, minZ, maxZ);
  }

  /** Filing another element never moves or empties the column an element was filed in. */
  lemma RecordKeepsFiled(cols: ColumnList, k: Corner, e: nat, k2: Corner, idx: nat, minZ: real, maxZ: real)
    requires Filed(cols, k, e)
    ensures Filed(Record(cols, k2, idx, minZ, maxZ), k, e)
    ensures Find(Record(cols, k2, idx, minZ, maxZ), k) == Find(cols, k)
  {
    var r := Record(cols, k2, idx, minZ, maxZ);
    RecordSpec(cols, k2, idx, minZ, maxZ);
    var p := Find(cols, k).value;
    FindFromExtended(cols, r, k, 0);
    if Find(r, k2) == Some(p) {
      assert Find(cols, k2) == Some(p);
    }
  }

  /** A list whose first entries carry the same keys resolves every key found there the same way. */
  lemma FindFromExtended(a: ColumnList, b: ColumnList, k: Corner, from: nat)
    requires from <= |a| <= |b|
    requires forall j :: 0 <= j < |a| ==> b[j].key == a[j].key
    requires FindFrom(a, k, from).Some?
    ensures FindFrom(b, k, from) == FindFrom(a, k, from)
  {
  }

  /**
   Two elements whose corners are equal up to the threshold, and neither of
   which resolves to a stored entry yet, share one new column appended after
   the existing ones.
   */
  lemma CloseCornersMerge(cols: ColumnList, k1: Corner, k2: Corner, i1: nat, i2: nat,
                          lo1: real, hi1: real, lo2: real, hi2: real)
    requires k1.Eq(k2)
    requires Find(cols, k1).None? && Find(cols, k2).None?
    ensures var r := Record(Record(cols, k1, i1, lo1, hi1), k2, i2, lo2, hi2);
            |r| == |cols| + 1 && r[..|cols|] == cols &&
            r[|cols|] == Entry(k1, Column(lo2, hi2, {i1, i2}))
  {
    EquivalentIffEq(k1, k2);
    RecordSpec(cols, k1, i1, lo1, hi1);
    var c1 := Record(cols, k1, i1, lo1, hi1);
    assert Equivalent(c1[|cols|].key, k2);
    assert Find(c1, k2) == Some(|cols|) by {
      forall j | 0 <= j < |cols| ensures !Equivalent(c1[j].key, k2) {
        assert c1[j] == cols[j];
      }
    }
    RecordSpec(c1, k2, i2, lo2, hi2);
    var r := Record(c1, k2, i2, lo2, hi2);
    assert r[..|cols|] == cols by {
      forall j | 0 <= j < |cols| ensures r[j] == cols[j] {
        assert c1[j] == cols[j];
      }
    }
  }

  /**
   Two elements whose corners differ by more than the threshold, and neither
   of which resolves to a stored entry yet, get two new columns, appended in
   filing order.
   */
  lemma FarCornersSeparate(cols: ColumnList, k1: Corner, k2: Corner, i1: nat, i2: nat,
                           lo1: real, hi1: real, lo2: real, hi2: real)
    requires !k1.Eq(k2)
    requires Find(cols, k1).None? && Find(cols, k2).None?
    ensures var r := Record(Record(cols, k1, i1, lo1, hi1), k2, i2, lo2, hi2);
            |r| == |cols| + 2 && r[..|cols|] == cols &&
            r[|cols|] == Entry(k1, Column(lo1, hi1, {i1})) &&
            r[|cols| + 1] == Entry(k2, Column(lo2, hi2, {i2}))
  {
    EquivalentIffEq(k1, k2);
    RecordSpec(cols, k1, i1, lo1, hi1);
    var c1 := Record(cols, k1, i1, lo1, hi1);
    assert Find(c1, k2).None? by {
      forall j | 0 <= j < |c1| ensures !Equivalent(c1[j].key, k2) {
        if j < |cols| {
          assert c1[j] == cols[j];
        }
      }
    }
    RecordSpec(c1, k2, i2, lo2, hi2);
    var r := Record(c1, k2, i2, lo2, hi2);
    assert r[..|cols|] == cols by {
      forall j | 0 <= j < |cols| ensures r[j] == cols[j] {
        assert c1[j] == cols[j];
      }
    }
  }

  /**
   The drift of equivalence shows up in the list: two corners that are NOT equal
   up to the threshold still land in one column when an entry between them was
   filed first.
   */
  lemma NonEquivalentCornersCanShareColumn()
    ensures var a := Corner(Dbl(0.0), Dbl(0.0));
            var b := Corner(Dbl(THRESH), Dbl(0.0));
            var c := Corner(Dbl(2.0 * THRESH), Dbl(0.0));
            var cols := Record(Record(Record([], b, 1, 0.0, 0.0), a, 2, 0.0, 0.0), c, 3, 0.0, 0.0);
            !a.Eq(c) && |cols| == 1 && cols[0].col.elements == {1, 2, 3}
  {
    var a := Corner(Dbl(0.0), Dbl(0.0));
    var b := Corner(Dbl(THRESH), Dbl(0.0));
    var c := Corner(Dbl(2.0 * THRESH), Dbl(0.0));
    RecordSpec([], b, 1, 0.0, 0.0);
    var c1 := Record([], b, 1, 0.0, 0.0);
    assert Find(c1, a) == Some(0);
    RecordSpec(c1, a, 2, 0.0, 0.0);
    var c2 := Record(c1, a, 2, 0.0, 0.0);
    assert Find(c2, c) == Some(0);
    RecordSpec(c2, c, 3, 0.0, 0.0);
  }
}
