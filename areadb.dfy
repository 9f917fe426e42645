/** The administrative-area table behind `SqliteUtil`: one row per province
    (level 1), city (level 2), area (level 3) and street (level 4), each with
    its code, its name and the code of the row one level up. A missing parent
    code (`NULL` for the provinces) is the empty string. */
module AreaDb {
  import opened Wrappers
  import opened Text

  datatype Area = Area(code: string, name: string, level: int, parentCode: string)

  /** The rows in the order the database returns them. */
  type Table = seq<Area>

  /** The filter of `getArea`: the level, the parent when one is given, and a
      name that starts with `prefix` (`name like prefix%`). */
  predicate Matches(a: Area, parentCode: string, prefix: string, level: int)
  {
    a.level == level && (parentCode == "" || a.parentCode == parentCode) && StartsWith(a.name, prefix)
  }

  /** `getArea(parentCode, nameLike, level)`: every matching row, in table
      order; the search is not scoped when the parent code is empty. */
  function GetArea(table: Table, parentCode: string, prefix: string, level: int): (r: seq<Area>)
    ensures |r| <= |table|
    ensures forall a | a in r :: a in table && Matches(a, parentCode, prefix, level)
    decreases |table|
  {
    if table == [] then []
    else
      var head := if Matches(table[0], parentCode, prefix, level) then [table[0]] else [];
      head + GetArea(table[1..], parentCode, prefix, level)
  }

  /** `getAreaSingle(code, level)`: the first row with that code and level, or
      `None` where Java has `null`. */
  function GetAreaSingle(table: Table, code: string, level: int): (r: Option<Area>)
    decreases |table|
  {
    if table == [] then None
    else if table[0].code == code && table[0].level == level then Some(table[0])
    else GetAreaSingle(table[1..], code, level)
  }

  /** What the loading script guarantees, plus the primary key: codes are
      non-empty and unique, levels run from 1 to 4, provinces have no parent,
      and every other row names an existing row one level up. */
  predicate WellFormed(table: Table)
  {
    (forall i | 0 <= i < |table| :: table[i].code != "" && 1 <= table[i].level <= 4)
    && (forall i, j | 0 <= i < j < |table| :: table[i].code != table[j].code)
    && (forall i | 0 <= i < |table| :: table[i].level == 1 <==> table[i].parentCode == "")
    && (forall i | 0 <= i < |table| && table[i].level > 1 ::
          exists j | 0 <= j < |table| :: table[j].code == table[i].parentCode && table[j].level == table[i].level - 1)
  }

  // ---------------------------------------------------------------------------
  // Lemmas
  // ---------------------------------------------------------------------------

  /** A row is returned by `getArea` exactly when it is in the table and
      matches the filter. */
  lemma {:induction false} GetAreaMembers(table: Table, parentCode: string, prefix: string, level: int, a: Area)
    ensures a in GetArea(table, parentCode, prefix, level) <==> a in table && Matches(a, parentCode, prefix, level)
    decreases |table|
  {
    if table != [] {
      GetAreaMembers(table[1..], parentCode, prefix, level, a);
      assert table == [table[0]] + table[1..];
    }
  }

  /** `r` is the subsequence of `t` at the increasing indices `idx`, and those
      are exactly the indices of the rows `sel` accepts. */
  predicate Picks(r: seq<Area>, t: seq<Area>, sel: Area -> bool, idx: seq<nat>)
  {
    && |idx| == |r|
    && (forall k | 0 <= k < |idx| :: idx[k] < |t| && r[k] == t[idx[k]])
    && (forall k, l | 0 <= k < l < |idx| :: idx[k] < idx[l])
    && (forall i | 0 <= i < |t| :: sel(t[i]) <==> i in idx)
  }

  /** Every index one further on. */
  function Shift(sub: seq<nat>): (r: seq<nat>)
    ensures |r| == |sub| && forall k | 0 <= k < |sub| :: r[k] == sub[k] + 1
  {
    seq(|sub|, k requires 0 <= k < |sub| => sub[k] + 1)
  }

  /** The indices of a row kept or dropped in front of the picked ones. */
  function ConsIndices(keep: bool, sub: seq<nat>): seq<nat>
  {
    (if keep then [0] else []) + Shift(sub)
  }

  /** Keeping or dropping one more row in front keeps the picking. */
  lemma PicksCons(x: Area, r: seq<Area>, t: seq<Area>, sel: Area -> bool, sub: seq<nat>)
    requires Picks(r, t, sel, sub)
    ensures Picks((if sel(x) then [x] else []) + r, [x] + t, sel, ConsIndices(sel(x), sub))
  {
    PicksConsRows(x, r, t, sel, sub);
    PicksConsIncreasing(sel(x), sub);
    PicksConsExact(x, t, sel, sub);
  }

  lemma PicksConsRows(x: Area, r: seq<Area>, t: seq<Area>, sel: Area -> bool, sub: seq<nat>)
    requires Picks(r, t, sel, sub)
    ensures var idx := ConsIndices(sel(x), sub); var r' := (if sel(x) then [x] else []) + r;
      |idx| == |r'| && forall k | 0 <= k < |idx| :: idx[k] < |[x] + t| && r'[k] == ([x] + t)[idx[k]]
  {
    var idx := ConsIndices(sel(x), sub);
    var r' := (if sel(x) then [x] else []) + r;
    var h := if sel(x) then 1 else 0;
    forall k | 0 <= k < |idx|
      ensures idx[k] < |[x] + t| && r'[k] == ([x] + t)[idx[k]]
    {
      if k >= h {
        assert idx[k] == sub[k - h] + 1;
        assert r'[k] == r[k - h];
      }
    }
  }

  lemma PicksConsIncreasing(keep: bool, sub: seq<nat>)
    requires forall k, l | 0 <= k < l < |sub| :: sub[k] < sub[l]
    ensures var idx := ConsIndices(keep, sub); forall k, l | 0 <= k < l < |idx| :: idx[k] < idx[l]
  {
    var idx := ConsIndices(keep, sub);
    var h := if keep then 1 else 0;
    forall k, l | 0 <= k < l < |idx| ensures idx[k] < idx[l] {
      assert idx[l] == sub[l - h] + 1;
      if k >= h { assert idx[k] == sub[k - h] + 1; }
    }
  }

  lemma PicksConsExact(x: Area, t: seq<Area>, sel: Area -> bool, sub: seq<nat>)
    requires forall i | 0 <= i < |t| :: sel(t[i]) <==> i in sub
    ensures var idx := ConsIndices(sel(x), sub);
      forall i | 0 <= i < |[x] + t| :: sel(([x] + t)[i]) <==> i in idx
  {
    var idx := ConsIndices(sel(x), sub);
    var h := if sel(x) then 1 else 0;
    forall i | 0 <= i < |[x] + t|
      ensures sel(([x] + t)[i]) <==> i in idx
    {
      if i > 0 {
        assert ([x] + t)[i] == t[i - 1];
        if i - 1 in sub {
          var k :| 0 <= k < |sub| && sub[k] == i - 1;
          assert idx[h + k] == i;
        }
        if i in idx {
          var k :| 0 <= k < |idx| && idx[k] == i;
          assert k >= h && sub[k - h] == i - 1;
        }
      } else {
        assert 0 !in Shift(sub);
      }
    }
  }

  /** The filter of `getArea` as a value. */
  function MatchesBy(parentCode: string, prefix: string, level: int): Area -> bool
  {
    a => Matches(a, parentCode, prefix, level)
  }

  /** `getArea` returns the matching rows in table order and no other: its
      result is the subsequence of the table at increasing indices, which are
      exactly the indices of the matching rows. */
  lemma {:induction false} GetAreaOrder(table: Table, parentCode: string, prefix: string, level: int) returns (idx: seq<nat>)
    ensures Picks(GetArea(table, parentCode, prefix, level), table, MatchesBy(parentCode, prefix, level), idx)
    decreases |table|
  {
    if table == [] {
      idx := [];
    } else {
      var sub := GetAreaOrder(table[1..], parentCode, prefix, level);
      var sel := MatchesBy(parentCode, prefix, level);
      PicksCons(table[0], GetArea(table[1..], parentCode, prefix, level), table[1..], sel, sub);
      idx := ConsIndices(sel(table[0]), sub);
      assert [table[0]] + table[1..] == table;
    }
  }

  /** The first row `getArea` returns is the first matching row of the table. */
  lemma {:induction false} GetAreaFirst(table: Table, parentCode: string, prefix: string, level: int) returns (i: nat)
    requires GetArea(table, parentCode, prefix, level) != []
    ensures i < |table| && GetArea(table, parentCode, prefix, level)[0] == table[i]
    ensures Matches(table[i], parentCode, prefix, level)
    ensures forall j | 0 <= j < i :: !Matches(table[j], parentCode, prefix, level)
    decreases |table|
  {
    if Matches(table[0], parentCode, prefix, level) {
      i := 0;
    } else {
      var k := GetAreaFirst(table[1..], parentCode, prefix, level);
      i := k + 1;
      assert forall j | 0 < j < |table| :: table[j] == table[1..][j - 1];
    }
  }

  /** A longer prefix never finds a row a shorter one misses. */
  lemma {:induction false} GetAreaNarrows(table: Table, parentCode: string, prefix: string, longer: string, level: int)
    requires StartsWith(longer, prefix)
    ensures forall a | a in GetArea(table, parentCode, longer, level) :: a in GetArea(table, parentCode, prefix, level)
  {
    forall a | a in GetArea(table, parentCode, longer, level)
      ensures a in GetArea(table, parentCode, prefix, level)
    {
      GetAreaMembers(table, parentCode, longer, level, a);
      GetAreaMembers(table, parentCode, prefix, level, a);
      assert a.name[..|longer|][..|prefix|] == a.name[..|prefix|];
    }
  }

  /** `getAreaSingle` finds a row with that code and level, and finds nothing
      only when there is none. */
  lemma {:induction false} GetAreaSingleSpec(table: Table, code: string, level: int)
    ensures var r := GetAreaSingle(table, code, level);
      r.Some? ==> r.value in table && r.value.code == code && r.value.level == level
    ensures GetAreaSingle(table, code, level).None? <==>
      forall i | 0 <= i < |table| :: !(table[i].code == code && table[i].level == level)
    decreases |table|
  {
    if table != [] {
      GetAreaSingleSpec(table[1..], code, level);
      assert forall i | 0 < i < |table| :: table[i] == table[1..][i - 1];
    }
  }

  /** In a well-formed table the lookup by code returns the row itself. */
  lemma GetAreaSingleFinds(table: Table, a: Area)
    requires WellFormed(table) && a in table
    ensures GetAreaSingle(table, a.code, a.level) == Some(a)
  {
    GetAreaSingleSpec(table, a.code, a.level);
    var r := GetAreaSingle(table, a.code, a.level);
    var i :| 0 <= i < |table| && table[i] == a;
    if r.Some? {
      var j :| 0 <= j < |table| && table[j] == r.value;
      if i != j {
        assert table[i].code == table[j].code;
      }
    }
  }

  /** In a well-formed table every row below the provinces has its parent row,
      and the lookup of the parent code one level up finds it. */
  lemma ParentFound(table: Table, a: Area) returns (p: Area)
    requires WellFormed(table) && a in table && a.level > 1
    ensures p in table && p.code == a.parentCode && p.level == a.level - 1
    ensures GetAreaSingle(table, a.parentCode, a.level - 1) == Some(p)
    ensures a.parentCode != ""
  {
    var i :| 0 <= i < |table| && table[i] == a;
    var j :| 0 <= j < |table| && table[j].code == table[i].parentCode && table[j].level == table[i].level - 1;
    p := table[j];
    GetAreaSingleFinds(table, p);
  }
}
