/** The scan the four level parsers share, as a specification. A parser whose
    level is still unresolved grows a prefix of the fragment from two
    characters up and looks it up at its level, scoped by the parent code the
    record holds at that moment. No row ends the scan; exactly one row is
    committed at once (the level's code and name are set, the ancestors
    back-filled, and the matched text cut from the front of the fragment) and
    the scan goes on over the shortened fragment; several rows change nothing. */
module LevelScan {
  import opened Wrappers
  import opened Text
  import opened AreaDb
  import opened Model
  import opened FillResult

  datatype Level = ProvinceLevel | CityLevel | AreaLevel | StreetLevel

  /** The `level` column of the level's rows. */
  function Num(lv: Level): int
  {
    match lv
    case ProvinceLevel => 1
    case CityLevel => 2
    case AreaLevel => 3
    case StreetLevel => 4
  }

  /** The level one up. */
  function Up(lv: Level): Level
    requires lv != ProvinceLevel
  {
    match lv
    case CityLevel => ProvinceLevel
    case AreaLevel => CityLevel
    case StreetLevel => AreaLevel
  }

  function Code(f: Fields, lv: Level): string
  {
    match lv
    case ProvinceLevel => f.provinceCode
    case CityLevel => f.cityCode
    case AreaLevel => f.areaCode
    case StreetLevel => f.streetCode
  }

  function Name(f: Fields, lv: Level): string
  {
    match lv
    case ProvinceLevel => f.provinceName
    case CityLevel => f.cityName
    case AreaLevel => f.areaName
    case StreetLevel => f.streetName
  }

  /** The parent code a lookup at the level is scoped by; provinces are looked
      up unscoped. */
  function Scope(f: Fields, lv: Level): string
  {
    if lv == ProvinceLevel then "" else Code(f, Up(lv))
  }

  /** What a parser writes when row `a` is the sole candidate: its code and
      name, the row's parent code one level up, then the back-fills upwards. */
  function Commit(table: Table, f: Fields, lv: Level, a: Area): Fields
  {
    match lv
    case ProvinceLevel => f.(provinceCode := a.code, provinceName := a.name)
    case CityLevel =>
      FillProvince(table, f.(cityCode := a.code, cityName := a.name, provinceCode := a.parentCode))
    case AreaLevel =>
      FillProvince(table, FillCity(table, f.(areaCode := a.code, areaName := a.name, cityCode := a.parentCode)))
    case StreetLevel =>
      FillProvince(table, FillCity(table, FillArea(table,
        f.(streetCode := a.code, streetName := a.name, areaCode := a.parentCode))))
  }

  /** The loop from index `i` on: the record and the fragment it ends with. */
  function Scan(table: Table, lv: Level, f: Fields, fragment: string, i: nat): (Fields, string)
    decreases |fragment| - i
  {
    if i >= |fragment| then (f, fragment)
    else
      var str := fragment[..i + 1];
      var found := GetArea(table, Scope(f, lv), str, Num(lv));
      if found == [] then (f, fragment)
      else if |found| == 1 then
        Scan(table, lv, Commit(table, f, lv, found[0]), ReplaceFragment(fragment, str, found[0]), i + 1)
      else Scan(table, lv, f, fragment, i + 1)
  }

  /** A level parser: nothing happens when the level's code is already known. */
  function Resolve(table: Table, lv: Level, f: Fields, fragment: string): (Fields, string)
  {
    if Code(f, lv) != "" then (f, fragment) else Scan(table, lv, f, fragment, 1)
  }

  /** The row committed last by the loop from index `i` on, if any. */
  function LastCommit(table: Table, lv: Level, f: Fields, fragment: string, i: nat): Option<Area>
    decreases |fragment| - i
  {
    if i >= |fragment| then None
    else
      var str := fragment[..i + 1];
      var found := GetArea(table, Scope(f, lv), str, Num(lv));
      if found == [] then None
      else if |found| == 1 then
        var later := LastCommit(table, lv, Commit(table, f, lv, found[0]), ReplaceFragment(fragment, str, found[0]), i + 1);
        if later.Some? then later else Some(found[0])
      else LastCommit(table, lv, f, fragment, i + 1)
  }

  /** `f` and `g` agree on every field a parser of level `lv` never writes: the
      province parser writes only the province fields, the city parser the city
      and province fields, the area parser these and the area fields, and the
      street parser all four levels. */
  predicate Keeps(f: Fields, g: Fields, lv: Level)
  {
    match lv
    case ProvinceLevel => g.(provinceCode := f.provinceCode, provinceName := f.provinceName) == f
    case CityLevel =>
      g.(provinceCode := f.provinceCode, provinceName := f.provinceName,
         cityCode := f.cityCode, cityName := f.cityName) == f
    case AreaLevel =>
      g.(provinceCode := f.provinceCode, provinceName := f.provinceName,
         cityCode := f.cityCode, cityName := f.cityName,
         areaCode := f.areaCode, areaName := f.areaName) == f
    case StreetLevel =>
      g.(provinceCode := f.provinceCode, provinceName := f.provinceName,
         cityCode := f.cityCode, cityName := f.cityName,
         areaCode := f.areaCode, areaName := f.areaName,
         streetCode := f.streetCode, streetName := f.streetName) == f
  }

  /** The record holds the row of level `lv`: its code is found at that level,
      with that name, and below the provinces its parent code is the code one
      level up. */
  predicate Holds(table: Table, f: Fields, lv: Level)
  {
    var r := GetAreaSingle(table, Code(f, lv), Num(lv));
    r.Some? && r.value.name == Name(f, lv) && (lv != ProvinceLevel ==> r.value.parentCode == Code(f, Up(lv)))
  }

  /** The record holds the rows of level `lv` and of all levels above it. */
  predicate Linked(table: Table, f: Fields, lv: Level)
  {
    match lv
    case ProvinceLevel => Holds(table, f, ProvinceLevel)
    case CityLevel => Holds(table, f, CityLevel) && Holds(table, f, ProvinceLevel)
    case AreaLevel => Holds(table, f, AreaLevel) && Holds(table, f, CityLevel) && Holds(table, f, ProvinceLevel)
    case StreetLevel =>
      Holds(table, f, StreetLevel) && Holds(table, f, AreaLevel) && Holds(table, f, CityLevel)
      && Holds(table, f, ProvinceLevel)
  }

  /** Every code that is set is still set in `g`. */
  predicate CodesKept(f: Fields, g: Fields)
  {
    (f.provinceCode != "" ==> g.provinceCode != "") && (f.cityCode != "" ==> g.cityCode != "")
    && (f.areaCode != "" ==> g.areaCode != "") && (f.streetCode != "" ==> g.streetCode != "")
  }

  // ---------------------------------------------------------------------------
  // Lemmas about one commit
  // ---------------------------------------------------------------------------

  lemma CommitKeeps(table: Table, f: Fields, lv: Level, a: Area)
    ensures Keeps(f, Commit(table, f, lv, a), lv)
    ensures Code(Commit(table, f, lv, a), lv) == a.code && Name(Commit(table, f, lv, a), lv) == a.name
    ensures lv != ProvinceLevel ==> Scope(Commit(table, f, lv, a), lv) == a.parentCode
  {
  }

  /** In a well-formed table a commit of one of its rows leaves the record
      holding that row and a consistent chain of its ancestors. */
  lemma CommitLinks(table: Table, f: Fields, lv: Level, a: Area)
    requires WellFormed(table) && a in table && a.level == Num(lv)
    ensures Linked(table, Commit(table, f, lv, a), lv)
    ensures CodesKept(f, Commit(table, f, lv, a))
  {
    GetAreaSingleFinds(table, a);
    var i :| 0 <= i < |table| && table[i] == a;
    if lv == ProvinceLevel {
    } else if lv == CityLevel {
      var p := ParentFound(table, a);
      var g := f.(cityCode := a.code, cityName := a.name, provinceCode := a.parentCode);
      FillFromRow(table, g, p);
    } else if lv == AreaLevel {
      var c := ParentFound(table, a);
      var p := ParentFound(table, c);
      var g := f.(areaCode := a.code, areaName := a.name, cityCode := a.parentCode);
      FillFromRow(table, g, c);
      FillFromRow(table, FillCity(table, g), p);
    } else {
      var d := ParentFound(table, a);
      var c := ParentFound(table, d);
      var p := ParentFound(table, c);
      var g := f.(streetCode := a.code, streetName := a.name, areaCode := a.parentCode);
      FillFromRow(table, g, d);
      FillFromRow(table, FillArea(table, g), c);
      FillFromRow(table, FillCity(table, FillArea(table, g)), p);
    }
  }

  // ---------------------------------------------------------------------------
  // Lemmas about the scan
  // ---------------------------------------------------------------------------

  /** The fragment a scan ends with is a suffix of the one it started with:
      text is only ever cut from the front. */
  lemma {:induction false} ScanSuffix(table: Table, lv: Level, f: Fields, fragment: string, i: nat)
    ensures var r := Scan(table, lv, f, fragment, i).1;
      |r| <= |fragment| && r == fragment[|fragment| - |r|..]
    decreases |fragment| - i, 1
  {
    if i < |fragment| {
      var found := GetArea(table, Scope(f, lv), fragment[..i + 1], Num(lv));
      if |found| == 1 {
        ScanSuffixCommit(table, lv, f, fragment, i);
      } else if found != [] {
        ScanSuffix(table, lv, f, fragment, i + 1);
      }
    }
  }

  /** The step of `ScanSuffix` at an index where the prefix has one candidate. */
  lemma {:induction false} ScanSuffixCommit(table: Table, lv: Level, f: Fields, fragment: string, i: nat)
    requires i < |fragment|
    requires |GetArea(table, Scope(f, lv), fragment[..i + 1], Num(lv))| == 1
    ensures var r := Scan(table, lv, f, fragment, i).1;
      |r| <= |fragment| && r == fragment[|fragment| - |r|..]
    decreases |fragment| - i, 0
  {
    var str := fragment[..i + 1];
    var a := GetArea(table, Scope(f, lv), str, Num(lv))[0];
    var g := Commit(table, f, lv, a);
    var next := ReplaceFragment(fragment, str, a);
    ScanCommitStep(table, lv, f, fragment, i);
    ReplaceFragmentCutsPrefix(fragment, str, a);
    ScanSuffix(table, lv, g, next, i + 1);
    SuffixOfSuffix(fragment, next, Scan(table, lv, g, next, i + 1).1);
  }

  lemma SuffixOfSuffix(s: string, t: string, u: string)
    requires |t| <= |s| && t == s[|s| - |t|..]
    requires |u| <= |t| && u == t[|t| - |u|..]
    ensures u == s[|s| - |u|..]
  {
    assert t[|t| - |u|..] == s[|s| - |u|..];
  }

  /** A scan writes only the fields of its level and the levels above. */
  lemma {:induction false} ScanKeeps(table: Table, lv: Level, f: Fields, fragment: string, i: nat)
    ensures Keeps(f, Scan(table, lv, f, fragment, i).0, lv)
    decreases |fragment| - i
  {
    if i < |fragment| {
      var str := fragment[..i + 1];
      var found := GetArea(table, Scope(f, lv), str, Num(lv));
      if found != [] {
        if |found| == 1 {
          var g := Commit(table, f, lv, found[0]);
          CommitKeeps(table, f, lv, found[0]);
          ScanKeeps(table, lv, g, ReplaceFragment(fragment, str, found[0]), i + 1);
        } else {
          ScanKeeps(table, lv, f, fragment, i + 1);
        }
      }
    }
  }

  /** A scan that commits nothing changes neither the record nor the fragment;
      one that commits ends with the last committed row's code and name, a row
      of the table at the level whose name starts with a prefix of length at
      least two, and below the provinces with that row's parent as the code one
      level up. */
  lemma {:induction false} ScanLastCommit(table: Table, lv: Level, f: Fields, fragment: string, i: nat)
    requires i >= 1
    ensures var last := LastCommit(table, lv, f, fragment, i);
      last.None? ==> Scan(table, lv, f, fragment, i) == (f, fragment)
    ensures var last := LastCommit(table, lv, f, fragment, i); var g := Scan(table, lv, f, fragment, i).0;
      last.Some? ==>
        last.value in table && last.value.level == Num(lv) && |last.value.name| >= 2
        && Code(g, lv) == last.value.code && Name(g, lv) == last.value.name
        && (lv != ProvinceLevel ==> Scope(g, lv) == last.value.parentCode)
    decreases |fragment| - i, 1
  {
    if i < |fragment| {
      var found := GetArea(table, Scope(f, lv), fragment[..i + 1], Num(lv));
      if |found| == 1 {
        ScanLastCommitStep(table, lv, f, fragment, i);
      } else if found != [] {
        ScanLastCommit(table, lv, f, fragment, i + 1);
      }
    }
  }

  /** The step of `ScanLastCommit` at an index where the prefix has one candidate. */
  lemma {:induction false} ScanLastCommitStep(table: Table, lv: Level, f: Fields, fragment: string, i: nat)
    requires 1 <= i < |fragment|
    requires |GetArea(table, Scope(f, lv), fragment[..i + 1], Num(lv))| == 1
    ensures var last := LastCommit(table, lv, f, fragment, i);
      last.None? ==> Scan(table, lv, f, fragment, i) == (f, fragment)
    ensures var last := LastCommit(table, lv, f, fragment, i); var g := Scan(table, lv, f, fragment, i).0;
      last.Some? ==>
        last.value in table && last.value.level == Num(lv) && |last.value.name| >= 2
        && Code(g, lv) == last.value.code && Name(g, lv) == last.value.name
        && (lv != ProvinceLevel ==> Scope(g, lv) == last.value.parentCode)
    decreases |fragment| - i, 0
  {
    var str := fragment[..i + 1];
    var found := GetArea(table, Scope(f, lv), str, Num(lv));
    var a := found[0];
    var g := Commit(table, f, lv, a);
    var next := ReplaceFragment(fragment, str, a);
    ScanCommitStep(table, lv, f, fragment, i);
    assert a in found;
    GetAreaMembers(table, Scope(f, lv), str, Num(lv), a);
    CommitKeeps(table, f, lv, a);
    ScanLastCommit(table, lv, g, next, i + 1);
  }

  /** In a well-formed table a scan that commits leaves the record holding the
      last committed row and its ancestors. */
  lemma {:induction false} ScanLinks(table: Table, lv: Level, f: Fields, fragment: string, i: nat)
    requires WellFormed(table)
    ensures LastCommit(table, lv, f, fragment, i).Some? ==> Linked(table, Scan(table, lv, f, fragment, i).0, lv)
    decreases |fragment| - i, 1
  {
    if i < |fragment| {
      var found := GetArea(table, Scope(f, lv), fragment[..i + 1], Num(lv));
      if |found| == 1 {
        ScanLinksCommit(table, lv, f, fragment, i);
      } else if found != [] {
        ScanLinks(table, lv, f, fragment, i + 1);
      }
    }
  }

  /** The step of `ScanLinks` at an index where the prefix has one candidate. */
  lemma {:induction false} ScanLinksCommit(table: Table, lv: Level, f: Fields, fragment: string, i: nat)
    requires WellFormed(table) && i < |fragment|
    requires |GetArea(table, Scope(f, lv), fragment[..i + 1], Num(lv))| == 1
    ensures LastCommit(table, lv, f, fragment, i).Some? ==> Linked(table, Scan(table, lv, f, fragment, i).0, lv)
    decreases |fragment| - i, 0
  {
    var str := fragment[..i + 1];
    var found := GetArea(table, Scope(f, lv), str, Num(lv));
    var a := found[0];
    var g := Commit(table, f, lv, a);
    var next := ReplaceFragment(fragment, str, a);
    ScanCommitStep(table, lv, f, fragment, i);
    if LastCommit(table, lv, g, next, i + 1).None? {
      assert a in found;
      GetAreaMembers(table, Scope(f, lv), str, Num(lv), a);
      CommitLinks(table, f, lv, a);
      ScanUnchanged(table, lv, g, next, i + 1);
    } else {
      ScanLinks(table, lv, g, next, i + 1);
    }
  }

  /** One step of the scan at an index where the prefix has one candidate. */
  lemma ScanCommitStep(table: Table, lv: Level, f: Fields, fragment: string, i: nat)
    requires i < |fragment|
    requires |GetArea(table, Scope(f, lv), fragment[..i + 1], Num(lv))| == 1
    ensures var a := GetArea(table, Scope(f, lv), fragment[..i + 1], Num(lv))[0];
      var g := Commit(table, f, lv, a);
      var next := ReplaceFragment(fragment, fragment[..i + 1], a);
      Scan(table, lv, f, fragment, i) == Scan(table, lv, g, next, i + 1)
      && LastCommit(table, lv, f, fragment, i)
         == (if LastCommit(table, lv, g, next, i + 1).Some? then LastCommit(table, lv, g, next, i + 1) else Some(a))
  {
  }

  /** A scan that commits nothing returns the record it was given. */
  lemma ScanUnchanged(table: Table, lv: Level, f: Fields, fragment: string, i: nat)
    requires i >= 1 && LastCommit(table, lv, f, fragment, i).None?
    ensures Scan(table, lv, f, fragment, i).0 == f
  {
    ScanLastCommit(table, lv, f, fragment, i);
  }

  /** In a well-formed table a scan never clears a code. */
  lemma {:induction false} ScanCodesKept(table: Table, lv: Level, f: Fields, fragment: string, i: nat)
    requires WellFormed(table)
    ensures CodesKept(f, Scan(table, lv, f, fragment, i).0)
    decreases |fragment| - i
  {
    if i < |fragment| {
      var str := fragment[..i + 1];
      var found := GetArea(table, Scope(f, lv), str, Num(lv));
      if found != [] {
        if |found| == 1 {
          var a := found[0];
          var g := Commit(table, f, lv, a);
          var next := ReplaceFragment(fragment, str, a);
          assert Scan(table, lv, f, fragment, i) == Scan(table, lv, g, next, i + 1);
          assert a in found;
          GetAreaMembers(table, Scope(f, lv), str, Num(lv), a);
          CommitLinks(table, f, lv, a);
          ScanCodesKept(table, lv, g, next, i + 1);
        } else {
          ScanCodesKept(table, lv, f, fragment, i + 1);
        }
      }
    }
  }

  /** The area scan is blind to the province fields: two records that differ
      only there end with the same fragment and the same area and city code. */
  lemma {:induction false} AreaScanIgnoresProvince(table: Table, f: Fields, g: Fields, fragment: string, i: nat)
    requires g.(provinceCode := f.provinceCode, provinceName := f.provinceName) == f
    ensures Scan(table, AreaLevel, f, fragment, i).1 == Scan(table, AreaLevel, g, fragment, i).1
    ensures var rf := Scan(table, AreaLevel, f, fragment, i).0; var rg := Scan(table, AreaLevel, g, fragment, i).0;
      rg.(provinceCode := rf.provinceCode, provinceName := rf.provinceName) == rf
    decreases |fragment| - i
  {
    if i < |fragment| {
      var str := fragment[..i + 1];
      var found := GetArea(table, Scope(f, AreaLevel), str, 3);
      assert Scope(f, AreaLevel) == Scope(g, AreaLevel);
      if found != [] {
        if |found| == 1 {
          var a := found[0];
          var f1 := f.(areaCode := a.code, areaName := a.name, cityCode := a.parentCode);
          var g1 := g.(areaCode := a.code, areaName := a.name, cityCode := a.parentCode);
          var f2 := FillCity(table, f1);
          var g2 := FillCity(table, g1);
          assert g2.(provinceCode := f2.provinceCode, provinceName := f2.provinceName) == f2;
          AreaScanIgnoresProvince(table, Commit(table, f, AreaLevel, a), Commit(table, g, AreaLevel, a),
            ReplaceFragment(fragment, str, a), i + 1);
        } else {
          AreaScanIgnoresProvince(table, f, g, fragment, i + 1);
        }
      }
    }
  }

  /** A resolved level and a fragment shorter than two characters leave both
      the record and the fragment as they were. */
  lemma ResolveNoOp(table: Table, lv: Level, f: Fields, fragment: string)
    requires Code(f, lv) != "" || |fragment| < 2
    ensures Resolve(table, lv, f, fragment) == (f, fragment)
  {
  }
}
