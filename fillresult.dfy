/** `FillResult`: cutting a matched name off the front of a fragment, and the
    back-fill of the ancestors of a resolved level by exact lookups of their
    codes. */
module FillResult {
  import opened Wrappers
  import opened Text
  import opened AreaDb
  import opened Model

  /** `replaceFragment(fragment, str, area)`: the record's full name is cut from
      the fragment if the fragment starts with it, otherwise the first
      occurrence of the matched prefix `str` is cut. */
  function ReplaceFragment(fragment: string, str: string, area: Area): (r: string)
    ensures |r| <= |fragment|
    ensures StartsWith(fragment, area.name) ==> r == fragment[|area.name|..]
    ensures !StartsWith(fragment, area.name) && StartsWith(fragment, str) ==> r == fragment[|str|..]
  {
    ReplaceFirstDeletes(fragment, area.name);
    ReplaceFirstDeletes(fragment, str);
    if StartsWith(fragment, area.name) then ReplaceFirst(fragment, area.name, "")
    else ReplaceFirst(fragment, str, "")
  }

  /** `setArea`: with a known area code whose level-3 row exists, the area name
      and the city code are taken from that row. */
  function FillArea(table: Table, f: Fields): (r: Fields)
    ensures r.(areaName := f.areaName, cityCode := f.cityCode) == f
    ensures r != f ==> f.areaCode != "" && GetAreaSingle(table, f.areaCode, 3).Some?
    ensures f.areaCode != "" && GetAreaSingle(table, f.areaCode, 3).Some? ==>
      r.areaName == GetAreaSingle(table, f.areaCode, 3).value.name &&
      r.cityCode == GetAreaSingle(table, f.areaCode, 3).value.parentCode
  {
    if f.areaCode == "" then f
    else match GetAreaSingle(table, f.areaCode, 3)
      case None => f
      case Some(a) => f.(areaName := a.name, cityCode := a.parentCode)
  }

  /** `setCity`: with a known city code whose level-2 row exists, the city
      name and the province code are taken from that row. */
  function FillCity(table: Table, f: Fields): (r: Fields)
    ensures r.(cityName := f.cityName, provinceCode := f.provinceCode) == f
    ensures r != f ==> f.cityCode != "" && GetAreaSingle(table, f.cityCode, 2).Some?
    ensures f.cityCode != "" && GetAreaSingle(table, f.cityCode, 2).Some? ==>
      r.cityName == GetAreaSingle(table, f.cityCode, 2).value.name &&
      r.provinceCode == GetAreaSingle(table, f.cityCode, 2).value.parentCode
  {
    if f.cityCode == "" then f
    else match GetAreaSingle(table, f.cityCode, 2)
      case None => f
      case Some(c) => f.(cityName := c.name, provinceCode := c.parentCode)
  }

  /** `setProvince`: with a known province code whose level-1 row exists, the
      province name is taken from that row. */
  function FillProvince(table: Table, f: Fields): (r: Fields)
    ensures r.(provinceName := f.provinceName) == f
    ensures r != f ==> f.provinceCode != "" && GetAreaSingle(table, f.provinceCode, 1).Some?
    ensures f.provinceCode != "" && GetAreaSingle(table, f.provinceCode, 1).Some? ==>
      r.provinceName == GetAreaSingle(table, f.provinceCode, 1).value.name
  {
    if f.provinceCode == "" then f
    else match GetAreaSingle(table, f.provinceCode, 1)
      case None => f
      case Some(p) => f.(provinceName := p.name)
  }

  method SetArea(table: Table, pr: ParseResult)
    modifies pr
    ensures pr.Value() == FillArea(table, old(pr.Value()))
  {
    if pr.areaCode == "" {
      return;
    }
    var area := GetAreaSingle(table, pr.areaCode, 3);
    if area.Some? {
      pr.areaName := area.value.name;
      pr.cityCode := area.value.parentCode;
    }
  }

  method SetCity(table: Table, pr: ParseResult)
    modifies pr
    ensures pr.Value() == FillCity(table, old(pr.Value()))
  {
    if pr.cityCode == "" {
      return;
    }
    var city := GetAreaSingle(table, pr.cityCode, 2);
    if city.Some? {
      pr.cityName := city.value.name;
      pr.provinceCode := city.value.parentCode;
    }
  }

  method SetProvince(table: Table, pr: ParseResult)
    modifies pr
    ensures pr.Value() == FillProvince(table, old(pr.Value()))
  {
    if pr.provinceCode == "" {
      return;
    }
    var province := GetAreaSingle(table, pr.provinceCode, 1);
    if province.Some? {
      pr.provinceName := province.value.name;
    }
  }

  // ---------------------------------------------------------------------------
  // Lemmas
  // ---------------------------------------------------------------------------

  /** Called with a prefix of the fragment, `replaceFragment` cuts a prefix off:
      the fragment is the removed text followed by the result. */
  lemma ReplaceFragmentCutsPrefix(fragment: string, str: string, area: Area)
    requires StartsWith(fragment, str)
    ensures var r := ReplaceFragment(fragment, str, area);
      fragment == fragment[..|fragment| - |r|] + r
    ensures var r := ReplaceFragment(fragment, str, area);
      |fragment| - |r| == (if StartsWith(fragment, area.name) then |area.name| else |str|)
  {
  }

  /** Each back-fill is idempotent. */
  lemma FillIdempotent(table: Table, f: Fields)
    ensures FillArea(table, FillArea(table, f)) == FillArea(table, f)
    ensures FillCity(table, FillCity(table, f)) == FillCity(table, f)
    ensures FillProvince(table, FillProvince(table, f)) == FillProvince(table, f)
  {
  }

  /** In a well-formed table the back-fill of a known row writes that row's name
      and its parent's code. */
  lemma FillFromRow(table: Table, f: Fields, a: Area)
    requires WellFormed(table) && a in table
    ensures a.level == 3 && f.areaCode == a.code ==> FillArea(table, f) == f.(areaName := a.name, cityCode := a.parentCode)
    ensures a.level == 2 && f.cityCode == a.code ==> FillCity(table, f) == f.(cityName := a.name, provinceCode := a.parentCode)
    ensures a.level == 1 && f.provinceCode == a.code ==> FillProvince(table, f) == f.(provinceName := a.name)
  {
    GetAreaSingleFinds(table, a);
    assert a.code != "" by {
      var i :| 0 <= i < |table| && table[i] == a;
    }
  }
}
