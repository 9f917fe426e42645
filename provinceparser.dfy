/** `ProvinceParser.parseProvince`: an unscoped scan over the provinces. */
module ProvinceParser {
  import opened Text
  import StrUtil
  import opened AreaDb
  import opened Model
  import opened FillResult
  import opened LevelScan

  /** The loop of the Java method, which re-reads the loop bound on the
      shortened fragment; it ends as the scan specified by `Resolve` ends. */
  method ParseProvince(table: Table, pr: ParseResult, fragment: string) returns (r: string)
    modifies pr
    ensures (pr.Value(), r) == Resolve(table, ProvinceLevel, old(pr.Value()), fragment)
  {
    r := fragment;
    if !StrUtil.IsEmpty(StrUtil.Str(pr.provinceCode)) {
      return;
    }
    var i := 1;
    while i < |r|
      invariant 1 <= i
      invariant Scan(table, ProvinceLevel, pr.Value(), r, i) == Scan(table, ProvinceLevel, old(pr.Value()), fragment, 1)
      decreases |r| - i
    {
      var str := r[..i + 1];
      var areaList := GetArea(table, "", str, 1);
      if |areaList| == 0 {
        break;
      }
      if |areaList| == 1 {
        var area := areaList[0];
        r := ReplaceFragment(r, str, area);
        pr.provinceCode := area.code;
        pr.provinceName := area.name;
      }
      i := i + 1;
    }
  }
}
