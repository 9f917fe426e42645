/** `AreaParser.parseArea`: a scan over the areas, scoped by the city code the
    record holds at each step. */
module AreaParser {
  import opened Text
  import StrUtil
  import opened AreaDb
  import opened Model
  import opened FillResult
  import opened LevelScan

  /** The loop of the Java method, which re-reads the loop bound on the
      shortened fragment; it ends as the scan specified by `Resolve` ends. */
  method ParseArea(table: Table, pr: ParseResult, fragment: string) returns (r: string)
    modifies pr
    ensures (pr.Value(), r) == Resolve(table, AreaLevel, old(pr.Value()), fragment)
  {
    r := fragment;
    if !StrUtil.IsEmpty(StrUtil.Str(pr.areaCode)) {
      return;
    }
    var i := 1;
    while i < |r|
      invariant 1 <= i
      invariant Scan(table, AreaLevel, pr.Value(), r, i) == Scan(table, AreaLevel, old(pr.Value()), fragment, 1)
      decreases |r| - i
    {
      var str := r[..i + 1];
      var parentCode := pr.cityCode;
      var areaList := GetArea(table, parentCode, str, 3);
      if |areaList| == 0 {
        break;
      }
      if |areaList| == 1 {
        var area := areaList[0];
        r := ReplaceFragment(r, str, area);
        pr.areaCode := area.code;
        pr.areaName := area.name;
        pr.cityCode := area.parentCode;
        SetCity(table, pr);
        SetProvince(table, pr);
      }
      i := i + 1;
    }
  }
}
