/** `CityParser.parseCity`: a scan over the cities, scoped by the province code
    the record holds at each step. */
module CityParser {
  import opened Text
  import StrUtil
  import opened AreaDb
  import opened Model
  import opened FillResult
  import opened LevelScan

  /** The loop of the Java method, which re-reads the loop bound on the
      shortened fragment; it ends as the scan specified by `Resolve` ends. */
  method ParseCity(table: Table, pr: ParseResult, fragment: string) returns (r: string)
    modifies pr
    ensures (pr.Value(), r) == Resolve(table, CityLevel, old(pr.Value()), fragment)
  {
    r := fragment;
    if !StrUtil.IsEmpty(StrUtil.Str(pr.cityCode)) {
      return;
    }
    var i := 1;
    while i < |r|
      invariant 1 <= i
      invariant Scan(table, CityLevel, pr.Value(), r, i) == Scan(table, CityLevel, old(pr.Value()), fragment, 1)
      decreases |r| - i
    {
      var str := r[..i + 1];
      var parentCode := pr.provinceCode;
      var areaList := GetArea(table, parentCode, str, 2);
      if |areaList| == 0 {
        break;
      }
      if |areaList| == 1 {
        var area := areaList[0];
        r := ReplaceFragment(r, str, area);
        pr.cityCode := area.code;
        pr.cityName := area.name;
        pr.provinceCode := area.parentCode;
        SetProvince(table, pr);
      }
      i := i + 1;
    }
  }
}
