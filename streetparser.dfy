/** `StreetParser.parseStreet`: a scan over the streets, scoped by the area code
    the record holds at each step. */
module StreetParser {
  import opened Text
  import StrUtil
  import opened AreaDb
  import opened Model
  import opened FillResult
  import opened LevelScan

  /** The loop of the Java method, which re-reads the loop bound on the
      shortened fragment; it ends as the scan specified by `Resolve` ends. */
  method ParseStreet(table: Table, pr: ParseResult, fragment: string) returns (r: string)
    modifies pr
    ensures (pr.Value(), r) == Resolve(table, StreetLevel, old(pr.Value()), fragment)
  {
    r := fragment;
    if !StrUtil.IsEmpty(StrUtil.Str(pr.streetCode)) {
      return;
    }
    var i := 1;
    while i < |r|
      invariant 1 <= i
      invariant Scan(table, StreetLevel, pr.Value(), r, i) == Scan(table, StreetLevel, old(pr.Value()), fragment, 1)
      decreases |r| - i
    {
      var str := r[..i + 1];
      var parentCode := pr.areaCode;
      var areaList := GetArea(table, parentCode, str, 4);
      if |areaList| == 0 {
        break;
      }
      if |areaList| == 1 {
        var area := areaList[0];
        r := ReplaceFragment(r, str, area);
        pr.streetCode := area.code;
        pr.streetName := area.name;
        pr.areaCode := area.parentCode;
        SetArea(table, pr);
        SetCity(table, pr);
        SetProvince(table, pr);
      }
      i := i + 1;
    }
  }
}
