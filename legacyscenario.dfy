/** The scenario of the legacy engine's test, on a small dump holding only the
    records it needs: the municipality of Chongqing, two of its cities (one of
    them named like the municipality, as `replaceMunicipality` expects), and
    the county of Dianjiang. */
module LegacyScenario {
  import opened Wrappers
  import opened Text
  import opened Model
  import opened LevelScan
  import opened RegexMatch
  import opened LegacyZhAddressParser

  const Chongqing: Rec := Rec("500000", "重庆市", "", "", "")
  const ChongqingCity: Rec := Rec("500100", "重庆市", "500000", "", "")
  const Counties: Rec := Rec("500200", "县", "500000", "", "")
  const Dianjiang: Rec := Rec("500231", "垫江县", "500000", "500200", "")

  const Scenario: Dumps := Dumps([Chongqing], [ChongqingCity, Counties], [Dianjiang], [])

  const P1: Picked := Picked([Chongqing], [], [], [])
  const P2: Picked := Picked([Chongqing], [Counties], [Dianjiang], [])

  /** The name token matches nothing. */
  lemma NameToken()
    ensures RegionStep(Scenario, NonePicked, "王晓光") == (NonePicked, ["王晓光"])
  {
    var f := "王晓光";
    assert f[..2] == "王晓";
    assert Chongqing.name[..2][0] == '重';
    assert !StartsWith(Chongqing.name, "王晓");
    assert Candidates(Scenario.provinces, ProvinceLevel, f[..2], NonePicked) == [];
    assert !StartsWith(Counties.name, "王晓");
    assert Candidates(Scenario.cities, CityLevel, f[..2], NonePicked) == [];
    assert !StartsWith(Dianjiang.name, "王晓");
    assert Candidates(Scenario.areas, AreaLevel, f[..2], NonePicked) == [];
    assert LastUnique(Scenario.provinces, ProvinceLevel, NonePicked, f) == None;
    assert LastUnique(Scenario.cities, CityLevel, NonePicked, f) == None;
    assert LastUnique(Scenario.areas, AreaLevel, NonePicked, f) == None;
    assert LastUnique(Scenario.streets, StreetLevel, NonePicked, f) == None;
  }

  /** The municipality token commits the province and leaves nothing. */
  lemma ProvinceToken()
    ensures RegionStep(Scenario, NonePicked, "重庆市") == (P1, [])
  {
    var f := "重庆市";
    assert f[..2] == "重庆" && f[..3] == f;
    assert Chongqing.name[2..] == "市";
    assert IsCandidate(Chongqing, ProvinceLevel, "重庆", NonePicked);
    assert IsCandidate(Chongqing, ProvinceLevel, f, NonePicked);
    assert Candidates(Scenario.provinces, ProvinceLevel, f[..2], NonePicked) == [Chongqing];
    assert Candidates(Scenario.provinces, ProvinceLevel, f[..3], NonePicked) == [Chongqing];
    assert LastUnique(Scenario.provinces, ProvinceLevel, NonePicked, f) == Some((Chongqing, f));
    assert ReplaceFirst(f, f, "") == "";
    assert RegexResolve(Scenario, ProvinceLevel, NonePicked, f) == (P1, "");
  }

  /** The county token commits the area and fills the city from it. */
  lemma CountyToken()
    ensures RegionStep(Scenario, P1, "垫江县") == (P2, [])
  {
    var f := "垫江县";
    CountyNoCity();
    CountyArea();
    CountyCity();
    assert ReplaceFirst(f, f, "") == "";
    assert RegexResolve(Scenario, AreaLevel, P1, f) == (P2, "");
  }

  /** No city of the dump starts like the county. */
  lemma CountyNoCity()
    ensures LastUnique(Scenario.cities, CityLevel, P1, "垫江县") == None
  {
    var f := "垫江县";
    assert f[..2] == "垫江";
    assert ChongqingCity.name[..2][0] == '重';
    assert !StartsWith(ChongqingCity.name, "垫江") && !StartsWith(Counties.name, "垫江");
    assert Candidates(Scenario.cities, CityLevel, f[..2], P1) == [];
  }

  /** The county is the one area whose name the token starts with, at two
      characters and at three. */
  lemma CountyArea()
    ensures LastUnique(Scenario.areas, AreaLevel, P1, "垫江县") == Some((Dianjiang, "垫江县"))
  {
    var f := "垫江县";
    assert f[..2] == "垫江" && f[..3] == f;
    assert Dianjiang.name[2..] == "县";
    assert IsCandidate(Dianjiang, AreaLevel, "垫江", P1);
    assert IsCandidate(Dianjiang, AreaLevel, f, P1);
    assert Candidates(Scenario.areas, AreaLevel, f[..2], P1) == [Dianjiang];
    assert Candidates(Scenario.areas, AreaLevel, f[..3], P1) == [Dianjiang];
  }

  /** The street token, which the dump does not hold, goes to the detail list. */
  lemma StreetToken()
    ensures RegionStep(Scenario, P2, "太平镇") == (P2, ["太平镇"])
  {
    assert LastUnique(Scenario.streets, StreetLevel, P2, "太平镇") == None;
  }

  /** The city the county points to is the second city record. */
  lemma CountyCity()
    ensures AncestorOf(Scenario, CityLevel, Dianjiang) == Some(Counties)
  {
    assert CodeFor(Dianjiang, CityLevel) == "500200";
    assert ChongqingCity.code != "500200";
    assert !KeyMatches(ChongqingCity, CityLevel, "500200", "500000", "500200");
    assert AllCjk(Counties.name);
    assert KeyMatches(Counties, CityLevel, "500200", "500000", "500200");
    assert Scenario.cities[1..] == [Counties];
    assert Lookup([Counties], CityLevel, "500200", "500000", "500200") == Some(Counties);
  }

  /** Routing a list is the step on its first token followed by the routing
      of the rest. */
  lemma RouteFirst(p: Picked, x: string, rest: seq<string>)
    ensures var s := Step(Scenario, p, x); var r := Route(Scenario, s.0, rest);
      Route(Scenario, p, [x] + rest) == (r.0, s.1 + r.1)
  {
    assert ([x] + rest)[0] == x;
    assert ([x] + rest)[1..] == rest;
  }

  lemma RouteStreet()
    ensures Route(Scenario, P2, ["太平镇"]) == (P2, ["太平镇"])
  {
    StreetToken();
    RouteFirst(P2, "太平镇", []);
    assert ["太平镇"] + [] == ["太平镇"];
  }

  lemma RouteCounty()
    ensures Route(Scenario, P1, ["垫江县", "太平镇"]) == (P2, ["太平镇"])
  {
    CountyToken();
    RouteStreet();
    RouteFirst(P1, "垫江县", ["太平镇"]);
    assert [] + ["太平镇"] == ["太平镇"];
  }

  lemma RouteProvince()
    ensures Route(Scenario, NonePicked, ["重庆市", "垫江县", "太平镇"]) == (P2, ["太平镇"])
  {
    ProvinceToken();
    RouteCounty();
    RouteFirst(NonePicked, "重庆市", ["垫江县", "太平镇"]);
    assert [] + ["太平镇"] == ["太平镇"];
  }

  /** The name token is routed through the four parsers, since no region is
      picked yet, and stays as it is. */
  lemma NameStep()
    ensures Step(Scenario, NonePicked, "王晓光") == (NonePicked, ["王晓光"])
  {
    NameToken();
  }

  lemma RouteName()
    ensures Route(Scenario, NonePicked, ["王晓光", "重庆市", "垫江县", "太平镇"]) == (P2, ["王晓光", "太平镇"])
  {
    NameStep();
    RouteProvince();
    RouteFirst(NonePicked, "王晓光", ["重庆市", "垫江县", "太平镇"]);
    NameLists();
  }

  lemma NameLists()
    ensures ["王晓光"] + ["重庆市", "垫江县", "太平镇"] == ["王晓光", "重庆市", "垫江县", "太平镇"]
    ensures ["王晓光"] + ["太平镇"] == ["王晓光", "太平镇"]
  {
  }

  /** The municipality fix applies to Chongqing and its counties. */
  lemma ScenarioFix(g: Fields)
    requires g.provinceName == "重庆市" && g.cityName == "县"
    ensures FixMunicipalityExact(Scenario, g) == g.(cityName := "重庆市", cityCode := "500100")
  {
    assert g.provinceName[0] !in Hutool.BlankChars;
    assert g.cityName[0] !in Hutool.BlankChars;
    assert ZhAddressParser.Municipality[3] == g.provinceName;
    assert ZhAddressParser.SpecialArea[2] == g.cityName;
    assert FirstNamed(Scenario.cities, "重庆市") == Some(ChongqingCity);
  }
}
