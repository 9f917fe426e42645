/** The current engine's `ZhAddressParser.parse`: clean the text, take out the
    phone number and the postal code, split the rest into tokens, run each
    token through the four level parsers until every level is resolved, pick
    the recipient's name among the left-overs and join the others as the
    detail, then correct the city of the four municipalities. */
module ZhAddressParser {
  import opened Wrappers
  import opened Text
  import StrUtil
  import opened AreaDb
  import opened Model
  import opened Extract
  import opened NamePick
  import opened LevelScan
  import ProvinceParser
  import CityParser
  import AreaParser
  import StreetParser

  /** The four municipalities directly under the central government. */
  const Municipality: seq<string> := ["北京市", "天津市", "上海市", "重庆市"]

  /** The city names under which the table files a municipality's districts. */
  const SpecialArea: seq<string> := ["市辖区", "区", "县", "镇"]

  // ---------------------------------------------------------------------------
  // Specification
  // ---------------------------------------------------------------------------

  /** The pieces that are not blank, each trimmed, in order. */
  function Tokens(pieces: seq<string>): (r: seq<string>)
    ensures |r| <= |pieces|
  {
    if pieces == [] then []
    else
      var rest := Tokens(pieces[1..]);
      if StrUtil.IsNotBlank(StrUtil.Str(pieces[0])) then [StrUtil.JavaTrim(pieces[0])] + rest else rest
  }

  /** All four levels have a code. */
  predicate AllResolved(f: Fields)
  {
    !StrUtil.IsEmpty(StrUtil.Str(f.provinceCode)) && !StrUtil.IsEmpty(StrUtil.Str(f.cityCode))
    && !StrUtil.IsEmpty(StrUtil.Str(f.areaCode)) && !StrUtil.IsEmpty(StrUtil.Str(f.streetCode))
  }

  /** The parsers a token goes through, in order. */
  const ChainLevels: seq<Level> := [ProvinceLevel, CityLevel, AreaLevel, StreetLevel]

  /** A fragment through the parsers of `levels` in turn. */
  function ChainFrom(table: Table, f: Fields, fragment: string, levels: seq<Level>): (Fields, string)
    decreases |levels|
  {
    if levels == [] then (f, fragment)
    else
      var r := Resolve(table, levels[0], f, fragment);
      ChainFrom(table, r.0, r.1, levels[1..])
  }

  /** A token through the province, city, area and street parsers in turn. */
  function Chain(table: Table, f: Fields, token: string): (Fields, string)
  {
    ChainFrom(table, f, token, ChainLevels)
  }

  /** One token of the routing loop: the new record and what the token adds
      to the detail list (nothing, or one entry). */
  function Step(table: Table, f: Fields, token: string): (Fields, seq<string>)
  {
    if !AllResolved(f) then
      var c := Chain(table, f, token);
      (c.0, if StrUtil.IsNotBlank(StrUtil.Str(c.1)) then [c.1] else [])
    else (f, [token])
  }

  /** The routing loop over the tokens: the final record and the detail list. */
  function Route(table: Table, f: Fields, tokens: seq<string>): (Fields, seq<string>)
    decreases |tokens|
  {
    if tokens == [] then (f, [])
    else
      var s := Step(table, f, tokens[0]);
      var r := Route(table, s.0, tokens[1..]);
      (r.0, s.1 + r.1)
  }

  /** `replaceMunicipality`: for a municipality whose city is one of the special
      names, the city becomes the first level-2 row whose name starts with the
      province name; it changes only the city fields, and only then. */
  function FixMunicipality(table: Table, f: Fields): (r: Fields)
    ensures r.(cityCode := f.cityCode, cityName := f.cityName) == f
    ensures r != f ==>
      f.provinceName in Municipality && f.cityName in SpecialArea
      && GetArea(table, "", f.provinceName, 2) != []
      && r.cityCode == GetArea(table, "", f.provinceName, 2)[0].code
      && r.cityName == GetArea(table, "", f.provinceName, 2)[0].name
  {
    if StrUtil.IsBlank(StrUtil.Str(f.provinceName)) || StrUtil.IsBlank(StrUtil.Str(f.cityName)) then f
    else if f.provinceName in Municipality && f.cityName in SpecialArea then
      var found := GetArea(table, "", f.provinceName, 2);
      if found != [] then f.(cityCode := found[0].code, cityName := found[0].name) else f
    else f
  }

  /** The other direction: for a municipality whose city is a placeholder and
      whose lookup finds a row, the fix does replace the city by that row. */
  lemma FixMunicipalityApplies(table: Table, f: Fields)
    ensures (f.provinceName in Municipality && f.cityName in SpecialArea
             && GetArea(table, "", f.provinceName, 2) != []) ==>
      && FixMunicipality(table, f).cityCode == GetArea(table, "", f.provinceName, 2)[0].code
      && FixMunicipality(table, f).cityName == GetArea(table, "", f.provinceName, 2)[0].name
  {
    if f.provinceName in Municipality && f.cityName in SpecialArea {
      MunicipalNamesNotBlank();
      assert !StrUtil.IsBlank(StrUtil.Str(f.provinceName)) && !StrUtil.IsBlank(StrUtil.Str(f.cityName));
    }
  }

  /** The municipality names and the placeholder city names are not blank. */
  lemma MunicipalNamesNotBlank()
    ensures forall m | m in Municipality :: !StrUtil.IsBlank(StrUtil.Str(m))
    ensures forall m | m in SpecialArea :: !StrUtil.IsBlank(StrUtil.Str(m))
  {
    forall m | m in Municipality ensures !StrUtil.IsBlank(StrUtil.Str(m)) {
      CjkNotTrimBlank(m, 0);
    }
    forall m | m in SpecialArea ensures !StrUtil.IsBlank(StrUtil.Str(m)) {
      CjkNotTrimBlank(m, 0);
    }
  }

  /** The record after the name pick: the name is set, and a name that is not
      blank by the engine's test `b` is removed once from the detail list. */
  function PickSpec(f: Fields, detail: seq<string>, parseName: bool, maxLength: int, surnames: string,
                    b: Blankness): (Fields, seq<string>)
  {
    if parseName && detail != [] then
      var name := ChosenName(detail, maxLength, surnames);
      (f.(name := name), if !IsBlankBy(name, b) then RemoveFirst(detail, name) else detail)
    else (f, detail)
  }

  /** The phone step of `parse`: when asked for, the phone number is stored
      and taken out of the text, or the step fails. */
  function PhoneStage(f: Fields, text: string, parsePhone: bool): Result<(Fields, string)>
  {
    if !parsePhone then Ok((f, text))
    else
      match FilterPhoneJava(text)
      case Err(e) => Err(e)
      case Ok(p) => Ok((f.(phone := p.value), p.address))
  }

  /** The postal-code step of `parse`: when asked for, every six-digit run is
      taken out and the first is stored. */
  function PostalStage(f: Fields, text: string, postalCode: bool): (Fields, string)
  {
    if !postalCode then (f, text)
    else
      var e := FilterPostalCode(text, true);
      (f.(postalCode := e.value), e.address)
  }

  /** The extraction stage of both Java engines' `parse`, with the engine's
      keyword list: the record with the phone number and the postal code asked
      for, and the text that is left to split. */
  function Extraction(kws: seq<string>, address: string, parsePhone: bool, postalCode: bool): Result<(Fields, string)>
  {
    match PhoneStage(Default, CleanAddressWith(address, kws), parsePhone)
    case Err(e) => Err(e)
    case Ok(x) => Ok(PostalStage(x.0, x.1, postalCode))
  }

  /** The rest of `parse`: routing, the name pick, the detail join and the
      municipality fix. */
  function Assembly(table: Table, f: Fields, text: string, parseName: bool, surnames: string): Fields
  {
    var r := Route(table, f, Tokens(Split(text)));
    var p := PickSpec(r.0, r.1, parseName, NameMaxLength, surnames, TrimBlank);
    FixMunicipality(table, p.0.(detail := Concat(p.1)))
  }

  /** `parse(address, parseName, parsePhone, postalCode)`, whose only failure is
      the third phone rewrite's missing group. */
  function ParseSpec(table: Table, address: string, parseName: bool, parsePhone: bool,
                     postalCode: bool, surnames: string): Result<Fields>
  {
    if StrUtil.IsBlank(StrUtil.Str(address)) then Ok(Default)
    else
      match Extraction(Keywords, address, parsePhone, postalCode)
      case Err(e) => Err(e)
      case Ok(x) => Ok(Assembly(table, x.0, x.1, parseName, surnames))
  }

  // ---------------------------------------------------------------------------
  // The engine
  // ---------------------------------------------------------------------------

  method ReplaceMunicipality(table: Table, pr: ParseResult)
    modifies pr
    ensures pr.Value() == FixMunicipality(table, old(pr.Value()))
  {
    var provinceName := pr.provinceName;
    if StrUtil.IsBlank(StrUtil.Str(provinceName)) {
      return;
    }
    var cityName := pr.cityName;
    if StrUtil.IsBlank(StrUtil.Str(cityName)) {
      return;
    }
    if provinceName in Municipality && cityName in SpecialArea {
      var areaList := GetArea(table, "", pr.provinceName, 2);
      if areaList != [] {
        var area := areaList[0];
        pr.cityCode := area.code;
        pr.cityName := area.name;
      }
    }
  }

  /** The body of the routing loop, for one token. */
  method RouteToken(table: Table, pr: ParseResult, detail: seq<string>, splitAddress: string)
      returns (newDetail: seq<string>)
    modifies pr
    ensures (pr.Value(), newDetail) == (Step(table, old(pr.Value()), splitAddress).0,
                                        detail + Step(table, old(pr.Value()), splitAddress).1)
  {
    if !AllResolved(pr.Value()) {
      ghost var f0 := pr.Value();
      var fragment := ProvinceParser.ParseProvince(table, pr, splitAddress);
      ghost var f1, r1 := pr.Value(), fragment;
      fragment := CityParser.ParseCity(table, pr, fragment);
      ghost var f2, r2 := pr.Value(), fragment;
      fragment := AreaParser.ParseArea(table, pr, fragment);
      ghost var f3, r3 := pr.Value(), fragment;
      fragment := StreetParser.ParseStreet(table, pr, fragment);
      assert ChainFrom(table, f3, r3, ChainLevels[3..]) == (pr.Value(), fragment);
      assert ChainFrom(table, f2, r2, ChainLevels[2..]) == (pr.Value(), fragment);
      assert ChainFrom(table, f1, r1, ChainLevels[1..]) == (pr.Value(), fragment);
      assert ChainFrom(table, f0, splitAddress, ChainLevels) == (pr.Value(), fragment);
      if StrUtil.IsNotBlank(StrUtil.Str(fragment)) {
        newDetail := detail + [fragment];
      } else {
        newDetail := detail;
        assert detail + [] == detail;
      }
    } else {
      newDetail := detail + [splitAddress];
    }
  }

  /** The routing loop of `parse`. */
  method RouteAll(table: Table, pr: ParseResult, splitAddressList: seq<string>) returns (detail: seq<string>)
    modifies pr
    ensures (pr.Value(), detail) == Route(table, old(pr.Value()), splitAddressList)
  {
    detail := [];
    var k := 0;
    assert splitAddressList[0..] == splitAddressList;
    ghost var r0 := Route(table, pr.Value(), splitAddressList);
    assert [] + r0.1 == r0.1;
    while k < |splitAddressList|
      invariant 0 <= k <= |splitAddressList|
      invariant Prepend(detail, Route(table, pr.Value(), splitAddressList[k..]))
        == Route(table, old(pr.Value()), splitAddressList)
    {
      PrependStep(table, pr.Value(), splitAddressList, k, detail);
      detail := RouteToken(table, pr, detail, splitAddressList[k]);
      k := k + 1;
    }
    assert splitAddressList[k..] == [];
    assert detail + [] == detail;
  }

  /** A routing result with `detail` in front of its detail list. */
  function Prepend(detail: seq<string>, r: (Fields, seq<string>)): (Fields, seq<string>)
  {
    (r.0, detail + r.1)
  }

  /** The routing of the tokens from `k` on, behind the detail collected so
      far, is one step and the routing of the rest. */
  lemma PrependStep(table: Table, f: Fields, tokens: seq<string>, k: nat, detail: seq<string>)
    requires k < |tokens|
    ensures var s := Step(table, f, tokens[k]);
      Prepend(detail, Route(table, f, tokens[k..])) == Prepend(detail + s.1, Route(table, s.0, tokens[k + 1..]))
  {
    assert tokens[k..][0] == tokens[k];
    assert tokens[k..][1..] == tokens[k + 1..];
    var s := Step(table, f, tokens[k]);
    var r := Route(table, s.0, tokens[k + 1..]);
    assert detail + (s.1 + r.1) == (detail + s.1) + r.1;
  }

  /** What `parse` does after the extraction stage, on the text left. */
  method Assemble(table: Table, pr: ParseResult, cleanedAddress: string, parseName: bool, surnames: string)
    modifies pr
    ensures pr.Value() == Assembly(table, old(pr.Value()), cleanedAddress, parseName, surnames)
  {
    var splitAddressList := Tokens(Split(cleanedAddress));
    var detail := RouteAll(table, pr, splitAddressList);
    detail := PickNameInto(pr, detail, parseName, surnames);
    pr.detail := Concat(detail);
    ReplaceMunicipality(table, pr);
  }

  /** The name step of `parse`: the name is picked from the detail list and,
      when it is not blank, removed from it once. */
  method PickNameInto(pr: ParseResult, detail: seq<string>, parseName: bool, surnames: string)
      returns (rest: seq<string>)
    modifies pr
    ensures (pr.Value(), rest) == PickSpec(old(pr.Value()), detail, parseName, NameMaxLength, surnames, TrimBlank)
  {
    rest := detail;
    if parseName && detail != [] {
      var name := PickName(detail, NameMaxLength, surnames, TrimBlank);
      pr.name := name;
      if StrUtil.IsNotBlank(StrUtil.Str(name)) {
        rest := RemoveFirst(detail, name);
      }
    }
  }

  method FilterPhoneInto(pr: ParseResult, text: string, parsePhone: bool) returns (res: Result<string>)
    modifies pr
    ensures res.Ok? <==> PhoneStage(old(pr.Value()), text, parsePhone).Ok?
    ensures res.Ok? ==> PhoneStage(old(pr.Value()), text, parsePhone) == Ok((pr.Value(), res.value))
    ensures res.Err? ==> PhoneStage(old(pr.Value()), text, parsePhone) == Err(res.error)
  {
    if !parsePhone {
      return Ok(text);
    }
    var phoneResult := FilterPhoneJava(text);
    if phoneResult.Err? {
      return Err(phoneResult.error);
    }
    pr.phone := phoneResult.value.value;
    return Ok(phoneResult.value.address);
  }

  method FilterPostalInto(pr: ParseResult, text: string, postalCode: bool) returns (rest: string)
    modifies pr
    ensures (pr.Value(), rest) == PostalStage(old(pr.Value()), text, postalCode)
  {
    rest := text;
    if postalCode {
      var postalCodeResult := FilterPostalCode(text, true);
      pr.postalCode := postalCodeResult.value;
      rest := postalCodeResult.address;
    }
  }

  /** The extraction stage of `parse` on a fresh record: the phone number and
      the postal code are stored and the text left is returned. */
  method ExtractFields(pr: ParseResult, kws: seq<string>, address: string, parsePhone: bool, postalCode: bool)
      returns (res: Result<string>)
    modifies pr
    requires pr.Value() == Default
    ensures res.Ok? <==> Extraction(kws, address, parsePhone, postalCode).Ok?
    ensures res.Ok? ==> Extraction(kws, address, parsePhone, postalCode) == Ok((pr.Value(), res.value))
    ensures res.Err? ==> Extraction(kws, address, parsePhone, postalCode) == Err(res.error)
  {
    var cleanedAddress := CleanAddressWith(address, kws);
    var phoneResult := FilterPhoneInto(pr, cleanedAddress, parsePhone);
    if phoneResult.Err? {
      return Err(phoneResult.error);
    }
    var rest := FilterPostalInto(pr, phoneResult.value, postalCode);
    return Ok(rest);
  }

  method Parse(table: Table, address: string, parseName: bool, parsePhone: bool,
               postalCode: bool, surnames: string) returns (res: Result<ParseResult>)
    ensures res.Ok? <==> ParseSpec(table, address, parseName, parsePhone, postalCode, surnames).Ok?
    ensures res.Ok? ==>
      fresh(res.value) && ParseSpec(table, address, parseName, parsePhone, postalCode, surnames) == Ok(res.value.Value())
  {
    var parseResult := new ParseResult();
    if StrUtil.IsBlank(StrUtil.Str(address)) {
      return Ok(parseResult);
    }
    var cleaned := ExtractFields(parseResult, Keywords, address, parsePhone, postalCode);
    if cleaned.Err? {
      return Err(cleaned.error);
    }
    Assemble(table, parseResult, cleaned.value, parseName, surnames);
    return Ok(parseResult);
  }

  // ---------------------------------------------------------------------------
  // Lemmas
  // ---------------------------------------------------------------------------

  /** A piece that is not blank trims to a token that is not blank either. */
  lemma TrimmedToken(p: string)
    requires StrUtil.IsNotBlank(StrUtil.Str(p))
    ensures StrUtil.IsNotBlank(StrUtil.Str(StrUtil.JavaTrim(p)))
  {
    var t := StrUtil.JavaTrim(p);
    StrUtil.EmptyIsBlank(StrUtil.Str(p));
    assert StrUtil.Trim(StrUtil.Str(p)) == StrUtil.Str(t);
    assert t[0] > ' ';
    StrUtil.BlankIff(StrUtil.Str(t));
  }

  /** The tokens are not blank and are their own trim. */
  lemma {:induction false} TokensSpec(pieces: seq<string>)
    ensures forall t | t in Tokens(pieces) :: StrUtil.IsNotBlank(StrUtil.Str(t)) && StrUtil.JavaTrim(t) == t
    decreases |pieces|
  {
    if pieces != [] {
      TokensSpec(pieces[1..]);
      var rest := Tokens(pieces[1..]);
      if StrUtil.IsNotBlank(StrUtil.Str(pieces[0])) {
        var t := StrUtil.JavaTrim(pieces[0]);
        StripIdempotent(pieces[0], StrUtil.JavaWhite);
        assert StrUtil.JavaTrim(t) == t;
        TrimmedToken(pieces[0]);
        assert Tokens(pieces) == [t] + rest;
      } else {
        assert Tokens(pieces) == rest;
      }
    }
  }

  /** Once every level is resolved, the remaining tokens go to the detail list
      verbatim and the record no longer changes. */
  lemma {:induction false} RouteResolvedVerbatim(table: Table, f: Fields, tokens: seq<string>)
    requires AllResolved(f)
    ensures Route(table, f, tokens) == (f, tokens)
    decreases |tokens|
  {
    if tokens != [] {
      assert Step(table, f, tokens[0]) == (f, [tokens[0]]);
      RouteResolvedVerbatim(table, f, tokens[1..]);
      assert tokens == [tokens[0]] + tokens[1..];
    }
  }

  /** A level parser never clears a code in a well-formed table, and the
      fragment it leaves is a suffix of the one it was given. */
  lemma ResolveSpec(table: Table, lv: Level, f: Fields, fragment: string)
    requires WellFormed(table)
    ensures CodesKept(f, Resolve(table, lv, f, fragment).0)
    ensures var r := Resolve(table, lv, f, fragment).1; |r| <= |fragment| && r == fragment[|fragment| - |r|..]
  {
    if Code(f, lv) == "" {
      ScanCodesKept(table, lv, f, fragment, 1);
      ScanSuffix(table, lv, f, fragment, 1);
    }
  }

  /** The parsers of a chain never clear a code in a well-formed table, and
      the fragment they leave is a suffix of the one they were given. */
  lemma {:induction false} ChainSpec(table: Table, f: Fields, fragment: string, levels: seq<Level>)
    requires WellFormed(table)
    ensures CodesKept(f, ChainFrom(table, f, fragment, levels).0)
    ensures IsSuffix(ChainFrom(table, f, fragment, levels).1, fragment)
    decreases |levels|
  {
    if levels != [] {
      var r := Resolve(table, levels[0], f, fragment);
      ResolveSpec(table, levels[0], f, fragment);
      ChainSpec(table, r.0, r.1, levels[1..]);
      SuffixOfSuffix(fragment, r.1, ChainFrom(table, r.0, r.1, levels[1..]).1);
    }
  }

  /** `u` is a suffix of `t`. */
  predicate IsSuffix(u: string, t: string)
  {
    |u| <= |t| && u == t[|t| - |u|..]
  }

  /** One routing step adds nothing or one suffix of the token, which is not
      blank when the token is not, and in a well-formed table clears no code. */
  lemma StepSpec(table: Table, f: Fields, token: string)
    requires WellFormed(table)
    ensures CodesKept(f, Step(table, f, token).0)
    ensures forall x | x in Step(table, f, token).1 ::
      IsSuffix(x, token) && (StrUtil.IsNotBlank(StrUtil.Str(token)) ==> StrUtil.IsNotBlank(StrUtil.Str(x)))
  {
    if !AllResolved(f) {
      ChainSpec(table, f, token, ChainLevels);
    } else {
      assert IsSuffix(token, token);
    }
  }

  /** Routing non-blank tokens adds only non-blank entries, each a suffix of one
      of the tokens, and in a well-formed table never clears a code. */
  lemma {:induction false} RouteSpec(table: Table, f: Fields, tokens: seq<string>)
    requires WellFormed(table)
    requires forall t | t in tokens :: StrUtil.IsNotBlank(StrUtil.Str(t))
    ensures CodesKept(f, Route(table, f, tokens).0)
    ensures forall x | x in Route(table, f, tokens).1 ::
      StrUtil.IsNotBlank(StrUtil.Str(x)) && exists t | t in tokens :: IsSuffix(x, t)
    decreases |tokens|
  {
    if tokens != [] {
      var s := Step(table, f, tokens[0]);
      StepSpec(table, f, tokens[0]);
      assert tokens[0] in tokens;
      assert forall t | t in tokens[1..] :: t in tokens;
      RouteSpec(table, s.0, tokens[1..]);
    }
  }

  /** `parse` fails exactly when the phone number is asked for, the address is
      not blank and the cleaned, regrouped text has the `dddd dddd dddd` shape. */
  lemma ParseFails(table: Table, address: string, parseName: bool, parsePhone: bool,
                   postalCode: bool, surnames: string)
    ensures ParseSpec(table, address, parseName, parsePhone, postalCode, surnames).Err? <==>
      parsePhone && !StrUtil.IsBlank(StrUtil.Str(address))
      && HasSpacedFour(JoinGroups(JoinGroups(CleanAddress(address), '-'), ' '))
  {
    FilterPhoneJavaSpec(CleanAddress(address));
  }

  /** A blank address yields the record as constructed. */
  lemma ParseBlank(table: Table, address: string, parseName: bool, parsePhone: bool,
                   postalCode: bool, surnames: string)
    requires StrUtil.IsBlank(StrUtil.Str(address))
    ensures ParseSpec(table, address, parseName, parsePhone, postalCode, surnames) == Ok(Default)
  {
  }

  /** The name pick removes at most the chosen name: the remaining entries are
      the detail list without the first occurrence of the name, and the name is
      "" or one of the entries, which then holds a CJK character; whatever the
      engine's blank test, exactly a name that is not "" is removed. */
  lemma PickSpecRemovesName(f: Fields, detail: seq<string>, parseName: bool, maxLength: int,
                            surnames: string, b: Blankness)
    ensures var (g, rest) := PickSpec(f, detail, parseName, maxLength, surnames, b);
      g.(name := f.name) == f && (g.name == f.name || g.name == "" || (g.name in detail && HasCjk(g.name)))
    ensures var (g, rest) := PickSpec(f, detail, parseName, maxLength, surnames, b);
      parseName && detail != [] && g.name != "" ==>
        g.name in detail && multiset(rest) + multiset{g.name} == multiset(detail)
        && exists k | 0 <= k < |detail| :: detail[k] == g.name && g.name !in detail[..k] && rest == detail[..k] + detail[k + 1..]
    ensures var (g, rest) := PickSpec(f, detail, parseName, maxLength, surnames, b);
      !(parseName && detail != [] && g.name != "") ==> rest == detail
  {
    if parseName && detail != [] {
      var name := ChosenName(detail, maxLength, surnames);
      ChosenNameIsFragment(detail, maxLength, surnames);
      ChosenNameBlank(detail, maxLength, surnames, b);
      if name != "" {
        var k := RemoveFirstCuts(detail, name);
      }
    }
  }
}
