/** The JavaScript port `app/lib/address-parse.js`: the same cleaning, phone,
    postal-code and name steps as the Java engines, and two ways of finding
    the regions of each token. Type 0 looks regions up by regular expression
    in the JSON dumps, much like the legacy Java engine. Type 1 walks the
    tables in order and takes the first record a prefix of whose name starts
    the token. The region arrays are JavaScript arrays; `find` may push
    `undefined` into them, so each entry is an `Option`. */
module AddressParseJs {
  import opened Wrappers
  import opened Text
  import opened Extract
  import opened NamePick
  import opened Model
  import opened LevelScan
  import opened RegexMatch

  // ---------------------------------------------------------------------------
  // The region arrays
  // ---------------------------------------------------------------------------

  /** A region array; `None` is an `undefined` entry. */
  type Slots = seq<Option<Rec>>

  /** The arrays `province`, `city`, `area` and `street`. */
  datatype Arrays = Arrays(province: Slots, city: Slots, area: Slots, street: Slots)

  const NoArrays: Arrays := Arrays([], [], [], [])

  /** `arr[0]`: `undefined` for an empty array. */
  function Head(s: Slots): Option<Rec>
  {
    if s == [] then None else s[0]
  }

  function Slot(a: Arrays, lv: Level): Slots
  {
    match lv
    case ProvinceLevel => a.province
    case CityLevel => a.city
    case AreaLevel => a.area
    case StreetLevel => a.street
  }

  /** `!arr[0]` is false for every array. */
  predicate AllPresent(a: Arrays)
  {
    Head(a.province).Some? && Head(a.city).Some? && Head(a.area).Some? && Head(a.street).Some?
  }

  /** The record `arr[0] ? arr[0].code : '[0-9]{1,6}'` pins, as a list of at
      most one. */
  function Pinned(s: Slots): seq<Rec>
  {
    match Head(s)
    case None => []
    case Some(r) => [r]
  }

  /** The ancestors the candidate patterns pin. */
  function Pins(a: Arrays): Picked
  {
    Picked(Pinned(a.province), Pinned(a.city), Pinned(a.area), Pinned(a.street))
  }

  /** `Array.prototype.find(item => item.code === code)`. */
  function FindCode(recs: seq<Rec>, code: string): Option<Rec>
  {
    if recs == [] then None
    else if recs[0].code == code then Some(recs[0])
    else FindCode(recs[1..], code)
  }

  // ---------------------------------------------------------------------------
  // Type 0: `parseRegionWithRegexp`
  // ---------------------------------------------------------------------------

  /** An unguarded back-fill: an empty array gets the first record the lookup
      pattern matches; when none does, `JSON.parse(match[0])` reads index 0
      of `null` and throws. */
  function FillRequired(d: Dumps, l: Level, s: Slots, rec: Rec): Result<Slots>
  {
    if |s| != 0 then Ok(s)
    else
      match AncestorOf(d, l, rec)
      case None => Err(NullIndex)
      case Some(x) => Ok([Some(x)])
  }

  /** The guarded back-fill of the area array (`if (matchArea)`). */
  function FillGuarded(d: Dumps, l: Level, s: Slots, rec: Rec): Slots
  {
    if |s| == 0 && AncestorOf(d, l, rec).Some? then [Some(AncestorOf(d, l, rec).value)] else s
  }

  /** The back-fill after a commit at level `lv`: the province array at every
      level below the province, the city array at area and street, both
      unguarded; the area array at street, guarded. */
  function BackfillJs(d: Dumps, lv: Level, a: Arrays, rec: Rec): Result<Arrays>
  {
    if lv == ProvinceLevel then Ok(a)
    else
      match FillRequired(d, ProvinceLevel, a.province, rec)
      case Err(e) => Err(e)
      case Ok(p) =>
        if lv == CityLevel then Ok(a.(province := p))
        else
          match FillRequired(d, CityLevel, a.city, rec)
          case Err(e) => Err(e)
          case Ok(c) =>
            if lv == AreaLevel then Ok(a.(province := p, city := c))
            else Ok(a.(province := p, city := c, area := FillGuarded(d, AreaLevel, a.area, rec)))
  }

  /** How the matched prefix leaves the fragment: every occurrence at province
      and city (`new RegExp(matchStr, 'g')`), the first one at area and street
      (a string pattern). */
  function Cut(lv: Level, fragment: string, s: string): string
  {
    if lv == ProvinceLevel || lv == CityLevel then ReplaceAll(fragment, s, "") else ReplaceFirst(fragment, s, "")
  }

  /** One level block of `parseRegionWithRegexp`: it runs only when its array
      is empty, keeps the last prefix with exactly one match, and then cuts
      the prefix and fills the ancestors. */
  function RegexLevel(d: Dumps, lv: Level, a: Arrays, fragment: string): Result<(Arrays, string)>
  {
    if |Slot(a, lv)| != 0 then Ok((a, fragment))
    else
      match LastUnique(Dump(d, lv), lv, Pins(a), fragment)
      case None => Ok((a, fragment))
      case Some((rec, s)) =>
        var own := match lv
          case ProvinceLevel => a.(province := [Some(rec)])
          case CityLevel => a.(city := [Some(rec)])
          case AreaLevel => a.(area := [Some(rec)])
          case StreetLevel => a.(street := [Some(rec)]);
        match BackfillJs(d, lv, own, rec)
        case Err(e) => Err(e)
        case Ok(b) => Ok((b, Cut(lv, fragment, s)))
  }

  /** The next level block, unless an earlier one threw. */
  function Then(d: Dumps, lv: Level, r: Result<(Arrays, string)>): Result<(Arrays, string)>
  {
    match r
    case Err(e) => Err(e)
    case Ok((a, fragment)) => RegexLevel(d, lv, a, fragment)
  }

  /** `parseRegionWithRegexp(fragment, hasParseResult)`: the four blocks in
      turn and the fragment left, when not empty, as the one detail entry. */
  function RegexStep(d: Dumps, has: Arrays, fragment: string): Result<(Arrays, seq<string>)>
  {
    var r := Then(d, StreetLevel, Then(d, AreaLevel, Then(d, CityLevel, RegexLevel(d, ProvinceLevel, has, fragment))));
    match r
    case Err(e) => Err(e)
    case Ok((a, rest)) => Ok((a, if |rest| > 0 then [rest] else []))
  }

  // ---------------------------------------------------------------------------
  // Type 1: `parseRegion`
  // ---------------------------------------------------------------------------

  /** The inner loop from prefix length `i` down to 2: the first prefix of
      `name` that starts `fragment`, or "". */
  function LongestFrom(name: string, fragment: string, i: nat): string
    requires i <= |name|
    decreases i
  {
    if i <= 1 then ""
    else if StartsWith(fragment, name[..i]) then name[..i]
    else LongestFrom(name, fragment, i - 1)
  }

  /** `replaceName`: the longest prefix of `name`, two characters or more,
      that `fragment` starts with (`indexOf(temp) === 0`), or "". */
  function LongestPrefix(name: string, fragment: string): string
  {
    LongestFrom(name, fragment, |name|)
  }

  /** The table loop's test on the heads of the arrays found so far. With no
      ancestor found a record of any scope is tried; otherwise its province
      code must be the province's, or its city code the city's, or (streets)
      its area code the area's. A city is tried only under the province found. */
  predicate InScope(lv: Level, r: Rec, a: Arrays)
  {
    var p := Head(a.province);
    var c := Head(a.city);
    var ar := Head(a.area);
    match lv
    case ProvinceLevel => true
    case CityLevel => p.None? || p.value.code == r.provinceCode
    case AreaLevel =>
      || (p.None? && c.None?)
      || (p.Some? && p.value.code == r.provinceCode)
      || (c.Some? && c.value.code == r.cityCode)
    case StreetLevel =>
      || (p.None? && c.None? && ar.None?)
      || (p.Some? && p.value.code == r.provinceCode)
      || (c.Some? && c.value.code == r.cityCode)
      || (ar.Some? && ar.value.code == r.areaCode)
  }

  /** The record the table loop stops at. */
  predicate Fits(r: Rec, lv: Level, a: Arrays, fragment: string)
  {
    InScope(lv, r, a) && LongestPrefix(r.name, fragment) != ""
  }

  /** The first record of the table, in its order, that fits, with its
      `replaceName`. */
  function FirstFit(recs: seq<Rec>, lv: Level, a: Arrays, fragment: string): Option<(Rec, string)>
  {
    if recs == [] then None
    else if Fits(recs[0], lv, a, fragment) then Some((recs[0], LongestPrefix(recs[0].name, fragment)))
    else FirstFit(recs[1..], lv, a, fragment)
  }

  /** `!current && arr.push(table.find(...))`: an entry is pushed, possibly
      `undefined`, only when the array has no head. */
  function Missing(s: Slots, recs: seq<Rec>, code: string): Slots
  {
    if Head(s).None? then [FindCode(recs, code)] else []
  }

  /** One table loop of `parseRegion`. The record found is pushed. Ancestors
      without a head get the record `find` returns for its codes; with no
      ancestor at all, the area of a street is looked up among the streets,
      as the source does. The prefix goes from the fragment: every
      occurrence for a province, and for a city under a province; the first
      one otherwise. */
  function TreeLevel(d: Dumps, lv: Level, a: Arrays, fragment: string): (Arrays, string)
  {
    match FirstFit(Dump(d, lv), lv, a, fragment)
    case None => (a, fragment)
    case Some((rec, name)) =>
      match lv
      case ProvinceLevel => (a.(province := a.province + [Some(rec)]), ReplaceAll(fragment, name, ""))
      case CityLevel =>
        if Head(a.province).Some? then (a.(city := a.city + [Some(rec)]), ReplaceAll(fragment, name, ""))
        else (a.(city := a.city + [Some(rec)],
                 province := a.province + [FindCode(d.provinces, rec.provinceCode)]), ReplaceFirst(fragment, name, ""))
      case AreaLevel =>
        (a.(area := a.area + [Some(rec)],
            city := a.city + Missing(a.city, d.cities, rec.cityCode),
            province := a.province + Missing(a.province, d.provinces, rec.provinceCode)), ReplaceFirst(fragment, name, ""))
      case StreetLevel =>
        var unscoped := Head(a.province).None? && Head(a.city).None? && Head(a.area).None?;
        (a.(street := a.street + [Some(rec)],
            area := a.area + Missing(a.area, if unscoped then d.streets else d.areas, rec.areaCode),
            city := a.city + Missing(a.city, d.cities, rec.cityCode),
            province := a.province + Missing(a.province, d.provinces, rec.provinceCode)), ReplaceFirst(fragment, name, ""))
  }

  /** `parseRegion(fragment, hasParseResult)`: a province or city array with a
      head is kept and its loop skipped; the area and street loops always
      run on fresh arrays; the street array is not returned, so it comes back
      empty; the fragment left, when not empty, is the one detail entry. */
  function TreeStep(d: Dumps, has: Arrays, fragment: string): (Arrays, seq<string>)
  {
    var r1 := if Head(has.province).Some? then (NoArrays.(province := has.province), fragment)
              else TreeLevel(d, ProvinceLevel, NoArrays, fragment);
    var r2 := if Head(has.city).Some? then (r1.0.(city := has.city), r1.1)
              else TreeLevel(d, CityLevel, r1.0, r1.1);
    var r3 := TreeLevel(d, AreaLevel, r2.0, r2.1);
    var r4 := TreeLevel(d, StreetLevel, r3.0, r3.1);
    (r4.0.(street := []), if |r4.1| > 0 then [r4.1] else [])
  }

  // ---------------------------------------------------------------------------
  // `AddressParse`
  // ---------------------------------------------------------------------------

  /** The white space `String.prototype.trim` removes: the ECMAScript
      WhiteSpace characters (tab, vertical tab, form feed, space, no-break
      space, the byte-order mark and the space separators of Unicode) and
      the LineTerminator characters. */
  const JsWhite: set<char> := {
    '\t', '\U{000B}', '\U{000C}', ' ', '\U{00A0}', '\U{FEFF}',
    '\U{1680}', '\U{2000}', '\U{2001}', '\U{2002}', '\U{2003}', '\U{2004}', '\U{2005}',
    '\U{2006}', '\U{2007}', '\U{2008}', '\U{2009}', '\U{200A}', '\U{202F}', '\U{205F}', '\U{3000}',
    '\n', '\r', '\U{2028}', '\U{2029}'}

  /** `.filter(item => item).map(item => item.trim())`: empty pieces are
      dropped, the others trimmed (a piece of white space trims to ""). */
  function JsTokens(pieces: seq<string>): (r: seq<string>)
    ensures |r| <= |pieces|
  {
    if pieces == [] then []
    else (if pieces[0] != "" then [Strip(pieces[0], JsWhite)] else []) + JsTokens(pieces[1..])
  }

  /** The parser of the type: type 0 may throw; any other type than 0 and 1
      parses to `{}`, which clears the arrays and adds no detail. */
  function ParseBy(d: Dumps, mode: int, a: Arrays, item: string): Result<(Arrays, seq<string>)>
  {
    if mode == 1 then Ok(TreeStep(d, a, item))
    else if mode == 0 then RegexStep(d, a, item)
    else Ok((NoArrays, []))
  }

  /** One token of the `forEach` loop: while some array has no head, the
      token goes to the parser; otherwise it goes to the detail list as it
      is. */
  function Step(d: Dumps, mode: int, a: Arrays, item: string): Result<(Arrays, seq<string>)>
  {
    if !AllPresent(a) then ParseBy(d, mode, a, item) else Ok((a, [item]))
  }

  /** The `forEach` loop: the final arrays and the detail entries. */
  function Route(d: Dumps, mode: int, a: Arrays, tokens: seq<string>): Result<(Arrays, seq<string>)>
    decreases |tokens|
  {
    if tokens == [] then Ok((a, []))
    else
      match Step(d, mode, a, tokens[0])
      case Err(e) => Err(e)
      case Ok(s) =>
        match Route(d, mode, s.0, tokens[1..])
        case Err(e) => Err(e)
        case Ok(r) => Ok((r.0, s.1 + r.1))
  }

  /** The detail entries already collected in front of a routing result. */
  function Prepend(detail: seq<string>, r: Result<(Arrays, seq<string>)>): Result<(Arrays, seq<string>)>
  {
    match r
    case Err(e) => Err(e)
    case Ok((a, ds)) => Ok((a, detail + ds))
  }

  /** The name step: with detail entries, the chosen name, when not "", is
      stored and its first occurrence removed. The port's `!fragment` blank
      test picks the same names as the others (`JudgeIgnoresBlankness`). */
  function PickJs(f: Fields, detail: seq<string>, maxLength: int, surnames: string): (Fields, seq<string>)
  {
    if detail != [] then
      var name := ChosenName(detail, maxLength, surnames);
      if name != "" then (f.(name := name), RemoveFirst(detail, name)) else (f, detail)
    else (f, detail)
  }

  /** `(x && x.code) || ''`. */
  function CodeAt(s: Slots): string
  {
    match Head(s)
    case None => ""
    case Some(r) => r.code
  }

  /** `(x && x.name) || ''`. */
  function NameAt(s: Slots): string
  {
    match Head(s)
    case None => ""
    case Some(r) => r.name
  }

  /** The `Object.assign` at the end of `AddressParse`. */
  function JsFlat(f: Fields, a: Arrays, detail: seq<string>): Fields
  {
    f.(provinceCode := CodeAt(a.province), provinceName := NameAt(a.province),
       cityCode := CodeAt(a.city), cityName := NameAt(a.city),
       areaCode := CodeAt(a.area), areaName := NameAt(a.area),
       streetCode := CodeAt(a.street), streetName := NameAt(a.street),
       detail := Concat(detail))
  }

  /** `AddressParse(address, {type: mode, textFilter, nameMaxLength})`:
      `Ok(None)` is the `{}` returned for an empty address, `Err` an
      exception of the type 0 parser. */
  function AddressParseSpec(d: Dumps, address: string, mode: int, textFilter: seq<string>,
                            nameMaxLength: int, surnames: string): Result<Option<Fields>>
  {
    if address == "" then Ok(None)
    else
      var x := JsExtraction(address, textFilter);
      match Assembly(d, mode, x.0, x.1, nameMaxLength, surnames)
      case Err(e) => Err(e)
      case Ok(g) => Ok(Some(g))
  }

  /** Cleaning, then the phone and postal code taken out: the record with
      those two fields set, and the text left. */
  function JsExtraction(address: string, textFilter: seq<string>): (Fields, string)
  {
    var cleaned := CleanAddressWith(address, LegacyKeywords + textFilter);
    var ph := FilterPhoneJs(cleaned);
    var pc := FilterPostalCode(ph.address, false);
    (Default.(phone := ph.value, postalCode := pc.value), pc.address)
  }

  /** The tokens routed, the name picked and the result flattened. */
  function Assembly(d: Dumps, mode: int, f: Fields, text: string, nameMaxLength: int, surnames: string): Result<Fields>
  {
    match Route(d, mode, NoArrays, JsTokens(Split(text)))
    case Err(e) => Err(e)
    case Ok(r) =>
      var pk := PickJs(f, r.1, nameMaxLength, surnames);
      Ok(JsFlat(pk.0, r.0, pk.1))
  }

  // ---------------------------------------------------------------------------
  // The parsers
  // ---------------------------------------------------------------------------

  /** The `for` loop of a level block: prefixes of length 2, 3, … while the
      pattern matches at all; a prefix with exactly one match becomes the
      one kept. */
  method ScanPrefixes(recs: seq<Rec>, lv: Level, pins: Picked, fragment: string) returns (found: Option<(Rec, string)>)
    ensures found == LastUnique(recs, lv, pins, fragment)
  {
    found := None;
    var i := 1;
    while i < |fragment|
      invariant 1 <= i
      invariant ScanFrom(recs, lv, pins, fragment, i, found) == LastUnique(recs, lv, pins, fragment)
      decreases |fragment| - i
    {
      var str := fragment[..i + 1];
      var matches := Candidates(recs, lv, str, pins);
      if matches != [] {
        if |matches| == 1 {
          found := Some((matches[0], str));
        }
      } else {
        break;
      }
      i := i + 1;
    }
  }

  method ProvinceByRegexp(d: Dumps, a: Arrays, fragment: string) returns (res: Result<(Arrays, string)>)
    ensures res == RegexLevel(d, ProvinceLevel, a, fragment)
  {
    var province, rest := a.province, fragment;
    if |province| == 0 {
      var found := ScanPrefixes(d.provinces, ProvinceLevel, Pins(a), fragment);
      if found.Some? {
        var (provinceObj, matchStr) := found.value;
        province := [Some(provinceObj)];
        rest := ReplaceAll(fragment, matchStr, "");
      }
    }
    return Ok((a.(province := province), rest));
  }

  method CityByRegexp(d: Dumps, a: Arrays, fragment: string) returns (res: Result<(Arrays, string)>)
    ensures res == RegexLevel(d, CityLevel, a, fragment)
  {
    var province, city, rest := a.province, a.city, fragment;
    if |city| == 0 {
      var found := ScanPrefixes(d.cities, CityLevel, Pins(a), fragment);
      if found.Some? {
        var (cityObj, matchStr) := found.value;
        city := [Some(cityObj)];
        rest := ReplaceAll(fragment, matchStr, "");
        if |province| == 0 {
          var matchProvince := AncestorOf(d, ProvinceLevel, cityObj);
          if matchProvince.None? {
            return Err(NullIndex);
          }
          province := [Some(matchProvince.value)];
        }
      }
    }
    return Ok((a.(province := province, city := city), rest));
  }

  method AreaByRegexp(d: Dumps, a: Arrays, fragment: string) returns (res: Result<(Arrays, string)>)
    ensures res == RegexLevel(d, AreaLevel, a, fragment)
  {
    var province, city, area, rest := a.province, a.city, a.area, fragment;
    if |area| == 0 {
      var found := ScanPrefixes(d.areas, AreaLevel, Pins(a), fragment);
      if found.Some? {
        var (areaObj, matchStr) := found.value;
        area := [Some(areaObj)];
        rest := ReplaceFirst(fragment, matchStr, "");
        if |province| == 0 {
          var matchProvince := AncestorOf(d, ProvinceLevel, areaObj);
          if matchProvince.None? {
            return Err(NullIndex);
          }
          province := [Some(matchProvince.value)];
        }
        if |city| == 0 {
          var matchCity := AncestorOf(d, CityLevel, areaObj);
          if matchCity.None? {
            return Err(NullIndex);
          }
          city := [Some(matchCity.value)];
        }
      }
    }
    return Ok((a.(province := province, city := city, area := area), rest));
  }

  method StreetByRegexp(d: Dumps, a: Arrays, fragment: string) returns (res: Result<(Arrays, string)>)
    ensures res == RegexLevel(d, StreetLevel, a, fragment)
  {
    var province, city, area, street, rest := a.province, a.city, a.area, a.street, fragment;
    if |street| == 0 {
      var found := ScanPrefixes(d.streets, StreetLevel, Pins(a), fragment);
      if found.Some? {
        var (streetObj, matchStr) := found.value;
        street := [Some(streetObj)];
        rest := ReplaceFirst(fragment, matchStr, "");
        if |province| == 0 {
          var matchProvince := AncestorOf(d, ProvinceLevel, streetObj);
          if matchProvince.None? {
            return Err(NullIndex);
          }
          province := [Some(matchProvince.value)];
        }
        if |city| == 0 {
          var matchCity := AncestorOf(d, CityLevel, streetObj);
          if matchCity.None? {
            return Err(NullIndex);
          }
          city := [Some(matchCity.value)];
        }
        if |area| == 0 {
          var matchArea := AncestorOf(d, AreaLevel, streetObj);
          if matchArea.Some? {
            area := [Some(matchArea.value)];
          }
        }
      }
    }
    return Ok((Arrays(province, city, area, street), rest));
  }

  method ParseRegionWithRegexp(d: Dumps, fragment: string, has: Arrays) returns (res: Result<(Arrays, seq<string>)>)
    ensures res == RegexStep(d, has, fragment)
  {
    var r1 := ProvinceByRegexp(d, has, fragment);
    if r1.Err? {
      return Err(r1.error);
    }
    var r2 := CityByRegexp(d, r1.value.0, r1.value.1);
    if r2.Err? {
      return Err(r2.error);
    }
    var r3 := AreaByRegexp(d, r2.value.0, r2.value.1);
    if r3.Err? {
      return Err(r3.error);
    }
    var r4 := StreetByRegexp(d, r3.value.0, r3.value.1);
    if r4.Err? {
      return Err(r4.error);
    }
    var detail: seq<string> := [];
    if |r4.value.1| > 0 {
      detail := [r4.value.1];
    }
    return Ok((r4.value.0, detail));
  }

  /** The inner `for` loop of `parseRegion`, from the whole name down to two
      characters. */
  method LongestPrefixOf(name: string, fragment: string) returns (replaceName: string)
    ensures replaceName == LongestPrefix(name, fragment)
  {
    replaceName := "";
    var i := |name|;
    while i > 1
      invariant 0 <= i <= |name|
      invariant replaceName == ""
      invariant LongestFrom(name, fragment, i) == LongestPrefix(name, fragment)
      decreases i
    {
      var temp := name[..i];
      if StartsWith(fragment, temp) {
        replaceName := temp;
        break;
      }
      i := i - 1;
    }
  }

  /** The outer `for ... of` loop over a table. */
  method FindFit(recs: seq<Rec>, lv: Level, a: Arrays, fragment: string) returns (found: Option<(Rec, string)>)
    ensures found == FirstFit(recs, lv, a, fragment)
  {
    found := None;
    var k := 0;
    assert recs[0..] == recs;
    while k < |recs|
      invariant 0 <= k <= |recs|
      invariant FirstFit(recs[k..], lv, a, fragment) == FirstFit(recs, lv, a, fragment)
    {
      assert recs[k..][0] == recs[k] && recs[k..][1..] == recs[k + 1..];
      if InScope(lv, recs[k], a) {
        var replaceName := LongestPrefixOf(recs[k].name, fragment);
        if replaceName != "" {
          found := Some((recs[k], replaceName));
          break;
        }
      }
      k := k + 1;
    }
  }

  method ProvinceByTree(d: Dumps, a: Arrays, fragment: string) returns (b: Arrays, rest: string)
    ensures (b, rest) == TreeLevel(d, ProvinceLevel, a, fragment)
  {
    b, rest := a, fragment;
    var found := FindFit(d.provinces, ProvinceLevel, a, fragment);
    if found.Some? {
      var (tempProvince, replaceName) := found.value;
      b := a.(province := a.province + [Some(tempProvince)]);
      rest := ReplaceAll(fragment, replaceName, "");
    }
  }

  method CityByTree(d: Dumps, a: Arrays, fragment: string) returns (b: Arrays, rest: string)
    ensures (b, rest) == TreeLevel(d, CityLevel, a, fragment)
  {
    b, rest := a, fragment;
    var found := FindFit(d.cities, CityLevel, a, fragment);
    if found.Some? {
      var (tempCity, replaceName) := found.value;
      if Head(a.province).Some? {
        b := a.(city := a.city + [Some(tempCity)]);
        rest := ReplaceAll(fragment, replaceName, "");
      } else {
        b := a.(city := a.city + [Some(tempCity)],
                province := a.province + [FindCode(d.provinces, tempCity.provinceCode)]);
        rest := ReplaceFirst(fragment, replaceName, "");
      }
    }
  }

  method AreaByTree(d: Dumps, a: Arrays, fragment: string) returns (b: Arrays, rest: string)
    ensures (b, rest) == TreeLevel(d, AreaLevel, a, fragment)
  {
    b, rest := a, fragment;
    var found := FindFit(d.areas, AreaLevel, a, fragment);
    if found.Some? {
      var (tempArea, replaceName) := found.value;
      var province, city := a.province, a.city;
      assert province + [] == province && city + [] == city;
      if Head(city).None? {
        city := city + [FindCode(d.cities, tempArea.cityCode)];
      }
      if Head(province).None? {
        province := province + [FindCode(d.provinces, tempArea.provinceCode)];
      }
      b := a.(area := a.area + [Some(tempArea)], city := city, province := province);
      rest := ReplaceFirst(fragment, replaceName, "");
    }
  }

  method StreetByTree(d: Dumps, a: Arrays, fragment: string) returns (b: Arrays, rest: string)
    ensures (b, rest) == TreeLevel(d, StreetLevel, a, fragment)
  {
    b, rest := a, fragment;
    var found := FindFit(d.streets, StreetLevel, a, fragment);
    if found.Some? {
      var (tempStreet, replaceName) := found.value;
      var province, city, area := a.province, a.city, a.area;
      assert province + [] == province && city + [] == city && area + [] == area;
      var areaTable := if Head(province).None? && Head(city).None? && Head(area).None? then d.streets else d.areas;
      if Head(area).None? {
        area := area + [FindCode(areaTable, tempStreet.areaCode)];
      }
      if Head(city).None? {
        city := city + [FindCode(d.cities, tempStreet.cityCode)];
      }
      if Head(province).None? {
        province := province + [FindCode(d.provinces, tempStreet.provinceCode)];
      }
      b := a.(street := a.street + [Some(tempStreet)], area := area, city := city, province := province);
      rest := ReplaceFirst(fragment, replaceName, "");
    }
  }

  method ParseRegion(d: Dumps, fragment: string, has: Arrays) returns (a: Arrays, detail: seq<string>)
    ensures (a, detail) == TreeStep(d, has, fragment)
  {
    var rest := fragment;
    a := NoArrays;
    if Head(has.province).Some? {
      a := a.(province := has.province);
    } else {
      a, rest := ProvinceByTree(d, a, rest);
    }
    if Head(has.city).Some? {
      a := a.(city := has.city);
    } else {
      a, rest := CityByTree(d, a, rest);
    }
    a, rest := AreaByTree(d, a, rest);
    a, rest := StreetByTree(d, a, rest);
    a := a.(street := []);
    detail := [];
    if |rest| > 0 {
      detail := [rest];
    }
  }

  /** The object `parseResult` of `AddressParse`, whose fields the `forEach`
      loop reassigns. */
  class JsParseResult {
    var phone: string
    var province: Slots
    var city: Slots
    var area: Slots
    var street: Slots
    var detail: seq<string>
    var name: string
    var postalCode: string

    function Regions(): Arrays
      reads this
    {
      Arrays(province, city, area, street)
    }

    /** The scalar fields as a result record. */
    function Value(): Fields
      reads this
    {
      Default.(phone := phone, name := name, postalCode := postalCode)
    }

    constructor ()
      ensures Regions() == NoArrays && detail == [] && Value() == Default
    {
      phone, province, city, area, street, detail, name, postalCode := "", [], [], [], [], [], "", "";
    }

    /** The `forEach` loop over the tokens. On an exception the loop stops. */
    method RouteTokens(d: Dumps, mode: int, splitAddress: seq<string>) returns (res: Result<()>)
      modifies this
      ensures res.Ok? ==> Prepend(old(detail), Route(d, mode, old(Regions()), splitAddress)) == Ok((Regions(), detail))
      ensures res.Err? ==> Prepend(old(detail), Route(d, mode, old(Regions()), splitAddress)) == Err(res.error)
      ensures Value() == old(Value())
    {
      var k := 0;
      assert splitAddress[0..] == splitAddress;
      while k < |splitAddress|
        invariant 0 <= k <= |splitAddress|
        invariant Value() == old(Value())
        invariant Prepend(detail, Route(d, mode, Regions(), splitAddress[k..]))
          == Prepend(old(detail), Route(d, mode, old(Regions()), splitAddress))
      {
        PrependStep(d, mode, Regions(), splitAddress[k..], detail);
        assert splitAddress[k..][0] == splitAddress[k];
        assert splitAddress[k..][1..] == splitAddress[k + 1..];
        var item := splitAddress[k];
        if !AllPresent(Regions()) {
          var parse := ParseToken(d, mode, Regions(), item);
          if parse.Err? {
            return Err(parse.error);
          }
          var next := parse.value.0;
          province, area, city, street := next.province, next.area, next.city, next.street;
          assert Regions() == next;
          detail := detail + parse.value.1;
        } else {
          detail := detail + [item];
        }
        k := k + 1;
      }
      assert splitAddress[k..] == [];
      assert detail + [] == detail;
      return Ok(());
    }
  }

  /** `parseRegion` or `parseRegionWithRegexp` by the type, or `{}`. */
  method ParseToken(d: Dumps, mode: int, has: Arrays, item: string) returns (parse: Result<(Arrays, seq<string>)>)
    ensures parse == ParseBy(d, mode, has, item)
  {
    if mode == 1 {
      var a, detail := ParseRegion(d, item, has);
      parse := Ok((a, detail));
    } else if mode == 0 {
      parse := ParseRegionWithRegexp(d, item, has);
    } else {
      parse := Ok((NoArrays, []));
    }
  }

  /** One routing step in front of the rest, with the detail collected so far. */
  lemma PrependStep(d: Dumps, mode: int, a: Arrays, tokens: seq<string>, detail: seq<string>)
    requires tokens != []
    ensures Prepend(detail, Route(d, mode, a, tokens)) ==
      match Step(d, mode, a, tokens[0])
      case Err(e) => Err(e)
      case Ok(s) => Prepend(detail + s.1, Route(d, mode, s.0, tokens[1..]))
  {
    match Step(d, mode, a, tokens[0])
    case Err(e) =>
    case Ok(s) =>
      match Route(d, mode, s.0, tokens[1..])
      case Err(e) =>
      case Ok(r) => assert detail + (s.1 + r.1) == (detail + s.1) + r.1;
  }

  /** `cleanAddress`, `filterPhone` and `filterPostalCode` on the address. */
  method ExtractJs(parseResult: JsParseResult, address: string, textFilter: seq<string>) returns (text: string)
    modifies parseResult
    requires parseResult.Value() == Default
    ensures (parseResult.Value(), text) == JsExtraction(address, textFilter)
    ensures parseResult.Regions() == old(parseResult.Regions()) && parseResult.detail == old(parseResult.detail)
  {
    text := CleanAddressWith(address, LegacyKeywords + textFilter);
    var resultPhone := FilterPhoneJs(text);
    text := resultPhone.address;
    parseResult.phone := resultPhone.value;
    var resultCode := FilterPostalCode(text, false);
    text := resultCode.address;
    parseResult.postalCode := resultCode.value;
  }

  /** Routing, the name pick and the result object. */
  method AssembleJs(d: Dumps, mode: int, parseResult: JsParseResult, text: string, nameMaxLength: int,
                    surnames: string) returns (res: Result<Fields>)
    modifies parseResult
    requires parseResult.Regions() == NoArrays && parseResult.detail == []
    ensures res == Assembly(d, mode, old(parseResult.Value()), text, nameMaxLength, surnames)
  {
    var splitAddress := JsTokens(Split(text));
    ghost var f := parseResult.Value();
    var routed := parseResult.RouteTokens(d, mode, splitAddress);
    if routed.Err? {
      return Err(routed.error);
    }
    ghost var r := Route(d, mode, NoArrays, splitAddress);
    assert r.Ok? && [] + r.value.1 == r.value.1;
    var detail := parseResult.detail;
    if |detail| > 0 {
      var name := PickName(detail, nameMaxLength, surnames, EmptyOnly);
      if name != "" {
        parseResult.name := name;
        parseResult.detail := RemoveFirst(detail, name);
      }
    }
    assert (parseResult.Value(), parseResult.detail) == PickJs(f, detail, nameMaxLength, surnames);
    return Ok(JsFlat(parseResult.Value(), parseResult.Regions(), parseResult.detail));
  }

  method AddressParse(d: Dumps, address: string, mode: int, textFilter: seq<string>,
                      nameMaxLength: int, surnames: string) returns (res: Result<Option<Fields>>)
    ensures res == AddressParseSpec(d, address, mode, textFilter, nameMaxLength, surnames)
  {
    if address == "" {
      return Ok(None);
    }
    var parseResult := new JsParseResult();
    var text := ExtractJs(parseResult, address, textFilter);
    var result := AssembleJs(d, mode, parseResult, text, nameMaxLength, surnames);
    if result.Err? {
      return Err(result.error);
    }
    return Ok(Some(result.value));
  }

  // ---------------------------------------------------------------------------
  // Lemmas: type 0
  // ---------------------------------------------------------------------------

  /** Every array is empty or holds one record (no `undefined`). */
  predicate RegexShaped(a: Arrays)
  {
    forall l: Level :: Slot(a, l) == [] || (|Slot(a, l)| == 1 && Slot(a, l)[0].Some?)
  }

  /** A level block throws exactly when its array is empty, its loop keeps a
      record, and an ancestor array it must fill unguarded is empty while the
      lookup for it finds nothing: the province below province level, the
      city at area and street level. */
  lemma RegexLevelFails(d: Dumps, lv: Level, a: Arrays, fragment: string)
    ensures RegexLevel(d, lv, a, fragment).Err? <==>
      && |Slot(a, lv)| == 0
      && LastUnique(Dump(d, lv), lv, Pins(a), fragment).Some?
      && var rec := LastUnique(Dump(d, lv), lv, Pins(a), fragment).value.0;
         || (lv != ProvinceLevel && |a.province| == 0 && AncestorOf(d, ProvinceLevel, rec).None?)
         || ((lv == AreaLevel || lv == StreetLevel) && |a.city| == 0 && AncestorOf(d, CityLevel, rec).None?)
  {
  }

  /** A level block that returns keeps every array that was not empty and
      every array below its level, keeps each array empty or holding one
      record, and never lengthens the fragment. */
  lemma RegexLevelKeeps(d: Dumps, lv: Level, a: Arrays, fragment: string)
    requires RegexLevel(d, lv, a, fragment).Ok?
    ensures var (b, rest) := RegexLevel(d, lv, a, fragment).value;
      forall l: Level | Slot(a, l) != [] || Num(l) > Num(lv) :: Slot(b, l) == Slot(a, l)
    ensures RegexShaped(a) ==> RegexShaped(RegexLevel(d, lv, a, fragment).value.0)
    ensures |RegexLevel(d, lv, a, fragment).value.1| <= |fragment|
  {
    RegexLevelArrays(d, lv, a, fragment);
    RegexLevelShortens(d, lv, a, fragment);
  }

  /** The arrays part of `RegexLevelKeeps`. */
  lemma RegexLevelArrays(d: Dumps, lv: Level, a: Arrays, fragment: string)
    requires RegexLevel(d, lv, a, fragment).Ok?
    ensures var (b, rest) := RegexLevel(d, lv, a, fragment).value;
      forall l: Level | Slot(a, l) != [] || Num(l) > Num(lv) :: Slot(b, l) == Slot(a, l)
    ensures RegexShaped(a) ==> RegexShaped(RegexLevel(d, lv, a, fragment).value.0)
  {
  }

  /** The fragment part of `RegexLevelKeeps`. */
  lemma RegexLevelShortens(d: Dumps, lv: Level, a: Arrays, fragment: string)
    requires RegexLevel(d, lv, a, fragment).Ok?
    ensures |RegexLevel(d, lv, a, fragment).value.1| <= |fragment|
  {
    if |Slot(a, lv)| == 0 {
      var u := LastUnique(Dump(d, lv), lv, Pins(a), fragment);
      if u.Some? {
        var (rec, s) := u.value;
        LastUniqueSpec(Dump(d, lv), lv, Pins(a), fragment);
        ReplaceAllDeletes(fragment, s);
        ReplaceFirstDeletes(fragment, s);
      }
    }
  }

  /** The back-fill changes only empty arrays above the level, each to the
      one record its lookup found. */
  lemma BackfillJsSpec(d: Dumps, lv: Level, a: Arrays, rec: Rec)
    requires BackfillJs(d, lv, a, rec).Ok?
    ensures var b := BackfillJs(d, lv, a, rec).value;
      forall l: Level | Slot(b, l) != Slot(a, l) ::
        && Num(l) < Num(lv) && Slot(a, l) == [] && AncestorOf(d, l, rec).Some?
        && Slot(b, l) == [Some(AncestorOf(d, l, rec).value)]
  {
  }

  /** When a level block acts, its array holds the one candidate of the
      longest reached prefix with a single candidate, and that prefix leaves
      the fragment (every later occurrence too at province and city). */
  lemma RegexLevelCommits(d: Dumps, lv: Level, a: Arrays, fragment: string)
    requires RegexLevel(d, lv, a, fragment).Ok?
    ensures var (b, rest) := RegexLevel(d, lv, a, fragment).value;
      b != a ==>
        && |Slot(a, lv)| == 0 && |Slot(b, lv)| == 1 && Slot(b, lv)[0].Some?
        && var rec := Slot(b, lv)[0].value;
           && rec in Dump(d, lv)
           && exists k | 2 <= k <= |fragment| ::
                && Candidates(Dump(d, lv), lv, fragment[..k], Pins(a)) == [rec]
                && Reached(Dump(d, lv), lv, Pins(a), fragment, k)
                && (forall j | k < j <= |fragment| && Reached(Dump(d, lv), lv, Pins(a), fragment, j) ::
                      !UniqueAt(Dump(d, lv), lv, Pins(a), fragment, j))
                && rest == (if lv == ProvinceLevel || lv == CityLevel then ReplaceAll(fragment[k..], fragment[..k], "")
                            else fragment[k..])
  {
    if |Slot(a, lv)| == 0 {
      var u := LastUnique(Dump(d, lv), lv, Pins(a), fragment);
      if u.Some? {
        var (rec, s) := u.value;
        LastUniqueSpec(Dump(d, lv), lv, Pins(a), fragment);
        LastUniqueFound(Dump(d, lv), lv, Pins(a), fragment);
        var k := |s|;
        assert fragment[..k] == s;
        ReplaceFirstDeletes(fragment, s);
        var own := match lv
          case ProvinceLevel => a.(province := [Some(rec)])
          case CityLevel => a.(city := [Some(rec)])
          case AreaLevel => a.(area := [Some(rec)])
          case StreetLevel => a.(street := [Some(rec)]);
        BackfillJsSpec(d, lv, own, rec);
        assert Slot(RegexLevel(d, lv, a, fragment).value.0, lv) == [Some(rec)];
      }
    }
  }

  /** Every ancestor array a level block fills was empty and now holds a
      dump record that the back-fill pattern for the committed record's
      codes matches. */
  lemma RegexLevelBackfills(d: Dumps, lv: Level, a: Arrays, fragment: string)
    requires RegexLevel(d, lv, a, fragment).Ok?
    ensures var (b, rest) := RegexLevel(d, lv, a, fragment).value;
      forall l: Level | l != lv && Slot(b, l) != Slot(a, l) ::
        && Num(l) < Num(lv) && Slot(a, l) == [] && |Slot(b, lv)| == 1 && Slot(b, lv)[0].Some?
        && |Slot(b, l)| == 1 && Slot(b, l)[0].Some? && Slot(b, l)[0].value in Dump(d, l)
        && KeyMatches(Slot(b, l)[0].value, l, CodeFor(Slot(b, lv)[0].value, l),
                      Slot(b, lv)[0].value.provinceCode, Slot(b, lv)[0].value.cityCode)
  {
    if |Slot(a, lv)| == 0 {
      var u := LastUnique(Dump(d, lv), lv, Pins(a), fragment);
      if u.Some? {
        var (rec, s) := u.value;
        var own := match lv
          case ProvinceLevel => a.(province := [Some(rec)])
          case CityLevel => a.(city := [Some(rec)])
          case AreaLevel => a.(area := [Some(rec)])
          case StreetLevel => a.(street := [Some(rec)]);
        BackfillJsSpec(d, lv, own, rec);
        forall l: Level
          ensures var x := AncestorOf(d, l, rec);
            x.Some? ==> x.value in Dump(d, l) && KeyMatches(x.value, l, CodeFor(rec, l), rec.provinceCode, rec.cityCode)
        {
          LookupSpec(Dump(d, l), l, CodeFor(rec, l), rec.provinceCode, rec.cityCode);
        }
        assert Slot(RegexLevel(d, lv, a, fragment).value.0, lv) == [Some(rec)];
      }
    }
  }

  /** `parseRegionWithRegexp`, when it returns, keeps every array that was
      not empty, keeps the arrays empty or holding one record, and adds at
      most one detail entry, not empty and no longer than the token. */
  lemma RegexStepKeeps(d: Dumps, has: Arrays, fragment: string)
    requires RegexStep(d, has, fragment).Ok?
    ensures var (b, detail) := RegexStep(d, has, fragment).value;
      forall l: Level | Slot(has, l) != [] :: Slot(b, l) == Slot(has, l)
    ensures RegexShaped(has) ==> RegexShaped(RegexStep(d, has, fragment).value.0)
    ensures var (b, detail) := RegexStep(d, has, fragment).value;
      |detail| <= 1 && forall x | x in detail :: x != "" && |x| <= |fragment|
  {
    var r1 := RegexLevel(d, ProvinceLevel, has, fragment);
    RegexLevelKeeps(d, ProvinceLevel, has, fragment);
    var r2 := RegexLevel(d, CityLevel, r1.value.0, r1.value.1);
    RegexLevelKeeps(d, CityLevel, r1.value.0, r1.value.1);
    var r3 := RegexLevel(d, AreaLevel, r2.value.0, r2.value.1);
    RegexLevelKeeps(d, AreaLevel, r2.value.0, r2.value.1);
    RegexLevelKeeps(d, StreetLevel, r3.value.0, r3.value.1);
  }

  /** Type 0 routing, when it returns, keeps every array that was not empty
      and keeps the arrays empty or holding one record, so no `undefined`
      ever reaches the result. */
  lemma {:induction false} RegexRouteSpec(d: Dumps, a: Arrays, tokens: seq<string>)
    requires RegexShaped(a) && Route(d, 0, a, tokens).Ok?
    ensures var (b, detail) := Route(d, 0, a, tokens).value;
      RegexShaped(b) && forall l: Level | Slot(a, l) != [] :: Slot(b, l) == Slot(a, l)
    decreases |tokens|
  {
    if tokens != [] {
      var s := Step(d, 0, a, tokens[0]).value;
      if !AllPresent(a) {
        RegexStepKeeps(d, a, tokens[0]);
      }
      RegexRouteSpec(d, s.0, tokens[1..]);
    }
  }

  /** Only type 0 throws. */
  lemma {:induction false} RouteFailsOnlyByRegexp(d: Dumps, mode: int, a: Arrays, tokens: seq<string>)
    ensures Route(d, mode, a, tokens).Err? ==> mode == 0
    decreases |tokens|
  {
    if tokens != [] && Step(d, mode, a, tokens[0]).Ok? {
      RouteFailsOnlyByRegexp(d, mode, Step(d, mode, a, tokens[0]).value.0, tokens[1..]);
    }
  }

  /** A type other than 0 and 1 parses every token to `{}`: no region and no
      detail survive. */
  lemma {:induction false} OtherTypeDropsTokens(d: Dumps, mode: int, tokens: seq<string>)
    requires mode != 0 && mode != 1
    ensures Route(d, mode, NoArrays, tokens) == Ok((NoArrays, []))
    decreases |tokens|
  {
    if tokens != [] {
      assert !AllPresent(NoArrays);
      var s := Step(d, mode, NoArrays, tokens[0]);
      assert s == Ok((NoArrays, []));
      OtherTypeDropsTokens(d, mode, tokens[1..]);
      assert s.value.1 + [] == [];
    }
  }

  // ---------------------------------------------------------------------------
  // Lemmas: type 1
  // ---------------------------------------------------------------------------

  lemma {:induction false} LongestFromSpec(name: string, fragment: string, i: nat)
    requires i <= |name|
    ensures var r := LongestFrom(name, fragment, i);
      r == "" <==> forall k | 2 <= k <= i :: !StartsWith(fragment, name[..k])
    ensures var r := LongestFrom(name, fragment, i);
      r != "" ==>
        && 2 <= |r| <= i && r == name[..|r|] && StartsWith(fragment, r)
        && forall k | |r| < k <= i :: !StartsWith(fragment, name[..k])
    decreases i
  {
    if i > 1 && !StartsWith(fragment, name[..i]) {
      LongestFromSpec(name, fragment, i - 1);
    }
  }

  /** `replaceName` is "" exactly when no prefix of two or more characters of
      the name starts the fragment, and otherwise the longest one that does. */
  lemma LongestPrefixSpec(name: string, fragment: string)
    ensures var r := LongestPrefix(name, fragment);
      r == "" <==> forall k | 2 <= k <= |name| :: !StartsWith(fragment, name[..k])
    ensures var r := LongestPrefix(name, fragment);
      r != "" ==>
        && 2 <= |r| <= |name| && r == name[..|r|] && StartsWith(fragment, r)
        && forall k | |r| < k <= |name| :: !StartsWith(fragment, name[..k])
  {
    LongestFromSpec(name, fragment, |name|);
  }

  /** The table loop stops at the first record, in table order, that is in
      scope and has a prefix starting the fragment, and at none when no
      record is. */
  lemma {:induction false} FirstFitSpec(recs: seq<Rec>, lv: Level, a: Arrays, fragment: string) returns (i: nat)
    ensures FirstFit(recs, lv, a, fragment).None? <==> forall j | 0 <= j < |recs| :: !Fits(recs[j], lv, a, fragment)
    ensures FirstFit(recs, lv, a, fragment).Some? ==>
      && i < |recs| && Fits(recs[i], lv, a, fragment)
      && FirstFit(recs, lv, a, fragment).value == (recs[i], LongestPrefix(recs[i].name, fragment))
      && forall j | 0 <= j < i :: !Fits(recs[j], lv, a, fragment)
    decreases |recs|
  {
    i := 0;
    if recs != [] && !Fits(recs[0], lv, a, fragment) {
      var k := FirstFitSpec(recs[1..], lv, a, fragment);
      assert forall j | 1 <= j < |recs| :: recs[j] == recs[1..][j - 1];
      if FirstFit(recs[1..], lv, a, fragment).Some? {
        i := k + 1;
      }
    }
  }

  /** `find` returns the first record with the code, and `undefined` when
      none has it. */
  lemma {:induction false} FindCodeSpec(recs: seq<Rec>, code: string) returns (i: nat)
    ensures FindCode(recs, code).None? <==> forall r | r in recs :: r.code != code
    ensures FindCode(recs, code).Some? ==>
      && i < |recs| && recs[i] == FindCode(recs, code).value && recs[i].code == code
      && forall j | 0 <= j < i :: recs[j].code != code
    decreases |recs|
  {
    i := 0;
    if recs != [] && recs[0].code != code {
      var k := FindCodeSpec(recs[1..], code);
      assert forall r | r in recs :: r == recs[0] || r in recs[1..];
      if FindCode(recs[1..], code).Some? {
        i := k + 1;
        assert forall j | 1 <= j < i :: recs[j] == recs[1..][j - 1];
      }
    }
  }

  /** A table loop that finds a record pushes it onto its level's array and
      takes its `replaceName` off the front of the fragment: only that
      occurrence, except for a province, or a city under a province, where
      every later occurrence goes too. One that finds none changes nothing. */
  lemma TreeLevelFound(d: Dumps, lv: Level, a: Arrays, fragment: string)
    ensures FirstFit(Dump(d, lv), lv, a, fragment).None? ==> TreeLevel(d, lv, a, fragment) == (a, fragment)
    ensures var (b, rest) := TreeLevel(d, lv, a, fragment);
      var f := FirstFit(Dump(d, lv), lv, a, fragment);
      f.Some? ==>
        var rec := f.value.0;
        var name := f.value.1;
        && rec in Dump(d, lv) && InScope(lv, rec, a)
        && Slot(b, lv) == Slot(a, lv) + [Some(rec)]
        && 2 <= |name| <= |rec.name| && name == rec.name[..|name|] && StartsWith(fragment, name)
        && rest == (if lv == ProvinceLevel || (lv == CityLevel && Head(a.province).Some?)
                    then ReplaceAll(fragment[|name|..], name, "") else fragment[|name|..])
  {
    var f := FirstFit(Dump(d, lv), lv, a, fragment);
    if f.Some? {
      var i := FirstFitSpec(Dump(d, lv), lv, a, fragment);
      var (rec, name) := f.value;
      LongestPrefixSpec(rec.name, fragment);
      ReplaceFirstDeletes(fragment, name);
    }
  }

  /** A table loop only appends: every array keeps its entries, an array
      with a head is unchanged except the loop's own, each array grows by at
      most one entry, the arrays below the level are unchanged, and the
      fragment does not grow. */
  lemma TreeLevelKeeps(d: Dumps, lv: Level, a: Arrays, fragment: string)
    ensures var (b, rest) := TreeLevel(d, lv, a, fragment);
      forall l: Level ::
        && Slot(a, l) <= Slot(b, l) && |Slot(b, l)| <= |Slot(a, l)| + 1
        && (l != lv && Head(Slot(a, l)).Some? ==> Slot(b, l) == Slot(a, l))
        && (Num(l) > Num(lv) ==> Slot(b, l) == Slot(a, l))
    ensures |TreeLevel(d, lv, a, fragment).1| <= |fragment|
  {
    var f := FirstFit(Dump(d, lv), lv, a, fragment);
    if f.Some? {
      var i := FirstFitSpec(Dump(d, lv), lv, a, fragment);
      var (rec, name) := f.value;
      ReplaceAllDeletes(fragment, name);
      ReplaceFirstDeletes(fragment, name);
    }
  }

  /** What a table loop pushes onto an ancestor array without a head: the
      record `find` returns for the code the found record points to, from
      the ancestor's own table, `undefined` when that table has no such code.
      The one exception is the area of a street found with no ancestor at
      all, which is looked up among the streets. */
  lemma TreeLevelAncestors(d: Dumps, lv: Level, a: Arrays, fragment: string)
    ensures var (b, rest) := TreeLevel(d, lv, a, fragment);
      var f := FirstFit(Dump(d, lv), lv, a, fragment);
      f.Some? ==>
        var rec := f.value.0;
        var unscoped := Head(a.province).None? && Head(a.city).None? && Head(a.area).None?;
        forall l: Level | l != lv && Slot(b, l) != Slot(a, l) ::
          && Num(l) < Num(lv) && Head(Slot(a, l)).None? && |Slot(b, l)| == |Slot(a, l)| + 1
          && var table := if lv == StreetLevel && l == AreaLevel && unscoped then d.streets else Dump(d, l);
             var x := Slot(b, l)[|Slot(a, l)|];
             && (x.Some? ==> x.value in table && x.value.code == CodeFor(rec, l))
             && (x.None? <==> forall r | r in table :: r.code != CodeFor(rec, l))
  {
    var f := FirstFit(Dump(d, lv), lv, a, fragment);
    if f.Some? {
      var (rec, name) := f.value;
      if lv != ProvinceLevel {
        var i1 := FindCodeSpec(d.provinces, rec.provinceCode);
        if lv != CityLevel {
          var i2 := FindCodeSpec(d.cities, rec.cityCode);
          if lv == StreetLevel {
            var i3 := FindCodeSpec(d.areas, rec.areaCode);
            var i4 := FindCodeSpec(d.streets, rec.areaCode);
          }
        }
      }
    }
  }

  /** A street found with no province, city or area found loses its area
      when no street record carries the area's code as its own, whatever
      the area table holds: the area array then has no head. */
  lemma TreeStreetWithoutArea(d: Dumps, a: Arrays, fragment: string)
    requires Head(a.province).None? && Head(a.city).None? && Head(a.area).None?
    requires FirstFit(d.streets, StreetLevel, a, fragment).Some?
    requires forall r | r in d.streets :: r.code != FirstFit(d.streets, StreetLevel, a, fragment).value.0.areaCode
    ensures Slot(TreeLevel(d, StreetLevel, a, fragment).0, StreetLevel) != Slot(a, StreetLevel)
    ensures Head(TreeLevel(d, StreetLevel, a, fragment).0.area).None?
  {
    var (rec, name) := FirstFit(d.streets, StreetLevel, a, fragment).value;
    var i := FindCodeSpec(d.streets, rec.areaCode);
    assert FindCode(d.streets, rec.areaCode).None?;
  }

  /** `parseRegion`: a province or city array with a head is kept as it is;
      the street array comes back empty; the area is searched afresh, so the
      area and street arrays given make no difference; and the detail is at
      most one entry, not empty and no longer than the token. */
  lemma TreeStepKeeps(d: Dumps, has: Arrays, fragment: string, area: Slots, street: Slots)
    ensures var (b, detail) := TreeStep(d, has, fragment);
      && (Head(has.province).Some? ==> b.province == has.province)
      && (Head(has.city).Some? ==> b.city == has.city)
      && b.street == []
    ensures TreeStep(d, has.(area := area, street := street), fragment) == TreeStep(d, has, fragment)
    ensures var (b, detail) := TreeStep(d, has, fragment);
      |detail| <= 1 && forall x | x in detail :: x != "" && |x| <= |fragment|
  {
    TreeStepShortens(d, has, fragment);
    TreeStepIgnoresArea(d, has, fragment, area, street);
    var r1 := if Head(has.province).Some? then (NoArrays.(province := has.province), fragment)
              else TreeLevel(d, ProvinceLevel, NoArrays, fragment);
    TreeLevelKeeps(d, ProvinceLevel, NoArrays, fragment);
    TreeLevelKeeps(d, CityLevel, r1.0, r1.1);
  }

  /** The area and street arrays given to `parseRegion` make no difference. */
  lemma TreeStepIgnoresArea(d: Dumps, has: Arrays, fragment: string, area: Slots, street: Slots)
    ensures TreeStep(d, has.(area := area, street := street), fragment) == TreeStep(d, has, fragment)
  {
  }

  /** The detail part of `TreeStepKeeps`. */
  lemma TreeStepShortens(d: Dumps, has: Arrays, fragment: string)
    ensures var (b, detail) := TreeStep(d, has, fragment);
      |detail| <= 1 && forall x | x in detail :: x != "" && |x| <= |fragment|
  {
    var r1 := if Head(has.province).Some? then (NoArrays.(province := has.province), fragment)
              else TreeLevel(d, ProvinceLevel, NoArrays, fragment);
    TreeLevelKeeps(d, ProvinceLevel, NoArrays, fragment);
    var r2 := if Head(has.city).Some? then (r1.0.(city := has.city), r1.1)
              else TreeLevel(d, CityLevel, r1.0, r1.1);
    TreeLevelKeeps(d, CityLevel, r1.0, r1.1);
    var r3 := TreeLevel(d, AreaLevel, r2.0, r2.1);
    TreeLevelKeeps(d, AreaLevel, r2.0, r2.1);
    TreeLevelKeeps(d, StreetLevel, r3.0, r3.1);
  }

  /** Every token through `parseRegion`, in order. */
  function TreeFold(d: Dumps, a: Arrays, tokens: seq<string>): (Arrays, seq<string>)
    decreases |tokens|
  {
    if tokens == [] then (a, [])
    else
      var s := TreeStep(d, a, tokens[0]);
      var r := TreeFold(d, s.0, tokens[1..]);
      (r.0, s.1 + r.1)
  }

  /** Type 1 never has a street head, so every token goes through
      `parseRegion` and none goes to the detail list unparsed. */
  lemma {:induction false} TreeRouteParsesAll(d: Dumps, a: Arrays, tokens: seq<string>)
    requires a.street == []
    ensures Route(d, 1, a, tokens) == Ok(TreeFold(d, a, tokens))
    decreases |tokens|
  {
    if tokens != [] {
      assert !AllPresent(a);
      TreeRouteParsesAll(d, TreeStep(d, a, tokens[0]).0, tokens[1..]);
    }
  }

  // ---------------------------------------------------------------------------
  // Lemmas: `AddressParse`
  // ---------------------------------------------------------------------------

  /** Neither empty nor starting or ending with JavaScript white space. */
  predicate JsTrimmed(t: string)
  {
    t == "" || (t[0] !in JsWhite && t[|t| - 1] !in JsWhite)
  }

  predicate AllJsTrimmed(ts: seq<string>)
    decreases |ts|
  {
    ts == [] || (JsTrimmed(ts[0]) && AllJsTrimmed(ts[1..]))
  }

  /** Every token is its own `trim()`; one is empty only when its piece was
      all white space. */
  lemma {:induction false} JsTokensSpec(pieces: seq<string>)
    ensures AllJsTrimmed(JsTokens(pieces))
    decreases |pieces|
  {
    if pieces != [] {
      JsTokensSpec(pieces[1..]);
      if pieces[0] != "" {
        var t := Strip(pieces[0], JsWhite);
        if t != [] {
          StrippedEnds(pieces[0], JsWhite);
        }
        assert JsTrimmed(t);
        var ts := JsTokens(pieces);
        assert ts == [t] + JsTokens(pieces[1..]);
        assert ts[1..] == JsTokens(pieces[1..]);
      } else {
        assert JsTokens(pieces) == [] + JsTokens(pieces[1..]);
        assert [] + JsTokens(pieces[1..]) == JsTokens(pieces[1..]);
      }
    }
  }

  /** A trimmed token is its own `trim()`. */
  lemma JsTrimmedSpec(t: string)
    requires JsTrimmed(t)
    ensures Strip(t, JsWhite) == t
  {
    StripNoOp(t, JsWhite);
  }

  /** The name step either finds no name, and changes nothing, or sets a name
      holding a CJK character that was one of the entries, and removes exactly
      its first occurrence. */
  lemma PickJsSpec(f: Fields, detail: seq<string>, maxLength: int, surnames: string)
    ensures var (g, rest) := PickJs(f, detail, maxLength, surnames);
      || (g == f && rest == detail)
      || (&& g == f.(name := g.name) && g.name in detail && HasCjk(g.name)
          && rest == RemoveFirst(detail, g.name) && |rest| == |detail| - 1
          && multiset(rest) + multiset{g.name} == multiset(detail))
  {
    if detail != [] {
      ChosenNameIsFragment(detail, maxLength, surnames);
    }
  }

  /** The result object: a level whose array has no head gives "" for its
      code and name, one with a head gives its record's; the detail is the
      entries joined with ""; name, phone and postal code are the record's. */
  lemma JsFlatSpec(f: Fields, a: Arrays, detail: seq<string>)
    ensures var g := JsFlat(f, a, detail);
      && (Head(a.province).None? ==> g.provinceCode == "" && g.provinceName == "")
      && (Head(a.city).None? ==> g.cityCode == "" && g.cityName == "")
      && (Head(a.area).None? ==> g.areaCode == "" && g.areaName == "")
      && (Head(a.street).None? ==> g.streetCode == "" && g.streetName == "")
      && (Head(a.province).Some? ==> g.provinceCode == Head(a.province).value.code && g.provinceName == Head(a.province).value.name)
      && (Head(a.city).Some? ==> g.cityCode == Head(a.city).value.code && g.cityName == Head(a.city).value.name)
      && (Head(a.area).Some? ==> g.areaCode == Head(a.area).value.code && g.areaName == Head(a.area).value.name)
      && (Head(a.street).Some? ==> g.streetCode == Head(a.street).value.code && g.streetName == Head(a.street).value.name)
      && g.detail == Concat(detail) && g.name == f.name && g.phone == f.phone && g.postalCode == f.postalCode
  {
  }

  /** `AddressParse` returns `{}` exactly for the empty address; only type 0
      throws; and any type other than 0 and 1 yields only the phone and the
      postal code. */
  lemma AddressParseOutcome(d: Dumps, address: string, mode: int, textFilter: seq<string>,
                            nameMaxLength: int, surnames: string)
    ensures AddressParseSpec(d, address, mode, textFilter, nameMaxLength, surnames) == Ok(None) <==> address == ""
    ensures AddressParseSpec(d, address, mode, textFilter, nameMaxLength, surnames).Err? ==> mode == 0
    ensures address != "" && mode != 0 && mode != 1 ==>
      AddressParseSpec(d, address, mode, textFilter, nameMaxLength, surnames) == Ok(Some(JsExtraction(address, textFilter).0))
  {
    if address != "" {
      var x := JsExtraction(address, textFilter);
      RouteFailsOnlyByRegexp(d, mode, NoArrays, JsTokens(Split(x.1)));
      if mode != 0 && mode != 1 {
        OtherTypeDropsTokens(d, mode, JsTokens(Split(x.1)));
      }
    }
  }
}
