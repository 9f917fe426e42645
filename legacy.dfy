/** The legacy engine `util/ZhAddressParser`: the same pipeline as the current
    one, but regions are looked up by regular expression in the JSON dumps.
    The four level parsers share the arrays `province`, `city`, `area` and
    `street`, which they clear and fill in place; a parser keeps the last
    prefix that had exactly one match (counting stops at two), removes that
    prefix from the fragment only after its loop, and then fills the
    ancestor arrays that are still empty. */
module LegacyZhAddressParser {
  import opened Wrappers
  import opened Text
  import StrUtil
  import Hutool
  import opened Extract
  import opened NamePick
  import opened Model
  import opened LevelScan
  import opened RegexMatch
  import ZhAddressParser

  // ---------------------------------------------------------------------------
  // Specification of one level parser
  // ---------------------------------------------------------------------------

  /** An ancestor array is filled only when it is still empty, and only when
      the lookup found a record. */
  function FillIfEmpty(s: seq<Rec>, found: Option<Rec>): seq<Rec>
  {
    if s == [] && found.Some? then [found.value] else s
  }

  /** The back-fill after a commit at level `lv`: each ancestor array that is
      still empty gets the record the committed one points to. */
  function Backfill(d: Dumps, lv: Level, p: Picked, rec: Rec): Picked
  {
    match lv
    case ProvinceLevel => p
    case CityLevel =>
      p.(province := FillIfEmpty(p.province, AncestorOf(d, ProvinceLevel, rec)))
    case AreaLevel =>
      p.(province := FillIfEmpty(p.province, AncestorOf(d, ProvinceLevel, rec)),
         city := FillIfEmpty(p.city, AncestorOf(d, CityLevel, rec)))
    case StreetLevel =>
      p.(province := FillIfEmpty(p.province, AncestorOf(d, ProvinceLevel, rec)),
         city := FillIfEmpty(p.city, AncestorOf(d, CityLevel, rec)),
         area := FillIfEmpty(p.area, AncestorOf(d, AreaLevel, rec)))
  }

  /** `parseProvince`, `parseCity`, `parseArea` and `parseStreet`: the arrays
      and the fragment after the parser of level `lv`. */
  function RegexResolve(d: Dumps, lv: Level, p: Picked, fragment: string): (Picked, string)
  {
    if Get(p, lv) != [] then (p, fragment)
    else
      match LastUnique(Dump(d, lv), lv, p, fragment)
      case None => (p, fragment)
      case Some((rec, s)) => (Backfill(d, lv, Put(p, lv, [rec]), rec), ReplaceFirst(fragment, s, ""))
  }

  /** The loop's result as the level's array and the prefix it keeps. */
  function Current(s: seq<Rec>, matchStr: string): Option<(Rec, string)>
  {
    if s == [] then None else Some((s[0], matchStr))
  }

  // ---------------------------------------------------------------------------
  // The arrays and the level parsers
  // ---------------------------------------------------------------------------

  /** The four region arrays of `parse`, which the level parsers update in
      place. */
  class Regions {
    var province: seq<Rec>
    var city: seq<Rec>
    var area: seq<Rec>
    var street: seq<Rec>

    function Value(): Picked
      reads this
    {
      Picked(province, city, area, street)
    }

    constructor ()
      ensures Value() == NonePicked
    {
      province, city, area, street := [], [], [], [];
    }

    /** `clear()` and `add(...)` on the array of level `lv`. */
    method Store(lv: Level, s: seq<Rec>)
      modifies this
      ensures Value() == Put(old(Value()), lv, s)
    {
      match lv
      case ProvinceLevel => province := s;
      case CityLevel => city := s;
      case AreaLevel => area := s;
      case StreetLevel => street := s;
    }

    /** The prefix loop the four parsers share: the array of level `lv` ends up
        holding the record of the last prefix that had a single match, and
        `matchStr` is that prefix. */
    method ScanLevel(d: Dumps, lv: Level, fragment: string) returns (matchStr: string)
      modifies this
      requires Get(Value(), lv) == []
      ensures Value() == Put(old(Value()), lv, Get(Value(), lv)) && |Get(Value(), lv)| <= 1
      ensures Current(Get(Value(), lv), matchStr) == LastUnique(Dump(d, lv), lv, old(Value()), fragment)
    {
      matchStr := "";
      var i := 1;
      while i < |fragment|
        invariant 1 <= i
        invariant Value() == Put(old(Value()), lv, Get(Value(), lv)) && |Get(Value(), lv)| <= 1
        invariant ScanFrom(Dump(d, lv), lv, old(Value()), fragment, i, Current(Get(Value(), lv), matchStr))
          == LastUnique(Dump(d, lv), lv, old(Value()), fragment)
        decreases |fragment| - i
      {
        var str := fragment[..i + 1];
        CandidatesIgnoreOwn(Dump(d, lv), lv, str, old(Value()), Get(Value(), lv));
        var matchCount, data := MatchOnlyOnce(Dump(d, lv), lv, str, Value());
        if matchCount == 0 {
          break;
        } else if matchCount == 1 {
          Store(lv, [data.value]);
          matchStr := str;
        }
        i := i + 1;
      }
    }

    method ParseProvince(d: Dumps, fragment: string) returns (r: string)
      modifies this
      ensures (Value(), r) == RegexResolve(d, ProvinceLevel, old(Value()), fragment)
    {
      r := fragment;
      if province == [] {
        var matchStr := ScanLevel(d, ProvinceLevel, fragment);
        if province != [] {
          r := ReplaceFirst(fragment, matchStr, "");
          assert LastUnique(d.provinces, ProvinceLevel, old(Value()), fragment) == Some((province[0], matchStr));
          assert Value() == Put(old(Value()), ProvinceLevel, [province[0]]);
        } else {
          assert Value() == old(Value());
        }
      }
    }

    method ParseCity(d: Dumps, fragment: string) returns (r: string)
      modifies this
      ensures (Value(), r) == RegexResolve(d, CityLevel, old(Value()), fragment)
    {
      r := fragment;
      if city == [] {
        var matchStr := ScanLevel(d, CityLevel, fragment);
        if city != [] {
          r := ReplaceFirst(fragment, matchStr, "");
          var rec := city[0];
          assert LastUnique(d.cities, CityLevel, old(Value()), fragment) == Some((rec, matchStr));
          assert Value() == Put(old(Value()), CityLevel, [rec]);
          if province == [] {
            var found := AncestorOf(d, ProvinceLevel, rec);
            if found.Some? {
              province := [found.value];
            }
          }
        } else {
          assert Value() == old(Value());
        }
      }
    }

    method ParseArea(d: Dumps, fragment: string) returns (r: string)
      modifies this
      ensures (Value(), r) == RegexResolve(d, AreaLevel, old(Value()), fragment)
    {
      r := fragment;
      if area == [] {
        var matchStr := ScanLevel(d, AreaLevel, fragment);
        if area != [] {
          r := ReplaceFirst(fragment, matchStr, "");
          var rec := area[0];
          assert LastUnique(d.areas, AreaLevel, old(Value()), fragment) == Some((rec, matchStr));
          assert Value() == Put(old(Value()), AreaLevel, [rec]);
          if province == [] {
            var found := AncestorOf(d, ProvinceLevel, rec);
            if found.Some? {
              province := [found.value];
            }
          }
          if city == [] {
            var found := AncestorOf(d, CityLevel, rec);
            if found.Some? {
              city := [found.value];
            }
          }
        } else {
          assert Value() == old(Value());
        }
      }
    }

    method ParseStreet(d: Dumps, fragment: string) returns (r: string)
      modifies this
      ensures (Value(), r) == RegexResolve(d, StreetLevel, old(Value()), fragment)
    {
      r := fragment;
      if street == [] {
        var matchStr := ScanLevel(d, StreetLevel, fragment);
        if street != [] {
          r := ReplaceFirst(fragment, matchStr, "");
          var rec := street[0];
          assert LastUnique(d.streets, StreetLevel, old(Value()), fragment) == Some((rec, matchStr));
          assert Value() == Put(old(Value()), StreetLevel, [rec]);
          if province == [] {
            var found := AncestorOf(d, ProvinceLevel, rec);
            if found.Some? {
              province := [found.value];
            }
          }
          if city == [] {
            var found := AncestorOf(d, CityLevel, rec);
            if found.Some? {
              city := [found.value];
            }
          }
          if area == [] {
            var found := AncestorOf(d, AreaLevel, rec);
            if found.Some? {
              area := [found.value];
            }
          }
        } else {
          assert Value() == old(Value());
        }
      }
    }
  }

  // ---------------------------------------------------------------------------
  // Specification of `parse`
  // ---------------------------------------------------------------------------

  /** The pieces that are not blank by Hutool's test, each trimmed by Hutool,
      in order. */
  function LegacyTokens(pieces: seq<string>): (r: seq<string>)
    ensures |r| <= |pieces|
  {
    if pieces == [] then []
    else
      var rest := LegacyTokens(pieces[1..]);
      if Hutool.IsNotBlank(StrUtil.Str(pieces[0])) then [Strip(pieces[0], Hutool.BlankChars)] + rest else rest
  }

  /** `parseRegionWithRegexp`: the four parsers in turn, and the fragment left,
      when it is not empty, as the one detail entry. */
  function RegionStep(d: Dumps, p: Picked, fragment: string): (Picked, seq<string>)
  {
    var r1 := RegexResolve(d, ProvinceLevel, p, fragment);
    var r2 := RegexResolve(d, CityLevel, r1.0, r1.1);
    var r3 := RegexResolve(d, AreaLevel, r2.0, r2.1);
    var r4 := RegexResolve(d, StreetLevel, r3.0, r3.1);
    (r4.0, if r4.1 != "" then [r4.1] else [])
  }

  /** One token of the routing loop: the regions and what the token adds to the
      detail list. */
  function Step(d: Dumps, p: Picked, token: string): (Picked, seq<string>)
  {
    if !AllPicked(p) then RegionStep(d, p, token) else (p, [token])
  }

  /** The routing loop over the tokens: the final regions and the detail list. */
  function Route(d: Dumps, p: Picked, tokens: seq<string>): (Picked, seq<string>)
    decreases |tokens|
  {
    if tokens == [] then (p, [])
    else
      var s := Step(d, p, tokens[0]);
      var r := Route(d, s.0, tokens[1..]);
      (r.0, s.1 + r.1)
  }

  /** The first city record whose name equals `name`. */
  function FirstNamed(recs: seq<Rec>, name: string): Option<Rec>
  {
    if recs == [] then None
    else if recs[0].name == name then Some(recs[0])
    else FirstNamed(recs[1..], name)
  }

  /** The legacy `replaceMunicipality`: the city of a municipality filed under
      one of the special names becomes the municipality itself, with the code
      of the first city record of the same name. */
  function FixMunicipalityExact(d: Dumps, f: Fields): Fields
  {
    if Hutool.IsBlank(StrUtil.Str(f.provinceName)) || Hutool.IsBlank(StrUtil.Str(f.cityName)) then f
    else if f.provinceName in ZhAddressParser.Municipality && f.cityName in ZhAddressParser.SpecialArea then
      match FirstNamed(d.cities, f.provinceName)
      case None => f
      case Some(c) => f.(cityName := f.provinceName, cityCode := c.code)
    else f
  }

  /** The code of an array's record, or "" for an empty array. */
  function CodeOf(s: seq<Rec>): string
  {
    if s == [] then "" else s[0].code
  }

  /** The name of an array's record, or "" for an empty array. */
  function NameOf(s: seq<Rec>): string
  {
    if s == [] then "" else s[0].name
  }

  /** `flatResult`: the scalar fields of `f`, the code and name of each array's
      record, the municipality fix, and the detail joined with "". */
  function FlatResult(d: Dumps, f: Fields, p: Picked, detail: seq<string>): Fields
  {
    var g := f.(provinceCode := CodeOf(p.province), provinceName := NameOf(p.province),
                cityCode := CodeOf(p.city), cityName := NameOf(p.city));
    var h := FixMunicipalityExact(d, g);
    h.(areaCode := CodeOf(p.area), areaName := NameOf(p.area),
       streetCode := CodeOf(p.street), streetName := NameOf(p.street), detail := Concat(detail))
  }

  /** The rest of `parse` after the extraction stage: routing, the name pick
      and `flatResult`. */
  function Assembly(d: Dumps, f: Fields, text: string, parseName: bool, surnames: string): Fields
  {
    var r := Route(d, NonePicked, LegacyTokens(Split(text)));
    var pk := ZhAddressParser.PickSpec(f, r.1, parseName, NameMaxLength, surnames, HutoolBlank);
    FlatResult(d, pk.0, r.0, pk.1)
  }

  /** `parse(address, parseName, parsePhone, postalCode)`; its only failure is
      the third phone rewrite's missing group. */
  function ParseSpec(d: Dumps, address: string, parseName: bool, parsePhone: bool,
                     postalCode: bool, surnames: string): Result<Fields>
  {
    if Hutool.IsBlank(StrUtil.Str(address)) then Ok(Default)
    else
      match ZhAddressParser.Extraction(LegacyKeywords, address, parsePhone, postalCode)
      case Err(e) => Err(e)
      case Ok(x) => Ok(Assembly(d, x.0, x.1, parseName, surnames))
  }

  // ---------------------------------------------------------------------------
  // The engine
  // ---------------------------------------------------------------------------

  method ParseRegionWithRegexp(d: Dumps, regions: Regions, address: string) returns (detail: seq<string>)
    modifies regions
    ensures (regions.Value(), detail) == RegionStep(d, old(regions.Value()), address)
  {
    ghost var p0 := regions.Value();
    var fragment := regions.ParseProvince(d, address);
    ghost var r1 := (regions.Value(), fragment);
    fragment := regions.ParseCity(d, fragment);
    ghost var r2 := (regions.Value(), fragment);
    fragment := regions.ParseArea(d, fragment);
    ghost var r3 := (regions.Value(), fragment);
    fragment := regions.ParseStreet(d, fragment);
    assert r1 == RegexResolve(d, ProvinceLevel, p0, address);
    assert r2 == RegexResolve(d, CityLevel, r1.0, r1.1);
    assert r3 == RegexResolve(d, AreaLevel, r2.0, r2.1);
    assert (regions.Value(), fragment) == RegexResolve(d, StreetLevel, r3.0, r3.1);
    detail := [];
    if Hutool.IsNotEmpty(StrUtil.Str(fragment)) {
      detail := [fragment];
    }
  }

  /** The routing loop of `parse`. */
  method RouteAll(d: Dumps, regions: Regions, splitAddressList: seq<string>) returns (detail: seq<string>)
    modifies regions
    ensures (regions.Value(), detail) == Route(d, old(regions.Value()), splitAddressList)
  {
    detail := [];
    var k := 0;
    assert splitAddressList[0..] == splitAddressList;
    ghost var r0 := Route(d, regions.Value(), splitAddressList);
    assert [] + r0.1 == r0.1;
    while k < |splitAddressList|
      invariant 0 <= k <= |splitAddressList|
      invariant Prepend(detail, Route(d, regions.Value(), splitAddressList[k..]))
        == Route(d, old(regions.Value()), splitAddressList)
    {
      PrependStep(d, regions.Value(), splitAddressList, k, detail);
      var regionDetail := RouteToken(d, regions, splitAddressList[k]);
      detail := detail + regionDetail;
      k := k + 1;
    }
    assert splitAddressList[k..] == [];
    assert detail + [] == detail;
  }

  /** A routing result with `detail` in front of its detail list. */
  function Prepend(detail: seq<string>, r: (Picked, seq<string>)): (Picked, seq<string>)
  {
    (r.0, detail + r.1)
  }

  /** The routing of the tokens from `k` on, behind the detail collected so
      far, is one step and the routing of the rest. */
  lemma PrependStep(d: Dumps, p: Picked, tokens: seq<string>, k: nat, detail: seq<string>)
    requires k < |tokens|
    ensures var s := Step(d, p, tokens[k]);
      Prepend(detail, Route(d, p, tokens[k..])) == Prepend(detail + s.1, Route(d, s.0, tokens[k + 1..]))
  {
    assert tokens[k..][0] == tokens[k];
    assert tokens[k..][1..] == tokens[k + 1..];
    var s := Step(d, p, tokens[k]);
    var r := Route(d, s.0, tokens[k + 1..]);
    assert detail + (s.1 + r.1) == (detail + s.1) + r.1;
  }

  /** One token of the routing loop: the four parsers while a region is
      missing, otherwise the token goes to the detail list as it is. */
  method RouteToken(d: Dumps, regions: Regions, splitAddress: string) returns (regionDetail: seq<string>)
    modifies regions
    ensures (regions.Value(), regionDetail) == Step(d, old(regions.Value()), splitAddress)
  {
    if !AllPicked(regions.Value()) {
      regionDetail := ParseRegionWithRegexp(d, regions, splitAddress);
    } else {
      regionDetail := [splitAddress];
    }
  }

  /** What `parse` does after the extraction stage, on the text left. */
  method Assemble(d: Dumps, pr: ParseResult, regions: Regions, cleanedAddress: string, parseName: bool,
                  surnames: string) returns (result: Fields)
    modifies pr, regions
    requires regions.Value() == NonePicked
    ensures result == Assembly(d, old(pr.Value()), cleanedAddress, parseName, surnames)
  {
    var splitAddressList := LegacyTokens(Split(cleanedAddress));
    var detail := RouteAll(d, regions, splitAddressList);
    if parseName && detail != [] {
      var name := PickName(detail, NameMaxLength, surnames, HutoolBlank);
      pr.name := name;
      if Hutool.IsNotBlank(StrUtil.Str(name)) {
        detail := RemoveFirst(detail, name);
      }
    }
    result := FlatResult(d, pr.Value(), regions.Value(), detail);
  }

  method Parse(d: Dumps, address: string, parseName: bool, parsePhone: bool,
               postalCode: bool, surnames: string) returns (res: Result<Fields>)
    ensures res == ParseSpec(d, address, parseName, parsePhone, postalCode, surnames)
  {
    var parseResult := new ParseResult();
    if Hutool.IsBlank(StrUtil.Str(address)) {
      return Ok(parseResult.Value());
    }
    var cleaned := ZhAddressParser.ExtractFields(parseResult, LegacyKeywords, address, parsePhone, postalCode);
    if cleaned.Err? {
      return Err(cleaned.error);
    }
    var regions := new Regions();
    var result := Assemble(d, parseResult, regions, cleaned.value, parseName, surnames);
    return Ok(result);
  }

  // ---------------------------------------------------------------------------
  // Lemmas
  // ---------------------------------------------------------------------------

  /** The record a back-fill lookup returns is in the dump and matches the
      lookup pattern. */
  lemma LookupFound(recs: seq<Rec>, lv: Level, code: string, provinceCode: string, cityCode: string)
    ensures var r := Lookup(recs, lv, code, provinceCode, cityCode);
      r.Some? ==> r.value in recs && KeyMatches(r.value, lv, code, provinceCode, cityCode)
  {
    LookupSpec(recs, lv, code, provinceCode, cityCode);
  }

  /** The back-fill after a commit at level `lv` changes only empty arrays
      above `lv`, and fills each with a dump record whose code is the one the
      committed record points to. */
  lemma BackfillSpec(d: Dumps, lv: Level, p: Picked, rec: Rec)
    ensures var q := Backfill(d, lv, p, rec);
      forall l: Level | Get(p, l) != [] || Num(l) >= Num(lv) :: Get(q, l) == Get(p, l)
    ensures var q := Backfill(d, lv, p, rec);
      forall l: Level | Get(q, l) != Get(p, l) ::
        && Get(p, l) == [] && |Get(q, l)| == 1 && Get(q, l)[0] in Dump(d, l)
        && KeyMatches(Get(q, l)[0], l, CodeFor(rec, l), rec.provinceCode, rec.cityCode)
  {
    forall l: Level
      ensures var a := AncestorOf(d, l, rec);
        a.Some? ==> a.value in Dump(d, l) && KeyMatches(a.value, l, CodeFor(rec, l), rec.provinceCode, rec.cityCode)
    {
      LookupFound(Dump(d, l), l, CodeFor(rec, l), rec.provinceCode, rec.cityCode);
    }
  }

  /** A level parser never changes a filled array or an array below its
      level, keeps every array to at most one record, and leaves a suffix of
      the fragment. */
  lemma RegexResolveKeeps(d: Dumps, lv: Level, p: Picked, fragment: string)
    ensures var (q, rest) := RegexResolve(d, lv, p, fragment);
      forall l: Level | Get(p, l) != [] || Num(l) > Num(lv) :: Get(q, l) == Get(p, l)
    ensures AtMostOne(p) ==> AtMostOne(RegexResolve(d, lv, p, fragment).0)
    ensures var (q, rest) := RegexResolve(d, lv, p, fragment);
      |rest| <= |fragment| && rest == fragment[|fragment| - |rest|..]
  {
    if Get(p, lv) == [] {
      var u := LastUnique(Dump(d, lv), lv, p, fragment);
      if u.Some? {
        var (rec, s) := u.value;
        LastUniqueSpec(Dump(d, lv), lv, p, fragment);
        assert ReplaceFirst(fragment, s, "") == fragment[|s|..];
        BackfillSpec(d, lv, Put(p, lv, [rec]), rec);
      }
    }
  }

  /** A level parser leaves a suffix of the fragment. */
  lemma RegexResolveSuffix(d: Dumps, lv: Level, p: Picked, fragment: string)
    ensures ZhAddressParser.IsSuffix(RegexResolve(d, lv, p, fragment).1, fragment)
  {
    RegexResolveKeeps(d, lv, p, fragment);
  }

  /** A level parser is a no-op exactly when its array is filled or no
      reached prefix has a single candidate. */
  lemma RegexResolveNoOp(d: Dumps, lv: Level, p: Picked, fragment: string)
    ensures var (q, rest) := RegexResolve(d, lv, p, fragment);
      (q == p && rest == fragment) <==> (Get(p, lv) != [] || LastUnique(Dump(d, lv), lv, p, fragment).None?)
  {
    if Get(p, lv) == [] {
      var u := LastUnique(Dump(d, lv), lv, p, fragment);
      if u.Some? {
        var (rec, s) := u.value;
        BackfillSpec(d, lv, Put(p, lv, [rec]), rec);
        assert Get(RegexResolve(d, lv, p, fragment).0, lv) == [rec];
      }
    }
  }

  /** When a level parser acts, its array holds the one candidate of the
      longest reached prefix with a single candidate, taken from the dump,
      that prefix is cut from the front of the fragment, and every ancestor
      array it fills was empty and now holds the dump record the committed
      record points to. */
  lemma RegexResolveCommits(d: Dumps, lv: Level, p: Picked, fragment: string)
    ensures var (q, rest) := RegexResolve(d, lv, p, fragment);
      q != p ==>
        && |Get(q, lv)| == 1 && Get(q, lv)[0] in Dump(d, lv)
        && exists k | 2 <= k <= |fragment| ::
             && rest == fragment[k..]
             && Candidates(Dump(d, lv), lv, fragment[..k], p) == Get(q, lv)
             && forall j | k < j <= |fragment| && Reached(Dump(d, lv), lv, p, fragment, j) ::
                  !UniqueAt(Dump(d, lv), lv, p, fragment, j)
    ensures var (q, rest) := RegexResolve(d, lv, p, fragment);
      q != p ==>
        forall l: Level | l != lv && Get(q, l) != Get(p, l) ::
          && Num(l) < Num(lv) && Get(p, l) == [] && |Get(q, l)| == 1 && Get(q, l)[0] in Dump(d, l)
          && KeyMatches(Get(q, l)[0], l, CodeFor(Get(q, lv)[0], l), Get(q, lv)[0].provinceCode, Get(q, lv)[0].cityCode)
  {
    if Get(p, lv) == [] {
      var u := LastUnique(Dump(d, lv), lv, p, fragment);
      if u.Some? {
        var (rec, s) := u.value;
        LastUniqueSpec(Dump(d, lv), lv, p, fragment);
        LastUniqueFound(Dump(d, lv), lv, p, fragment);
        var k := |s|;
        assert ReplaceFirst(fragment, s, "") == fragment[k..];
        assert fragment[..k] == s;
        BackfillSpec(d, lv, Put(p, lv, [rec]), rec);
        assert Get(RegexResolve(d, lv, p, fragment).0, lv) == [rec];
      }
    }
  }

  /** Not empty, and neither starting nor ending with a blank character, so
      its own Hutool trim and not blank. */
  predicate TrimmedToken(t: string)
  {
    t != "" && t[0] !in Hutool.BlankChars && t[|t| - 1] !in Hutool.BlankChars
  }

  /** A piece whose Hutool trim is not empty (one that is not blank) trims to
      such a token. */
  lemma TrimmedPiece(piece: string)
    requires Strip(piece, Hutool.BlankChars) != []
    ensures TrimmedToken(Strip(piece, Hutool.BlankChars))
  {
    StrippedEnds(piece, Hutool.BlankChars);
  }

  /** A trimmed token is its own Hutool trim and is not blank. */
  lemma TrimmedTokenSpec(t: string)
    requires TrimmedToken(t)
    ensures Strip(t, Hutool.BlankChars) == t && Hutool.IsNotBlank(StrUtil.Str(t))
  {
  }

  /** Every token is a trimmed token. */
  predicate AllTrimmed(ts: seq<string>)
    decreases |ts|
  {
    ts == [] || (TrimmedToken(ts[0]) && AllTrimmed(ts[1..]))
  }

  /** The tokens are not blank and are their own Hutool trim. */
  lemma {:induction false} LegacyTokensSpec(pieces: seq<string>)
    ensures AllTrimmed(LegacyTokens(pieces))
    decreases |pieces|
  {
    if pieces != [] {
      LegacyTokensSpec(pieces[1..]);
      if Hutool.IsNotBlank(StrUtil.Str(pieces[0])) {
        TrimmedPiece(pieces[0]);
        var ts := LegacyTokens(pieces);
        assert ts == [Strip(pieces[0], Hutool.BlankChars)] + LegacyTokens(pieces[1..]);
        assert ts[1..] == LegacyTokens(pieces[1..]);
      }
    }
  }

  /** Each element of such a list is a trimmed token. */
  lemma {:induction false} AllTrimmedMembers(ts: seq<string>)
    requires AllTrimmed(ts)
    ensures forall t | t in ts :: TrimmedToken(t)
    decreases |ts|
  {
    if ts != [] {
      AllTrimmedMembers(ts[1..]);
      assert forall t | t in ts :: t == ts[0] || t in ts[1..];
    }
  }

  /** The four parsers' arrays after one pass. */
  lemma RegionStepKeeps(d: Dumps, p: Picked, token: string)
    ensures var q := RegionStep(d, p, token).0;
      forall l: Level | Get(p, l) != [] :: Get(q, l) == Get(p, l)
    ensures AtMostOne(p) ==> AtMostOne(RegionStep(d, p, token).0)
  {
    var r1 := RegexResolve(d, ProvinceLevel, p, token);
    var r2 := RegexResolve(d, CityLevel, r1.0, r1.1);
    var r3 := RegexResolve(d, AreaLevel, r2.0, r2.1);
    RegexResolveKeeps(d, ProvinceLevel, p, token);
    RegexResolveKeeps(d, CityLevel, r1.0, r1.1);
    RegexResolveKeeps(d, AreaLevel, r2.0, r2.1);
    RegexResolveKeeps(d, StreetLevel, r3.0, r3.1);
  }

  /** One pass of the four parsers adds to the detail list nothing or one
      non-empty suffix of the token. */
  lemma RegionStepDetail(d: Dumps, p: Picked, token: string)
    ensures var detail := RegionStep(d, p, token).1;
      |detail| <= 1 && forall x | x in detail :: x != "" && ZhAddressParser.IsSuffix(x, token)
  {
    var r := RegionRest(d, p, token);
    RegionRestSuffix(d, p, token);
    assert RegionStep(d, p, token).1 == if r != "" then [r] else [];
  }

  /** The fragment the four parsers leave behind. */
  function RegionRest(d: Dumps, p: Picked, fragment: string): string
  {
    var r1 := RegexResolve(d, ProvinceLevel, p, fragment);
    var r2 := RegexResolve(d, CityLevel, r1.0, r1.1);
    var r3 := RegexResolve(d, AreaLevel, r2.0, r2.1);
    RegexResolve(d, StreetLevel, r3.0, r3.1).1
  }

  /** The four parsers leave a suffix of the token. */
  lemma RegionRestSuffix(d: Dumps, p: Picked, token: string)
    ensures ZhAddressParser.IsSuffix(RegionRest(d, p, token), token)
  {
    var r1 := RegexResolve(d, ProvinceLevel, p, token);
    var r2 := RegexResolve(d, CityLevel, r1.0, r1.1);
    var r3 := RegexResolve(d, AreaLevel, r2.0, r2.1);
    var r4 := RegexResolve(d, StreetLevel, r3.0, r3.1);
    RegexResolveSuffix(d, ProvinceLevel, p, token);
    RegexResolveSuffix(d, CityLevel, r1.0, r1.1);
    RegexResolveSuffix(d, AreaLevel, r2.0, r2.1);
    RegexResolveSuffix(d, StreetLevel, r3.0, r3.1);
    SuffixChain(token, r1.1, r2.1, r3.1, r4.1);
  }

  lemma SuffixChain(t: string, a: string, b: string, c: string, e: string)
    requires ZhAddressParser.IsSuffix(a, t) && ZhAddressParser.IsSuffix(b, a)
    requires ZhAddressParser.IsSuffix(c, b) && ZhAddressParser.IsSuffix(e, c)
    ensures ZhAddressParser.IsSuffix(e, t)
  {
    SuffixOfSuffix(t, a, b);
    SuffixOfSuffix(t, b, c);
    SuffixOfSuffix(t, c, e);
  }

  /** Routing never changes a filled array and keeps every array to at most
      one record; with tokens that are not empty it adds only non-empty
      entries, each a suffix of one of the tokens. */
  lemma {:induction false} RouteSpec(d: Dumps, p: Picked, tokens: seq<string>)
    requires forall t | t in tokens :: t != ""
    ensures var (q, detail) := Route(d, p, tokens);
      forall l: Level | Get(p, l) != [] :: Get(q, l) == Get(p, l)
    ensures AtMostOne(p) ==> AtMostOne(Route(d, p, tokens).0)
    ensures var (q, detail) := Route(d, p, tokens);
      forall x | x in detail :: x != "" && exists t | t in tokens :: ZhAddressParser.IsSuffix(x, t)
    decreases |tokens|
  {
    if tokens != [] {
      var s := Step(d, p, tokens[0]);
      if !AllPicked(p) {
        RegionStepKeeps(d, p, tokens[0]);
        RegionStepDetail(d, p, tokens[0]);
      } else {
        assert ZhAddressParser.IsSuffix(tokens[0], tokens[0]);
      }
      assert tokens[0] in tokens;
      assert forall t | t in tokens[1..] :: t in tokens;
      RouteSpec(d, s.0, tokens[1..]);
    }
  }

  /** Once every array is filled, the remaining tokens go to the detail list
      verbatim and the arrays no longer change. */
  lemma {:induction false} RoutePickedVerbatim(d: Dumps, p: Picked, tokens: seq<string>)
    requires AllPicked(p)
    ensures Route(d, p, tokens) == (p, tokens)
    decreases |tokens|
  {
    if tokens != [] {
      assert Step(d, p, tokens[0]) == (p, [tokens[0]]);
      RoutePickedVerbatim(d, p, tokens[1..]);
      assert tokens == [tokens[0]] + tokens[1..];
    }
  }

  /** The legacy `parse` fails exactly when the phone number is asked for, the
      address is not blank and the cleaned, regrouped text has the
      `dddd dddd dddd` shape. */
  lemma LegacyParseFails(d: Dumps, address: string, parseName: bool, parsePhone: bool,
                         postalCode: bool, surnames: string)
    ensures ParseSpec(d, address, parseName, parsePhone, postalCode, surnames).Err? <==>
      parsePhone && !Hutool.IsBlank(StrUtil.Str(address))
      && HasSpacedFour(JoinGroups(JoinGroups(CleanAddressWith(address, LegacyKeywords), '-'), ' '))
  {
    FilterPhoneJavaSpec(CleanAddressWith(address, LegacyKeywords));
  }

  /** `flatResult`: a level whose array is empty gives "" for its name and
      code; province, area and street come from their arrays; the detail is
      the list joined with ""; the fields other than regions and detail are
      those of `f`; and the city is the array's record unless the
      municipality fix applies, which gives it the province's name and the
      code of the first city record of that name. */
  lemma FlatResultSpec(d: Dumps, f: Fields, p: Picked, detail: seq<string>)
    ensures var g := FlatResult(d, f, p, detail);
      && (p.province == [] ==> g.provinceCode == "" && g.provinceName == "")
      && (p.area == [] ==> g.areaCode == "" && g.areaName == "")
      && (p.street == [] ==> g.streetCode == "" && g.streetName == "")
      && (p.province != [] ==> g.provinceCode == p.province[0].code && g.provinceName == p.province[0].name)
      && (p.area != [] ==> g.areaCode == p.area[0].code && g.areaName == p.area[0].name)
      && (p.street != [] ==> g.streetCode == p.street[0].code && g.streetName == p.street[0].name)
    ensures var g := FlatResult(d, f, p, detail);
      g.detail == Concat(detail) && g.name == f.name && g.phone == f.phone && g.postalCode == f.postalCode
    ensures var g := FlatResult(d, f, p, detail);
      || (g.cityCode == CodeOf(p.city) && g.cityName == NameOf(p.city))
      || (&& p.province != [] && p.city != []
          && p.province[0].name in ZhAddressParser.Municipality && p.city[0].name in ZhAddressParser.SpecialArea
          && g.cityName == p.province[0].name
          && exists i | 0 <= i < |d.cities| ::
               && d.cities[i].name == g.cityName && d.cities[i].code == g.cityCode
               && forall j | 0 <= j < i :: d.cities[j].name != g.cityName)
    ensures var g := FlatResult(d, f, p, detail);
      p.city == [] ==> g.cityCode == "" && g.cityName == ""
    ensures var g := FlatResult(d, f, p, detail);
      && p.province != [] && p.city != []
      && p.province[0].name in ZhAddressParser.Municipality && p.city[0].name in ZhAddressParser.SpecialArea
      && FirstNamed(d.cities, p.province[0].name).Some? ==>
      g.cityName == p.province[0].name && g.cityCode == FirstNamed(d.cities, p.province[0].name).value.code
  {
    var g := f.(provinceCode := CodeOf(p.province), provinceName := NameOf(p.province),
                cityCode := CodeOf(p.city), cityName := NameOf(p.city));
    FixMunicipalityExactSpec(d, g);
    if FixMunicipalityExact(d, g) != g {
      var i := FirstNamedSpec(d.cities, g.provinceName);
      assert p.city != [] && p.province != [];
    }
  }

  /** The legacy fix changes only the city, and it changes it exactly when the
      province is a municipality, the city is a placeholder and a city record
      carries the province's name: the city then becomes the province's name
      with the code of the first such record. */
  lemma FixMunicipalityExactSpec(d: Dumps, f: Fields)
    ensures var r := FixMunicipalityExact(d, f);
      r.(cityCode := f.cityCode, cityName := f.cityName) == f
    ensures var r := FixMunicipalityExact(d, f);
      f.provinceName in ZhAddressParser.Municipality && f.cityName in ZhAddressParser.SpecialArea
      && FirstNamed(d.cities, f.provinceName).Some? ==>
      r.cityName == f.provinceName && r.cityCode == FirstNamed(d.cities, f.provinceName).value.code
    ensures var r := FixMunicipalityExact(d, f);
      (f.provinceName !in ZhAddressParser.Municipality || f.cityName !in ZhAddressParser.SpecialArea
       || FirstNamed(d.cities, f.provinceName).None?) ==> r == f
  {
    if f.provinceName in ZhAddressParser.Municipality && f.cityName in ZhAddressParser.SpecialArea {
      MunicipalNamesNotBlank();
    }
  }

  /** The municipality names and the placeholder city names are not blank. */
  lemma MunicipalNamesNotBlank()
    ensures forall m | m in ZhAddressParser.Municipality :: !Hutool.IsBlank(StrUtil.Str(m))
    ensures forall m | m in ZhAddressParser.SpecialArea :: !Hutool.IsBlank(StrUtil.Str(m))
  {
    forall m | m in ZhAddressParser.Municipality ensures !Hutool.IsBlank(StrUtil.Str(m)) {
      CjkNotHutoolBlank(m, 0);
    }
    forall m | m in ZhAddressParser.SpecialArea ensures !Hutool.IsBlank(StrUtil.Str(m)) {
      CjkNotHutoolBlank(m, 0);
    }
  }

  /** The first city record of a name, with its index: no earlier record has
      that name. */
  lemma {:induction false} FirstNamedSpec(recs: seq<Rec>, name: string) returns (i: nat)
    ensures FirstNamed(recs, name).None? <==> forall r | r in recs :: r.name != name
    ensures FirstNamed(recs, name).Some? ==>
      && i < |recs| && recs[i] == FirstNamed(recs, name).value && recs[i].name == name
      && forall j | 0 <= j < i :: recs[j].name != name
    decreases |recs|
  {
    i := 0;
    if recs != [] && recs[0].name != name {
      var k := FirstNamedSpec(recs[1..], name);
      assert forall r | r in recs :: r == recs[0] || r in recs[1..];
      if FirstNamed(recs[1..], name).Some? {
        i := k + 1;
        assert forall j | 1 <= j < i :: recs[j] == recs[1..][j - 1];
      }
    }
  }
}
