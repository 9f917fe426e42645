/** The region search of the legacy engine and of the JavaScript port's
    regular-expression mode. Both keep each level's table as the JSON text of
    its records and look a prefix up by matching a pattern against that text;
    a match is one record, so a search amounts to a filter over the records in
    file order. A pattern asks for a numeric code, a name that is the prefix
    followed only by CJK characters, and, for each ancestor level, that
    ancestor's code when it is already resolved and any 1- to 6-digit code
    otherwise. */
module RegexMatch {
  import opened Wrappers
  import opened Text
  import opened LevelScan

  /** One record of a dump. Provinces carry a code and a name, cities also the
      province's code, areas also the city's, streets also the area's; a key a
      level does not have is "". */
  datatype Rec = Rec(code: string, name: string, provinceCode: string, cityCode: string, areaCode: string)

  /** The four dumps, each in file order. */
  datatype Dumps = Dumps(provinces: seq<Rec>, cities: seq<Rec>, areas: seq<Rec>, streets: seq<Rec>)

  function Dump(d: Dumps, lv: Level): seq<Rec>
  {
    match lv
    case ProvinceLevel => d.provinces
    case CityLevel => d.cities
    case AreaLevel => d.areas
    case StreetLevel => d.streets
  }

  /** The regions found so far: one array per level, each empty or holding the
      record found. */
  datatype Picked = Picked(province: seq<Rec>, city: seq<Rec>, area: seq<Rec>, street: seq<Rec>)

  const NonePicked: Picked := Picked([], [], [], [])

  function Get(p: Picked, lv: Level): seq<Rec>
  {
    match lv
    case ProvinceLevel => p.province
    case CityLevel => p.city
    case AreaLevel => p.area
    case StreetLevel => p.street
  }

  /** The arrays with the one of level `lv` replaced. */
  function Put(p: Picked, lv: Level, s: seq<Rec>): (r: Picked)
    ensures Get(r, lv) == s
    ensures forall l: Level | l != lv :: Get(r, l) == Get(p, l)
  {
    match lv
    case ProvinceLevel => p.(province := s)
    case CityLevel => p.(city := s)
    case AreaLevel => p.(area := s)
    case StreetLevel => p.(street := s)
  }

  /** No array holds more than one record. */
  predicate AtMostOne(p: Picked)
  {
    |p.province| <= 1 && |p.city| <= 1 && |p.area| <= 1 && |p.street| <= 1
  }

  /** Every array holds a record. */
  predicate AllPicked(p: Picked)
  {
    p.province != [] && p.city != [] && p.area != [] && p.street != []
  }

  // ---------------------------------------------------------------------------
  // Patterns
  // ---------------------------------------------------------------------------

  /** `[0-9]{1,n}`. */
  predicate CodeShaped(c: string, n: nat)
  {
    1 <= |c| <= n && AllDigits(c)
  }

  /** The code spliced in for an ancestor: the resolved record's code, or
      `[0-9]{1,6}` when the ancestor's array is empty. */
  predicate PinMatches(ancestor: seq<Rec>, c: string)
  {
    if ancestor == [] then CodeShaped(c, 6) else c == ancestor[0].code
  }

  /** The candidate pattern of level `lv` for the prefix `str`: the code has up
      to six digits (nine for streets), the name is `str` followed by CJK
      characters only, and each ancestor code is pinned. */
  predicate IsCandidate(r: Rec, lv: Level, str: string, p: Picked)
  {
    && CodeShaped(r.code, if lv == StreetLevel then 9 else 6)
    && StartsWith(r.name, str) && AllCjk(r.name[|str|..])
    && (lv != ProvinceLevel ==> PinMatches(p.province, r.provinceCode))
    && (lv == AreaLevel || lv == StreetLevel ==> PinMatches(p.city, r.cityCode))
    && (lv == StreetLevel ==> PinMatches(p.area, r.areaCode))
  }

  /** Every match of the candidate pattern, in file order. */
  function Candidates(recs: seq<Rec>, lv: Level, str: string, p: Picked): (r: seq<Rec>)
    ensures |r| <= |recs|
  {
    if recs == [] then []
    else (if IsCandidate(recs[0], lv, str, p) then [recs[0]] else []) + Candidates(recs[1..], lv, str, p)
  }

  /** The back-fill patterns (`PATTERN_PROVINCE_CODE`, `PATTERN_CITY_CODE`,
      `PATTERN_AREA_CODE`): the exact code, a non-empty CJK name, and the
      exact codes of the ancestors. */
  predicate KeyMatches(r: Rec, lv: Level, code: string, provinceCode: string, cityCode: string)
  {
    && r.code == code && r.name != [] && AllCjk(r.name)
    && (lv == CityLevel || lv == AreaLevel ==> r.provinceCode == provinceCode)
    && (lv == AreaLevel ==> r.cityCode == cityCode)
  }

  /** The first record the back-fill pattern matches (`find()` once). */
  function Lookup(recs: seq<Rec>, lv: Level, code: string, provinceCode: string, cityCode: string): Option<Rec>
  {
    if recs == [] then None
    else if KeyMatches(recs[0], lv, code, provinceCode, cityCode) then Some(recs[0])
    else Lookup(recs[1..], lv, code, provinceCode, cityCode)
  }

  /** The code a record gives for its ancestor at level `l` (its own code at
      its own level). */
  function CodeFor(rec: Rec, l: Level): string
  {
    match l
    case ProvinceLevel => rec.provinceCode
    case CityLevel => rec.cityCode
    case AreaLevel => rec.areaCode
    case StreetLevel => rec.code
  }

  /** The ancestor lookup of level `l` for a committed record. */
  function AncestorOf(d: Dumps, l: Level, rec: Rec): Option<Rec>
  {
    Lookup(Dump(d, l), l, CodeFor(rec, l), rec.provinceCode, rec.cityCode)
  }

  // ---------------------------------------------------------------------------
  // The prefix loop of a level parser
  // ---------------------------------------------------------------------------

  /** The loop from prefix length `i + 1` on, with `last` the last prefix so
      far that had exactly one candidate: a prefix without candidates ends the
      loop, a prefix with one candidate becomes the last, and a prefix with
      more changes nothing. */
  function ScanFrom(recs: seq<Rec>, lv: Level, p: Picked, fragment: string, i: nat,
                    last: Option<(Rec, string)>): Option<(Rec, string)>
    decreases |fragment| - i
  {
    if i >= |fragment| then last
    else
      var str := fragment[..i + 1];
      var c := Candidates(recs, lv, str, p);
      if c == [] then last
      else ScanFrom(recs, lv, p, fragment, i + 1, if |c| == 1 then Some((c[0], str)) else last)
  }

  /** The whole loop: prefixes of length 2, 3, … of the fragment. */
  function LastUnique(recs: seq<Rec>, lv: Level, p: Picked, fragment: string): Option<(Rec, string)>
  {
    ScanFrom(recs, lv, p, fragment, 1, None)
  }

  /** The loop gets as far as the prefix of length `k`: every shorter prefix of
      length 2 or more has a candidate. */
  predicate Reached(recs: seq<Rec>, lv: Level, p: Picked, fragment: string, k: nat)
  {
    k <= |fragment| && forall j | 2 <= j < k :: Candidates(recs, lv, fragment[..j], p) != []
  }

  /** The prefix of length `k` has exactly one candidate. */
  predicate UniqueAt(recs: seq<Rec>, lv: Level, p: Picked, fragment: string, k: nat)
    requires k <= |fragment|
  {
    |Candidates(recs, lv, fragment[..k], p)| == 1
  }

  /** `matchOnlyOnce` of the legacy engine: the matches are counted in file
      order and the count stops at 2; the record comes back only when it was
      the one match. */
  method MatchOnlyOnce(recs: seq<Rec>, lv: Level, str: string, p: Picked) returns (count: int, data: Option<Rec>)
    ensures count == if |Candidates(recs, lv, str, p)| < 2 then |Candidates(recs, lv, str, p)| else 2
    ensures data.Some? <==> count == 1
    ensures count == 1 ==> data == Some(Candidates(recs, lv, str, p)[0])
  {
    count := 0;
    var matchString: Option<Rec> := None;
    var k := 0;
    while k < |recs|
      invariant 0 <= k <= |recs| && 0 <= count <= 1
      invariant count == |Candidates(recs[..k], lv, str, p)|
      invariant count == 1 ==> matchString == Some(Candidates(recs[..k], lv, str, p)[0])
    {
      CandidatesSplit(recs[..k], [recs[k]], lv, str, p);
      assert recs[..k] + [recs[k]] == recs[..k + 1];
      if IsCandidate(recs[k], lv, str, p) {
        count := count + 1;
        if count == 2 {
          CandidatesSplit(recs[..k + 1], recs[k + 1..], lv, str, p);
          assert recs[..k + 1] + recs[k + 1..] == recs;
          break;
        }
        matchString := Some(recs[k]);
      }
      k := k + 1;
    }
    if k == |recs| {
      assert recs[..k] == recs;
    }
    data := if count == 1 then matchString else None;
  }

  // ---------------------------------------------------------------------------
  // Lemmas
  // ---------------------------------------------------------------------------

  /** The matches in two consecutive pieces of a dump are those of the first
      piece followed by those of the second. */
  lemma {:induction false} CandidatesSplit(a: seq<Rec>, b: seq<Rec>, lv: Level, str: string, p: Picked)
    ensures Candidates(a + b, lv, str, p) == Candidates(a, lv, str, p) + Candidates(b, lv, str, p)
    decreases |a|
  {
    if a == [] {
      assert a + b == b;
    } else {
      assert (a + b)[0] == a[0];
      assert (a + b)[1..] == a[1..] + b;
      CandidatesSplit(a[1..], b, lv, str, p);
    }
  }

  /** The candidates are exactly the records of the dump the pattern matches,
      in file order. */
  lemma {:induction false} CandidatesMembers(recs: seq<Rec>, lv: Level, str: string, p: Picked)
    ensures forall r | r in Candidates(recs, lv, str, p) :: r in recs && IsCandidate(r, lv, str, p)
    ensures forall r | r in recs && IsCandidate(r, lv, str, p) :: r in Candidates(recs, lv, str, p)
    decreases |recs|
  {
    if recs != [] {
      CandidatesMembers(recs[1..], lv, str, p);
      assert forall r | r in recs :: r == recs[0] || r in recs[1..];
    }
  }

  /** A pattern never looks at the level's own array. */
  lemma {:induction false} CandidatesIgnoreOwn(recs: seq<Rec>, lv: Level, str: string, p: Picked, s: seq<Rec>)
    ensures Candidates(recs, lv, str, Put(p, lv, s)) == Candidates(recs, lv, str, p)
    decreases |recs|
  {
    if recs != [] {
      CandidatesIgnoreOwn(recs[1..], lv, str, p, s);
    }
  }

  /** Nor does the loop. */
  lemma {:induction false} ScanIgnoresOwn(recs: seq<Rec>, lv: Level, p: Picked, s: seq<Rec>, fragment: string,
                                          i: nat, last: Option<(Rec, string)>)
    ensures ScanFrom(recs, lv, Put(p, lv, s), fragment, i, last) == ScanFrom(recs, lv, p, fragment, i, last)
    decreases |fragment| - i
  {
    if i < |fragment| {
      var str := fragment[..i + 1];
      CandidatesIgnoreOwn(recs, lv, str, p, s);
      var c := Candidates(recs, lv, str, p);
      if c != [] {
        ScanIgnoresOwn(recs, lv, p, s, fragment, i + 1, if |c| == 1 then Some((c[0], str)) else last);
      }
    }
  }

  /** What the loop from `i` on returns: the last prefix it reaches that has
      exactly one candidate, with that candidate, or `last` when there is
      none. */
  lemma ScanFromSpec(recs: seq<Rec>, lv: Level, p: Picked, fragment: string, i: nat,
                     last: Option<(Rec, string)>)
    requires 1 <= i <= |fragment| && forall j | 2 <= j < i + 1 :: Candidates(recs, lv, fragment[..j], p) != []
    requires last.None? || |last.value.1| <= i
    ensures var r := ScanFrom(recs, lv, p, fragment, i, last);
      r == last || (r.Some? && i + 1 <= |r.value.1| <= |fragment| && r.value.1 == fragment[..|r.value.1|]
        && Reached(recs, lv, p, fragment, |r.value.1|)
        && Candidates(recs, lv, r.value.1, p) == [r.value.0])
    ensures var r := ScanFrom(recs, lv, p, fragment, i, last);
      forall k | i + 1 <= k <= |fragment| && Reached(recs, lv, p, fragment, k) && UniqueAt(recs, lv, p, fragment, k) ::
        r.Some? && k <= |r.value.1|
  {
    ScanFromFound(recs, lv, p, fragment, i, last);
    ScanFromLongest(recs, lv, p, fragment, i, last);
  }

  /** The loop returns `last` or a reached prefix with its one candidate. */
  lemma {:induction false} ScanFromFound(recs: seq<Rec>, lv: Level, p: Picked, fragment: string, i: nat,
                                         last: Option<(Rec, string)>)
    requires 1 <= i <= |fragment| && forall j | 2 <= j < i + 1 :: Candidates(recs, lv, fragment[..j], p) != []
    ensures var r := ScanFrom(recs, lv, p, fragment, i, last);
      r == last || (r.Some? && i + 1 <= |r.value.1| <= |fragment| && r.value.1 == fragment[..|r.value.1|]
        && Reached(recs, lv, p, fragment, |r.value.1|)
        && Candidates(recs, lv, r.value.1, p) == [r.value.0])
    decreases |fragment| - i
  {
    if i < |fragment| {
      var str := fragment[..i + 1];
      var c := Candidates(recs, lv, str, p);
      if c != [] {
        var next := if |c| == 1 then Some((c[0], str)) else last;
        forall j | 2 <= j < i + 2 ensures Candidates(recs, lv, fragment[..j], p) != [] {
          if j == i + 1 {
            assert fragment[..j] == str;
          }
        }
        ScanFromFound(recs, lv, p, fragment, i + 1, next);
        if |c| == 1 {
          assert c == [c[0]];
        }
      }
    }
  }

  /** No reached prefix longer than `i` with one candidate is longer than
      what the loop returns. */
  lemma {:induction false} ScanFromLongest(recs: seq<Rec>, lv: Level, p: Picked, fragment: string, i: nat,
                                           last: Option<(Rec, string)>)
    requires 1 <= i <= |fragment| && forall j | 2 <= j < i + 1 :: Candidates(recs, lv, fragment[..j], p) != []
    requires last.None? || |last.value.1| <= i
    ensures var r := ScanFrom(recs, lv, p, fragment, i, last);
      forall k | i + 1 <= k <= |fragment| && Reached(recs, lv, p, fragment, k) && UniqueAt(recs, lv, p, fragment, k) ::
        r.Some? && k <= |r.value.1|
    decreases |fragment| - i
  {
    if i < |fragment| {
      var str := fragment[..i + 1];
      var c := Candidates(recs, lv, str, p);
      if c != [] {
        var next := if |c| == 1 then Some((c[0], str)) else last;
        forall j | 2 <= j < i + 2 ensures Candidates(recs, lv, fragment[..j], p) != [] {
          if j == i + 1 {
            assert fragment[..j] == str;
          }
        }
        ScanFromFound(recs, lv, p, fragment, i + 1, next);
        ScanFromLongest(recs, lv, p, fragment, i + 1, next);
      } else {
        forall k | i + 1 < k <= |fragment| ensures !Reached(recs, lv, p, fragment, k) {
          assert fragment[..i + 1] == str;
        }
      }
    }
  }

  /** The loop's result: nothing when no reached prefix has exactly one
      candidate, and otherwise the longest reached prefix that has, with its
      candidate. A prefix is reached when every shorter prefix of two or more
      characters has a candidate. */
  lemma LastUniqueSpec(recs: seq<Rec>, lv: Level, p: Picked, fragment: string)
    ensures var r := LastUnique(recs, lv, p, fragment);
      r.None? <==> forall k | 2 <= k <= |fragment| && Reached(recs, lv, p, fragment, k) :: !UniqueAt(recs, lv, p, fragment, k)
    ensures var r := LastUnique(recs, lv, p, fragment);
      r.Some? ==>
        && 2 <= |r.value.1| <= |fragment| && r.value.1 == fragment[..|r.value.1|]
        && Reached(recs, lv, p, fragment, |r.value.1|) && UniqueAt(recs, lv, p, fragment, |r.value.1|)
        && Candidates(recs, lv, r.value.1, p) == [r.value.0]
        && forall k | |r.value.1| < k <= |fragment| && Reached(recs, lv, p, fragment, k) :: !UniqueAt(recs, lv, p, fragment, k)
  {
    if |fragment| >= 2 {
      ScanFromSpec(recs, lv, p, fragment, 1, None);
    }
  }

  /** A record the loop returns is in the dump and matches the pattern for
      its prefix. */
  lemma LastUniqueFound(recs: seq<Rec>, lv: Level, p: Picked, fragment: string)
    ensures var r := LastUnique(recs, lv, p, fragment);
      r.Some? ==> r.value.0 in recs && IsCandidate(r.value.0, lv, r.value.1, p)
  {
    var r := LastUnique(recs, lv, p, fragment);
    if r.Some? {
      LastUniqueSpec(recs, lv, p, fragment);
      CandidatesMembers(recs, lv, r.value.1, p);
      assert r.value.0 in Candidates(recs, lv, r.value.1, p);
    }
  }

  /** The back-fill lookup returns the first record of the dump that its
      pattern matches, and nothing when none does. */
  lemma {:induction false} LookupSpec(recs: seq<Rec>, lv: Level, code: string, provinceCode: string, cityCode: string)
    ensures var r := Lookup(recs, lv, code, provinceCode, cityCode);
      r.None? <==> forall x | x in recs :: !KeyMatches(x, lv, code, provinceCode, cityCode)
    ensures var r := Lookup(recs, lv, code, provinceCode, cityCode);
      r.Some? ==>
        exists i | 0 <= i < |recs| ::
          && recs[i] == r.value && KeyMatches(r.value, lv, code, provinceCode, cityCode)
          && forall j | 0 <= j < i :: !KeyMatches(recs[j], lv, code, provinceCode, cityCode)
    decreases |recs|
  {
    if recs != [] {
      LookupSpec(recs[1..], lv, code, provinceCode, cityCode);
      assert forall x | x in recs :: x == recs[0] || x in recs[1..];
      var r := Lookup(recs, lv, code, provinceCode, cityCode);
      if r.Some? && !KeyMatches(recs[0], lv, code, provinceCode, cityCode) {
        var i :| 0 <= i < |recs[1..]| && recs[1..][i] == r.value && KeyMatches(r.value, lv, code, provinceCode, cityCode)
          && forall j | 0 <= j < i :: !KeyMatches(recs[1..][j], lv, code, provinceCode, cityCode);
        assert recs[i + 1] == r.value;
        assert forall j | 1 <= j < i + 1 :: recs[j] == recs[1..][j - 1];
      }
    }
  }
}
