/** The municipality test of the legacy engine run through the whole of
    `parse`: cleaning, the phone and postal filters, the split, the routing on
    the dump of `LegacyScenario`, the name pick and `flatResult`. */
module MunicipalityTest {
  import opened Wrappers
  import opened Text
  import opened Model
  import opened Extract
  import opened NamePick
  import opened LegacyZhAddressParser
  import LegacyScenario
  import Hutool
  import StrUtil
  import ZhAddressParser

  /** The address of the municipality test. */
  const TestAddress: string := "王晓光 重庆市 垫江县 太平镇，13311111111"

  /** Its words, and its phone number. */
  const Words: string := "王晓光 重庆市 垫江县 太平镇"
  const Mobile: string := "13311111111"

  /** Cleaning an address of words, a full-width comma and a number with
      none of the cleaned characters only turns the comma into a space. */
  lemma CleanShape(w: string, m: string)
    requires var a := w + "，" + m; '\r' !in a && '\n' !in a && '\t' !in a
    requires forall k | 0 <= k < |LegacyKeywords| :: LegacyKeywords[k][0] !in w + "，" + m
    requires NoneIn(w, Punct) && NoneIn(m, Punct)
    requires NoDoubleSpace(w + " " + m)
    ensures CleanAddressWith(w + "，" + m, LegacyKeywords) == w + " " + m
  {
    var a := w + "，" + m;
    BreaksAbsent(a);
    KeywordListsGood();
    KeywordsAbsent(a, LegacyKeywords);
    CommaBlanked(w, m);
    NoDoubleSpaceCollapse(w + " " + m);
  }

  lemma BreaksAbsent(a: string)
    requires '\r' !in a && '\n' !in a && '\t' !in a
    ensures ReplaceAll(ReplaceAll(ReplaceAll(a, "\r\n", " "), "\n", " "), "\t", " ") == a
  {
    ContainsFirst(a, "\r\n");
    ContainsFirst(a, "\n");
    ContainsFirst(a, "\t");
    ReplaceAllAbsent(a, "\r\n", " ");
    ReplaceAllAbsent(a, "\n", " ");
    ReplaceAllAbsent(a, "\t", " ");
  }

  lemma KeywordsAbsent(a: string, kws: seq<string>)
    requires GoodKeywords(kws)
    requires forall k | 0 <= k < |kws| :: kws[k][0] !in a
    ensures StripKeywords(a, kws) == a
  {
    forall k | 0 <= k < |kws| ensures !Contains(a, kws[k]) {
      ContainsFirst(a, kws[k]);
    }
    StripKeywordsAbsent(a, kws);
  }

  lemma CommaBlanked(w: string, m: string)
    requires NoneIn(w, Punct) && NoneIn(m, Punct)
    ensures ReplaceChars(w + "，" + m, Punct) == w + " " + m
  {
    assert '，' in Punct;
    ReplaceCharsOne(w, '，', m, Punct);
    assert w + "，" + m == w + ['，'] + m;
  }

  /** A mobile number of eleven digits after text without digits is the phone
      number, and it becomes a space. */
  lemma PhoneShape(w: string, m: string)
    requires !HasDigit(w) && |m| == 11 && AllDigits(m) && m[0] == '1'
    ensures FilterPhoneJava(w + m) == Ok(Extracted(w + " ", m))
  {
    NormaliseShape(w, m);
    FindShape(w, m);
    CutShape(w, m);
    assert (w + m)[|w|..|w| + 11] == m;
  }

  lemma NormaliseShape(w: string, m: string)
    requires !HasDigit(w) && |m| == 11
    ensures NormalisePhoneJava(w + m) == Ok(w + m)
  {
    JoinGroupsSkips(w, m, '-');
    JoinGroupsShort(m, '-');
    JoinGroupsSkips(w, m, ' ');
    JoinGroupsShort(m, ' ');
    SpacedFourSkips(w, m);
    ShortNoSpacedFour(m);
  }

  lemma FindShape(w: string, m: string)
    requires !HasDigit(w) && |m| == 11 && AllDigits(m) && m[0] == '1'
    ensures FindPhoneFrom(w + m, 0) == Some((|w|, 11))
  {
    var a := w + m;
    FindPhoneSkips(a, 0, |w|);
    assert a[|w|..] == m;
    assert m[..11] == m;
    DigitRunAtLeast(m, 11);
    assert Alternative(m, 0) == Some(11);
    assert PhoneAt(a, |w|) == Some(11);
  }

  lemma CutShape(w: string, m: string)
    requires !HasDigit(w) && m != [] && IsDigit(m[0])
    ensures ReplaceAll(w + m, m, " ") == w + " "
  {
    assert m[0] !in w;
    ReplaceAllSkips(w, m, m, " ");
    assert StartsWith(m, m) && m[|m|..] == [];
    assert ReplaceAll(m, m, " ") == " " + ReplaceAll([], m, " ");
  }

  /** A word with a CJK character at each end is kept whole by the legacy
      tokens. */
  predicate CjkEnds(x: string)
  {
    x != [] && IsCjk(x[0]) && IsCjk(x[|x| - 1])
  }

  lemma CjkToken(x: string)
    requires CjkEnds(x)
    ensures Hutool.IsNotBlank(StrUtil.Str(x)) && Strip(x, Hutool.BlankChars) == x
  {
    CjkNotHutoolBlank(x, 0);
    CjkStripped(x);
  }

  lemma CjkStripped(x: string)
    requires CjkEnds(x)
    ensures Strip(x, Hutool.BlankChars) == x
  {
    CjkNotBlankChar(x[0]);
    CjkNotBlankChar(x[|x| - 1]);
    StripNoOp(x, Hutool.BlankChars);
  }

  lemma CjkNotBlankChar(c: char)
    requires IsCjk(c)
    ensures c !in Hutool.BlankChars
  {
  }

  lemma TokensShape(a: string, b: string, c: string, d: string)
    requires CjkEnds(a) && CjkEnds(b) && CjkEnds(c) && CjkEnds(d)
    ensures LegacyTokens([a, b, c, d, "", ""]) == [a, b, c, d]
  {
    var t := [a, b, c, d, "", ""];
    CjkToken(a);
    CjkToken(b);
    CjkToken(c);
    CjkToken(d);
    assert t[4..][1..] == [""] && t[5..][1..] == [];
    assert LegacyTokens(t[4..]) == [];
    assert t[3..][1..] == t[4..] && t[2..][1..] == t[3..] && t[1..][1..] == t[2..];
    assert LegacyTokens(t[3..]) == [d];
    assert LegacyTokens(t[2..]) == [c, d];
    assert LegacyTokens(t[1..]) == [b, c, d];
  }

  /** With 王 on the surname list the first fragment is the name, and the
      street alone is left as the detail. */
  lemma PickTest(f: Fields, surnames: string)
    requires '王' in surnames
    ensures ZhAddressParser.PickSpec(f, ["王晓光", "太平镇"], true, NameMaxLength, surnames, HutoolBlank)
      == (f.(name := "王晓光"), ["太平镇"])
  {
    var d := ["王晓光", "太平镇"];
    assert SortByLength(d[1..]) == ["太平镇"];
    assert SortByLength(d) == d;
    assert HasCjk("王晓光") by { assert IsCjk("王晓光"[0]); }
    CjkNotBlank("王晓光", TrimBlank);
    assert Accepted("王晓光", NameMaxLength, surnames);
    assert ChosenName(d, NameMaxLength, surnames) == "王晓光";
    CjkNotBlank("王晓光", HutoolBlank);
    assert RemoveFirst(d, "王晓光") == ["太平镇"];
  }

  /** The extraction stage on words without digits, a full-width comma and a
      mobile number keeps the number and leaves the words and two spaces. */
  lemma ExtractionShape(w: string, m: string)
    requires var a := w + "，" + m; '\r' !in a && '\n' !in a && '\t' !in a
    requires forall k | 0 <= k < |LegacyKeywords| :: LegacyKeywords[k][0] !in w + "，" + m
    requires NoneIn(w, Punct) && NoneIn(m, Punct)
    requires NoDoubleSpace(w + " " + m)
    requires !HasDigit(w + " ") && !HasDigit(w + "  ")
    requires |m| == 11 && AllDigits(m) && m[0] == '1'
    ensures ZhAddressParser.Extraction(LegacyKeywords, w + "，" + m, true, true)
      == Ok((Default.(phone := m, postalCode := ""), w + "  "))
  {
    CleanShape(w, m);
    PhoneStageShape(w, m);
    PostalStageShape(Default.(phone := m), w + "  ");
  }

  lemma PhoneStageShape(w: string, m: string)
    requires !HasDigit(w + " ") && |m| == 11 && AllDigits(m) && m[0] == '1'
    ensures ZhAddressParser.PhoneStage(Default, w + " " + m, true) == Ok((Default.(phone := m), w + "  "))
  {
    PhoneShape(w + " ", m);
    assert w + " " + m == (w + " ") + m;
    assert (w + " ") + " " == w + "  ";
  }

  lemma PostalStageShape(f: Fields, t: string)
    requires !HasDigit(t)
    ensures ZhAddressParser.PostalStage(f, t, true) == (f.(postalCode := ""), t)
  {
    NoDigitsNoPostal(t, 0);
  }

  /** The extraction stage on the test address. */
  lemma ExtractionTest()
    ensures ZhAddressParser.Extraction(LegacyKeywords, TestAddress, true, true)
      == Ok((Default.(phone := Mobile, postalCode := ""), Words + "  "))
  {
    assert TestAddress == Words + "，" + Mobile;
    TestAddressBreaks();
    TestAddressKeywords();
    TestAddressPunct();
    TestAddressSpaces();
    TestAddressDigits();
    ExtractionShape(Words, Mobile);
  }

  lemma TestAddressBreaks()
    ensures var a := Words + "，" + Mobile; '\r' !in a && '\n' !in a && '\t' !in a
  {
  }

  lemma TestAddressKeywords()
    ensures forall k | 0 <= k < |LegacyKeywords| :: LegacyKeywords[k][0] !in Words + "，" + Mobile
  {
    KeywordHeads();
    HeadsAbsent();
  }

  /** The characters the legacy keywords start with. */
  const Heads: set<char> := {'详', '收', '地', '所', '姓', '联', '邮', '电', '手'}

  lemma KeywordHeads()
    ensures forall k | 0 <= k < |LegacyKeywords| :: LegacyKeywords[k][0] in Heads
  {
  }

  lemma HeadsAbsent()
    ensures forall c | c in Words + "，" + Mobile :: c !in Heads
  {
  }

  lemma TestAddressPunct()
    ensures NoneIn(Words, Punct) && NoneIn(Mobile, Punct)
  {
    assert forall i | 0 <= i < |Words| :: IsCjk(Words[i]) || Words[i] == ' ';
    assert AllDigits(Mobile);
    forall c | IsCjk(c) || c == ' ' || IsDigit(c) ensures c !in Punct {
      PlainNotPunct(c);
    }
  }

  /** CJK characters, spaces and digits are not in the punctuation class. */
  lemma PlainNotPunct(c: char)
    requires IsCjk(c) || c == ' ' || IsDigit(c)
    ensures c !in Punct
  {
  }

  lemma TestAddressSpaces()
    ensures NoDoubleSpace(Words + " " + Mobile)
  {
  }

  lemma TestAddressDigits()
    ensures !HasDigit(Words + " ") && !HasDigit(Words + "  ") && |Mobile| == 11 && AllDigits(Mobile) && Mobile[0] == '1'
  {
  }

  /** The text left after extraction gives the four words as the tokens. */
  lemma TokensTest()
    ensures LegacyTokens(Split(Words + "  ")) == ["王晓光", "重庆市", "垫江县", "太平镇"]
  {
    assert Words + "  " == "王晓光" + " " + "重庆市" + " " + "垫江县" + " " + "太平镇" + "  ";
    SplitShape("王晓光", "重庆市", "垫江县", "太平镇");
    TokensShape("王晓光", "重庆市", "垫江县", "太平镇");
  }

  /** `flatResult` on the regions the routing leaves and the street as the
      detail: the municipality fix names the city after Chongqing. */
  lemma FlatTest(f: Fields)
    ensures var g := FlatResult(LegacyScenario.Scenario, f, LegacyScenario.P2, ["太平镇"]);
      && g.name == f.name && g.phone == f.phone && g.postalCode == f.postalCode
      && g.provinceName == "重庆市" && g.provinceCode == "500000"
      && g.cityName == "重庆市" && g.cityCode == "500100"
      && g.areaName == "垫江县" && g.areaCode == "500231"
      && g.streetName == "" && g.detail == "太平镇"
  {
    var p := LegacyScenario.P2;
    PickedParts();
    var g := f.(provinceCode := CodeOf(p.province), provinceName := NameOf(p.province),
                cityCode := CodeOf(p.city), cityName := NameOf(p.city));
    LegacyScenario.ScenarioFix(g);
    assert Concat(["太平镇"]) == "太平镇";
  }

  /** The codes and names `flatResult` reads off the regions the routing leaves. */
  lemma PickedParts()
    ensures var p := LegacyScenario.P2;
      && CodeOf(p.province) == "500000" && NameOf(p.province) == "重庆市"
      && CodeOf(p.city) == "500200" && NameOf(p.city) == "县"
      && CodeOf(p.area) == "500231" && NameOf(p.area) == "垫江县"
      && CodeOf(p.street) == "" && NameOf(p.street) == ""
  {
  }

  /** Routing, the name pick and `flatResult` on the text the extraction
      leaves. */
  lemma AssemblyTest(f: Fields, surnames: string)
    requires '王' in surnames
    ensures var g := Assembly(LegacyScenario.Scenario, f, Words + "  ", true, surnames);
      && g.name == "王晓光" && g.phone == f.phone && g.postalCode == f.postalCode
      && g.provinceName == "重庆市" && g.provinceCode == "500000"
      && g.cityName == "重庆市" && g.cityCode == "500100"
      && g.areaName == "垫江县" && g.areaCode == "500231"
      && g.streetName == "" && g.detail == "太平镇"
  {
    TokensTest();
    LegacyScenario.RouteName();
    PickTest(f, surnames);
    FlatTest(f.(name := "王晓光"));
  }

  /** `parse("王晓光 重庆市 垫江县 太平镇，13311111111", true, true, true)` on the
      dump: the name and the phone number are taken out, the municipality
      names the city, and the county is the area, as the test expects. */
  lemma ScenarioParse(surnames: string)
    requires '王' in surnames
    ensures var r := ParseSpec(LegacyScenario.Scenario, TestAddress, true, true, true, surnames);
      && r.Ok?
      && r.value.name == "王晓光" && r.value.phone == "13311111111" && r.value.postalCode == ""
      && r.value.provinceName == "重庆市" && r.value.provinceCode == "500000"
      && r.value.cityName == "重庆市" && r.value.cityCode == "500100"
      && r.value.areaName == "垫江县" && r.value.areaCode == "500231"
      && r.value.streetName == "" && r.value.detail == "太平镇"
  {
    CjkNotHutoolBlank(TestAddress, 0);
    ExtractionTest();
    AssemblyTest(Default.(phone := Mobile, postalCode := ""), surnames);
  }
}
