/** The text stages every engine runs before it looks for regions: cleaning the
    address, taking out a phone number and a postal code, and judging whether a
    fragment is a person's name. */
module Extract {
  import opened Wrappers
  import opened Text
  import StrUtil
  import Hutool

  // ---------------------------------------------------------------------------
  // Constants
  // ---------------------------------------------------------------------------

  /** The labels the current engine blanks out, in the order it tries them. */
  const Keywords: seq<string> :=
    ["详细地址", "收货地址", "收件地址", "地址", "所在地区", "地区", "姓名", "收货人",
     "收件人", "联系人", "聯系人", "收", "邮编", "联系电话", "电话", "电話", "電話",
     "联系人手机号码", "手机号码", "手机号"]

  /** The shorter list of the legacy engine and of the JavaScript port. */
  const LegacyKeywords: seq<string> :=
    ["详细地址", "收货地址", "收件地址", "地址", "所在地区", "地区", "姓名", "收货人",
     "收件人", "联系人", "收", "邮编", "联系电话", "电话", "联系人手机号码", "手机号码", "手机号"]

  /** Forms of address that mark a fragment as a name. */
  const NameCall: seq<string> :=
    ["先生", "小姐", "同志", "哥哥", "姐姐", "妹妹", "弟弟", "妈妈", "爸爸", "爷爷", "奶奶", "姑姑", "舅舅"]

  /** The punctuation class every engine turns into spaces. */
  const Punct: set<char> :=
    {'`', '~', '!', '@', '#', '$', '^', '&', '*', '(', ')', '=', '|', '{', '}', '\'', ':', ';',
     ',', '[', ']', '.', '<', '>', '/', '?', '！', '￥', '…', '（', '）', '—', '【', '】',
     '‘', '；', '：', '”', '“', '’', '。', '，', '、', '？'}

  /** `NAME_MAX_LENGTH` of both Java engines and the JavaScript default. */
  const NameMaxLength: int := 4

  // ---------------------------------------------------------------------------
  // Cleaning
  // ---------------------------------------------------------------------------

  /** The keyword loop: each keyword in turn, every occurrence, becomes a space. */
  function StripKeywords(s: string, kws: seq<string>): string
    decreases |kws|
  {
    if kws == [] then s else StripKeywords(ReplaceAll(s, kws[0], " "), kws[1..])
  }

  /** Line breaks and tabs become spaces, then the keywords, then the punctuation
      class, and finally every run of spaces shrinks to one. */
  function CleanAddressWith(address: string, kws: seq<string>): string
  {
    var a := ReplaceAll(ReplaceAll(ReplaceAll(address, "\r\n", " "), "\n", " "), "\t", " ");
    CollapseSpaces(ReplaceChars(StripKeywords(a, kws), Punct))
  }

  /** `cleanAddress` of the current engine. */
  function CleanAddress(address: string): string
  {
    CleanAddressWith(address, Keywords)
  }

  /** Keywords that can be blanked without creating new ones: non-empty and
      without spaces. */
  predicate GoodKeywords(kws: seq<string>)
  {
    forall k | 0 <= k < |kws| :: kws[k] != [] && ' ' !in kws[k]
  }

  /** What a cleaned address looks like. */
  predicate Cleaned(s: string, kws: seq<string>)
  {
    && '\n' !in s && '\t' !in s && !Contains(s, "\r\n")
    && !Contains(s, "  ")
    && NoneIn(s, Punct)
    && forall k | 0 <= k < |kws| :: !Contains(s, kws[k])
  }

  // ---------------------------------------------------------------------------
  // Phone numbers
  // ---------------------------------------------------------------------------

  /** The number of ASCII digits `s` starts with. */
  function DigitRun(s: string): (n: nat)
    ensures n <= |s|
    decreases |s|
  {
    if s != [] && IsDigit(s[0]) then 1 + DigitRun(s[1..]) else 0
  }

  /** `(\d{3})S(\d{4})S(\d{4})` matches at the start of `s`, S being `sep`. */
  predicate GroupsAt(s: string, sep: char)
  {
    |s| >= 13 && AllDigits(s[..3]) && s[3] == sep && AllDigits(s[4..8]) && s[8] == sep && AllDigits(s[9..13])
  }

  /** `replaceAll("(\\d{3})S(\\d{4})S(\\d{4})", "$1$2$3")`: the separators of
      every such group are deleted, scanning left to right. */
  function JoinGroups(s: string, sep: char): string
    decreases |s|
  {
    if GroupsAt(s, sep) then s[..3] + s[4..8] + s[9..13] + JoinGroups(s[13..], sep)
    else if s == [] then []
    else [s[0]] + JoinGroups(s[1..], sep)
  }

  /** `(\d{4}) \d{4} \d{4}` matches at the start of `s`. */
  predicate SpacedFourAt(s: string)
  {
    |s| >= 14 && AllDigits(s[..4]) && s[4] == ' ' && AllDigits(s[5..9]) && s[9] == ' ' && AllDigits(s[10..14])
  }

  /** `(\d{4}) \d{4} \d{4}` matches somewhere in `s`. */
  predicate HasSpacedFour(s: string)
    decreases |s|
  {
    SpacedFourAt(s) || (s != [] && HasSpacedFour(s[1..]))
  }

  /** The JavaScript third rewrite: the replacement `$1$2$3` names groups 2 and 3
      that the pattern lacks, so they stay as the literal text `$2$3`. */
  function MarkSpacedFour(s: string): string
    decreases |s|
  {
    if SpacedFourAt(s) then s[..4] + "$2$3" + MarkSpacedFour(s[14..])
    else if s == [] then []
    else [s[0]] + MarkSpacedFour(s[1..])
  }

  function Min(a: nat, b: nat): nat { if a <= b then a else b }

  /** The length of the match of alternative `k` of the phone pattern
      `(\d{7,12})|(\d{3,4}-\d{6,8})|(86-[1][0-9]{10})|(86[1][0-9]{10})|([1][0-9]{10})`
      at the first character of `s`, quantifiers greedy. */
  function Alternative(s: string, k: nat): (r: Option<nat>)
    ensures r.Some? ==> 0 < r.value <= |s|
  {
    var run := DigitRun(s);
    if k == 0 then
      if run >= 7 then Some(Min(run, 12)) else None
    else if k == 1 then
      if (run == 3 || run == 4) && run < |s| && s[run] == '-' && DigitRun(s[run + 1..]) >= 6 then
        Some(run + 1 + Min(DigitRun(s[run + 1..]), 8))
      else None
    else if k == 2 then
      if StartsWith(s, "86-1") && DigitRun(s[4..]) >= 10 then Some(14) else None
    else if k == 3 then
      if StartsWith(s, "861") && DigitRun(s[3..]) >= 10 then Some(13) else None
    else if k == 4 then
      if StartsWith(s, "1") && DigitRun(s[1..]) >= 10 then Some(11) else None
    else None
  }

  /** The alternatives from the `k`-th on, tried in order: the first that
      matches decides. */
  function AlternativesFrom(s: string, k: nat): (r: Option<nat>)
    ensures r.Some? ==> 0 < r.value <= |s|
    decreases 5 - k
  {
    if k >= 5 then None
    else match Alternative(s, k)
      case Some(n) => Some(n)
      case None => AlternativesFrom(s, k + 1)
  }

  /** The length of the match of the whole phone pattern that starts at the
      first character of `s`. */
  function PhoneMatchAt(s: string): (r: Option<nat>)
    ensures r.Some? ==> 0 < r.value <= |s|
  {
    AlternativesFrom(s, 0)
  }

  /** The match of the phone pattern that starts at index `j` of `s`. */
  function PhoneAt(s: string, j: nat): Option<nat>
    requires j <= |s|
  {
    PhoneMatchAt(s[j..])
  }

  /** `Matcher.find` and `RegExp.exec` for the phone pattern from index `i`:
      the leftmost start and the length of its match. */
  function FindPhoneFrom(s: string, i: nat): (r: Option<(nat, nat)>)
    requires i <= |s|
    ensures r.Some? ==> i <= r.value.0 && 0 < r.value.1 && r.value.0 + r.value.1 <= |s|
    decreases |s| - i
  {
    if i == |s| then None
    else match PhoneAt(s, i)
      case Some(n) => Some((i, n))
      case None => FindPhoneFrom(s, i + 1)
  }

  /** A value taken out of the address together with the address left behind. */
  datatype Extracted = Extracted(address: string, value: string)

  /** The three separator rewrites shared by both Java engines; the third one
      throws as soon as it matches. */
  function NormalisePhoneJava(address: string): Result<string>
  {
    var a := JoinGroups(JoinGroups(address, '-'), ' ');
    if HasSpacedFour(a) then Err(NoGroupTwo) else Ok(a)
  }

  /** The rewrites of the JavaScript port: the same three, the third one
      leaving its literal `$2$3` behind. */
  function NormalisePhoneJs(address: string): string
  {
    MarkSpacedFour(JoinGroups(JoinGroups(address, '-'), ' '))
  }

  /** Takes the leftmost phone match out of the rewritten text `a`: every
      occurrence of its text (`every`) or only the first becomes a space. */
  function TakePhone(a: string, every: bool): Extracted
  {
    match FindPhoneFrom(a, 0)
    case None => Extracted(a, "")
    case Some((i, n)) =>
      var phone := a[i..i + n];
      Extracted(if every then ReplaceAll(a, phone, " ") else ReplaceFirst(a, phone, " "), phone)
  }

  /** `filterPhone` of both Java engines: every occurrence of the phone text
      becomes a space. */
  function FilterPhoneJava(address: string): Result<Extracted>
  {
    match NormalisePhoneJava(address)
    case Err(e) => Err(e)
    case Ok(a) => Ok(TakePhone(a, true))
  }

  /** `filterPhone` of the JavaScript port: only the first occurrence is
      replaced. */
  function FilterPhoneJs(address: string): Extracted
  {
    TakePhone(NormalisePhoneJs(address), false)
  }

  // ---------------------------------------------------------------------------
  // Postal codes
  // ---------------------------------------------------------------------------

  /** The leftmost index from `i` on where six ASCII digits start (`\d{6}`). */
  function FindPostalFrom(s: string, i: nat): (r: Option<nat>)
    requires i <= |s|
    ensures r.Some? ==> i <= r.value && r.value + 6 <= |s| && AllDigits(s[r.value..r.value + 6])
    ensures r.Some? ==> forall j | i <= j < r.value :: DigitRun(s[j..]) < 6
    ensures r.None? ==> forall j | i <= j <= |s| :: DigitRun(s[j..]) < 6
    decreases |s| - i
  {
    if DigitRun(s[i..]) >= 6 then
      DigitRunSpec(s[i..]);
      assert s[i..][..6] == s[i..i + 6];
      Some(i)
    else if i == |s| then None
    else FindPostalFrom(s, i + 1)
  }

  /** `filterPostalCode`; the Java engines replace every occurrence of the code,
      the JavaScript port only the first. */
  function FilterPostalCode(address: string, everyOccurrence: bool): Extracted
  {
    match FindPostalFrom(address, 0)
    case None => Extracted(address, "")
    case Some(i) =>
      var code := address[i..i + 6];
      Extracted(if everyOccurrence then ReplaceAll(address, code, " ") else ReplaceFirst(address, code, " "), code)
  }

  // ---------------------------------------------------------------------------
  // Names
  // ---------------------------------------------------------------------------

  /** How an engine decides that a fragment is blank before it judges it: the
      current engine trims like `String.trim`, the legacy one uses Hutool, and
      the JavaScript port only rejects the empty string. */
  datatype Blankness = TrimBlank | HutoolBlank | EmptyOnly

  predicate IsBlankBy(s: string, b: Blankness)
  {
    match b
    case TrimBlank => StrUtil.IsBlank(StrUtil.Str(s))
    case HutoolBlank => Hutool.IsBlank(StrUtil.Str(s))
    case EmptyOnly => s == []
  }

  predicate HasNameCall(s: string)
  {
    exists k | 0 <= k < |NameCall| :: Contains(s, NameCall[k])
  }

  /** `judgeFragmentIsName`: the fragment itself when it looks like a name,
      otherwise "". `surnames` holds the characters of the surname list. */
  function JudgeFragmentIsName(fragment: string, maxLength: int, surnames: string, b: Blankness): (r: string)
    ensures r == "" || r == fragment
    ensures r != "" <==>
      HasCjk(fragment) && (HasNameCall(fragment) || (1 < |fragment| <= maxLength && fragment[0] in surnames))
  {
    CjkNotBlank(fragment, b);
    if IsBlankBy(fragment, b) then ""
    else if !HasCjk(fragment) then ""
    else if HasNameCall(fragment) then fragment
    else if |fragment| <= maxLength && |fragment| > 1 && fragment[0] in surnames then fragment
    else ""
  }

  // ---------------------------------------------------------------------------
  // Lemmas: cleaning
  // ---------------------------------------------------------------------------

  lemma KeywordListsGood()
    ensures GoodKeywords(Keywords) && GoodKeywords(LegacyKeywords)
  {
  }

  /** The keyword loop blanks no space-free text it was not given. */
  lemma {:induction false} StripKeywordsNoNew(s: string, kws: seq<string>, q: string)
    requires GoodKeywords(kws) && q != [] && ' ' !in q && !Contains(s, q)
    ensures !Contains(StripKeywords(s, kws), q)
    decreases |kws|
  {
    if kws != [] {
      ReplaceAllNoNew(s, kws[0], q);
      StripKeywordsNoNew(ReplaceAll(s, kws[0], " "), kws[1..], q);
    }
  }

  /** After the keyword loop no keyword is left. */
  lemma {:induction false} StripKeywordsClears(s: string, kws: seq<string>)
    requires GoodKeywords(kws)
    ensures forall k | 0 <= k < |kws| :: !Contains(StripKeywords(s, kws), kws[k])
    decreases |kws|
  {
    if kws != [] {
      var t := ReplaceAll(s, kws[0], " ");
      StripKeywordsClears(t, kws[1..]);
      ReplaceAllNoNew(s, kws[0], kws[0]);
      StripKeywordsNoNew(t, kws[1..], kws[0]);
      forall k | 0 <= k < |kws| ensures !Contains(StripKeywords(s, kws), kws[k]) {
        if k > 0 { assert kws[k] == kws[1..][k - 1]; }
      }
    }
  }

  /** Text without any of the keywords passes the loop unchanged. */
  lemma {:induction false} StripKeywordsAbsent(s: string, kws: seq<string>)
    requires GoodKeywords(kws)
    requires forall k | 0 <= k < |kws| :: !Contains(s, kws[k])
    ensures StripKeywords(s, kws) == s
    decreases |kws|
  {
    if kws != [] {
      ReplaceAllAbsent(s, kws[0], " ");
      StripKeywordsAbsent(s, kws[1..]);
    }
  }

  /** No step after the first three rewrites brings back a line break, a tab
      or a CR LF pair. */
  lemma LaterStepsNoNew(a: string, kws: seq<string>, q: string)
    requires GoodKeywords(kws) && q != [] && ' ' !in q && !Contains(a, q)
    ensures !Contains(CollapseSpaces(ReplaceChars(StripKeywords(a, kws), Punct)), q)
  {
    StripKeywordsNoNew(a, kws, q);
    ReplaceCharsNoNew(StripKeywords(a, kws), Punct, q);
    CollapseNoNew(ReplaceChars(StripKeywords(a, kws), Punct), q);
  }

  /** The cleaned address has no line feed, no tab, no CR LF pair, no double
      space, no punctuation of the class and no keyword. */
  lemma CleanAddressCleans(address: string, kws: seq<string>)
    requires GoodKeywords(kws)
    ensures Cleaned(CleanAddressWith(address, kws), kws)
  {
    var a1 := ReplaceAll(address, "\r\n", " ");
    var a2 := ReplaceAll(a1, "\n", " ");
    var a := ReplaceAll(a2, "\t", " ");
    var k := StripKeywords(a, kws);
    var c := ReplaceChars(k, Punct);
    var out := CollapseSpaces(c);
    // "\r\n"
    ReplaceAllNoNew(address, "\r\n", "\r\n");
    ReplaceAllNoNew(a1, "\n", "\r\n");
    ReplaceAllNoNew(a2, "\t", "\r\n");
    LaterStepsNoNew(a, kws, "\r\n");
    // "\n"
    ReplaceAllNoNew(a1, "\n", "\n");
    ReplaceAllNoNew(a2, "\t", "\n");
    LaterStepsNoNew(a, kws, "\n");
    ContainsChar(out, '\n');
    // "\t"
    ReplaceAllNoNew(a2, "\t", "\t");
    LaterStepsNoNew(a, kws, "\t");
    ContainsChar(out, '\t');
    // keywords
    StripKeywordsClears(a, kws);
    forall j | 0 <= j < |kws| ensures !Contains(out, kws[j]) {
      ReplaceCharsNoNew(k, Punct, kws[j]);
      CollapseNoNew(c, kws[j]);
    }
    // punctuation and spaces
    ReplaceCharsClears(k, Punct);
    CollapseKeepsNoneIn(c, Punct);
    CollapseNoDoubleSpace(c);
  }

  /** Cleaning a cleaned address changes nothing. */
  lemma CleanAddressIdempotent(address: string, kws: seq<string>)
    requires GoodKeywords(kws)
    ensures CleanAddressWith(CleanAddressWith(address, kws), kws) == CleanAddressWith(address, kws)
  {
    var s := CleanAddressWith(address, kws);
    CleanAddressCleans(address, kws);
    ReplaceAllAbsent(s, "\r\n", " ");
    ContainsChar(s, '\n');
    ContainsChar(s, '\t');
    ReplaceAllAbsent(s, "\n", " ");
    ReplaceAllAbsent(s, "\t", " ");
    StripKeywordsAbsent(s, kws);
    ReplaceCharsAbsent(s, Punct);
    CollapseAbsent(s);
  }

  /** A carriage return that is not part of a CR LF pair survives cleaning when
      neither a keyword nor the punctuation class holds it. */
  lemma {:induction false} CleanKeepsLoneReturn(address: string, kws: seq<string>)
    requires GoodKeywords(kws) && forall k | 0 <= k < |kws| :: '\r' !in kws[k]
    requires '\r' in address && !Contains(address, "\r\n")
    ensures '\r' in CleanAddressWith(address, kws)
  {
    ReplaceAllAbsent(address, "\r\n", " ");
    ReplaceAllKeepsChar(address, "\n", " ", '\r');
    var a2 := ReplaceAll(address, "\n", " ");
    ReplaceAllKeepsChar(a2, "\t", " ", '\r');
    var a := ReplaceAll(a2, "\t", " ");
    StripKeywordsKeepsChar(a, kws, '\r');
    ReplaceCharsKeepsChar(StripKeywords(a, kws), Punct, '\r');
    CollapseKeepsChar(ReplaceChars(StripKeywords(a, kws), Punct), '\r');
  }

  lemma {:induction false} StripKeywordsKeepsChar(s: string, kws: seq<string>, c: char)
    requires GoodKeywords(kws) && forall k | 0 <= k < |kws| :: c !in kws[k]
    requires c in s
    ensures c in StripKeywords(s, kws)
    decreases |kws|
  {
    if kws != [] {
      ReplaceAllKeepsChar(s, kws[0], " ", c);
      StripKeywordsKeepsChar(ReplaceAll(s, kws[0], " "), kws[1..], c);
    }
  }

  // ---------------------------------------------------------------------------
  // Lemmas: phone numbers and postal codes
  // ---------------------------------------------------------------------------

  /** The pattern matches with the first of its five alternatives that does. */
  lemma PhoneMatchCases(s: string)
    ensures PhoneMatchAt(s) ==
      if Alternative(s, 0).Some? then Alternative(s, 0)
      else if Alternative(s, 1).Some? then Alternative(s, 1)
      else if Alternative(s, 2).Some? then Alternative(s, 2)
      else if Alternative(s, 3).Some? then Alternative(s, 3)
      else Alternative(s, 4)
  {
    assert AlternativesFrom(s, 3) == if Alternative(s, 3).Some? then Alternative(s, 3) else AlternativesFrom(s, 4);
    assert AlternativesFrom(s, 4) == if Alternative(s, 4).Some? then Alternative(s, 4) else AlternativesFrom(s, 5);
  }

  /** Every phone match is a run of 7 to 12 digits, or 3 or 4 digits, a dash and
      6 to 8 digits, or `86-1` and ten digits: the last two alternatives of the
      pattern never win, because the first one already matches there. */
  lemma PhoneShapes(s: string)
    requires PhoneMatchAt(s).Some?
    ensures var n := PhoneMatchAt(s).value;
      || (7 <= n <= 12 && AllDigits(s[..n]))
      || (exists m | 3 <= m <= 4 ::
            AllDigits(s[..m]) && s[m] == '-' && 6 <= n - m - 1 <= 8 && AllDigits(s[m + 1..n]))
      || (n == 14 && StartsWith(s, "86-1") && AllDigits(s[4..14]))
  {
    PhoneMatchCases(s);
    if Alternative(s, 0).Some? {
      RunShape(s);
    } else if Alternative(s, 1).Some? {
      DashShape(s);
    } else if Alternative(s, 2).Some? {
      CountryShape(s);
    } else {
      LateAlternativesLose(s);
    }
  }

  /** The first alternative: the digits it takes are digits. */
  lemma RunShape(s: string)
    requires Alternative(s, 0).Some?
    ensures var n := Alternative(s, 0).value; 7 <= n <= 12 && AllDigits(s[..n])
  {
    var run := DigitRun(s);
    var n := Alternative(s, 0).value;
    DigitRunSpec(s);
    assert s[..n] == s[..run][..n];
  }

  /** The second alternative: digits, a dash and digits. */
  lemma DashShape(s: string)
    requires Alternative(s, 1).Some?
    ensures var n := Alternative(s, 1).value;
      exists m | 3 <= m <= 4 :: AllDigits(s[..m]) && s[m] == '-' && 6 <= n - m - 1 <= 8 && AllDigits(s[m + 1..n])
  {
    var run := DigitRun(s);
    var n := Alternative(s, 1).value;
    var t := DigitRun(s[run + 1..]);
    DigitRunSpec(s);
    DigitRunSpec(s[run + 1..]);
    assert n == run + 1 + Min(t, 8);
    assert s[..run] == s[..run][..run];
    forall k | run + 1 <= k < n ensures IsDigit(s[k]) {
      assert s[k] == s[run + 1..][..t][k - run - 1];
    }
    assert AllDigits(s[run + 1..n]);
  }

  /** The third alternative: `86-1` and ten digits. */
  lemma CountryShape(s: string)
    requires Alternative(s, 2).Some?
    ensures Alternative(s, 2).value == 14 && StartsWith(s, "86-1") && AllDigits(s[4..14])
  {
    DigitRunSpec(s[4..]);
    assert s[4..14] == s[4..][..DigitRun(s[4..])][..10];
  }

  /** Where the fourth or the fifth alternative would match, the first one
      already does. */
  lemma LateAlternativesLose(s: string)
    requires Alternative(s, 3).Some? || Alternative(s, 4).Some?
    ensures Alternative(s, 0).Some?
  {
    if Alternative(s, 3).Some? {
      assert AllDigits(s[..3]) by { assert s[..3] == "861"; }
      DigitRunPrefix(s, 3);
    } else {
      assert AllDigits(s[..1]) by { assert s[..1] == "1"; }
      DigitRunPrefix(s, 1);
    }
  }

  /** `DigitRun` counts digits and stops at the first character that is not one. */
  lemma {:induction false} DigitRunSpec(s: string)
    ensures AllDigits(s[..DigitRun(s)])
    ensures DigitRun(s) < |s| ==> !IsDigit(s[DigitRun(s)])
    decreases |s|
  {
    if s != [] && IsDigit(s[0]) {
      DigitRunSpec(s[1..]);
      assert s[..DigitRun(s)] == [s[0]] + s[1..][..DigitRun(s[1..])];
    }
  }

  /** Leading digits add up: after `k` digits the run goes on with the run of
      the rest. */
  lemma {:induction false} DigitRunPrefix(s: string, k: nat)
    requires k <= |s| && AllDigits(s[..k])
    ensures DigitRun(s) == k + DigitRun(s[k..])
    decreases k
  {
    if k > 0 {
      assert IsDigit(s[..k][0]);
      assert s[1..][..k - 1] == s[..k][1..];
      assert s[1..][k - 1..] == s[k..];
      DigitRunPrefix(s[1..], k - 1);
    }
  }

  /** A string whose first `k` characters are digits has a digit run of at
      least `k`. */
  lemma {:induction false} DigitRunAtLeast(s: string, k: nat)
    requires k <= |s| && AllDigits(s[..k])
    ensures DigitRun(s) >= k
    decreases k
  {
    if k > 0 {
      assert s[1..][..k - 1] == s[..k][1..];
      DigitRunAtLeast(s[1..], k - 1);
    }
  }

  /** The phone text holds no space, so replacing it by spaces cannot recreate it. */
  lemma PhoneHasNoSpace(s: string)
    requires PhoneMatchAt(s).Some?
    ensures ' ' !in s[..PhoneMatchAt(s).value]
  {
    PhoneShapes(s);
    var n := PhoneMatchAt(s).value;
    if 7 <= n <= 12 && AllDigits(s[..n]) {
    } else if StartsWith(s, "86-1") && n == 14 && AllDigits(s[4..14]) {
      forall i | 0 <= i < n ensures s[i] != ' ' {
        if i >= 4 { assert s[4..14][i - 4] == s[i]; } else { assert s[..4][i] == s[i]; }
      }
    } else {
      var m :| 3 <= m <= 4 && AllDigits(s[..m]) && s[m] == '-' && 6 <= n - m - 1 <= 8 && AllDigits(s[m + 1..n]);
      forall i | 0 <= i < n ensures s[i] != ' ' {
        if i > m { assert s[m + 1..n][i - m - 1] == s[i]; } else if i < m { assert s[..m][i] == s[i]; }
      }
    }
  }

  /** The search finds the leftmost position where the pattern matches, with
      the length of that match, and nothing when it matches nowhere. */
  lemma FindPhoneFromSpec(s: string, i: nat)
    requires i <= |s|
    ensures var r := FindPhoneFrom(s, i);
      && (r.Some? ==> PhoneAt(s, r.value.0) == Some(r.value.1))
      && (r.Some? ==> forall j | i <= j < r.value.0 :: PhoneAt(s, j).None?)
      && (r.None? ==> forall j | i <= j < |s| :: PhoneAt(s, j).None?)
  {
    FoundPhoneAt(s, i);
    FoundPhoneLeftmost(s, i);
  }

  /** A position the search returns is one where the pattern matches. */
  lemma {:induction false} FoundPhoneAt(s: string, i: nat)
    requires i <= |s|
    ensures var r := FindPhoneFrom(s, i); r.Some? ==> PhoneAt(s, r.value.0) == Some(r.value.1)
    decreases |s| - i
  {
    if i < |s| && PhoneAt(s, i).None? {
      assert FindPhoneFrom(s, i) == FindPhoneFrom(s, i + 1);
      FoundPhoneAt(s, i + 1);
    }
  }

  /** The pattern matches at no position the search passes over. */
  lemma {:induction false} FoundPhoneLeftmost(s: string, i: nat)
    requires i <= |s|
    ensures var r := FindPhoneFrom(s, i);
      forall j | i <= j < (if r.Some? then r.value.0 else |s|) :: PhoneAt(s, j).None?
    decreases |s| - i
  {
    if i < |s| && PhoneAt(s, i).None? {
      assert FindPhoneFrom(s, i) == FindPhoneFrom(s, i + 1);
      FoundPhoneLeftmost(s, i + 1);
    }
  }

  /** A phone is taken exactly when the pattern matches somewhere in the
      text; it is then a non-empty part of the text, and either no occurrence
      of it is left (`every`) or its first occurrence is blanked. */
  lemma TakePhoneSpec(a: string, every: bool)
    ensures var e := TakePhone(a, every);
      && (e.value != "" <==> exists j | 0 <= j < |a| :: PhoneAt(a, j).Some?)
      && (e.value == "" ==> e.address == a)
      && (e.value != "" ==> Contains(a, e.value))
      && (e.value != "" && every ==> !Contains(e.address, e.value))
      && (e.value != "" && !every ==> e.address == ReplaceFirst(a, e.value, " "))
  {
    TakePhoneFound(a, every);
    TakePhoneText(a, every);
  }

  /** The phone taken is non-empty exactly when the search finds one. */
  lemma TakePhoneFound(a: string, every: bool)
    ensures var e := TakePhone(a, every);
      && (e.value != "" <==> exists j | 0 <= j < |a| :: PhoneAt(a, j).Some?)
      && (e.value == "" ==> e.address == a)
  {
    FindPhoneSomewhere(a);
  }

  /** What a found phone does to the text. */
  lemma TakePhoneText(a: string, every: bool)
    ensures var e := TakePhone(a, every);
      && (e.value != "" ==> Contains(a, e.value))
      && (e.value != "" && every ==> !Contains(e.address, e.value))
      && (e.value != "" && !every ==> e.address == ReplaceFirst(a, e.value, " "))
  {
    var r := FindPhoneFrom(a, 0);
    if r.Some? {
      var i := r.value.0;
      var n := r.value.1;
      var phone := a[i..i + n];
      assert TakePhone(a, every).value == phone;
      ContainsAt(a, i, phone);
      if every {
        FindPhoneFromSpec(a, 0);
        TakeEveryPhone(a, i, n);
      }
    }
  }

  lemma FindPhoneSomewhere(a: string)
    ensures FindPhoneFrom(a, 0).Some? <==> exists j | 0 <= j < |a| :: PhoneAt(a, j).Some?
  {
    FindPhoneFromSpec(a, 0);
    var r := FindPhoneFrom(a, 0);
    if r.Some? {
      assert PhoneAt(a, r.value.0).Some?;
    }
  }

  /** Blanking every occurrence of a phone match leaves none: the match holds no space. */
  lemma TakeEveryPhone(a: string, i: nat, n: nat)
    requires i + n <= |a| && PhoneAt(a, i) == Some(n)
    ensures !Contains(ReplaceAll(a, a[i..i + n], " "), a[i..i + n])
  {
    PhoneHasNoSpace(a[i..]);
    assert a[i..i + n] == a[i..][..n];
    ReplaceAllNoNew(a, a[i..i + n], a[i..i + n]);
  }

  /** Java `filterPhone`: it fails exactly when the third rewrite matches, and
      otherwise takes the phone out of the rewritten text, every occurrence. */
  lemma FilterPhoneJavaSpec(address: string)
    ensures FilterPhoneJava(address).Err? <==> HasSpacedFour(JoinGroups(JoinGroups(address, '-'), ' '))
    ensures FilterPhoneJava(address).Ok? ==>
      var a := JoinGroups(JoinGroups(address, '-'), ' ');
      var e := FilterPhoneJava(address).value;
      && (e.value != "" <==> exists j | 0 <= j < |a| :: PhoneAt(a, j).Some?)
      && (e.value == "" ==> e.address == a)
      && (e.value != "" ==> !Contains(e.address, e.value))
  {
    var a := JoinGroups(JoinGroups(address, '-'), ' ');
    if !HasSpacedFour(a) {
      assert FilterPhoneJava(address) == Ok(TakePhone(a, true));
      TakePhoneSpec(a, true);
    }
  }

  /** JavaScript `filterPhone` finds the leftmost match of the rewritten text
      and removes its first occurrence. */
  lemma FilterPhoneJsSpec(address: string)
    ensures var a := NormalisePhoneJs(address);
      var e := FilterPhoneJs(address);
      && (e.value != "" <==> exists j | 0 <= j < |a| :: PhoneAt(a, j).Some?)
      && (e.value == "" ==> e.address == a)
      && (e.value != "" ==> e.address == ReplaceFirst(a, e.value, " ") && Contains(a, e.value))
  {
    TakePhoneSpec(NormalisePhoneJs(address), false);
  }

  /** Where the Java version does not fail, both versions take the same phone
      number; they differ only in how many of its occurrences they blank. */
  lemma FilterPhoneSamePhone(address: string)
    requires FilterPhoneJava(address).Ok?
    ensures FilterPhoneJs(address).value == FilterPhoneJava(address).value.value
  {
    MarkSpacedFourAbsent(JoinGroups(JoinGroups(address, '-'), ' '));
  }

  lemma {:induction false} MarkSpacedFourAbsent(s: string)
    requires !HasSpacedFour(s)
    ensures MarkSpacedFour(s) == s
    decreases |s|
  {
    if s != [] {
      MarkSpacedFourAbsent(s[1..]);
    }
  }

  /** `filterPostalCode`: the code is the leftmost six digits and every (Java)
      or the first (JavaScript) occurrence becomes a space; without six digits
      in a row the code is "" and the text is unchanged. */
  lemma FilterPostalCodeSpec(address: string, everyOccurrence: bool)
    ensures var e := FilterPostalCode(address, everyOccurrence);
      && (e.value == "" <==> forall j | 0 <= j <= |address| :: DigitRun(address[j..]) < 6)
      && (e.value == "" ==> e.address == address)
      && (e.value != "" ==> |e.value| == 6 && AllDigits(e.value) && Contains(address, e.value))
      && (e.value != "" && everyOccurrence ==> !Contains(e.address, e.value))
      && (e.value != "" && !everyOccurrence ==> e.address == ReplaceFirst(address, e.value, " "))
  {
    match FindPostalFrom(address, 0)
    case None =>
    case Some(i) =>
      var code := address[i..i + 6];
      assert address[i..][..6] == code;
      DigitRunAtLeast(address[i..], 6);
      ContainsAt(address, i, code);
      assert ' ' !in code by {
        forall j | 0 <= j < 6 ensures code[j] != ' ' { assert IsDigit(code[j]); }
      }
      ReplaceAllNoNew(address, code, code);
  }

  /** Text without a digit yields neither a phone nor a postal code and is left
      as it is by both. */
  lemma NoDigitsNoNumbers(address: string)
    requires !HasDigit(address)
    ensures FilterPhoneJava(address) == Ok(Extracted(address, ""))
    ensures FilterPhoneJs(address) == Extracted(address, "")
    ensures FilterPostalCode(address, true) == Extracted(address, "")
    ensures FilterPostalCode(address, false) == Extracted(address, "")
  {
    NoDigitsNoGroups(address, '-');
    NoDigitsNoGroups(address, ' ');
    NoDigitsNoSpacedFour(address);
    MarkSpacedFourAbsent(address);
    NoDigitsNoPhone(address, 0);
    NoDigitsNoPostal(address, 0);
  }

  lemma {:induction false} NoDigitsNoGroups(s: string, sep: char)
    requires !HasDigit(s)
    ensures JoinGroups(s, sep) == s
    decreases |s|
  {
    if s != [] {
      NoDigitsNoGroups(s[1..], sep);
    }
  }

  lemma {:induction false} NoDigitsNoSpacedFour(s: string)
    requires !HasDigit(s)
    ensures !HasSpacedFour(s)
    decreases |s|
  {
    if s != [] {
      if |s| >= 4 { assert s[..4][0] == s[0]; }
      NoDigitsNoSpacedFour(s[1..]);
    }
  }

  lemma {:induction false} NoDigitsNoPhone(s: string, i: nat)
    requires !HasDigit(s) && i <= |s|
    ensures FindPhoneFrom(s, i) == None
    decreases |s| - i
  {
    if i < |s| {
      assert !IsDigit(s[i..][0]);
      NoDigitsNoPhone(s, i + 1);
    }
  }

  lemma {:induction false} NoDigitsNoPostal(s: string, i: nat)
    requires !HasDigit(s) && i <= |s|
    ensures FindPostalFrom(s, i) == None
    decreases |s| - i
  {
    if i < |s| {
      assert !IsDigit(s[i..][0]);
      NoDigitsNoPostal(s, i + 1);
    }
  }

  /** A prefix without digits holds no separated digit group. */
  lemma {:induction false} JoinGroupsSkips(w: string, t: string, sep: char)
    requires !HasDigit(w)
    ensures JoinGroups(w + t, sep) == w + JoinGroups(t, sep)
    decreases |w|
  {
    if w != [] {
      var s := w + t;
      assert s[0] == w[0] && !IsDigit(w[0]);
      if |s| >= 13 { assert s[..3][0] == s[0]; }
      assert s[1..] == w[1..] + t;
      assert JoinGroups(s, sep) == [w[0]] + JoinGroups(s[1..], sep);
      JoinGroupsSkips(w[1..], t, sep);
      assert w == [w[0]] + w[1..];
    } else {
      assert w + t == t;
    }
  }

  /** Text shorter than a group of three separated parts is left as it is. */
  lemma {:induction false} JoinGroupsShort(s: string, sep: char)
    requires |s| < 13
    ensures JoinGroups(s, sep) == s
    decreases |s|
  {
    if s != [] {
      JoinGroupsShort(s[1..], sep);
    }
  }

  /** A prefix without digits holds no spaced four-digit group. */
  lemma {:induction false} SpacedFourSkips(w: string, t: string)
    requires !HasDigit(w)
    ensures HasSpacedFour(w + t) == HasSpacedFour(t)
    decreases |w|
  {
    if w != [] {
      var s := w + t;
      assert s[0] == w[0] && !IsDigit(w[0]);
      if |s| >= 14 { assert s[..4][0] == s[0]; }
      assert s[1..] == w[1..] + t;
      assert HasSpacedFour(s) == HasSpacedFour(s[1..]);
      SpacedFourSkips(w[1..], t);
    } else {
      assert w + t == t;
    }
  }

  /** Text shorter than a spaced four-digit group holds none. */
  lemma {:induction false} ShortNoSpacedFour(s: string)
    requires |s| < 14
    ensures !HasSpacedFour(s)
    decreases |s|
  {
    if s != [] {
      ShortNoSpacedFour(s[1..]);
    }
  }

  /** The phone search passes over characters that are not digits. */
  lemma {:induction false} FindPhoneSkips(s: string, i: nat, j: nat)
    requires i <= j <= |s|
    requires forall k | i <= k < j :: !IsDigit(s[k])
    ensures FindPhoneFrom(s, i) == FindPhoneFrom(s, j)
    decreases j - i
  {
    if i < j {
      var t := s[i..];
      assert t[0] == s[i];
      assert DigitRun(t) == 0;
      assert !StartsWith(t, "86-1") && !StartsWith(t, "861") && !StartsWith(t, "1") by {
        if |t| >= 1 { assert t[..1][0] == t[0]; }
        if |t| >= 3 { assert t[..3][0] == t[0]; }
        if |t| >= 4 { assert t[..4][0] == t[0]; }
      }
      assert PhoneAt(s, i) == None;
      FindPhoneSkips(s, i + 1, j);
    }
  }

  // ---------------------------------------------------------------------------
  // Lemmas: names
  // ---------------------------------------------------------------------------

  /** A fragment with a CJK character is blank to no engine. */
  lemma CjkNotBlank(s: string, b: Blankness)
    ensures HasCjk(s) ==> !IsBlankBy(s, b)
  {
    if HasCjk(s) {
      var i :| 0 <= i < |s| && IsCjk(s[i]);
      match b
      case TrimBlank => CjkNotTrimBlank(s, i);
      case HutoolBlank => CjkNotHutoolBlank(s, i);
      case EmptyOnly =>
    }
  }

  lemma CjkNotTrimBlank(s: string, i: nat)
    requires i < |s| && IsCjk(s[i])
    ensures !StrUtil.IsBlank(StrUtil.Str(s))
  {
    StrUtil.BlankIff(StrUtil.Str(s));
  }

  lemma CjkNotHutoolBlank(s: string, i: nat)
    requires i < |s| && IsCjk(s[i])
    ensures !Hutool.IsBlank(StrUtil.Str(s))
  {
    assert s[i] !in Hutool.BlankChars;
  }

  /** The three engines judge every fragment alike: their different blank
      tests are all overruled by the CJK test that follows. */
  lemma JudgeIgnoresBlankness(fragment: string, maxLength: int, surnames: string, b1: Blankness, b2: Blankness)
    ensures JudgeFragmentIsName(fragment, maxLength, surnames, b1) == JudgeFragmentIsName(fragment, maxLength, surnames, b2)
  {
  }
}
