# Chinese address parser: a verified model

The system reads a free-text Chinese shipping address such as
`王晓光 重庆市 垫江县 太平镇，13311111111` and fills in a fixed set of fields:

- province, city, area (county/district) and street, each a name and a code;
- the recipient's name;
- the phone number and the postal code;
- the detail text that is left over.

Every administrative name and code comes from a region table. The model takes
that table as a sequence of rows `{code, name, level 1..4, parentCode}`.

There are three engines, and this project models each of them.

- **The current Java engine** (`util/parse/`). `ZhAddressParser.parse` goes through these steps:
  1. It cleans the text.
  2. It takes out a phone number and a six-digit postal code.
  3. It splits the rest into tokens.
  4. It runs each token through the province, city, area and street parsers until all four codes are set. Each of those parsers grows a prefix of the token, queries the table at its level, scoped by the parent code, and commits every prefix that has exactly one candidate. The commit happens inside the loop: the token shrinks, and the ancestors are back-filled from the table.
  5. It picks a name from the leftover fragments and joins them into the detail.
  6. It fixes up the four municipalities.
- **The legacy Java engine** (`util/ZhAddressParser.java`) runs the same pipeline with these differences:
  - Candidates are found by regular expression in JSON dumps of the tables.
  - Match counts stop at two.
  - The token is cut only once, after the loop.
  - Ancestors are filled only where they are still missing.
- **The JavaScript port** (`app/lib/address-parse.js`) has two modes:
  - type 0, the same regular-expression search;
  - type 1, a "tree" search that walks each table in order and takes the first record whose name has a prefix that starts the token.

## Modules

| module | models |
|---|---|
| `Wrappers` | `Option` and `Result` |
| `Text` | the string operations the engines call: literal `replace`/`replaceAll`/`replaceFirst`, character-class replacement, the collapse of runs of spaces, `split(" ")` and join, `trim` against a set of white-space characters, and the CJK and digit classes |
| `StrUtil` | the project's `StrUtil`, with Java `null` as `JString.Null` |
| `Hutool` | the blank test and `trim` of Hutool's `StrUtil`, which the legacy engine calls |
| `Extract` | `cleanAddress`, `filterPhone`, `filterPostalCode` and `judgeFragmentIsName` of all three engines. They are parameterised by the keyword list, the blank test, and whether every occurrence or only the first is removed. |
| `NamePick` | the stable sort by length and the name loop |
| `AreaDb` | the two queries of `SqliteUtil` over the table, and the parent-link invariant of the script that builds the table |
| `Model` | the current engine's `ParseResult` (a class with twelve string fields) and `Fields`, a value snapshot of it |
| `FillResult` | `replaceFragment` and the three back-fill setters |
| `LevelScan` | the prefix loop the four current parsers share, as a function, with its lemmas |
| `ProvinceParser`, `CityParser`, `AreaParser`, `StreetParser` | the four Java loops as methods, each proved equal to that function |
| `ZhAddressParser` | the current `parse` |
| `RegexMatch` | the JSON records, the candidate patterns, the prefix loop of the regular-expression mode, and `matchOnlyOnce` |
| `LegacyZhAddressParser` | the legacy engine. It keeps the four region arrays in a class. |
| `LegacyScenario` | the municipality test of the legacy engine on a four-record dump: the routing of each token and the municipality fix |
| `MunicipalityTest` | the same test through the whole of the legacy `parse`, from the test address to the flat result |
| `AddressParseJs` | the JavaScript port, both modes |

Each stateful operation is a `method` that works the way the source does:

- its loops have invariants;
- a class's fields change in place;
- it is proved equal to a specification function.

The properties are lemmas about those functions.

## Model

Paths are relative to the repository root.

| member | source | states |
|---|---|---|
| StrUtil.IsNotEmpty | java-zh-addres-parse/src/main/java/com/github/daihy8759/util/common/StrUtil.java:5-11 | A string is not empty exactly when it is not null and has a character, so it is the negation of `isEmpty` |
| StrUtil.Trim | java-zh-addres-parse/src/main/java/com/github/daihy8759/util/common/StrUtil.java:13-15 | `trim` gives null exactly for null |
| StrUtil.IsNotBlank | java-zh-addres-parse/src/main/java/com/github/daihy8759/util/common/StrUtil.java:17-23 | A string is not blank exactly when it is not null and has a character above U+0020 |
| StrUtil.TrimIdempotent | java-zh-addres-parse/src/main/java/com/github/daihy8759/util/common/StrUtil.java:13-15 | Trimming twice is trimming once |
| StrUtil.TrimSlice | java-zh-addres-parse/src/main/java/com/github/daihy8759/util/common/StrUtil.java:13-15 | The trim is the slice between the first and the last character above U+0020, and everything cut off is at most U+0020 |
| StrUtil.BlankIff | java-zh-addres-parse/src/main/java/com/github/daihy8759/util/common/StrUtil.java:17-19 | `isBlank` holds exactly for null and for strings made only of characters up to U+0020 |
| StrUtil.EmptyIsBlank | java-zh-addres-parse/src/main/java/com/github/daihy8759/util/common/StrUtil.java:5-23 | An empty string is blank; a non-blank string trims to a non-empty string that starts and ends above U+0020 |
| Hutool.IsBlank | java-zh-addres-parse/src/main/java/com/github/daihy8759/util/ZhAddressParser.java:411-413 | Hutool's `isBlank` holds for null and for a string that strips to "" under Hutool's blank characters |
| Hutool.Trim | java-zh-addres-parse/src/main/java/com/github/daihy8759/util/ZhAddressParser.java:426-428 | Hutool's `trim` gives null exactly for null |
| Hutool.TrimNotBlank | java-zh-addres-parse/src/main/java/com/github/daihy8759/util/ZhAddressParser.java:426-428 | The tokens the legacy engine keeps trim to non-empty strings, and trimming again changes nothing |
| Hutool.BlankVersusJava | java-zh-addres-parse/src/main/java/com/github/daihy8759/util/ZhAddressParser.java:426-428 | Hutool's blank test and the project's agree on every string whose characters both classify alike |
| Hutool.ControlCharDiffers | java-zh-addres-parse/src/main/java/com/github/daihy8759/util/ZhAddressParser.java:426-428 | U+0001 is blank to `String.trim` but not to Hutool |
| Hutool.WideSpaceDiffers | java-zh-addres-parse/src/main/java/com/github/daihy8759/util/ZhAddressParser.java:426-428 | U+3000 is blank to Hutool but not to `String.trim` |
| Text.SplitJoin | java-zh-addres-parse/src/main/java/com/github/daihy8759/util/parse/ZhAddressParser.java:155-157 | `split(" ")` and joining with single spaces are inverse, and no piece holds a space |
| Text.CollapseNoDoubleSpace | java-zh-addres-parse/src/main/java/com/github/daihy8759/util/parse/ZhAddressParser.java:59-60 | After the space collapse no two spaces are adjacent |
| Text.ReplaceAllNoNew | java-zh-addres-parse/src/main/java/com/github/daihy8759/util/parse/ZhAddressParser.java:54-57 | Blanking a space-free keyword leaves none of it and creates no space-free text that was not there |
| Text.StripIdempotent | app/lib/address-parse.js:58 | Stripping white space twice is stripping once |
| Text.StripKeeps | java-zh-addres-parse/src/main/java/com/github/daihy8759/util/common/StrUtil.java:13-15 | Trimming adds no character, and every character outside the trimmed set survives it |
| Text.RemoveFirstCuts | java-zh-addres-parse/src/main/java/com/github/daihy8759/util/parse/ZhAddressParser.java:199-201 | `List.remove(Object)` takes out exactly the first occurrence and keeps the order of the rest |
| Text.ReplaceAllDeletes | app/lib/address-parse.js:162-164 | Deleting every occurrence of a non-empty pattern never lengthens the text |
| Text.ReplaceFirstDeletes | app/lib/address-parse.js:212-214 | Deleting the first occurrence never lengthens the text, and a leading occurrence leaves exactly the rest |
| Extract.KeywordListsGood | java-zh-addres-parse/src/main/java/com/github/daihy8759/util/parse/ZhAddressParser.java:25-27 | Both keyword lists are non-empty strings without spaces |
| Extract.StripKeywordsClears | java-zh-addres-parse/src/main/java/com/github/daihy8759/util/parse/ZhAddressParser.java:54-57 | After the keyword loop, no keyword of the list is left, not even one an earlier blanking created |
| Extract.StripKeywordsNoNew | java-zh-addres-parse/src/main/java/com/github/daihy8759/util/parse/ZhAddressParser.java:54-57 | The keyword loop creates no space-free text that was not there |
| Extract.StripKeywordsAbsent | java-zh-addres-parse/src/main/java/com/github/daihy8759/util/parse/ZhAddressParser.java:54-57 | Text without keywords passes the loop unchanged |
| Extract.StripKeywordsKeepsChar | java-zh-addres-parse/src/main/java/com/github/daihy8759/util/parse/ZhAddressParser.java:54-57 | A character no keyword holds survives the loop |
| Extract.LaterStepsNoNew | java-zh-addres-parse/src/main/java/com/github/daihy8759/util/parse/ZhAddressParser.java:54-60 | The keyword, punctuation and space steps bring back no line feed, tab or CR LF |
| Extract.CleanAddress | java-zh-addres-parse/src/main/java/com/github/daihy8759/util/parse/ZhAddressParser.java:51-62 | `cleanAddress` of the current engine, with its own keyword list. No contract of its own: `CleanAddressCleans` and `CleanAddressIdempotent` state its properties |
| Extract.CleanAddressWith | java-zh-addres-parse/src/main/java/com/github/daihy8759/util/ZhAddressParser.java:85-96 | `cleanAddress` over a given keyword list; the legacy engine and the JavaScript port use the shorter list. No contract of its own: `CleanAddressCleans` and `CleanAddressIdempotent` state its properties |
| Extract.CleanAddressCleans | java-zh-addres-parse/src/main/java/com/github/daihy8759/util/parse/ZhAddressParser.java:51-62 | The cleaned address has no LF, no tab, no CR LF, no double space, no character of the punctuation class and no keyword |
| Extract.CleanAddressIdempotent | java-zh-addres-parse/src/main/java/com/github/daihy8759/util/parse/ZhAddressParser.java:51-62 | Cleaning a cleaned address changes nothing |
| Extract.CleanKeepsLoneReturn | java-zh-addres-parse/src/main/java/com/github/daihy8759/util/parse/ZhAddressParser.java:52-53 | A CR that is not part of a CR LF pair survives cleaning |
| Extract.DigitRun | java-zh-addres-parse/src/main/java/com/github/daihy8759/util/parse/ZhAddressParser.java:40-41 | The digit run at the start of a string is never longer than the string |
| Extract.DigitRunSpec | java-zh-addres-parse/src/main/java/com/github/daihy8759/util/parse/ZhAddressParser.java:40-41 | `\d*` taken greedily: the run is all digits and the character after it is not a digit |
| Extract.DigitRunPrefix | java-zh-addres-parse/src/main/java/com/github/daihy8759/util/parse/ZhAddressParser.java:40-41 | After `k` leading digits, the run is `k` plus the run of the rest |
| Extract.DigitRunAtLeast | java-zh-addres-parse/src/main/java/com/github/daihy8759/util/parse/ZhAddressParser.java:40-41 | `k` leading digits give a run of at least `k` |
| Extract.Alternative | java-zh-addres-parse/src/main/java/com/github/daihy8759/util/parse/ZhAddressParser.java:40-41 | A match of one alternative of the phone pattern is a non-empty prefix of the text |
| Extract.AlternativesFrom | java-zh-addres-parse/src/main/java/com/github/daihy8759/util/parse/ZhAddressParser.java:40-41 | Trying the alternatives in order gives a non-empty prefix or nothing |
| Extract.PhoneMatchAt | java-zh-addres-parse/src/main/java/com/github/daihy8759/util/parse/ZhAddressParser.java:40-41 | A match of the phone pattern at a position is a non-empty prefix of the text there |
| Extract.PhoneMatchCases | java-zh-addres-parse/src/main/java/com/github/daihy8759/util/parse/ZhAddressParser.java:40-41 | The leftmost alternative that matches decides the match |
| Extract.PhoneShapes | java-zh-addres-parse/src/main/java/com/github/daihy8759/util/parse/ZhAddressParser.java:40-41 | Every phone match is 7 to 12 digits; or 3 or 4 digits, a dash and 6 to 8 digits; or `86-1` and ten digits |
| Extract.RunShape | java-zh-addres-parse/src/main/java/com/github/daihy8759/util/parse/ZhAddressParser.java:40 | The first alternative takes 7 to 12 digits |
| Extract.DashShape | java-zh-addres-parse/src/main/java/com/github/daihy8759/util/parse/ZhAddressParser.java:40 | The second alternative takes 3 or 4 digits, a dash and 6 to 8 digits |
| Extract.CountryShape | java-zh-addres-parse/src/main/java/com/github/daihy8759/util/parse/ZhAddressParser.java:41 | The third alternative takes `86-1` and ten digits |
| Extract.LateAlternativesLose | java-zh-addres-parse/src/main/java/com/github/daihy8759/util/parse/ZhAddressParser.java:41 | Wherever the fourth or fifth alternative would match, the first already does, so those two never win |
| Extract.PhoneHasNoSpace | java-zh-addres-parse/src/main/java/com/github/daihy8759/util/parse/ZhAddressParser.java:40-41 | A phone match holds no space |
| Extract.FindPhoneFrom | java-zh-addres-parse/src/main/java/com/github/daihy8759/util/parse/ZhAddressParser.java:75-76 | `Matcher.find` returns a match inside the text, at or after the start index |
| Extract.FindPhoneFromSpec | java-zh-addres-parse/src/main/java/com/github/daihy8759/util/parse/ZhAddressParser.java:75-79 | The search returns the leftmost matching position with its match length, and nothing when no position matches |
| Extract.FoundPhoneAt | java-zh-addres-parse/src/main/java/com/github/daihy8759/util/parse/ZhAddressParser.java:75-79 | The pattern matches where the search stops |
| Extract.FoundPhoneLeftmost | java-zh-addres-parse/src/main/java/com/github/daihy8759/util/parse/ZhAddressParser.java:75-79 | The pattern matches at no position the search passed over |
| Extract.FindPhoneSomewhere | java-zh-addres-parse/src/main/java/com/github/daihy8759/util/parse/ZhAddressParser.java:75-76 | The search finds something exactly when the pattern matches at some position |
| Extract.TakePhoneSpec | java-zh-addres-parse/src/main/java/com/github/daihy8759/util/parse/ZhAddressParser.java:75-83 | A phone is taken exactly when the pattern matches; it is part of the text; all its occurrences (Java) or its first (JavaScript) become a space; otherwise the text is unchanged |
| Extract.TakePhoneFound | java-zh-addres-parse/src/main/java/com/github/daihy8759/util/parse/ZhAddressParser.java:75-79 | The phone is non-empty exactly when the pattern matches, and the text is unchanged otherwise |
| Extract.TakePhoneText | java-zh-addres-parse/src/main/java/com/github/daihy8759/util/parse/ZhAddressParser.java:77-78 | What removing a found phone does to the text |
| Extract.TakeEveryPhone | java-zh-addres-parse/src/main/java/com/github/daihy8759/util/parse/ZhAddressParser.java:78 | Blanking every occurrence of a phone match leaves none |
| Extract.FilterPhoneJava | java-zh-addres-parse/src/main/java/com/github/daihy8759/util/parse/ZhAddressParser.java:67-84 | `filterPhone` of both Java engines. No contract of its own: `FilterPhoneJavaSpec` states its properties |
| Extract.FilterPhoneJavaSpec | java-zh-addres-parse/src/main/java/com/github/daihy8759/util/parse/ZhAddressParser.java:67-84 | Java `filterPhone` fails exactly when the third rewrite matches. Otherwise the separators of the two digit-group shapes are gone, the phone is non-empty exactly when the pattern matches, and no occurrence of it is left. |
| Extract.FilterPhoneJs | app/lib/address-parse.js:491-506 | `filterPhone` of the JavaScript port. No contract of its own: `FilterPhoneJsSpec` states its properties |
| Extract.FilterPhoneJsSpec | app/lib/address-parse.js:491-506 | JavaScript `filterPhone` takes the leftmost match of the rewritten text and blanks its first occurrence only |
| Extract.FilterPhoneSamePhone | app/lib/address-parse.js:491-506 | Where the Java version does not fail, the JavaScript version takes the same phone |
| Extract.MarkSpacedFourAbsent | app/lib/address-parse.js:496 | Without a `dddd dddd dddd` group, the third rewrite changes nothing |
| Extract.FindPostalFrom | java-zh-addres-parse/src/main/java/com/github/daihy8759/util/parse/ZhAddressParser.java:89-95 | `\d{6}` found: six digits at the leftmost position where six digits start, and nothing when there is no such position |
| Extract.FilterPostalCode | java-zh-addres-parse/src/main/java/com/github/daihy8759/util/parse/ZhAddressParser.java:89-101 | `filterPostalCode`, with every occurrence or only the first blanked. No contract of its own: `FilterPostalCodeSpec` states its properties |
| Extract.FilterPostalCodeSpec | java-zh-addres-parse/src/main/java/com/github/daihy8759/util/parse/ZhAddressParser.java:89-101 | The postal code is the leftmost six digits, and every occurrence (Java) or the first (JavaScript) becomes a space. Without six digits in a row the code is "" and the text is unchanged. |
| Extract.NoDigitsNoNumbers | java-zh-addres-parse/src/main/java/com/github/daihy8759/util/parse/ZhAddressParser.java:67-101 | Text without a digit yields no phone and no postal code in any engine and is left as it is |
| Extract.NoDigitsNoGroups | java-zh-addres-parse/src/main/java/com/github/daihy8759/util/parse/ZhAddressParser.java:70-71 | Without a digit, the group rewrites do nothing |
| Extract.NoDigitsNoSpacedFour | java-zh-addres-parse/src/main/java/com/github/daihy8759/util/parse/ZhAddressParser.java:72 | Without a digit, the third rewrite does not match |
| Extract.NoDigitsNoPhone | java-zh-addres-parse/src/main/java/com/github/daihy8759/util/parse/ZhAddressParser.java:75-76 | Without a digit, the phone pattern matches nowhere |
| Extract.NoDigitsNoPostal | java-zh-addres-parse/src/main/java/com/github/daihy8759/util/parse/ZhAddressParser.java:91-92 | Without a digit, there is no postal code |
| Extract.JudgeFragmentIsName | java-zh-addres-parse/src/main/java/com/github/daihy8759/util/parse/ZhAddressParser.java:106-127 | The result is "" or the fragment. It is the fragment exactly when the fragment has a CJK character and either holds a form of address, or has 2 to `maxLength` characters and starts with a surname character. |
| Extract.CjkNotBlank | java-zh-addres-parse/src/main/java/com/github/daihy8759/util/parse/ZhAddressParser.java:107-112 | A fragment with a CJK character is blank to no engine's blank test |
| Extract.CjkNotTrimBlank | java-zh-addres-parse/src/main/java/com/github/daihy8759/util/parse/ZhAddressParser.java:107-109 | A CJK character makes a string non-blank to `String.trim` |
| Extract.CjkNotHutoolBlank | java-zh-addres-parse/src/main/java/com/github/daihy8759/util/ZhAddressParser.java:148-152 | A CJK character makes a string non-blank to Hutool |
| Extract.JudgeIgnoresBlankness | app/lib/address-parse.js:466-484 | The three engines' judges agree on every fragment, whatever their blank tests |
| NamePick.Insert | java-zh-addres-parse/src/main/java/com/github/daihy8759/util/parse/ZhAddressParser.java:180-184 | Inserting into the sorted list adds one element |
| NamePick.SortByLength | java-zh-addres-parse/src/main/java/com/github/daihy8759/util/parse/ZhAddressParser.java:180-184 | The sorted copy has as many elements as the list |
| NamePick.InsertFacts | java-zh-addres-parse/src/main/java/com/github/daihy8759/util/parse/ZhAddressParser.java:180-184 | Insertion adds one copy of the element, keeps the list sorted by length, and puts the element or the old head first |
| NamePick.SortFacts | java-zh-addres-parse/src/main/java/com/github/daihy8759/util/parse/ZhAddressParser.java:180-184 | The sorted copy is a permutation of the list and is sorted by length |
| NamePick.PickName | java-zh-addres-parse/src/main/java/com/github/daihy8759/util/parse/ZhAddressParser.java:186-198 | The loop over the sorted copy and the fall-back to its head give the chosen name |
| NamePick.FirstAcceptedIn | java-zh-addres-parse/src/main/java/com/github/daihy8759/util/parse/ZhAddressParser.java:186-193 | The element the loop stops at is in the list and is accepted |
| NamePick.FirstAcceptedInsert | java-zh-addres-parse/src/main/java/com/github/daihy8759/util/parse/ZhAddressParser.java:180-193 | Inserting an element into a sorted list changes the first accepted element only if the new one is accepted and no longer |
| NamePick.FirstOfSortedIsShortest | java-zh-addres-parse/src/main/java/com/github/daihy8759/util/parse/ZhAddressParser.java:180-193 | The first accepted element of the stable sort is the first of the shortest accepted elements of the original list |
| NamePick.ShortestAcceptedNone | java-zh-addres-parse/src/main/java/com/github/daihy8759/util/parse/ZhAddressParser.java:186-193 | No element is found exactly when none is accepted |
| NamePick.ShortestAcceptedSome | java-zh-addres-parse/src/main/java/com/github/daihy8759/util/parse/ZhAddressParser.java:186-193 | The element found is accepted; no accepted element is shorter; every equally short accepted element comes later |
| NamePick.SortHeadIsShortest | java-zh-addres-parse/src/main/java/com/github/daihy8759/util/parse/ZhAddressParser.java:194-196 | The head of the sorted copy is the first of the shortest elements |
| NamePick.ChosenName | java-zh-addres-parse/src/main/java/com/github/daihy8759/util/parse/ZhAddressParser.java:176-203 | The name the engines choose among the fragments. No contract of its own: `ChosenNameSpec` gives the independent reading |
| NamePick.ChosenNameSpec | java-zh-addres-parse/src/main/java/com/github/daihy8759/util/parse/ZhAddressParser.java:176-203 | Read without the sort, the name is the first of the shortest fragments `judgeFragmentIsName` accepts. Failing that, it is the first of the shortest fragments if that is short enough and has a CJK character. Otherwise it is "". |
| NamePick.ChosenNameIsFragment | java-zh-addres-parse/src/main/java/com/github/daihy8759/util/parse/ZhAddressParser.java:197-201 | The name is "" or a fragment with a CJK character; removing it takes exactly one copy out of the list |
| NamePick.ChosenNameBlank | java-zh-addres-parse/src/main/java/com/github/daihy8759/util/parse/ZhAddressParser.java:198-200 | The name is blank, by any engine's test, exactly when it is "" |
| AreaDb.GetArea | java-zh-addres-parse/src/main/java/com/github/daihy8759/util/db/SqliteUtil.java:29-46 | The prefix query returns no more rows than the table has, and every row it returns is a row of the table that matches the level, the parent code (any parent when the code is empty) and the name prefix |
| AreaDb.GetAreaOrder | java-zh-addres-parse/src/main/java/com/github/daihy8759/util/db/SqliteUtil.java:29-46 | The prefix query returns exactly the matching rows, in table order: its result is the table at increasing indices, and these are the indices of the matching rows |
| AreaDb.GetAreaMembers | java-zh-addres-parse/src/main/java/com/github/daihy8759/util/db/SqliteUtil.java:29-46 | A row is returned exactly when it is in the table and matches the parent, the name prefix and the level |
| AreaDb.GetAreaFirst | java-zh-addres-parse/src/main/java/com/github/daihy8759/util/db/SqliteUtil.java:29-46 | The first row returned is the first matching row of the table |
| AreaDb.GetAreaNarrows | java-zh-addres-parse/src/main/java/com/github/daihy8759/util/db/SqliteUtil.java:29-46 | A longer prefix never returns a row a shorter one misses |
| AreaDb.GetAreaSingleSpec | java-zh-addres-parse/src/main/java/com/github/daihy8759/util/db/SqliteUtil.java:49-54 | The lookup by code finds a row with that code and level, and finds nothing only when there is none |
| AreaDb.GetAreaSingleFinds | java-zh-addres-parse/db/main.py:6-11 | The code is the table's key, so the lookup by a row's code returns that row |
| AreaDb.ParentFound | java-zh-addres-parse/db/main.py:19-49 | Every row below the provinces has a parent row one level up, and the lookup by the parent code finds it |
| Model.ParseResult.constructor | java-zh-addres-parse/src/main/java/com/github/daihy8759/util/parse/ZhAddressParser.java:139 | A new result has every field "" |
| FillResult.ReplaceFragment | java-zh-addres-parse/src/main/java/com/github/daihy8759/util/parse/FillResult.java:13-20 | A fragment that starts with the row's name loses exactly that name; otherwise one that starts with the prefix loses that prefix; the result is never longer |
| FillResult.ReplaceFragmentCutsPrefix | java-zh-addres-parse/src/main/java/com/github/daihy8759/util/parse/FillResult.java:13-20 | Called with a prefix, the fragment is the part removed followed by the result, and that part is the name or the prefix |
| FillResult.FillArea | java-zh-addres-parse/src/main/java/com/github/daihy8759/util/parse/FillResult.java:22-31 | `setArea` writes only the area name and the city code, from the level-3 row of the area code, and does nothing without such a row |
| FillResult.FillCity | java-zh-addres-parse/src/main/java/com/github/daihy8759/util/parse/FillResult.java:33-42 | `setCity` writes only the city name and the province code, from the level-2 row of the city code, and does nothing without such a row |
| FillResult.FillProvince | java-zh-addres-parse/src/main/java/com/github/daihy8759/util/parse/FillResult.java:44-52 | `setProvince` writes only the province name, from the level-1 row of the province code, and does nothing without such a row |
| FillResult.SetArea | java-zh-addres-parse/src/main/java/com/github/daihy8759/util/parse/FillResult.java:22-31 | The setter on the object leaves it as `FillArea` says |
| FillResult.SetCity | java-zh-addres-parse/src/main/java/com/github/daihy8759/util/parse/FillResult.java:33-42 | The setter on the object leaves it as `FillCity` says |
| FillResult.SetProvince | java-zh-addres-parse/src/main/java/com/github/daihy8759/util/parse/FillResult.java:44-52 | The setter on the object leaves it as `FillProvince` says |
| FillResult.FillIdempotent | java-zh-addres-parse/src/main/java/com/github/daihy8759/util/parse/FillResult.java:22-52 | Each back-fill applied twice is applied once |
| FillResult.FillFromRow | java-zh-addres-parse/src/main/java/com/github/daihy8759/util/parse/FillResult.java:22-52 | In a well-formed table, the back-fill of a row's code writes that row's name and its parent's code |
| LevelScan.CommitKeeps | java-zh-addres-parse/src/main/java/com/github/daihy8759/util/parse/AreaParser.java:25-31 | A commit writes only its level and the levels above, sets the row's code and name, and sets the parent code to the row's parent |
| LevelScan.CommitLinks | java-zh-addres-parse/src/main/java/com/github/daihy8759/util/parse/StreetParser.java:25-32 | In a well-formed table a commit leaves the row and a consistent chain of its ancestors, and clears no code |
| LevelScan.ScanSuffix | java-zh-addres-parse/src/main/java/com/github/daihy8759/util/parse/ProvinceParser.java:17-29 | The fragment a scan returns is a suffix of the one it got |
| LevelScan.ScanKeeps | java-zh-addres-parse/src/main/java/com/github/daihy8759/util/parse/CityParser.java:26-30 | A scan writes only its level's fields and those above |
| LevelScan.Scan | java-zh-addres-parse/src/main/java/com/github/daihy8759/util/parse/ProvinceParser.java:17-29 | The prefix loop of the four current level parsers. No contract of its own: `ScanLastCommit`, `ScanLinks` and the lemmas below state its properties |
| LevelScan.Resolve | java-zh-addres-parse/src/main/java/com/github/daihy8759/util/parse/ProvinceParser.java:15-32 | A current level parser, which runs the loop only while its code is empty. No contract of its own: `ResolveNoOp` and `ZhAddressParser.ResolveSpec` state its properties |
| LevelScan.ScanLastCommit | java-zh-addres-parse/src/main/java/com/github/daihy8759/util/parse/ProvinceParser.java:17-29 | A scan without a commit changes nothing. One with commits ends with the last committed row: a row of that level, whose name has at least two characters, with its code, its name and its parent code. |
| LevelScan.ScanCommitStep | java-zh-addres-parse/src/main/java/com/github/daihy8759/util/parse/ProvinceParser.java:24-28 | At a prefix with one candidate, the scan commits it and goes on with the shrunk fragment; a later sole candidate overrides it |
| LevelScan.ScanLinks | java-zh-addres-parse/src/main/java/com/github/daihy8759/util/parse/StreetParser.java:25-32 | In a well-formed table, a scan that commits leaves the last row and all its ancestors |
| LevelScan.ScanUnchanged | java-zh-addres-parse/src/main/java/com/github/daihy8759/util/parse/ProvinceParser.java:20-24 | A scan that commits nothing returns the record as it was |
| LevelScan.ScanCodesKept | java-zh-addres-parse/src/main/java/com/github/daihy8759/util/parse/AreaParser.java:25-31 | In a well-formed table a scan never clears a code |
| LevelScan.AreaScanIgnoresProvince | java-zh-addres-parse/src/main/java/com/github/daihy8759/util/parse/AreaParser.java:19-20 | The area scan is blind to the province fields: records that differ only there end alike |
| LevelScan.ResolveNoOp | java-zh-addres-parse/src/main/java/com/github/daihy8759/util/parse/ProvinceParser.java:16-18 | A resolved level, or a fragment under two characters, comes back unchanged |
| ProvinceParser.ParseProvince | java-zh-addres-parse/src/main/java/com/github/daihy8759/util/parse/ProvinceParser.java:15-32 | The loop, whose bound is read from the shrinking fragment, ends with the record and fragment of the province scan |
| CityParser.ParseCity | java-zh-addres-parse/src/main/java/com/github/daihy8759/util/parse/CityParser.java:15-35 | The loop, re-scoped by the province code each round, ends as the city scan |
| AreaParser.ParseArea | java-zh-addres-parse/src/main/java/com/github/daihy8759/util/parse/AreaParser.java:15-36 | The loop, scoped by the city code, with its two back-fills, ends as the area scan |
| StreetParser.ParseStreet | java-zh-addres-parse/src/main/java/com/github/daihy8759/util/parse/StreetParser.java:15-37 | The loop, scoped by the area code, with its three back-fills, ends as the street scan |
| ZhAddressParser.Tokens | java-zh-addres-parse/src/main/java/com/github/daihy8759/util/parse/ZhAddressParser.java:155-157 | The filter yields no more tokens than there are pieces |
| ZhAddressParser.TokensSpec | java-zh-addres-parse/src/main/java/com/github/daihy8759/util/parse/ZhAddressParser.java:155-157 | Every token is non-blank and is its own trim |
| ZhAddressParser.TrimmedToken | java-zh-addres-parse/src/main/java/com/github/daihy8759/util/parse/ZhAddressParser.java:156-157 | A non-blank piece trims to a non-blank token |
| ZhAddressParser.RouteToken | java-zh-addres-parse/src/main/java/com/github/daihy8759/util/parse/ZhAddressParser.java:161-174 | One round of the loop updates the object and the detail list as one routing step says |
| ZhAddressParser.RouteAll | java-zh-addres-parse/src/main/java/com/github/daihy8759/util/parse/ZhAddressParser.java:160-175 | The routing loop ends with the record and the detail list of the routing specification |
| ZhAddressParser.PrependStep | java-zh-addres-parse/src/main/java/com/github/daihy8759/util/parse/ZhAddressParser.java:160-175 | Routing from token `k` on is one step followed by the routing of the rest. It is the same fact as `LegacyZhAddressParser.PrependStep` and `AddressParseJs.PrependStep`, each for its own engine's routing |
| ZhAddressParser.ResolveSpec | java-zh-addres-parse/src/main/java/com/github/daihy8759/util/parse/ProvinceParser.java:15-32 | In a well-formed table, a level parser clears no code and returns a suffix of its fragment |
| ZhAddressParser.ChainSpec | java-zh-addres-parse/src/main/java/com/github/daihy8759/util/parse/ZhAddressParser.java:165-168 | The four parsers in a row clear no code and leave a suffix of the token |
| ZhAddressParser.Step | java-zh-addres-parse/src/main/java/com/github/daihy8759/util/parse/ZhAddressParser.java:161-174 | One token of the routing loop. No contract of its own: `StepSpec` states its properties |
| ZhAddressParser.StepSpec | java-zh-addres-parse/src/main/java/com/github/daihy8759/util/parse/ZhAddressParser.java:161-174 | One step adds nothing, or one suffix of the token that is non-blank when the token is, and clears no code |
| ZhAddressParser.Route | java-zh-addres-parse/src/main/java/com/github/daihy8759/util/parse/ZhAddressParser.java:160-175 | The routing loop of the current `parse`. No contract of its own: `RouteSpec`, `ChainSpec` and `RouteResolvedVerbatim` state its properties |
| ZhAddressParser.RouteSpec | java-zh-addres-parse/src/main/java/com/github/daihy8759/util/parse/ZhAddressParser.java:160-175 | Routing non-blank tokens adds only non-blank suffixes of the tokens and never clears a code, so a resolved level stays resolved |
| ZhAddressParser.RouteResolvedVerbatim | java-zh-addres-parse/src/main/java/com/github/daihy8759/util/parse/ZhAddressParser.java:172-174 | Once all four codes are set, later tokens go to the detail list verbatim and the record stays as it is |
| ZhAddressParser.PickNameInto | java-zh-addres-parse/src/main/java/com/github/daihy8759/util/parse/ZhAddressParser.java:176-203 | The name step sets the name and removes it from the detail list as the name specification says |
| ZhAddressParser.PickSpecRemovesName | java-zh-addres-parse/src/main/java/com/github/daihy8759/util/parse/ZhAddressParser.java:176-203 | The name step writes only the name, with "" or one of the entries. A non-empty name is taken out once, at its first occurrence, and the other entries keep their order. Otherwise the list is unchanged. |
| ZhAddressParser.FilterPhoneInto | java-zh-addres-parse/src/main/java/com/github/daihy8759/util/parse/ZhAddressParser.java:145-149 | The phone step stores the phone and returns the text left, or fails as `filterPhone` does |
| ZhAddressParser.FilterPostalInto | java-zh-addres-parse/src/main/java/com/github/daihy8759/util/parse/ZhAddressParser.java:150-154 | The postal step stores the code and returns the text left |
| ZhAddressParser.ExtractFields | java-zh-addres-parse/src/main/java/com/github/daihy8759/util/parse/ZhAddressParser.java:143-154 | Cleaning, the phone and the postal code on a fresh record, or the failure of the phone step |
| ZhAddressParser.FixMunicipality | java-zh-addres-parse/src/main/java/com/github/daihy8759/util/parse/ZhAddressParser.java:213-230 | It changes only the city code and name, and only for a municipality whose city is a placeholder with a non-empty unscoped level-2 prefix lookup of the province name. The new city is that lookup's first row. |
| ZhAddressParser.FixMunicipalityApplies | java-zh-addres-parse/src/main/java/com/github/daihy8759/util/parse/ZhAddressParser.java:213-230 | The other direction: when the province is a municipality, the city is a placeholder and the lookup finds a row, the city code and name become that row's |
| ZhAddressParser.ReplaceMunicipality | java-zh-addres-parse/src/main/java/com/github/daihy8759/util/parse/ZhAddressParser.java:213-230 | The method leaves the object as `FixMunicipality` says |
| ZhAddressParser.Assemble | java-zh-addres-parse/src/main/java/com/github/daihy8759/util/parse/ZhAddressParser.java:155-205 | Tokenising, routing, the name, the detail join and the municipality fix leave the object as the assembly specification says |
| ZhAddressParser.ParseSpec | java-zh-addres-parse/src/main/java/com/github/daihy8759/util/parse/ZhAddressParser.java:137-208 | The current `parse` as a function. No contract of its own: `ParseFails` and `ParseBlank` state its properties |
| ZhAddressParser.Parse | java-zh-addres-parse/src/main/java/com/github/daihy8759/util/parse/ZhAddressParser.java:137-208 | `parse` returns a fresh object holding the specified result, and fails exactly when the specification does |
| ZhAddressParser.ParseFails | java-zh-addres-parse/src/main/java/com/github/daihy8759/util/parse/ZhAddressParser.java:67-84 | `parse` fails exactly when the phone is asked for, the address is not blank, and the cleaned, regrouped text has a `dddd dddd dddd` group |
| ZhAddressParser.ParseBlank | java-zh-addres-parse/src/main/java/com/github/daihy8759/util/parse/ZhAddressParser.java:140-142 | A blank address gives the record as constructed |
| RegexMatch.Put | java-zh-addres-parse/src/main/java/com/github/daihy8759/util/ZhAddressParser.java:434-438 | Replacing one level's array leaves the other three as they were |
| RegexMatch.Candidates | java-zh-addres-parse/src/main/java/com/github/daihy8759/util/ZhAddressParser.java:198-220 | The matches of a pattern are no more than the records |
| RegexMatch.CandidatesMembers | java-zh-addres-parse/src/main/java/com/github/daihy8759/util/ZhAddressParser.java:198-220 | The matches are exactly the records of the dump the pattern accepts: numeric code, name equal to the prefix plus CJK characters only, and resolved ancestors pinned |
| RegexMatch.CandidatesSplit | java-zh-addres-parse/src/main/java/com/github/daihy8759/util/ZhAddressParser.java:174-194 | The matches in two consecutive pieces of a dump are those of the first piece followed by those of the second |
| RegexMatch.CandidatesIgnoreOwn | java-zh-addres-parse/src/main/java/com/github/daihy8759/util/ZhAddressParser.java:202-210 | A level's pattern never reads that level's own array |
| RegexMatch.ScanIgnoresOwn | java-zh-addres-parse/src/main/java/com/github/daihy8759/util/ZhAddressParser.java:200-221 | Nor does its loop |
| RegexMatch.MatchOnlyOnce | java-zh-addres-parse/src/main/java/com/github/daihy8759/util/ZhAddressParser.java:174-194 | The count is the number of matches capped at 2, and the record comes back exactly when the count is 1, as the one match |
| RegexMatch.ScanFromSpec | java-zh-addres-parse/src/main/java/com/github/daihy8759/util/ZhAddressParser.java:200-221 | From a given length on, the loop returns the longest reached prefix that has one candidate, with that candidate, or what it had found earlier |
| RegexMatch.LastUnique | java-zh-addres-parse/src/main/java/com/github/daihy8759/util/ZhAddressParser.java:200-221 | The prefix loop of the regular-expression parsers. No contract of its own: `LastUniqueSpec` states its properties |
| RegexMatch.LastUniqueSpec | java-zh-addres-parse/src/main/java/com/github/daihy8759/util/ZhAddressParser.java:200-221 | The loop finds nothing exactly when no reached prefix has one candidate. Otherwise it finds the longest such prefix with its candidate. A prefix is reached when every shorter prefix of two or more characters has a candidate. |
| RegexMatch.LastUniqueFound | java-zh-addres-parse/src/main/java/com/github/daihy8759/util/ZhAddressParser.java:200-221 | The record found is in the dump and matches the pattern of its prefix |
| RegexMatch.Lookup | java-zh-addres-parse/src/main/java/com/github/daihy8759/util/ZhAddressParser.java:226-247 | The back-fill lookup of a record's ancestor. No contract of its own: `LookupSpec` states its properties |
| RegexMatch.LookupSpec | java-zh-addres-parse/src/main/java/com/github/daihy8759/util/ZhAddressParser.java:226-247 | The back-fill lookup returns the first record matching code, CJK name and ancestor codes, and nothing when none matches |
| LegacyZhAddressParser.Regions.constructor | java-zh-addres-parse/src/main/java/com/github/daihy8759/util/ZhAddressParser.java:402-406 | The four region arrays start empty |
| LegacyZhAddressParser.Regions.Store | java-zh-addres-parse/src/main/java/com/github/daihy8759/util/ZhAddressParser.java:216-219 | `clear()` and `add()` replace one array and leave the others |
| LegacyZhAddressParser.Regions.ScanLevel | java-zh-addres-parse/src/main/java/com/github/daihy8759/util/ZhAddressParser.java:200-221 | The prefix loop changes only its own array. The array ends with at most one record: the candidate of the last prefix that had one match. That prefix is the one returned. |
| LegacyZhAddressParser.Regions.ParseStreet | java-zh-addres-parse/src/main/java/com/github/daihy8759/util/ZhAddressParser.java:196-251 | `parseStreet` leaves the arrays and the fragment as the street resolution says |
| LegacyZhAddressParser.Regions.ParseArea | java-zh-addres-parse/src/main/java/com/github/daihy8759/util/ZhAddressParser.java:253-297 | `parseArea` leaves the arrays and the fragment as the area resolution says |
| LegacyZhAddressParser.Regions.ParseCity | java-zh-addres-parse/src/main/java/com/github/daihy8759/util/ZhAddressParser.java:299-333 | `parseCity` leaves the arrays and the fragment as the city resolution says |
| LegacyZhAddressParser.Regions.ParseProvince | java-zh-addres-parse/src/main/java/com/github/daihy8759/util/ZhAddressParser.java:335-358 | `parseProvince` leaves the arrays and the fragment as the province resolution says |
| LegacyZhAddressParser.LookupFound | java-zh-addres-parse/src/main/java/com/github/daihy8759/util/ZhAddressParser.java:226-247 | A back-fill record is in its dump and matches the lookup pattern |
| LegacyZhAddressParser.BackfillSpec | java-zh-addres-parse/src/main/java/com/github/daihy8759/util/ZhAddressParser.java:226-247 | The back-fill changes only empty arrays above the level. It fills each with a dump record whose code is the one the committed record names. |
| LegacyZhAddressParser.RegexResolveKeeps | java-zh-addres-parse/src/main/java/com/github/daihy8759/util/ZhAddressParser.java:196-358 | A level parser never changes a filled array or one below its level. It keeps each array to at most one record. It returns a suffix of the fragment. |
| LegacyZhAddressParser.RegexResolveSuffix | java-zh-addres-parse/src/main/java/com/github/daihy8759/util/ZhAddressParser.java:222-223 | A level parser returns a suffix of its fragment |
| LegacyZhAddressParser.RegexResolveNoOp | java-zh-addres-parse/src/main/java/com/github/daihy8759/util/ZhAddressParser.java:196-358 | A level parser changes nothing exactly when its array is filled or no reached prefix has one candidate |
| LegacyZhAddressParser.RegexResolve | java-zh-addres-parse/src/main/java/com/github/daihy8759/util/ZhAddressParser.java:200-247 | One legacy level parser. No contract of its own: `RegexResolveKeeps`, `RegexResolveSuffix`, `RegexResolveNoOp` and `RegexResolveCommits` state its properties |
| LegacyZhAddressParser.RegexResolveCommits | java-zh-addres-parse/src/main/java/com/github/daihy8759/util/ZhAddressParser.java:200-247 | When a parser acts, its array holds the sole candidate of the longest reached prefix with one candidate, and that prefix is cut once from the front. Every ancestor array it fills was empty and now holds the matching ancestor record. |
| LegacyZhAddressParser.ParseRegionWithRegexp | java-zh-addres-parse/src/main/java/com/github/daihy8759/util/ZhAddressParser.java:366-389 | The four parsers in a row, and the leftover as detail when it is not empty, leave the arrays and the detail of one region step |
| LegacyZhAddressParser.RegionStep | java-zh-addres-parse/src/main/java/com/github/daihy8759/util/ZhAddressParser.java:366-389 | `parseRegionWithRegexp`. No contract of its own: `RegionStepKeeps` and `RegionStepDetail` state its properties |
| LegacyZhAddressParser.RegionStepKeeps | java-zh-addres-parse/src/main/java/com/github/daihy8759/util/ZhAddressParser.java:366-389 | One pass keeps every filled array and keeps each array to at most one record |
| LegacyZhAddressParser.RegionStepDetail | java-zh-addres-parse/src/main/java/com/github/daihy8759/util/ZhAddressParser.java:380-388 | One pass adds nothing, or one non-empty suffix of the token |
| LegacyZhAddressParser.RegionRestSuffix | java-zh-addres-parse/src/main/java/com/github/daihy8759/util/ZhAddressParser.java:370-379 | The four parsers leave a suffix of the token |
| LegacyZhAddressParser.LegacyTokens | java-zh-addres-parse/src/main/java/com/github/daihy8759/util/ZhAddressParser.java:426-428 | The filter yields no more tokens than there are pieces |
| LegacyZhAddressParser.LegacyTokensSpec | java-zh-addres-parse/src/main/java/com/github/daihy8759/util/ZhAddressParser.java:426-428 | Every token is non-blank by Hutool's test and is its own Hutool trim |
| LegacyZhAddressParser.TrimmedPiece | java-zh-addres-parse/src/main/java/com/github/daihy8759/util/ZhAddressParser.java:426-428 | A piece that is not Hutool-blank trims to such a token |
| LegacyZhAddressParser.TrimmedTokenSpec | java-zh-addres-parse/src/main/java/com/github/daihy8759/util/ZhAddressParser.java:426-428 | Such a token is its own trim and is not blank |
| LegacyZhAddressParser.AllTrimmedMembers | java-zh-addres-parse/src/main/java/com/github/daihy8759/util/ZhAddressParser.java:426-428 | Every element of the token list is such a token |
| LegacyZhAddressParser.RouteToken | java-zh-addres-parse/src/main/java/com/github/daihy8759/util/ZhAddressParser.java:431-444 | One round of the loop runs the four parsers while an array is empty, and otherwise passes the token to the detail list |
| LegacyZhAddressParser.RouteAll | java-zh-addres-parse/src/main/java/com/github/daihy8759/util/ZhAddressParser.java:430-445 | The routing loop ends with the arrays and the detail of the routing specification |
| LegacyZhAddressParser.PrependStep | java-zh-addres-parse/src/main/java/com/github/daihy8759/util/ZhAddressParser.java:430-445 | Routing from token `k` on is one step followed by the rest. It is the same fact as `ZhAddressParser.PrependStep`, for the legacy routing |
| LegacyZhAddressParser.RouteSpec | java-zh-addres-parse/src/main/java/com/github/daihy8759/util/ZhAddressParser.java:430-445 | Routing never changes a filled array and keeps each array to at most one record. It adds only non-empty suffixes of the tokens. |
| LegacyZhAddressParser.RoutePickedVerbatim | java-zh-addres-parse/src/main/java/com/github/daihy8759/util/ZhAddressParser.java:442-444 | Once all four arrays are filled, tokens go to the detail list verbatim |
| LegacyZhAddressParser.FirstNamedSpec | java-zh-addres-parse/src/main/java/com/github/daihy8759/util/ZhAddressParser.java:483-502 | The first city record with a name: no earlier one has it, and none is found only when no record has it |
| LegacyZhAddressParser.FixMunicipalityExact | java-zh-addres-parse/src/main/java/com/github/daihy8759/util/ZhAddressParser.java:483-502 | The legacy `replaceMunicipality`. No contract of its own: `FixMunicipalityExactSpec` states its properties, and `LegacyScenario.ScenarioFix` shows it on the test data |
| LegacyZhAddressParser.FixMunicipalityExactSpec | java-zh-addres-parse/src/main/java/com/github/daihy8759/util/ZhAddressParser.java:483-502 | Only the city changes. When the province is a municipality, the city is a placeholder and some city record carries the province's name, the city becomes the province's name with the first such record's code; in every other case nothing changes |
| LegacyZhAddressParser.FlatResult | java-zh-addres-parse/src/main/java/com/github/daihy8759/util/ZhAddressParser.java:504-544 | `flatResult`. No contract of its own: `FlatResultSpec` states its properties |
| LegacyZhAddressParser.FlatResultSpec | java-zh-addres-parse/src/main/java/com/github/daihy8759/util/ZhAddressParser.java:504-544 | An empty array gives "" for its name and code, and a filled one gives its record's. The detail is joined with "", and name, phone and postal code are kept. The city is its array's, or, for a municipality with a placeholder city, the first city record named after the province; and when such a record exists, the city is always that record. |
| LegacyZhAddressParser.Assemble | java-zh-addres-parse/src/main/java/com/github/daihy8759/util/ZhAddressParser.java:426-475 | Tokenising, routing, the name and `flatResult` give the specified result |
| LegacyZhAddressParser.ParseSpec | java-zh-addres-parse/src/main/java/com/github/daihy8759/util/ZhAddressParser.java:400-476 | The legacy `parse` as a function. No contract of its own: `LegacyParseFails` gives its failure and `MunicipalityTest.ScenarioParse` its result on the test address |
| LegacyZhAddressParser.Parse | java-zh-addres-parse/src/main/java/com/github/daihy8759/util/ZhAddressParser.java:400-476 | The legacy `parse` returns the specified result or failure |
| LegacyZhAddressParser.LegacyParseFails | java-zh-addres-parse/src/main/java/com/github/daihy8759/util/ZhAddressParser.java:101-118 | The legacy `parse` fails exactly when the phone is asked for, the address is not blank, and the cleaned, regrouped text has a `dddd dddd dddd` group |
| LegacyScenario.NameToken | java-zh-addres-parse/src/test/java/com/github/daihy8759/util/ZhAddressParserTest.java:36-43 | The name token matches no region and goes to the detail list |
| LegacyScenario.ProvinceToken | java-zh-addres-parse/src/test/java/com/github/daihy8759/util/ZhAddressParserTest.java:36-43 | `重庆市` commits the province and leaves nothing |
| LegacyScenario.CountyToken | java-zh-addres-parse/src/test/java/com/github/daihy8759/util/ZhAddressParserTest.java:36-43 | `垫江县` commits the area and fills the city from it |
| LegacyScenario.StreetToken | java-zh-addres-parse/src/test/java/com/github/daihy8759/util/ZhAddressParserTest.java:36-43 | `太平镇`, absent from the dump, goes to the detail list |
| LegacyScenario.CountyCity | java-zh-addres-parse/src/test/java/com/github/daihy8759/util/ZhAddressParserTest.java:36-43 | The county's city is the `县` record of Chongqing |
| LegacyScenario.RouteName | java-zh-addres-parse/src/main/java/com/github/daihy8759/util/ZhAddressParser.java:430-445 | The routing loop over the four tokens of the test address from empty regions commits Chongqing, its `县` city and Dianjiang, and leaves `王晓光` and `太平镇` as the detail |
| LegacyScenario.ScenarioFix | java-zh-addres-parse/src/main/java/com/github/daihy8759/util/ZhAddressParser.java:483-502 | For Chongqing with the placeholder city `县`, the fix sets the city to `重庆市`, code `500100` |
| MunicipalityTest.ExtractionTest | java-zh-addres-parse/src/main/java/com/github/daihy8759/util/ZhAddressParser.java:414-425 | On the test address, cleaning, the phone filter and the postal filter keep the phone number `13311111111`, find no postal code, and leave the four words followed by two spaces |
| MunicipalityTest.TokensTest | java-zh-addres-parse/src/main/java/com/github/daihy8759/util/ZhAddressParser.java:426-428 | That text splits into the tokens `王晓光`, `重庆市`, `垫江县`, `太平镇` |
| MunicipalityTest.PickTest | java-zh-addres-parse/src/main/java/com/github/daihy8759/util/ZhAddressParser.java:447-472 | With 王 on the surname list, `王晓光` is the name and `太平镇` alone is left in the detail list |
| MunicipalityTest.FlatTest | java-zh-addres-parse/src/main/java/com/github/daihy8759/util/ZhAddressParser.java:504-545 | On the regions the routing leaves (Chongqing, the `县` city, Dianjiang, no street) and the detail `太平镇`, `flatResult` keeps the scalar fields, gives province `重庆市` `500000`, city `重庆市` `500100` after the municipality fix, area `垫江县` `500231`, no street, and detail `太平镇` |
| MunicipalityTest.AssemblyTest | java-zh-addres-parse/src/main/java/com/github/daihy8759/util/ZhAddressParser.java:426-475 | On the text the extraction leaves, routing, the name pick and `flatResult` give name `王晓光` and the regions and detail above |
| MunicipalityTest.ScenarioParse | java-zh-addres-parse/src/test/java/com/github/daihy8759/util/ZhAddressParserTest.java:36-43 | With 王 on the surname list, `parse(address, true, true, true)` of the test address succeeds with name `王晓光`, phone `13311111111`, no postal code, province `重庆市` `500000`, city `重庆市` `500100` (what the test asserts), area `垫江县` `500231` (what the test asserts), no street, and detail `太平镇` |
| AddressParseJs.JsTokens | app/lib/address-parse.js:58 | The filter yields no more tokens than there are pieces |
| AddressParseJs.JsTokensSpec | app/lib/address-parse.js:58 | Every token is its own `trim()`; one is "" only when its piece was white space |
| AddressParseJs.JsTrimmedSpec | app/lib/address-parse.js:58 | A trimmed token is its own `trim()` |
| AddressParseJs.ScanPrefixes | app/lib/address-parse.js:146-160 | The `for` loop of a level block keeps what the prefix loop specification finds: the longest reached prefix with exactly one match |
| AddressParseJs.ProvinceByRegexp | app/lib/address-parse.js:145-166 | The province block gives the specified arrays and fragment |
| AddressParseJs.CityByRegexp | app/lib/address-parse.js:168-194 | The city block gives the specified arrays and fragment, or the exception it throws |
| AddressParseJs.AreaByRegexp | app/lib/address-parse.js:196-226 | The area block gives the specified arrays and fragment, or the exception it throws |
| AddressParseJs.StreetByRegexp | app/lib/address-parse.js:228-265 | The street block gives the specified arrays and fragment, or the exception it throws |
| AddressParseJs.ParseRegionWithRegexp | app/lib/address-parse.js:136-280 | The four blocks and the leftover give the specified step, or the exception |
| AddressParseJs.RegexLevelFails | app/lib/address-parse.js:168-265 | A block throws exactly when it acts and an ancestor it must read unguarded is empty while the lookup for it finds nothing |
| AddressParseJs.RegexLevelKeeps | app/lib/address-parse.js:145-265 | A block that returns keeps every filled array and every array below its level. It keeps each array to at most one entry and never lengthens the fragment. |
| AddressParseJs.BackfillJsSpec | app/lib/address-parse.js:171-265 | The back-fill changes only empty arrays above the level, each to the record its lookup found |
| AddressParseJs.RegexLevel | app/lib/address-parse.js:145-265 | One block of the type 0 parser. No contract of its own: `RegexLevelFails`, `RegexLevelKeeps`, `RegexLevelCommits` and `RegexLevelBackfills` state its properties |
| AddressParseJs.RegexLevelCommits | app/lib/address-parse.js:145-265 | When a block acts, its array holds the sole candidate of the longest reached prefix with one candidate. That prefix leaves the fragment; at province and city level every later occurrence goes too. |
| AddressParseJs.RegexLevelBackfills | app/lib/address-parse.js:171-265 | Every ancestor array a block fills was empty and now holds a dump record matching the committed record's codes |
| AddressParseJs.RegexStepKeeps | app/lib/address-parse.js:136-280 | A step that returns keeps filled arrays and the one-entry shape, and adds at most one non-empty detail entry no longer than the token |
| AddressParseJs.RegexRouteSpec | app/lib/address-parse.js:64-80 | Type 0 routing keeps filled arrays and the one-entry shape, so no `undefined` reaches the result |
| AddressParseJs.LongestPrefixOf | app/lib/address-parse.js:299-305 | The inner loop finds the specified longest prefix |
| AddressParseJs.LongestPrefixSpec | app/lib/address-parse.js:299-305 | `replaceName` is "" exactly when no prefix of two or more characters of the name starts the fragment, and otherwise the longest one that does |
| AddressParseJs.LongestFromSpec | app/lib/address-parse.js:299-305 | The same, for the loop counted down from length `i` |
| AddressParseJs.FindFit | app/lib/address-parse.js:292-311 | The table loop finds the specified first fitting record |
| AddressParseJs.FirstFitSpec | app/lib/address-parse.js:292-311 | The table loop stops at the first record, in table order, that is in scope and has a prefix starting the fragment, and at none if there is none |
| AddressParseJs.FindCodeSpec | app/lib/address-parse.js:313-446 | `find` by code returns the first record with the code, and `undefined` when none has it |
| AddressParseJs.ProvinceByTree | app/lib/address-parse.js:292-312 | The province loop gives the specified arrays and fragment |
| AddressParseJs.CityByTree | app/lib/address-parse.js:313-353 | The city loop gives the specified arrays and fragment |
| AddressParseJs.AreaByTree | app/lib/address-parse.js:355-397 | The area loop gives the specified arrays and fragment |
| AddressParseJs.StreetByTree | app/lib/address-parse.js:399-446 | The street loop gives the specified arrays and fragment |
| AddressParseJs.ParseRegion | app/lib/address-parse.js:288-459 | `parseRegion` gives the specified step |
| AddressParseJs.TreeLevel | app/lib/address-parse.js:292-446 | One loop of the type 1 parser. No contract of its own: `TreeLevelFound`, `TreeLevelKeeps` and `TreeLevelAncestors` state its properties |
| AddressParseJs.TreeLevelFound | app/lib/address-parse.js:292-446 | A loop that finds a record pushes it and takes its `replaceName` off the front of the fragment. Every later occurrence goes too for a province, or for a city under a province. A loop that finds none changes nothing. |
| AddressParseJs.TreeLevelKeeps | app/lib/address-parse.js:292-446 | A loop only appends, grows each array by at most one entry, leaves arrays below its level and arrays with a head alone, and never lengthens the fragment |
| AddressParseJs.TreeLevelAncestors | app/lib/address-parse.js:313-446 | An ancestor array without a head gets the record `find` returns for the code the found record names, or `undefined`. For a street found with no ancestor, the area is searched in the street table. |
| AddressParseJs.TreeStreetWithoutArea | app/lib/address-parse.js:430-437 | A street found with nothing above it loses its area whenever no street record carries the area's code |
| AddressParseJs.TreeStep | app/lib/address-parse.js:288-459 | The type 1 parser on one fragment. No contract of its own: `TreeStepKeeps` and `TreeStreetWithoutArea` state its properties |
| AddressParseJs.TreeStepKeeps | app/lib/address-parse.js:288-459 | Province and city heads are kept, and the street array comes back empty. The area and street arrays passed in make no difference. At most one non-empty detail entry is added. |
| AddressParseJs.TreeRouteParsesAll | app/lib/address-parse.js:64-80 | Type 1 never has a street head, so every token goes through `parseRegion` |
| AddressParseJs.JsParseResult.constructor | app/lib/address-parse.js:34-42 | The result starts with empty arrays, an empty detail and empty fields |
| AddressParseJs.JsParseResult.RouteTokens | app/lib/address-parse.js:64-80 | The `forEach` loop leaves the arrays and the detail of the routing specification, or stops with its exception, and changes no other field |
| AddressParseJs.ParseToken | app/lib/address-parse.js:65-72 | Each token goes to the mode's parser, or gives `{}` |
| AddressParseJs.PrependStep | app/lib/address-parse.js:64-80 | Routing is one step, or its exception, followed by the rest. It is the same fact as `ZhAddressParser.PrependStep`, for the JavaScript routing |
| AddressParseJs.RouteFailsOnlyByRegexp | app/lib/address-parse.js:64-80 | Only type 0 throws |
| AddressParseJs.OtherTypeDropsTokens | app/lib/address-parse.js:65-72 | Any other type drops every token: no region and no detail |
| AddressParseJs.ExtractJs | app/lib/address-parse.js:43-54 | Cleaning with `textFilter`, then the phone and the postal code, each taken out once, give the specified fields and text |
| AddressParseJs.PickJsSpec | app/lib/address-parse.js:94-113 | The name step finds nothing and changes nothing, or sets a CJK name that was an entry and splices out exactly its first occurrence |
| AddressParseJs.JsFlatSpec | app/lib/address-parse.js:117-127 | An array without a head gives "" for its code and name, and one with a head gives its record's. The detail is joined with "". Name, phone and postal code are the record's. |
| AddressParseJs.AssembleJs | app/lib/address-parse.js:58-127 | Routing, the name and the result object give the specified result or exception |
| AddressParseJs.AddressParseSpec | app/lib/address-parse.js:27-128 | `AddressParse` as a function. No contract of its own: `AddressParseOutcome` states its properties |
| AddressParseJs.AddressParse | app/lib/address-parse.js:27-128 | `AddressParse` returns the specified result, `{}` or exception |
| AddressParseJs.AddressParseOutcome | app/lib/address-parse.js:27-128 | It returns `{}` exactly for "". Only type 0 throws. Any type other than 0 and 1 gives only the phone and the postal code. |

## Left out

- The model follows the code in these places:
  - Both Java engines turn every occurrence of the phone and of the postal code into a space. JavaScript turns only the first.
  - Java `filterPhone` throws when its third rewrite matches.
  - The JavaScript type 0 parser can throw.
  - The current engine's municipality query is an unscoped prefix lookup by the province name, not an exact lookup under the province.
- Database, files and JSON:
  - `SqliteUtil` I/O and the fastjson resource loading are left out. The table and the dumps are parameters, as sequences in stored order; the prefix query returns rows in table order, and `LIKE` wildcards and case folding are not modelled.
  - A null `parentCode` is "".
  - The JSON dump records are assumed to hold their keys in the order the patterns expect.
- Text operations:
  - Regular-expression metacharacters in the text spliced into patterns (fragments, JavaScript `textFilter` entries) are assumed absent, so every such pattern acts as a literal.
  - Strings are sequences of Unicode scalar values. Text outside the Basic Multilingual Plane, where Java `length()`/`substring` and JavaScript `.length` count two units for one character, is not modelled. CJK means U+4E00 to U+9FA5.
  - The fourth phone rewrite, `(\d{4})` to `$1`, is the identity and is not modelled.
  - The blank characters of Hutool's `StrUtil` are taken from its documentation. Hutool is not part of this model.
- The surname list `ZH_NAME` / `zhCnNames` is a parameter, read as the set of its characters.
- `log.info`, `console.log`, `Date` timing, the HTTP server and the logger module are I/O and are not modelled.
- `AddressParse` with a falsy value that is not a string (`null`, `undefined`) is not modelled: the address is a string, and "" gives `{}`.
- The option defaults of `AddressParse` are not modelled. `type`, `textFilter` and `nameMaxLength` are parameters.
- The legacy `parse` returns its initial JSON object for a blank address. The model gives the flat result of that object, all fields "".
- The JavaScript `streets.find` lookup of an area, for a street found with no ancestor, is modelled as written.
- The JavaScript type 1 result leaves out the street, as the code does.
- AddressParseJs.RegexStepKeeps: bounds each detail entry by the token's length rather than calling it a suffix, because the province and city blocks also delete later occurrences of the matched prefix.
