/** The string operations of the Java and JavaScript libraries that the address
    parsers use, on strings as sequences of Unicode scalar values (every
    character the parsers care about, CJK U+4E00..U+9FA5 included, is in the
    Basic Multilingual Plane). Patterns are
    literal text: the parsers splice fragments into regular expressions, and the
    model assumes those fragments hold no regular-expression metacharacters. */
module Text {

  // ---------------------------------------------------------------------------
  // Character classes
  // ---------------------------------------------------------------------------

  /** `[一-龥]`, the CJK class of every engine. */
  predicate IsCjk(c: char) { '\U{4E00}' <= c <= '\U{9FA5}' }

  /** `\d` and `[0-9]`; neither Java nor JavaScript widens them without a flag. */
  predicate IsDigit(c: char) { '0' <= c <= '9' }

  /** `PATTERN_NAME.matcher(s).find()` and `/[一-龥]/.test(s)`. */
  predicate HasCjk(s: string) { exists i | 0 <= i < |s| :: IsCjk(s[i]) }

  predicate AllCjk(s: string) { forall i | 0 <= i < |s| :: IsCjk(s[i]) }

  predicate AllDigits(s: string) { forall i | 0 <= i < |s| :: IsDigit(s[i]) }

  predicate HasDigit(s: string) { exists i | 0 <= i < |s| :: IsDigit(s[i]) }

  /** No character of `s` is in `cls`. */
  predicate NoneIn(s: string, cls: set<char>) { forall i | 0 <= i < |s| :: s[i] !in cls }

  // ---------------------------------------------------------------------------
  // Searching
  // ---------------------------------------------------------------------------

  /** `s.startsWith(p)`, also `s.indexOf(p) === 0`. */
  predicate StartsWith(s: string, p: string) { |p| <= |s| && s[..|p|] == p }

  /** `s.contains(p)`, `s.indexOf(p) != -1`: some suffix of `s` starts with `p`. */
  predicate Contains(s: string, p: string)
    decreases |s|
  {
    StartsWith(s, p) || (|s| > 0 && Contains(s[1..], p))
  }

  // ---------------------------------------------------------------------------
  // Rewriting
  // ---------------------------------------------------------------------------

  /** `s.replace(p, r)` in Java (every occurrence, scanned left to right, matches
      never overlapping) and `s.replace(new RegExp(p, 'g'), r)` in JavaScript.
      The empty pattern matches before every character and at the end. */
  function ReplaceAll(s: string, p: string, r: string): string
    decreases |s|
  {
    if p == [] then r + (if s == [] then [] else [s[0]] + ReplaceAll(s[1..], p, r))
    else if StartsWith(s, p) then r + ReplaceAll(s[|p|..], p, r)
    else if s == [] then []
    else [s[0]] + ReplaceAll(s[1..], p, r)
  }

  /** `s.replaceFirst(p, r)` in Java and `s.replace(p, r)` with a string pattern in
      JavaScript: only the leftmost occurrence is replaced. */
  function ReplaceFirst(s: string, p: string, r: string): string
    decreases |s|
  {
    if StartsWith(s, p) then r + s[|p|..]
    else if s == [] then []
    else [s[0]] + ReplaceFirst(s[1..], p, r)
  }

  /** `s.replaceAll("[...]", " ")`: every character of the class becomes a space. */
  function ReplaceChars(s: string, cls: set<char>): string
    decreases |s|
  {
    if s == [] then [] else [if s[0] in cls then ' ' else s[0]] + ReplaceChars(s[1..], cls)
  }

  /** `s` without its leading spaces. */
  function DropSpaces(s: string): (r: string)
    ensures |r| <= |s| && r == s[|s| - |r|..]
    ensures r == [] || r[0] != ' '
    ensures s != [] && s[0] == ' ' ==> |r| < |s|
    ensures forall i | 0 <= i < |s| - |r| :: s[i] == ' '
    decreases |s|
  {
    if s != [] && s[0] == ' ' then
      var r := DropSpaces(s[1..]);
      assert forall i | 1 <= i < |s| - |r| :: s[i] == s[1..][i - 1];
      assert s[|s| - |r|..] == s[1..][|s| - 1 - |r|..];
      r
    else s
  }

  /** `s.replaceAll(" {2,}", " ")`: every run of two or more spaces becomes one. */
  function CollapseSpaces(s: string): string
    decreases |s|
  {
    if |s| >= 2 && s[0] == ' ' && s[1] == ' ' then " " + CollapseSpaces(DropSpaces(s))
    else if s == [] then []
    else [s[0]] + CollapseSpaces(s[1..])
  }

  // ---------------------------------------------------------------------------
  // Trimming
  // ---------------------------------------------------------------------------

  /** `s` without its leading characters from `ws`. */
  function StripStart(s: string, ws: set<char>): (r: string)
    ensures |r| <= |s| && r == s[|s| - |r|..]
    ensures r == [] || r[0] !in ws
    ensures forall i | 0 <= i < |s| - |r| :: s[i] in ws
    decreases |s|
  {
    if s != [] && s[0] in ws then StripStart(s[1..], ws) else s
  }

  /** `s` without its trailing characters from `ws`. */
  function StripEnd(s: string, ws: set<char>): (r: string)
    ensures |r| <= |s| && r == s[..|r|]
    ensures r == [] || r[|r| - 1] !in ws
    ensures forall i | |r| <= i < |s| :: s[i] in ws
    decreases |s|
  {
    if s != [] && s[|s| - 1] in ws then StripEnd(s[..|s| - 1], ws) else s
  }

  /** A `trim` whose white-space characters are `ws`. */
  function Strip(s: string, ws: set<char>): string
  {
    StripEnd(StripStart(s, ws), ws)
  }

  // ---------------------------------------------------------------------------
  // Splitting and joining
  // ---------------------------------------------------------------------------

  /** `s.split(' ')` in JavaScript: the pieces between single spaces, empty ones kept. */
  function Split(s: string): (r: seq<string>)
    ensures |r| > 0
    decreases |s|
  {
    if s == [] then [""]
    else if s[0] == ' ' then [""] + Split(s[1..])
    else var t := Split(s[1..]); [[s[0]] + t[0]] + t[1..]
  }

  /** The pieces joined back with one space between neighbours. */
  function JoinSpaced(pieces: seq<string>): string
  {
    if pieces == [] then "" else if |pieces| == 1 then pieces[0]
    else pieces[0] + " " + JoinSpaced(pieces[1..])
  }

  /** `Collectors.joining("")` and `join('')`: plain concatenation. */
  function Concat(pieces: seq<string>): string
  {
    if pieces == [] then "" else pieces[0] + Concat(pieces[1..])
  }

  /** `list.remove(x)` and `splice(findIndex(item => item === x), 1)`: the first
      element equal to `x` is removed; a list without `x` is unchanged. */
  function RemoveFirst(s: seq<string>, x: string): (r: seq<string>)
  {
    if s == [] then [] else if s[0] == x then s[1..] else [s[0]] + RemoveFirst(s[1..], x)
  }

  // ---------------------------------------------------------------------------
  // Lemmas
  // ---------------------------------------------------------------------------

  lemma {:induction false} ContainsSuffix(s: string, k: nat, q: string)
    requires k <= |s|
    requires Contains(s[k..], q)
    ensures Contains(s, q)
    decreases k
  {
    if k > 0 {
      assert s[1..][k - 1..] == s[k..];
      ContainsSuffix(s[1..], k - 1, q);
    }
  }

  lemma {:induction false} ContainsAt(s: string, k: nat, q: string)
    requires k + |q| <= |s| && s[k..k + |q|] == q
    ensures Contains(s, q)
  {
    assert StartsWith(s[k..], q);
    ContainsSuffix(s, k, q);
  }

  /** An occurrence found by `Contains` sits at some index. */
  lemma {:induction false} ContainsIndex(s: string, q: string) returns (k: nat)
    requires Contains(s, q)
    ensures k + |q| <= |s| && s[k..k + |q|] == q
    decreases |s|
  {
    if StartsWith(s, q) {
      k := 0;
    } else {
      var j := ContainsIndex(s[1..], q);
      assert s[1..][j..j + |q|] == s[j + 1..j + 1 + |q|];
      k := j + 1;
    }
  }

  /** A single-character string occurs exactly when the character does. */
  lemma {:induction false} ContainsChar(s: string, c: char)
    ensures Contains(s, [c]) <==> c in s
    decreases |s|
  {
    if s != [] {
      ContainsChar(s[1..], c);
      assert s == [s[0]] + s[1..];
    }
  }

  /** Removing text that is not there changes nothing. */
  lemma {:induction false} ReplaceAllAbsent(s: string, p: string, r: string)
    requires p != [] && !Contains(s, p)
    ensures ReplaceAll(s, p, r) == s
    decreases |s|
  {
    if s != [] {
      ReplaceAllAbsent(s[1..], p, r);
    }
  }

  lemma StartsWithCons(s: string, w: string)
    requires s != [] && w != [] && s[0] == w[0] && StartsWith(s[1..], w[1..])
    ensures StartsWith(s, w)
  {
    assert s[..|w|] == [s[0]] + s[1..][..|w| - 1];
  }

  /** A space-free prefix of `ReplaceAll(s, p, " ")` was already a prefix of `s`:
      the inserted spaces cannot be part of it. */
  lemma {:induction false} ReplaceAllSpacePrefix(s: string, p: string, w: string)
    requires p != [] && ' ' !in w
    requires StartsWith(ReplaceAll(s, p, " "), w)
    ensures StartsWith(s, w)
    decreases |s|
  {
    if w != [] {
      assert w[0] in w;
      var full := ReplaceAll(s, p, " ");
      assert full[0] == w[0];
      if s != [] && !StartsWith(s, p) {
        var t := ReplaceAll(s[1..], p, " ");
        assert full == [s[0]] + t;
        assert StartsWith(t, w[1..]);
        ReplaceAllSpacePrefix(s[1..], p, w[1..]);
        StartsWithCons(s, w);
      }
    }
  }

  /** Replacing a space-free pattern by a space leaves no occurrence of it, and
      creates no occurrence of any other space-free text. */
  lemma {:induction false} ReplaceAllNoNew(s: string, p: string, q: string)
    requires p != [] && q != [] && ' ' !in q
    requires q == p || !Contains(s, q)
    ensures !Contains(ReplaceAll(s, p, " "), q)
    decreases |s|
  {
    var t := ReplaceAll(s, p, " ");
    if s == [] {
    } else if StartsWith(s, p) {
      var rest := s[|p|..];
      assert t == " " + ReplaceAll(rest, p, " ");
      if q != p && Contains(rest, q) {
        ContainsSuffix(s, |p|, q);
      }
      ReplaceAllNoNew(rest, p, q);
      assert t[1..] == ReplaceAll(rest, p, " ");
      assert !StartsWith(t, q) by { assert q[0] != ' '; }
    } else {
      var u := ReplaceAll(s[1..], p, " ");
      assert t == [s[0]] + u;
      ReplaceAllNoNew(s[1..], p, q);
      assert t[1..] == u;
      if StartsWith(t, q) {
        assert StartsWith(u, q[1..]);
        ReplaceAllSpacePrefix(s[1..], p, q[1..]);
        StartsWithCons(s, q);
      }
    }
  }

  /** A space-free prefix of `ReplaceChars(s, cls)` was a prefix of `s`. */
  lemma {:induction false} ReplaceCharsPrefix(s: string, cls: set<char>, w: string)
    requires ' ' !in w
    requires StartsWith(ReplaceChars(s, cls), w)
    ensures StartsWith(s, w)
    decreases |s|
  {
    if w != [] {
      assert w[0] in w;
      assert ReplaceChars(s, cls)[1..] == ReplaceChars(s[1..], cls);
      ReplaceCharsPrefix(s[1..], cls, w[1..]);
      StartsWithCons(s, w);
    }
  }

  /** Blanking characters creates no occurrence of space-free text. */
  lemma {:induction false} ReplaceCharsNoNew(s: string, cls: set<char>, q: string)
    requires ' ' !in q && !Contains(s, q)
    ensures !Contains(ReplaceChars(s, cls), q)
    decreases |s|
  {
    var t := ReplaceChars(s, cls);
    if StartsWith(t, q) {
      ReplaceCharsPrefix(s, cls, q);
    }
    if s != [] {
      ReplaceCharsNoNew(s[1..], cls, q);
      assert t[1..] == ReplaceChars(s[1..], cls);
    }
  }

  /** After blanking, no character of the class is left (a space is not in it). */
  lemma {:induction false} ReplaceCharsClears(s: string, cls: set<char>)
    requires ' ' !in cls
    ensures NoneIn(ReplaceChars(s, cls), cls)
    ensures |ReplaceChars(s, cls)| == |s|
    decreases |s|
  {
    if s != [] {
      ReplaceCharsClears(s[1..], cls);
    }
  }

  /** Blanking a string that has no character of the class changes nothing. */
  lemma {:induction false} ReplaceCharsAbsent(s: string, cls: set<char>)
    requires NoneIn(s, cls)
    ensures ReplaceChars(s, cls) == s
    decreases |s|
  {
    if s != [] {
      ReplaceCharsAbsent(s[1..], cls);
    }
  }

  lemma {:induction false} CollapseHead(s: string)
    requires s != []
    ensures CollapseSpaces(s) != [] && CollapseSpaces(s)[0] == s[0]
  {
  }

  /** The output of `CollapseSpaces` never holds two spaces in a row. */
  lemma {:induction false} CollapseNoDoubleSpace(s: string)
    ensures !Contains(CollapseSpaces(s), "  ")
    decreases |s|
  {
    var t := CollapseSpaces(s);
    if |s| >= 2 && s[0] == ' ' && s[1] == ' ' {
      var u := DropSpaces(s);
      CollapseNoDoubleSpace(u);
      assert t[1..] == CollapseSpaces(u);
      if u != [] { CollapseHead(u); assert t[..2] == [t[0], t[1]]; }
    } else if s != [] {
      CollapseNoDoubleSpace(s[1..]);
      assert t[1..] == CollapseSpaces(s[1..]);
      if |s| >= 2 { CollapseHead(s[1..]); assert t[..2] == [t[0], t[1]]; }
    }
  }

  /** A space-free prefix of `CollapseSpaces(s)` was a prefix of `s`. */
  lemma {:induction false} CollapsePrefix(s: string, w: string)
    requires ' ' !in w
    requires StartsWith(CollapseSpaces(s), w)
    ensures StartsWith(s, w)
    decreases |s|
  {
    if w != [] {
      assert w[0] in w;
      var full := CollapseSpaces(s);
      assert full[0] == w[0];
      if !(|s| >= 2 && s[0] == ' ' && s[1] == ' ') && s != [] {
        assert full[1..] == CollapseSpaces(s[1..]);
        CollapsePrefix(s[1..], w[1..]);
        StartsWithCons(s, w);
      }
    }
  }

  /** Collapsing spaces creates no occurrence of space-free text. */
  lemma {:induction false} CollapseNoNew(s: string, q: string)
    requires q != [] && ' ' !in q && !Contains(s, q)
    ensures !Contains(CollapseSpaces(s), q)
    decreases |s|
  {
    var t := CollapseSpaces(s);
    if StartsWith(t, q) {
      CollapsePrefix(s, q);
    }
    if |s| >= 2 && s[0] == ' ' && s[1] == ' ' {
      var u := DropSpaces(s);
      if Contains(u, q) { ContainsSuffix(s, |s| - |u|, q); }
      CollapseNoNew(u, q);
      assert t[1..] == CollapseSpaces(u);
    } else if s != [] {
      CollapseNoNew(s[1..], q);
      assert t[1..] == CollapseSpaces(s[1..]);
    }
  }

  /** Collapsing adds no character other than a space. */
  lemma {:induction false} CollapseKeepsNoneIn(s: string, cls: set<char>)
    requires ' ' !in cls && NoneIn(s, cls)
    ensures NoneIn(CollapseSpaces(s), cls)
    decreases |s|
  {
    if |s| >= 2 && s[0] == ' ' && s[1] == ' ' {
      CollapseKeepsNoneIn(DropSpaces(s), cls);
    } else if s != [] {
      CollapseKeepsNoneIn(s[1..], cls);
    }
  }

  /** Text without a double space is left as it is. */
  lemma {:induction false} CollapseAbsent(s: string)
    requires !Contains(s, "  ")
    ensures CollapseSpaces(s) == s
    decreases |s|
  {
    if s != [] {
      CollapseAbsent(s[1..]);
    }
  }

  /** Replacing a pattern that does not hold `c` keeps every `c`. */
  lemma {:induction false} ReplaceAllKeepsChar(s: string, p: string, r: string, c: char)
    requires p != [] && c !in p && c in s
    ensures c in ReplaceAll(s, p, r)
    decreases |s|
  {
    if StartsWith(s, p) {
      var i :| 0 <= i < |s| && s[i] == c;
      assert s[|p|..][i - |p|] == c;
      ReplaceAllKeepsChar(s[|p|..], p, r, c);
    } else if s[0] != c {
      assert c in s[1..];
      ReplaceAllKeepsChar(s[1..], p, r, c);
    }
  }

  /** Blanking a class that does not hold `c` keeps every `c`. */
  lemma {:induction false} ReplaceCharsKeepsChar(s: string, cls: set<char>, c: char)
    requires c !in cls && c in s
    ensures c in ReplaceChars(s, cls)
    decreases |s|
  {
    if s[0] != c {
      assert c in s[1..];
      ReplaceCharsKeepsChar(s[1..], cls, c);
    }
  }

  /** Collapsing spaces keeps every character other than a space. */
  lemma {:induction false} CollapseKeepsChar(s: string, c: char)
    requires c != ' ' && c in s
    ensures c in CollapseSpaces(s)
    decreases |s|
  {
    if |s| >= 2 && s[0] == ' ' && s[1] == ' ' {
      var u := DropSpaces(s);
      var i :| 0 <= i < |s| && s[i] == c;
      assert u[i - (|s| - |u|)] == c;
      CollapseKeepsChar(u, c);
    } else if s[0] != c {
      assert c in s[1..];
      CollapseKeepsChar(s[1..], c);
    }
  }

  /** The stripped string is the slice of `s` between its first and its last
      character outside `ws`; everything around the slice is in `ws`. */
  lemma StripSlice(s: string, ws: set<char>) returns (lo: nat, hi: nat)
    ensures lo <= hi <= |s| && Strip(s, ws) == s[lo..hi]
    ensures forall i | 0 <= i < lo :: s[i] in ws
    ensures forall i | hi <= i < |s| :: s[i] in ws
    ensures lo < hi ==> s[lo] !in ws && s[hi - 1] !in ws
  {
    var t := StripStart(s, ws);
    var u := StripEnd(t, ws);
    lo := |s| - |t|;
    hi := lo + |u|;
    assert u == t[..|u|];
    assert t == s[lo..];
    assert s[lo..hi] == t[..|u|];
    if lo < hi {
      assert s[lo] == t[0] == u[0];
      assert s[hi - 1] == u[|u| - 1];
    }
    forall i | hi <= i < |s| ensures s[i] in ws {
      assert s[i] == t[i - lo];
    }
  }

  /** A stripped string that is not empty neither starts nor ends with a
      white character. */
  lemma StrippedEnds(s: string, ws: set<char>)
    requires Strip(s, ws) != []
    ensures Strip(s, ws)[0] !in ws && Strip(s, ws)[|Strip(s, ws)| - 1] !in ws
  {
    var lo, hi := StripSlice(s, ws);
  }

  /** Stripping twice is stripping once. */
  lemma StripIdempotent(s: string, ws: set<char>)
    ensures Strip(Strip(s, ws), ws) == Strip(s, ws)
  {
    var t := Strip(s, ws);
    if t != [] {
      var lo, hi := StripSlice(s, ws);
      assert t[0] == s[lo] && t[|t| - 1] == s[hi - 1];
      assert StripStart(t, ws) == t;
      assert StripEnd(t, ws) == t;
    }
  }

  /** The stripped string is empty exactly when every character is white. */
  lemma StripEmpty(s: string, ws: set<char>)
    ensures Strip(s, ws) == [] <==> forall i | 0 <= i < |s| :: s[i] in ws
  {
    var lo, hi := StripSlice(s, ws);
  }

  /** Stripping keeps every character of a string that does not start or end
      with a white one. */
  lemma StripNoOp(s: string, ws: set<char>)
    requires s == [] || (s[0] !in ws && s[|s| - 1] !in ws)
    ensures Strip(s, ws) == s
  {
  }

  /** Stripping only removes characters: a character outside `ws` survives and
      nothing is added. */
  lemma StripKeeps(s: string, ws: set<char>)
    ensures forall c | c in Strip(s, ws) :: c in s
    ensures forall c | c in s && c !in ws :: c in Strip(s, ws)
  {
    var lo, hi := StripSlice(s, ws);
    forall c | c in s && c !in ws ensures c in Strip(s, ws) {
      var i :| 0 <= i < |s| && s[i] == c;
      assert s[lo..hi][i - lo] == c;
    }
  }

  /** `Split` and `JoinSpaced` are inverse: the pieces are separated by exactly one
      space each, and no piece holds a space. */
  lemma {:induction false} SplitJoin(s: string)
    ensures JoinSpaced(Split(s)) == s
    ensures forall k | 0 <= k < |Split(s)| :: ' ' !in Split(s)[k]
    decreases |s|
  {
    if s != [] {
      var t := Split(s[1..]);
      SplitJoin(s[1..]);
      if s[0] == ' ' {
        assert Split(s) == [""] + t;
        assert JoinSpaced(Split(s)) == "" + " " + JoinSpaced(t);
      } else {
        var r := Split(s);
        assert r == [[s[0]] + t[0]] + t[1..];
        assert r[1..] == t[1..];
        if |t| == 1 {
          assert JoinSpaced(r) == [s[0]] + t[0];
        } else {
          assert JoinSpaced(t) == t[0] + " " + JoinSpaced(t[1..]);
          assert JoinSpaced(r) == ([s[0]] + t[0]) + " " + JoinSpaced(t[1..]);
        }
        forall k | 0 <= k < |r| ensures ' ' !in r[k] {
          if k > 0 { assert r[k] == t[k]; }
        }
      }
    }
  }

  /** Deleting every occurrence of a non-empty pattern never lengthens a string. */
  lemma {:induction false} ReplaceAllDeletes(s: string, p: string)
    requires p != []
    ensures |ReplaceAll(s, p, "")| <= |s|
    decreases |s|
  {
    if StartsWith(s, p) {
      ReplaceAllDeletes(s[|p|..], p);
    } else if s != [] {
      ReplaceAllDeletes(s[1..], p);
    }
  }

  /** Deleting the first occurrence of a pattern never lengthens a string, and
      deleting a leading occurrence leaves the rest of the string. */
  lemma {:induction false} ReplaceFirstDeletes(s: string, p: string)
    ensures |ReplaceFirst(s, p, "")| <= |s|
    ensures StartsWith(s, p) ==> ReplaceFirst(s, p, "") == s[|p|..]
    decreases |s|
  {
    if !StartsWith(s, p) && s != [] {
      ReplaceFirstDeletes(s[1..], p);
    }
  }

  /** `RemoveFirst` takes out exactly one copy of an element that is present and
      keeps the order of the others: the result is the list with the first
      occurrence cut out. */
  lemma {:induction false} RemoveFirstCuts(s: seq<string>, x: string) returns (k: nat)
    requires x in s
    ensures k < |s| && s[k] == x && x !in s[..k]
    ensures RemoveFirst(s, x) == s[..k] + s[k + 1..]
    ensures multiset(RemoveFirst(s, x)) + multiset{x} == multiset(s)
  {
    k := RemoveFirstAt(s, x);
    CutMultiset(s, k);
  }

  lemma {:induction false} RemoveFirstAt(s: seq<string>, x: string) returns (k: nat)
    requires x in s
    ensures k < |s| && s[k] == x && x !in s[..k]
    ensures RemoveFirst(s, x) == s[..k] + s[k + 1..]
  {
    if s[0] == x {
      k := 0;
    } else {
      var j := RemoveFirstAt(s[1..], x);
      k := j + 1;
      assert s[..k] == [s[0]] + s[1..][..j];
      assert s[k + 1..] == s[1..][j + 1..];
    }
  }

  /** Cutting out the element at `k` takes one copy of it out of the multiset. */
  lemma CutMultiset<T>(s: seq<T>, k: nat)
    requires k < |s|
    ensures multiset(s[..k] + s[k + 1..]) + multiset{s[k]} == multiset(s)
  {
    assert s == s[..k] + [s[k]] + s[k + 1..];
  }

  /** A pattern occurs only where its first character does. */
  lemma ContainsFirst(s: string, q: string)
    requires q != []
    ensures Contains(s, q) ==> q[0] in s
  {
    if Contains(s, q) {
      var k := ContainsIndex(s, q);
      assert s[k..k + |q|][0] == s[k];
    }
  }

  /** A prefix that holds no first character of the pattern passes the
      replacement unchanged. */
  lemma {:induction false} ReplaceAllSkips(w: string, t: string, p: string, r: string)
    requires p != [] && p[0] !in w
    ensures ReplaceAll(w + t, p, r) == w + ReplaceAll(t, p, r)
    decreases |w|
  {
    if w != [] {
      var s := w + t;
      assert s[0] == w[0];
      if |p| <= |s| { assert s[..|p|][0] == s[0]; }
      assert !StartsWith(s, p);
      assert s[1..] == w[1..] + t;
      ReplaceAllSkips(w[1..], t, p, r);
      assert ReplaceAll(s, p, r) == [w[0]] + (w[1..] + ReplaceAll(t, p, r));
      assert w == [w[0]] + w[1..];
    } else {
      assert w + t == t;
    }
  }

  /** The character class is blanked piece by piece. */
  lemma {:induction false} ReplaceCharsConcat(a: string, b: string, cls: set<char>)
    ensures ReplaceChars(a + b, cls) == ReplaceChars(a, cls) + ReplaceChars(b, cls)
    decreases |a|
  {
    if a != [] {
      assert (a + b)[0] == a[0];
      assert (a + b)[1..] == a[1..] + b;
      ReplaceCharsConcat(a[1..], b, cls);
      assert ReplaceChars(a, cls) == [if a[0] in cls then ' ' else a[0]] + ReplaceChars(a[1..], cls);
    } else {
      assert a + b == b;
    }
  }

  /** One character of the class between two stretches without any becomes
      the one space of the result. */
  lemma ReplaceCharsOne(a: string, c: char, b: string, cls: set<char>)
    requires c in cls && NoneIn(a, cls) && NoneIn(b, cls)
    ensures ReplaceChars(a + [c] + b, cls) == a + " " + b
  {
    var t := [c] + b;
    assert t[0] == c && t[1..] == b;
    ReplaceCharsAbsent(b, cls);
    assert ReplaceChars(t, cls) == " " + b;
    ReplaceCharsAbsent(a, cls);
    ReplaceCharsConcat(a, t, cls);
    assert a + [c] + b == a + t;
  }

  /** A word without spaces followed by a space is the first piece of the split. */
  lemma {:induction false} SplitWord(a: string, b: string)
    requires ' ' !in a
    ensures Split(a + " " + b) == [a] + Split(b)
    decreases |a|
  {
    if a == [] {
      assert a + " " + b == " " + b;
    } else {
      var s := a + " " + b;
      assert s[0] == a[0] && a[0] != ' ';
      assert s[1..] == a[1..] + " " + b;
      SplitWord(a[1..], b);
      var t := Split(s[1..]);
      assert t == [a[1..]] + Split(b);
      assert Split(s) == [[s[0]] + t[0]] + t[1..];
      assert [s[0]] + t[0] == a;
    }
  }

  /** No two neighbouring characters are both spaces. */
  predicate NoDoubleSpace(s: string)
  {
    forall k | 0 <= k < |s| - 1 :: !(s[k] == ' ' && s[k + 1] == ' ')
  }

  /** An occurrence of two spaces is a pair of neighbouring spaces. */
  lemma DoubleSpaceAt(s: string)
    ensures Contains(s, "  ") ==> exists k | 0 <= k < |s| - 1 :: s[k] == ' ' && s[k + 1] == ' '
  {
    if Contains(s, "  ") {
      var k := ContainsIndex(s, "  ");
      assert s[k..k + 2][0] == s[k] && s[k..k + 2][1] == s[k + 1];
    }
  }

  /** Text without two neighbouring spaces is left as it is by the collapse. */
  lemma NoDoubleSpaceCollapse(s: string)
    requires NoDoubleSpace(s)
    ensures CollapseSpaces(s) == s
  {
    DoubleSpaceAt(s);
    CollapseAbsent(s);
  }

  /** A word without spaces followed by two spaces splits into the word and
      two empty pieces. */
  lemma SplitTail(d: string)
    requires ' ' !in d
    ensures Split(d + "  ") == [d, "", ""]
  {
    SplitWord("", "");
    assert "" + " " + "" == " ";
    SplitWord(d, " ");
    assert d + " " + " " == d + "  ";
  }

  /** Four words without spaces, then two spaces, split into the four words
      and two empty pieces. */
  lemma SplitShape(a: string, b: string, c: string, d: string)
    requires ' ' !in a && ' ' !in b && ' ' !in c && ' ' !in d
    ensures Split(a + " " + b + " " + c + " " + d + "  ") == [a, b, c, d, "", ""]
  {
    var s4 := d + "  ";
    var s3 := c + " " + s4;
    var s2 := b + " " + s3;
    SplitTail(d);
    SplitWord(c, s4);
    SplitWord(b, s3);
    SplitWord(a, s2);
    assert a + " " + b + " " + c + " " + d + "  " == a + " " + s2;
  }
}
