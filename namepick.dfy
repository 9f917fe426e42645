/** Choosing the recipient's name among the detail fragments, shared by the
    three engines: a copy of the fragments is sorted by length with a stable
    sort, the first fragment the name test accepts wins, and otherwise the
    shortest fragment is taken when it is short and holds a CJK character. */
module NamePick {
  import opened Wrappers
  import opened Text
  import opened Extract

  // ---------------------------------------------------------------------------
  // Stable sort by length
  // ---------------------------------------------------------------------------

  /** Insertion into a list sorted by length: `x` goes before the first element
      that is at least as long, so it stays ahead of equally long elements
      that came after it. */
  function Insert(x: string, t: seq<string>): (r: seq<string>)
    ensures |r| == |t| + 1
  {
    if t == [] || |x| <= |t[0]| then [x] + t else [t[0]] + Insert(x, t[1..])
  }

  /** `List.sort` and `Array.prototype.sort` with the comparator
      `a.length - b.length`; both sorts are stable. */
  function SortByLength(s: seq<string>): (r: seq<string>)
    ensures |r| == |s|
  {
    if s == [] then [] else Insert(s[0], SortByLength(s[1..]))
  }

  predicate SortedByLength(s: seq<string>)
  {
    forall i, j | 0 <= i < j < |s| :: |s[i]| <= |s[j]|
  }

  // ---------------------------------------------------------------------------
  // The choice
  // ---------------------------------------------------------------------------

  /** The name test at the configured length and surname list. */
  predicate Accepted(x: string, maxLength: int, surnames: string)
  {
    JudgeFragmentIsName(x, maxLength, surnames, TrimBlank) != ""
  }

  /** The name test as a value, so that the list lemmas below hold for any
      test. */
  function NameTest(maxLength: int, surnames: string): string -> bool
  {
    x => Accepted(x, maxLength, surnames)
  }

  /** The first element of `s` the test `p` accepts. */
  function FirstAccepted(s: seq<string>, p: string -> bool): Option<string>
  {
    if s == [] then None
    else if p(s[0]) then Some(s[0])
    else FirstAccepted(s[1..], p)
  }

  /** The name the engines choose among the fragments `detail`: "" when none
      qualifies. */
  function ChosenName(detail: seq<string>, maxLength: int, surnames: string): string
    requires detail != []
  {
    var sorted := SortByLength(detail);
    match FirstAccepted(sorted, NameTest(maxLength, surnames))
    case Some(x) => x
    case None => if |sorted[0]| <= maxLength && HasCjk(sorted[0]) then sorted[0] else ""
  }

  /** The independent reading of the choice: among the accepted fragments, the
      shortest one, and of equally short ones the first in the original order. */
  function ShortestAccepted(s: seq<string>, p: string -> bool): Option<string>
  {
    if s == [] then None
    else
      var rest := ShortestAccepted(s[1..], p);
      if !p(s[0]) then rest
      else if rest.None? || |s[0]| <= |rest.value| then Some(s[0])
      else rest
  }

  /** The first of the shortest elements. */
  function Shortest(s: seq<string>): string
    requires s != []
  {
    if |s| == 1 then s[0]
    else
      var rest := Shortest(s[1..]);
      if |s[0]| <= |rest| then s[0] else rest
  }

  /** The loop of `parse` over the sorted copy, then the fall-back to its first
      element; `b` is the blank test of the engine's `judgeFragmentIsName`. */
  method PickName(detail: seq<string>, maxLength: int, surnames: string, b: Blankness) returns (name: string)
    requires detail != []
    ensures name == ChosenName(detail, maxLength, surnames)
  {
    var sorted := SortByLength(detail);
    name := "";
    var k := 0;
    while k < |sorted|
      invariant 0 <= k <= |sorted|
      invariant name == ""
      invariant FirstAccepted(sorted, NameTest(maxLength, surnames)) == FirstAccepted(sorted[k..], NameTest(maxLength, surnames))
    {
      var judged := JudgeFragmentIsName(sorted[k], maxLength, surnames, b);
      if judged != "" {
        name := judged;
        assert sorted[k..][0] == sorted[k];
        return;
      }
      assert sorted[k..][1..] == sorted[k + 1..];
      k := k + 1;
    }
    if |sorted[0]| <= maxLength && HasCjk(sorted[0]) {
      name := sorted[0];
    }
  }

  // ---------------------------------------------------------------------------
  // Lemmas
  // ---------------------------------------------------------------------------

  lemma {:induction false} InsertFacts(x: string, t: seq<string>)
    ensures multiset(Insert(x, t)) == multiset{x} + multiset(t)
    ensures SortedByLength(t) ==> SortedByLength(Insert(x, t))
    ensures Insert(x, t)[0] == x || (t != [] && Insert(x, t)[0] == t[0])
    decreases |t|
  {
    if t != [] && |x| > |t[0]| {
      var r := Insert(x, t[1..]);
      InsertFacts(x, t[1..]);
      assert t == [t[0]] + t[1..];
      if SortedByLength(t) {
        assert SortedByLength(t[1..]);
        forall i, j | 0 <= i < j < |r| + 1 ensures |([t[0]] + r)[i]| <= |([t[0]] + r)[j]| {
          if i == 0 {
            if r[0] == x { } else { assert r[0] == t[1..][0] == t[1]; }
            if j >= 2 { assert ([t[0]] + r)[j] == r[j - 1]; }
          }
        }
      }
    }
  }

  lemma {:induction false} SortFacts(s: seq<string>)
    ensures multiset(SortByLength(s)) == multiset(s)
    ensures SortedByLength(SortByLength(s))
    decreases |s|
  {
    if s != [] {
      SortFacts(s[1..]);
      InsertFacts(s[0], SortByLength(s[1..]));
      assert s == [s[0]] + s[1..];
    }
  }

  lemma {:induction false} FirstAcceptedIn(s: seq<string>, p: string -> bool)
    ensures FirstAccepted(s, p).Some? ==>
      FirstAccepted(s, p).value in s && p(FirstAccepted(s, p).value)
    decreases |s|
  {
    if s != [] {
      FirstAcceptedIn(s[1..], p);
    }
  }

  /** What inserting one element does to the first accepted element of a sorted
      list. */
  lemma {:induction false} FirstAcceptedInsert(x: string, t: seq<string>, p: string -> bool)
    requires SortedByLength(t)
    ensures var f := FirstAccepted(t, p);
      FirstAccepted(Insert(x, t), p) ==
        if p(x) && (f.None? || |x| <= |f.value|) then Some(x) else f
    decreases |t|
  {
    var f := FirstAccepted(t, p);
    if t == [] || |x| <= |t[0]| {
      FirstAcceptedIn(t, p);
      if f.Some? {
        var i :| 0 <= i < |t| && t[i] == f.value;
        if i > 0 { assert |t[0]| <= |t[i]|; }
      }
      assert Insert(x, t) == [x] + t;
      assert ([x] + t)[1..] == t;
    } else {
      assert SortedByLength(t[1..]);
      FirstAcceptedInsert(x, t[1..], p);
      assert Insert(x, t)[1..] == Insert(x, t[1..]);
    }
  }

  /** The first accepted element of the sorted copy is the first of the
      shortest accepted elements of the original list. */
  lemma {:induction false} FirstOfSortedIsShortest(s: seq<string>, p: string -> bool)
    ensures FirstAccepted(SortByLength(s), p) == ShortestAccepted(s, p)
    decreases |s|
  {
    if s != [] {
      FirstOfSortedIsShortest(s[1..], p);
      SortFacts(s[1..]);
      FirstAcceptedInsert(s[0], SortByLength(s[1..]), p);
    }
  }

  /** Position `i` holds an accepted element that no accepted element is
      shorter than, and no accepted element before it is as short. */
  predicate ShortestAcceptedAt(s: seq<string>, i: int, p: string -> bool)
  {
    0 <= i < |s| && p(s[i])
    && (forall j | 0 <= j < i :: p(s[j]) ==> |s[j]| > |s[i]|)
    && (forall j | i < j < |s| :: p(s[j]) ==> |s[j]| >= |s[i]|)
  }

  /** `ShortestAccepted` finds nothing exactly when nothing is accepted. */
  lemma {:induction false} ShortestAcceptedNone(s: seq<string>, p: string -> bool)
    ensures ShortestAccepted(s, p).None? <==>
      forall j | 0 <= j < |s| :: !p(s[j])
    decreases |s|
  {
    if s != [] {
      ShortestAcceptedNone(s[1..], p);
      assert forall j | 0 < j < |s| :: s[j] == s[1..][j - 1];
    }
  }

  /** What `ShortestAccepted` finds is the first of the shortest accepted
      elements. */
  lemma {:induction false} ShortestAcceptedSome(s: seq<string>, p: string -> bool) returns (i: int)
    requires ShortestAccepted(s, p).Some?
    ensures ShortestAcceptedAt(s, i, p)
    ensures s[i] == ShortestAccepted(s, p).value
    decreases |s|
  {
    var rest := ShortestAccepted(s[1..], p);
    if rest.Some? {
      var k := ShortestAcceptedSome(s[1..], p);
      if !p(s[0]) || |s[0]| > |rest.value| {
        i := k + 1;
        ShortestInTail(s, k, p);
      } else {
        i := 0;
        ShortestAtHead(s, k, p);
      }
    } else {
      i := 0;
      ShortestAcceptedNone(s[1..], p);
      OnlyHeadAccepted(s, p);
    }
  }

  /** The shortest accepted element of the tail stays the answer when the head
      is not accepted or is longer. */
  lemma ShortestInTail(s: seq<string>, k: int, p: string -> bool)
    requires s != [] && ShortestAcceptedAt(s[1..], k, p)
    requires !p(s[0]) || |s[0]| > |s[1..][k]|
    ensures ShortestAcceptedAt(s, k + 1, p)
  {
    assert s[k + 1] == s[1..][k];
    forall j | 0 < j < |s| ensures s[j] == s[1..][j - 1] { }
  }

  /** An accepted head no longer than the tail's answer is the answer. */
  lemma ShortestAtHead(s: seq<string>, k: int, p: string -> bool)
    requires s != [] && ShortestAcceptedAt(s[1..], k, p)
    requires p(s[0]) && |s[0]| <= |s[1..][k]|
    ensures ShortestAcceptedAt(s, 0, p)
  {
    forall j | 0 < j < |s| && p(s[j]) ensures |s[j]| >= |s[0]| {
      assert s[j] == s[1..][j - 1];
      if j - 1 < k {
        assert |s[1..][j - 1]| > |s[1..][k]|;
      } else if j - 1 > k {
        assert |s[1..][j - 1]| >= |s[1..][k]|;
      }
    }
  }

  /** A head accepted in front of a tail with nothing accepted is the answer. */
  lemma OnlyHeadAccepted(s: seq<string>, p: string -> bool)
    requires s != [] && p(s[0])
    requires forall j | 0 <= j < |s[1..]| :: !p(s[1..][j])
    ensures ShortestAcceptedAt(s, 0, p)
  {
    forall j | 0 < j < |s| ensures !p(s[j]) {
      assert s[j] == s[1..][j - 1];
    }
  }

  /** The head of the sorted copy is the first of the shortest fragments. */
  lemma {:induction false} SortHeadIsShortest(s: seq<string>)
    requires s != []
    ensures SortByLength(s)[0] == Shortest(s)
    decreases |s|
  {
    if |s| == 1 {
      assert SortByLength(s[1..]) == [];
    } else {
      SortHeadIsShortest(s[1..]);
      SortFacts(s[1..]);
      InsertFacts(s[0], SortByLength(s[1..]));
    }
  }

  /** The choice read without the sort: the first of the shortest accepted
      fragments, or else the first of the shortest fragments if it is short
      enough and holds a CJK character. */
  lemma ChosenNameSpec(detail: seq<string>, maxLength: int, surnames: string)
    requires detail != []
    ensures ChosenName(detail, maxLength, surnames) ==
      match ShortestAccepted(detail, NameTest(maxLength, surnames))
      case Some(x) => x
      case None => if |Shortest(detail)| <= maxLength && HasCjk(Shortest(detail)) then Shortest(detail) else ""
  {
    FirstOfSortedIsShortest(detail, NameTest(maxLength, surnames));
    SortHeadIsShortest(detail);
  }

  /** The chosen name is "" or one of the fragments; the engines then remove its
      first occurrence and keep the rest in order. */
  lemma ChosenNameIsFragment(detail: seq<string>, maxLength: int, surnames: string)
    requires detail != []
    ensures var n := ChosenName(detail, maxLength, surnames); n == "" || (n in detail && HasCjk(n))
    ensures var n := ChosenName(detail, maxLength, surnames); n != "" ==>
      |RemoveFirst(detail, n)| == |detail| - 1 &&
      multiset(RemoveFirst(detail, n)) + multiset{n} == multiset(detail)
  {
    var sorted := SortByLength(detail);
    SortFacts(detail);
    FirstAcceptedIn(sorted, NameTest(maxLength, surnames));
    assert sorted[0] in multiset(sorted);
    var n := ChosenName(detail, maxLength, surnames);
    if n != "" {
      assert n in multiset(sorted);
      var k := RemoveFirstCuts(detail, n);
    }
  }

  /** The chosen name is blank, by any engine's blank test, exactly when it is
      "": a name that was found holds a CJK character. */
  lemma ChosenNameBlank(detail: seq<string>, maxLength: int, surnames: string, b: Blankness)
    requires detail != []
    ensures IsBlankBy(ChosenName(detail, maxLength, surnames), b) <==> ChosenName(detail, maxLength, surnames) == ""
  {
    ChosenNameIsFragment(detail, maxLength, surnames);
    CjkNotBlank(ChosenName(detail, maxLength, surnames), b);
  }
}
