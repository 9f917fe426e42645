/** The project's own `StrUtil`: null-safe emptiness and blankness tests and a
    null-safe `trim`. A Java `String` that may be null is a `JString`. */
module StrUtil {
  import opened Text

  datatype JString = Null | Str(value: string)

  /** `String.trim` treats every character up to U+0020 as white space. */
  const JavaWhite: set<char> := set c: char | c <= ' '

  /** `String.trim` on a non-null string. */
  function JavaTrim(s: string): string
  {
    Strip(s, JavaWhite)
  }

  /** `isEmpty`: null or the empty string. */
  predicate IsEmpty(s: JString)
  {
    s == Null || s.value == ""
  }

  predicate IsNotEmpty(s: JString): (r: bool)
    ensures r <==> s.Str? && |s.value| > 0
  {
    !IsEmpty(s)
  }

  /** `trim`: null stays null. */
  function Trim(s: JString): (r: JString)
    ensures r.Null? <==> s.Null?
  {
    if s == Null then Null else Str(JavaTrim(s.value))
  }

  predicate IsBlank(s: JString)
  {
    IsEmpty(s) || IsEmpty(Trim(s))
  }

  predicate IsNotBlank(s: JString): (r: bool)
    ensures r <==> s.Str? && exists i | 0 <= i < |s.value| :: s.value[i] > ' '
  {
    BlankIff(s);
    !IsBlank(s)
  }

  // ---------------------------------------------------------------------------
  // Lemmas
  // ---------------------------------------------------------------------------

  /** Trimming twice is trimming once. */
  lemma TrimIdempotent(s: JString)
    ensures Trim(Trim(s)) == Trim(s)
  {
    if s.Str? {
      StripIdempotent(s.value, JavaWhite);
    }
  }

  /** The trimmed string is the slice of the input between its first and its
      last character above U+0020, and everything outside that slice is at most
      U+0020. */
  lemma TrimSlice(s: string) returns (lo: nat, hi: nat)
    ensures lo <= hi <= |s| && JavaTrim(s) == s[lo..hi]
    ensures forall i | 0 <= i < lo :: s[i] <= ' '
    ensures forall i | hi <= i < |s| :: s[i] <= ' '
    ensures lo < hi ==> s[lo] > ' ' && s[hi - 1] > ' '
  {
    lo, hi := StripSlice(s, JavaWhite);
  }

  /** `isBlank(s)` holds exactly for null and for strings made only of characters
      up to U+0020. */
  lemma BlankIff(s: JString)
    ensures IsBlank(s) <==> s.Null? || forall i | 0 <= i < |s.value| :: s.value[i] <= ' '
  {
    if s.Str? {
      StripEmpty(s.value, JavaWhite);
    }
  }

  /** Every empty string is blank, and trimming a non-blank string leaves a
      non-empty one that starts and ends with a character above U+0020. */
  lemma EmptyIsBlank(s: JString)
    ensures IsEmpty(s) ==> IsBlank(s)
    ensures IsNotBlank(s) ==> IsNotEmpty(s) && IsNotEmpty(Trim(s))
    ensures IsNotBlank(s) ==> Trim(s).value[0] > ' ' && Trim(s).value[|Trim(s).value| - 1] > ' '
  {
    if s.Str? && IsNotBlank(s) {
      var lo, hi := TrimSlice(s.value);
    }
  }
}
