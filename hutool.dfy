/** The members of Hutool's `StrUtil` that the legacy engine calls. Hutool trims
    and tests blankness with `CharUtil.isBlankChar`, which is wider than
    `String.trim`: it takes `Character.isWhitespace`, `Character.isSpaceChar`
    and the marks U+FEFF and U+202A, and not the other control characters
    below U+0020. */
module Hutool {
  import opened Text
  import StrUtil

  /** Space separators, line and paragraph separators (`isSpaceChar`). */
  const SpaceChars: set<char> :=
    {' ', '\U{A0}', '\U{1680}', '\U{2000}', '\U{2001}', '\U{2002}', '\U{2003}', '\U{2004}',
     '\U{2005}', '\U{2006}', '\U{2007}', '\U{2008}', '\U{2009}', '\U{200A}', '\U{202F}',
     '\U{205F}', '\U{3000}', '\U{2028}', '\U{2029}'}

  /** The control characters `isWhitespace` adds. */
  const ControlWhite: set<char> :=
    {'\t', '\n', '\U{B}', '\U{C}', '\r', '\U{1C}', '\U{1D}', '\U{1E}', '\U{1F}'}

  /** `CharUtil.isBlankChar`. */
  const BlankChars: set<char> := SpaceChars + ControlWhite + {'\U{FEFF}', '\U{202A}'}

  /** `isBlank`: null, empty, or only blank characters. */
  predicate IsBlank(s: StrUtil.JString): (r: bool)
    ensures r <==> s.Null? || Strip(s.value, BlankChars) == []
  {
    StripEmpty(if s.Null? then "" else s.value, BlankChars);
    s.Null? || forall i | 0 <= i < |s.value| :: s.value[i] in BlankChars
  }

  predicate IsNotBlank(s: StrUtil.JString)
  {
    !IsBlank(s)
  }

  /** `isNotEmpty`: neither null nor empty. */
  predicate IsNotEmpty(s: StrUtil.JString)
  {
    s.Str? && s.value != ""
  }

  /** `trim`: both ends stripped of blank characters; null stays null. */
  function Trim(s: StrUtil.JString): (r: StrUtil.JString)
    ensures r.Null? <==> s.Null?
  {
    if s.Null? then StrUtil.Null else StrUtil.Str(Strip(s.value, BlankChars))
  }

  // ---------------------------------------------------------------------------
  // Lemmas
  // ---------------------------------------------------------------------------

  /** A string that is not blank trims to a non-empty string, and trimming a
      second time changes nothing. */
  lemma TrimNotBlank(s: StrUtil.JString)
    requires IsNotBlank(s)
    ensures Trim(s).Str? && Trim(s).value != []
    ensures Trim(Trim(s)) == Trim(s)
  {
    var t := Strip(s.value, BlankChars);
    assert Trim(s) == StrUtil.Str(t);
    StripIdempotent(s.value, BlankChars);
    assert Trim(StrUtil.Str(t)) == StrUtil.Str(Strip(t, BlankChars));
  }

  /** Hutool's blank test and the project's own agree on every string made of
      characters that both treat alike; they differ on the control characters
      below U+0020 that are not white space, which only the project's test
      calls blank, and on the wide spaces, which only Hutool's does. */
  lemma BlankVersusJava(s: string)
    requires forall i | 0 <= i < |s| :: (s[i] in BlankChars <==> s[i] <= ' ')
    ensures IsBlank(StrUtil.Str(s)) <==> StrUtil.IsBlank(StrUtil.Str(s))
  {
    StrUtil.BlankIff(StrUtil.Str(s));
  }

  /** U+0001 is blank to `String.trim` but not to Hutool. */
  lemma ControlCharDiffers()
    ensures StrUtil.IsBlank(StrUtil.Str("\U{1}")) && !IsBlank(StrUtil.Str("\U{1}"))
  {
    var s := "\U{1}";
    StrUtil.BlankIff(StrUtil.Str(s));
    assert s[0] !in BlankChars;
  }

  /** The ideographic space U+3000 is blank to Hutool but not to `String.trim`. */
  lemma WideSpaceDiffers()
    ensures IsBlank(StrUtil.Str("\U{3000}")) && !StrUtil.IsBlank(StrUtil.Str("\U{3000}"))
  {
    var s := "\U{3000}";
    StrUtil.BlankIff(StrUtil.Str(s));
    assert s[0] in BlankChars;
    assert s[0] > ' ';
  }
}
