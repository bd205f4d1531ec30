/**
 * The .NET test `string.IsNullOrWhiteSpace`, which the update handlers use to
 * decide whether a supplied text field replaces the stored one. A `null`
 * string is `None`.
 */
module Text {
  import opened Wrappers

  /**
   * `char.IsWhiteSpace`: the Unicode space, line and paragraph separators
   * (categories Zs, Zl, Zp) and the controls U+0009 to U+000D and U+0085.
   * All of them lie in the Basic Multilingual Plane, so testing code points
   * agrees with testing UTF-16 code units.
   */
  predicate IsWhiteSpace(c: char) {
    var n := c as int;
    || (0x09 <= n <= 0x0D) || n == 0x20 || n == 0x85 || n == 0xA0 || n == 0x1680
    || (0x2000 <= n <= 0x200A) || n == 0x2028 || n == 0x2029 || n == 0x202F
    || n == 0x205F || n == 0x3000
  }

  /** The scan over the characters that `IsNullOrWhiteSpace` performs on a non-null string. */
  function AllWhiteSpace(s: string): (b: bool)
    ensures b <==> forall i :: 0 <= i < |s| ==> IsWhiteSpace(s[i])
  {
    if s == [] then true
    else
      assert forall i :: 1 <= i < |s| ==> s[i] == s[1..][i - 1];
      IsWhiteSpace(s[0]) && AllWhiteSpace(s[1..])
  }

  /** True of null, of the empty string, and of a string made only of white space. */
  function IsNullOrWhiteSpace(s: Option<string>): (b: bool)
    ensures b <==> s.None? || forall i :: 0 <= i < |s.value| ==> IsWhiteSpace(s.value[i])
    ensures s == Some("") ==> b
    ensures s.Some? && |s.value| > 0 && !IsWhiteSpace(s.value[0]) ==> !b
  {
    match s
    case None => true
    case Some(t) => AllWhiteSpace(t)
  }

  /** A few fixed cases: blank strings are skipped by an update, text is not. */
  lemma BlankExamples()
    ensures IsNullOrWhiteSpace(None) && IsNullOrWhiteSpace(Some(""))
    ensures IsNullOrWhiteSpace(Some(" \t\n"))
    ensures !IsNullOrWhiteSpace(Some("new@x.com")) && !IsNullOrWhiteSpace(Some(" a "))
  {
  }
}
