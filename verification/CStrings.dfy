// The strings of C.
module CStrings {
  /** A C string; the terminator is not part of it. */
  type CString = s: string | '\0' !in s witness ""

  /** What a program reads at place i of a string. */
  function CharAt(s: CString, i: nat): char
    requires i <= |s|
  {
    if i < |s| then s[i] else '\0'
  }

  /** The place of the first separator, or the length if there is none. */
  function Cut(s: CString, separator: char): (i: nat)
    ensures i <= |s| && (i < |s| ==> s[i] == separator) && forall j :: 0 <= j < i ==> s[j] != separator
  {
    if |s| == 0 || s[0] == separator then 0
    else
      var i := Cut(s[1..], separator);
      assert forall j :: 0 < j < i + 1 ==> s[j] == s[1..][j - 1];
      i + 1
  }

  lemma CutAt(s: CString, separator: char, i: nat)
    requires i <= |s| && (forall j :: 0 <= j < i ==> s[j] != separator) && (i < |s| ==> s[i] == separator)
    ensures Cut(s, separator) == i
  {
    hide Cut;
  }
}
