/*
 * libxml2's xmlChar strings. A NUL-terminated C string is modelled by the
 * characters before its terminator, so a model string never holds '\0';
 * reading at or past its length yields the terminator, as reading the C
 * array there would.
 */
module XmlString {

  /** The contents of a NUL-terminated xmlChar string. */
  type XmlStr = s: string | '\0' !in s witness ""

  /** name[i] of the C string: the terminator once i reaches the end. */
  function At(s: XmlStr, i: nat): (c: char)
    ensures i < |s| ==> c == s[i]
    ensures i >= |s| ==> c == '\0'
  {
    if i < |s| then s[i] else '\0'
  }

  /** The index of the first occurrence of c at or after i, if any. */
  function IndexFrom(s: string, c: char, i: nat): (r: nat)
    requires i <= |s|
    ensures i <= r <= |s|
    ensures r < |s| ==> s[r] == c
    ensures forall k :: i <= k < r ==> s[k] != c
    decreases |s| - i
  {
    if i == |s| || s[i] == c then i else IndexFrom(s, c, i + 1)
  }
}
