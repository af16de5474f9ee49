/** The two JavaScript string methods the mark handlers use, `trim` and
    `toLowerCase`, restricted to ASCII. */
module Text {

  /** ASCII white space: space, tab, line feed, vertical tab, form feed, carriage return. */
  predicate IsSpace(c: char) {
    c == ' ' || '\t' <= c <= '\r'
  }

  function TrimStart(s: string): (r: string)
    ensures |r| <= |s| && r == s[|s| - |r|..]
    ensures r == [] || !IsSpace(r[0])
    ensures forall i :: 0 <= i < |s| - |r| ==> IsSpace(s[i])
  {
    if s != [] && IsSpace(s[0]) then TrimStart(s[1..]) else s
  }

  function TrimEnd(s: string): (r: string)
    ensures |r| <= |s| && r == s[..|r|]
    ensures r == [] || !IsSpace(r[|r| - 1])
    ensures forall i :: |r| <= i < |s| ==> IsSpace(s[i])
  {
    if s != [] && IsSpace(s[|s| - 1]) then TrimEnd(s[..|s| - 1]) else s
  }

  /** `s.trim()`: the longest slice of `s` that neither starts nor ends with white space. */
  function Trim(s: string): string {
    TrimEnd(TrimStart(s))
  }

  function LowerChar(c: char): char {
    if 'A' <= c <= 'Z' then (c as int + 32) as char else c
  }

  /** `s.toLowerCase()` on ASCII letters. */
  function ToLower(s: string): (r: string)
    ensures |r| == |s|
  {
    seq(|s|, i requires 0 <= i < |s| => LowerChar(s[i]))
  }

  /** What lower-casing does to each character: no ASCII capital is left, each
      capital becomes the small letter at the same place in the alphabet, and
      every other character stays. */
  lemma ToLowerLowersAscii(s: string)
    ensures var r := ToLower(s);
            && (forall i :: 0 <= i < |r| ==> !('A' <= r[i] <= 'Z'))
            && (forall i :: 0 <= i < |s| && !('A' <= s[i] <= 'Z') ==> r[i] == s[i])
            && (forall i :: 0 <= i < |s| && 'A' <= s[i] <= 'Z' ==>
                  'a' <= r[i] <= 'z' && r[i] as int - 'a' as int == s[i] as int - 'A' as int)
  {
  }

  /** Lower-casing twice is lower-casing once. */
  lemma ToLowerIdempotent(s: string)
    ensures ToLower(ToLower(s)) == ToLower(s)
  {
    var once := ToLower(s);
    ToLowerLowersAscii(s);
    ToLowerLowersAscii(once);
    assert forall i :: 0 <= i < |once| ==> ToLower(once)[i] == once[i];
  }

  /** `subject.trim().toLowerCase()`, the form in which the handlers compare subjects. */
  function Normalize(s: string): string {
    ToLower(Trim(s))
  }
}
