/** The two String operations the handshake test uses:
    `toUpperCase()` and `startsWith(prefix)`. */
module Text {

  function UpperChar(c: char): char
  {
    if 'a' <= c <= 'z' then (c as int - 'a' as int + 'A' as int) as char else c
  }

  /** Upper-cases the ASCII letters and leaves every other character alone. */
  function ToUpper(s: string): (r: string)
    ensures |r| == |s|
    ensures forall i :: 0 <= i < |s| ==> r[i] == UpperChar(s[i])
  {
    seq(|s|, i requires 0 <= i < |s| => UpperChar(s[i]))
  }

  predicate StartsWith(s: string, prefix: string)
  {
    |prefix| <= |s| && s[..|prefix|] == prefix
  }

  /** Upper-casing is character by character, so it distributes over
      concatenation. */
  lemma ToUpperAppend(a: string, b: string)
    ensures ToUpper(a + b) == ToUpper(a) + ToUpper(b)
  {
  }

  /** Whether a string starts with a prefix is decided by its first |prefix|
      characters: text after a long enough head does not matter. */
  lemma StartsWithHead(head: string, rest: string, prefix: string)
    requires |prefix| <= |head|
    ensures StartsWith(head + rest, prefix) <==> StartsWith(head, prefix)
  {
    assert (head + rest)[..|prefix|] == head[..|prefix|];
  }

  /** A separator that the prefix does not contain, placed before position
      |prefix|, keeps the string from starting with the prefix. */
  lemma SeparatorBlocksPrefix(head: string, sep: char, rest: string, prefix: string)
    requires |head| < |prefix|
    requires prefix[|head|] != sep
    ensures !StartsWith(head + [sep] + rest, prefix)
  {
    var s := head + [sep] + rest;
    assert s[|head|] == sep;
  }
}
