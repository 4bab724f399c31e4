/** Character classes and prefix scanning shared by the placeholder wrapper and the fill pattern. */
module Text {

  /** JavaScript's `\w` without the `u` flag: `[A-Za-z0-9_]`. */
  predicate IsWordChar(c: char) {
    ('A' <= c <= 'Z') || ('a' <= c <= 'z') || ('0' <= c <= '9') || c == '_'
  }

  /** A variable key as the placeholder pattern captures it: one or more word characters. */
  predicate IsKey(k: string) {
    |k| > 0 && forall i :: 0 <= i < |k| ==> IsWordChar(k[i])
  }

  /** The longest prefix of `s` made of word characters (what a greedy `\w*` consumes). */
  function WordPrefix(s: string): (w: string)
    ensures w <= s
    ensures forall i :: 0 <= i < |w| ==> IsWordChar(w[i])
    ensures |w| < |s| ==> !IsWordChar(s[|w|])
    decreases |s|
  {
    if |s| > 0 && IsWordChar(s[0]) then [s[0]] + WordPrefix(s[1..]) else []
  }

  /** A run of word characters followed by a non-word character is exactly what `WordPrefix` finds. */
  lemma {:induction false} WordPrefixOf(k: string, rest: string)
    requires forall i :: 0 <= i < |k| ==> IsWordChar(k[i])
    requires rest == [] || !IsWordChar(rest[0])
    ensures WordPrefix(k + rest) == k
    decreases |k|
  {
    if k != [] {
      assert (k + rest)[0] == k[0];
      assert (k + rest)[1..] == k[1..] + rest;
      WordPrefixOf(k[1..], rest);
    } else {
      assert k + rest == rest;
    }
  }

  /** Two word keys each closed by a non-word character cannot be prefixes of one another
      unless they are equal. */
  lemma DelimitedKeyUnique(a: string, c: char, b: string, d: char, t: string)
    requires IsKey(a) && IsKey(b)
    requires !IsWordChar(c) && !IsWordChar(d)
    requires a + [c] <= b + [d] + t
    ensures a == b
  {
    var s := b + [d] + t;
    WordPrefixOf(b, [d] + t);
    assert b + ([d] + t) == s;
    assert s == a + ([c] + s[|a| + 1..]);
    WordPrefixOf(a, [c] + s[|a| + 1..]);
  }
}
