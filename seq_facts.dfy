/** Generic facts about sequences, stated over abstract parts so that proofs about concrete markup
    can use them without unfolding the markup's characters. */
module SeqFacts {

  lemma AppendAssoc<T>(x: seq<T>, y: seq<T>, z: seq<T>)
    ensures x + (y + z) == (x + y) + z
  {
  }

  lemma ConsAppend<T>(a: seq<T>, b: seq<T>)
    requires a != []
    ensures (a + b)[0] == a[0] && (a + b)[1..] == a[1..] + b
  {
  }

  lemma DropCons<T>(x: T, s: seq<T>)
    ensures ([x] + s)[0] == x && ([x] + s)[1..] == s
  {
  }

  lemma ConsSplit<T>(s: seq<T>)
    requires s != []
    ensures s == [s[0]] + s[1..]
  {
  }

  lemma PrefixRest<T>(x: seq<T>, s: seq<T>)
    requires x <= s
    ensures s == x + s[|x|..]
  {
  }

  lemma PrefixOfAppend<T>(x: seq<T>, y: seq<T>)
    ensures x <= x + y && (x + y)[|x|..] == y
  {
  }

  lemma DropDrop<T>(t: seq<T>, n: nat)
    requires 1 <= n <= |t|
    ensures t[1..][n - 1..] == t[n..]
  {
  }

  /** A prefix of `[c] + h` starts with `c` and continues with a prefix of `h`. */
  lemma PrefixCons<T>(c: T, w: seq<T>, h: seq<T>)
    requires w != [] && w <= [c] + h
    ensures w[0] == c && w[1..] <= h
  {
    assert w[1..] == ([c] + h)[1..|w|];
  }

  /** Prefixes are compared element by element. */
  lemma ConsPrefix<T>(w: seq<T>, t: seq<T>)
    requires w != [] && t != [] && w[0] == t[0] && w[1..] <= t[1..]
    ensures w <= t
  {
    assert forall i :: 1 <= i < |w| ==> w[i] == w[1..][i - 1] == t[1..][i - 1];
  }

  /** One element in front of a prefix and the rest. */
  lemma ConsJoin<T>(c: T, w: seq<T>, h: seq<T>, rest: seq<T>)
    requires w != [] && w[0] == c && h == w[1..] + rest
    ensures [c] + h == w + rest
  {
    assert w == [c] + w[1..];
  }

  lemma NotInDrop<T>(x: T, s: seq<T>)
    requires s != [] && x !in s
    ensures x !in s[1..]
  {
  }

  lemma NotInAppend<T>(x: T, a: seq<T>, b: seq<T>)
    requires x !in a && x !in b
    ensures x !in a + b
  {
  }

  /** Taking the first element off the front of four parts laid end to end. */
  lemma ConsRegroup<T>(o: seq<T>, x: seq<T>, y: seq<T>, z: seq<T>)
    requires o != []
    ensures o + x + y + z == [o[0]] + (o[1..] + x + y + z)
  {
    assert o == [o[0]] + o[1..];
  }

  /** When `a + b` starts `h`, `a` starts `h` and `b` follows right after it. */
  lemma PrefixSplit<T>(a: seq<T>, b: seq<T>, h: seq<T>)
    requires a + b <= h
    ensures a <= h && b <= h[|a|..]
  {
    assert h[..|a|] == (a + b)[..|a|];
    assert h[|a|..][..|b|] == (a + b)[|a|..];
  }
}
