/** Facts about sequence concatenation, proved apart from any function over the elements so
    that using them costs the solver little. */
module Sequences {

  /** Concatenation is associative. */
  lemma ConcatAssoc<T>(x: seq<T>, y: seq<T>, z: seq<T>)
    ensures (x + y) + z == x + (y + z)
  {
  }

  /** A non-empty sequence is its front followed by its last element, also after a prefix. */
  lemma SnocParts<T>(a: seq<T>, b: seq<T>)
    requires |b| > 0
    ensures b == b[..|b| - 1] + [b[|b| - 1]]
    ensures a + b == (a + b[..|b| - 1]) + [b[|b| - 1]]
    ensures (a + b)[..|a + b| - 1] == a + b[..|b| - 1]
  {
  }

  /** Appending the empty sequence changes nothing. */
  lemma AppendEmpty<T>(a: seq<T>, b: seq<T>)
    requires |b| == 0
    ensures a + b == a
  {
  }

  /** Taking one more element of a prefix appends that element. */
  lemma PrefixSnoc<T>(s: seq<T>, i: nat)
    requires i < |s|
    ensures s[..i + 1] == s[..i] + [s[i]]
    ensures s[..i + 1][..i] == s[..i]
  {
  }

  /** A sequence is its own full prefix. */
  lemma FullPrefix<T>(s: seq<T>)
    ensures s[..|s|] == s
  {
  }

  /** A sequence extended by one element has the original as its front and the element last. */
  lemma SnocInverse<T>(xs: seq<T>, x: T)
    ensures |xs + [x]| == |xs| + 1
    ensures (xs + [x])[..|xs|] == xs
    ensures (xs + [x])[|xs|] == x
  {
  }

  /** A sequence is what precedes position `k`, the element at `k`, and what follows. */
  lemma SplitAt<T>(s: seq<T>, k: nat)
    requires k < |s|
    ensures s == (s[..k] + [s[k]]) + s[k + 1..]
  {
  }

  /** The three parts of a three-part concatenation are recovered by slicing. */
  lemma ThreeParts<T>(p: seq<T>, d: seq<T>, s: seq<T>)
    ensures (p + d + s)[..|p|] == p
    ensures (p + d + s)[|p|..|p| + |d|] == d
    ensures (p + d + s)[|p| + |d|..] == s
  {
  }

  /** The empty sequence is a left unit. */
  lemma EmptyLeft<T>(s: seq<T>)
    ensures [] + s == s
  {
  }

  /** Two singletons make a pair. */
  lemma PairOfSingletons<T>(x: T, y: T)
    ensures [x] + [y] == [x, y]
  {
  }

  /** Two elements put in front one at a time. */
  lemma ConsCons<T>(x: T, y: T, t: seq<T>)
    ensures [x] + ([y] + t) == [x, y] + t
  {
  }

  /** Three singletons, appended from the right, make a triple. */
  lemma ThreeSingletons<T>(x: T, y: T, z: T)
    ensures [x] + ([y] + [z]) == [x, y, z]
  {
  }

  /** Five singletons, appended from the right, make a quintuple. */
  lemma FiveSingletons<T>(x: T, y: T, z: T, u: T, v: T)
    ensures [x] + ([y] + ([z] + ([u] + [v]))) == [x, y, z, u, v]
  {
  }

  /** Three pieces with a separator between each two, grouped from the right. */
  lemma RegroupThree<T>(a: seq<T>, b: seq<T>, c: seq<T>, d: seq<T>)
    ensures a + d + b + d + c == a + d + (b + d + c)
  {
  }

  /** Five pieces with a separator between each two, grouped from the right. */
  lemma RegroupFive<T>(a: seq<T>, b: seq<T>, c: seq<T>, e: seq<T>, f: seq<T>, d: seq<T>)
    ensures a + d + b + d + c + d + e + d + f == a + d + (b + d + (c + d + (e + d + f)))
  {
  }

  /** A sequence is its three slices around two cut points, concatenated. */
  lemma CutTwice<T>(s: seq<T>, i: nat, k: nat)
    requires i <= k <= |s|
    ensures s == s[..i] + s[i..k] + s[k..]
  {
  }

  /** Dropping the head of a sequence with a head put in front gives the tail. */
  lemma DropCons<T>(x: T, t: seq<T>)
    ensures ([x] + t)[1..] == t
  {
  }

  /** A non-empty sequence is its head put in front of its tail. */
  lemma HeadTail<T>(s: seq<T>)
    requires |s| > 0
    ensures [s[0]] + s[1..] == s
  {
  }
}
