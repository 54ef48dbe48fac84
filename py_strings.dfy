/** Python's `str.find`, `str.split(sep)`, `str.count(sep)` and `sep.join(parts)` for a
    non-empty separator, on strings as sequences of characters. */
module PyStrings {
  import opened Wrappers
  import opened Sequences

  /** `d` occurs in `s` starting at index `j`. */
  predicate OccursAt(s: string, d: string, j: int)
  {
    0 <= j && j + |d| <= |s| && s[j..j + |d|] == d
  }

  /** `d` occurs nowhere in `s`. */
  predicate Absent(s: string, d: string)
  {
    forall j :: 0 <= j < |s| ==> !OccursAt(s, d, j)
  }

  lemma OccursAtTail(s: string, d: string, j: nat)
    requires |s| > 0
    ensures OccursAt(s, d, j + 1) <==> OccursAt(s[1..], d, j)
  {
    if 0 <= j && j + 1 + |d| <= |s| {
      assert s[1..][j..j + |d|] == s[j + 1..j + 1 + |d|];
    }
  }

  /** `s.find(d)`: the leftmost occurrence of `d`, or `None` where Python returns -1. */
  function Find(s: string, d: string): (r: Option<nat>)
    requires |d| > 0
    ensures r.Some? ==> OccursAt(s, d, r.value)
    decreases |s|
  {
    if |s| < |d| then None
    else if s[..|d|] == d then Some(0)
    else
      match Find(s[1..], d)
      case None => None
      case Some(i) =>
        OccursAtTail(s, d, i);
        Some(i + 1)
  }

  /** The occurrence `Find` reports is the leftmost one, and it reports none only when there is
      none. */
  lemma {:induction false} FindLeftmost(s: string, d: string)
    requires |d| > 0
    ensures Find(s, d).Some? ==> forall j :: 0 <= j < Find(s, d).value ==> !OccursAt(s, d, j)
    ensures Find(s, d).None? <==> Absent(s, d)
    decreases |s|
  {
    if |s| >= |d| && s[..|d|] != d {
      FindLeftmost(s[1..], d);
      assert !OccursAt(s, d, 0);
      forall j | 1 <= j ensures OccursAt(s, d, j) <==> OccursAt(s[1..], d, j - 1) {
        OccursAtTail(s, d, j - 1);
      }
    }
  }

  /** `s.split(d)`: cut at each leftmost non-overlapping occurrence, scanning from the left. */
  function Split(s: string, d: string): (parts: seq<string>)
    requires |d| > 0
    ensures |parts| >= 1
    decreases |s|
  {
    match Find(s, d)
    case None => [s]
    case Some(i) => [s[..i]] + Split(s[i + |d|..], d)
  }

  /** `s.count(d)`: the number of non-overlapping occurrences, scanning character by character. */
  function Count(s: string, d: string): nat
    requires |d| > 0
    decreases |s|
  {
    if |s| < |d| then 0
    else if s[..|d|] == d then 1 + Count(s[|d|..], d)
    else Count(s[1..], d)
  }

  /** `d.join(parts)`. */
  function Join(parts: seq<string>, d: string): string
  {
    if |parts| == 0 then ""
    else if |parts| == 1 then parts[0]
    else parts[0] + d + Join(parts[1..], d)
  }

  /** Skipping a prefix in which `d` does not start leaves the count unchanged. */
  lemma {:induction false} CountSkip(s: string, d: string, i: nat)
    requires |d| > 0 && i <= |s|
    requires forall j :: 0 <= j < i ==> !OccursAt(s, d, j)
    ensures Count(s, d) == Count(s[i..], d)
    decreases i
  {
    if i > 0 && |s| >= |d| {
      assert !OccursAt(s, d, 0);
      forall j | 0 <= j < i - 1 ensures !OccursAt(s[1..], d, j) {
        OccursAtTail(s, d, j);
      }
      CountSkip(s[1..], d, i - 1);
      assert s[1..][i - 1..] == s[i..];
    } else if i > 0 {
      assert |s[i..]| < |d|;
    }
  }

  /** `len(s.split(d)) == s.count(d) + 1`. */
  lemma {:induction false} SplitLength(s: string, d: string)
    requires |d| > 0
    ensures |Split(s, d)| == Count(s, d) + 1
    decreases |s|
  {
    FindLeftmost(s, d);
    match Find(s, d)
    case None =>
      CountSkip(s, d, |s|);
      assert s[|s|..] == [];
    case Some(i) =>
      CountSkip(s, d, i);
      assert s[i..][..|d|] == d;
      assert s[i..][|d|..] == s[i + |d|..];
      SplitLength(s[i + |d|..], d);
  }

  /** Joining a part in front of a non-empty list puts the part and one separator in front. */
  lemma JoinCons(x: string, parts: seq<string>, d: string)
    requires |parts| >= 1
    ensures Join([x] + parts, d) == x + d + Join(parts, d)
  {
    DropCons(x, parts);
  }

  /** `d.join(s.split(d)) == s`. */
  lemma {:induction false} SplitJoin(s: string, d: string)
    requires |d| > 0
    ensures Join(Split(s, d), d) == s
    decreases |s|
  {
    match Find(s, d)
    case None =>
    case Some(i) =>
      var rest := s[i + |d|..];
      SplitJoin(rest, d);
      JoinCons(s[..i], Split(rest, d), d);
      CutTwice(s, i, i + |d|);
  }

  /** No fragment of a split contains the separator. */
  lemma {:induction false} SplitFragmentsAbsent(s: string, d: string)
    requires |d| > 0
    ensures forall k :: 0 <= k < |Split(s, d)| ==> Absent(Split(s, d)[k], d)
    decreases |s|
  {
    FindLeftmost(s, d);
    match Find(s, d)
    case None =>
    case Some(i) =>
      var rest := s[i + |d|..];
      SplitFragmentsAbsent(rest, d);
      PrefixAbsent(s, d, i);
      assert Split(s, d) == [s[..i]] + Split(rest, d);
      forall k | 0 <= k < |Split(s, d)| ensures Absent(Split(s, d)[k], d) {
        if k > 0 {
          assert Split(s, d)[k] == Split(rest, d)[k - 1];
        }
      }
  }

  /** A prefix in which no occurrence starts holds no occurrence. */
  lemma PrefixAbsent(s: string, d: string, i: nat)
    requires i <= |s|
    requires forall j :: 0 <= j < i ==> !OccursAt(s, d, j)
    ensures Absent(s[..i], d)
  {
    forall j | 0 <= j < i ensures !OccursAt(s[..i], d, j) {
      assert !OccursAt(s, d, j);
      if j + |d| <= i {
        assert s[..i][j..j + |d|] == s[j..j + |d|];
      }
    }
  }

  /** A string with no occurrence of the separator splits into itself alone, and only such a
      string does. */
  lemma SplitSingleton(s: string, d: string)
    requires |d| > 0
    ensures Split(s, d) == [s] <==> Absent(s, d)
    ensures |Split(s, d)| == 1 <==> Absent(s, d)
  {
    FindLeftmost(s, d);
    match Find(s, d)
    case None =>
    case Some(i) =>
      assert |Split(s, d)| >= 2;
  }

  /** Cutting at the first occurrence: what precedes it is the first fragment. */
  lemma SplitAtFirst(p: string, d: string, s: string)
    requires |d| > 0
    requires forall j :: 0 <= j < |p| ==> !OccursAt(p + d + s, d, j)
    ensures Split(p + d + s, d) == [p] + Split(s, d)
  {
    var t := p + d + s;
    ThreeParts(p, d, s);
    assert OccursAt(t, d, |p|);
    FindLeftmost(t, d);
    assert Find(t, d) == Some(|p|);
  }

  /** Two adjacent separators leave an empty fragment between them, which is kept. */
  lemma AdjacentSeparators(p: string, d: string, s: string)
    requires |d| > 0
    requires forall j :: 0 <= j < |p| ==> !OccursAt(p + d + d + s, d, j)
    ensures Split(p + d + d + s, d) == [p, ""] + Split(s, d)
  {
    ConcatAssoc(p + d, d, s);
    SplitAtFirst(p, d, d + s);
    EmptyLeft(d);
    SplitAtFirst([], d, s);
    ConsCons(p, "", Split(s, d));
  }

  /** A prefix that does not hold the separator's first character cannot hold an occurrence. */
  lemma NoStartIn(p: string, d: string, s: string)
    requires |d| > 0 && d[0] !in p
    ensures forall j :: 0 <= j < |p| ==> !OccursAt(p + s, d, j)
  {
    forall j | 0 <= j < |p| ensures !OccursAt(p + s, d, j) {
      if j + |d| <= |p + s| {
        assert (p + s)[j..j + |d|][0] == p[j] != d[0];
      }
    }
  }

  /** A string without the separator's first character is not split. */
  lemma NoStartSplit(s: string, d: string)
    requires |d| > 0 && d[0] !in s
    ensures Split(s, d) == [s]
  {
    assert s + [] == s;
    NoStartIn(s, d, []);
    SplitSingleton(s, d);
  }

  /** A first fragment without the separator's first character ends at the first separator. */
  lemma SplitClean(p: string, d: string, s: string)
    requires |d| > 0 && d[0] !in p
    ensures Split(p + d + s, d) == [p] + Split(s, d)
  {
    NoStartIn(p, d, d + s);
    assert p + (d + s) == p + d + s;
    SplitAtFirst(p, d, s);
  }

  /** Splitting undoes joining when no part holds the separator's first character. */
  lemma {:induction false} JoinSplit(parts: seq<string>, d: string)
    requires |d| > 0 && |parts| >= 1
    requires forall k :: 0 <= k < |parts| ==> d[0] !in parts[k]
    ensures Split(Join(parts, d), d) == parts
    decreases |parts|
  {
    if |parts| == 1 {
      NoStartSplit(parts[0], d);
    } else {
      JoinSplit(parts[1..], d);
      SplitClean(parts[0], d, Join(parts[1..], d));
      HeadTail(parts);
    }
  }

  /** One pair of separators cuts three fragments. */
  lemma SplitOnePair(a: string, b: string, c: string, d: string)
    requires |d| > 0 && d[0] !in a && d[0] !in b && d[0] !in c
    ensures Split(a + d + b + d + c, d) == [a, b, c]
  {
    NoStartSplit(c, d);
    SplitClean(b, d, c);
    SplitClean(a, d, b + d + c);
    RegroupThree(a, b, c, d);
    ThreeSingletons(a, b, c);
  }

  /** Two pairs of separators cut five fragments. */
  lemma SplitTwoPairs(a: string, b: string, c: string, e: string, f: string, d: string)
    requires |d| > 0 && d[0] !in a && d[0] !in b && d[0] !in c && d[0] !in e && d[0] !in f
    ensures Split(a + d + b + d + c + d + e + d + f, d) == [a, b, c, e, f]
  {
    NoStartSplit(f, d);
    SplitClean(e, d, f);
    SplitClean(c, d, e + d + f);
    SplitClean(b, d, c + d + (e + d + f));
    SplitClean(a, d, b + d + (c + d + (e + d + f)));
    RegroupFive(a, b, c, e, f, d);
    FiveSingletons(a, b, c, e, f);
  }
}
