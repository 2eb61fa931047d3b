/** General facts about sequences. */
module Sequences {

  ghost function Elements<T>(s: seq<T>): set<T> {
    set x | x in s
  }

  lemma MultisetMembers<T>(a: seq<T>, b: seq<T>)
    requires multiset(a) == multiset(b)
    ensures |a| == |b|
    ensures forall x :: x in a <==> x in b
  {
    assert |multiset(a)| == |a| && |multiset(b)| == |b|;
    assert forall x :: x in a <==> x in multiset(a);
    assert forall x :: x in b <==> x in multiset(b);
  }

  lemma HeadContents<T>(s: seq<T>)
    requires s != []
    ensures multiset(s) == multiset{s[0]} + multiset(s[1..])
  {
    assert s == [s[0]] + s[1..];
  }

  lemma SameTails<T>(a: seq<T>, b: seq<T>)
    requires a != [] && b != [] && a[0] == b[0] && multiset(a) == multiset(b)
    ensures multiset(a[1..]) == multiset(b[1..])
  {
    HeadContents(a);
    HeadContents(b);
    assert multiset(a[1..]) == multiset(a) - multiset{a[0]};
    assert multiset(b[1..]) == multiset(b) - multiset{b[0]};
  }

  /** Taking out one element. */
  lemma WithoutContents<T>(s: seq<T>, i: nat)
    requires i < |s|
    ensures multiset(s) == multiset{s[i]} + multiset(s[..i] + s[i + 1..])
  {
    assert s == s[..i] + [s[i]] + s[i + 1..];
  }

  ghost function Listed<T>(s: set<T>): (r: seq<T>)
    ensures multiset(r) == multiset(s)
  {
    if s == {} then [] else
      var p :| p in s;
      assert multiset(s) == multiset{p} + multiset(s - {p});
      [p] + Listed(s - {p})
  }

  lemma {:induction false} SubsetSize<T>(a: set<T>, b: set<T>)
    requires a <= b
    ensures |a| <= |b|
  {
    if a != {} {
      var x :| x in a;
      SubsetSize(a - {x}, b - {x});
    }
  }

  ghost predicate PairwiseDistinct<T>(s: seq<T>) {
    forall i, j :: 0 <= i < j < |s| ==> s[i] != s[j]
  }

  /** A rearrangement of distinct elements has distinct elements. */
  lemma RearrangedDistinct<T>(a: seq<T>, b: seq<T>)
    requires PairwiseDistinct(a) && multiset(b) == multiset(a)
    ensures PairwiseDistinct(b)
  {
    forall i, j | 0 <= i < j < |b| ensures b[i] != b[j] {
      MultisetMembers(a, b);
      assert b[j] in b && b[j] in a;
      var m :| 0 <= m < |a| && a[m] == b[j];
      WithoutContents(a, m);
      WithoutContents(b, j);
      var others, rest := a[..m] + a[m + 1..], b[..j] + b[j + 1..];
      assert b[j] !in others;
      assert multiset(others) == multiset(a) - multiset{b[j]} == multiset(rest);
      assert b[i] == rest[i] && rest[i] in multiset(rest);
    }
  }

  /** A list with the contents of a set has its elements, each once. */
  lemma ListsSet<T>(listed: seq<T>, s: set<T>)
    requires multiset(listed) == multiset(s)
    ensures PairwiseDistinct(listed) && forall x :: x in listed <==> x in s
  {
    forall x ensures x in listed <==> x in s { assert x in listed <==> x in multiset(listed); }
    forall i, j | 0 <= i < j < |listed| ensures listed[i] != listed[j] {
      WithoutContents(listed, j);
      var rest := listed[..j] + listed[j + 1..];
      assert multiset(s)[listed[j]] == 1 + multiset(rest)[listed[j]];
      assert listed[j] !in multiset(rest);
      assert listed[i] == rest[i] && rest[i] in multiset(rest);
    }
  }
}
