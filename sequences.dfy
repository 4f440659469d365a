/**
 * Order-preserving operations on sequences that the report script gets from
 * pandas: boolean-mask filtering and `Series.unique`.
 */
module Sequences {

  /** The elements of `s` satisfying `p`, in their original order. */
  function Filter<T>(s: seq<T>, p: T -> bool): (r: seq<T>)
    ensures |r| <= |s|
    ensures forall i :: 0 <= i < |r| ==> p(r[i])
  {
    if |s| == 0 then []
    else if p(s[0]) then [s[0]] + Filter(s[1..], p)
    else Filter(s[1..], p)
  }

  /** Filtering distributes over concatenation: the relative order of the kept elements is the input order. */
  lemma {:induction false} FilterConcat<T>(a: seq<T>, b: seq<T>, p: T -> bool)
    ensures Filter(a + b, p) == Filter(a, p) + Filter(b, p)
  {
    if |a| == 0 {
      assert a + b == b;
    } else {
      assert (a + b)[1..] == a[1..] + b;
      FilterConcat(a[1..], b, p);
    }
  }

  /** Each element is kept exactly as often as it occurs when it satisfies `p`, and never otherwise. */
  lemma {:induction false} FilterCount<T>(s: seq<T>, p: T -> bool, x: T)
    ensures multiset(Filter(s, p))[x] == if p(x) then multiset(s)[x] else 0
  {
    if |s| > 0 {
      assert s == [s[0]] + s[1..];
      FilterCount(s[1..], p, x);
    }
  }

  /** Membership in a filtered sequence, both directions. */
  lemma FilterMembers<T>(s: seq<T>, p: T -> bool)
    ensures forall x :: x in Filter(s, p) <==> x in s && p(x)
  {
    forall x
      ensures x in Filter(s, p) <==> x in s && p(x)
    {
      FilterCount(s, p, x);
      assert x in Filter(s, p) <==> x in multiset(Filter(s, p));
      assert x in s <==> x in multiset(s);
    }
  }

  predicate NoDuplicates<T(==)>(s: seq<T>) {
    forall i, j :: 0 <= i < j < |s| ==> s[i] != s[j]
  }

  /** Position of the first occurrence of `x` in `s`. */
  function FirstIndex<T(==)>(s: seq<T>, x: T): (k: nat)
    requires x in s
    ensures k < |s| && s[k] == x && x !in s[..k]
  {
    if s[0] == x then 0
    else
      assert s == [s[0]] + s[1..];
      var k := 1 + FirstIndex(s[1..], x);
      assert s[..k] == [s[0]] + s[1..][..k - 1];
      k
  }

  /** Appending to `s` does not move the first occurrence of anything already in `s`. */
  lemma {:induction false} FirstIndexAppend<T>(s: seq<T>, e: T, x: T)
    requires x in s
    ensures FirstIndex(s + [e], x) == FirstIndex(s, x)
  {
    if s[0] != x {
      assert (s + [e])[1..] == s[1..] + [e];
      FirstIndexAppend(s[1..], e, x);
    }
  }

  /** The distinct elements of `s`, in order of first appearance (`Series.unique`). */
  function Unique<T(==,!new)>(s: seq<T>): (u: seq<T>)
    ensures NoDuplicates(u)
    ensures forall x :: x in u <==> x in s
  {
    if |s| == 0 then []
    else
      var init := s[..|s| - 1];
      var u := Unique(init);
      assert s == init + [s[|s| - 1]];
      if s[|s| - 1] in u then u else u + [s[|s| - 1]]
  }

  /** `Unique` lists the elements in increasing order of their first occurrence in `s`. */
  lemma {:induction false} UniqueOrder<T(!new)>(s: seq<T>)
    ensures forall i, j :: 0 <= i < j < |Unique(s)| ==> FirstIndex(s, Unique(s)[i]) < FirstIndex(s, Unique(s)[j])
  {
    if |s| > 0 {
      var init := s[..|s| - 1];
      var last := s[|s| - 1];
      assert s == init + [last];
      UniqueOrder(init);
      var u := Unique(init);
      forall x | x in init
        ensures FirstIndex(s, x) == FirstIndex(init, x) < |init|
      {
        FirstIndexAppend(init, last, x);
      }
      if last !in u {
        assert FirstIndex(s, last) == |init|;
      }
    }
  }

  /** The elements listed in `v` in increasing order of first appearance in `s`. */
  ghost predicate InFirstAppearanceOrder<T>(s: seq<T>, v: seq<T>)
    requires forall x :: x in v ==> x in s
  {
    forall i, j :: 0 <= i < j < |v| ==> FirstIndex(s, v[i]) < FirstIndex(s, v[j])
  }

  /** Order of first appearance among elements of `init` is unchanged by appending to it. */
  lemma OrderAfterAppend<T>(init: seq<T>, last: T, v: seq<T>)
    requires forall x :: x in v ==> x in init
    requires InFirstAppearanceOrder(init + [last], v)
    ensures InFirstAppearanceOrder(init, v)
  {
    forall i, j | 0 <= i < j < |v|
      ensures FirstIndex(init, v[i]) < FirstIndex(init, v[j])
    {
      FirstIndexAppend(init, last, v[i]);
      FirstIndexAppend(init, last, v[j]);
    }
  }

  /**
   * The three properties above pin `Unique` down: any duplicate-free
   * sequence with the same elements as `s`, listed in increasing order of
   * first appearance in `s`, is `Unique(s)`.
   */
  lemma {:induction false} UniqueCharacterized<T(!new)>(s: seq<T>, v: seq<T>)
    requires NoDuplicates(v)
    requires forall x :: x in v <==> x in s
    requires InFirstAppearanceOrder(s, v)
    ensures v == Unique(s)
  {
    if |s| == 0 {
      HeadIsMember(v);
    } else {
      var init := s[..|s| - 1];
      var last := s[|s| - 1];
      assert s == init + [last];
      if last in init {
        assert forall x :: x in v <==> x in init;
        OrderAfterAppend(init, last, v);
        UniqueCharacterized(init, v);
      } else {
        LastIsLast(init, last, v);
        var front := v[..|v| - 1];
        assert v == front + [last];
        assert forall i, j :: 0 <= i < j < |front| ==> front[i] == v[i] && front[j] == v[j];
        forall x
          ensures x in front <==> x in init
        {
          if x in front {
            var i :| 0 <= i < |front| && front[i] == x;
            assert v[i] == x && i != |v| - 1;
          }
          if x in init {
            assert x in v && x != last;
          }
        }
        OrderAfterAppend(init, last, front);
        UniqueCharacterized(init, front);
      }
    }
  }

  /** A new element appended to `init` has the latest first appearance, so it closes `v`. */
  lemma LastIsLast<T>(init: seq<T>, last: T, v: seq<T>)
    requires last !in init
    requires NoDuplicates(v)
    requires forall x :: x in v <==> x in init + [last]
    requires InFirstAppearanceOrder(init + [last], v)
    ensures |v| > 0 && v[|v| - 1] == last
  {
    var s := init + [last];
    assert last in s;
    var k :| 0 <= k < |v| && v[k] == last;
    assert FirstIndex(s, last) == |init|;
    var m := |v| - 1;
    assert forall i, j :: 0 <= i <= j < |v| ==> FirstIndex(s, v[i]) <= FirstIndex(s, v[j]);
    assert FirstIndex(s, v[k]) <= FirstIndex(s, v[m]) < |s|;
    assert s[FirstIndex(s, v[m])] == s[|init|] == last;
  }

  /** A non-empty sequence has a member. */
  lemma HeadIsMember<T>(v: seq<T>)
    ensures v != [] ==> v[0] in v
  {
  }
}
