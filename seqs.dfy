/** Generic facts about sequences used to state order and cardinality. */
module Seqs {

  /** `a` is `b` with some elements left out, order kept. */
  predicate IsSubsequence<T(==)>(a: seq<T>, b: seq<T>)
    decreases |b|
  {
    if a == [] then true
    else if b == [] then false
    else if a[0] == b[0] then IsSubsequence(a[1..], b[1..])
    else IsSubsequence(a, b[1..])
  }

  predicate NoDuplicates<T(==)>(s: seq<T>) {
    forall i, j :: 0 <= i < j < |s| ==> s[i] != s[j]
  }

  /** Every sequence is a subsequence of itself. */
  lemma {:induction false} SubsequenceReflexive<T>(s: seq<T>)
    ensures IsSubsequence(s, s)
  {
    if s != [] {
      SubsequenceReflexive(s[1..]);
    }
  }

  /** A subsequence of `b` stays one when an element is put in front of `b`. */
  lemma {:induction false} SubsequenceDropHead<T>(a: seq<T>, b: seq<T>, y: T)
    requires IsSubsequence(a, b)
    ensures IsSubsequence(a, [y] + b)
    decreases |b|, 1
  {
    assert ([y] + b)[1..] == b;
    if a != [] && a[0] == y {
      SubsequenceWeaken(a, b);
    }
  }

  /** Leaving out the head of a subsequence keeps a subsequence. */
  lemma {:induction false} SubsequenceWeaken<T>(a: seq<T>, b: seq<T>)
    requires IsSubsequence(a, b) && a != []
    ensures IsSubsequence(a[1..], b)
    decreases |b|, 0
  {
    assert b != [];
    if a[0] == b[0] {
      SubsequenceDropHead(a[1..], b[1..], b[0]);
      assert [b[0]] + b[1..] == b;
    } else {
      SubsequenceWeaken(a, b[1..]);
      SubsequenceDropHead(a[1..], b[1..], b[0]);
      assert [b[0]] + b[1..] == b;
    }
  }

  /** Every element of a subsequence comes from the sequence. */
  lemma {:induction false} SubsequenceMembers<T>(a: seq<T>, b: seq<T>)
    requires IsSubsequence(a, b)
    ensures forall x :: x in a ==> x in b
    ensures |a| <= |b|
    decreases |b|
  {
    if a != [] && b != [] {
      if a[0] == b[0] {
        SubsequenceMembers(a[1..], b[1..]);
        assert forall x :: x in a ==> x == a[0] || x in a[1..];
      } else {
        SubsequenceMembers(a, b[1..]);
      }
    }
  }

  /**
   * The distinct elements of `s`, each at the position of its first
   * appearance: the order in which an insertion-ordered dictionary or Map
   * first receives its keys.
   */
  function FirstAppearances<T(==,!new)>(s: seq<T>): (r: seq<T>)
    ensures NoDuplicates(r)
    ensures forall x :: x in r <==> x in s
    ensures |r| <= |s|
  {
    if s == [] then []
    else
      var p := FirstAppearances(s[..|s| - 1]);
      var x := s[|s| - 1];
      assert forall y :: y in s <==> y in s[..|s| - 1] || y == x;
      if x in p then p else p + [x]
  }

  /** Of two distinct keys, the one listed first appears in `s` before any occurrence of the other. */
  lemma {:induction false} FirstAppearancesOrder<T(!new)>(s: seq<T>, i: nat, j: nat, p: nat)
    requires i < j < |FirstAppearances(s)| && p < |s| && s[p] == FirstAppearances(s)[j]
    ensures FirstAppearances(s)[i] in s[..p]
  {
    var pre := s[..|s| - 1];
    var x := s[|s| - 1];
    var q := FirstAppearances(pre);
    var r := FirstAppearances(s);
    if x in q {
      assert r == q;
      if p < |pre| {
        FirstAppearancesOrder(pre, i, j, p);
        assert pre[..p] == s[..p];
      } else {
        var k :| 0 <= k < |pre| && pre[k] == x;
        FirstAppearancesOrder(pre, i, j, k);
        assert pre[..k] == s[..k];
        assert forall y :: y in s[..k] ==> y in s[..p];
      }
    } else {
      assert r == q + [x];
      if j < |q| {
        assert r[j] in q;
        assert p < |pre|;
        FirstAppearancesOrder(pre, i, j, p);
        assert pre[..p] == s[..p];
      } else {
        assert x !in pre;
        assert p == |pre|;
        assert r[i] in q;
        assert s[..p] == pre;
      }
    }
  }

  /** A sequence without duplicates has as many distinct elements as positions. */
  lemma {:induction false} DistinctCount<T>(s: seq<T>)
    requires NoDuplicates(s)
    ensures |set x | x in s| == |s|
  {
    if s != [] {
      var pre := s[..|s| - 1];
      DistinctCount(pre);
      assert (set x | x in s) == (set x | x in pre) + {s[|s| - 1]};
      assert s[|s| - 1] !in pre;
    }
  }

  /** The number of first appearances is the number of distinct elements. */
  lemma FirstAppearancesCount<T(!new)>(s: seq<T>)
    ensures |FirstAppearances(s)| == |set x | x in s|
  {
    var r := FirstAppearances(s);
    DistinctCount(r);
    assert (set x | x in r) == (set x | x in s);
  }

  /** A prefix one longer is the prefix followed by the next element. */
  lemma PrefixExtend<T>(s: seq<T>, k: nat)
    requires k < |s|
    ensures s[..k + 1] == s[..k] + [s[k]]
  {
  }

  /** Putting an element in front of a sequence keeps a subsequence of it one, whether or not the element is taken along. */
  lemma SubsequencePrepend<T>(a: seq<T>, b: seq<T>, y: T, take: bool)
    requires IsSubsequence(a, b)
    ensures IsSubsequence(if take then [y] + a else a, [y] + b)
  {
    assert ([y] + b)[1..] == b;
    if take {
      assert ([y] + a)[1..] == a;
    } else {
      SubsequenceDropHead(a, b, y);
    }
  }

  /**
   * If `a` holds the elements of `b` satisfying `p`, each as often as `b`, then
   * putting `y` in front of `b`, and in front of `a` when `p(y)`, keeps that so.
   */
  lemma FilterPrepend<T(!new)>(a: seq<T>, b: seq<T>, y: T, p: T -> bool)
    requires forall x :: multiset(a)[x] == if p(x) then multiset(b)[x] else 0
    ensures var a' := if p(y) then [y] + a else a;
      && (forall x :: multiset(a')[x] == if p(x) then multiset([y] + b)[x] else 0)
      && (forall x :: x in a' <==> x in [y] + b && p(x))
  {
    var a' := if p(y) then [y] + a else a;
    assert multiset([y] + b) == multiset{y} + multiset(b);
    assert multiset([y] + a) == multiset{y} + multiset(a);
    forall x ensures x in a' <==> x in [y] + b && p(x) {
      assert x in a' <==> multiset(a')[x] > 0;
      assert x in [y] + b <==> multiset([y] + b)[x] > 0;
    }
  }

  /** Both parts of a concatenation are contained in it. */
  lemma ConcatMembers<T>(a: seq<T>, b: seq<T>)
    ensures forall x :: x in a ==> x in a + b
    ensures forall x :: x in b ==> x in a + b
  {
  }

  /** The blocks laid end to end. */
  function Flatten<T>(blocks: seq<seq<T>>): seq<T> {
    if blocks == [] then [] else blocks[0] + Flatten(blocks[1..])
  }

  /** Every element of a block is in the flattened sequence. */
  lemma {:induction false} FlattenContains<T>(blocks: seq<seq<T>>, i: nat)
    requires i < |blocks|
    ensures forall x :: x in blocks[i] ==> x in Flatten(blocks)
  {
    ConcatMembers(blocks[0], Flatten(blocks[1..]));
    if i > 0 {
      assert blocks[1..][i - 1] == blocks[i];
      FlattenContains(blocks[1..], i - 1);
    }
  }

  /** Setting a key in a map adds it to the domain and, for a new key, to the end of the key order. */
  lemma MapDomainStep<V>(m: map<string, V>, order: seq<string>, key: string, v: V, m': map<string, V>, order': seq<string>)
    requires forall k :: k in m <==> k in order
    requires m' == m[key := v] && order' == if key in m then order else order + [key]
    ensures forall k :: k in m' <==> k in order'
  {
  }

  /** Overriding a map with one more key is writing that key after overriding with the rest. */
  lemma OverrideStep<K, V>(base: map<K, V>, part: map<K, V>, part': map<K, V>, key: K, v: V)
    requires part'.Keys == part.Keys + {key}
    requires forall k | k in part :: part'[k] == part[k]
    requires part'[key] == v
    ensures (base + part)[key := v] == base + part'
  {
    var lhs := (base + part)[key := v];
    var rhs := base + part';
    assert lhs.Keys == rhs.Keys;
  }
}
