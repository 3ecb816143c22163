/** Rearrangements of a sequence, told by equal multisets. */
module Permutations {

  lemma RemoveOne<A>(t: seq<A>, k: nat)
    requires k < |t|
    ensures multiset(t) == multiset(t[..k] + t[k + 1..]) + multiset{t[k]}
  {
    assert t == t[..k] + [t[k]] + t[k + 1..];
  }

  lemma CancelOne<A>(a: multiset<A>, b: multiset<A>, x: A)
    requires a + multiset{x} == b + multiset{x}
    ensures a == b
  {
    assert a == (a + multiset{x}) - multiset{x};
    assert b == (b + multiset{x}) - multiset{x};
  }

  /** Two rearrangements of one another: drop the last of s and its partner in t. */
  lemma DropLast<A>(s: seq<A>, t: seq<A>) returns (k: nat)
    requires multiset(s) == multiset(t) && s != []
    ensures k < |t| && t[k] == s[|s| - 1]
    ensures multiset(s[..|s| - 1]) == multiset(t[..k] + t[k + 1..])
  {
    var last := s[|s| - 1];
    assert last in multiset(s);
    k :| 0 <= k < |t| && t[k] == last;
    RemoveOne(t, k);
    RemoveOne(s, |s| - 1);
    assert s[..|s| - 1] + s[|s|..] == s[..|s| - 1];
    CancelOne(multiset(s[..|s| - 1]), multiset(t[..k] + t[k + 1..]), last);
  }

  lemma SameLength<A>(s: seq<A>, t: seq<A>)
    requires multiset(s) == multiset(t)
    ensures |s| == |t|
  {
    assert |multiset(s)| == |s| && |multiset(t)| == |t|;
  }

  lemma TwiceInSequence<A>(s: seq<A>, i: nat, j: nat)
    requires i < j < |s| && s[i] == s[j]
    ensures multiset(s)[s[i]] >= 2
  {
    assert s == s[..i] + [s[i]] + s[i + 1..j] + [s[j]] + s[j + 1..];
  }

  ghost predicate NoRepeats<A(!new)>(s: seq<A>) {
    forall x :: multiset(s)[x] <= 1
  }

  lemma NoRepeatsFront<A(!new)>(front: seq<A>, last: A)
    requires NoRepeats(front + [last])
    ensures NoRepeats(front) && last !in front
  {
    assert multiset(front + [last]) == multiset(front) + multiset{last};
    assert multiset(front + [last])[last] <= 1;
    forall x ensures multiset(front)[x] <= 1 {
      assert multiset(front + [last])[x] <= 1;
    }
  }

  lemma CountAppend<A>(s: seq<A>, x: A, y: A)
    ensures multiset(s + [x])[y] == multiset(s)[y] + if x == y then 1 else 0
  {
    assert multiset(s + [x]) == multiset(s) + multiset{x};
  }

  /** A listing of a set repeats nothing. */
  lemma ListingDistinct<A>(s: seq<A>, items: set<A>)
    requires multiset(s) == multiset(items)
    ensures forall i, j :: 0 <= i < j < |s| ==> s[i] != s[j]
    ensures forall x :: x in s <==> x in items
  {
    forall i, j | 0 <= i < j < |s| ensures s[i] != s[j] {
      if s[i] == s[j] {
        TwiceInSequence(s, i, j);
        assert false;
      }
    }
    forall x ensures x in s <==> x in items {
      assert x in multiset(s) <==> x in multiset(items);
    }
  }

  lemma Associative<A>(a: seq<A>, b: seq<A>, c: seq<A>)
    ensures (a + b) + c == a + (b + c)
    ensures a + [] == a && [] + a == a
  {
  }

  lemma SplitAt<A>(s: seq<A>, k: nat)
    requires k <= |s|
    ensures s == s[..k] + s[k..]
  {
  }
}
