/**
The worker's map-reduce of one chunk: map output hashed into partitions, partitions read in
whatever order they arrive, one unstable sort by key, equal keys grouped and reduced.
*/
module Worker {
  import opened Permutations
  import opened Strings
  import opened Wrappers
  import Names
  import Sorting

  datatype KeyValue = KeyValue(Key: string, Value: string)

  type Reducer = (string, seq<string>) -> string

  // ------------------------------------------------------- what a group-by is

  /** The values of one key, in order of appearance. */
  function ValuesOf(kvs: seq<KeyValue>, k: string): seq<string> {
    if kvs == [] then []
    else
      var last := kvs[|kvs| - 1];
      ValuesOf(kvs[..|kvs| - 1], k) + if last.Key == k then [last.Value] else []
  }

  ghost predicate HasKey(kvs: seq<KeyValue>, k: string) {
    exists i :: 0 <= i < |kvs| && kvs[i].Key == k
  }

  ghost predicate Ascending(pairs: seq<(string, string)>) {
    forall i, j :: 0 <= i < j < |pairs| ==> Less(pairs[i].0, pairs[j].0)
  }

  ghost predicate Lists(pairs: seq<(string, string)>, k: string) {
    exists i :: 0 <= i < |pairs| && pairs[i].0 == k
  }

  /** r is the reducer's answer for k on some arrangement of exactly k's values. */
  ghost predicate Reduces(kvs: seq<KeyValue>, f: Reducer, k: string, r: string) {
    exists vs: seq<string> :: multiset(vs) == multiset(ValuesOf(kvs, k)) && r == f(k, vs)
  }

  /** Each key of kvs exactly once, ascending, reduced on exactly its values. */
  ghost predicate IsGroupBy(kvs: seq<KeyValue>, f: Reducer, pairs: seq<(string, string)>) {
    && Ascending(pairs)
    && (forall k: string :: Lists(pairs, k) <==> HasKey(kvs, k))
    && (forall i :: 0 <= i < |pairs| ==> Reduces(kvs, f, pairs[i].0, pairs[i].1))
  }

  ghost predicate OrderInsensitive(f: Reducer) {
    forall k: string, a: seq<string>, b: seq<string> :: multiset(a) == multiset(b) ==> f(k, a) == f(k, b)
  }

  /** For a reducer that ignores order there is only one group-by. */
  lemma {:induction false} GroupByUnique(kvs: seq<KeyValue>, f: Reducer, p: seq<(string, string)>,
      q: seq<(string, string)>)
    requires OrderInsensitive(f) && IsGroupBy(kvs, f, p) && IsGroupBy(kvs, f, q)
    ensures p == q
  {
    forall k: string ensures Lists(p, k) <==> Lists(q, k) {
      assert Lists(p, k) <==> HasKey(kvs, k);
    }
    SameKeysSameOrder(p, q);
    forall i | 0 <= i < |p| ensures p[i] == q[i] {
      assert Reduces(kvs, f, p[i].0, p[i].1) && Reduces(kvs, f, q[i].0, q[i].1);
    }
  }

  lemma {:induction false} SameKeysSameOrder(p: seq<(string, string)>, q: seq<(string, string)>)
    requires Ascending(p) && Ascending(q)
    requires forall k: string :: Lists(p, k) <==> Lists(q, k)
    ensures |p| == |q| && forall i :: 0 <= i < |p| ==> p[i].0 == q[i].0
    decreases |p|
  {
    if p == [] || q == [] {
      if p != [] { assert Lists(p, p[0].0); }
      if q != [] { assert Lists(q, q[0].0); }
    } else {
      var m, n := |p| - 1, |q| - 1;
      assert Lists(p, p[m].0) && Lists(q, q[n].0);
      LastIsGreatest(p, q);
      LastIsGreatest(q, p);
      Antisymmetric(p[m].0, q[n].0);
      forall k: string ensures Lists(p[..m], k) <==> Lists(q[..n], k) {
        DropLastKey(p, k);
        DropLastKey(q, k);
        assert Lists(p, k) <==> Lists(q, k);
      }
      SameKeysSameOrder(p[..m], q[..n]);
    }
  }

  // q's last key, which p lists, is not above p's last key.
  lemma LastIsGreatest(p: seq<(string, string)>, q: seq<(string, string)>)
    requires Ascending(p) && p != [] && q != [] && Lists(p, q[|q| - 1].0)
    ensures !Less(p[|p| - 1].0, q[|q| - 1].0)
  {
    var i :| 0 <= i < |p| && p[i].0 == q[|q| - 1].0;
    if Less(p[|p| - 1].0, p[i].0) {
      Irreflexive(p[i].0);
      if i < |p| - 1 { Transitive(p[i].0, p[|p| - 1].0, p[i].0); }
    }
  }

  lemma DropLastKey(p: seq<(string, string)>, k: string)
    requires Ascending(p) && p != []
    ensures Lists(p[..|p| - 1], k) <==> Lists(p, k) && k != p[|p| - 1].0
  {
    var m := |p| - 1;
    if Lists(p[..m], k) {
      var i :| 0 <= i < m && p[..m][i].0 == k;
      assert p[i].0 == k && Less(p[i].0, p[m].0);
      Irreflexive(k);
    }
    if Lists(p, k) && k != p[m].0 {
      var i :| 0 <= i < |p| && p[i].0 == k;
      assert p[..m][i].0 == k;
    }
  }

  // --------------------------------------------------- the reference group-by

  function InsertKey(keys: seq<string>, k: string): seq<string> {
    if keys == [] then [k]
    else if k == keys[0] then keys
    else if Less(k, keys[0]) then [k] + keys
    else [keys[0]] + InsertKey(keys[1..], k)
  }

  /** The distinct keys, ascending. */
  function Keys(kvs: seq<KeyValue>): seq<string> {
    if kvs == [] then [] else InsertKey(Keys(kvs[..|kvs| - 1]), kvs[|kvs| - 1].Key)
  }

  /** The direct group-by: each key with the reducer applied to its values as they came. */
  function GroupBy(kvs: seq<KeyValue>, f: Reducer): seq<(string, string)> {
    var keys := Keys(kvs);
    seq(|keys|, i requires 0 <= i < |keys| => (keys[i], f(keys[i], ValuesOf(kvs, keys[i]))))
  }

  ghost predicate AscendingKeys(keys: seq<string>) {
    forall i, j :: 0 <= i < j < |keys| ==> Less(keys[i], keys[j])
  }

  lemma {:induction false} InsertKeyAdds(keys: seq<string>, k: string)
    ensures forall x: string :: x in InsertKey(keys, k) <==> x in keys || x == k
  {
    if keys != [] && k != keys[0] && !Less(k, keys[0]) {
      InsertKeyAdds(keys[1..], k);
      assert keys == [keys[0]] + keys[1..];
    }
  }

  lemma {:induction false} InsertKeyAscending(keys: seq<string>, k: string)
    requires AscendingKeys(keys)
    ensures AscendingKeys(InsertKey(keys, k))
  {
    if keys == [] || k == keys[0] {
    } else if Less(k, keys[0]) {
      var r := [k] + keys;
      forall i, j | 0 <= i < j < |r| ensures Less(r[i], r[j]) {
        if i == 0 && j > 1 { Transitive(k, keys[0], keys[j - 1]); }
      }
    } else {
      var rest := InsertKey(keys[1..], k);
      InsertKeyAscending(keys[1..], k);
      InsertKeyAdds(keys[1..], k);
      Total(k, keys[0]);
      forall j | 0 <= j < |rest| ensures Less(keys[0], rest[j]) {
        assert rest[j] in rest;
      }
    }
  }

  lemma {:induction false} KeysCorrect(kvs: seq<KeyValue>)
    ensures AscendingKeys(Keys(kvs))
    ensures forall k: string :: k in Keys(kvs) <==> HasKey(kvs, k)
  {
    if kvs != [] {
      var front, last := kvs[..|kvs| - 1], kvs[|kvs| - 1];
      KeysCorrect(front);
      InsertKeyAscending(Keys(front), last.Key);
      InsertKeyAdds(Keys(front), last.Key);
      forall k: string ensures HasKey(kvs, k) <==> HasKey(front, k) || k == last.Key {
        HasKeySplit(kvs, k);
      }
    }
  }

  lemma HasKeySplit(kvs: seq<KeyValue>, k: string)
    requires kvs != []
    ensures HasKey(kvs, k) <==> HasKey(kvs[..|kvs| - 1], k) || k == kvs[|kvs| - 1].Key
  {
    var front := kvs[..|kvs| - 1];
    if HasKey(front, k) {
      var i :| 0 <= i < |front| && front[i].Key == k;
      assert kvs[i].Key == k;
    }
    if HasKey(kvs, k) {
      var i :| 0 <= i < |kvs| && kvs[i].Key == k;
      if i < |front| { assert front[i].Key == k; }
    }
  }

  /** The reference is a group-by. */
  lemma GroupByIsGroupBy(kvs: seq<KeyValue>, f: Reducer)
    ensures IsGroupBy(kvs, f, GroupBy(kvs, f))
  {
    KeysCorrect(kvs);
    var keys, pairs := Keys(kvs), GroupBy(kvs, f);
    forall k: string ensures Lists(pairs, k) <==> HasKey(kvs, k) {
      if k in keys {
        var i :| 0 <= i < |keys| && keys[i] == k;
        assert pairs[i].0 == k;
      }
    }
    forall i | 0 <= i < |pairs| ensures Reduces(kvs, f, pairs[i].0, pairs[i].1) {
      assert multiset(ValuesOf(kvs, keys[i])) == multiset(ValuesOf(kvs, keys[i]));
    }
  }

  // ------------------------------------------- grouping a key-sorted sequence

  ghost predicate SortedByKey(all: seq<KeyValue>) {
    forall i, j :: 0 <= i < j < |all| ==> !Less(all[j].Key, all[i].Key)
  }

  /** Where the run of entries with the first entry's key ends. */
  function RunEnd(all: seq<KeyValue>): (j: nat)
    requires all != []
    ensures 1 <= j <= |all|
    ensures forall i :: 0 <= i < j ==> all[i].Key == all[0].Key
    ensures j < |all| ==> all[j].Key != all[0].Key
  {
    RunEndFrom(all, 1)
  }

  function RunEndFrom(all: seq<KeyValue>, from: nat): (j: nat)
    requires 1 <= from <= |all|
    requires forall i :: 0 <= i < from ==> all[i].Key == all[0].Key
    ensures from <= j <= |all|
    ensures forall i :: 0 <= i < j ==> all[i].Key == all[0].Key
    ensures j < |all| ==> all[j].Key != all[0].Key
    decreases |all| - from
  {
    if from < |all| && all[from].Key == all[0].Key then RunEndFrom(all, from + 1) else from
  }

  function Values(all: seq<KeyValue>): (vs: seq<string>)
    ensures |vs| == |all|
  {
    seq(|all|, i requires 0 <= i < |all| => all[i].Value)
  }

  /** The pairs the grouping loop writes. */
  function Groups(all: seq<KeyValue>, f: Reducer): seq<(string, string)>
    decreases |all|
  {
    if all == [] then []
    else
      var j := RunEnd(all);
      [(all[0].Key, f(all[0].Key, Values(all[..j])))] + Groups(all[j..], f)
  }

  lemma {:induction false} ValuesOfAppend(a: seq<KeyValue>, b: seq<KeyValue>, k: string)
    ensures ValuesOf(a + b, k) == ValuesOf(a, k) + ValuesOf(b, k)
  {
    if b == [] {
      assert a + b == a;
    } else {
      assert (a + b)[..|a + b| - 1] == a + b[..|b| - 1];
      ValuesOfAppend(a, b[..|b| - 1], k);
    }
  }

  lemma {:induction false} ValuesOfRun(run: seq<KeyValue>, key: string, k: string)
    requires forall i :: 0 <= i < |run| ==> run[i].Key == key
    ensures ValuesOf(run, k) == if k == key then Values(run) else []
  {
    if run != [] {
      var front := run[..|run| - 1];
      ValuesOfRun(front, key, k);
      assert Values(run) == Values(front) + [run[|run| - 1].Value];
    }
  }

  lemma {:induction false} ValuesOfAbsent(kvs: seq<KeyValue>, k: string)
    requires !HasKey(kvs, k)
    ensures ValuesOf(kvs, k) == []
  {
    if kvs != [] {
      HasKeySplit(kvs, k);
      ValuesOfAbsent(kvs[..|kvs| - 1], k);
    }
  }

  lemma RestIsAbove(all: seq<KeyValue>)
    requires SortedByKey(all) && all != []
    ensures var j := RunEnd(all);
            SortedByKey(all[j..]) && forall i :: j <= i < |all| ==> Less(all[0].Key, all[i].Key)
  {
    var j := RunEnd(all);
    forall i | j <= i < |all| ensures Less(all[0].Key, all[i].Key) {
      Total(all[0].Key, all[j].Key);
      if i > j { NotLessTransitive(all[0].Key, all[j].Key, all[i].Key); }
    }
  }

  lemma HasKeyAppend(a: seq<KeyValue>, b: seq<KeyValue>, k: string)
    ensures HasKey(a + b, k) <==> HasKey(a, k) || HasKey(b, k)
  {
    if HasKey(a, k) {
      var i :| 0 <= i < |a| && a[i].Key == k;
      assert (a + b)[i].Key == k;
    }
    if HasKey(b, k) {
      var i :| 0 <= i < |b| && b[i].Key == k;
      assert (a + b)[|a| + i].Key == k;
    }
    if HasKey(a + b, k) {
      var i :| 0 <= i < |a + b| && (a + b)[i].Key == k;
      if i < |a| { assert a[i].Key == k; } else { assert b[i - |a|].Key == k; }
    }
  }

  // One run, then a group-by of the rest, whose keys all lie above, is a group-by of the whole.
  lemma RunThenRest(run: seq<KeyValue>, rest: seq<KeyValue>, f: Reducer, tail: seq<(string, string)>)
    requires run != [] && (forall i :: 0 <= i < |run| ==> run[i].Key == run[0].Key)
    requires forall i :: 0 <= i < |rest| ==> Less(run[0].Key, rest[i].Key)
    requires IsGroupBy(rest, f, tail)
    ensures IsGroupBy(run + rest, f, [(run[0].Key, f(run[0].Key, Values(run)))] + tail)
  {
    var key := run[0].Key;
    var pairs := [(key, f(key, Values(run)))] + tail;
    Irreflexive(key);
    forall i | 0 <= i < |tail| ensures Less(key, tail[i].0) {
      assert Lists(tail, tail[i].0);
      var m :| 0 <= m < |rest| && rest[m].Key == tail[i].0;
    }
    forall k: string ensures Lists(pairs, k) <==> HasKey(run + rest, k) {
      HasKeyAppend(run, rest, k);
      ConsLists(pairs[0], tail, k);
      assert HasKey(run, k) <==> k == key by {
        if k == key { assert run[0].Key == k; }
      }
      assert Lists(tail, k) <==> HasKey(rest, k);
    }
    HeadGroup(run, rest, f);
    forall i | 0 <= i < |pairs| ensures Reduces(run + rest, f, pairs[i].0, pairs[i].1) {
      if i > 0 {
        assert Less(key, tail[i - 1].0);
        TailGroup(run, rest, f, tail[i - 1].0, tail[i - 1].1);
      }
    }
  }

  /** Grouping runs of a key-sorted sequence is a group-by of it. */
  lemma {:induction false} GroupsIsGroupBy(all: seq<KeyValue>, f: Reducer)
    requires SortedByKey(all)
    ensures IsGroupBy(all, f, Groups(all, f))
    decreases |all|
  {
    if all != [] {
      var j := RunEnd(all);
      assert all == all[..j] + all[j..];
      RestIsAbove(all);
      GroupsIsGroupBy(all[j..], f);
      RunThenRest(all[..j], all[j..], f, Groups(all[j..], f));
    }
  }

  lemma ConsLists(p: (string, string), tail: seq<(string, string)>, k: string)
    ensures Lists([p] + tail, k) <==> p.0 == k || Lists(tail, k)
  {
    var all := [p] + tail;
    if p.0 == k { assert all[0].0 == k; }
    if Lists(tail, k) {
      var i :| 0 <= i < |tail| && tail[i].0 == k;
      assert all[i + 1].0 == k;
    }
    if Lists(all, k) && p.0 != k {
      var i :| 0 <= i < |all| && all[i].0 == k;
      assert tail[i - 1].0 == k;
    }
  }

  lemma HeadGroup(run: seq<KeyValue>, rest: seq<KeyValue>, f: Reducer)
    requires run != [] && (forall i :: 0 <= i < |run| ==> run[i].Key == run[0].Key) && !HasKey(rest, run[0].Key)
    ensures Reduces(run + rest, f, run[0].Key, f(run[0].Key, Values(run)))
  {
    ValuesOfAppend(run, rest, run[0].Key);
    ValuesOfRun(run, run[0].Key, run[0].Key);
    ValuesOfAbsent(rest, run[0].Key);
    assert ValuesOf(run + rest, run[0].Key) == Values(run);
  }

  lemma TailGroup(run: seq<KeyValue>, rest: seq<KeyValue>, f: Reducer, k: string, r: string)
    requires run != [] && (forall i :: 0 <= i < |run| ==> run[i].Key == run[0].Key) && k != run[0].Key
    requires Reduces(rest, f, k, r)
    ensures Reduces(run + rest, f, k, r)
  {
    ValuesOfAppend(run, rest, k);
    ValuesOfRun(run, run[0].Key, k);
    assert ValuesOf(run + rest, k) == ValuesOf(rest, k);
  }

  // -------------------------------------- rearranging the pairs keeps group-bys

  lemma ValuesOfRemove(t: seq<KeyValue>, n: nat, k: string)
    requires n < |t|
    ensures multiset(ValuesOf(t, k))
              == multiset(ValuesOf(t[..n] + t[n + 1..], k))
               + (if t[n].Key == k then multiset{t[n].Value} else multiset{})
  {
    var a, b := t[..n], t[n + 1..];
    assert t == a + ([t[n]] + b);
    ValuesOfAppend(a, [t[n]] + b, k);
    ValuesOfAppend([t[n]], b, k);
    ValuesOfAppend(a, b, k);
    ValuesOfOne(t[n], k);
  }

  lemma ValuesOfOne(x: KeyValue, k: string)
    ensures ValuesOf([x], k) == if x.Key == k then [x.Value] else []
  {
    assert [x][..0] == [];
  }

  lemma {:induction false} ValuesOfRearranged(s: seq<KeyValue>, t: seq<KeyValue>, k: string)
    requires multiset(s) == multiset(t)
    ensures multiset(ValuesOf(s, k)) == multiset(ValuesOf(t, k))
    decreases |s|
  {
    SameLength(s, t);
    if s != [] {
      var n := DropLast(s, t);
      ValuesOfRearranged(s[..|s| - 1], t[..n] + t[n + 1..], k);
      ValuesOfRemove(t, n, k);
    }
  }

  lemma GroupByOfRearranged(s: seq<KeyValue>, t: seq<KeyValue>, f: Reducer, pairs: seq<(string, string)>)
    requires multiset(s) == multiset(t) && IsGroupBy(s, f, pairs)
    ensures IsGroupBy(t, f, pairs)
  {
    forall k: string ensures HasKey(s, k) <==> HasKey(t, k) {
      if HasKey(s, k) { KeyOfRearranged(s, t, k); }
      if HasKey(t, k) { KeyOfRearranged(t, s, k); }
    }
    forall i | 0 <= i < |pairs| ensures Reduces(t, f, pairs[i].0, pairs[i].1) {
      assert Reduces(s, f, pairs[i].0, pairs[i].1);
      ValuesOfRearranged(s, t, pairs[i].0);
    }
  }

  lemma KeyOfRearranged(s: seq<KeyValue>, t: seq<KeyValue>, k: string)
    requires multiset(s) == multiset(t) && HasKey(s, k)
    ensures HasKey(t, k)
  {
    var i :| 0 <= i < |s| && s[i].Key == k;
    assert s[i] in multiset(s);
    assert s[i] in t;
  }

  // -------------------------------------------------------------- partitions

  /** The entries of one bucket, in order. */
  function Bucket(kvs: seq<KeyValue>, hash: string -> nat, n: nat, b: nat): seq<KeyValue>
    requires n > 0
  {
    if kvs == [] then []
    else
      var last := kvs[|kvs| - 1];
      Bucket(kvs[..|kvs| - 1], hash, n, b) + if hash(last.Key) % n == b then [last] else []
  }

  method ArrangeImmediate(kvs: seq<KeyValue>, hash: string -> nat, nReduce: nat) returns (kvap: array<seq<KeyValue>>)
    requires nReduce > 0
    ensures fresh(kvap) && kvap.Length == nReduce
    ensures forall b :: 0 <= b < nReduce ==> kvap[b] == Bucket(kvs, hash, nReduce, b)
  {
    kvap := new seq<KeyValue>[nReduce](_ => []);
    for i := 0 to |kvs|
      invariant forall b :: 0 <= b < nReduce ==> kvap[b] == Bucket(kvs[..i], hash, nReduce, b)
    {
      assert kvs[..i + 1][..i] == kvs[..i];
      var bucket := hash(kvs[i].Key) % nReduce;
      kvap[bucket] := kvap[bucket] + [kvs[i]];
    }
    assert kvs[..|kvs|] == kvs;
  }

  /** An entry goes to the bucket of its key's hash. */
  lemma BucketOne(x: KeyValue, hash: string -> nat, n: nat, b: nat)
    requires n > 0
    ensures Bucket([x], hash, n, b) == if hash(x.Key) % n == b then [x] else []
  {
    assert [x][..0] == [];
  }

  /** A bucket keeps the order of its entries. */
  lemma {:induction false} BucketAppend(kvs: seq<KeyValue>, more: seq<KeyValue>, hash: string -> nat, n: nat, b: nat)
    requires n > 0
    ensures Bucket(kvs + more, hash, n, b) == Bucket(kvs, hash, n, b) + Bucket(more, hash, n, b)
  {
    if more == [] {
      assert kvs + more == kvs;
    } else {
      var front, last := more[..|more| - 1], more[|more| - 1];
      var end := if hash(last.Key) % n == b then [last] else [];
      assert (kvs + more)[..|kvs + more| - 1] == kvs + front;
      BucketAppend(kvs, front, hash, n, b);
      Associative(Bucket(kvs, hash, n, b), Bucket(front, hash, n, b), end);
    }
  }

  /** What the reducer reads when the partitions arrive in this order. */
  function Arrived(arrival: seq<nat>, kvs: seq<KeyValue>, hash: string -> nat, n: nat): seq<KeyValue>
    requires n > 0
  {
    if arrival == [] then []
    else Arrived(arrival[..|arrival| - 1], kvs, hash, n) + Bucket(kvs, hash, n, arrival[|arrival| - 1])
  }

  lemma {:induction false} BucketCount(kvs: seq<KeyValue>, hash: string -> nat, n: nat, b: nat, x: KeyValue)
    requires n > 0
    ensures multiset(Bucket(kvs, hash, n, b))[x] == if hash(x.Key) % n == b then multiset(kvs)[x] else 0
  {
    if kvs != [] {
      var front := kvs[..|kvs| - 1];
      assert kvs == front + [kvs[|kvs| - 1]];
      BucketCount(front, hash, n, b, x);
    }
  }

  lemma {:induction false} ArrivedCount(arrival: seq<nat>, kvs: seq<KeyValue>, hash: string -> nat, n: nat, x: KeyValue)
    requires n > 0 && NoRepeats(arrival)
    ensures multiset(Arrived(arrival, kvs, hash, n))[x] == if hash(x.Key) % n in arrival then multiset(kvs)[x] else 0
  {
    if arrival != [] {
      var front, b := arrival[..|arrival| - 1], arrival[|arrival| - 1];
      assert arrival == front + [b];
      NoRepeatsFront(front, b);
      ArrivedCount(front, kvs, hash, n, x);
      BucketCount(kvs, hash, n, b, x);
    }
  }

  ghost predicate EachOnce(arrival: seq<nat>, n: nat) {
    forall b: nat :: multiset(arrival)[b] == if b < n then 1 else 0
  }

  /** Hashing into partitions and reading them in any order loses and repeats nothing. */
  lemma ArrivedIsRearranged(arrival: seq<nat>, kvs: seq<KeyValue>, hash: string -> nat, n: nat)
    requires n > 0 && EachOnce(arrival, n)
    ensures multiset(Arrived(arrival, kvs, hash, n)) == multiset(kvs)
  {
    forall x: KeyValue ensures multiset(Arrived(arrival, kvs, hash, n))[x] == multiset(kvs)[x] {
      ArrivedCount(arrival, kvs, hash, n, x);
      var h: nat := hash(x.Key) % n;
      assert multiset(arrival)[h] == 1;
      assert h in multiset(arrival);
    }
  }

  /**
  The pipeline on values: for every hash, number of partitions, arrival order and every
  outcome a sort by key may have, the groups are a group-by of the map output, and the
  direct one when the reducer ignores the order of its values.
  */
  lemma PipelineIsGroupBy(
      kvs: seq<KeyValue>, hash: string -> nat, n: nat, arrival: seq<nat>, all: seq<KeyValue>, f: Reducer)
    requires n > 0 && EachOnce(arrival, n)
    requires SortedByKey(all) && multiset(all) == multiset(Arrived(arrival, kvs, hash, n))
    ensures IsGroupBy(kvs, f, Groups(all, f))
    ensures OrderInsensitive(f) ==> Groups(all, f) == GroupBy(kvs, f)
  {
    ArrivedIsRearranged(arrival, kvs, hash, n);
    GroupsIsGroupBy(all, f);
    GroupByOfRearranged(all, kvs, f, Groups(all, f));
    if OrderInsensitive(f) {
      GroupByIsGroupBy(kvs, f);
      GroupByUnique(kvs, f, Groups(all, f), GroupBy(kvs, f));
    }
  }

  // --------------------------------------------------------------- the methods

  /** The output text: one line a key. */
  function Render(pairs: seq<(string, string)>): string {
    if pairs == [] then ""
    else pairs[0].0 + " " + pairs[0].1 + "\n" + Render(pairs[1..])
  }

  /**
  The rendering of no pairs is empty, that of one is its key, a space, its value and a newline,
  and the rendering of a list is that of its parts: so it ends in a newline or is empty.
  */
  lemma {:induction false} RenderLines(a: seq<(string, string)>, b: seq<(string, string)>)
    ensures Render([]) == "" && forall k: string, v: string :: Render([(k, v)]) == k + " " + v + "\n"
    ensures Render(a + b) == Render(a) + Render(b)
    ensures a != [] ==> Render(a) != "" && Render(a)[|Render(a)| - 1] == '\n'
  {
    if a == [] {
      assert a + b == b;
    } else {
      assert (a + b)[1..] == a[1..] + b;
      RenderLines(a[1..], b);
    }
  }

  predicate KeyLess(a: KeyValue, b: KeyValue) {
    Less(a.Key, b.Key)
  }

  method SortByKey(items: seq<KeyValue>) returns (all: seq<KeyValue>)
    ensures SortedByKey(all) && multiset(all) == multiset(items)
  {
    forall a: KeyValue, b: KeyValue | KeyLess(a, b) ensures !KeyLess(b, a) {
      Asymmetric(a.Key, b.Key);
    }
    forall a: KeyValue, b: KeyValue, c: KeyValue | !KeyLess(a, b) && !KeyLess(b, c) ensures !KeyLess(a, c) {
      NotLessBack(a.Key, b.Key, c.Key);
    }
    all := Sorting.SortSlice(items, KeyLess);
  }

  /** The grouping loop over the sorted entries. */
  method ReduceSorted(all: seq<KeyValue>, reducef: Reducer) returns (output: string)
    ensures output == Render(Groups(all, reducef))
  {
    output := "";
    var i := 0;
    assert all[0..] == all;
    while i < |all|
      invariant 0 <= i <= |all|
      invariant Render(Groups(all, reducef)) == output + Render(Groups(all[i..], reducef))
      decreases |all| - i
    {
      var j, values := CollectRun(all, i);
      var reduced := reducef(all[i].Key, values);
      RenderFrom(all, i, j, reducef);
      Associative(output, all[i].Key + " " + reduced + "\n", Render(Groups(all[j..], reducef)));
      output := output + (all[i].Key + " " + reduced + "\n");
      i := j;
    }
    assert all[i..] == [];
  }

  // The inner loops: the end of the run that starts at i, and its values.
  method CollectRun(all: seq<KeyValue>, i: nat) returns (j: nat, values: seq<string>)
    requires i < |all|
    ensures i < j <= |all| && j - i == RunEnd(all[i..]) && values == Values(all[i..j])
  {
    ghost var rest := all[i..];
    j := i + 1;
    while j < |all| && all[j].Key == all[i].Key
      invariant i < j <= |all|
      invariant forall n :: 0 <= n < j - i ==> rest[n].Key == rest[0].Key
      invariant RunEnd(rest) == RunEndFrom(rest, j - i)
    {
      j := j + 1;
    }
    values := [];
    for k := i to j
      invariant values == Values(rest[..k - i])
    {
      ValuesSnoc(rest, k - i);
      values := values + [all[k].Value];
    }
    assert rest[..j - i] == all[i..j];
  }

  lemma ValuesSnoc(all: seq<KeyValue>, n: nat)
    requires n < |all|
    ensures Values(all[..n + 1]) == Values(all[..n]) + [all[n].Value]
  {
  }

  lemma RenderFrom(all: seq<KeyValue>, i: nat, j: nat, f: Reducer)
    requires i < j <= |all| && j - i == RunEnd(all[i..])
    ensures Render(Groups(all[i..], f))
         == (all[i].Key + " " + f(all[i].Key, Values(all[i..j])) + "\n") + Render(Groups(all[j..], f))
  {
    RenderHead(all[i..], all[i..j], all[j..], f);
  }

  lemma RenderHead(all: seq<KeyValue>, run: seq<KeyValue>, rest: seq<KeyValue>, f: Reducer)
    requires all != [] && run == all[..RunEnd(all)] && rest == all[RunEnd(all)..]
    ensures Render(Groups(all, f)) == (all[0].Key + " " + f(all[0].Key, Values(run)) + "\n") + Render(Groups(rest, f))
  {
    assert Groups(all, f)[1..] == Groups(rest, f);
  }

  /** The order in which the partition files come out of the channel: those that were written. */
  ghost predicate ArrivalOf(arrival: seq<nat>, writes: seq<bool>) {
    forall b: nat :: multiset(arrival)[b] == if b < |writes| && writes[b] then 1 else 0
  }

  /**
  The whole pipeline on one chunk.  `writes` says which partition writers succeed, and
  `reduces` whether the reducer reads and writes its files without error.
  */
  method RunMapReducePipeline(
      mapOutput: seq<KeyValue>, hash: string -> nat, nReduce: nat, reducef: Reducer,
      writes: seq<bool>, arrival: seq<nat>, reduces: bool)
    returns (output: Option<string>)
    requires nReduce > 0 && |writes| == nReduce && ArrivalOf(arrival, writes)
    ensures output.Some? <==> reduces && forall b :: 0 <= b < nReduce ==> writes[b]
    ensures output.Some? ==> exists pairs :: IsGroupBy(mapOutput, reducef, pairs) && output.value == Render(pairs)
    ensures output.Some? && OrderInsensitive(reducef) ==> output.value == Render(GroupBy(mapOutput, reducef))
  {
    var partitions := ArrangeImmediate(mapOutput, hash, nReduce);
    var all: seq<KeyValue> := [];
    for k := 0 to |arrival|
      invariant all == Arrived(arrival[..k], mapOutput, hash, nReduce)
    {
      assert arrival[k] in multiset(arrival);
      assert arrival[..k + 1][..k] == arrival[..k];
      all := all + partitions[arrival[k]];
    }
    assert arrival[..|arrival|] == arrival;
    var sorted := SortByKey(all);
    var text := ReduceSorted(sorted, reducef);
    if !reduces || false in writes {
      return None;
    }
    PipelineIsGroupBy(mapOutput, hash, nReduce, arrival, sorted, reducef);
    return Some(text);
  }

  // --------------------------------------------------------- the default job

  /** How many characters some text has before its first space. */
  function WordEnd(s: string, space: char -> bool): (n: nat)
    ensures n <= |s| && (forall i :: 0 <= i < n ==> !space(s[i])) && (n < |s| ==> space(s[n]))
  {
    if s == "" || space(s[0]) then 0 else 1 + WordEnd(s[1..], space)
  }

  /** strings.Fields: the maximal runs without a space. */
  function Fields(s: string, space: char -> bool): seq<string>
    decreases |s|
  {
    if s == "" then []
    else if space(s[0]) then Fields(s[1..], space)
    else
      var n := WordEnd(s, space);
      [s[..n]] + Fields(s[n..], space)
  }

  ghost predicate Spaceless(s: string, space: char -> bool) {
    forall i :: 0 <= i < |s| ==> !space(s[i])
  }

  /** Text without a space is one word. */
  lemma FieldsOfWord(s: string, space: char -> bool)
    requires s != "" && Spaceless(s, space)
    ensures Fields(s, space) == [s]
  {
    assert WordEnd(s, space) == |s|;
    assert s[..|s|] == s && s[|s|..] == "";
  }

  /** A space divides the words before it from those behind it. */
  lemma {:induction false} FieldsDivide(a: string, c: char, b: string, space: char -> bool)
    requires space(c)
    ensures Fields(a + ([c] + b), space) == Fields(a, space) + Fields(b, space)
    decreases |a|
  {
    var rest := [c] + b;
    var s := a + rest;
    assert rest[1..] == b;
    if a == "" {
      assert s == rest;
    } else if space(a[0]) {
      assert s[1..] == a[1..] + rest;
      FieldsDivide(a[1..], c, b, space);
    } else {
      var n := WordEnd(a, space);
      WordEndBefore(a, rest, space);
      FirstWord(s, a[..n], a[n..] + rest, space);
      FirstWord(a, a[..n], a[n..], space);
      FieldsDivide(a[n..], c, b, space);
      Associative([a[..n]], Fields(a[n..], space), Fields(b, space));
    }
  }

  lemma FirstWord(s: string, word: string, rest: string, space: char -> bool)
    requires s == word + rest && word != "" && WordEnd(s, space) == |word|
    ensures Fields(s, space) == [word] + Fields(rest, space)
  {
    assert s[..|word|] == word && s[|word|..] == rest;
  }

  lemma {:induction false} WordEndBefore(a: string, rest: string, space: char -> bool)
    requires rest != "" && space(rest[0])
    ensures WordEnd(a + rest, space) == WordEnd(a, space)
  {
    if a == "" {
      assert a + rest == rest;
    } else if !space(a[0]) {
      assert (a + rest)[1..] == a[1..] + rest;
      WordEndBefore(a[1..], rest, space);
    }
  }

  /** Every word with value "1". */
  method DefaultMap(contents: string, space: char -> bool) returns (result: seq<KeyValue>)
    ensures result == WordPairs(Fields(contents, space))
    ensures |result| == |Fields(contents, space)|
    ensures forall i :: 0 <= i < |result| ==> result[i].Key == Fields(contents, space)[i] && result[i].Value == "1"
  {
    var words := Fields(contents, space);
    result := [];
    for i := 0 to |words|
      invariant result == WordPairs(words[..i])
    {
      assert words[..i + 1] == words[..i] + [words[i]];
      result := result + [KeyValue(words[i], "1")];
    }
    assert words[..|words|] == words;
  }

  function WordPairs(words: seq<string>): (kvs: seq<KeyValue>)
    ensures |kvs| == |words|
  {
    seq(|words|, i requires 0 <= i < |words| => KeyValue(words[i], "1"))
  }

  function DefaultReduce(key: string, values: seq<string>): string {
    Names.Decimal(|values|)
  }

  lemma {:induction false} OneEach(words: seq<string>, w: string)
    ensures |ValuesOf(WordPairs(words), w)| == multiset(words)[w]
  {
    if words != [] {
      var front := words[..|words| - 1];
      assert words == front + [words[|words| - 1]];
      assert WordPairs(words)[..|words| - 1] == WordPairs(front);
      OneEach(front, w);
    }
  }

  /** With the default map and reduce the output is the exact word count of the text. */
  lemma WordCount(
      contents: string, space: char -> bool, hash: string -> nat, n: nat, arrival: seq<nat>, all: seq<KeyValue>,
      w: string, count: string)
    requires n > 0 && EachOnce(arrival, n)
    requires SortedByKey(all)
              && multiset(all) == multiset(Arrived(arrival, WordPairs(Fields(contents, space)), hash, n))
    ensures var words := Fields(contents, space);
            (w, count) in Groups(all, DefaultReduce) <==> w in words && count == Names.Decimal(multiset(words)[w])
  {
    var words := Fields(contents, space);
    var kvs, pairs := WordPairs(words), Groups(all, DefaultReduce);
    PipelineIsGroupBy(kvs, hash, n, arrival, all, DefaultReduce);
    assert Lists(pairs, w) <==> HasKey(kvs, w);
    assert HasKey(kvs, w) <==> w in words by {
      if w in words {
        var i :| 0 <= i < |words| && words[i] == w;
        assert kvs[i].Key == w;
      }
    }
    forall i | 0 <= i < |pairs| && pairs[i].0 == w ensures pairs[i].1 == Names.Decimal(multiset(words)[w]) {
      assert Reduces(kvs, DefaultReduce, w, pairs[i].1);
      var vs: seq<string> :| multiset(vs) == multiset(ValuesOf(kvs, w)) && pairs[i].1 == DefaultReduce(w, vs);
      SameLength(vs, ValuesOf(kvs, w));
      OneEach(words, w);
    }
    if w in words && count == Names.Decimal(multiset(words)[w]) {
      var i :| 0 <= i < |pairs| && pairs[i].0 == w;
      assert pairs[i] == (w, count);
    }
  }
}
