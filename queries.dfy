/**
 * The LINQ operators the services are written with (`Any`, `Where`,
 * `FirstOrDefault`, `Select`, `SelectMany`, `Distinct`, `GroupBy(..).Count()`, `OrderBy`),
 * each stated against a declarative description of its result.
 */
module Queries {
  import opened Outcomes

  /** `s.Any(p)` */
  function Any<T>(s: seq<T>, p: T -> bool): (b: bool)
    ensures b <==> exists i :: 0 <= i < |s| && p(s[i])
  {
    if s == [] then false
    else
      var rest := Any(s[1..], p);
      assert forall i :: 1 <= i < |s| ==> s[1..][i - 1] == s[i];
      p(s[0]) || rest
  }

  /** `s.Where(p)`: the elements satisfying p, in order, with their multiplicities. */
  function Where<T(!new)>(s: seq<T>, p: T -> bool): (r: seq<T>)
    ensures |r| <= |s|
    ensures forall x :: multiset(r)[x] == if p(x) then multiset(s)[x] else 0
    ensures forall x :: x in r <==> x in s && p(x)
  {
    if s == [] then []
    else
      assert s == [s[0]] + s[1..];
      (if p(s[0]) then [s[0]] else []) + Where(s[1..], p)
  }

  /** A filter every element passes returns the sequence itself. */
  lemma {:induction false} WhereAll<T(!new)>(s: seq<T>, p: T -> bool)
    requires forall i :: 0 <= i < |s| ==> p(s[i])
    ensures Where(s, p) == s
  {
    if s == [] {
    } else {
      var tail := s[1..];
      forall i | 0 <= i < |tail| ensures p(tail[i]) {
        assert tail[i] == s[i + 1];
      }
      WhereAll(tail, p);
      calc {
        Where(s, p);
        (if p(s[0]) then [s[0]] else []) + Where(tail, p);
        [s[0]] + tail;
        s;
      }
    }
  }

  /** `s.FirstOrDefault(p)`, with `None` for the default `null`. */
  function FirstOrDefault<T>(s: seq<T>, p: T -> bool): (r: Option<T>)
    ensures r.None? <==> forall i :: 0 <= i < |s| ==> !p(s[i])
    ensures r.Some? ==> exists i :: 0 <= i < |s| && s[i] == r.value && p(s[i]) &&
                                   forall j :: 0 <= j < i ==> !p(s[j])
  {
    if s == [] then None
    else if p(s[0]) then Some(s[0])
    else
      var r := FirstOrDefault(s[1..], p);
      assert forall i :: 1 <= i < |s| ==> s[1..][i - 1] == s[i];
      r
  }

  /** `s.Select(f)` */
  function Select<T, U>(s: seq<T>, f: T -> U): (r: seq<U>)
    ensures |r| == |s|
    ensures forall i :: 0 <= i < |s| ==> r[i] == f(s[i])
  {
    if s == [] then [] else [f(s[0])] + Select(s[1..], f)
  }

  /** `s.SelectMany(f)`: the sequences f yields, concatenated in order. */
  function SelectMany<T, U(!new)>(s: seq<T>, f: T -> seq<U>): (r: seq<U>)
    ensures forall y :: y in r <==> exists i :: 0 <= i < |s| && y in f(s[i])
  {
    if s == [] then []
    else
      var rest := SelectMany(s[1..], f);
      assert forall i :: 1 <= i < |s| ==> s[1..][i - 1] == s[i];
      f(s[0]) + rest
  }

  predicate NoDuplicates<T(==)>(s: seq<T>) {
    forall i, j :: 0 <= i < j < |s| ==> s[i] != s[j]
  }

  /** `s.Distinct()`: each value once, in order of first occurrence. */
  function Distinct<T(==,!new)>(s: seq<T>): (r: seq<T>)
    ensures NoDuplicates(r)
    ensures forall x :: x in r <==> x in s
    ensures |r| <= |s|
  {
    if s == [] then []
    else
      var d := Distinct(s[..|s| - 1]);
      assert s == s[..|s| - 1] + [s[|s| - 1]];
      if s[|s| - 1] in d then d else d + [s[|s| - 1]]
  }

  /** One group of `GroupBy(key).Select(g => (g.Key, g.Count()))`. */
  datatype Group<K> = Group(key: K, count: nat)

  predicate DistinctKeys<K(==)>(gs: seq<Group<K>>) {
    forall i, j :: 0 <= i < j < |gs| ==> gs[i].key != gs[j].key
  }

  predicate PositiveCounts<K>(gs: seq<Group<K>>) {
    forall i :: 0 <= i < |gs| ==> gs[i].count > 0
  }

  /** The count of the group keyed k, or 0 when there is none. */
  function CountOf<K(==)>(gs: seq<Group<K>>, k: K): nat {
    if gs == [] then 0 else if gs[0].key == k then gs[0].count else CountOf(gs[1..], k)
  }

  /** `groups.Sum(g => g.Count)` */
  function Total<K>(gs: seq<Group<K>>): nat {
    if gs == [] then 0 else gs[0].count + Total(gs[1..])
  }

  /** Some group is keyed k. */
  predicate HasKey<K(==)>(gs: seq<Group<K>>, k: K) {
    exists i :: 0 <= i < |gs| && gs[i].key == k
  }

  /** Adds one element with key k to the groups: the group keyed k grows by one, or a new one is appended. */
  function Bump<K(==)>(gs: seq<Group<K>>, k: K): seq<Group<K>> {
    if gs == [] then [Group(k, 1)]
    else if gs[0].key == k then [Group(k, gs[0].count + 1)] + gs[1..]
    else [gs[0]] + Bump(gs[1..], k)
  }

  lemma {:induction false} BumpCounts<K>(gs: seq<Group<K>>, k: K)
    ensures Total(Bump(gs, k)) == Total(gs) + 1
    ensures forall k' :: CountOf(Bump(gs, k), k') == CountOf(gs, k') + (if k' == k then 1 else 0)
  {
    if gs != [] && gs[0].key != k {
      BumpCounts(gs[1..], k);
      assert Bump(gs, k)[1..] == Bump(gs[1..], k);
    } else if gs != [] {
      assert Bump(gs, k)[1..] == gs[1..];
    }
  }

  lemma {:induction false} BumpKeys<K>(gs: seq<Group<K>>, k: K)
    ensures forall k' :: HasKey(Bump(gs, k), k') <==> k' == k || HasKey(gs, k')
  {
    var r := Bump(gs, k);
    if gs == [] {
      assert r[0].key == k;
    } else if gs[0].key == k {
      assert forall i :: 0 <= i < |r| ==> r[i].key == gs[i].key;
    } else {
      var rest := Bump(gs[1..], k);
      BumpKeys(gs[1..], k);
      assert forall i :: 1 <= i < |r| ==> r[i] == rest[i - 1];
      assert forall i :: 1 <= i < |gs| ==> gs[i] == gs[1..][i - 1];
      forall k' ensures HasKey(r, k') <==> k' == k || HasKey(gs, k') {
        if HasKey(rest, k') {
          var i :| 0 <= i < |rest| && rest[i].key == k';
          assert r[i + 1].key == k';
        }
        if HasKey(r, k') && k' != gs[0].key {
          var i :| 0 <= i < |r| && r[i].key == k';
          assert rest[i - 1].key == k';
        }
        if HasKey(gs[1..], k') {
          var i :| 0 <= i < |gs[1..]| && gs[1..][i].key == k';
          assert gs[i + 1].key == k';
        }
        if HasKey(gs, k') && k' != gs[0].key {
          var i :| 0 <= i < |gs| && gs[i].key == k';
          assert gs[1..][i - 1].key == k';
        }
        assert r[0].key == gs[0].key;
      }
    }
  }

  lemma {:induction false} BumpShape<K>(gs: seq<Group<K>>, k: K)
    requires DistinctKeys(gs) && PositiveCounts(gs)
    ensures DistinctKeys(Bump(gs, k)) && PositiveCounts(Bump(gs, k))
  {
    var r := Bump(gs, k);
    if gs != [] && gs[0].key != k {
      var rest := Bump(gs[1..], k);
      BumpShape(gs[1..], k);
      BumpKeys(gs[1..], k);
      assert forall i :: 1 <= i < |r| ==> r[i] == rest[i - 1];
      assert forall i :: 1 <= i < |gs| ==> gs[i] == gs[1..][i - 1];
      assert !HasKey(gs[1..], gs[0].key);
      assert !HasKey(rest, gs[0].key);
    } else if gs != [] {
      assert forall i :: 0 <= i < |r| ==> r[i].key == gs[i].key;
    }
  }

  /** `keys.GroupBy(k => k).Select(g => (g.Key, g.Count()))`, groups in order of first occurrence. */
  function GroupCount<K(==,!new)>(keys: seq<K>): (gs: seq<Group<K>>)
    ensures DistinctKeys(gs) && PositiveCounts(gs)
    ensures forall k :: CountOf(gs, k) == multiset(keys)[k]
    ensures forall k :: HasKey(gs, k) <==> k in keys
    ensures Total(gs) == |keys|
  {
    if keys == [] then []
    else
      var init := keys[..|keys| - 1];
      var last := keys[|keys| - 1];
      assert keys == init + [last];
      var gs := GroupCount(init);
      BumpCounts(gs, last);
      BumpKeys(gs, last);
      BumpShape(gs, last);
      Bump(gs, last)
  }

  /** In a group list with distinct keys, CountOf reads back each group's own count. */
  lemma {:induction false} CountOfMember<K>(gs: seq<Group<K>>, i: nat)
    requires DistinctKeys(gs) && i < |gs|
    ensures CountOf(gs, gs[i].key) == gs[i].count
  {
    if i > 0 {
      assert gs[1..][i - 1] == gs[i];
      CountOfMember(gs[1..], i - 1);
    }
  }

  predicate SortedBy<T>(s: seq<T>, key: T -> int) {
    forall i, j :: 0 <= i < j < |s| ==> key(s[i]) <= key(s[j])
  }

  function InsertBy<T>(x: T, s: seq<T>, key: T -> int): (r: seq<T>)
    requires SortedBy(s, key)
    ensures SortedBy(r, key)
    ensures multiset(r) == multiset(s) + multiset{x}
  {
    if s == [] then [x]
    else if key(x) <= key(s[0]) then [x] + s
    else
      var rest := InsertBy(x, s[1..], key);
      assert s == [s[0]] + s[1..];
      forall j | 0 <= j < |rest|
        ensures key(s[0]) <= key(rest[j])
      {
        assert rest[j] in multiset(rest);
        if rest[j] != x {
          assert rest[j] in multiset(s[1..]);
        }
      }
      [s[0]] + rest
  }

  /** `s.OrderBy(key)`: an insertion sort that keeps elements with equal keys in input order. */
  function SortBy<T>(s: seq<T>, key: T -> int): (r: seq<T>)
    ensures SortedBy(r, key)
    ensures multiset(r) == multiset(s)
  {
    if s == [] then []
    else
      assert s == [s[0]] + s[1..];
      InsertBy(s[0], SortBy(s[1..], key), key)
  }
}
