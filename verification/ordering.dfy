/** The final reordering of the outcomes: a map from each correlation name
    to its position (a later position overwrites an earlier one, as in
    `new Map(entries)`), and a stable sort by that position
    (`Array.prototype.sort` is stable). The sort is written as an insertion
    sort over (key, item) pairs. */
module Ordering {

  /** `new Map(names.map((name, index) => [name, index]))` */
  function OrderMap(names: seq<string>): (m: map<string, nat>)
    ensures forall k :: k in m <==> k in names
    ensures forall k | k in m :: m[k] < |names| && names[m[k]] == k
    decreases |names|
  {
    if names == [] then map[]
    else OrderMap(names[..|names| - 1])[names[|names| - 1] := |names| - 1]
  }

  /** A later entry for the same name overwrites an earlier one: no name
      occurs after the position the map gives it. */
  lemma {:induction false} OrderMapIsLast(names: seq<string>)
    ensures forall k, j | k in OrderMap(names) && OrderMap(names)[k] < j < |names| :: names[j] != k
    decreases |names|
  {
    if names != [] {
      var init, last := names[..|names| - 1], names[|names| - 1];
      OrderMapIsLast(init);
      var m', m := OrderMap(init), OrderMap(names);
      assert m == m'[last := |names| - 1];
      forall k, j | k in m && m[k] < j < |names| ensures names[j] != k {
        if k != last {
          assert m[k] == m'[k];
          if j < |init| {
            assert names[j] == init[j];
          }
        }
      }
    }
  }

  /** The map sends each name to its last position; so, when the names are
      pairwise distinct, to its only position. */
  lemma OrderMapLastIndex(names: seq<string>, i: nat)
    requires i < |names|
    ensures names[i] in OrderMap(names) && OrderMap(names)[names[i]] >= i
    ensures (forall a, b | 0 <= a < b < |names| :: names[a] != names[b]) ==> OrderMap(names)[names[i]] == i
  {
    OrderMapIsLast(names);
  }

  type Keyed<T> = (nat, T)

  predicate SortedByKey<T>(s: seq<Keyed<T>>) {
    forall i, j | 0 <= i < j < |s| :: s[i].0 <= s[j].0
  }

  /** The items of `s`, keys dropped. */
  function Items<T>(s: seq<Keyed<T>>): (r: seq<T>)
    ensures |r| == |s|
    ensures forall i | 0 <= i < |s| :: r[i] == s[i].1
  {
    seq(|s|, i requires 0 <= i < |s| => s[i].1)
  }

  /** The elements of `s` whose key is `v`, in order. */
  function WithKey<T>(s: seq<Keyed<T>>, v: nat): seq<Keyed<T>>
    decreases |s|
  {
    if s == [] then []
    else WithKey(s[..|s| - 1], v) + (if s[|s| - 1].0 == v then [s[|s| - 1]] else [])
  }

  lemma AppendSorted<T>(r: seq<Keyed<T>>, y: Keyed<T>)
    requires SortedByKey(r)
    requires forall i | 0 <= i < |r| :: r[i].0 <= y.0
    ensures SortedByKey(r + [y])
  {
  }

  /** Insert `x` into sorted `s` after every element whose key is not above `x`'s. */
  function Insert<T>(x: Keyed<T>, s: seq<Keyed<T>>): (r: seq<Keyed<T>>)
    requires SortedByKey(s)
    ensures SortedByKey(r)
    ensures |r| == |s| + 1
    ensures forall y | y in r :: y == x || y in s
    ensures multiset(r) == multiset(s) + multiset{x}
    decreases |s|
  {
    if s == [] || s[|s| - 1].0 <= x.0 then
      AppendSorted(s, x);
      s + [x]
    else
      var init, last := s[..|s| - 1], s[|s| - 1];
      assert s == init + [last];
      var r' := Insert(x, init);
      assert forall i | 0 <= i < |r'| :: r'[i].0 <= last.0 by {
        forall i | 0 <= i < |r'| ensures r'[i].0 <= last.0 {
          assert r'[i] in r';
        }
      }
      AppendSorted(r', last);
      r' + [last]
  }

  /** The stable sort: insert each element, left to right, into the sorted
      prefix. */
  function SortByKey<T>(s: seq<Keyed<T>>): (r: seq<Keyed<T>>)
    ensures SortedByKey(r)
    ensures |r| == |s|
    ensures multiset(r) == multiset(s)
    decreases |s|
  {
    if s == [] then []
    else
      assert s == s[..|s| - 1] + [s[|s| - 1]];
      Insert(s[|s| - 1], SortByKey(s[..|s| - 1]))
  }

  lemma WithKeyAppendOne<T>(s: seq<Keyed<T>>, x: Keyed<T>, v: nat)
    ensures WithKey(s + [x], v) == WithKey(s, v) + (if x.0 == v then [x] else [])
  {
    assert (s + [x])[..|s|] == s;
  }

  /** Inserting leaves the elements of every other key where they were and
      puts `x` after those with its own key. */
  lemma {:induction false} InsertWithKey<T>(x: Keyed<T>, s: seq<Keyed<T>>, v: nat)
    requires SortedByKey(s)
    ensures WithKey(Insert(x, s), v) == WithKey(s, v) + (if x.0 == v then [x] else [])
    decreases |s|
  {
    if s == [] || s[|s| - 1].0 <= x.0 {
      WithKeyAppendOne(s, x, v);
    } else {
      var init, last := s[..|s| - 1], s[|s| - 1];
      assert s == init + [last];
      InsertWithKey(x, init, v);
      WithKeyAppendOne(Insert(x, init), last, v);
      WithKeyAppendOne(init, last, v);
    }
  }

  /** The sort is stable: for every key, the elements with that key come out
      in the order they went in. */
  lemma {:induction false} SortIsStable<T>(s: seq<Keyed<T>>, v: nat)
    ensures WithKey(SortByKey(s), v) == WithKey(s, v)
    decreases |s|
  {
    if s != [] {
      var init, last := s[..|s| - 1], s[|s| - 1];
      assert s == init + [last];
      SortIsStable(init, v);
      InsertWithKey(last, SortByKey(init), v);
      WithKeyAppendOne(init, last, v);
    }
  }

  /** Elements already in strictly increasing key order are left alone. */
  lemma {:induction false} SortKeepsIncreasing<T>(s: seq<Keyed<T>>)
    requires forall i, j | 0 <= i < j < |s| :: s[i].0 < s[j].0
    ensures SortByKey(s) == s
    decreases |s|
  {
    if s != [] {
      var init, last := s[..|s| - 1], s[|s| - 1];
      SortKeepsIncreasing(init);
      assert init == [] || init[|init| - 1].0 <= last.0;
      assert init + [last] == s;
    }
  }

  lemma ItemsAppendOne<T>(s: seq<Keyed<T>>, x: Keyed<T>)
    ensures Items(s + [x]) == Items(s) + [x.1]
  {
  }

  lemma {:induction false} InsertKeepsItems<T>(x: Keyed<T>, s: seq<Keyed<T>>)
    requires SortedByKey(s)
    ensures multiset(Items(Insert(x, s))) == multiset(Items(s)) + multiset{x.1}
    decreases |s|
  {
    if s == [] || s[|s| - 1].0 <= x.0 {
      ItemsAppendOne(s, x);
    } else {
      var init, last := s[..|s| - 1], s[|s| - 1];
      assert s == init + [last];
      InsertKeepsItems(x, init);
      ItemsAppendOne(Insert(x, init), last);
      ItemsAppendOne(init, last);
    }
  }

  /** The sort moves items about but neither loses nor duplicates any. */
  lemma {:induction false} SortKeepsItems<T>(s: seq<Keyed<T>>)
    ensures multiset(Items(SortByKey(s))) == multiset(Items(s))
    decreases |s|
  {
    if s != [] {
      var init, last := s[..|s| - 1], s[|s| - 1];
      assert s == init + [last];
      SortKeepsItems(init);
      InsertKeepsItems(last, SortByKey(init));
      ItemsAppendOne(init, last);
    }
  }
}
