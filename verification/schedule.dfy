/** The timing of the batch: documents are launched a wave at a time (at
    most `Limit` of them), every document of a wave settles in some order
    chosen by the environment, and the next wave is launched only once the
    whole wave has settled (`await Promise.all(chunkPromises)`). Documents are
    named by their position in the expanded list. The completion order of
    each wave is a parameter: every property below holds for every such
    order. */
module Schedule {
  import opened Chunking

  /** The positions `a, a + 1, ..., b - 1`. */
  function Range(a: nat, b: nat): (r: seq<nat>)
    requires a <= b
    ensures |r| == b - a
    ensures forall i | 0 <= i < |r| :: r[i] == a + i
  {
    seq(b - a, i requires 0 <= i < b - a => a + i)
  }

  lemma RangeAppend(a: nat, b: nat, c: nat)
    requires a <= b <= c
    ensures Range(a, b) + Range(b, c) == Range(a, c)
  {
  }

  /** `p` is a completion order of a wave of `m` documents: a permutation
      of the offsets `0 .. m - 1`. */
  predicate IsOrder(p: seq<nat>, m: nat) {
    multiset(p) == multiset(Range(0, m))
  }

  lemma OrderFacts(p: seq<nat>, m: nat)
    requires IsOrder(p, m)
    ensures |p| == m
    ensures forall i | 0 <= i < |p| :: p[i] < m
    ensures forall k | 0 <= k < m :: k in p
  {
    assert |multiset(p)| == |p|;
    forall i | 0 <= i < |p| ensures p[i] < m {
      assert p[i] in multiset(p);
    }
    forall k | 0 <= k < m ensures k in p {
      assert Range(0, m)[k] == k;
      assert k in multiset(Range(0, m));
    }
  }

  /** The order in which `p` lists offsets: the identity permutation is one. */
  lemma InOrderIsOrder(m: nat)
    ensures IsOrder(Range(0, m), m)
  {
  }

  datatype Event = Launch(doc: nat) | Settle(doc: nat)

  /** The documents of the events of one kind, in event order. */
  function DocsOf(ev: seq<Event>, launches: bool): seq<nat>
    decreases |ev|
  {
    if ev == [] then []
    else
      var e := ev[|ev| - 1];
      DocsOf(ev[..|ev| - 1], launches) + (if e.Launch? == launches then [e.doc] else [])
  }

  function Launched(ev: seq<Event>): seq<nat> {
    DocsOf(ev, true)
  }

  function Settled(ev: seq<Event>): seq<nat> {
    DocsOf(ev, false)
  }

  lemma {:induction false} DocsOfAppend(a: seq<Event>, b: seq<Event>, launches: bool)
    ensures DocsOf(a + b, launches) == DocsOf(a, launches) + DocsOf(b, launches)
    decreases |b|
  {
    if b == [] {
      assert a + b == a;
    } else {
      var b', e := b[..|b| - 1], b[|b| - 1];
      assert (a + b)[..|a + b| - 1] == a + b';
      DocsOfAppend(a, b', launches);
    }
  }

  function Launches(ds: seq<nat>): seq<Event> {
    seq(|ds|, i requires 0 <= i < |ds| => Launch(ds[i]))
  }

  function Settles(ds: seq<nat>): seq<Event> {
    seq(|ds|, i requires 0 <= i < |ds| => Settle(ds[i]))
  }

  lemma {:induction false} LaunchesDocs(ds: seq<nat>)
    ensures Launched(Launches(ds)) == ds && Settled(Launches(ds)) == []
    decreases |ds|
  {
    if ds != [] {
      var ds' := ds[..|ds| - 1];
      LaunchesDocs(ds');
      assert Launches(ds)[..|ds| - 1] == Launches(ds');
      assert ds == ds' + [ds[|ds| - 1]];
    }
  }

  lemma {:induction false} SettlesDocs(ds: seq<nat>)
    ensures Settled(Settles(ds)) == ds && Launched(Settles(ds)) == []
    decreases |ds|
  {
    if ds != [] {
      var ds' := ds[..|ds| - 1];
      SettlesDocs(ds');
      assert Settles(ds)[..|ds| - 1] == Settles(ds');
      assert ds == ds' + [ds[|ds| - 1]];
    }
  }

  /** The documents of wave `w` in the order they settle. */
  function Completion(w: seq<nat>, p: seq<nat>): seq<nat>
    requires forall i | 0 <= i < |p| :: p[i] < |w|
  {
    seq(|p|, i requires 0 <= i < |p| => w[p[i]])
  }

  /** One wave: every document is launched, then they settle in order `p`. */
  function WaveEvents(w: seq<nat>, p: seq<nat>): seq<Event>
    requires forall i | 0 <= i < |p| :: p[i] < |w|
  {
    Launches(w) + Settles(Completion(w, p))
  }

  lemma WaveDocs(w: seq<nat>, p: seq<nat>)
    requires forall i | 0 <= i < |p| :: p[i] < |w|
    ensures Launched(WaveEvents(w, p)) == w
    ensures Settled(WaveEvents(w, p)) == Completion(w, p)
  {
    var c := Completion(w, p);
    DocsOfAppend(Launches(w), Settles(c), true);
    DocsOfAppend(Launches(w), Settles(c), false);
    LaunchesDocs(w);
    SettlesDocs(c);
  }

  lemma CompletionAppend(w: seq<nat>, a: seq<nat>, b: seq<nat>)
    requires forall i | 0 <= i < |a| :: a[i] < |w|
    requires forall i | 0 <= i < |b| :: b[i] < |w|
    ensures Completion(w, a + b) == Completion(w, a) + Completion(w, b)
  {
  }

  lemma CompletionRemove(w: seq<nat>, b: seq<nat>, j: nat)
    requires forall i | 0 <= i < |b| :: b[i] < |w|
    requires j < |b|
    ensures multiset(b[..j] + b[j + 1..]) == multiset(b) - multiset{b[j]}
    ensures multiset(Completion(w, b))
         == multiset(Completion(w, b[..j] + b[j + 1..])) + multiset{w[b[j]]}
  {
    var l, x, r := b[..j], b[j], b[j + 1..];
    SplitAt(b, j);
    CompletionAppend(w, l, [x]);
    CompletionAppend(w, l + [x], r);
    CompletionAppend(w, l, r);
    var cl, cr := Completion(w, l), Completion(w, r);
    assert Completion(w, [x]) == [w[x]];
    assert Completion(w, b) == cl + [w[x]] + cr;
    assert multiset(Completion(w, b)) == multiset(cl) + multiset{w[x]} + multiset(cr);
  }

  lemma SplitAt<T>(b: seq<T>, j: nat)
    requires j < |b|
    ensures b == b[..j] + [b[j]] + b[j + 1..]
    ensures multiset(b[..j] + b[j + 1..]) == multiset(b) - multiset{b[j]}
  {
    assert b == b[..j] + [b[j]] + b[j + 1..];
  }

  lemma IndexOf(b: seq<nat>, x: nat) returns (j: nat)
    requires x in multiset(b)
    ensures j < |b| && b[j] == x
  {
    j :| 0 <= j < |b| && b[j] == x;
  }

  /** Reading `w` through two index lists with the same elements gives the
      same elements. */
  lemma {:induction false} CompletionRespectsMultiset(w: seq<nat>, a: seq<nat>, b: seq<nat>)
    requires forall i | 0 <= i < |a| :: a[i] < |w|
    requires forall i | 0 <= i < |b| :: b[i] < |w|
    requires multiset(a) == multiset(b)
    ensures multiset(Completion(w, a)) == multiset(Completion(w, b))
    decreases |a|
  {
    if a == [] {
      assert |multiset(b)| == |b|;
    } else {
      var a', x := a[..|a| - 1], a[|a| - 1];
      assert a == a' + [x];
      assert multiset(a') == multiset(a) - multiset{x};
      var j := IndexOf(b, x);
      var b' := b[..j] + b[j + 1..];
      CompletionRemove(w, b, j);
      assert forall i | 0 <= i < |b'| :: b'[i] in multiset(b);
      CompletionRespectsMultiset(w, a', b');
      CompletionAppend(w, a', [x]);
      assert Completion(w, [x]) == [w[x]];
    }
  }

  /** A wave settles every one of its documents exactly once, whatever the
      completion order. */
  lemma CompletionIsPermutation(w: seq<nat>, p: seq<nat>)
    requires IsOrder(p, |w|)
    ensures forall i | 0 <= i < |p| :: p[i] < |w|
    ensures multiset(Completion(w, p)) == multiset(w)
  {
    OrderFacts(p, |w|);
    var z := Range(0, |w|);
    CompletionRespectsMultiset(w, p, z);
    assert Completion(w, z) == w;
  }

  /** One completion order for each wave. */
  predicate Ordered(waves: seq<seq<nat>>, orders: seq<seq<nat>>) {
    && |orders| == |waves|
    && forall k | 0 <= k < |waves| :: IsOrder(orders[k], |waves[k]|)
  }

  /** The events of waves `k`, `k + 1`, ..., each launched only after the
      previous one has wholly settled. */
  function EventsFrom(waves: seq<seq<nat>>, orders: seq<seq<nat>>, k: nat): (ev: seq<Event>)
    requires Ordered(waves, orders) && k <= |waves|
    ensures k < |waves| ==> |ev| == 2 * |waves[k]| + |EventsFrom(waves, orders, k + 1)|
    decreases |waves| - k
  {
    if k == |waves| then []
    else
      OrderFacts(orders[k], |waves[k]|);
      WaveEvents(waves[k], orders[k]) + EventsFrom(waves, orders, k + 1)
  }

  /** The whole run. */
  function Events(waves: seq<seq<nat>>, orders: seq<seq<nat>>): seq<Event>
    requires Ordered(waves, orders)
  {
    EventsFrom(waves, orders, 0)
  }

  lemma FlattenStep<T>(waves: seq<seq<T>>, k: nat)
    requires k < |waves|
    ensures Flatten(waves[k..]) == waves[k] + Flatten(waves[k + 1..])
  {
    assert waves[k..][1..] == waves[k + 1..];
  }

  /** The launched and settled documents of wave `k` followed by the later
      waves. */
  lemma WaveThenRest(waves: seq<seq<nat>>, orders: seq<seq<nat>>, k: nat)
    requires Ordered(waves, orders) && k < |waves|
    ensures forall i | 0 <= i < |orders[k]| :: orders[k][i] < |waves[k]|
    ensures Launched(EventsFrom(waves, orders, k)) == waves[k] + Launched(EventsFrom(waves, orders, k + 1))
    ensures multiset(Settled(EventsFrom(waves, orders, k)))
         == multiset(waves[k]) + multiset(Settled(EventsFrom(waves, orders, k + 1)))
  {
    CompletionIsPermutation(waves[k], orders[k]);
    var we := WaveEvents(waves[k], orders[k]);
    var rest := EventsFrom(waves, orders, k + 1);
    assert EventsFrom(waves, orders, k) == we + rest;
    DocsOfAppend(we, rest, true);
    DocsOfAppend(we, rest, false);
    WaveDocs(waves[k], orders[k]);
  }

  lemma {:induction false} LaunchedFrom(waves: seq<seq<nat>>, orders: seq<seq<nat>>, k: nat)
    requires Ordered(waves, orders) && k <= |waves|
    ensures Launched(EventsFrom(waves, orders, k)) == Flatten(waves[k..])
    decreases |waves| - k
  {
    if k < |waves| {
      WaveThenRest(waves, orders, k);
      LaunchedFrom(waves, orders, k + 1);
      FlattenStep(waves, k);
    }
  }

  lemma {:induction false} SettledFrom(waves: seq<seq<nat>>, orders: seq<seq<nat>>, k: nat)
    requires Ordered(waves, orders) && k <= |waves|
    ensures multiset(Settled(EventsFrom(waves, orders, k))) == multiset(Flatten(waves[k..]))
    decreases |waves| - k
  {
    if k < |waves| {
      WaveThenRest(waves, orders, k);
      SettledFrom(waves, orders, k + 1);
      FlattenStep(waves, k);
    }
  }

  /** Every document is launched once, in wave order, and settles once. */
  lemma LaunchAndSettleOnce(waves: seq<seq<nat>>, orders: seq<seq<nat>>)
    requires Ordered(waves, orders)
    ensures Launched(Events(waves, orders)) == Flatten(waves)
    ensures multiset(Settled(Events(waves, orders))) == multiset(Flatten(waves))
    ensures |Settled(Events(waves, orders))| == |Flatten(waves)|
  {
    assert waves[0..] == waves;
    LaunchedFrom(waves, orders, 0);
    SettledFrom(waves, orders, 0);
    assert |multiset(Settled(Events(waves, orders)))| == |Settled(Events(waves, orders))|;
  }

  /** Within one wave, no more documents are in flight than the wave holds. */
  lemma WavePrefix(w: seq<nat>, p: seq<nat>, t: nat)
    requires |p| == |w| && forall i | 0 <= i < |p| :: p[i] < |w|
    requires t <= |WaveEvents(w, p)|
    ensures |Settled(WaveEvents(w, p)[..t])| <= |Launched(WaveEvents(w, p)[..t])| <= |w|
  {
    var ev := WaveEvents(w, p);
    if t <= |w| {
      assert ev[..t] == Launches(w[..t]);
      LaunchesDocs(w[..t]);
    } else {
      var c := Completion(w, p);
      assert ev[..t] == Launches(w) + Settles(c[..t - |w|]);
      DocsOfAppend(Launches(w), Settles(c[..t - |w|]), true);
      DocsOfAppend(Launches(w), Settles(c[..t - |w|]), false);
      LaunchesDocs(w);
      SettlesDocs(c[..t - |w|]);
    }
  }

  lemma {:induction false} InFlightFrom(waves: seq<seq<nat>>, orders: seq<seq<nat>>, k: nat, t: nat)
    requires Ordered(waves, orders) && k <= |waves|
    requires forall q | 0 <= q < |waves| :: |waves[q]| <= Limit
    requires t <= |EventsFrom(waves, orders, k)|
    ensures var ev := EventsFrom(waves, orders, k)[..t];
            |Settled(ev)| <= |Launched(ev)| <= |Settled(ev)| + Limit
    decreases |waves| - k
  {
    if k < |waves| {
      var w := waves[k];
      OrderFacts(orders[k], |w|);
      var we := WaveEvents(w, orders[k]);
      var rest := EventsFrom(waves, orders, k + 1);
      if t <= |we| {
        assert EventsFrom(waves, orders, k)[..t] == we[..t];
        WavePrefix(w, orders[k], t);
      } else {
        InFlightFrom(waves, orders, k + 1, t - |we|);
        assert EventsFrom(waves, orders, k)[..t] == we + rest[..t - |we|];
        DocsOfAppend(we, rest[..t - |we|], true);
        DocsOfAppend(we, rest[..t - |we|], false);
        WaveDocs(w, orders[k]);
      }
    }
  }

  /** When waves hold at most `Limit` documents, at every moment at most
      `Limit` documents are in flight (launched but not settled), and none
      has settled without being launched. */
  lemma InFlightBound(waves: seq<seq<nat>>, orders: seq<seq<nat>>, t: nat)
    requires Ordered(waves, orders)
    requires forall q | 0 <= q < |waves| :: |waves[q]| <= Limit
    requires t <= |Events(waves, orders)|
    ensures |Settled(Events(waves, orders)[..t])| <= |Launched(Events(waves, orders)[..t])|
    ensures |Launched(Events(waves, orders)[..t])| - |Settled(Events(waves, orders)[..t])| <= Limit
  {
    InFlightFrom(waves, orders, 0, t);
  }

  /** Where the events of wave `k` sit: its launches first, then its
      settles, then the later waves. */
  lemma WaveLayout(waves: seq<seq<nat>>, orders: seq<seq<nat>>, k: nat, t: nat)
    requires Ordered(waves, orders) && k < |waves|
    requires t < |EventsFrom(waves, orders, k)|
    ensures t < |waves[k]| ==> EventsFrom(waves, orders, k)[t] == Launch(waves[k][t])
    ensures |waves[k]| <= t < 2 * |waves[k]| ==> EventsFrom(waves, orders, k)[t].Settle?
    ensures 2 * |waves[k]| <= t ==> EventsFrom(waves, orders, k)[t] == EventsFrom(waves, orders, k + 1)[t - 2 * |waves[k]|]
  {
    OrderFacts(orders[k], |waves[k]|);
    assert EventsFrom(waves, orders, k) == WaveEvents(waves[k], orders[k]) + EventsFrom(waves, orders, k + 1);
  }

  /** A launch inside the first of the waves from `k`: nothing has settled
      yet. */
  lemma BarrierHere(waves: seq<seq<nat>>, orders: seq<seq<nat>>, k: nat, t: nat)
    requires Ordered(waves, orders) && k < |waves|
    requires t < |waves[k]| && t <= |EventsFrom(waves, orders, k)|
    ensures Settled(EventsFrom(waves, orders, k)[..t]) == []
  {
    var w := waves[k];
    OrderFacts(orders[k], |w|);
    var we := WaveEvents(w, orders[k]);
    assert EventsFrom(waves, orders, k) == we + EventsFrom(waves, orders, k + 1);
    assert EventsFrom(waves, orders, k)[..t] == Launches(w[..t]);
    LaunchesDocs(w[..t]);
  }

  /** A launch in a later wave: the first wave has wholly settled. */
  lemma BarrierLater(waves: seq<seq<nat>>, orders: seq<seq<nat>>, k: nat, t: nat)
    requires Ordered(waves, orders) && k < |waves|
    requires 2 * |waves[k]| <= t <= |EventsFrom(waves, orders, k)|
    ensures multiset(Settled(EventsFrom(waves, orders, k)[..t]))
         == multiset(waves[k]) + multiset(Settled(EventsFrom(waves, orders, k + 1)[..t - 2 * |waves[k]|]))
  {
    var w := waves[k];
    CompletionIsPermutation(w, orders[k]);
    var we := WaveEvents(w, orders[k]);
    var rest := EventsFrom(waves, orders, k + 1);
    assert EventsFrom(waves, orders, k) == we + rest;
    assert EventsFrom(waves, orders, k)[..t] == we + rest[..t - |we|];
    DocsOfAppend(we, rest[..t - |we|], false);
    WaveDocs(w, orders[k]);
  }

  lemma {:induction false} BarrierFrom(waves: seq<seq<nat>>, orders: seq<seq<nat>>, k: nat, t: nat, j: nat)
    requires Ordered(waves, orders) && k <= |waves|
    requires t < |EventsFrom(waves, orders, k)| && EventsFrom(waves, orders, k)[t] == Launch(j)
    ensures exists q | k <= q < |waves| ::
      j in waves[q] && multiset(Settled(EventsFrom(waves, orders, k)[..t])) == multiset(Flatten(waves[k..q]))
    decreases |waves| - k
  {
    WaveLayout(waves, orders, k, t);
    if t < |waves[k]| {
      BarrierHere(waves, orders, k, t);
      assert Flatten(waves[k..k]) == [];
      assert j in waves[k];
    } else {
      BarrierLater(waves, orders, k, t);
      BarrierFrom(waves, orders, k + 1, t - 2 * |waves[k]|, j);
      var q :| k + 1 <= q < |waves| && j in waves[q]
        && multiset(Settled(EventsFrom(waves, orders, k + 1)[..t - 2 * |waves[k]|])) == multiset(Flatten(waves[k + 1..q]));
      assert waves[k..q][0] == waves[k] && waves[k..q][1..] == waves[k + 1..q];
    }
  }

  /** The barrier between waves: when a document is launched, the documents
      that have settled are exactly those of the waves before its own. */
  lemma Barrier(waves: seq<seq<nat>>, orders: seq<seq<nat>>, t: nat, j: nat)
    requires Ordered(waves, orders)
    requires t < |Events(waves, orders)| && Events(waves, orders)[t] == Launch(j)
    ensures exists q | 0 <= q < |waves| ::
      j in waves[q] && multiset(Settled(Events(waves, orders)[..t])) == multiset(Flatten(waves[..q]))
  {
    BarrierFrom(waves, orders, 0, t, j);
    assert waves[0..] == waves;
    var q :| 0 <= q < |waves| && j in waves[q]
      && multiset(Settled(Events(waves, orders)[..t])) == multiset(Flatten(waves[0..q]));
    assert waves[0..q] == waves[..q];
  }
}
