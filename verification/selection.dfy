/** Nearest-neighbour selection, run once after the neurons are created
    (src/App.js lines 32-42): for each neuron, drop it from the array, sort the
    rest by distance with a stable sort, and keep the first three.

    Neighbours are index sequences. The sort is a stable insertion sort over
    indices, keyed by a sequence of reals; `Nearest` keys it by squared
    distance, which `HypotSortAgrees` shows orders exactly as the JavaScript code's
    `Math.hypot` comparator does. */
module Selection {
  import opened Maths
  import opened Neurons

  /** `.slice(0, 3)`: at most this many neighbours are kept. */
  const MaxConnections: nat := 3

  predicate Below(s: seq<nat>, n: nat) {
    forall k :: 0 <= k < |s| ==> s[k] < n
  }

  predicate Increasing(s: seq<nat>) {
    forall p, q :: 0 <= p < q < |s| ==> s[p] < s[q]
  }

  /** The order a stable sort produces from an index-ordered input: smaller
      key first, and on equal keys the smaller index first. */
  predicate Precedes(keys: seq<real>, a: nat, b: nat)
    requires a < |keys| && b < |keys|
  {
    keys[a] < keys[b] || (keys[a] == keys[b] && a < b)
  }

  predicate StablySorted(keys: seq<real>, s: seq<nat>)
    requires Below(s, |keys|)
  {
    forall p, q :: 0 <= p < q < |s| ==> Precedes(keys, s[p], s[q])
  }

  /** Inserts `x` in front of the first element whose key is not smaller,
      so `x` stays ahead of later elements with an equal key. */
  function Insert(x: nat, t: seq<nat>, keys: seq<real>): (r: seq<nat>)
    requires x < |keys| && Below(t, |keys|)
    ensures Below(r, |keys|)
    ensures multiset(r) == multiset(t) + multiset{x}
  {
    if t == [] then [x]
    else if keys[x] <= keys[t[0]] then [x] + t
    else
      assert t == [t[0]] + t[1..];
      [t[0]] + Insert(x, t[1..], keys)
  }

  /** Stable sort of a sequence of indices by their keys (the model of
      `Array.prototype.sort`, which has been required to be stable since
      ECMAScript 2019, ECMA-262 10th edition section 22.1.3.27). */
  function Sort(s: seq<nat>, keys: seq<real>): (r: seq<nat>)
    requires Below(s, |keys|)
    ensures Below(r, |keys|)
    ensures multiset(r) == multiset(s)
    ensures |r| == |s|
  {
    if s == [] then []
    else
      assert s == [s[0]] + s[1..];
      Insert(s[0], Sort(s[1..], keys), keys)
  }

  /** Inserting an index smaller than every index already present keeps the
      sequence stably sorted. */
  lemma {:induction false} InsertStable(x: nat, t: seq<nat>, keys: seq<real>)
    requires x < |keys| && Below(t, |keys|)
    requires StablySorted(keys, t)
    requires forall k :: 0 <= k < |t| ==> x < t[k]
    ensures StablySorted(keys, Insert(x, t, keys))
  {
    if t == [] {
    } else if keys[x] <= keys[t[0]] {
      forall k | 0 <= k < |t|
        ensures Precedes(keys, x, t[k])
      {
        if k > 0 {
          assert Precedes(keys, t[0], t[k]);
        }
      }
      ConsStable(x, t, keys);
    } else {
      var tail := t[1..];
      InsertStable(x, tail, keys);
      var rest := Insert(x, tail, keys);
      forall k | 0 <= k < |rest|
        ensures Precedes(keys, t[0], rest[k])
      {
        var v := rest[k];
        assert v in multiset(rest);
        if v != x {
          assert v in multiset(tail);
          var j :| 0 <= j < |tail| && tail[j] == v;
          assert Precedes(keys, t[0], t[j + 1]);
        }
      }
      ConsStable(t[0], rest, keys);
    }
  }

  /** Putting in front an index that precedes every element keeps a
      sequence stably sorted. */
  lemma ConsStable(h: nat, rest: seq<nat>, keys: seq<real>)
    requires h < |keys| && Below(rest, |keys|)
    requires StablySorted(keys, rest)
    requires forall k :: 0 <= k < |rest| ==> Precedes(keys, h, rest[k])
    ensures StablySorted(keys, [h] + rest)
  {
    var r := [h] + rest;
    forall p, q | 0 <= p < q < |r|
      ensures Precedes(keys, r[p], r[q])
    {
      if p == 0 {
        assert r[q] == rest[q - 1];
      } else {
        assert r[p] == rest[p - 1] && r[q] == rest[q - 1];
      }
    }
  }

  /** Sorting an index-ordered sequence yields the stable order: ascending
      key, and equal keys in their original (index) order. */
  lemma {:induction false} SortStable(s: seq<nat>, keys: seq<real>)
    requires Below(s, |keys|)
    requires Increasing(s)
    ensures StablySorted(keys, Sort(s, keys))
  {
    if s != [] {
      var tail := s[1..];
      SortStable(tail, keys);
      var sorted := Sort(tail, keys);
      forall k | 0 <= k < |sorted|
        ensures s[0] < sorted[k]
      {
        assert sorted[k] in multiset(tail);
        var j :| 0 <= j < |tail| && tail[j] == sorted[k];
        assert s[j + 1] == sorted[k];
      }
      InsertStable(s[0], sorted, keys);
    }
  }

  /** The sort consults keys only through `<=` comparisons, so two key
      sequences that order every pair alike sort every input alike. */
  lemma {:induction false} SortDependsOnlyOnOrder(s: seq<nat>, keys1: seq<real>, keys2: seq<real>)
    requires Below(s, |keys1|) && |keys1| == |keys2|
    requires forall a, b :: 0 <= a < |keys1| && 0 <= b < |keys1| ==> (keys1[a] <= keys1[b] <==> keys2[a] <= keys2[b])
    ensures Sort(s, keys1) == Sort(s, keys2)
  {
    if s != [] {
      SortDependsOnlyOnOrder(s[1..], keys1, keys2);
      InsertDependsOnlyOnOrder(s[0], Sort(s[1..], keys1), keys1, keys2);
    }
  }

  lemma {:induction false} InsertDependsOnlyOnOrder(x: nat, t: seq<nat>, keys1: seq<real>, keys2: seq<real>)
    requires x < |keys1| && Below(t, |keys1|) && |keys1| == |keys2|
    requires forall a, b :: 0 <= a < |keys1| && 0 <= b < |keys1| ==> (keys1[a] <= keys1[b] <==> keys2[a] <= keys2[b])
    ensures Insert(x, t, keys1) == Insert(x, t, keys2)
  {
    if t != [] && !(keys1[x] <= keys1[t[0]]) {
      InsertDependsOnlyOnOrder(x, t[1..], keys1, keys2);
    }
  }

  /** `.filter(n => n !== neuron)`: every index of an `n`-element array
      except `i`, in array order. */
  function Others(n: nat, i: nat): (r: seq<nat>)
    requires i < n
    ensures |r| == n - 1
    ensures Below(r, n)
  {
    seq(n - 1, k requires 0 <= k < n - 1 => if k < i then k else k + 1)
  }

  /** The filter removes exactly the neuron itself and keeps array order. */
  lemma OthersContents(n: nat, i: nat)
    requires i < n
    ensures forall j :: j in Others(n, i) <==> 0 <= j < n && j != i
    ensures Increasing(Others(n, i))
  {
    var r := Others(n, i);
    forall j | 0 <= j < n && j != i
      ensures j in r
    {
      var k := if j < i then j else j - 1;
      assert 0 <= k < |r| && r[k] == j;
    }
  }

  /** Squared distance from neuron `c` to every neuron, indexed like `ns`. */
  function Keys(ns: seq<Neuron>, c: nat): (keys: seq<real>)
    requires c < |ns|
    ensures |keys| == |ns|
  {
    seq(|ns|, j requires 0 <= j < |ns| => SqDist(ns[c], ns[j]))
  }

  /** The comparator of lines 35-39, on distances as `Math.hypot` reports them. */
  function HypotKeys(m: Math, ns: seq<Neuron>, c: nat): (keys: seq<real>)
    requires c < |ns|
    ensures |keys| == |ns|
  {
    seq(|ns|, j requires 0 <= j < |ns| => Hypot(m, ns[j].x - ns[c].x, ns[j].y - ns[c].y))
  }

  /** Neuron `a` comes before neuron `b` in neuron `c`'s sorted candidate
      list: strictly nearer to `c`, or equally near and earlier in the array. */
  predicate Closer(ns: seq<Neuron>, c: nat, a: nat, b: nat)
    requires c < |ns| && a < |ns| && b < |ns|
  {
    Precedes(Keys(ns, c), a, b)
  }

  /** What a correct neighbour list of neuron `i` is, independently of how it
      is computed: min(3, N-1) indices of other neurons, listed nearest
      first with ties in array order, and no neuron left out is nearer than
      (or tied with and earlier than) any chosen one. */
  predicate IsNearest(ns: seq<Neuron>, i: nat, r: seq<nat>)
    requires i < |ns|
  {
    && |r| == Min(MaxConnections, |ns| - 1)
    && (forall p :: 0 <= p < |r| ==> r[p] < |ns| && r[p] != i)
    && (forall p, q :: 0 <= p < q < |r| ==> r[p] < |ns| && r[q] < |ns| && Closer(ns, i, r[p], r[q]))
    && (forall p, j :: 0 <= p < |r| && 0 <= j < |ns| && j != i && j !in r ==>
          r[p] < |ns| && Closer(ns, i, r[p], j))
  }

  /** Lines 33-40: the three nearest other neurons of neuron `i`. */
  function Nearest(ns: seq<Neuron>, i: nat): (r: seq<nat>)
    requires i < |ns|
    ensures IsNearest(ns, i, r)
  {
    var keys := Keys(ns, i);
    var others := Others(|ns|, i);
    var sorted := Sort(others, keys);
    var r := sorted[..Min(MaxConnections, |sorted|)];
    OthersContents(|ns|, i);
    SortStable(others, keys);
    SortedMembers(others, sorted, |ns|, i);
    PrefixIsNearest(ns, i, sorted, r);
    r
  }

  /** The sorted candidates are exactly the other neurons, rearranged. */
  lemma SortedMembers(others: seq<nat>, sorted: seq<nat>, n: nat, i: nat)
    requires multiset(sorted) == multiset(others)
    requires forall j :: j in others <==> 0 <= j < n && j != i
    ensures forall j :: j in sorted <==> 0 <= j < n && j != i
  {
    forall j
      ensures j in sorted <==> j in others
    {
      assert j in sorted <==> j in multiset(sorted);
      assert j in others <==> j in multiset(others);
    }
  }

  /** A stably sorted list of all other neurons, cut after three, meets `IsNearest`. */
  lemma PrefixIsNearest(ns: seq<Neuron>, i: nat, sorted: seq<nat>, r: seq<nat>)
    requires i < |ns|
    requires |sorted| == |ns| - 1
    requires forall j :: j in sorted <==> 0 <= j < |ns| && j != i
    requires Below(sorted, |ns|)
    requires StablySorted(Keys(ns, i), sorted)
    requires r == sorted[..Min(MaxConnections, |sorted|)]
    ensures IsNearest(ns, i, r)
  {
    var keys := Keys(ns, i);
    forall p | 0 <= p < |r|
      ensures r[p] < |ns| && r[p] != i
    {
      assert r[p] == sorted[p] && sorted[p] in sorted;
    }
    forall p, j | 0 <= p < |r| && 0 <= j < |ns| && j != i && j !in r
      ensures Closer(ns, i, r[p], j)
    {
      assert j in sorted;
      var q :| 0 <= q < |sorted| && sorted[q] == j;
      assert Precedes(keys, sorted[p], sorted[q]);
    }
    forall p, q | 0 <= p < q < |r|
      ensures Closer(ns, i, r[p], r[q])
    {
      assert Precedes(keys, sorted[p], sorted[q]);
    }
  }

  /** `Closer` is a strict total order on distinct indices. */
  lemma CloserTotal(ns: seq<Neuron>, c: nat, a: nat, b: nat)
    requires c < |ns| && a < |ns| && b < |ns|
    ensures a != b ==> Closer(ns, c, a, b) || Closer(ns, c, b, a)
    ensures !(Closer(ns, c, a, b) && Closer(ns, c, b, a))
  {
  }

  /** At most one sequence meets `IsNearest`: the specification pins the
      neighbour list down completely, ties included. */
  lemma NearestUnique(ns: seq<Neuron>, i: nat, a: seq<nat>, b: seq<nat>)
    requires i < |ns|
    requires IsNearest(ns, i, a) && IsNearest(ns, i, b)
    ensures a == b
  {
    AgreeUpTo(ns, i, a, b, |a|);
    assert a == a[..|a|] && b == b[..|b|];
  }

  lemma {:induction false} AgreeUpTo(ns: seq<Neuron>, i: nat, a: seq<nat>, b: seq<nat>, n: nat)
    requires i < |ns|
    requires IsNearest(ns, i, a) && IsNearest(ns, i, b)
    requires n <= |a|
    ensures a[..n] == b[..n]
  {
    if n > 0 {
      var p := n - 1;
      AgreeUpTo(ns, i, a, b, p);
      NextAgrees(ns, i, a, b, p);
      NextAgrees(ns, i, b, a, p);
      CloserTotal(ns, i, a[p], b[p]);
      assert a[..n] == a[..p] + [a[p]];
      assert b[..n] == b[..p] + [b[p]];
    }
  }

  /** If two correct lists agree before position `p`, then `a[p]` is either
      `b[p]` or ranked after it: `a[p]` cannot occur earlier in `b` (those
      places hold `a`'s own earlier entries), and wherever else it is, in `b`
      further on or left out of `b`, `b` ranks `b[p]` before it. */
  lemma NextAgrees(ns: seq<Neuron>, i: nat, a: seq<nat>, b: seq<nat>, p: nat)
    requires i < |ns|
    requires IsNearest(ns, i, a) && IsNearest(ns, i, b)
    requires p < |a| && a[..p] == b[..p]
    ensures a[p] == b[p] || Closer(ns, i, b[p], a[p])
  {
    assert |a| == |b|;
    var j := a[p];
    if j in b {
      assert forall q :: 0 <= q < p ==> b[q] == a[q] && Closer(ns, i, a[q], j);
      var q :| 0 <= q < |b| && b[q] == j;
      assert p <= q;
      if p < q {
        assert Closer(ns, i, b[p], b[q]);
      }
    }
  }

  /** The computed list is the only one meeting the specification. */
  lemma NearestIsTheOnlyAnswer(ns: seq<Neuron>, i: nat, r: seq<nat>)
    requires i < |ns|
    ensures IsNearest(ns, i, r) <==> r == Nearest(ns, i)
  {
    if IsNearest(ns, i, r) {
      NearestUnique(ns, i, r, Nearest(ns, i));
    }
  }

  /** Sorting by the `Math.hypot` distances of src/App.js gives the same list
      as sorting by squared distances, so `Nearest` is what lines 33-40 compute. */
  lemma HypotSortAgrees(m: Math, ns: seq<Neuron>, i: nat)
    requires Sound(m)
    requires i < |ns|
    ensures var sorted := Sort(Others(|ns|, i), HypotKeys(m, ns, i));
            sorted[..Min(MaxConnections, |sorted|)] == Nearest(ns, i)
  {
    var hk, sk := HypotKeys(m, ns, i), Keys(ns, i);
    forall a, b | 0 <= a < |hk| && 0 <= b < |hk|
      ensures hk[a] <= hk[b] <==> sk[a] <= sk[b]
    {
      HypotOrdersLikeSquares(m, ns[a].x - ns[i].x, ns[a].y - ns[i].y, ns[b].x - ns[i].x, ns[b].y - ns[i].y);
      assert hk[a] == Hypot(m, ns[a].x - ns[i].x, ns[a].y - ns[i].y);
      assert hk[b] == Hypot(m, ns[b].x - ns[i].x, ns[b].y - ns[i].y);
    }
    SortDependsOnlyOnOrder(Others(|ns|, i), hk, sk);
  }

  /** `IsNearest` looks only at positions. */
  lemma IsNearestPositional(ns: seq<Neuron>, ms: seq<Neuron>, i: nat, r: seq<nat>)
    requires i < |ns|
    requires SamePositions(ns, ms)
    ensures IsNearest(ns, i, r) <==> IsNearest(ms, i, r)
  {
    forall j | 0 <= j < |ns|
      ensures Keys(ns, i)[j] == Keys(ms, i)[j]
    {
      assert ns[j].x - ns[i].x == ms[j].x - ms[i].x;
      assert ns[j].y - ns[i].y == ms[j].y - ms[i].y;
    }
    assert Keys(ns, i) == Keys(ms, i);
  }

  /** Lines 32-42: every neuron gets its nearest neighbours; nothing else changes. */
  function Connect(ns: seq<Neuron>): (r: seq<Neuron>)
    ensures SamePositions(ns, r)
    ensures forall k :: 0 <= k < |r| ==>
      && r[k].vx == ns[k].vx && r[k].vy == ns[k].vy
      && r[k].radius == ns[k].radius && r[k].pulsePhase == ns[k].pulsePhase
      && IsNearest(r, k, r[k].connections)
  {
    var r := seq(|ns|, k requires 0 <= k < |ns| => ns[k].(connections := Nearest(ns, k)));
    ConnectedIsNearest(ns, r);
    r
  }

  lemma ConnectedIsNearest(ns: seq<Neuron>, r: seq<Neuron>)
    requires |r| == |ns|
    requires forall k :: 0 <= k < |r| ==> r[k] == ns[k].(connections := Nearest(ns, k))
    ensures SamePositions(ns, r)
    ensures forall k :: 0 <= k < |r| ==> IsNearest(r, k, r[k].connections)
  {
    forall k | 0 <= k < |r|
      ensures IsNearest(r, k, r[k].connections)
    {
      assert IsNearest(ns, k, r[k].connections);
      IsNearestPositional(ns, r, k, r[k].connections);
    }
  }
}
