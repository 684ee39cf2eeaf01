/** Creation of the neurons when the effect first runs (src/App.js lines
    22-42): thirty records seeded from random draws against the surface size,
    then each one connected to its nearest neighbours. */
module Initialisation {
  import opened Maths
  import opened Neurons
  import opened Selection

  /** `Array.from({ length: 30 }, ...)`. */
  const NeuronCount: nat := 30

  /** The six `Math.random()` results one neuron consumes, in the order the
      object literal evaluates them. */
  datatype Draws = Draws(x: real, y: real, vx: real, vy: real, radius: real, phase: real)

  /** `Math.random()` returns a value in [0, 1). */
  predicate Unit(r: real) {
    0.0 <= r < 1.0
  }

  predicate ValidDraws(d: Draws) {
    Unit(d.x) && Unit(d.y) && Unit(d.vx) && Unit(d.vy) && Unit(d.radius) && Unit(d.phase)
  }

  /** The ranges a freshly seeded neuron lies in on a `w` by `h` surface:
      a position in [0, w) x [0, h) (exactly 0 along a zero-length side),
      velocity components in [-0.5, 0.5), radius in [2, 5) and phase in
      [0, 2 pi). */
  predicate Seeded(w: nat, h: nat, n: Neuron) {
    && 0.0 <= n.x && (w > 0 ==> n.x < w as real) && (w == 0 ==> n.x == 0.0)
    && 0.0 <= n.y && (h > 0 ==> n.y < h as real) && (h == 0 ==> n.y == 0.0)
    && -0.5 <= n.vx < 0.5
    && -0.5 <= n.vy < 0.5
    && 2.0 <= n.radius < 5.0
    && 0.0 <= n.pulsePhase < 2.0 * Pi
  }

  /** Lines 23-29: one neuron record from its draws, not yet connected. */
  function Spawn(w: nat, h: nat, d: Draws): (n: Neuron)
    requires ValidDraws(d)
    ensures Seeded(w, h, n)
    ensures n.connections == []
  {
    ScaleUnit(d.x, w as real);
    ScaleUnit(d.y, h as real);
    Neuron(
      d.x * w as real,
      d.y * h as real,
      (d.vx - 0.5) * 1.0,
      (d.vy - 0.5) * 1.0,
      d.radius * 3.0 + 2.0,
      d.phase * Pi * 2.0,
      [])
  }

  /** Lines 22-42: seed one neuron per draw record, then give every neuron
      its nearest neighbours. */
  function Init(w: nat, h: nat, draws: seq<Draws>): (f: Field)
    requires forall k :: 0 <= k < |draws| ==> ValidDraws(draws[k])
    ensures f.width == w && f.height == h
    ensures |f.neurons| == |draws|
    ensures forall k :: 0 <= k < |f.neurons| ==>
      && Seeded(w, h, f.neurons[k])
      && f.neurons[k].x == Spawn(w, h, draws[k]).x
      && f.neurons[k].y == Spawn(w, h, draws[k]).y
      && IsNearest(f.neurons, k, f.neurons[k].connections)
    ensures LinksInRange(f.neurons)
  {
    var spawned := seq(|draws|, k requires 0 <= k < |draws| => Spawn(w, h, draws[k]));
    Field(w, h, Connect(spawned))
  }

  /** src/App.js always seeds exactly `NeuronCount` neurons; each then has
      exactly three neighbours, all distinct and none of them itself. */
  lemma InitialTopology(w: nat, h: nat, draws: seq<Draws>)
    requires |draws| == NeuronCount
    requires forall k :: 0 <= k < |draws| ==> ValidDraws(draws[k])
    ensures var f := Init(w, h, draws);
      forall k :: 0 <= k < |f.neurons| ==>
        var c := f.neurons[k].connections;
        && |c| == MaxConnections
        && (forall p :: 0 <= p < |c| ==> c[p] != k)
        && (forall p, q :: 0 <= p < q < |c| ==> c[p] != c[q])
  {
    var f := Init(w, h, draws);
    forall k, p, q | 0 <= k < |f.neurons| && 0 <= p < q < |f.neurons[k].connections|
      ensures f.neurons[k].connections[p] != f.neurons[k].connections[q]
    {
      var c := f.neurons[k].connections;
      assert Closer(f.neurons, k, c[p], c[q]);
    }
  }
}
