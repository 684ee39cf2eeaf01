/** One call of `animate` (src/App.js lines 44-80), reduced to what it
    decides: the updated neurons, one circle per neuron, and for every stored
    neighbour whether an edge is drawn and with which opacity and width.

    `neurons.forEach` updates the array in place, so when neuron `i` tests
    its edges, a neighbour with a smaller index has already moved this frame
    and one with a larger index has not. `Animate` performs the updates in
    that order and its contract states the outcome with `Seen`. */
module Frame {
  import opened Maths
  import opened Neurons
  import opened Motion

  /** Line 67: edges are drawn only between neurons closer than this. */
  const EdgeRange: real := 200.0

  datatype Circle = Circle(x: real, y: real, r: real)

  datatype Stroke = Stroke(x0: real, y0: real, x1: real, y1: real, alpha: real, width: real)

  /** The decision for one (neuron, neighbour) pair in one frame. */
  datatype Edge = Hidden | Drawn(stroke: Stroke)

  /** Line 56: the pulsing scale factor for a sine value. */
  function PulseSize(s: real): (r: real)
    requires -1.0 <= s <= 1.0
    ensures 0.5 <= r <= 1.5
  {
    s * 0.5 + 1.0
  }

  /** Line 68: the signal strength for a sine value. */
  function Signal(s: real): (r: real)
    requires -1.0 <= s <= 1.0
    ensures 0.0 <= r <= 1.0
  {
    s * 0.5 + 0.5
  }

  /** Lines 56-60: the circle drawn for a neuron after its update, centred on
      it, with its radius scaled by between one half and three halves. */
  function NeuronCircle(m: Math, n: Neuron): (c: Circle)
    requires Sound(m)
    ensures c.x == n.x && c.y == n.y
    ensures 0.0 <= n.radius ==> 0.5 * n.radius <= c.r <= 1.5 * n.radius
  {
    var pulseSize := PulseSize(m.sin(n.pulsePhase));
    MulBetween(n.radius, 0.5, pulseSize, 1.5);
    Circle(n.x, n.y, n.radius * pulseSize)
  }

  /** Lines 63-75: an edge from `me` to `other` is drawn exactly when they
      are closer than 200 (strictly), from `me` to `other`, with opacity in
      [0, 0.15] and line width in [0, 0.8]. */
  function EdgeTo(m: Math, me: Neuron, other: Neuron): (e: Edge)
    requires Sound(m)
    ensures e.Drawn? <==> SqDist(me, other) < EdgeRange * EdgeRange
    ensures e.Drawn? ==>
      && e.stroke.x0 == me.x && e.stroke.y0 == me.y
      && e.stroke.x1 == other.x && e.stroke.y1 == other.y
      && 0.0 <= e.stroke.alpha <= 0.15
      && 0.0 <= e.stroke.width <= 0.8
  {
    var dx := other.x - me.x;
    var dy := other.y - me.y;
    var distance := m.hypot(dx, dy);
    HypotBelow(m, dx, dy, EdgeRange);
    if distance < EdgeRange then
      var signal := Signal(m.sin(me.pulsePhase - distance / 50.0));
      Drawn(Stroke(me.x, me.y, other.x, other.y, 0.15 * signal, signal * 0.8))
    else
      Hidden
  }

  /** Neighbour `j` as neuron `i` sees it during an in-place pass: already
      updated if it comes no later in the array, not yet updated otherwise. */
  function Seen(pre: seq<Neuron>, post: seq<Neuron>, i: nat, j: nat): Neuron
    requires |pre| == |post| && j < |pre|
  {
    if j <= i then post[j] else pre[j]
  }

  /** Lines 45-77: one frame, updating the neurons in place in index order
      and testing each neuron's edges straight after its own update. */
  method Animate(f: Field, m: Math) returns (g: Field, circles: seq<Circle>, edges: seq<seq<Edge>>)
    requires Sound(m)
    requires LinksInRange(f.neurons)
    ensures g == Advance(f)
    ensures |circles| == |f.neurons|
    ensures forall i :: 0 <= i < |circles| ==> circles[i] == NeuronCircle(m, g.neurons[i])
    ensures |edges| == |f.neurons|
    ensures forall i :: 0 <= i < |edges| ==> |edges[i]| == |f.neurons[i].connections|
    ensures forall i, p :: 0 <= i < |edges| && 0 <= p < |edges[i]| ==>
      var j := f.neurons[i].connections[p];
      && j < |f.neurons|
      && edges[i][p] == EdgeTo(m, g.neurons[i], Seen(f.neurons, g.neurons, i, j))
      && (edges[i][p].Drawn? <==> SqDist(g.neurons[i], Seen(f.neurons, g.neurons, i, j)) < EdgeRange * EdgeRange)
  {
    ghost var post := Advance(f).neurons;
    var ns := f.neurons;
    circles, edges := [], [];
    var i := 0;
    while i < |ns|
      invariant 0 <= i <= |ns| == |f.neurons|
      invariant forall k :: 0 <= k < i ==> ns[k] == post[k]
      invariant forall k :: i <= k < |ns| ==> ns[k] == f.neurons[k]
      invariant |circles| == i && |edges| == i
      invariant forall k :: 0 <= k < i ==> circles[k] == NeuronCircle(m, post[k])
      invariant forall k :: 0 <= k < i ==> |edges[k]| == |f.neurons[k].connections|
      invariant forall k, p :: 0 <= k < i && 0 <= p < |edges[k]| ==>
        var j := f.neurons[k].connections[p];
        j < |f.neurons| && edges[k][p] == EdgeTo(m, post[k], Seen(f.neurons, post, k, j))
    {
      var n := StepNeuron(ns[i], f.width, f.height);
      ns := ns[i := n];
      circles := circles + [NeuronCircle(m, n)];
      var row := [];
      var p := 0;
      while p < |n.connections|
        invariant 0 <= p <= |n.connections|
        invariant |row| == p
        invariant forall q :: 0 <= q < p ==>
          var j := n.connections[q];
          j < |ns| && row[q] == EdgeTo(m, n, Seen(f.neurons, post, i, j))
      {
        var j := n.connections[p];
        row := row + [EdgeTo(m, n, ns[j])];
        p := p + 1;
      }
      edges := edges + [row];
      i := i + 1;
    }
    g := Field(f.width, f.height, ns);
  }

  /** The pass is not order-independent: for neighbours `i < j`, neuron `j`
      sees `i` where it is after this frame's move, while `i` sees `j` where
      it was before it, a whole step behind whenever `j` moves along x. */
  lemma EdgeViewsDependOnOrder(f: Field, i: nat, j: nat)
    requires i < j < |f.neurons|
    requires f.neurons[j].vx != 0.0
    ensures Seen(f.neurons, Advance(f).neurons, j, i) == Advance(f).neurons[i]
    ensures Seen(f.neurons, Advance(f).neurons, i, j) == f.neurons[j]
    ensures Seen(f.neurons, Advance(f).neurons, i, j).x != Advance(f).neurons[j].x
  {
  }
}
