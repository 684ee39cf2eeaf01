/** The state of the animated background: the neuron records and the size of
    the drawing surface they move on. */
module Neurons {
  import opened Maths

  /** One neuron record. Positions, velocities and the pulse phase are reals;
      `connections` holds the indices of the chosen neighbours in the field's
      neuron sequence (the JavaScript code holds references to the same objects). */
  datatype Neuron = Neuron(
    x: real,
    y: real,
    vx: real,
    vy: real,
    radius: real,
    pulsePhase: real,
    connections: seq<nat>)

  /** The surface's width and height (integer pixel counts) and the neurons. */
  datatype Field = Field(width: nat, height: nat, neurons: seq<Neuron>)

  function Min(a: int, b: int): int {
    if a <= b then a else b
  }

  function Abs(a: real): real {
    if a < 0.0 then -a else a
  }

  /** Squared Euclidean distance from neuron `a` to neuron `b`. */
  function SqDist(a: Neuron, b: Neuron): real {
    Dist2(b.x - a.x, b.y - a.y)
  }

  /** Two neuron sequences agree on every position (and so on every distance). */
  predicate SamePositions(ns: seq<Neuron>, ms: seq<Neuron>) {
    && |ns| == |ms|
    && forall k :: 0 <= k < |ns| ==> ns[k].x == ms[k].x && ns[k].y == ms[k].y
  }

  /** Every stored neighbour index names a neuron of the sequence. */
  predicate LinksInRange(ns: seq<Neuron>) {
    forall i, p :: 0 <= i < |ns| && 0 <= p < |ns[i].connections| ==> ns[i].connections[p] < |ns|
  }
}
