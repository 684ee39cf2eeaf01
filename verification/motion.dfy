/** The state update of one animation frame (src/App.js lines 48-54): each
    neuron moves by its velocity, advances its pulse phase, and reverses a
    velocity component whose new coordinate lies strictly outside the
    surface. Positions are never clamped. */
module Motion {
  import opened Neurons

  /** Line 51: the pulse phase grows by this much every frame. */
  const PhaseStep: real := 0.02

  /** One coordinate of a neuron together with its velocity along that axis. */
  datatype Axis = Axis(pos: real, vel: real)

  /** A coordinate lies strictly outside [0, bound]; the edges themselves count as inside. */
  predicate Outside(p: real, bound: nat) {
    p < 0.0 || p > bound as real
  }

  /** Lines 49-50 and 53-54 for one axis: move, then `v *= -1` when the new
      coordinate is outside [0, bound]. */
  function AxisStep(a: Axis, bound: nat): (r: Axis)
    ensures r.pos == a.pos + a.vel
    ensures Outside(r.pos, bound) ==> r.vel == -a.vel
    ensures !Outside(r.pos, bound) ==> r.vel == a.vel
    ensures Abs(r.vel) == Abs(a.vel)
  {
    var p := a.pos + a.vel;
    Axis(p, if p < 0.0 || p > bound as real then a.vel * -1.0 else a.vel)
  }

  /** Lines 49-54 for one neuron on a `w` by `h` surface. */
  function StepNeuron(n: Neuron, w: nat, h: nat): (m: Neuron)
    ensures m.x == n.x + n.vx && m.y == n.y + n.vy
    ensures m.pulsePhase == n.pulsePhase + PhaseStep
    ensures m.vx == (if Outside(m.x, w) then -n.vx else n.vx)
    ensures m.vy == (if Outside(m.y, h) then -n.vy else n.vy)
    ensures Abs(m.vx) == Abs(n.vx) && Abs(m.vy) == Abs(n.vy)
    ensures m.radius == n.radius && m.connections == n.connections
  {
    var ax := AxisStep(Axis(n.x, n.vx), w);
    var ay := AxisStep(Axis(n.y, n.vy), h);
    n.(x := ax.pos, y := ay.pos, vx := ax.vel, vy := ay.vel, pulsePhase := n.pulsePhase + PhaseStep)
  }

  /** The neuron state after one frame. Each neuron's update reads only its
      own fields, so updating the array in place in index order (as
      `neurons.forEach` does) ends in this state. */
  function Advance(f: Field): (g: Field)
    ensures g.width == f.width && g.height == f.height
    ensures |g.neurons| == |f.neurons|
    ensures forall k :: 0 <= k < |g.neurons| ==>
      g.neurons[k].connections == f.neurons[k].connections && g.neurons[k].radius == f.neurons[k].radius
    ensures LinksInRange(f.neurons) ==> LinksInRange(g.neurons)
  {
    f.(neurons := seq(|f.neurons|, k requires 0 <= k < |f.neurons| => StepNeuron(f.neurons[k], f.width, f.height)))
  }

  /** `k` frames on a surface whose size does not change. */
  function Run(f: Field, k: nat): (g: Field)
    ensures g.width == f.width && g.height == f.height
    ensures |g.neurons| == |f.neurons|
    ensures forall j :: 0 <= j < |g.neurons| ==>
      g.neurons[j].connections == f.neurons[j].connections && g.neurons[j].radius == f.neurons[j].radius
    ensures LinksInRange(f.neurons) ==> LinksInRange(g.neurons)
  {
    if k == 0 then f else Advance(Run(f, k - 1))
  }

  /** `k` frames along one axis. */
  function AxisRun(a: Axis, bound: nat, k: nat): Axis {
    if k == 0 then a else AxisStep(AxisRun(a, bound, k - 1), bound)
  }

  /** The coordinate is inside [0, bound] now or will be after one move. */
  predicate InBand(a: Axis, bound: nat) {
    !Outside(a.pos, bound) || !Outside(a.pos + a.vel, bound)
  }

  /** One frame keeps a coordinate in the band. */
  lemma BandKept(a: Axis, bound: nat)
    requires InBand(a, bound)
    ensures InBand(AxisStep(a, bound), bound)
  {
  }

  /** A coordinate in the band stays within one step of the surface on every
      later frame: never further than |v| outside [0, bound]. */
  lemma {:induction false} StaysNear(a: Axis, bound: nat, k: nat)
    requires InBand(a, bound)
    ensures InBand(AxisRun(a, bound, k), bound)
    ensures Abs(AxisRun(a, bound, k).vel) == Abs(a.vel)
    ensures -Abs(a.vel) <= AxisRun(a, bound, k).pos <= bound as real + Abs(a.vel)
  {
    if k > 0 {
      StaysNear(a, bound, k - 1);
      BandKept(AxisRun(a, bound, k - 1), bound);
    }
  }

  /** A coordinate outside the band (outside now and after one more move,
      as after a shrinking resize) flips its velocity every frame and
      oscillates between two outside positions forever. */
  lemma {:induction false} StuckOutside(a: Axis, bound: nat, k: nat)
    requires !InBand(a, bound)
    ensures AxisRun(a, bound, k) == (if k % 2 == 0 then a else Axis(a.pos + a.vel, -a.vel))
    ensures Outside(AxisRun(a, bound, k).pos, bound)
  {
    if k > 0 {
      StuckOutside(a, bound, k - 1);
    }
  }

  /** The band exactly separates the coordinates that come back onto the
      surface from those that never do. */
  lemma ReturnsIffInBand(a: Axis, bound: nat)
    ensures InBand(a, bound) <==> exists k: nat :: k <= 1 && !Outside(AxisRun(a, bound, k).pos, bound)
    ensures !InBand(a, bound) <==> forall k: nat :: Outside(AxisRun(a, bound, k).pos, bound)
  {
    assert AxisRun(a, bound, 1).pos == a.pos + a.vel;
    if !InBand(a, bound) {
      forall k: nat
        ensures Outside(AxisRun(a, bound, k).pos, bound)
      {
        StuckOutside(a, bound, k);
      }
    } else if Outside(a.pos, bound) {
      assert !Outside(AxisRun(a, bound, 1).pos, bound);
    } else {
      assert !Outside(AxisRun(a, bound, 0).pos, bound);
    }
  }

  /** Each coordinate of neuron `j` after `k` frames is its own axis run. */
  lemma {:induction false} RunAxes(f: Field, k: nat, j: nat)
    requires j < |f.neurons|
    ensures |Run(f, k).neurons| == |f.neurons|
    ensures var n, n0 := Run(f, k).neurons[j], f.neurons[j];
      && Axis(n.x, n.vx) == AxisRun(Axis(n0.x, n0.vx), f.width, k)
      && Axis(n.y, n.vy) == AxisRun(Axis(n0.y, n0.vy), f.height, k)
  {
    if k > 0 {
      RunAxes(f, k - 1, j);
      var prev := Run(f, k - 1);
      var n := Run(f, k).neurons[j];
      assert n == StepNeuron(prev.neurons[j], f.width, f.height);
      assert Axis(n.x, n.vx) == AxisStep(Axis(prev.neurons[j].x, prev.neurons[j].vx), f.width);
      assert Axis(n.y, n.vy) == AxisStep(Axis(prev.neurons[j].y, prev.neurons[j].vy), f.height);
    }
  }
}
