/** The effect as a whole (src/App.js lines 9-88) on the model's terms:
    resizing the surface, and what a run of frames does to neurons seeded by
    `Init`. */
module Background {
  import opened Neurons
  import opened Motion
  import opened Initialisation

  /** Lines 14-17: a resize overwrites the surface dimensions and nothing else. */
  function Resize(f: Field, w: nat, h: nat): (g: Field)
    ensures g.width == w && g.height == h
    ensures g.neurons == f.neurons
  {
    f.(width := w, height := h)
  }

  /** Resizing twice to the same size is resizing once, so every later frame
      is the same too. */
  lemma ResizeIdempotent(f: Field, w: nat, h: nat, k: nat)
    ensures Resize(Resize(f, w, h), w, h) == Resize(f, w, h)
    ensures Run(Resize(Resize(f, w, h), w, h), k) == Run(Resize(f, w, h), k)
  {
  }

  /** Neurons seeded by `Init` never leave the surface by more than half a
      unit, however many frames run on an unchanged surface: a crossing is
      undone by the next move. */
  lemma {:induction false} StaysNearSurface(w: nat, h: nat, draws: seq<Draws>, k: nat, j: nat)
    requires forall d :: 0 <= d < |draws| ==> ValidDraws(draws[d])
    requires j < |draws|
    ensures var f := Run(Init(w, h, draws), k);
      && j < |f.neurons|
      && -0.5 <= f.neurons[j].x <= w as real + 0.5
      && -0.5 <= f.neurons[j].y <= h as real + 0.5
  {
    var f0 := Init(w, h, draws);
    var n0 := f0.neurons[j];
    RunAxes(f0, k, j);
    StaysNear(Axis(n0.x, n0.vx), w, k);
    StaysNear(Axis(n0.y, n0.vy), h, k);
  }

  /** After a resize leaves a neuron more than one step beyond the new right
      edge (or the new bottom edge), it reverses along that axis every frame
      and never comes back onto the surface along it. */
  lemma {:induction false} ShrinkStrands(f: Field, w: nat, h: nat, j: nat, k: nat)
    requires j < |f.neurons|
    ensures j < |Run(Resize(f, w, h), k).neurons|
    ensures var n0, n := f.neurons[j], Run(Resize(f, w, h), k).neurons[j];
      n0.x > w as real + Abs(n0.vx) ==> n.x > w as real && Abs(n.vx) == Abs(n0.vx)
    ensures var n0, n := f.neurons[j], Run(Resize(f, w, h), k).neurons[j];
      n0.y > h as real + Abs(n0.vy) ==> n.y > h as real && Abs(n.vy) == Abs(n0.vy)
  {
    var n0 := f.neurons[j];
    RunAxes(Resize(f, w, h), k, j);
    if n0.x > w as real + Abs(n0.vx) {
      StuckOutside(Axis(n0.x, n0.vx), w, k);
    }
    if n0.y > h as real + Abs(n0.vy) {
      StuckOutside(Axis(n0.y, n0.vy), h, k);
    }
  }
}
