# Neuron background, modelled in Dafny

The portfolio page draws an animated background behind its content: thirty
"neurons" drift over a canvas the size of the window, pulse, and draw
fading lines to their three nearest neighbours. All of the logic is in one
React effect, `src/App.js` lines 9-88. That effect is modelled here as pure
functions over immutable records, plus one method for the frame pass that
updates the array in place:

- `maths.dfy` (`Maths`): `Math.PI`; sine and `Math.hypot` passed in as a
  `Math` record, and the predicate `Sound` that states what is assumed of
  them. It also holds the real-arithmetic facts that relate hypot distances
  to squared distances.
- `neurons.dfy` (`Neurons`): the neuron record, and the field, which is the
  surface size plus the neuron array. A neuron's `connections` are indices
  into the array.
- `selection.dfy` (`Selection`): the nearest-three selection of lines 32-42.
  The filter and the comparator sort are modelled as a stable insertion
  sort over indices. `IsNearest` is an independent, declarative description
  of a correct neighbour list. The computed list meets it, and no other list
  does.
- `initialisation.dfy` (`Initialisation`): seeding each neuron from its six
  `Math.random()` draws (lines 22-30), then connecting them.
- `motion.dfy` (`Motion`): the per-frame state update of lines 48-54. It
  includes the "band" invariant that decides whether a coordinate ever
  comes back onto the surface.
- `frame.dfy` (`Frame`): one call of `animate` as a method that updates the
  neurons in index order, as `forEach` does. It yields the circles and edge
  decisions the canvas calls would draw.
- `background.dfy` (`Background`): resizing, and properties of whole runs
  of frames.

Two behaviours of the code that are easy to miss are stated and proved as
written:

- **Edge tests within a frame depend on array order.** A neuron tests the
  distance to its neighbours immediately after its own move, while the loop
  is still running. A neighbour with a smaller index has therefore already
  moved this frame, and one with a larger index has not. `Frame.Animate`
  states this through `Frame.Seen`, and `Frame.EdgeViewsDependOnOrder`
  shows that the two views differ.
- **A resize does not bring distant neurons back.** The boundary rule only
  flips a velocity component. A neuron left more than one step beyond a
  shrunk edge therefore flips every frame and never returns
  (`Background.ShrinkStrands`, `Motion.ReturnsIffInBand`).

## Model

| member | source | states |
|---|---|---|
| Maths.HypotOrdersLikeSquares | src/App.js:35-38 | for any sound hypot, comparing two hypot distances gives the same answer as comparing the squared lengths, both `<=` and `<` |
| Maths.HypotBelow | src/App.js:65-67 | `distance < 200` holds exactly when the squared distance is below 200 squared |
| Selection.Sort | src/App.js:35-39 | the sort's result is a permutation of its input (multisets equal) and stays within the array's indices |
| Selection.SortStable | src/App.js:35-39 | on candidates in array order, the result is ordered by distance, with equal distances kept in array order (the stability of `Array.prototype.sort`) |
| Selection.SortDependsOnlyOnOrder | src/App.js:35-39 | two key sequences that agree on every `<=` comparison produce the same sorted list |
| Selection.Others | src/App.js:34 | the filter yields n - 1 candidate indices, every one naming a neuron of the array |
| Selection.OthersContents | src/App.js:34 | the filter keeps every index except the neuron's own, and keeps array order |
| Selection.Nearest | src/App.js:33-40 | the computed list meets `IsNearest`: min(3, N-1) other neurons, nearest first with ties in array order, and none left out ranks before a chosen one |
| Selection.NearestUnique | src/App.js:33-40 | at most one list meets `IsNearest`, so the neighbour list is fully determined, ties included |
| Selection.NearestIsTheOnlyAnswer | src/App.js:33-40 | a list meets `IsNearest` if and only if it is the computed list |
| Selection.HypotSortAgrees | src/App.js:35-40 | sorting by `Math.hypot` distances and slicing three gives exactly the list chosen by squared distances |
| Selection.IsNearestPositional | src/App.js:36-37 | whether a list is a correct neighbour list depends only on the neurons' positions |
| Selection.Connect | src/App.js:32-42 | every neuron's connections become its correct neighbour list, and its position, velocity, radius and phase are unchanged |
| Initialisation.Spawn | src/App.js:22-30 | a seeded neuron has x in [0, width), y in [0, height) (0 on a zero-length side), velocity components in [-0.5, 0.5), radius in [2, 5), phase in [0, 2 pi), and no connections |
| Initialisation.Init | src/App.js:22-42 | one neuron per draw record, each within the seeding ranges and at its spawned position, each connected to its correct neighbour list, and every link names a neuron of the array |
| Initialisation.InitialTopology | src/App.js:22-42 | with 30 neurons, every neuron has exactly three neighbours, all distinct and none itself |
| Motion.AxisStep | src/App.js:49-54 | the coordinate moves by the velocity, the velocity reverses exactly when the new coordinate is strictly outside [0, bound], and the speed is unchanged |
| Motion.StepNeuron | src/App.js:48-54 | both coordinates move and reflect independently, the phase grows by 0.02, and radius and connections are unchanged |
| Motion.Advance | src/App.js:48-54 | one frame keeps the surface size, the neuron count, each neuron's connections and radius, and the property that all links are in range |
| Motion.Run | src/App.js:79-82 | a run of k frames, each scheduled by `requestAnimationFrame`, keeps the surface size, the number of neurons, every neuron's connections and radius, and the property that all links are in range, so every frame tests the neighbour lists chosen at start-up |
| Motion.BandKept | src/App.js:53-54 | a coordinate that is on the surface now or after its next move keeps that property for one frame |
| Motion.StaysNear | src/App.js:53-54 | such a coordinate stays within [-\|v\|, bound + \|v\|] on every later frame, at the same speed |
| Motion.StuckOutside | src/App.js:53-54 | a coordinate off the surface now and after its next move alternates between those two off-surface positions forever |
| Motion.ReturnsIffInBand | src/App.js:53-54 | a coordinate is on the surface within one frame if and only if it is in the band, and stays off it on every frame if and only if it is not |
| Motion.RunAxes | src/App.js:48-54 | after k frames, each coordinate of a neuron is its own one-axis run, independent of the other neurons |
| Frame.PulseSize | src/App.js:56 | the pulse scale lies in [0.5, 1.5] for any sine value |
| Frame.Signal | src/App.js:68 | the signal strength lies in [0, 1] for any sine value |
| Frame.NeuronCircle | src/App.js:56-60 | the circle is centred on the moved neuron, with radius between half and one and a half times the neuron's radius |
| Frame.EdgeTo | src/App.js:62-75 | an edge is drawn exactly when the squared distance is below 200 squared; it runs from the neuron to the neighbour, with opacity in [0, 0.15] and width in [0, 0.8] |
| Frame.Animate | src/App.js:44-80 | the in-place pass leaves the neurons as `Advance` does, and draws one circle per moved neuron. For every stored link, the edge is tested against the neighbour as already moved when its index is not larger, and as not yet moved otherwise |
| Frame.EdgeViewsDependOnOrder | src/App.js:48-77 | for neighbours i < j, neuron j sees i after this frame's move, while i sees j before its move, a whole step behind when j moves along x |
| Background.Resize | src/App.js:14-17 | a resize sets the surface size and leaves every neuron untouched |
| Background.ResizeIdempotent | src/App.js:14-17 | resizing twice to the same size equals resizing once, and so do all later frames |
| Background.StaysNearSurface | src/App.js:22-54 | neurons seeded by `Init` stay within half a unit of an unchanged surface on every frame |
| Background.ShrinkStrands | src/App.js:53-54 | a neuron that a resize leaves more than one step beyond the new right edge, or the new bottom edge, stays beyond that edge on every later frame, at the same speed along that axis |

## Left out

- The page markup, menu state and sections outside lines 9-88: static presentation, not part of the effect.
- Canvas side effects are modelled only as the values they would draw (`Circle`, `Stroke`). Not modelled: the translucent `fillRect` trail, the fill and stroke colours, and the `beginPath`/`arc`/`moveTo`/`lineTo`/`fill`/`stroke` calls.
- `requestAnimationFrame` and `cancelAnimationFrame`, the resize listener's registration and removal, and the teardown: host scheduling. `Motion.Run` stands for a run of frames with no resize in between.
- `window.innerWidth`/`innerHeight`: passed to `Resize` as parameters.
- `Math.random()`: each neuron's six draws are a `Draws` parameter, assumed to lie in [0, 1).
- `Math.sin` and `Math.hypot`: fields of a `Math` parameter, constrained only by `Sound` (sine in [-1, 1], hypot the non-negative square root of dx*dx + dy*dy).
- Floating point: all arithmetic is over exact reals, so rounding, NaN and infinities are not modelled, and `Math.PI` is taken as 3.141592653589793, the shortest decimal that rounds to it.
- The sort comparator's return value `distA - distB` is modelled through the `<=` outcome it induces, which is all a stable sort consults.
- Object identity: neighbour references are modelled as array indices, and the filter's `n !== neuron` as index inequality. A reference always names a live neuron, so `Frame.Animate` requires every stored index to be in range; `Initialisation.Init` establishes that and `Motion.Advance` keeps it.
