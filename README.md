# SwarmAid dispatch bookkeeping

SwarmAid is a one-page map demo. The user clicks the map to place shelters, each needing
5 units of aid. Pressing Dispatch spawns a batch of volunteers ("ants") at a depot. Each
volunteer carries 0 to 3 units of aid and walks to a shelter chosen round robin. Every
animation frame moves the volunteers that have not arrived. A volunteer arrives when it is
within 15 metres of its shelter, and it then adds its aid to that shelter. A shelter is shown
as fulfilled once it has received what it needs. Frames continue while some volunteer is
still on its way.

This project models the bookkeeping of that page in Dafny:

- `records.dfy`, module `Records`: the shelter and volunteer records.
  - How a volunteer's aid comes from one random draw (`AidFromRandom`).
  - How the typed-in count falls back to 10 (`EffectiveCount`), and how many volunteers
    the spawn loop creates for it (`Spawned`).
  - When a shelter counts as fulfilled (`Fulfilled`) and when the batch still has a
    volunteer on its way (`Pending`).
  - The accounting functions: aid delivered per shelter (`Delivered`), aid a shelter gains
    in one frame (`Gain`), the shelters reached in one frame (`ArrivalTargets`) and
    volunteers per shelter (`Share`).
  - Lemmas relating these functions.
- `app.dfy`, module `App`: the page state as a class `Simulation`.
  - `shelters` and `volunteers` are sequence fields that the methods update in place.
  - A volunteer's target is an index into `shelters`. This gives the same sharing as the
    page, where a volunteer holds a reference to the shelter record.
  - The ghost field `baseline` records what each shelter had received when the current
    batch was spawned.
  - `Valid()` keeps the delivery invariant: each shelter's `received` equals its baseline
    plus the aid of the arrived volunteers of the current batch that target it.
    `received` is never reset between dispatches, so the baseline is needed.
- `scenarios.dfy`, module `Scenarios`: client scenarios proved from the class contracts alone.
  They cover one shelter being filled, dispatch with no shelter, seven volunteers over
  three shelters, an unparsable count and a negative count.

Inputs the page takes from the browser are parameters here:
- The arrival test is a per-frame set `reach` of volunteer indices. It stands for the
  linear interpolation, the random wiggle and the map's distance function.
- The random draws are a sequence `draws` of reals in [0, 1).
- The `parseInt` result is `Parsed`, which is `Number(k)` or `NaN`. A cancelled prompt
  gives `parseInt(null)`, which is `NaN`.

The source comments say each volunteer carries 1 to 3 units. But `Math.ceil(Math.random() * 3)`
is 0 when the draw is exactly 0. The model follows the code: `AidFromRandom` ranges over 0..3
and is 0 exactly for the draw 0. Accordingly, `Valid()` admits aid 0.

## Model

| member | source | states |
|---|---|---|
| `Records.AidFromRandom` | js/app.js:40 | a volunteer's aid lies in 0..3. It is 0 exactly when the random draw is 0, and otherwise it is three times the draw rounded up |
| `Records.EffectiveCount` | js/app.js:102 | the count is never 0. It is the parsed number unless that number is NaN or 0, in which case it is 10. A negative count is kept |
| `Records.Fulfilled` | js/app.js:80 | a shelter is fulfilled exactly when what it received is at least what it needs; received is not capped |
| `Records.Pending` | js/app.js:88 | the batch still has a volunteer on its way exactly when some volunteer has not arrived |
| `Records.Spawned` | js/app.js:39 | the spawn loop creates no volunteer for a non-positive count and exactly n for a count n >= 0 |
| `Records.DeliveredNone` | js/app.js:25-30 | a shelter that no arrived volunteer targets has been delivered nothing; so a newly placed shelter starts the delivery invariant at 0 |
| `Records.ArrivalTargetsMember` | js/app.js:74-82 | a shelter is reached in a frame exactly when some volunteer that arrives in that frame targets it |
| `Records.DeliveredArrive` | js/app.js:74-79 | when one volunteer arrives, its target's delivered total grows by exactly its aid, and every other shelter's total is unchanged |
| `Records.DeliveredAdvance` | js/app.js:56-85 | after a frame, each shelter's delivered total is its total before the frame plus the aid of the volunteers that arrived in that frame and target it |
| `Records.GainNonNegative` | js/app.js:79 | a frame never lowers what a shelter has received |
| `Records.DeliveredTotal` | js/app.js:49-79 | no double counting: summed over all shelters, the delivered totals equal the aid carried by the arrived volunteers |
| `Records.RoundRobinShare` | js/app.js:39-49 | when volunteer i targets shelter i mod m, shelter s gets n div m volunteers, plus one when s < n mod m |
| `Records.RoundRobinServesAll` | js/app.js:39-49 | with at least as many volunteers as shelters, every shelter gets a volunteer |
| `App.Simulation.constructor` | js/app.js:13-34 | the page starts with no shelter and an empty batch |
| `App.Simulation.AddShelter` | js/app.js:17-31 | a map click appends a shelter with needs 5 and received 0. Existing shelters and the batch are unchanged, and the delivery invariant is kept |
| `App.Simulation.Spawn` | js/app.js:37-52 | the previous batch is discarded. The new batch has exactly max(num, 0) entries: entry i targets shelter i mod m, carries the aid of draw i and has not arrived. Shelters are unchanged and their current totals become the new baseline |
| `App.Simulation.Arrive` | js/app.js:74-83 | the volunteer becomes arrived and its aid is added to its target and to no other shelter. The result says whether that shelter now has received at least what it needs |
| `App.Simulation.Tick` | js/app.js:55-93 | volunteers already arrived are untouched and arrived never reverts. A volunteer becomes arrived exactly when it was unarrived and is in reach. Each shelter gains exactly the aid of its volunteers that arrived in this frame, with no cap, so received and fulfilment only grow. The shelters marked fulfilled are the ones reached in this frame that have received at least what they need. Another frame is requested iff some volunteer is still unarrived |
| `App.Simulation.Dispatch` | js/app.js:96-106 | with no shelter, dispatch is rejected and nothing changes. Otherwise it spawns EffectiveCount volunteers round robin and runs the first frame. Each shelter then holds its earlier amount plus the aid of its arrived volunteers. A non-positive count gives an empty batch, and completion is reported at once. The shelters recoloured in the first frame are exactly those that an arrived volunteer targets and that have received what they need |
| `Scenarios.OneShelterFilled` | js/app.js:17-106 | one shelter and five volunteers with one unit each, all arriving: the shelter receives 5, is fulfilled, and completion is reported |
| `Scenarios.NoShelterRejected` | js/app.js:96-100 | dispatch without a shelter is rejected and spawns nobody |
| `Scenarios.SevenOverThree` | js/app.js:39-49 | seven volunteers over three shelters split 3, 2, 2 |
| `Scenarios.UnparsedCountIsTen` | js/app.js:102-104 | an unparsable count spawns ten volunteers |
| `Scenarios.NegativeCountCompletes` | js/app.js:102-104 | a negative count spawns nobody, and the first frame reports completion |

## Left out

- The Leaflet map, tile layer, depot marker, circle markers, popups and `setStyle` calls
  (js/app.js:1-11, 18-23, 42-47, 75-76, 81-82): these are drawing calls into a library
  that is not part of this model. The fulfilled re-colouring is kept as the `marked` result of
  `Tick` and of `Dispatch` (for its first frame) and the `fulfilled` result of `Arrive`.
- Shelter coordinates and volunteer positions: they matter only to the arrival test.
- Position interpolation, the random wiggle and `map.distance` (js/app.js:59-73): these are
  floating-point arithmetic, randomness and a foreign distance function. They are replaced
  by the per-frame `reach` set.
- Termination of the animation: it depends on floating-point convergence under random
  jitter. `Tick` only promises that the arrived set grows by the arrivals it is given.
- `requestAnimationFrame` scheduling (js/app.js:89): `Tick` returns `more` in its place.
- Two animation chains running at once, when Dispatch is pressed while a previous batch is
  still moving: this is a scheduling artefact. Here each method runs alone.
- `prompt`, `alert` and the status text (js/app.js:91, 98, 102-103): these are I/O. Only
  the count that `parseInt` produced and the rejection or completion outcome are modelled.
- The random generator itself: each draw is a parameter in [0, 1).
- AidFromRandom: computes the ceiling of the exact product 3 * r, whereas the page first
  rounds `Math.random() * 3` to a double. For a few draws just above 1/3 or 2/3 (such as
  0.6666666666666667) the double product rounds down to exactly 1 or 2, and the page gives
  one unit less than the model. Double rounding is not modelled; the range 0..3 and the
  zero case are the same in both.
- EffectiveCount: `Parsed` holds only finite integers, while `parseInt` returns a double. A
  digit string too long for a double gives `Infinity`, which `|| 10` keeps, and a count
  above 2^53 stops `i++` from changing `i`. In both cases the spawn loop on the page never
  ends. The model leaves out these counts, and `Dispatch` needs one draw per volunteer, so
  its count is always finite.
