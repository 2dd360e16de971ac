# Refinement decisions of the rough-surface mesh driver, in Dafny

This project models the part of `main.cpp` that decides how a hexahedral mesh
is refined to follow a rough surface. It has four parts.

- **`dbl`**: a double whose `==`, `!=` and `<` are taken up to a global threshold
  `thresh` (10e-12). This is module `Tolerance`, file `tolerance.dfy`.
- **`corner`**: the key of a column. It is the lower-left `(x, y)` of an
  element's footprint, ordered by `y` first and then by `x`, through `dbl`.
  This is module `Corners`, file `corner.dfy`.
- **`column` and `columnList`**: a `std::map` from corners to columns. A column
  holds `lo`, `hi` and a set of element ids. This is module `Columns`, file
  `columns.dfy`.
- **The two passes of `main`**:
  - The horizontal pass runs up to 16 iterations. For each live element it
    computes the footprint box of the vertices and samples the surface over
    the box. It files the element under its corner, then asks for an XY split
    when the sampled amplitude exceeds 2e-6.
  - The vertical pass runs once. It asks for a Z split when an element's own
    vertex heights spread by more than 6e-6.

  These are modules `Geometry` (`geometry.dfy`: running min/max reductions),
  `Sampler` (`sampler.dfy`: the sampling loops), `Arena` (`arena.dfy`: the
  mesh and the external calls) and `Refinement` (`refinement.dfy`: the
  passes).

Doubles are modelled as `real`. `BIG` stands for
`std::numeric_limits<double>::max()`.

The mesh is a sequence of elements. Each element carries its `used` and
`active` flags and its vertices. The surface height `interpolate`, the predicate
`can_refine_element` and the operation `refine_element` are supplied by the
caller as function-valued fields of `Env`.

A walk over the mesh is recorded as one `Step` per index. The step holds the
mesh as that index found it and what the driver decided there. The passes are
stated against this record:

- `HorizontalStep` and `VerticalStep` say what was decided at one index.
- `Chained` says that each step saw the mesh its predecessor left behind.

Observations the model makes precise:

- The sampling loops at main.cpp:259 declare `u` twice. The inner loop's `u`
  hides the outer one, so the surface is sampled only along the diagonal
  `(minX + u*sX, minY + u*sY)` for `u < nY`, and each point is sampled
  `nX + 1` times. An element less than one step deep in `y` samples nothing.
  Its `minZ`/`maxZ` keep their sentinels, its amplitude is `2*max`, and it
  sets `further`, so another iteration follows unless the sixteenth has been
  reached.
- `dbl::operator<` makes values within the threshold incomparable. That
  relation is `==` up to the threshold, which is not transitive, so the
  comparator the map is given is not a strict weak ordering. On corners `<`
  itself is not transitive either: three corners can form a cycle. The column list
  is modelled as an association list in insertion order: a key resolves to the
  first stored entry whose corner is equivalent to it. Corners that are not
  equal up to the threshold can then share a column through a third corner
  filed earlier.
- The column list is never cleared between iterations. A later iteration
  overwrites `lo`/`hi` of the column it files into and adds the element id;
  it never merges the heights.

## Model

| member | source | states |
|---|---|---|
| Tolerance.Dbl.Eq | main.cpp:94-98 | `a == b` holds exactly when `a` lies in the closed band `[b - thresh, b + thresh]` |
| Tolerance.Dbl.Ne | main.cpp:100-104 | `!=` is computed on its own but is always the exact negation of `==` |
| Tolerance.Dbl.Less | main.cpp:107-115 | `a < b` holds exactly when `a` lies below `b` by more than the threshold |
| Tolerance.EqReflexive | main.cpp:94-98 | every value is `==` to itself |
| Tolerance.EqSymmetric | main.cpp:94-98 | `a == b` exactly when `b == a` |
| Tolerance.EqNotTransitive | main.cpp:94-98 | there are three values with `a == b`, `b == c` and not `a == c` |
| Tolerance.LessIrreflexive | main.cpp:107-115 | no value is `<` itself |
| Tolerance.LessFalseWhenClose | main.cpp:107-115 | values within the threshold are ordered neither way |
| Tolerance.LessTrichotomy | main.cpp:107-115 | values farther apart than the threshold are ordered exactly one way, the way their numeric values are |
| Tolerance.IncomparableIffEq | main.cpp:94-115 | neither `a < b` nor `b < a` holds exactly when `a == b` |
| Tolerance.LessNotStrictWeak | main.cpp:107-115 | incomparability under `<` is not transitive, so `<` is not a strict weak ordering |
| Tolerance.LessTransitive | main.cpp:107-115 | `<` is transitive, so it is a strict partial order |
| Corners.Corner.Eq | main.cpp:150-154 | two corners are `==` exactly when both coordinates are within the threshold |
| Corners.Corner.Less | main.cpp:157-162 | `a < b` exactly when `a.y` is below `b.y` beyond the threshold, or the `y` values are within it and `a.x` is below `b.x` beyond it |
| Corners.EquivalentIffEq | main.cpp:150-162 | two corners are map-equivalent (neither `<` the other) exactly when they are `==` |
| Corners.LessIrreflexive | main.cpp:157-162 | no corner is `<` itself |
| Corners.LessAsymmetric | main.cpp:157-162 | `a < b` rules out `b < a` |
| Corners.EqSymmetric | main.cpp:150-154 | corner `==` is symmetric |
| Corners.EquivalentNotTransitive | main.cpp:150-162 | map equivalence of corners is not transitive |
| Corners.LessNotTransitive | main.cpp:157-162 | corner `<` is not transitive: three corners can each be `<` the next in a cycle |
| Columns.FindFrom | main.cpp:194 | lookup returns the first entry whose key is equivalent to the one sought, or reports that no entry is |
| Columns.SubscriptSpec | main.cpp:187-194 | `myCols[k]` resolves to the entry of an equivalent key; when there is none it appends a default column (`lo = hi = 0`, no elements) under `k`; a second lookup of `k` finds the same entry |
| Columns.AssignSpec | main.cpp:267-269 | a series of `myCols[k].…` statements changes only the entry `k` resolves to, appended first if missing, and applies the updates to it in order; no key changes |
| Columns.RecordSpec | main.cpp:267-269 | after filing, the entry for `k` holds the element among its previous elements, and `lo`/`hi` are this element's heights (overwritten, not merged); an existing entry stays in place, otherwise exactly one is appended; every other entry and every key is unchanged |
| Columns.RecordKeepsOtherKeys | main.cpp:267-269 | a lookup of a key that is not equivalent to `k` and resolves to a different entry gives the same column before and after filing |
| Columns.RecordFiles | main.cpp:267 | after filing, the element is in the column its corner resolves to |
| Columns.RecordKeepsFiled | main.cpp:267-269 | filing never moves a key to another entry and never removes an element already filed |
| Columns.CloseCornersMerge | main.cpp:267-269 | when neither corner resolves to a stored entry yet, two elements whose corners are `==` end up in one new column, appended after the existing ones, which carries the second element's heights; no existing entry changes |
| Columns.FarCornersSeparate | main.cpp:267-269 | when neither corner resolves to a stored entry yet, two elements whose corners are not `==` end up in two new columns, appended in filing order, each with its own heights; no existing entry changes |
| Columns.NonEquivalentCornersCanShareColumn | main.cpp:267-269 | corners farther apart than the threshold still share a column when a corner between them was filed first |
| Geometry.Hull | main.cpp:236-251 | the running min/max from the sentinels bounds every value it has seen, and is the sentinels when it has seen none |
| Geometry.HullAttained | main.cpp:243-251 | on finite values each bound of a non-empty reduction is one of the values |
| Geometry.FootprintContains | main.cpp:236-251 | every vertex satisfies `minX <= x <= maxX` and `minY <= y <= maxY`; with no vertex the box is the sentinels |
| Geometry.FootprintAttained | main.cpp:236-251 | with at least one vertex, and on finite coordinates, each bound of the box is some vertex's coordinate |
| Geometry.SpreadExceeds | main.cpp:291-303 | on finite heights and a positive limit, the vertical pass's `deltaZ` exceeds the limit exactly when two vertex heights differ by more than it |
| Refinement.ComputeFootprint | main.cpp:236-251 | the loop over vertices computes the footprint box |
| Refinement.ComputeSpread | main.cpp:291-301 | the loop over vertex heights ends with `minZ`/`maxZ` the min and max of the heights and `deltaZ = |maxZ - minZ|`; with no vertex all three keep their sentinels |
| Sampler.SampleRange | main.cpp:253-266 | the nested loops sample the diagonal trace, in order, and reduce the sampled heights to their min/max |
| Sampler.SampledPoints | main.cpp:253-262 | a point is sampled exactly when `nX >= 0` and it is `(minX + u*sX, minY + u*sY)` for some `0 <= u < nY` |
| Sampler.SampledMultiplicity | main.cpp:253-262 | each diagonal point is sampled `nX + 1` times |
| Sampler.FlatSurface | main.cpp:259-266 | for a footprint at least one step deep in `y` (and `nX >= 0`), a flat surface of finite height samples to exactly that height, so the amplitude is zero |
| Sampler.ThinFootprintKeepsSentinels | main.cpp:253-271 | with `nY <= 0` nothing is sampled, `minZ`/`maxZ` keep their sentinels and the amplitude is `2*max` |
| Refinement.HorizontalVisit | main.cpp:230-277 | one index of a horizontal iteration: the decision is the horizontal rule, the mesh is refined only on a split, the element is filed when examined, and the flag is raised when the amplitude exceeds 2e-6 |
| Refinement.HorizontalIteration | main.cpp:228-279 | one iteration walks every index present at its start, each seeing the mesh its predecessor left; the column list grows by filing each examined element in turn; `further` ends true exactly when some element was over the limit |
| Refinement.RefineHorizontally | main.cpp:223-280 | between 1 and 16 iterations run, each on the mesh the previous one left; every iteration but the last saw an amplitude above 2e-6; the loop stops early only after an iteration with none; a mesh with nothing above the limit is walked once and left unchanged |
| Refinement.RefineVertically | main.cpp:286-308 | the single vertical walk makes the vertical decision at every index, on the mesh its predecessor left |
| Refinement.Run | main.cpp:223-308 | the horizontal loop runs first, then the vertical pass exactly once, on the mesh the horizontal loop left |
| Refinement.HorizontalSplitGate | main.cpp:230-275 | an XY split is requested exactly for a used, active element whose sampled amplitude exceeds 2e-6 and which the mesh can refine along XY |
| Refinement.RefusedSplitStillIterates | main.cpp:271-277 | for a live element whose amplitude exceeds 2e-6, `further` is set whether or not the split is granted, and the split happens exactly when `can_refine` allows it |
| Refinement.ThinElementForcesIteration | main.cpp:253-276 | a live element less than one step deep in `y` always sets `further` |
| Refinement.VerticalSplitGate | main.cpp:286-307 | a Z split is requested exactly for a used, active element whose vertex heights spread above 6e-6 and which the mesh can refine along Z; no other element is split |
| Refinement.QuietPass | main.cpp:228-279 | on a mesh whose live elements all sample at or below 2e-6, an iteration splits nothing, leaves `further` false and leaves the mesh unchanged |
| Refinement.ExaminedIsFiled | main.cpp:229-269 | after an iteration every examined element is in the column its corner resolves to |
| Refinement.ExceededMeans | main.cpp:228-277 | `further` is true after a walk exactly when some element in it was over the limit |
| Refinement.HorizontalRunMeans | main.cpp:223-280 | the recorded run is well formed exactly when every iteration walked the mesh the earlier ones left |
| Refinement.ContinuedMeans | main.cpp:225 | the loop condition holds between iterations exactly when every iteration but the last exceeded the limit |

## Left out

- VTK output (`out_mesh`, `out_fn`, main.cpp:41-70), the `operator<<` overloads and the progress line printed at main.cpp:227 are not modelled. They only write output.
- `bc_types` and the material constants (main.cpp:24-38) are not modelled. The refinement logic does not use them.
- Loading the mesh (main.cpp:213-215) and the surface (main.cpp:218-221) is not modelled. The mesh and the surface are parameters.
- `rough.h` is not part of this model. `interpolate`, `can_refine_element` and `refine_element` are uninterpreted functions in `Env`. Nothing is assumed about how refining changes the mesh.
- The element container's `first`/`next`/`count` iteration is modelled as indices `0 .. n-1`, where `n` is the mesh size when the walk starts. Its index base, `INVALID_IDX` and how children are numbered are not modelled.
- IEEE-754 rounding is not modelled. Values are reals. The overflow of `|(-max) - max|` to infinity becomes `2*BIG`.
- The `int` width of `(int)floor(delta/0.05e-6)` is not modelled. The step counts are unbounded integers.
- `std::map`'s tree behaviour under a comparator that is not a strict weak ordering is left aside. Corner `<` is not even transitive (`Corners.LessNotTransitive` gives a 3-cycle), so the behaviour is undefined in C++. The map is an association list searched in insertion order.
- Copy constructors and destructors of `corner` and `column` (main.cpp:138-142, 180-185) are not modelled. They copy fields only.
