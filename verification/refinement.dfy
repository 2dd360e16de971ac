/**
 The two refinement passes of the driver.

 Horizontal: up to 16 iterations; each walks the elements, samples the surface
 over every live element's footprint, files the element in the column list and
 asks for an XY split when the sampled amplitude exceeds 2e-6, and iterates
 again only if some element exceeded it. Vertical: one walk that asks for a Z
 split when an element's own vertex heights spread more than 6e-6.

 Each walk is recorded as one Step per index: the mesh as it was when that
 index was reached, and what the driver decided there.
 */
module Refinement {
  import opened Tolerance
  import opened Corners
  import opened Columns
  import opened Geometry
  import opened Sampler
  import opened Arena

  /** Amplitude above which an XY split is requested (2.e-6). */
  const XY_LIMIT: real := 0.000002

  /** Vertex height spread above which a Z split is requested (6e-6). */
  const Z_LIMIT: real := 0.000006

  /** The cap on horizontal iterations. */
  const MAX_ITERATIONS: nat := 16

  /** What happened at one index: not live, or examined with its min, max and delta heights. */
  datatype Outcome = Skipped | Examined(lo: real, hi: real, delta: real, split: bool)

  datatype Step = Step(before: Mesh, outcome: Outcome)

  predicate Splits(s: Step)
  {
    s.outcome.Examined? && s.outcome.split
  }

  /** The mesh after the step at index idx: refined along axis when a split was requested. */
  function After(s: Step, idx: nat, axis: Axis, env: Env): Mesh
  {
    if Splits(s) then env.refine(s.before, idx, axis) else s.before
  }

  /** The mesh at the end of a walk that started from start. */
  function PassEnd(start: Mesh, steps: seq<Step>, axis: Axis, env: Env): Mesh
  {
    if |steps| == 0 then start else After(steps[|steps| - 1], |steps| - 1, axis, env)
  }

  /** Every step sees the mesh its predecessor left behind. */
  predicate Chained(start: Mesh, steps: seq<Step>, axis: Axis, env: Env)
  {
    && (|steps| > 0 ==> steps[0].before == start)
    && forall i :: 0 < i < |steps| ==> steps[i].before == After(steps[i - 1], i - 1, axis, env)
  }

  /** The step examined an element whose delta is above limit. */
  predicate Over(s: Step, limit: real)
  {
    s.outcome.Examined? && s.outcome.delta > limit
  }

  /** What `further` accumulates over a walk: some step was over the limit. */
  predicate Exceeded(steps: seq<Step>, limit: real)
    decreases |steps|
  {
    |steps| > 0 && (Over(steps[|steps| - 1], limit) || Exceeded(steps[..|steps| - 1], limit))
  }

  /** The column key of an element: `corner(minX, minY)` of its footprint. */
  function KeyOf(vs: seq<Vertex>): Corner
  {
    var b := Footprint(vs);
    Corner(Dbl(b.xs.lo), Dbl(b.ys.lo))
  }

  /** The horizontal decision at index idx. */
  predicate HorizontalStep(s: Step, idx: nat, env: Env)
  {
    match s.outcome
    case Skipped => !Live(s.before, idx)
    case Examined(lo, hi, delta, split) =>
      && Live(s.before, idx)
      && Range(lo, hi) == SampledRange(Footprint(s.before[idx].vertices), env.surface)
      && delta == Amplitude(Range(lo, hi))
      && (split <==> delta > XY_LIMIT && env.canRefine(s.before, idx, XY))
  }

  /** One horizontal walk over the indices present when it started. */
  predicate HorizontalPass(start: Mesh, steps: seq<Step>, env: Env)
  {
    && |steps| == |start|
    && Chained(start, steps, XY, env)
    && forall i :: 0 <= i < |steps| ==> HorizontalStep(steps[i], i, env)
  }

  /** The vertical decision at index idx. */
  predicate VerticalStep(s: Step, idx: nat, env: Env)
  {
    match s.outcome
    case Skipped => !Live(s.before, idx)
    case Examined(lo, hi, delta, split) =>
      && Live(s.before, idx)
      && Spread(lo, hi, delta) == SpreadOf(Zs(s.before[idx].vertices))
      && (split <==> delta > Z_LIMIT && env.canRefine(s.before, idx, Z))
  }

  /** The single vertical walk. */
  predicate VerticalPass(start: Mesh, steps: seq<Step>, env: Env)
  {
    && |steps| == |start|
    && Chained(start, steps, Z, env)
    && forall i :: 0 <= i < |steps| ==> VerticalStep(steps[i], i, env)
  }

  /** The column-list update of one step: examined elements are filed under their key. */
  function FileStep(cols: ColumnList, s: Step, idx: nat): ColumnList
  {
    if s.outcome.Examined? && idx < |s.before| then
      Record(cols, KeyOf(s.before[idx].vertices), idx, s.outcome.lo, s.outcome.hi)
    else cols
  }

  /** The column list after the first n steps of a walk. */
  function FileAll(cols: ColumnList, steps: seq<Step>, n: nat): ColumnList
    requires n <= |steps|
  {
    if n == 0 then cols else FileStep(FileAll(cols, steps, n - 1), steps[n - 1], n - 1)
  }

  /** The mesh after the horizontal iterations recorded in passes, in order. */
  function RunEnd(mesh: Mesh, passes: seq<seq<Step>>, env: Env): Mesh
    decreases |passes|
  {
    if |passes| == 0 then mesh
    else PassEnd(RunEnd(mesh, passes[..|passes| - 1], env), passes[|passes| - 1], XY, env)
  }

  /** Every horizontal iteration so far walked the mesh its predecessors left. */
  predicate HorizontalRun(mesh: Mesh, passes: seq<seq<Step>>, env: Env)
    decreases |passes|
  {
    |passes| == 0 ||
    (HorizontalRun(mesh, passes[..|passes| - 1], env) &&
     HorizontalPass(RunEnd(mesh, passes[..|passes| - 1], env), passes[|passes| - 1], env))
  }

  /** The column list after the iterations in passes; it starts empty and is never cleared. */
  function ColumnsAfter(passes: seq<seq<Step>>): ColumnList
    decreases |passes|
  {
    if |passes| == 0 then []
    else FileAll(ColumnsAfter(passes[..|passes| - 1]), passes[|passes| - 1], |passes[|passes| - 1]|)
  }

  /** Every iteration but the last saw an amplitude above the limit. */
  predicate Continued(passes: seq<seq<Step>>)
    decreases |passes|
  {
    |passes| <= 1 || (Continued(passes[..|passes| - 1]) && Exceeded(passes[|passes| - 2], XY_LIMIT))
  }

  /** main.cpp lines 243-251: the footprint loop over the vertices. */
  method ComputeFootprint(vs: seq<Vertex>) returns (b: Box)
    ensures b == Footprint(vs)
  {
    var minX, maxX, minY, maxY := BIG, -BIG, BIG, -BIG;
    var i := 0;
    while i < |vs|
      invariant 0 <= i <= |vs|
      invariant Range(minX, maxX) == Hull(Xs(vs)[..i])
      invariant Range(minY, maxY) == Hull(Ys(vs)[..i])
    {
      var x := vs[i].x;
      var y := vs[i].y;
      ProjectionSnoc(vs, i);
      HullSnoc(Xs(vs)[..i], x);
      HullSnoc(Ys(vs)[..i], y);
      if minX > x { minX := x; }
      if maxX < x { maxX := x; }
      if minY > y { minY := y; }
      if maxY < y { maxY := y; }
      i := i + 1;
    }
    assert Xs(vs)[..i] == Xs(vs) && Ys(vs)[..i] == Ys(vs);
    b := Box(Range(minX, maxX), Range(minY, maxY));
  }

  /** main.cpp lines 291-301: the vertical pass's loop over vertex heights. */
  method ComputeSpread(vs: seq<Vertex>) returns (s: Spread)
    ensures s == SpreadOf(Zs(vs))
  {
    var minZ, maxZ, deltaZ := BIG, -BIG, -BIG;
    var i := 0;
    while i < |vs|
      invariant 0 <= i <= |vs|
      invariant Spread(minZ, maxZ, deltaZ) == SpreadOf(Zs(vs)[..i])
    {
      var z := vs[i].z;
      ProjectionSnoc(vs, i);
      HullSnoc(Zs(vs)[..i], z);
      if minZ > z { minZ := z; }
      if maxZ < z { maxZ := z; }
      deltaZ := Abs(maxZ - minZ);
      i := i + 1;
    }
    assert Zs(vs)[..i] == Zs(vs);
    s := Spread(minZ, maxZ, deltaZ);
  }

  /** main.cpp lines 230-277: what one horizontal iteration does at index idx. */
  method HorizontalVisit(mesh: Mesh, cols: ColumnList, idx: nat, env: Env)
    returns (mesh': Mesh, cols': ColumnList, exceeded: bool, step: Step)
    ensures step.before == mesh && HorizontalStep(step, idx, env)
    ensures mesh' == After(step, idx, XY, env)
    ensures cols' == FileStep(cols, step, idx)
    ensures exceeded <==> step.outcome.Examined? && step.outcome.delta > XY_LIMIT
  {
    mesh', cols', exceeded := mesh, cols, false;
    if Live(mesh, idx) {
      var box := ComputeFootprint(mesh[idx].vertices);
      var range, _ := SampleRange(box, env.surface);
      cols' := Record(cols, Corner(Dbl(box.xs.lo), Dbl(box.ys.lo)), idx, range.lo, range.hi);
      var deltaZ := Abs(range.hi - range.lo);
      var split := false;
      if deltaZ > XY_LIMIT {
        if env.canRefine(mesh, idx, XY) {
          mesh' := env.refine(mesh, idx, XY);
          split := true;
        }
        exceeded := true;
      }
      step := Step(mesh, Examined(range.lo, range.hi, deltaZ, split));
    } else {
      step := Step(mesh, Skipped);
    }
  }

  /** One horizontal iteration: main.cpp lines 228-279. */
  method HorizontalIteration(mesh: Mesh, cols: ColumnList, env: Env)
    returns (mesh': Mesh, cols': ColumnList, further: bool, steps: seq<Step>)
    ensures HorizontalPass(mesh, steps, env)
    ensures mesh' == PassEnd(mesh, steps, XY, env)
    ensures cols' == FileAll(cols, steps, |steps|)
    ensures further <==> Exceeded(steps, XY_LIMIT)
  {
    further := false;
    mesh', cols', steps := mesh, cols, [];
    var n := |mesh|;
    var idx := 0;
    while idx < n
      invariant 0 <= idx <= n && |steps| == idx
      invariant Chained(mesh, steps, XY, env)
      invariant mesh' == PassEnd(mesh, steps, XY, env)
      invariant forall i :: 0 <= i < idx ==> HorizontalStep(steps[i], i, env)
      invariant cols' == FileAll(cols, steps, idx)
      invariant further <==> Exceeded(steps, XY_LIMIT)
    {
      var exceeded, step;
      mesh', cols', exceeded, step := HorizontalVisit(mesh', cols', idx, env);
      if exceeded {
        further := true;
      }
      ChainedSnoc(mesh, steps, step, XY, env);
      FileAllPrefix(cols, steps, [step], idx);
      ExceededSnoc(steps, step, XY_LIMIT);
      forall i | 0 <= i < idx + 1 ensures HorizontalStep((steps + [step])[i], i, env) {
        if i < idx {
          assert (steps + [step])[i] == steps[i];
        }
      }
      steps := steps + [step];
      idx := idx + 1;
    }
  }

  /** The horizontal loop: main.cpp lines 223-280. */
  method RefineHorizontally(mesh: Mesh, env: Env)
    returns (mesh': Mesh, cols: ColumnList, further: bool, passes: seq<seq<Step>>)
    ensures 1 <= |passes| <= MAX_ITERATIONS
    ensures HorizontalRun(mesh, passes, env)
    ensures mesh' == RunEnd(mesh, passes, env)
    ensures cols == ColumnsAfter(passes)
    // an iteration follows another only if that one saw an amplitude above the limit
    ensures Continued(passes)
    ensures further <==> Exceeded(passes[|passes| - 1], XY_LIMIT)
    // the loop ends on a quiet iteration or at the cap
    ensures further ==> |passes| == MAX_ITERATIONS
    // a mesh with nothing to split is walked once and left as it was
    ensures QuietMesh(mesh, env) ==> |passes| == 1 && !further && mesh' == mesh
  {
    cols, further, mesh', passes := [], true, mesh, [];
    while |passes| < MAX_ITERATIONS && further
      invariant |passes| <= MAX_ITERATIONS
      invariant mesh' == RunEnd(mesh, passes, env)
      invariant cols == ColumnsAfter(passes)
      invariant HorizontalRun(mesh, passes, env)
      invariant Continued(passes)
      invariant further <==> |passes| == 0 || Exceeded(passes[|passes| - 1], XY_LIMIT)
      invariant QuietMesh(mesh, env) && |passes| > 0 ==> |passes| == 1 && !further && mesh' == mesh
      decreases MAX_ITERATIONS - |passes|
    {
      ghost var done := passes;
      ghost var start := mesh';
      var steps;
      mesh', cols, further, steps := HorizontalIteration(mesh', cols, env);
      if QuietMesh(mesh, env) {
        QuietIteration(start, steps, env);
      }
      passes := passes + [steps];
      assert passes[..|passes| - 1] == done;
    }
  }

  /** The vertical pass: main.cpp lines 286-308. */
  method RefineVertically(mesh: Mesh, env: Env) returns (mesh': Mesh, steps: seq<Step>)
    ensures VerticalPass(mesh, steps, env)
    ensures mesh' == PassEnd(mesh, steps, Z, env)
  {
    mesh', steps := mesh, [];
    var n := |mesh|;
    var idx := 0;
    while idx < n
      invariant 0 <= idx <= n && |steps| == idx
      invariant Chained(mesh, steps, Z, env)
      invariant mesh' == PassEnd(mesh, steps, Z, env)
      invariant forall i :: 0 <= i < idx ==> VerticalStep(steps[i], i, env)
    {
      var before := mesh';
      var step;
      if Live(mesh', idx) {
        var s := ComputeSpread(mesh'[idx].vertices);
        var split := false;
        if s.delta > Z_LIMIT {
          if env.canRefine(mesh', idx, Z) {
            mesh' := env.refine(mesh', idx, Z);
            split := true;
          }
        }
        step := Step(before, Examined(s.lo, s.hi, s.delta, split));
      } else {
        step := Step(before, Skipped);
      }
      ChainedSnoc(mesh, steps, step, Z, env);
      forall i | 0 <= i < idx + 1 ensures VerticalStep((steps + [step])[i], i, env) {
        if i < idx {
          assert (steps + [step])[i] == steps[i];
        }
      }
      steps := steps + [step];
      idx := idx + 1;
    }
  }

  /** The whole refinement: the horizontal loop, then the vertical pass exactly once. */
  method Run(mesh: Mesh, env: Env)
    returns (mesh': Mesh, cols: ColumnList, further: bool, passes: seq<seq<Step>>, vertical: seq<Step>)
    ensures 1 <= |passes| <= MAX_ITERATIONS
    ensures HorizontalRun(mesh, passes, env)
    ensures cols == ColumnsAfter(passes)
    ensures Continued(passes)
    ensures further <==> Exceeded(passes[|passes| - 1], XY_LIMIT)
    ensures further ==> |passes| == MAX_ITERATIONS
    ensures VerticalPass(RunEnd(mesh, passes, env), vertical, env)
    ensures mesh' == PassEnd(RunEnd(mesh, passes, env), vertical, Z, env)
  {
    var m;
    m, cols, further, passes := RefineHorizontally(mesh, env);
    mesh', vertical := RefineVertically(m, env);
  }

  // ---------------------------------------------------------------------------
  // Properties of the passes

  /** Every live element of the mesh samples at or below the XY limit. */
  predicate QuietMesh(mesh: Mesh, env: Env)
  {
    forall i :: 0 <= i < |mesh| && Live(mesh, i) ==>
      Amplitude(SampledRange(Footprint(mesh[i].vertices), env.surface)) <= XY_LIMIT
  }

  /** An XY split is requested only for a live element above the limit that the mesh can refine. */
  lemma HorizontalSplitGate(start: Mesh, steps: seq<Step>, env: Env, i: nat)
    requires HorizontalPass(start, steps, env) && i < |steps|
    ensures Splits(steps[i]) <==>
              && Live(steps[i].before, i)
              && Amplitude(SampledRange(Footprint(steps[i].before[i].vertices), env.surface)) > XY_LIMIT
              && env.canRefine(steps[i].before, i, XY)
  {
  }

  /**
   An amplitude above the limit sets `further` whether or not the split is
   granted: the split follows `can_refine`, `further` does not.
   */
  lemma RefusedSplitStillIterates(steps: seq<Step>, env: Env, i: nat)
    requires i < |steps| && HorizontalStep(steps[i], i, env)
    ensures Live(steps[i].before, i) &&
            Amplitude(SampledRange(Footprint(steps[i].before[i].vertices), env.surface)) > XY_LIMIT ==>
              Exceeded(steps, XY_LIMIT) && (Splits(steps[i]) <==> env.canRefine(steps[i].before, i, XY))
  {
    ExceededMeans(steps, XY_LIMIT);
  }

  /**
   An element less than one sampling step deep in y samples nothing; its
   amplitude is then 2*max, so it always sets `further`.
   */
  lemma ThinElementForcesIteration(steps: seq<Step>, env: Env, i: nat)
    requires i < |steps| && HorizontalStep(steps[i], i, env)
    ensures Live(steps[i].before, i) && Steps(Footprint(steps[i].before[i].vertices).ys) <= 0 ==>
              Over(steps[i], XY_LIMIT) && Exceeded(steps, XY_LIMIT)
  {
    if Live(steps[i].before, i) && Steps(Footprint(steps[i].before[i].vertices).ys) <= 0 {
      ThinFootprintKeepsSentinels(Footprint(steps[i].before[i].vertices), env.surface);
    }
    ExceededMeans(steps, XY_LIMIT);
  }

  /** A Z split is requested only for a live element whose vertex heights spread above the limit. */
  lemma VerticalSplitGate(start: Mesh, steps: seq<Step>, env: Env, i: nat)
    requires VerticalPass(start, steps, env) && i < |steps|
    ensures Splits(steps[i]) <==>
              && Live(steps[i].before, i)
              && SpreadOf(Zs(steps[i].before[i].vertices)).delta > Z_LIMIT
              && env.canRefine(steps[i].before, i, Z)
  {
  }

  /** A walk that requests no split sees the same mesh throughout and leaves it unchanged. */
  lemma {:induction false} QuietWalk(start: Mesh, steps: seq<Step>, axis: Axis, env: Env, n: nat)
    requires Chained(start, steps, axis, env) && n <= |steps|
    requires forall i :: 0 <= i < n ==> !Splits(steps[i])
    ensures forall i :: 0 <= i < n ==> steps[i].before == start
    ensures n == |steps| ==> PassEnd(start, steps, axis, env) == start
    decreases n
  {
    if n > 0 {
      QuietWalk(start, steps, axis, env, n - 1);
      if n > 1 {
        assert steps[n - 1].before == After(steps[n - 2], n - 2, axis, env);
      }
    }
  }

  /** On a quiet mesh a horizontal walk splits nothing, asks for no further iteration and changes nothing. */
  lemma QuietPass(start: Mesh, steps: seq<Step>, env: Env)
    requires HorizontalPass(start, steps, env) && QuietMesh(start, env)
    ensures forall i :: 0 <= i < |steps| ==> !Splits(steps[i])
    ensures !Exceeded(steps, XY_LIMIT)
    ensures PassEnd(start, steps, XY, env) == start
  {
    QuietPrefix(start, steps, env, |steps|);
    QuietIteration(start, steps, env);
  }

  /** What the horizontal loop needs of a quiet iteration: `further` stays false and the mesh is kept. */
  lemma {:induction false} QuietIteration(start: Mesh, steps: seq<Step>, env: Env)
    requires HorizontalPass(start, steps, env) && QuietMesh(start, env)
    ensures !Exceeded(steps, XY_LIMIT)
    ensures PassEnd(start, steps, XY, env) == start
  {
    QuietPrefix(start, steps, env, |steps|);
    QuietWalk(start, steps, XY, env, |steps|);
    ExceededMeans(steps, XY_LIMIT);
  }

  lemma {:induction false} QuietPrefix(start: Mesh, steps: seq<Step>, env: Env, n: nat)
    requires HorizontalPass(start, steps, env) && QuietMesh(start, env) && n <= |steps|
    ensures forall i :: 0 <= i < n ==> !Splits(steps[i])
    ensures forall i :: 0 <= i < n ==> steps[i].outcome.Examined? ==> steps[i].outcome.delta <= XY_LIMIT
    decreases n
  {
    if n > 0 {
      QuietPrefix(start, steps, env, n - 1);
      QuietWalk(start, steps, XY, env, n - 1);
      var i := n - 1;
      assert steps[i].before == start by {
        if i > 0 {
          assert steps[i].before == After(steps[i - 1], i - 1, XY, env);
        }
      }
    }
  }

  /** Every element examined in a walk is, at its end, in the column its corner resolves to. */
  lemma {:induction false} ExaminedIsFiled(cols: ColumnList, steps: seq<Step>, n: nat, i: nat)
    requires i < n <= |steps|
    requires steps[i].outcome.Examined? && i < |steps[i].before|
    ensures Filed(FileAll(cols, steps, n), KeyOf(steps[i].before[i].vertices), i)
    decreases n
  {
    var k := KeyOf(steps[i].before[i].vertices);
    if n > i + 1 {
      ExaminedIsFiled(cols, steps, n - 1, i);
      FileAllKeepsFiled(cols, steps, n, k, i);
    } else {
      FileAllFiles(cols, steps, i);
    }
  }

  lemma FileAllFiles(cols: ColumnList, steps: seq<Step>, i: nat)
    requires i < |steps| && steps[i].outcome.Examined? && i < |steps[i].before|
    ensures Filed(FileAll(cols, steps, i + 1), KeyOf(steps[i].before[i].vertices), i)
  {
    var s := steps[i];
    RecordFiles(FileAll(cols, steps, i), KeyOf(s.before[i].vertices), i, s.outcome.lo, s.outcome.hi);
  }

  lemma FileAllKeepsFiled(cols: ColumnList, steps: seq<Step>, n: nat, k: Corner, e: nat)
    requires 0 < n <= |steps| && Filed(FileAll(cols, steps, n - 1), k, e)
    ensures Filed(FileAll(cols, steps, n), k, e)
  {
    FileStepKeepsFiled(FileAll(cols, steps, n - 1), steps[n - 1], n - 1, k, e);
  }

  lemma FileStepKeepsFiled(cols: ColumnList, s: Step, idx: nat, k: Corner, e: nat)
    requires Filed(cols, k, e)
    ensures Filed(FileStep(cols, s, idx), k, e)
  {
    if s.outcome.Examined? && idx < |s.before| {
      RecordKeepsFiled(cols, k, e, KeyOf(s.before[idx].vertices), idx, s.outcome.lo, s.outcome.hi);
    }
  }

  // ---------------------------------------------------------------------------
  // Bookkeeping lemmas for the loops

  lemma {:induction false} FileAllPrefix(cols: ColumnList, steps: seq<Step>, more: seq<Step>, n: nat)
    requires n <= |steps|
    ensures FileAll(cols, steps + more, n) == FileAll(cols, steps, n)
    decreases n
  {
    if n > 0 {
      FileAllPrefix(cols, steps, more, n - 1);
      assert (steps + more)[n - 1] == steps[n - 1];
    }
  }

  lemma ChainedSnoc(start: Mesh, steps: seq<Step>, s: Step, axis: Axis, env: Env)
    requires Chained(start, steps, axis, env) && s.before == PassEnd(start, steps, axis, env)
    ensures Chained(start, steps + [s], axis, env)
    ensures PassEnd(start, steps + [s], axis, env) == After(s, |steps|, axis, env)
  {
    var t := steps + [s];
    forall i | 0 < i < |t| ensures t[i].before == After(t[i - 1], i - 1, axis, env) {
      if i < |steps| {
        assert t[i] == steps[i] && t[i - 1] == steps[i - 1];
      } else {
        assert t[i - 1] == steps[|steps| - 1];
      }
    }
  }

  lemma ExceededSnoc(steps: seq<Step>, s: Step, limit: real)
    ensures Exceeded(steps + [s], limit) <==> Exceeded(steps, limit) || Over(s, limit)
  {
    assert (steps + [s])[..|steps|] == steps;
  }

  /** `further` ends true exactly when some step of the walk was over the limit. */
  lemma {:induction false} ExceededMeans(steps: seq<Step>, limit: real)
    ensures Exceeded(steps, limit) <==> exists i :: 0 <= i < |steps| && Over(steps[i], limit)
    decreases |steps|
  {
    if |steps| > 0 {
      var init := steps[..|steps| - 1];
      ExceededMeans(init, limit);
      if exists i :: 0 <= i < |init| && Over(init[i], limit) {
        var i :| 0 <= i < |init| && Over(init[i], limit);
        assert steps[i] == init[i];
      }
      if exists i :: 0 <= i < |steps| && Over(steps[i], limit) {
        var i :| 0 <= i < |steps| && Over(steps[i], limit);
        if i < |init| {
          assert init[i] == steps[i];
        }
      }
    }
  }

  /** Iteration p walked the mesh the earlier iterations left. */
  predicate PassAt(mesh: Mesh, passes: seq<seq<Step>>, p: nat, env: Env)
    requires p < |passes|
  {
    HorizontalPass(RunEnd(mesh, passes[..p], env), passes[p], env)
  }

  /** The recursive run predicate spelled out per iteration. */
  lemma {:induction false} HorizontalRunMeans(mesh: Mesh, passes: seq<seq<Step>>, env: Env)
    ensures HorizontalRun(mesh, passes, env) <==> forall p :: 0 <= p < |passes| ==> PassAt(mesh, passes, p, env)
    decreases |passes|
  {
    if |passes| > 0 {
      var n := |passes|;
      var init := passes[..n - 1];
      HorizontalRunMeans(mesh, init, env);
      forall p | 0 <= p < n - 1 ensures PassAt(mesh, init, p, env) <==> PassAt(mesh, passes, p, env) {
        PassAtPrefix(mesh, passes, n - 1, p, env);
      }
      assert PassAt(mesh, passes, n - 1, env) <==> HorizontalPass(RunEnd(mesh, init, env), passes[n - 1], env);
    }
  }

  lemma PassAtPrefix(mesh: Mesh, passes: seq<seq<Step>>, n: nat, p: nat, env: Env)
    requires p < n <= |passes|
    ensures PassAt(mesh, passes[..n], p, env) <==> PassAt(mesh, passes, p, env)
  {
    assert passes[..n][..p] == passes[..p];
  }

  lemma {:induction false} ContinuedMeans(passes: seq<seq<Step>>)
    ensures Continued(passes) <==> forall p :: 0 <= p < |passes| - 1 ==> Exceeded(passes[p], XY_LIMIT)
    decreases |passes|
  {
    if |passes| > 1 {
      var init := passes[..|passes| - 1];
      ContinuedMeans(init);
      assert forall p :: 0 <= p < |init| ==> init[p] == passes[p];
    }
  }
}
