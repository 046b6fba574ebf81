/**
 * The bookkeeping around the continuous normalizing flow (TrajCNF.py,
 * ConditionalCNF.forward and TrajCNF.log_prob): default arguments, the
 * direction of the integration times, which states of the solution are
 * returned, and the change-of-variables identity of the log-density.
 *
 * The ODE solve (adaptive dopri5 through torchdiffeq), the neural vector field
 * and the base Gaussian's log-density are not modelled; they are passed in as
 * functions. A trajectory point is a (batch, seq, dim) array of reals, the
 * log-density change a (batch, seq) array.
 */
module Flow {
  import opened Wrappers

  /** A (batch, seq, dim) array of trajectory points. */
  type Points = seq<seq<seq<real>>>

  /** A (batch, seq) array, one entry per trajectory point. */
  type Grid = seq<seq<real>>

  /** The state the ODE carries: the points and the accumulated log-density change. */
  datatype FlowState = FlowState(z: Points, deltaLogp: Grid)

  /**
   * The ODE solver applied to the flow's vector field under a condition:
   * given the initial state and the times, it returns one state per time.
   */
  type Integrator<!C> = (C, FlowState, seq<real>) -> seq<FlowState>

  /** What `odeint` returns: one state per integration time, as it promises. */
  ghost predicate OneStatePerTime<C(!new)>(integrate: Integrator<C>) {
    forall c, st, ts :: |integrate(c, st, ts)| == |ts|
  }

  /** The result of `forward`: the terminal state alone for two times, else the whole trajectory. */
  datatype FlowOutput = Terminal(state: FlowState) | Trajectory(states: seq<FlowState>)

  /** z.shape[1]: the sequence length of the points (0 for an empty batch, where it does not matter). */
  function SeqLength(z: Points): nat {
    if |z| == 0 then 0 else |z[0]|
  }

  /** torch.zeros(batch, seq). */
  function Zeros(batch: nat, len: nat): (g: Grid)
    ensures |g| == batch
    ensures forall b :: 0 <= b < batch ==> |g[b]| == len && forall t :: 0 <= t < len ==> g[b][t] == 0.0
  {
    seq(batch, _ => seq(len, _ => 0.0))
  }

  /** torch.flip(times, [0]). */
  function Reverse(ts: seq<real>): (r: seq<real>)
    ensures |r| == |ts|
    ensures forall i :: 0 <= i < |ts| ==> r[i] == ts[|ts| - 1 - i]
  {
    seq(|ts|, i requires 0 <= i < |ts| => ts[|ts| - 1 - i])
  }

  /** Flipping twice gives back the original times. */
  lemma ReverseInvolution(ts: seq<real>)
    ensures Reverse(Reverse(ts)) == ts
  {
  }

  /** The times `forward` integrates over: [0, 1] by default, flipped when `reverse` is set. */
  function IntegrationTimes(times: Option<seq<real>>, reverse: bool): (ts: seq<real>)
    ensures times.Some? ==> ts == if reverse then Reverse(times.value) else times.value
    ensures times.None? ==> ts == if reverse then [1.0, 0.0] else [0.0, 1.0]
  {
    var base := if times.None? then [0.0, 1.0] else times.value;
    if reverse then Reverse(base) else base
  }

  /** The initial log-density change: the one given, or zeros of shape (batch, seq). */
  function InitialDelta(z: Points, deltaLogp: Option<Grid>): (d: Grid)
    ensures deltaLogp.Some? ==> d == deltaLogp.value
    ensures deltaLogp.None? ==> d == Zeros(|z|, SeqLength(z))
  {
    if deltaLogp.None? then Zeros(|z|, SeqLength(z)) else deltaLogp.value
  }

  /**
   * `ConditionalCNF.forward`: integrate (z, delta) under the condition over
   * the chosen times; with exactly two times keep only the state at the
   * second one.
   */
  function CnfForward<C(!new)>(integrate: Integrator<C>, z: Points, condition: C, deltaLogp: Option<Grid>,
                               times: Option<seq<real>>, reverse: bool): (r: FlowOutput)
    requires OneStatePerTime(integrate)
    ensures var ts := IntegrationTimes(times, reverse);
            var states := integrate(condition, FlowState(z, InitialDelta(z, deltaLogp)), ts);
            && (r.Terminal? <==> |ts| == 2)
            && (r.Terminal? ==> r.state == states[1])
            && (r.Trajectory? ==> r.states == states)
  {
    var ts := IntegrationTimes(times, reverse);
    var states := integrate(condition, FlowState(z, InitialDelta(z, deltaLogp)), ts);
    if |ts| == 2 then Terminal(states[1]) else Trajectory(states)
  }

  /** With the default times the result is always the terminal state, whichever the direction. */
  lemma DefaultTimesGiveTerminal<C(!new)>(integrate: Integrator<C>, z: Points, condition: C, deltaLogp: Option<Grid>, reverse: bool)
    requires OneStatePerTime(integrate)
    ensures var r := CnfForward(integrate, z, condition, deltaLogp, None, reverse);
            && r.Terminal?
            && r.state == integrate(condition, FlowState(z, InitialDelta(z, deltaLogp)), if reverse then [1.0, 0.0] else [0.0, 1.0])[1]
  {
  }

  /** Running forward with reverse=true is running it on the flipped times with reverse=false. */
  lemma ReverseIsFlippedTimes<C(!new)>(integrate: Integrator<C>, z: Points, condition: C, deltaLogp: Option<Grid>, times: seq<real>)
    requires OneStatePerTime(integrate)
    ensures CnfForward(integrate, z, condition, deltaLogp, Some(times), true)
         == CnfForward(integrate, z, condition, deltaLogp, Some(Reverse(times)), false)
  {
  }

  /**
   * An integrator that solves the ODE exactly: integrating over two times and
   * then back over the flipped times returns the starting state.
   */
  ghost predicate Reversible<C(!new)>(integrate: Integrator<C>)
    requires OneStatePerTime(integrate)
  {
    forall c, st, ts :: |ts| == 2 ==> integrate(c, integrate(c, st, ts)[1], Reverse(ts))[1] == st
  }

  /**
   * Sampling then density evaluation: with an exact integrator, running the
   * flow backwards from z (as `sample` does) and then forwards from the result,
   * carrying its log-density change along, returns z with a zero change.
   */
  lemma SampleThenForward<C(!new)>(integrate: Integrator<C>, z: Points, condition: C)
    requires OneStatePerTime(integrate) && Reversible(integrate)
    ensures var back := CnfForward(integrate, z, condition, None, None, true);
            && back.Terminal?
            && CnfForward(integrate, back.state.z, condition, Some(back.state.deltaLogp), None, false)
               == Terminal(FlowState(z, Zeros(|z|, SeqLength(z))))
  {
    var start := FlowState(z, Zeros(|z|, SeqLength(z)));
    var back := integrate(condition, start, [1.0, 0.0]);
    assert Reverse([1.0, 0.0]) == [0.0, 1.0];
    assert integrate(condition, back[1], Reverse([1.0, 0.0]))[1] == start;
  }

  /** Both arrays have the same (batch, seq) shape. */
  predicate SameShape(z: Points, g: Grid) {
    |z| == |g| && forall b :: 0 <= b < |z| ==> |z[b]| == |g[b]|
  }

  /**
   * `TrajCNF.log_prob`: the base log-density of each point of z_t0 and that
   * minus the log-density change.
   */
  function LogProb(logDensity: seq<real> -> real, zT0: Points, deltaLogp: Grid): (r: (Grid, Grid))
    requires SameShape(zT0, deltaLogp)
    ensures SameShape(zT0, r.0) && SameShape(zT0, r.1)
    ensures forall b, t :: 0 <= b < |zT0| && 0 <= t < |zT0[b]| ==> r.0[b][t] == logDensity(zT0[b][t])
    ensures forall b, t :: 0 <= b < |zT0| && 0 <= t < |zT0[b]| ==> r.1[b][t] + deltaLogp[b][t] == r.0[b][t]
  {
    var lp0 := seq(|zT0|, b requires 0 <= b < |zT0| => seq(|zT0[b]|, t requires 0 <= t < |zT0[b]| => logDensity(zT0[b][t])));
    var lp1 := seq(|zT0|, b requires 0 <= b < |zT0| => seq(|zT0[b]|, t requires 0 <= t < |zT0[b]| => lp0[b][t] - deltaLogp[b][t]));
    (lp0, lp1)
  }

  /** Every row of the batch has the same sequence length, as a tensor's rows do. */
  predicate Uniform(z: Points) {
    forall b :: 0 <= b < |z| ==> |z[b]| == SeqLength(z)
  }

  /** Grid a is grid b plus grid d, entry by entry. */
  predicate AddsTo(a: Grid, b: Grid, d: Grid) {
    && |a| == |b| == |d|
    && forall i :: 0 <= i < |a| ==>
         && |a[i]| == |b[i]| == |d[i]|
         && forall t :: 0 <= t < |a[i]| ==> a[i][t] == b[i][t] + d[i][t]
  }

  /**
   * The integrator of a continuous normalizing flow: the log-density change
   * evolves by `-trace` of the dynamics' Jacobian, which does not depend on
   * the change itself. So the points it produces do not depend on the change
   * carried in, and the change it produces is the change from zero plus the
   * one carried in. The state from a zero start keeps the points' shape.
   */
  ghost predicate CarriesChange<C(!new)>(integrate: Integrator<C>)
    requires OneStatePerTime(integrate)
  {
    forall c, z, d, ts, k {:trigger integrate(c, FlowState(z, d), ts)[k]} ::
      SameShape(z, d) && Uniform(z) && 0 <= k < |ts| ==>
      var s0 := integrate(c, FlowState(z, Zeros(|z|, SeqLength(z))), ts)[k];
      var s := integrate(c, FlowState(z, d), ts)[k];
      && SameShape(s0.z, s0.deltaLogp)
      && s.z == s0.z
      && AddsTo(s.deltaLogp, s0.deltaLogp, d)
  }

  /**
   * `log_prob` after `forward`: passing a log-density change into `forward`
   * leaves the transformed points as they are and lowers `logpz_t1` by
   * exactly that change, while `logpz_t0` stays the base density of the
   * transformed points.
   */
  lemma ForwardCarriesChange<C(!new)>(integrate: Integrator<C>, logDensity: seq<real> -> real, y: Points,
                                      condition: C, delta: Grid)
    requires OneStatePerTime(integrate) && CarriesChange(integrate)
    requires SameShape(y, delta) && Uniform(y)
    ensures var out := CnfForward(integrate, y, condition, Some(delta), None, false);
            var out0 := CnfForward(integrate, y, condition, None, None, false);
            && out.Terminal? && out0.Terminal?
            && out.state.z == out0.state.z
            && SameShape(out.state.z, out.state.deltaLogp) && SameShape(out0.state.z, out0.state.deltaLogp)
            && SameShape(y, out.state.deltaLogp) && |out.state.z| == |y|
            && var r := LogProb(logDensity, out.state.z, out.state.deltaLogp);
               var r0 := LogProb(logDensity, out0.state.z, out0.state.deltaLogp);
               && r.0 == r0.0
               && forall b, t :: 0 <= b < |y| && 0 <= t < |y[b]| ==> r.1[b][t] == r0.1[b][t] - delta[b][t]
  {
    var ts := [0.0, 1.0];
    var s0 := integrate(condition, FlowState(y, Zeros(|y|, SeqLength(y))), ts)[1];
    var s := integrate(condition, FlowState(y, delta), ts)[1];
    assert SameShape(s0.z, s0.deltaLogp) && s.z == s0.z && AddsTo(s.deltaLogp, s0.deltaLogp, delta);
    var r := LogProb(logDensity, s.z, s.deltaLogp);
    var r0 := LogProb(logDensity, s0.z, s0.deltaLogp);
    assert r.0 == r0.0;
  }
}
