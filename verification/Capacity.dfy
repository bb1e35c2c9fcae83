/**
 Consuming and restoring directional capacity (packages/shared/src/financial.ts:840-878).
 */
module Capacity {
  import opened Uint256
  import opened Wrappers

  datatype CapacityState = CapacityState(baseline: int, consumed: int)
  datatype Flow = Consume(value: int) | Reverse(value: int)

  function ConsumeDirectionalCapacity(state: CapacityState, value: int): Checked<CapacityState> {
    var baseline :- ToUint256(state.baseline);
    var consumed :- ToUint256(state.consumed);
    var amount :- ToUint256(value);
    if consumed > baseline || amount > baseline - consumed then Err(CapacityExceeded)
    else Ok(CapacityState(baseline, consumed + amount))
  }

  function ReverseDirectionalCapacity(state: CapacityState, value: int): Checked<CapacityState> {
    var baseline :- ToUint256(state.baseline);
    var consumed :- ToUint256(state.consumed);
    var amount :- ToUint256(value);
    if amount > consumed then Err(CapacityExceeded)
    else Ok(CapacityState(baseline, consumed - amount))
  }

  function Apply(state: CapacityState, flow: Flow): Checked<CapacityState> {
    match flow
    case Consume(v) => ConsumeDirectionalCapacity(state, v)
    case Reverse(v) => ReverseDirectionalCapacity(state, v)
  }

  /** A run stops at the first flow that throws. */
  function Run(state: CapacityState, flows: seq<Flow>): Checked<CapacityState> {
    if flows == [] then Ok(state)
    else
      var before :- Run(state, flows[..|flows| - 1]);
      Apply(before, flows[|flows| - 1])
  }

  function Amount(flow: Flow): int {
    match flow
    case Consume(v) => v
    case Reverse(v) => -v
  }

  function Net(flows: seq<Flow>): int {
    if flows == [] then 0 else Net(flows[..|flows| - 1]) + Amount(flows[|flows| - 1])
  }

  ghost predicate ValidState(state: CapacityState) {
    0 <= state.consumed <= UINT256_MAX && 0 <= state.baseline <= UINT256_MAX
  }

  /** A total a flow may leave behind: never below nothing, and after a consumption within the baseline. */
  predicate Permits(state: CapacityState, flow: Flow, total: int) {
    0 <= flow.value && 0 <= total && (flow.Consume? ==> total <= state.baseline)
  }

  /** The same of every flow of a run, at the total of the flows up to it. */
  predicate PermitsAll(state: CapacityState, flows: seq<Flow>) {
    flows == []
    || (PermitsAll(state, flows[..|flows| - 1]) && Permits(state, flows[|flows| - 1], state.consumed + Net(flows)))
  }

  lemma ApplyIff(state: CapacityState, flow: Flow)
    requires ValidState(state)
    ensures Apply(state, flow).Ok? <==> Permits(state, flow, state.consumed + Amount(flow))
    ensures Apply(state, flow).Ok? ==> Apply(state, flow).value == state.(consumed := state.consumed + Amount(flow))
  {
  }

  /**
   From any state, even one past its baseline, a run succeeds exactly when every flow leaves a
   permitted total; it then accounts for every flow, and a state within its baseline stays within it.
   */
  lemma {:induction false} RunIff(state: CapacityState, flows: seq<Flow>)
    requires ValidState(state)
    ensures Run(state, flows).Ok? <==> PermitsAll(state, flows)
    ensures Run(state, flows).Ok? ==>
              var after := Run(state, flows).value;
              && after == state.(consumed := state.consumed + Net(flows)) && ValidState(after)
              && (state.consumed <= state.baseline ==> after.consumed <= after.baseline)
    decreases |flows|
  {
    if flows != [] {
      var front, last := flows[..|flows| - 1], flows[|flows| - 1];
      RunIff(state, front);
      if Run(state, front).Ok? {
        ApplyIff(Run(state, front).value, last);
      }
    }
  }

  /** Restoring what was just consumed gives back the same state, and splitting a consumption changes nothing. */
  lemma ReverseUndoesConsume(state: CapacityState, a: nat, b: nat)
    requires ValidState(state) && ConsumeDirectionalCapacity(state, a + b).Ok?
    ensures Run(state, [Consume(a + b), Reverse(a + b)]) == Ok(state)
    ensures Run(state, [Consume(a), Consume(b)]) == ConsumeDirectionalCapacity(state, a + b)
  {
    ApplyIff(state, Consume(a + b));
    ApplyIff(state, Consume(a));
    ApplyIff(Apply(state, Consume(a + b)).value, Reverse(a + b));
    ApplyIff(Apply(state, Consume(a)).value, Consume(b));
    hide Run, Apply;
    TwoFlows(state, Consume(a + b), Reverse(a + b));
    TwoFlows(state, Consume(a), Consume(b));
  }

  lemma TwoFlows(state: CapacityState, first: Flow, second: Flow)
    ensures Run(state, [first, second]) == if Apply(state, first).Err? then Apply(state, first)
      else Apply(Apply(state, first).value, second)
  {
    hide Apply;
    assert [first, second][..1] == [first];
    assert [first][..0] == [];
    assert Run(state, []) == Ok(state);
    assert Run(state, [first]) == Apply(state, first);
  }
}
