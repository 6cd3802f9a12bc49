/**
 * The Redux user reducer: a pure transition on plain state objects.
 *
 * A state object is modelled by its own properties, a map from property name to value.
 * An absent (`undefined`) state argument is `None`: only then does the default
 * parameter `initialState` apply.
 */
module UserReducer {
  import opened Wrappers

  /** The JavaScript values a payload or a state property can hold. */
  datatype Value =
    | Undefined
    | Null
    | Bool(b: bool)
    | Num(n: int)
    | Str(s: string)
    | Arr(items: seq<Value>)
    | Obj(fields: map<string, Value>)

  /** A plain object's own properties. */
  type State = map<string, Value>

  /** A dispatched action; a missing payload is `Undefined`. */
  datatype Action = Action(actionType: string, payload: Value)

  const GET_USER_INFO: string := "GET_USER_INFO"

  /** The type redux-promise-middleware dispatches when the request resolves. */
  const GET_USER_INFO_FULFILLED: string := GET_USER_INFO + "_FULFILLED"

  const initialState: State := map["user" := Obj(map[])]

  /** `Object.assign(target, first, second)`: later sources override earlier ones. */
  function ObjectAssign(target: State, first: State, second: State): (r: State)
    ensures r.Keys == target.Keys + first.Keys + second.Keys
    ensures forall k :: k in second ==> r[k] == second[k]
    ensures forall k :: k in first && k !in second ==> r[k] == first[k]
    ensures forall k :: k in target && k !in first && k !in second ==> r[k] == target[k]
  {
    target + first + second
  }

  /** `reducer(state = initialState, action)`. */
  function Reducer(state: Option<State>, action: Action): (r: State)
    ensures var s := state.GetOr(initialState);
      action.actionType == GET_USER_INFO_FULFILLED ==>
        && r.Keys == s.Keys + {"user"}
        && r["user"] == action.payload
        && forall k :: k in s && k != "user" ==> r[k] == s[k]
    ensures action.actionType != GET_USER_INFO_FULFILLED ==> r == state.GetOr(initialState)
  {
    var s := if state.Some? then state.value else initialState;
    if action.actionType == GET_USER_INFO_FULFILLED then
      ObjectAssign(map[], s, map["user" := action.payload])
    else
      s
  }

  /** An undefined state is treated exactly as `{ user: {} }`. */
  lemma DefaultStateIsInitial(action: Action)
    ensures Reducer(None, action) == Reducer(Some(initialState), action)
    ensures action.actionType != GET_USER_INFO_FULFILLED ==> Reducer(None, action)["user"] == Obj(map[])
  {
  }

  /** A fulfilled action sets `user` to its payload and touches nothing else. */
  lemma {:induction false} FulfilledReplacesUser(s: State, p: Value)
    ensures Reducer(Some(s), Action(GET_USER_INFO_FULFILLED, p)) == s["user" := p]
  {
    var r := Reducer(Some(s), Action(GET_USER_INFO_FULFILLED, p));
    assert r.Keys == s["user" := p].Keys;
    forall k | k in r ensures r[k] == s["user" := p][k] {
    }
  }

  /** The pending, bare and rejected types are among the actions that leave the state as it is. */
  lemma OtherTypesIgnored(s: State, p: Value)
    ensures Reducer(Some(s), Action(GET_USER_INFO, p)) == s
    ensures Reducer(Some(s), Action(GET_USER_INFO + "_PENDING", p)) == s
    ensures Reducer(Some(s), Action(GET_USER_INFO + "_REJECTED", p)) == s
  {
  }

  /** Applying the same action twice gives the state it gives once. */
  lemma {:induction false} ReducerIdempotent(state: Option<State>, action: Action)
    ensures Reducer(Some(Reducer(state, action)), action) == Reducer(state, action)
  {
    if action.actionType == GET_USER_INFO_FULFILLED {
      var once := Reducer(state, action);
      FulfilledReplacesUser(state.GetOr(initialState), action.payload);
      FulfilledReplacesUser(once, action.payload);
      assert once["user" := action.payload] == once;
    }
  }

  /**
   * The store created with the preloaded state `{}` never goes through the default: until
   * a fulfilled action arrives, its state has no `user` at all.
   */
  lemma PreloadedStoreHasNoUser(action: Action)
    requires action.actionType != GET_USER_INFO_FULFILLED
    ensures "user" !in Reducer(Some(map[]), action)
  {
  }

  /** The store's state after dispatching `actions` in order, starting from `s`. */
  function Dispatch(s: State, actions: seq<Action>): State
    decreases |actions|
  {
    if |actions| == 0 then s else Dispatch(Reducer(Some(s), actions[0]), actions[1..])
  }

  /** The payload of the last fulfilled action of `actions`, if there is one. */
  function LastFulfilled(actions: seq<Action>): Option<Value>
    decreases |actions|
  {
    if |actions| == 0 then None
    else
      match LastFulfilled(actions[1..])
      case Some(p) => Some(p)
      case None =>
        if actions[0].actionType == GET_USER_INFO_FULFILLED then Some(actions[0].payload) else None
  }

  /**
   * Over any sequence of dispatched actions, `user` ends up as the payload of the last
   * fulfilled one, every other property keeps its starting value, and without a fulfilled
   * action the state is the starting state.
   */
  lemma {:induction false} LastFulfilledWins(s: State, actions: seq<Action>)
    ensures Dispatch(s, actions) == match LastFulfilled(actions)
      case Some(p) => s["user" := p]
      case None => s
    decreases |actions|
  {
    if |actions| > 0 {
      var a := actions[0];
      var next := Reducer(Some(s), a);
      LastFulfilledWins(next, actions[1..]);
      if a.actionType == GET_USER_INFO_FULFILLED {
        FulfilledReplacesUser(s, a.payload);
        match LastFulfilled(actions[1..]) {
          case Some(p) =>
            assert next["user" := p] == s["user" := p];
          case None =>
        }
      }
    }
  }
}
