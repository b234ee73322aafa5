/** The state and request logic shared by the two key-input drivers,
    lib/keys.js and lib/key-evdev.js: a map from key names to levels, the
    `change-state` diff, and the replies to the other request types. */
module KeyDriver {
  import opened Wrappers
  import Util

  /** Key name to level (0 or 1 from the hardware; any integer by request). */
  type KeyState = map<string, int>

  const DefaultDevice: string := "/dev/input/event1"
  const DefaultKeymap: seq<string> := ["hopper_up", "peck_left", "peck_center", "peck_right"]

  /** A parameter value: the device path or the list of key names. */
  datatype ParamValue = Text(text: string) | Names(names: seq<string>)

  const Defaults: map<string, ParamValue> :=
    map["device" := Text(DefaultDevice), "keymap" := Names(DefaultKeymap)]

  /** `util.update(par, params)`: the caller may override either default,
      and nothing else. */
  function Configure(params: map<string, ParamValue>): (par: map<string, ParamValue>)
    ensures par.Keys == {"device", "keymap"}
    ensures "keymap" in params ==> par["keymap"] == params["keymap"]
    ensures "keymap" !in params ==> par["keymap"] == Names(DefaultKeymap)
    ensures "device" !in params ==> par["device"] == Text(DefaultDevice)
    ensures "device" in params ==> par["device"] == params["device"]
  {
    Util.Update(Defaults, params)
  }

  /** Every key of the keymap, at level 0. */
  function InitialState(keymap: seq<string>): (s: KeyState)
    ensures forall k :: k in s <==> k in keymap
    ensures forall k :: k in s ==> s[k] == 0
  {
    map k | k in keymap :: 0
  }

  /** The driver's self-description: every key may take the levels 0 and 1. */
  datatype Meta = Meta(kind: string, dir: string, variables: map<string, seq<int>>)

  function MetaOf(keymap: seq<string>): (m: Meta)
    ensures m.variables.Keys == InitialState(keymap).Keys
  {
    Meta("key", "input", map k | k in keymap :: [0, 1])
  }

  /** The time stamp a `state-changed` event carries, if any. */
  datatype Stamp = Unstamped | Millis(ms: real) | Micros(us: int)

  /** One `pub.emit("state-changed", addr, changes[, stamp])`. */
  datatype Emission = StateChanged(changes: KeyState, stamp: Stamp)

  /** What a run of `state-changed` events announced, without the stamps. */
  function ChangesOf(ems: seq<Emission>): (cs: seq<KeyState>)
    ensures |cs| == |ems|
    ensures forall i :: 0 <= i < |ems| ==> cs[i] == ems[i].changes
  {
    if |ems| == 0 then [] else [ems[0].changes] + ChangesOf(ems[1..])
  }

  datatype Driver = Driver(params: map<string, ParamValue>, meta: Meta, state: KeyState)

  /** Construction: the configured driver and the full state it announces,
      or `None` where `par.keymap.forEach` throws because the keymap
      parameter is not a list. */
  function Start(params: map<string, ParamValue>): (r: Option<(Driver, Emission)>)
    ensures r.Some? <==> Configure(params)["keymap"].Names?
    ensures r.Some? ==> r.value.0.params == Configure(params)
    ensures r.Some? ==> forall k :: k in r.value.0.state <==> k in Configure(params)["keymap"].names
    ensures r.Some? ==> forall k :: k in r.value.0.state ==> r.value.0.state[k] == 0
    ensures r.Some? ==> r.value.1 == StateChanged(r.value.0.state, Unstamped)
  {
    var par := Configure(params);
    match par["keymap"]
    case Text(_) => None
    case Names(keymap) =>
      var state := InitialState(keymap);
      Some((Driver(par, MetaOf(keymap), state), StateChanged(state, Unstamped)))
  }

  /** The entries of a `change-state` request that name a known key and
      carry a different level. */
  function Changes(state: KeyState, data: KeyState): (upd: KeyState)
    ensures forall k :: k in upd <==> k in state && k in data && state[k] != data[k]
    ensures forall k :: k in upd ==> upd[k] == data[k]
  {
    map k | k in data && k in state && state[k] != data[k] :: data[k]
  }

  /** `change-state`: the known keys take the requested levels, and one
      `state-changed` event carries exactly the keys whose level moved. */
  function ChangeState(state: KeyState, data: KeyState): (r: (KeyState, seq<Emission>))
    ensures r.0.Keys == state.Keys
    ensures r.0 == Util.Update(state, data)
    ensures r.1 != [] <==> exists k :: k in data && k in state && state[k] != data[k]
    ensures r.1 != [] ==> r.1 == [StateChanged(Changes(state, data), Unstamped)]
  {
    var upd := Changes(state, data);
    if upd == map[] then
      (state + upd, [])
    else
      assert exists k :: k in upd;
      (state + upd, [StateChanged(upd, Unstamped)])
  }

  /** The request's for-in loop over the keys of `data`, in any order. */
  method ChangeStateInPlace(state: KeyState, data: KeyState) returns (state': KeyState, upd: KeyState)
    ensures upd == Changes(state, data)
    ensures state' == ChangeState(state, data).0
  {
    state', upd := state, map[];
    var todo := data.Keys;
    while todo != {}
      invariant todo <= data.Keys
      invariant state'.Keys == state.Keys
      invariant forall k :: k in upd <==> k in state && k in data && k !in todo && state[k] != data[k]
      invariant forall k :: k in upd ==> upd[k] == data[k]
      invariant forall k :: k in state ==> state'[k] == (if k in upd then upd[k] else state[k])
      decreases todo
    {
      var key :| key in todo;
      if key in state' && state'[key] != data[key] {
        state' := state'[key := data[key]];
        upd := upd[key := data[key]];
      }
      todo := todo - {key};
    }
  }

  /** Sending the same `change-state` twice: the second one moves nothing
      and announces nothing. */
  lemma ChangeStateRepeatIsQuiet(state: KeyState, data: KeyState)
    ensures ChangeState(ChangeState(state, data).0, data).0 == ChangeState(state, data).0
    ensures ChangeState(ChangeState(state, data).0, data).1 == []
  {
    Util.UpdateIdempotent(state, data);
  }

  /** A level read from the device: stored and announced only if it differs
      from the stored one. A name the state lacks compares unequal (an
      absent property is `undefined`), so it is added. */
  function Apply(state: KeyState, name: string, value: int, stamp: Stamp): (r: (KeyState, seq<Emission>))
    ensures r.0 == state[name := value]
    ensures r.1 != [] <==> name !in state || state[name] != value
    ensures r.1 != [] ==> r.1 == [StateChanged(map[name := value], stamp)]
  {
    if name in state && state[name] == value then (state, [])
    else (state[name := value], [StateChanged(map[name := value], stamp)])
  }

  /** For a key the state knows, a device reading and a one-entry
      `change-state` request have the same effect. */
  lemma ApplyAgreesWithChangeState(state: KeyState, name: string, value: int, stamp: Stamp)
    requires name in state
    ensures Apply(state, name, value, stamp).0 == ChangeState(state, map[name := value]).0
    ensures |Apply(state, name, value, stamp).1| == |ChangeState(state, map[name := value]).1|
  {
    if state[name] != value {
      assert Changes(state, map[name := value]) == map[name := value];
    }
  }

  /** What a request may answer. */
  datatype Reply =
    | Ack
    | StateReply(state: KeyState)
    | MetaReply(meta: Meta)
    | ParamsReply(params: map<string, ParamValue>)
    | ErrorReply(message: string)

  datatype Handled = Handled(driver: Driver, emitted: seq<Emission>, reply: Reply)

  const KnownRequests: set<string> := {"change-state", "reset-state", "get-state", "get-meta", "get-params"}

  /** `req`: every request is answered; only `change-state` changes the
      state or emits, and an unknown request type is answered with an error. */
  function Handle(d: Driver, msg: string, data: KeyState): (h: Handled)
    ensures msg != "change-state" ==> h.driver == d && h.emitted == []
    ensures msg == "change-state" ==>
      h.reply == Ack && h.driver == d.(state := Util.Update(d.state, data)) &&
      (h.emitted != [] <==> Changes(d.state, data) != map[])
    ensures msg == "reset-state" ==> h.reply == Ack
    ensures msg == "get-state" ==> h.reply == StateReply(d.state)
    ensures msg == "get-meta" ==> h.reply == MetaReply(d.meta)
    ensures msg == "get-params" ==> h.reply == ParamsReply(d.params)
    ensures h.reply.ErrorReply? <==> msg !in KnownRequests
  {
    if msg == "change-state" then
      var (state', emitted) := ChangeState(d.state, data);
      Handled(d.(state := state'), emitted, Ack)
    else if msg == "reset-state" then Handled(d, [], Ack)
    else if msg == "get-state" then Handled(d, [], StateReply(d.state))
    else if msg == "get-meta" then Handled(d, [], MetaReply(d.meta))
    else if msg == "get-params" then Handled(d, [], ParamsReply(d.params))
    else Handled(d, [], ErrorReply("invalid or unsupported REQ type"))
  }

  /** Requests never change which keys the state has. */
  lemma HandleKeepsKeys(d: Driver, msg: string, data: KeyState)
    ensures Handle(d, msg, data).driver.state.Keys == d.state.Keys
  {
  }
}
