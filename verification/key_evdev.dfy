/** The event reader of lib/key-evdev.js: decoded input events from the
    evdev binding, of which only key events (type 1) change the state. */
module KeyEvdev {
  import opened KeyDriver

  const EvKey: int := 1

  /** An input event as the binding delivers it. */
  datatype InputEvent = InputEvent(kind: int, code: int, value: int, sec: int, usec: int)

  /** `par.keymap[data.code]`: the code indexes the keymap directly; outside
      it the lookup is `undefined`, which becomes the property name "undefined". */
  function KeyName(keymap: seq<string>, code: int): (name: string)
    ensures 0 <= code < |keymap| ==> name == keymap[code]
    ensures !(0 <= code < |keymap|) ==> name == "undefined"
  {
    if 0 <= code < |keymap| then keymap[code] else "undefined"
  }

  /** `tv_sec * 1000000 + tv_usec`: microseconds since the epoch. */
  function MicrosOf(e: InputEvent): (us: int)
    ensures 0 <= e.usec < 1000000 ==> us / 1000000 == e.sec && us % 1000000 == e.usec
  {
    e.sec * 1000000 + e.usec
  }

  /** `reader`: a key event whose level differs from the stored one is
      stored and announced with its microsecond stamp; anything else is ignored. */
  function Read(keymap: seq<string>, state: KeyState, e: InputEvent): (r: (KeyState, seq<Emission>))
    ensures e.kind != EvKey ==> r == (state, [])
    ensures e.kind == EvKey ==> r.0 == state[KeyName(keymap, e.code) := e.value]
    ensures r.1 != [] <==> e.kind == EvKey && (KeyName(keymap, e.code) !in state || state[KeyName(keymap, e.code)] != e.value)
    ensures r.1 != [] ==> r.1 == [StateChanged(map[KeyName(keymap, e.code) := e.value], Micros(MicrosOf(e)))]
  {
    if e.kind != EvKey then (state, [])
    else Apply(state, KeyName(keymap, e.code), e.value, Micros(MicrosOf(e)))
  }

  /** The reader over a stream of events, in arrival order. */
  function ReadAll(keymap: seq<string>, state: KeyState, es: seq<InputEvent>): (r: (KeyState, seq<Emission>))
    ensures |r.1| <= |es|
    decreases |es|
  {
    if |es| == 0 then (state, [])
    else
      var (s1, em1) := Read(keymap, state, es[0]);
      var (s2, em2) := ReadAll(keymap, s1, es[1..]);
      (s2, em1 + em2)
  }

  /** Reading the same event twice announces it at most once. */
  lemma RepeatedEventIsQuiet(keymap: seq<string>, state: KeyState, e: InputEvent)
    ensures Read(keymap, Read(keymap, state, e).0, e).1 == []
    ensures Read(keymap, Read(keymap, state, e).0, e).0 == Read(keymap, state, e).0
  {
  }

  /** With a keymap that covers every code read, the reader never adds a
      key: the state keeps the keymap's keys. */
  lemma {:induction false} KnownCodesKeepKeys(keymap: seq<string>, state: KeyState, es: seq<InputEvent>)
    requires forall k :: k in keymap ==> k in state
    requires forall i :: 0 <= i < |es| && es[i].kind == EvKey ==> 0 <= es[i].code < |keymap|
    ensures ReadAll(keymap, state, es).0.Keys == state.Keys
    decreases |es|
  {
    if |es| > 0 {
      var s1 := Read(keymap, state, es[0]).0;
      assert s1.Keys == state.Keys;
      KnownCodesKeepKeys(keymap, s1, es[1..]);
    }
  }

  /** The event is a key event naming key `name`. */
  predicate Names(keymap: seq<string>, e: InputEvent, name: string)
  {
    e.kind == EvKey && KeyName(keymap, e.code) == name
  }

  /** Reading a stream in two parts is reading it whole. */
  lemma {:induction false} ReadAllAppend(keymap: seq<string>, state: KeyState, a: seq<InputEvent>, b: seq<InputEvent>)
    ensures ReadAll(keymap, state, a + b).0 == ReadAll(keymap, ReadAll(keymap, state, a).0, b).0
    ensures ReadAll(keymap, state, a + b).1 ==
      ReadAll(keymap, state, a).1 + ReadAll(keymap, ReadAll(keymap, state, a).0, b).1
    decreases |a|
  {
    if |a| == 0 {
      assert a + b == b;
    } else {
      var s1 := Read(keymap, state, a[0]).0;
      assert (a + b)[0] == a[0];
      assert (a + b)[1..] == a[1..] + b;
      ReadAllAppend(keymap, s1, a[1..], b);
    }
  }

  /** A key no event of the stream names keeps its level, and stays absent
      if it was absent. */
  lemma {:induction false} NoEventKeepsLevel(keymap: seq<string>, state: KeyState, es: seq<InputEvent>, name: string)
    requires forall i :: 0 <= i < |es| ==> !Names(keymap, es[i], name)
    ensures name in ReadAll(keymap, state, es).0 <==> name in state
    ensures name in state ==> ReadAll(keymap, state, es).0[name] == state[name]
    decreases |es|
  {
    if |es| > 0 {
      var s1 := Read(keymap, state, es[0]).0;
      assert !Names(keymap, es[0], name);
      assert forall i :: 0 <= i < |es| - 1 ==> es[1..][i] == es[i + 1];
      NoEventKeepsLevel(keymap, s1, es[1..], name);
    }
  }

  /** The final level of a key is the value of the last key event that names
      it, whatever came before it and whatever follows it. */
  lemma LastEventWins(keymap: seq<string>, state: KeyState,
                      pre: seq<InputEvent>, e: InputEvent, post: seq<InputEvent>, name: string)
    requires Names(keymap, e, name)
    requires forall i :: 0 <= i < |post| ==> !Names(keymap, post[i], name)
    ensures name in ReadAll(keymap, state, pre + [e] + post).0
    ensures ReadAll(keymap, state, pre + [e] + post).0[name] == e.value
  {
    var s0 := ReadAll(keymap, state, pre).0;
    assert pre + [e] + post == pre + ([e] + post);
    ReadAllAppend(keymap, state, pre, [e] + post);
    assert ([e] + post)[0] == e && ([e] + post)[1..] == post;
    NoEventKeepsLevel(keymap, Read(keymap, s0, e).0, post, name);
  }
}
