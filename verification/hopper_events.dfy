/** Normalisation of raw log records into hopper events
    (`extract_hopper_events` in scripts/decide-check-hopper.py). */
module HopperEvents {
  import opened Wrappers
  import opened Records
  import Strings

  /** A normalised record: a feeder command or a hopper switch observation,
      tagged with the controller and component its address names. */
  datatype HopperEvent =
    | Command(controller: Option<string>, component: string, feeding: bool, time: int)
    | Observation(controller: Option<string>, component: string, up: bool, time: int)

  /** `controller, component = addr.split(".")`, falling back to
      `(None, addr)` when the unpacking fails. */
  function SplitAddr(addr: string): (r: (Option<string>, string))
    ensures r.0.Some? <==> Strings.Occurrences(addr, '.') == 1
    ensures r.0.Some? ==> r.0.value + "." + r.1 == addr
    ensures r.0.Some? ==> '.' !in r.0.value && '.' !in r.1
    ensures r.0.None? ==> r.1 == addr
  {
    var parts := Strings.Split(addr, '.');
    if |parts| == 2 then
      Strings.JoinSplit(addr, '.');
      (Some(parts[0]), parts[1])
    else (None, addr)
  }

  /** Whether a record yields an event: it carries `feeding`, or its
      component is the hopper switch. */
  predicate Relevant(r: Record)
  {
    r.addr.Some? && (r.feeding.Some? || SplitAddr(r.addr.value).1 == "hopper")
  }

  /** The address of a hopper switch: "hopper" itself, or one controller
      name and ".hopper". */
  predicate IsHopperAddress(a: string)
  {
    a == "hopper" || (Strings.Occurrences(a, '.') == 1 && |a| >= 7 && a[|a| - 7..] == ".hopper")
  }

  /** A record is relevant when it carries `feeding` or comes from a hopper
      switch address. */
  lemma RelevantMeans(r: Record)
    ensures Relevant(r) <==> r.addr.Some? && (r.feeding.Some? || IsHopperAddress(r.addr.value))
  {
    if r.addr.Some? {
      HopperComponent(r.addr.value);
    }
  }

  lemma HopperComponent(a: string)
    ensures SplitAddr(a).1 == "hopper" <==> IsHopperAddress(a)
  {
    var (c, comp) := SplitAddr(a);
    if c.None? {
      if a == "hopper" {
        Strings.OccurrencesPositive(a, '.');
      }
    } else {
      var cv := c.value;
      assert a == cv + "." + comp;
      if comp == "hopper" {
        assert a[|a| - 7..] == ".hopper";
      }
      if |a| >= 7 && a[|a| - 7..] == ".hopper" {
        assert a[|a| - 7] == '.';
        assert a[|cv|] == '.';
        assert comp == a[|cv| + 1..];
      }
    }
  }

  /** The event one record yields (`None` when it is skipped), or the
      `KeyError` the generator raises on it. */
  function Normalize(r: Record): (res: Result<Option<HopperEvent>, Fault>)
    ensures r.addr.None? ==> res == Failure(KeyError("addr"))
    ensures res.Failure? <==>
      r.addr.None? || (Relevant(r) && (r.time.None? || (r.feeding.None? && r.up.None?)))
    ensures res.Success? ==> (res.value.Some? <==> Relevant(r))
    ensures res.Success? && res.value.Some? ==>
      var e := res.value.value;
      && (e.controller, e.component) == SplitAddr(r.addr.value)
      && r.time == Some(e.time)
      && (e.Command? <==> r.feeding.Some?)
      && (e.Command? ==> r.feeding == Some(e.feeding))
      && (e.Observation? ==> r.up == Some(e.up) && e.component == "hopper")
    // which key the generator reads first: `time` for a command; `up`, then
    // `time`, for a switch reading
    ensures Relevant(r) && r.feeding.Some? && r.time.None? ==> res == Failure(KeyError("time"))
    ensures Relevant(r) && r.feeding.None? && r.up.None? ==> res == Failure(KeyError("up"))
    ensures Relevant(r) && r.feeding.None? && r.up.Some? && r.time.None? ==>
      res == Failure(KeyError("time"))
  {
    match r.addr
    case None => Failure(KeyError("addr"))
    case Some(addr) =>
      var (controller, component) := SplitAddr(addr);
      if r.feeding.Some? then
        if r.time.None? then Failure(KeyError("time"))
        else Success(Some(Command(controller, component, r.feeding.value, r.time.value)))
      else if component == "hopper" then
        if r.up.None? then Failure(KeyError("up"))
        else if r.time.None? then Failure(KeyError("time"))
        else Success(Some(Observation(controller, component, r.up.value, r.time.value)))
      else Success(None)
  }

  /** The whole generator, drained: the events in log order, or the fault of
      the first record that raises. */
  function Extract(rs: seq<Record>): (res: Result<seq<HopperEvent>, Fault>)
    ensures res.Success? <==> forall i :: 0 <= i < |rs| ==> Normalize(rs[i]).Success?
    ensures res.Success? ==> |res.value| <= |rs|
  {
    if |rs| == 0 then Success([])
    else
      var prev :- Extract(rs[..|rs| - 1]);
      var ev :- Normalize(rs[|rs| - 1]);
      Success(prev + (if ev.Some? then [ev.value] else []))
  }

  /** The positions of the relevant records, in increasing order. */
  function Kept(rs: seq<Record>): (ks: seq<nat>)
    ensures forall j :: 0 <= j < |ks| ==> ks[j] < |rs|
    ensures forall j, k :: 0 <= j < k < |ks| ==> ks[j] < ks[k]
    ensures forall i :: 0 <= i < |rs| ==> (Relevant(rs[i]) <==> i in ks)
  {
    if |rs| == 0 then []
    else
      var prev := Kept(rs[..|rs| - 1]);
      assert forall i :: 0 <= i < |rs| - 1 ==> rs[..|rs| - 1][i] == rs[i];
      prev + (if Relevant(rs[|rs| - 1]) then [|rs| - 1] else [])
  }

  /** The extracted events are exactly the relevant records, normalised, in
      their original order: an order-preserving selection of the log. */
  lemma {:induction false} ExtractIsOrderedSelection(rs: seq<Record>, es: seq<HopperEvent>)
    requires Extract(rs) == Success(es)
    ensures |es| == |Kept(rs)|
    ensures forall j :: 0 <= j < |es| ==> Normalize(rs[Kept(rs)[j]]) == Success(Some(es[j]))
  {
    if |rs| > 0 {
      var init := rs[..|rs| - 1];
      var prev := Extract(init).value;
      ExtractIsOrderedSelection(init, prev);
      var last := rs[|rs| - 1];
      assert Normalize(last).Success?;
      assert forall i :: 0 <= i < |init| ==> init[i] == rs[i];
      var ks := Kept(rs);
      assert ks == Kept(init) + (if Relevant(last) then [|rs| - 1] else []);
      assert es == prev + (if Normalize(last).value.Some? then [Normalize(last).value.value] else []);
    }
  }
}
