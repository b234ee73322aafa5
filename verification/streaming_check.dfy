/** The streaming (level-based) hopper check of scripts/check_hopper.py: the
    feeder and hopper records of a log are folded through a small tracker
    that remembers the last commanded feeder state and the last hopper
    switch level, and counts feedings, failures and switch bounces. */
module StreamingCheck {
  import opened Wrappers
  import opened Records
  import Strings

  /** `feeder_rec_p`: the record has an address that starts with "feeder"
      or is exactly "hopper". */
  predicate IsFeederRecord(r: Record): (b: bool)
    ensures b <==>
      && r.addr.Some?
      && ((|r.addr.value| >= 6 && r.addr.value[..6] == "feeder") || r.addr.value == "hopper")
  {
    r.addr.Some? && ("feeder" <= r.addr.value || r.addr.value == "hopper")
  }

  /** The loop's variables. */
  datatype Tracker = Tracker(
    feeding: bool,             // the last feeder command
    hopperUp: bool,            // the last hopper switch level
    lastHopper: Option<string>,
    lastUpTime: Option<int>,   // time of the last rise
    feedings: nat,
    failures: nat,
    bounces: nat)

  const Start := Tracker(false, false, None, None, 0, 0, 0)

  /** The lines the loop prints, with the hopper as it was when printed. */
  datatype Diagnostic =
    | LoweringError(time: int, hopper: Option<string>)     // feeder on, hopper still up
    | RaisingError(time: int, hopper: Option<string>)      // feeder off, hopper never rose
    | SwitchBounce(time: int, hopper: Option<string>, elapsedMs: int)

  datatype Stepped = Stepped(tracker: Tracker, notes: seq<Diagnostic>)

  /** The tracker's counters are never smaller afterwards. */
  predicate CountersGrow(s: Tracker, s': Tracker)
  {
    s.feedings <= s'.feedings && s.failures <= s'.failures && s.bounces <= s'.bounces
  }

  /** One iteration of the loop, on a record `feeder_rec_p` let through. */
  function Step(s: Tracker, r: Record): (res: Result<Stepped, Fault>)
    requires IsFeederRecord(r)
    ensures r.time.None? ==> res == Failure(KeyError("time"))
    ensures res.Success? ==> CountersGrow(s, res.value.tracker)
    // a command: the feeder state follows it; one failure when the hopper
    // is not where the previous cycle should have left it
    ensures res.Success? && r.feeding.Some? ==>
      var s' := res.value.tracker;
      && s'.feeding == r.feeding.value
      && s'.hopperUp == s.hopperUp && s'.lastUpTime == s.lastUpTime && s'.bounces == s.bounces
      && (s'.failures == s.failures + 1 <==> r.feeding.value == s.hopperUp)
      && (s'.failures == s.failures <==> r.feeding.value != s.hopperUp)
      && (s'.feedings == s.feedings + 1 <==> r.feeding.value)
      && (s'.feedings == s.feedings <==> !r.feeding.value)
      && (s'.lastHopper != s.lastHopper ==> r.feeding.value)
    ensures r.feeding == Some(true) ==>
      (res.Success? <==> r.time.Some? && '_' in r.addr.value)
    // a switch reading: the level follows it; a bounce when it falls while
    // the feeder is on
    ensures res.Success? && r.feeding.None? && r.addr.value == "hopper" ==>
      var s' := res.value.tracker;
      && r.up.Some? && s'.hopperUp == r.up.value
      && s'.feeding == s.feeding && s'.lastHopper == s.lastHopper
      && s'.feedings == s.feedings && s'.failures == s.failures
      && (s'.bounces == s.bounces + 1 <==> !r.up.value && s.feeding)
      && (s'.bounces == s.bounces <==> r.up.value || !s.feeding)
      && s'.lastUpTime == (if r.up.value then r.time else s.lastUpTime)
    // the elapsed time of a bounce needs an earlier rise
    ensures res == Failure(TypeError) <==>
      r.time.Some? && r.feeding.None? && r.addr.value == "hopper" &&
      r.up == Some(false) && s.feeding && s.lastUpTime.None?
    // any other feeder record changes nothing
    ensures r.time.Some? && r.feeding.None? && r.addr.value != "hopper" ==>
      res == Success(Stepped(s, []))
    ensures res.Success? ==>
      |res.value.notes| == (res.value.tracker.failures - s.failures) + (res.value.tracker.bounces - s.bounces)
    // the exceptions, each with the case that raises it
    ensures res.Failure? <==>
      || r.time.None?
      || (r.feeding == Some(true) && '_' !in r.addr.value)
      || (r.feeding.None? && r.addr.value == "hopper" &&
          (r.up.None? || (r.up == Some(false) && s.feeding && s.lastUpTime.None?)))
    ensures r.time.Some? && r.feeding == Some(true) && '_' !in r.addr.value ==>
      res == Failure(IndexError)
    ensures r.time.Some? && r.feeding.None? && r.addr.value == "hopper" && r.up.None? ==>
      res == Failure(KeyError("up"))
    // what the iteration prints
    ensures res.Success? && r.time.Some? && r.feeding == Some(true) && s.hopperUp ==>
      res.value.notes == [LoweringError(r.time.value, s.lastHopper)]
    ensures res.Success? && r.time.Some? && r.feeding == Some(false) && !s.hopperUp ==>
      res.value.notes == [RaisingError(r.time.value, s.lastHopper)]
    ensures res.Success? && r.feeding.Some? && r.feeding.value != s.hopperUp ==>
      res.value.notes == []
    ensures res.Success? && r.time.Some? && r.feeding.None? && r.addr.value == "hopper" &&
            r.up == Some(false) && s.feeding ==>
      && s.lastUpTime.Some?
      && res.value.notes == [SwitchBounce(r.time.value, s.lastHopper, r.time.value - s.lastUpTime.value)]
    ensures res.Success? && r.feeding.None? && (r.up != Some(false) || !s.feeding) ==>
      res.value.notes == []
    // an on command remembers the hopper between the first and second '_'
    ensures res.Success? && r.feeding == Some(true) ==>
      && '_' in r.addr.value
      && res.value.tracker.lastHopper.Some?
      && Strings.PieceAt(r.addr.value, Strings.FirstIndex(r.addr.value, '_') + 1,
                         res.value.tracker.lastHopper.value, '_')
  {
    match r.time
    case None => Failure(KeyError("time"))
    case Some(t) =>
      if r.feeding.Some? then
        var feeding := r.feeding.value;
        var notes :=
          if feeding && s.hopperUp then [LoweringError(t, s.lastHopper)]
          else if !feeding && !s.hopperUp then [RaisingError(t, s.lastHopper)]
          else [];
        var s1 := s.(feeding := feeding, failures := s.failures + |notes|);
        if feeding then
          var parts := Strings.Split(r.addr.value, '_');
          Strings.OccurrencesPositive(r.addr.value, '_');
          if |parts| < 2 then Failure(IndexError)
          else
            Strings.SplitSecondPiece(r.addr.value, '_', Strings.FirstIndex(r.addr.value, '_'));
            Success(Stepped(s1.(lastHopper := Some(parts[1]), feedings := s1.feedings + 1), notes))
        else Success(Stepped(s1, notes))
      else if r.addr.value == "hopper" then
        match r.up
        case None => Failure(KeyError("up"))
        case Some(up) =>
          if !up && s.feeding then
            match s.lastUpTime
            case None => Failure(TypeError)
            case Some(u) =>
              Success(Stepped(s.(hopperUp := up, bounces := s.bounces + 1),
                              [SwitchBounce(t, s.lastHopper, t - u)]))
          else
            Success(Stepped(s.(hopperUp := up, lastUpTime := if up then Some(t) else s.lastUpTime), []))
      else Success(Stepped(s, []))
  }

  /** The state after the loop has run over every record, with everything
      printed on the way, or the exception that stopped it. */
  datatype Pass = Pass(tracker: Tracker, notes: seq<Diagnostic>)

  function Run(rs: seq<Record>): (res: Result<Pass, Fault>)
    // a log without feeder records leaves the initial values untouched
    ensures (forall i :: 0 <= i < |rs| ==> !IsFeederRecord(rs[i])) ==>
      res == Success(Pass(Tracker(false, false, None, None, 0, 0, 0), []))
    // every failure and every bounce is printed, once
    ensures res.Success? ==>
      |res.value.notes| == res.value.tracker.failures + res.value.tracker.bounces
  {
    if |rs| == 0 then Success(Pass(Start, []))
    else
      assert forall i :: 0 <= i < |rs| - 1 ==> rs[..|rs| - 1][i] == rs[i];
      var prev :- Run(rs[..|rs| - 1]);
      var r := rs[|rs| - 1];
      if !IsFeederRecord(r) then Success(prev)
      else
        var st :- Step(prev.tracker, r);
        Success(Pass(st.tracker, prev.notes + st.notes))
  }

  /** Once the loop has raised, it stays raised whatever follows. */
  lemma {:induction false} FaultIsFinal(rs: seq<Record>, i: nat)
    requires i <= |rs| && Run(rs[..i]).Failure?
    ensures Run(rs) == Run(rs[..i])
    decreases |rs| - i
  {
    if i < |rs| {
      assert rs[..i + 1][..i] == rs[..i];
      FaultIsFinal(rs, i + 1);
    } else {
      assert rs[..i] == rs;
    }
  }

  /** `feeder_rec_p` is the loop's filter: a record it rejects may be added
      anywhere in the log without changing the pass. */
  lemma {:induction false} RejectedRecordIgnored(rs: seq<Record>, i: nat, r: Record)
    requires i <= |rs| && !IsFeederRecord(r)
    ensures Run(rs[..i] + [r] + rs[i..]) == Run(rs)
    decreases |rs|
  {
    var ys := rs[..i] + [r] + rs[i..];
    if i == |rs| {
      assert ys[..|ys| - 1] == rs;
      RejectedLastIgnored(ys);
    } else {
      var init := rs[..|rs| - 1];
      RejectedRecordIgnored(init, i, r);
      InsertBeforeLast(rs, i, r);
      SameLastSameRun(ys, rs);
    }
  }

  /** Inserting before the last element keeps it last. */
  lemma InsertBeforeLast<T>(xs: seq<T>, i: nat, x: T)
    requires i < |xs|
    ensures (xs[..i] + [x] + xs[i..])[..|xs|] == xs[..|xs| - 1][..i] + [x] + xs[..|xs| - 1][i..]
    ensures (xs[..i] + [x] + xs[i..])[|xs|] == xs[|xs| - 1]
  {
    assert (xs[..i] + [x] + xs[i..])[..|xs|] == xs[..i] + [x] + xs[i..|xs| - 1];
  }

  lemma RejectedLastIgnored(ys: seq<Record>)
    requires |ys| > 0 && !IsFeederRecord(ys[|ys| - 1])
    ensures Run(ys) == Run(ys[..|ys| - 1])
  {
    if Run(ys[..|ys| - 1]).Success? {
      assert Run(ys) == Success(Run(ys[..|ys| - 1]).value);
    }
  }

  /** Run only sees a log through its prefix's pass and its last record. */
  lemma SameLastSameRun(ys: seq<Record>, zs: seq<Record>)
    requires |ys| > 0 && |zs| > 0 && ys[|ys| - 1] == zs[|zs| - 1]
    requires Run(ys[..|ys| - 1]) == Run(zs[..|zs| - 1])
    ensures Run(ys) == Run(zs)
  {
    var r := ys[|ys| - 1];
    if Run(ys[..|ys| - 1]).Success? && IsFeederRecord(r) {
      var prev := Run(ys[..|ys| - 1]).value;
      assert Run(ys) == (var st :- Step(prev.tracker, r); Success(Pass(st.tracker, prev.notes + st.notes)));
    }
  }

  /** The filter tests the whole address: one with a controller prefix, as
      in "box1.feeder_2" or "box1.hopper", is rejected unless the prefix
      itself starts with "feeder". */
  lemma ControllerAddressRejected(r: Record, c: string, x: string)
    requires r.addr == Some(c + "." + x) && !("feeder" <= c)
    ensures !IsFeederRecord(r)
  {
    var a := c + "." + x;
    assert a[|c|] == '.';
    if |c| >= 6 {
      assert a[..6] == c[..6];
    }
    assert '.' !in "hopper";
  }

  /** A log written by a controller that prefixes its addresses is passed
      over whole: nothing is counted and nothing printed. */
  lemma PrefixedLogIgnored()
    ensures Run([Record(Some("box1.feeder_2"), Some(1000), Some(true), None),
                 Record(Some("box1.hopper"), Some(1500), None, Some(false))])
            == Success(Pass(Start, []))
  {
    var r1 := Record(Some("box1.feeder_2"), Some(1000), Some(true), None);
    var r2 := Record(Some("box1.hopper"), Some(1500), None, Some(false));
    assert "box1" + "." + "feeder_2" == "box1.feeder_2";
    assert "box1" + "." + "hopper" == "box1.hopper";
    ControllerAddressRejected(r1, "box1", "feeder_2");
    ControllerAddressRejected(r2, "box1", "hopper");
    assert [r1, r2][..1] == [r1];
    assert [r1][..0] == [];
  }

  /** The loop itself, record by record. */
  method CheckLog(rs: seq<Record>) returns (res: Result<Pass, Fault>)
    ensures res == Run(rs)
  {
    var tracker := Start;
    var notes: seq<Diagnostic> := [];
    var i := 0;
    while i < |rs|
      invariant i <= |rs|
      invariant Run(rs[..i]) == Success(Pass(tracker, notes))
    {
      var r := rs[i];
      assert rs[..i + 1][..i] == rs[..i];
      assert rs[..i + 1][i] == r;
      if IsFeederRecord(r) {
        var st := Step(tracker, r);
        if st.Failure? {
          FaultIsFinal(rs, i + 1);
          return Failure(st.error);
        }
        tracker, notes := st.value.tracker, notes + st.value.notes;
      }
      i := i + 1;
    }
    assert rs[..i] == rs;
    return Success(Pass(tracker, notes));
  }

  // ----- What the tracker knows after a pass, stated on the log itself -----

  predicate IsCommand(r: Record)
  {
    IsFeederRecord(r) && r.feeding.Some?
  }

  predicate IsFeeding(r: Record)
  {
    IsFeederRecord(r) && r.feeding == Some(true)
  }

  predicate IsSwitchReading(r: Record)
  {
    IsFeederRecord(r) && r.feeding.None? && r.addr == Some("hopper")
  }

  predicate IsRise(r: Record)
  {
    IsSwitchReading(r) && r.up == Some(true)
  }

  /** The number of records of a kind. */
  function Tally(rs: seq<Record>, p: Record -> bool): nat
  {
    if |rs| == 0 then 0
    else Tally(rs[..|rs| - 1], p) + (if p(rs[|rs| - 1]) then 1 else 0)
  }

  /** The last record of a kind. */
  function Last(rs: seq<Record>, p: Record -> bool): (r: Option<Record>)
    ensures r.Some? ==> p(r.value)
  {
    if |rs| == 0 then None
    else if p(rs[|rs| - 1]) then Some(rs[|rs| - 1])
    else Last(rs[..|rs| - 1], p)
  }

  /** After a pass the tracker holds the last known values: the feeder
      state is the last command's, the hopper level the last switch
      reading's. */
  lemma {:induction false} PassLevels(rs: seq<Record>, p: Pass)
    requires Run(rs) == Success(p)
    ensures p.tracker.feeding <==> (Last(rs, IsCommand).Some? && Last(rs, IsCommand).value.feeding == Some(true))
    ensures p.tracker.hopperUp <==> (Last(rs, IsSwitchReading).Some? && Last(rs, IsSwitchReading).value.up == Some(true))
  {
    if |rs| > 0 {
      var init := rs[..|rs| - 1];
      var prev := Run(init).value;
      PassLevels(init, prev);
      var r := rs[|rs| - 1];
      if IsFeederRecord(r) {
        var st := Step(prev.tracker, r).value;
        assert p == Pass(st.tracker, prev.notes + st.notes);
      }
    }
  }

  /** After a pass the rise time is the time of the last rise, and a hopper
      known to be up has one. */
  lemma {:induction false} PassRiseTime(rs: seq<Record>, p: Pass)
    requires Run(rs) == Success(p)
    ensures p.tracker.lastUpTime == (if Last(rs, IsRise).Some? then Last(rs, IsRise).value.time else None)
    ensures p.tracker.hopperUp ==> p.tracker.lastUpTime.Some?
  {
    if |rs| > 0 {
      var init := rs[..|rs| - 1];
      var prev := Run(init).value;
      PassRiseTime(init, prev);
      var r := rs[|rs| - 1];
      if IsFeederRecord(r) {
        var st := Step(prev.tracker, r).value;
        assert p == Pass(st.tracker, prev.notes + st.notes);
      }
    }
  }

  /** After a pass feedings count the `feeding: true` records exactly,
      failures and bounces are bounded by the commands and the switch
      readings, every failure and bounce was printed, and a hopper id is
      known once some feeding was commanded. */
  lemma {:induction false} PassCounts(rs: seq<Record>, p: Pass)
    requires Run(rs) == Success(p)
    ensures p.tracker.feedings == Tally(rs, IsFeeding)
    ensures p.tracker.failures <= Tally(rs, IsCommand)
    ensures p.tracker.bounces <= Tally(rs, IsSwitchReading)
    ensures |p.notes| == p.tracker.failures + p.tracker.bounces
    ensures p.tracker.lastHopper.Some? <==> Last(rs, IsFeeding).Some?
  {
    if |rs| > 0 {
      var init := rs[..|rs| - 1];
      var prev := Run(init).value;
      PassCounts(init, prev);
      var r := rs[|rs| - 1];
      if IsFeederRecord(r) {
        var st := Step(prev.tracker, r).value;
        assert p == Pass(st.tracker, prev.notes + st.notes);
      }
    }
  }

  /** One more record extends a pass by one step. */
  lemma RunSnoc(rs: seq<Record>, r: Record, p: Pass)
    requires Run(rs) == Success(p) && IsFeederRecord(r)
    ensures Step(p.tracker, r).Success? ==>
      Run(rs + [r]) == Success(Pass(Step(p.tracker, r).value.tracker, p.notes + Step(p.tracker, r).value.notes))
  {
    assert (rs + [r])[..|rs|] == rs;
  }

  const FeedTwoOn := Record(Some("feeder_2"), Some(1000), Some(true), None)
  const RiseAt1250 := Record(Some("hopper"), Some(1250), None, Some(true))
  const FallAt1400 := Record(Some("hopper"), Some(1400), None, Some(false))

  /** A feeder switched on whose address has one '_': the feeding is
      counted, the hopper id is what follows the '_', and a hopper still up
      is a lowering error. */
  lemma StepFeedingOn(s: Tracker, r: Record, a: string, b: string)
    requires r.addr == Some(a + ['_'] + b) && "feeder" <= a && '_' !in a && '_' !in b
    requires r.feeding == Some(true) && r.time.Some?
    ensures IsFeederRecord(r)
    ensures Step(s, r) == Success(Stepped(
      s.(feeding := true, lastHopper := Some(b), feedings := s.feedings + 1,
         failures := s.failures + (if s.hopperUp then 1 else 0)),
      if s.hopperUp then [LoweringError(r.time.value, s.lastHopper)] else []))
  {
    assert (a + ['_'] + b)[..|a|] == a;
    Strings.SplitAtOneSeparator(a, b, '_');
  }

  lemma FeedTwoOnStep()
    ensures IsFeederRecord(FeedTwoOn)
    ensures Step(Start, FeedTwoOn) == Success(Stepped(Tracker(true, false, Some("2"), None, 1, 0, 0), []))
  {
    assert "feeder_2" == "feeder" + ['_'] + "2";
    StepFeedingOn(Start, FeedTwoOn, "feeder", "2");
  }

  lemma RiseStep()
    ensures Step(Tracker(true, false, Some("2"), None, 1, 0, 0), RiseAt1250)
      == Success(Stepped(Tracker(true, true, Some("2"), Some(1250), 1, 0, 0), []))
  {
  }

  lemma FallStep()
    ensures Step(Tracker(true, true, Some("2"), Some(1250), 1, 0, 0), FallAt1400)
      == Success(Stepped(Tracker(true, false, Some("2"), Some(1250), 1, 0, 1), [SwitchBounce(1400, Some("2"), 150)]))
  {
  }

  /** A log of one feeder record is one step from the start. */
  lemma RunOne(r: Record, st: Stepped)
    requires IsFeederRecord(r) && Step(Start, r) == Success(st)
    ensures Run([r]) == Success(Pass(st.tracker, st.notes))
  {
    assert [r][..0] == [];
    assert [] + st.notes == st.notes;
  }

  lemma RunFeedTwoOn()
    ensures Run([FeedTwoOn]) == Success(Pass(Tracker(true, false, Some("2"), None, 1, 0, 0), []))
  {
    FeedTwoOnStep();
    RunOne(FeedTwoOn, Stepped(Tracker(true, false, Some("2"), None, 1, 0, 0), []));
  }

  lemma RunThenRise()
    ensures Run([FeedTwoOn, RiseAt1250]) == Success(Pass(Tracker(true, true, Some("2"), Some(1250), 1, 0, 0), []))
  {
    var none: seq<Diagnostic> := [];
    RunFeedTwoOn();
    RiseStep();
    RunSnoc([FeedTwoOn], RiseAt1250, Pass(Tracker(true, false, Some("2"), None, 1, 0, 0), none));
    assert [FeedTwoOn] + [RiseAt1250] == [FeedTwoOn, RiseAt1250] && none + none == none;
  }

  /** Scenario: feeder 2 switched on, the hopper rises at t1 and falls at t2
      while the feeder is still on: one bounce of t2 - t1 milliseconds. */
  lemma ScenarioBounce()
    ensures Run([FeedTwoOn, RiseAt1250, FallAt1400])
      == Success(Pass(Tracker(true, false, Some("2"), Some(1250), 1, 0, 1),
                      [SwitchBounce(1400, Some("2"), 150)]))
  {
    var none: seq<Diagnostic> := [];
    var bounce := SwitchBounce(1400, Some("2"), 150);
    RunThenRise();
    FallStep();
    RunSnoc([FeedTwoOn, RiseAt1250], FallAt1400, Pass(Tracker(true, true, Some("2"), Some(1250), 1, 0, 0), none));
    assert [FeedTwoOn, RiseAt1250] + [FallAt1400] == [FeedTwoOn, RiseAt1250, FallAt1400];
    assert none + [bounce] == [bounce];
  }
}
