/** The main block of scripts/decide-check-hopper.py without its I/O: the
    log is normalised, grouped by controller, and each controller's events
    are checked and summarised on their own. */
module DecideCheck {
  import opened Wrappers
  import opened Records
  import opened HopperEvents
  import opened PairedCheck
  import opened Report
  import opened Grouping
  import Strings

  function ControllerOf(e: HopperEvent): Option<string>
  {
    e.controller
  }

  /** One controller's report, or the fault its check raises: the check
      raises exactly when a classified command names no hopper, and otherwise
      the totals account for every classified command once. */
  function CheckController(events: seq<HopperEvent>): (r: Result<Summary, Fault>)
    ensures r.Failure? <==>
      exists k :: 0 <= k < |events| && Classified(events, k) && '_' !in events[k].component
    ensures r.Failure? ==> r.error == IndexError
    ensures r.Success? ==> r.value.totalErrors + r.value.totalFeeds == ClassifiedFrom(events, 0)
  {
    CheckFailure(events);
    CheckMatchesRunParity(events);
    match Check(events)
    case Failure(e) => Failure(e)
    case Success(os) =>
      OutcomesFromShape(events, 0, os);
      Success(Summarize(os))
  }

  /** The reports of all controllers seen in the log, keyed by controller
      (`None` for addresses without exactly one '.'). */
  function CheckLog(rs: seq<Record>): (res: Result<map<Option<string>, Result<Summary, Fault>>, Fault>)
    ensures res.Success? <==> forall i :: 0 <= i < |rs| ==> Normalize(rs[i]).Success?
    ensures res.Success? ==> forall c :: c in res.value ==>
      res.value[c] == CheckController(Select(ControllerOf, Extract(rs).value, c))
    ensures res.Success? ==> forall c :: c in res.value <==> Select(ControllerOf, Extract(rs).value, c) != []
  {
    var events :- Extract(rs);
    var groups := GroupBy(ControllerOf, events);
    Success(map c | c in groups :: CheckController(groups[c]))
  }

  /** Extraction works record by record, so it distributes over concatenation. */
  lemma {:induction false} ExtractAppend(a: seq<Record>, b: seq<Record>)
    requires Extract(a).Success? && Extract(b).Success?
    ensures Extract(a + b) == Success(Extract(a).value + Extract(b).value)
    decreases |b|
  {
    if |b| == 0 {
      assert a + b == a;
      assert Extract(a).value + Extract(b).value == Extract(a).value;
    } else {
      var binit := b[..|b| - 1];
      var last := b[|b| - 1];
      assert (a + b)[..|a + b| - 1] == a + binit;
      assert (a + b)[|a + b| - 1] == last;
      assert Extract(binit).Success?;
      assert Normalize(last).Success?;
      ExtractAppend(a, binit);
      var tail := if Normalize(last).value.Some? then [Normalize(last).value.value] else [];
      assert Extract(b).value == Extract(binit).value + tail;
      assert Extract(a + b).value == Extract(a + binit).value + tail;
      assert Extract(a).value + Extract(binit).value + tail == Extract(a).value + (Extract(binit).value + tail);
    }
  }

  /** The events of one record on its own. */
  function EventsOf(r: Record): seq<HopperEvent>
    requires Normalize(r).Success?
  {
    if Normalize(r).value.Some? then [Normalize(r).value.value] else []
  }

  /** One more record at the end adds its event, if any, at the end. */
  lemma ExtractSnoc(a: seq<Record>, r: Record)
    requires Extract(a).Success? && Normalize(r).Success?
    ensures Extract(a + [r]) == Success(Extract(a).value + EventsOf(r))
  {
    assert (a + [r])[..|a|] == a;
  }

  /** A record inserted between two well-formed logs adds its event, if any,
      between their events. */
  lemma ExtractInsert(a: seq<Record>, r: Record, b: seq<Record>)
    requires Extract(a).Success? && Extract(b).Success? && Normalize(r).Success?
    ensures Extract(a + [r] + b) == Success(Extract(a).value + EventsOf(r) + Extract(b).value)
  {
    ExtractSnoc(a, r);
    ExtractAppend(a + [r], b);
  }

  /** Both halves of a well-formed log are well-formed, and their events,
      together, are the log's. */
  lemma ExtractSplit(a: seq<Record>, b: seq<Record>)
    requires Extract(a + b).Success?
    ensures Extract(a).Success? && Extract(b).Success?
    ensures Extract(a + b).value == Extract(a).value + Extract(b).value
  {
    forall i | 0 <= i < |a| ensures Normalize(a[i]).Success? {
      assert (a + b)[i] == a[i];
    }
    forall i | 0 <= i < |b| ensures Normalize(b[i]).Success? {
      assert (a + b)[|a| + i] == b[i];
    }
    ExtractAppend(a, b);
  }

  /** The events of a record of another controller do not enter the group of `c`. */
  lemma SelectSkipsRecord(ea: seq<HopperEvent>, r: Record, eb: seq<HopperEvent>, c: Option<string>)
    requires Normalize(r).Success?
    requires Normalize(r).value.Some? ==> Normalize(r).value.value.controller != c
    ensures Select(ControllerOf, ea + EventsOf(r) + eb, c) == Select(ControllerOf, ea + eb, c)
  {
    var events := ea + eb;
    if Normalize(r).value.Some? {
      var e := Normalize(r).value.value;
      assert events[..|ea|] == ea && events[|ea|..] == eb;
      OtherKeysDoNotMatter(ControllerOf, events, |ea|, e, c);
    } else {
      assert ea + [] + eb == events;
    }
  }

  /** A well-formed record of another controller, inserted anywhere into a
      well-formed log, leaves the events of controller `c` as they were. */
  lemma GroupUnchangedByInsert(rs: seq<Record>, pos: nat, r: Record, c: Option<string>)
    requires pos <= |rs|
    requires Extract(rs).Success? && Normalize(r).Success?
    requires Normalize(r).value.Some? ==> Normalize(r).value.value.controller != c
    ensures Extract(rs[..pos] + [r] + rs[pos..]).Success?
    ensures Select(ControllerOf, Extract(rs[..pos] + [r] + rs[pos..]).value, c)
      == Select(ControllerOf, Extract(rs).value, c)
  {
    var a, b := rs[..pos], rs[pos..];
    assert rs == a + b;
    ExtractSplit(a, b);
    ExtractInsert(a, r, b);
    SelectSkipsRecord(Extract(a).value, r, Extract(b).value, c);
  }

  /** Interleaved controllers do not affect each other: inserting a
      well-formed record of another controller anywhere into a well-formed
      log leaves the report of controller `c` unchanged. */
  lemma ControllersIsolated(rs: seq<Record>, pos: nat, r: Record, c: Option<string>)
    requires pos <= |rs|
    requires CheckLog(rs).Success? && Normalize(r).Success?
    requires Normalize(r).value.Some? ==> Normalize(r).value.value.controller != c
    ensures CheckLog(rs[..pos] + [r] + rs[pos..]).Success?
    ensures c in CheckLog(rs).value <==> c in CheckLog(rs[..pos] + [r] + rs[pos..]).value
    ensures c in CheckLog(rs).value ==>
      CheckLog(rs[..pos] + [r] + rs[pos..]).value[c] == CheckLog(rs).value[c]
  {
    GroupUnchangedByInsert(rs, pos, r, c);
  }

  lemma SingleFeedSummary()
    ensures Summarize([Outcome("1", 100, NoError)]) == Summary([Row("1", "none", 1)], 1, 0)
    ensures SummarizeIntended([Outcome("1", 100, NoError)]) == Summary([Row("1", "none", 1)], 0, 1)
  {
    var os := [Outcome("1", 100, NoError)];
    assert Keys(os) == [("1", "none")];
    assert SortedKeys(Keys(os)) == [("1", "none")];
    assert Count(Keys(os), ("1", "none")) == 1;
    assert Rows(os) == [Row("1", "none", 1)];
  }

  /** A feeder command answered by the hopper rising is a successful feed:
      its line says "none", yet the totals as written count it as an error. */
  lemma ScenarioFeedAnswered()
    ensures CheckController([Command(Some("box1"), "feeder_1", true, 100), Observation(Some("box1"), "hopper", true, 160)])
      == Success(Summary([Row("1", "none", 1)], 1, 0))
  {
    var es := [Command(Some("box1"), "feeder_1", true, 100), Observation(Some("box1"), "hopper", true, 160)];
    ClassifyFeederOneOn(es[1]);
    CheckPair(es[0], es[1]);
    SingleFeedSummary();
  }

  /** Two feeder commands in a row: the first one fails to raise, stamped
      with its own time, and the second is consumed without an outcome. */
  lemma ScenarioRepeatedCommand()
    ensures Check([Command(Some("box1"), "feeder_1", true, 100), Command(Some("box1"), "feeder_1", true, 200)])
      == Success([Outcome("1", 100, RaiseFailure)])
  {
    var es := [Command(Some("box1"), "feeder_1", true, 100), Command(Some("box1"), "feeder_1", true, 200)];
    ClassifyFeederOneOn(es[1]);
    CheckPair(es[0], es[1]);
  }

  /** Feeder 1 switched on at time 100, answered by `next`. */
  lemma ClassifyFeederOneOn(next: HopperEvent)
    ensures Classify(Command(Some("box1"), "feeder_1", true, 100), next)
      == Success(Outcome("1", 100, if next.Observation? && next.up then NoError else RaiseFailure))
  {
    FeederOneId();
  }

  lemma FeederOneId()
    ensures HopperId("feeder_1") == Success("1")
  {
    Strings.SplitAtOneSeparator("feeder", "1", '_');
    assert "feeder_1" == "feeder" + ['_'] + "1";
  }

  /** A dangling command at the end yields nothing. */
  lemma ScenarioDanglingCommand()
    ensures Check([Command(Some("box1"), "feeder_1", false, 100)]) == Success([])
  {
  }
}
