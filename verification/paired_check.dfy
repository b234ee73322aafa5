/** The paired (offline) hopper check, `check_hopper_events` in
    scripts/decide-check-hopper.py: every feeder command consumes the event
    right after it and is classified by it. */
module PairedCheck {
  import opened Wrappers
  import opened Records
  import opened HopperEvents
  import Strings

  /** How a command was answered; `Label` is the string the report prints and sorts by. */
  datatype Verdict = NoError | RaiseFailure | LowerFailure {
    function Label(): string
    {
      match this
      case NoError => "none"
      case RaiseFailure => "raise"
      case LowerFailure => "lower"
    }
  }

  /** One classified command: the hopper it drove, its own time stamp, the verdict. */
  datatype Outcome = Outcome(hopper: string, time: int, error: Verdict)

  /** `component.split("_")[1]`, or the `IndexError` it raises. */
  function HopperId(component: string): (r: Result<string, Fault>)
    ensures r.Failure? <==> '_' !in component
    ensures r.Failure? ==> r.error == IndexError
    ensures r.Success? ==> '_' !in r.value
    // the run between the first and the second '_' (or the end)
    ensures r.Success? ==>
      '_' in component && Strings.PieceAt(component, Strings.FirstIndex(component, '_') + 1, r.value, '_')
  {
    Strings.OccurrencesPositive(component, '_');
    var parts := Strings.Split(component, '_');
    if |parts| < 2 then Failure(IndexError)
    else
      Strings.SplitSecondPiece(component, '_', Strings.FirstIndex(component, '_'));
      Success(parts[1])
  }

  /** A command paired with the event that follows it. */
  function Classify(cmd: HopperEvent, next: HopperEvent): (r: Result<Outcome, Fault>)
    requires cmd.Command?
    ensures r.Success? <==> '_' in cmd.component
    ensures r.Success? ==> r.value.time == cmd.time && HopperId(cmd.component) == Success(r.value.hopper)
    ensures r.Success? ==>
      (r.value.error == NoError <==> next.Observation? && next.up == cmd.feeding)
    ensures r.Success? && r.value.error != NoError ==>
      r.value.error == (if cmd.feeding then RaiseFailure else LowerFailure)
  {
    var hopper :- HopperId(cmd.component);
    var error :=
      if next.Observation? && next.up == cmd.feeding then NoError
      else if cmd.feeding then RaiseFailure
      else LowerFailure;
    Success(Outcome(hopper, cmd.time, error))
  }

  function CommandsFrom(es: seq<HopperEvent>, j: nat): nat
    decreases |es| - j
  {
    if j >= |es| then 0 else (if es[j].Command? then 1 else 0) + CommandsFrom(es, j + 1)
  }

  /** The generator, resumed at position `j` of the controller's events. A
      command takes the next event with it; a command with nothing after it
      ends the scan without an outcome; an observation on its own is skipped. */
  function CheckFrom(es: seq<HopperEvent>, j: nat): (r: Result<seq<Outcome>, Fault>)
    ensures r.Success? ==> |r.value| <= CommandsFrom(es, j)
    decreases |es| - j
  {
    if j >= |es| then Success([])
    else if es[j].Command? then
      if j + 1 >= |es| then Success([])
      else
        var out :- Classify(es[j], es[j + 1]);
        var rest :- CheckFrom(es, j + 2);
        Success([out] + rest)
    else CheckFrom(es, j + 1)
  }

  function Check(es: seq<HopperEvent>): (r: Result<seq<Outcome>, Fault>)
    ensures r.Success? ==> |r.value| <= CommandsFrom(es, 0)
  {
    CheckFrom(es, 0)
  }

  /** A command followed by one event: the pair's outcome is the only one. */
  lemma CheckPair(cmd: HopperEvent, next: HopperEvent)
    requires cmd.Command?
    ensures Check([cmd, next]) ==
      (if Classify(cmd, next).Success? then Success([Classify(cmd, next).value])
       else Failure(Classify(cmd, next).error))
  {
    assert CheckFrom([cmd, next], 2) == Success([]);
    if Classify(cmd, next).Success? {
      assert [Classify(cmd, next).value] + [] == [Classify(cmd, next).value];
    }
  }

  // ----- An independent description of which commands get classified -----

  /** The number of commands immediately before position `i`, back to the
      previous observation or the start. */
  function RunBefore(es: seq<HopperEvent>, i: nat): nat
    requires i <= |es|
  {
    if i == 0 || !es[i - 1].Command? then 0 else 1 + RunBefore(es, i - 1)
  }

  /** Commands pair up within a run of consecutive commands: the first,
      third, fifth… of a run are classified, each provided something follows it. */
  predicate Classified(es: seq<HopperEvent>, i: nat)
  {
    i + 1 < |es| && es[i].Command? && RunBefore(es, i) % 2 == 0
  }

  /** The outcomes of the classified commands, position by position. */
  function OutcomesFrom(es: seq<HopperEvent>, i: nat): Result<seq<Outcome>, Fault>
    decreases |es| - i
  {
    if i >= |es| then Success([])
    else if Classified(es, i) then
      var out :- Classify(es[i], es[i + 1]);
      var rest :- OutcomesFrom(es, i + 1);
      Success([out] + rest)
    else OutcomesFrom(es, i + 1)
  }

  /** The scan resumes only at positions preceded by an even run of commands,
      and from there it yields exactly the outcomes of the classified commands. */
  lemma {:induction false} ScanMatchesRunParity(es: seq<HopperEvent>, j: nat)
    requires j <= |es| && RunBefore(es, j) % 2 == 0
    ensures CheckFrom(es, j) == OutcomesFrom(es, j)
    decreases |es| - j
  {
    if j < |es| {
      if es[j].Command? {
        if j + 1 < |es| {
          assert RunBefore(es, j + 1) == RunBefore(es, j) + 1;
          assert !Classified(es, j + 1);
          ScanMatchesRunParity(es, j + 2);
        } else {
          assert !Classified(es, j);
        }
      } else {
        assert RunBefore(es, j + 1) == 0;
        ScanMatchesRunParity(es, j + 1);
      }
    }
  }

  lemma CheckMatchesRunParity(es: seq<HopperEvent>)
    ensures Check(es) == OutcomesFrom(es, 0)
  {
    ScanMatchesRunParity(es, 0);
  }

  /** A command consumed as the successor of a classified command is never
      classified itself. */
  lemma ConsumedCommandNotClassified(es: seq<HopperEvent>, i: nat)
    requires Classified(es, i) && es[i + 1].Command?
    ensures !Classified(es, i + 1)
  {
    assert RunBefore(es, i + 1) == RunBefore(es, i) + 1;
  }

  /** Cutting the log short does not change the runs before the cut. */
  lemma {:induction false} RunBeforePrefix(es: seq<HopperEvent>, m: nat, k: nat)
    requires k <= m <= |es|
    ensures RunBefore(es[..m], k) == RunBefore(es, k)
    decreases k
  {
    if k > 0 {
      RunBeforePrefix(es, m, k - 1);
    }
  }

  /** Below a dangling last command the classification and the outcomes are
      those of the log without it. */
  lemma {:induction false} OutcomesFromDropLast(es: seq<HopperEvent>, i: nat)
    requires |es| > 0 && es[|es| - 1].Command? && RunBefore(es, |es| - 1) % 2 == 0
    requires i <= |es| - 1
    ensures OutcomesFrom(es, i) == OutcomesFrom(es[..|es| - 1], i)
    decreases |es| - i
  {
    var init := es[..|es| - 1];
    if i == |es| - 1 {
      assert !Classified(es, i);
    } else {
      RunBeforePrefix(es, |es| - 1, i);
      if i == |es| - 2 {
        assert !Classified(es, i);
      }
      assert Classified(es, i) <==> Classified(init, i);
      OutcomesFromDropLast(es, i + 1);
    }
  }

  /** A command that ends the controller's events and is not itself the
      successor of a classified command (a dangling command) changes
      nothing: the scan stops before it. */
  lemma DanglingCommandIgnored(es: seq<HopperEvent>)
    requires |es| > 0 && es[|es| - 1].Command? && RunBefore(es, |es| - 1) % 2 == 0
    ensures Check(es) == Check(es[..|es| - 1])
  {
    CheckMatchesRunParity(es);
    CheckMatchesRunParity(es[..|es| - 1]);
    OutcomesFromDropLast(es, 0);
  }

  /** When the scan succeeds, every classified command names its hopper and
      there is one outcome per classified command. */
  lemma {:induction false} OutcomesFromShape(es: seq<HopperEvent>, i: nat, os: seq<Outcome>)
    requires OutcomesFrom(es, i) == Success(os)
    ensures forall k :: i <= k < |es| && Classified(es, k) ==> '_' in es[k].component
    ensures |os| == ClassifiedFrom(es, i)
    decreases |es| - i
  {
    if i < |es| {
      if Classified(es, i) {
        OutcomesFromShape(es, i + 1, os[1..]);
      } else {
        OutcomesFromShape(es, i + 1, os);
      }
    }
  }

  /** The scan raises exactly when some classified command's component has
      no '_', and what it raises is the `IndexError`. */
  lemma {:induction false} OutcomesFromFailure(es: seq<HopperEvent>, i: nat)
    ensures OutcomesFrom(es, i).Failure? <==>
      exists k :: i <= k < |es| && Classified(es, k) && '_' !in es[k].component
    ensures OutcomesFrom(es, i).Failure? ==> OutcomesFrom(es, i).error == IndexError
    decreases |es| - i
  {
    if i < |es| {
      OutcomesFromFailure(es, i + 1);
      if Classified(es, i) && '_' !in es[i].component {
        assert Classify(es[i], es[i + 1]).Failure?;
      }
    }
  }

  /** The whole check raises exactly when a classified command's component
      has no '_'. */
  lemma CheckFailure(es: seq<HopperEvent>)
    ensures Check(es).Failure? <==>
      exists k :: 0 <= k < |es| && Classified(es, k) && '_' !in es[k].component
    ensures Check(es).Failure? ==> Check(es).error == IndexError
  {
    CheckMatchesRunParity(es);
    OutcomesFromFailure(es, 0);
  }

  function ClassifiedFrom(es: seq<HopperEvent>, i: nat): nat
    decreases |es| - i
  {
    if i >= |es| then 0 else (if Classified(es, i) then 1 else 0) + ClassifiedFrom(es, i + 1)
  }

  /** The first classified command's outcome heads the result: its time is
      the command's own time and its verdict depends only on its successor. */
  lemma FirstOutcome(es: seq<HopperEvent>, i: nat)
    requires Classified(es, i)
    requires forall k :: 0 <= k < i ==> !Classified(es, k)
    requires Check(es).Success?
    ensures Check(es).value != []
    ensures Classify(es[i], es[i + 1]) == Success(Check(es).value[0])
  {
    CheckMatchesRunParity(es);
    SkipUnclassified(es, 0, i);
  }

  lemma {:induction false} SkipUnclassified(es: seq<HopperEvent>, j: nat, i: nat)
    requires j <= i < |es|
    requires forall k :: j <= k < i ==> !Classified(es, k)
    ensures OutcomesFrom(es, j) == OutcomesFrom(es, i)
    decreases i - j
  {
    if j < i {
      SkipUnclassified(es, j + 1, i);
    }
  }
}
