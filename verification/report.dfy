/** The per-controller report of scripts/decide-check-hopper.py: a
    `Counter` over `(hopper, error)` keys, its keys sorted, and the two totals. */
module Report {
  import opened PairedCheck
  import Strings

  /** A `(hopper, error)` counter key, with the error as its printed label. */
  type Key = (string, string)

  function KeyOf(o: Outcome): Key
  {
    (o.hopper, o.error.Label())
  }

  function Keys(os: seq<Outcome>): (ks: seq<Key>)
    ensures |ks| == |os|
    ensures forall i :: 0 <= i < |os| ==> ks[i] == KeyOf(os[i])
  {
    if |os| == 0 then [] else [KeyOf(os[0])] + Keys(os[1..])
  }

  /** Python's tuple order on keys: by hopper, then by error label. */
  predicate KeyLess(a: Key, b: Key)
  {
    Strings.Less(a.0, b.0) || (a.0 == b.0 && Strings.Less(a.1, b.1))
  }

  lemma KeyLessIrreflexive(a: Key)
    ensures !KeyLess(a, a)
  {
    Strings.LessIrreflexive(a.0);
    Strings.LessIrreflexive(a.1);
  }

  lemma KeyLessTransitive(a: Key, b: Key, c: Key)
    requires KeyLess(a, b) && KeyLess(b, c)
    ensures KeyLess(a, c)
  {
    if Strings.Less(a.0, b.0) && Strings.Less(b.0, c.0) {
      Strings.LessTransitive(a.0, b.0, c.0);
    } else if a.0 == b.0 && b.0 == c.0 {
      Strings.LessTransitive(a.1, b.1, c.1);
    }
  }

  lemma KeyLessTotal(a: Key, b: Key)
    requires a != b
    ensures KeyLess(a, b) || KeyLess(b, a)
  {
    if a.0 != b.0 {
      Strings.LessTotal(a.0, b.0);
    } else {
      Strings.LessTotal(a.1, b.1);
    }
  }

  /** Sorted with no key twice. */
  predicate Ascending(ks: seq<Key>)
  {
    forall i, j :: 0 <= i < j < |ks| ==> KeyLess(ks[i], ks[j])
  }

  /** Adds a key to an ascending sequence, unless it is already there. */
  function Insert(ks: seq<Key>, k: Key): (r: seq<Key>)
    requires Ascending(ks)
    ensures Ascending(r)
    ensures forall x :: x in r <==> x in ks || x == k
  {
    if |ks| == 0 then [k]
    else if k == ks[0] then ks
    else if KeyLess(k, ks[0]) then
      assert forall j :: 0 < j < |ks| ==> KeyLess(k, ks[j]) by {
        forall j | 0 < j < |ks| {
          KeyLessTransitive(k, ks[0], ks[j]);
        }
      }
      [k] + ks
    else
      KeyLessTotal(k, ks[0]);
      var rest := Insert(ks[1..], k);
      assert forall j :: 0 <= j < |rest| ==> KeyLess(ks[0], rest[j]) by {
        forall j | 0 <= j < |rest|
          ensures KeyLess(ks[0], rest[j])
        {
          assert rest[j] in rest;
          if rest[j] != k {
            var m :| 0 <= m < |ks[1..]| && ks[1..][m] == rest[j];
            assert KeyLess(ks[0], ks[m + 1]);
          }
        }
      }
      [ks[0]] + rest
  }

  /** `sorted(counts.keys())`: the distinct keys of the outcomes, ascending. */
  function SortedKeys(ks: seq<Key>): (r: seq<Key>)
    ensures Ascending(r)
    ensures forall x :: x in r <==> x in ks
  {
    if |ks| == 0 then [] else Insert(SortedKeys(ks[1..]), ks[0])
  }

  /** Occurrences of `k` in `ks`: the `Counter` entry of `k`. */
  function Count(ks: seq<Key>, k: Key): nat
  {
    if |ks| == 0 then 0 else (if ks[0] == k then 1 else 0) + Count(ks[1..], k)
  }

  function CountWhere<T>(xs: seq<T>, p: T -> bool): nat
  {
    if |xs| == 0 then 0 else (if p(xs[0]) then 1 else 0) + CountWhere(xs[1..], p)
  }

  /** One printed report line (the controller is the report's own). */
  datatype Row = Row(hopper: string, error: string, count: nat)

  function RowsOf(ks: seq<Key>, counted: seq<Key>): (rows: seq<Row>)
    ensures |rows| == |ks|
    ensures forall i :: 0 <= i < |ks| ==> rows[i] == Row(ks[i].0, ks[i].1, Count(counted, ks[i]))
  {
    if |ks| == 0 then [] else [Row(ks[0].0, ks[0].1, Count(counted, ks[0]))] + RowsOf(ks[1..], counted)
  }

  /** The report lines for one controller's outcomes, in printing order. */
  function Rows(os: seq<Outcome>): seq<Row>
  {
    RowsOf(SortedKeys(Keys(os)), Keys(os))
  }

  /** `sum(v for k, v in counts.items() if p(k))`. */
  function TotalWhere(rows: seq<Row>, p: Key -> bool): nat
  {
    if |rows| == 0 then 0
    else (if p((rows[0].hopper, rows[0].error)) then rows[0].count else 0) + TotalWhere(rows[1..], p)
  }

  /** The sum of the counts of all lines. */
  function CountSum(rows: seq<Row>): nat
  {
    if |rows| == 0 then 0 else rows[0].count + CountSum(rows[1..])
  }

  /** The totals as lines 148-149 compute them: the test is on `k[0]`, the
      hopper id, so unless a hopper is literally named "none" every counted
      outcome is an error and there are no feeds. */
  function TotalErrorsAsWritten(rows: seq<Row>): (r: nat)
    ensures r + TotalFeedsAsWritten(rows) == CountSum(rows)
    ensures (forall i :: 0 <= i < |rows| ==> rows[i].hopper != "none") ==> r == CountSum(rows)
  {
    TotalWhereComplement(rows, (k: Key) => k.0 != "none", (k: Key) => k.0 == "none");
    TotalWhere(rows, (k: Key) => k.0 != "none")
  }

  function TotalFeedsAsWritten(rows: seq<Row>): (r: nat)
    ensures (forall i :: 0 <= i < |rows| ==> rows[i].hopper != "none") ==> r == 0
  {
    TotalWhereNothing(rows, (k: Key) => k.0 == "none");
    TotalWhere(rows, (k: Key) => k.0 == "none")
  }

  /** Two complementary filters share out the counts of all lines. */
  lemma {:induction false} TotalWhereComplement(rows: seq<Row>, p: Key -> bool, q: Key -> bool)
    requires forall k :: q(k) == !p(k)
    ensures TotalWhere(rows, p) + TotalWhere(rows, q) == CountSum(rows)
  {
    if |rows| > 0 {
      TotalWhereComplement(rows[1..], p, q);
    }
  }

  /** A filter no line passes totals zero. */
  lemma {:induction false} TotalWhereNothing(rows: seq<Row>, p: Key -> bool)
    ensures (forall i :: 0 <= i < |rows| ==> !p((rows[i].hopper, rows[i].error))) ==>
      TotalWhere(rows, p) == 0
  {
    if |rows| > 0 {
      assert forall i :: 0 <= i < |rows| - 1 ==> rows[1..][i] == rows[i + 1];
      TotalWhereNothing(rows[1..], p);
    }
  }

  /** The totals as intended: the test is on the error label. */
  function TotalErrors(rows: seq<Row>): nat
  {
    TotalWhere(rows, (k: Key) => k.1 != "none")
  }

  function TotalFeeds(rows: seq<Row>): nat
  {
    TotalWhere(rows, (k: Key) => k.1 == "none")
  }

  datatype Summary = Summary(rows: seq<Row>, totalErrors: nat, totalFeeds: nat)

  /** What the loop body prints and mails for one controller, with the totals
      as written: every outcome counts once, and the split goes by hopper id. */
  function Summarize(os: seq<Outcome>): (r: Summary)
    ensures r.totalErrors == CountWhere(os, (o: Outcome) => o.hopper != "none")
    ensures r.totalFeeds == CountWhere(os, (o: Outcome) => o.hopper == "none")
    ensures r.totalErrors + r.totalFeeds == |os|
  {
    TotalsAsWrittenTestHopperId(os);
    CountWhereHopperComplement(os);
    var rows := Rows(os);
    Summary(rows, TotalErrorsAsWritten(rows), TotalFeedsAsWritten(rows))
  }

  /** The same report with the totals as intended: errors are the outcomes
      with an error, feeds the ones without. */
  function SummarizeIntended(os: seq<Outcome>): (r: Summary)
    ensures r.rows == Summarize(os).rows
    ensures r.totalErrors == CountWhere(os, (o: Outcome) => o.error != NoError)
    ensures r.totalFeeds == CountWhere(os, (o: Outcome) => o.error == NoError)
    ensures r.totalErrors + r.totalFeeds == |os|
  {
    TotalErrorsCountErrors(os);
    TotalFeedsCountFeeds(os);
    CountWhereComplement(os);
    var rows := Rows(os);
    Summary(rows, TotalErrors(rows), TotalFeeds(rows))
  }

  // ----- Properties -----

  /** Report lines are strictly ascending by `(hopper, error)`, every outcome's
      key has a line, and each line counts exactly the outcomes with its key. */
  lemma RowsDescribeOutcomes(os: seq<Outcome>)
    ensures forall i, j :: 0 <= i < j < |Rows(os)| ==>
      KeyLess((Rows(os)[i].hopper, Rows(os)[i].error), (Rows(os)[j].hopper, Rows(os)[j].error))
    ensures forall i :: 0 <= i < |os| ==> exists j :: 0 <= j < |Rows(os)| && Rows(os)[j].hopper == os[i].hopper && Rows(os)[j].error == os[i].error.Label()
    ensures forall r :: r in Rows(os) ==> r.count == Count(Keys(os), (r.hopper, r.error)) && r.count > 0
  {
    var ks := Keys(os);
    var sk := SortedKeys(ks);
    forall r | r in Rows(os)
      ensures r.count == Count(ks, (r.hopper, r.error)) && r.count > 0
    {
      var j :| 0 <= j < |sk| && Rows(os)[j] == r;
      CountPositive(ks, sk[j]);
    }
    forall i | 0 <= i < |os|
      ensures exists j :: 0 <= j < |Rows(os)| && Rows(os)[j].hopper == os[i].hopper && Rows(os)[j].error == os[i].error.Label()
    {
      assert ks[i] in sk;
      var j :| 0 <= j < |sk| && sk[j] == ks[i];
      assert Rows(os)[j].hopper == os[i].hopper;
    }
  }

  lemma {:induction false} CountPositive(ks: seq<Key>, k: Key)
    requires k in ks
    ensures Count(ks, k) > 0
  {
    if ks[0] != k {
      CountPositive(ks[1..], k);
    }
  }

  lemma {:induction false} CountOnceInAscending(ks: seq<Key>, k: Key)
    requires Ascending(ks) && k in ks
    ensures Count(ks, k) == 1
  {
    if ks[0] == k {
      if k in ks[1..] {
        var j :| 0 <= j < |ks[1..]| && ks[1..][j] == k;
        assert KeyLess(ks[0], ks[j + 1]);
        KeyLessIrreflexive(k);
      }
      CountAbsent(ks[1..], k);
    } else {
      CountOnceInAscending(ks[1..], k);
    }
  }

  lemma {:induction false} CountAbsent(ks: seq<Key>, k: Key)
    requires k !in ks
    ensures Count(ks, k) == 0
  {
    if |ks| > 0 {
      CountAbsent(ks[1..], k);
    }
  }

  /** Counting one more key raises the total of the lines by one exactly
      where the key has its line and passes the filter. */
  lemma {:induction false} TotalOfOneMore(ks: seq<Key>, x: Key, rest: seq<Key>, p: Key -> bool)
    ensures TotalWhere(RowsOf(ks, [x] + rest), p) ==
      (if p(x) then Count(ks, x) else 0) + TotalWhere(RowsOf(ks, rest), p)
  {
    if |ks| > 0 {
      TotalOfOneMore(ks[1..], x, rest, p);
      assert ([x] + rest)[1..] == rest;
    }
  }

  /** Summing the lines of an ascending key list that covers every counted
      key gives the number of counted keys passing the filter. */
  lemma {:induction false} TotalCountsKeys(ks: seq<Key>, counted: seq<Key>, p: Key -> bool)
    requires Ascending(ks)
    requires forall x :: x in counted ==> x in ks
    ensures TotalWhere(RowsOf(ks, counted), p) == CountWhere(counted, p)
  {
    if |counted| == 0 {
      ZeroRows(ks, p);
    } else {
      var x := counted[0];
      var rest := counted[1..];
      assert counted == [x] + rest;
      TotalOfOneMore(ks, x, rest, p);
      CountOnceInAscending(ks, x);
      TotalCountsKeys(ks, rest, p);
    }
  }

  lemma {:induction false} ZeroRows(ks: seq<Key>, p: Key -> bool)
    ensures TotalWhere(RowsOf(ks, []), p) == 0
  {
    if |ks| > 0 {
      ZeroRows(ks[1..], p);
    }
  }

  lemma {:induction false} CountWhereKeys(os: seq<Outcome>, p: Key -> bool, q: Outcome -> bool)
    requires forall o :: q(o) == p(KeyOf(o))
    ensures CountWhere(Keys(os), p) == CountWhere(os, q)
  {
    if |os| > 0 {
      CountWhereKeys(os[1..], p, q);
    }
  }

  /** The intended error total counts the outcomes with an error. */
  lemma TotalErrorsCountErrors(os: seq<Outcome>)
    ensures TotalErrors(Rows(os)) == CountWhere(os, (o: Outcome) => o.error != NoError)
  {
    var ks := Keys(os);
    var pe := (k: Key) => k.1 != "none";
    TotalCountsKeys(SortedKeys(ks), ks, pe);
    CountWhereKeys(os, pe, (o: Outcome) => o.error != NoError);
  }

  /** The intended feed total counts the outcomes without an error. */
  lemma TotalFeedsCountFeeds(os: seq<Outcome>)
    ensures TotalFeeds(Rows(os)) == CountWhere(os, (o: Outcome) => o.error == NoError)
  {
    var ks := Keys(os);
    var pf := (k: Key) => k.1 == "none";
    TotalCountsKeys(SortedKeys(ks), ks, pf);
    CountWhereKeys(os, pf, (o: Outcome) => o.error == NoError);
  }

  /** Every outcome is reported once: the intended totals split the
      outcomes between them. */
  lemma TotalsSplitOutcomes(os: seq<Outcome>)
    ensures TotalErrors(Rows(os)) + TotalFeeds(Rows(os)) == |os|
  {
    TotalErrorsCountErrors(os);
    TotalFeedsCountFeeds(os);
    CountWhereComplement(os);
  }

  lemma {:induction false} CountWhereComplement(os: seq<Outcome>)
    ensures CountWhere(os, (o: Outcome) => o.error != NoError) + CountWhere(os, (o: Outcome) => o.error == NoError) == |os|
  {
    if |os| > 0 {
      CountWhereComplement(os[1..]);
    }
  }

  lemma {:induction false} CountWhereHopperComplement(os: seq<Outcome>)
    ensures CountWhere(os, (o: Outcome) => o.hopper != "none") + CountWhere(os, (o: Outcome) => o.hopper == "none") == |os|
  {
    if |os| > 0 {
      CountWhereHopperComplement(os[1..]);
    }
  }

  /** The totals as written test the hopper id: every outcome counts as an
      error unless its hopper is literally named "none". */
  lemma TotalsAsWrittenTestHopperId(os: seq<Outcome>)
    ensures TotalErrorsAsWritten(Rows(os)) == CountWhere(os, (o: Outcome) => o.hopper != "none")
    ensures TotalFeedsAsWritten(Rows(os)) == CountWhere(os, (o: Outcome) => o.hopper == "none")
  {
    var ks := Keys(os);
    TotalCountsKeys(SortedKeys(ks), ks, (k: Key) => k.0 != "none");
    TotalCountsKeys(SortedKeys(ks), ks, (k: Key) => k.0 == "none");
    CountWhereKeys(os, (k: Key) => k.0 != "none", (o: Outcome) => o.hopper != "none");
    CountWhereKeys(os, (k: Key) => k.0 == "none", (o: Outcome) => o.hopper == "none");
  }

  /** A single successful feeding of hopper "1" is reported as one error and
      no feed by the totals as written; the intended totals say the opposite. */
  lemma SuccessfulFeedCountedAsError()
    ensures TotalErrorsAsWritten(Rows([Outcome("1", 0, NoError)])) == 1
    ensures TotalFeedsAsWritten(Rows([Outcome("1", 0, NoError)])) == 0
    ensures TotalErrors(Rows([Outcome("1", 0, NoError)])) == 0
    ensures TotalFeeds(Rows([Outcome("1", 0, NoError)])) == 1
  {
    var os := [Outcome("1", 0, NoError)];
    TotalsAsWrittenTestHopperId(os);
    TotalErrorsCountErrors(os);
    TotalFeedsCountFeeds(os);
  }
}
