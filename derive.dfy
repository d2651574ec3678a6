/**
 * The calculated columns of the attendance table (Status and Missing
 * minutes) and the summary counts shown above it.
 */
module Derive {
  import opened Merge

  /** The class lasts 300 minutes (5 hours). */
  const ClassDurationMinutes: real := 300.0

  /** The two labels of the Status column ("Present ✅" and "Absent ❌"). */
  datatype Status = Present | Absent

  /** One row of the attendance table. */
  datatype Row = Row(name: string, seconds: real, minutes: real, status: Status, missing: real)

  /** `x` is a whole number of tenths. */
  predicate IsTenths(x: real)
  {
    (x * 10.0).Floor as real == x * 10.0
  }

  /** A whole number of tenths, written as a real, is a whole number of tenths. */
  lemma TenthsOfInt(n: int)
    ensures n as real / 10.0 * 10.0 == n as real
    ensures IsTenths(n as real / 10.0)
  {
    assert n as real / 10.0 * 10.0 == n as real;
    assert (n as real).Floor == n;
  }

  /**
   * Rounding a real to the nearest integer, ties going to the even integer
   * (the rounding numpy applies).
   */
  function RoundHalfEven(t: real): (n: int)
    ensures -0.5 <= n as real - t <= 0.5
    ensures (n as real - t == 0.5 || t - n as real == 0.5) ==> n % 2 == 0
    ensures t.Floor as real == t ==> n as real == t
    ensures t >= 0.0 ==> n >= 0
  {
    var f := t.Floor;
    var d := t - f as real;
    if d < 0.5 then f else if d > 0.5 then f + 1 else if f % 2 == 0 then f else f + 1
  }

  /**
   * Rounding to one decimal place: the nearest whole number of tenths, ties
   * going to the even number of tenths, computed exactly on reals.
   */
  function RoundTenth(x: real): (r: real)
    ensures IsTenths(r)
    ensures -0.05 <= r - x <= 0.05
    ensures (r - x == 0.05 || x - r == 0.05) ==> (r * 10.0).Floor % 2 == 0
    ensures IsTenths(x) ==> r == x
    ensures x >= 0.0 ==> r >= 0.0
  {
    var n := RoundHalfEven(x * 10.0);
    TenthsOfInt(n);
    n as real / 10.0
  }

  /**
   * The Missing (Minutes) column: the class duration minus the minutes spent,
   * clipped below at 0, then rounded to one decimal place.
   */
  function MissingMinutes(minutes: real): (r: real)
    ensures r >= 0.0
    ensures IsTenths(r)
    ensures minutes >= ClassDurationMinutes ==> r == 0.0
    ensures minutes < ClassDurationMinutes ==> -0.05 <= r - (ClassDurationMinutes - minutes) <= 0.05
  {
    var shortfall := ClassDurationMinutes - minutes;
    RoundTenth(if shortfall < 0.0 then 0.0 else shortfall)
  }

  /** On a whole number of tenths of minutes, the rounding is exact. */
  lemma MissingMinutesExact(minutes: real)
    requires IsTenths(minutes) && minutes <= ClassDurationMinutes
    ensures MissingMinutes(minutes) == ClassDurationMinutes - minutes
  {
    var k := (minutes * 10.0).Floor;
    var shortfall := ClassDurationMinutes - minutes;
    assert shortfall == (3000 - k) as real / 10.0;
    TenthsOfInt(3000 - k);
    assert RoundTenth(shortfall) == shortfall;
  }

  /** The Status of a row: Present for any positive number of minutes, otherwise Absent. */
  function StatusOf(minutes: real): (s: Status)
    ensures s == Present <==> minutes > 0.0
    ensures s == Absent <==> minutes <= 0.0
  {
    if minutes > 0.0 then Present else Absent
  }

  /** A joined row with its Status and Missing columns added. */
  function DeriveRow(m: Record): (row: Row)
    ensures row.name == m.name && row.seconds == m.seconds && row.minutes == m.minutes
    ensures row.status == Present <==> m.minutes > 0.0
    ensures row.status == Absent <==> m.minutes <= 0.0
    ensures row.missing == MissingMinutes(m.minutes)
    ensures row.missing >= 0.0
    ensures m.minutes >= ClassDurationMinutes ==> row.missing == 0.0
  {
    Row(m.name, m.seconds, m.minutes, StatusOf(m.minutes), MissingMinutes(m.minutes))
  }

  /** The whole attendance table: the joined rows with the calculated columns. */
  function Reconcile(roster: seq<string>, records: seq<Record>): (rows: seq<Row>)
    ensures |rows| == |LeftMerge(roster, records)| >= |roster|
    ensures forall i :: 0 <= i < |rows| ==>
      && (rows[i].status == Present <==> rows[i].minutes > 0.0)
      && rows[i].missing == MissingMinutes(rows[i].minutes)
      && rows[i].missing >= 0.0
  {
    var merged := LeftMerge(roster, records);
    seq(|merged|, i requires 0 <= i < |merged| => DeriveRow(merged[i]))
  }

  /**
   * The attendance table keeps, row for row, the joined rows: every row's
   * name is on the roster, every roster name has at least one row, and each
   * row carries the seconds and minutes of its joined row, its Status and
   * its Missing minutes.
   */
  lemma ReconcileRows(roster: seq<string>, records: seq<Record>)
    ensures |Reconcile(roster, records)| == |LeftMerge(roster, records)| >= |roster|
    ensures forall i :: 0 <= i < |Reconcile(roster, records)| ==>
      var row := Reconcile(roster, records)[i];
      && row.name in roster
      && row.name == LeftMerge(roster, records)[i].name
      && row.seconds == LeftMerge(roster, records)[i].seconds
      && row.minutes == LeftMerge(roster, records)[i].minutes
      && (row.status == Present <==> row.minutes > 0.0)
      && row.missing == MissingMinutes(row.minutes)
    ensures forall n :: n in roster ==>
      exists i :: 0 <= i < |Reconcile(roster, records)| && Reconcile(roster, records)[i].name == n
  {
    var merged := LeftMerge(roster, records);
    var rows := Reconcile(roster, records);
    forall n | n in roster
      ensures exists i :: 0 <= i < |rows| && rows[i].name == n
    {
      LeftMergeCoversRoster(roster, records, n);
      var row :| row in merged && row.name == n;
      var i :| 0 <= i < |merged| && merged[i] == row;
      assert rows[i].name == n;
    }
  }

  /**
   * With unique record names the table has exactly one row per roster name,
   * in roster order, carrying the minutes of that name's record or 0.
   */
  lemma ReconcileUnique(roster: seq<string>, records: seq<Record>)
    requires UniqueNames(records)
    ensures |Reconcile(roster, records)| == |roster|
    ensures forall i :: 0 <= i < |roster| ==> Reconcile(roster, records)[i].name == roster[i]
    ensures forall i, r :: 0 <= i < |roster| && r in records && r.name == roster[i] ==>
      Reconcile(roster, records)[i].minutes == r.minutes
    ensures forall i :: 0 <= i < |roster| && !HasMatch(roster[i], records) ==>
      Reconcile(roster, records)[i] == Row(roster[i], 0.0, 0.0, Absent, ClassDurationMinutes)
  {
    LeftMergeUnique(roster, records);
  }

  /** Without any tracked record every student is Absent with the whole class missing. */
  lemma ReconcileNoRecords(roster: seq<string>)
    ensures Reconcile(roster, []) == seq(|roster|, i requires 0 <= i < |roster| => Row(roster[i], 0.0, 0.0, Absent, ClassDurationMinutes))
  {
    LeftMergeNoRecords(roster);
  }

  /** The summary metrics: total rows, rows Present, rows Absent. */
  datatype Summary = Summary(total: nat, present: nat, absent: nat)

  /** The number of rows whose Status is `s`. */
  function CountStatus(rows: seq<Row>, s: Status): (n: nat)
    ensures n <= |rows|
  {
    if rows == [] then 0
    else (if rows[0].status == s then 1 else 0) + CountStatus(rows[1..], s)
  }

  function Summarize(rows: seq<Row>): (summary: Summary)
    ensures summary.total == |rows|
    ensures summary.present + summary.absent == summary.total
  {
    SummaryBalanced(rows);
    Summary(|rows|, CountStatus(rows, Present), CountStatus(rows, Absent))
  }

  /** Present and Absent together account for every row. */
  lemma {:induction false} SummaryBalanced(rows: seq<Row>)
    ensures CountStatus(rows, Present) + CountStatus(rows, Absent) == |rows|
  {
    if rows != [] {
      SummaryBalanced(rows[1..]);
    }
  }

  /** Without any tracked record the summary shows everybody Absent. */
  lemma SummaryNoRecords(roster: seq<string>)
    ensures Summarize(Reconcile(roster, [])) == Summary(|roster|, 0, |roster|)
  {
    ReconcileNoRecords(roster);
    AllAbsentCounts(Reconcile(roster, []));
  }

  /** A table whose rows are all Absent counts no Present and every row Absent. */
  lemma {:induction false} AllAbsentCounts(rows: seq<Row>)
    requires forall i :: 0 <= i < |rows| ==> rows[i].status == Absent
    ensures CountStatus(rows, Present) == 0 && CountStatus(rows, Absent) == |rows|
  {
    if rows != [] {
      AllAbsentCounts(rows[1..]);
    }
  }

  /** A worked example: one matched record, one unmatched roster name, one record for nobody on the roster. */
  lemma MatchedUnmatchedAndStray()
    ensures Reconcile(["Alice", "Bob"], [Record("Alice", 5400.0, 90.0), Record("Ghost", 100.0, 1.0)])
         == [Row("Alice", 5400.0, 90.0, Present, 210.0), Row("Bob", 0.0, 0.0, Absent, 300.0)]
  {
    var records := [Record("Alice", 5400.0, 90.0), Record("Ghost", 100.0, 1.0)];
    assert UniqueNames(records);
    ReconcileUnique(["Alice", "Bob"], records);
    assert !HasMatch("Bob", records);
    MissingMinutesExact(90.0);
  }
}
