/**
 * The left join of the roster onto the tracked records (a pandas
 * `merge(..., how="left")` on the name column), followed by filling the
 * seconds and minutes of unmatched roster names with zero.
 */
module Merge {

  /** One tracked record: a name, the seconds and the minutes spent in class. */
  datatype Record = Record(name: string, seconds: real, minutes: real)

  /** The row a roster name without any tracked record receives once its gaps are filled with 0. */
  function ZeroRow(name: string): Record
  {
    Record(name, 0.0, 0.0)
  }

  /** Some record is named `name`. */
  predicate HasMatch(name: string, records: seq<Record>)
  {
    exists r :: r in records && r.name == name
  }

  /** No two records carry the same name. */
  predicate UniqueNames(records: seq<Record>)
  {
    forall i, j :: 0 <= i < j < |records| ==> records[i].name != records[j].name
  }

  /** The records named `name`, in record order. */
  function Matches(name: string, records: seq<Record>): (m: seq<Record>)
    ensures |m| <= |records|
    ensures forall r :: r in m <==> r in records && r.name == name
  {
    if records == [] then []
    else (if records[0].name == name then [records[0]] else []) + Matches(name, records[1..])
  }

  /**
   * The rows the join gives one roster name: every record with that name in
   * record order, or a single zero-filled row when there is none.
   */
  function RowsFor(name: string, records: seq<Record>): (rows: seq<Record>)
    ensures |rows| >= 1
    ensures forall row :: row in rows ==> row.name == name
    ensures HasMatch(name, records) ==> forall r :: r in rows <==> r in records && r.name == name
    ensures !HasMatch(name, records) ==> rows == [ZeroRow(name)]
  {
    var m := Matches(name, records);
    if m == [] then [ZeroRow(name)] else assert m[0] in m; m
  }

  /** The left join of `roster` onto `records`, unmatched names filled with 0. */
  function LeftMerge(roster: seq<string>, records: seq<Record>): (rows: seq<Record>)
    ensures |rows| >= |roster|
    ensures forall row :: row in rows ==> row.name in roster
    ensures forall n :: n in roster && !HasMatch(n, records) ==> ZeroRow(n) in rows
  {
    if roster == [] then []
    else RowsFor(roster[0], records) + LeftMerge(roster[1..], records)
  }

  /** The matches in a record list split in two are those of the first part followed by those of the second: record order is kept. */
  lemma {:induction false} MatchesAppend(name: string, a: seq<Record>, b: seq<Record>)
    ensures Matches(name, a + b) == Matches(name, a) + Matches(name, b)
  {
    if a == [] {
      assert a + b == b;
    } else {
      assert (a + b)[1..] == a[1..] + b;
      MatchesAppend(name, a[1..], b);
    }
  }

  /** Every roster name has at least one row in the join: its records, or its zero-filled row. */
  lemma LeftMergeCoversRoster(roster: seq<string>, records: seq<Record>, n: string)
    requires n in roster
    ensures exists row :: row in LeftMerge(roster, records) && row.name == n
  {
    if HasMatch(n, records) {
      var r :| r in records && r.name == n;
      LeftMergeKeepsMatches(roster, records, r);
    } else {
      assert ZeroRow(n) in LeftMerge(roster, records);
    }
  }

  /** Joining a roster split in two is joining each part: rows follow roster order. */
  lemma {:induction false} LeftMergeAppend(a: seq<string>, b: seq<string>, records: seq<Record>)
    ensures LeftMerge(a + b, records) == LeftMerge(a, records) + LeftMerge(b, records)
  {
    if a == [] {
      assert a + b == b;
    } else {
      assert (a + b)[1..] == a[1..] + b;
      LeftMergeAppend(a[1..], b, records);
    }
  }

  /**
   * Every joined row is either a record whose name is on the roster, or the
   * zero-filled row of a roster name that no record carries. In particular a
   * record whose name is not on the roster never appears.
   */
  lemma {:induction false} LeftMergeOrigin(roster: seq<string>, records: seq<Record>, row: Record)
    requires row in LeftMerge(roster, records)
    ensures row.name in roster
    ensures (row in records && row.name in roster)
         || (row == ZeroRow(row.name) && !HasMatch(row.name, records))
  {
    if row !in RowsFor(roster[0], records) {
      LeftMergeOrigin(roster[1..], records, row);
    }
  }

  /** Every record whose name is on the roster appears among the joined rows. */
  lemma {:induction false} LeftMergeKeepsMatches(roster: seq<string>, records: seq<Record>, r: Record)
    requires r in records && r.name in roster
    ensures r in LeftMerge(roster, records)
  {
    if roster[0] == r.name {
      assert r in RowsFor(roster[0], records);
    } else {
      LeftMergeKeepsMatches(roster[1..], records, r);
    }
  }

  /** A name that no record carries has no matches. */
  lemma {:induction false} NoMatchNoMatches(name: string, records: seq<Record>)
    requires !HasMatch(name, records)
    ensures Matches(name, records) == []
  {
    if records != [] {
      assert records[0] in records;
      NoMatchNoMatches(name, records[1..]);
    }
  }

  /** With unique record names, each name has at most one match. */
  lemma {:induction false} MatchesAtMostOne(name: string, records: seq<Record>)
    requires UniqueNames(records)
    ensures |Matches(name, records)| <= 1
  {
    if records != [] {
      var rest := records[1..];
      assert UniqueNames(rest) by {
        forall i, j | 0 <= i < j < |rest| ensures rest[i].name != rest[j].name {
          assert rest[i] == records[i + 1] && rest[j] == records[j + 1];
        }
      }
      MatchesAtMostOne(name, rest);
      if records[0].name == name {
        forall r | r in rest ensures r.name != name {
          var k :| 0 <= k < |rest| && rest[k] == r;
          assert records[k + 1] == r;
        }
        NoMatchNoMatches(name, rest);
      }
    }
  }

  /** With unique record names, a roster name gets exactly its one record, or the zero row. */
  lemma RowsForUnique(name: string, records: seq<Record>)
    requires UniqueNames(records)
    ensures |RowsFor(name, records)| == 1
    ensures forall r :: r in records && r.name == name ==> RowsFor(name, records) == [r]
  {
    MatchesAtMostOne(name, records);
    forall r | r in records && r.name == name ensures RowsFor(name, records) == [r] {
      assert r in Matches(name, records);
    }
  }

  /**
   * With unique record names the join has exactly one row per roster name, in
   * roster order: the record of that name when there is one, otherwise the
   * zero-filled row.
   */
  lemma {:induction false} LeftMergeUnique(roster: seq<string>, records: seq<Record>)
    requires UniqueNames(records)
    ensures |LeftMerge(roster, records)| == |roster|
    ensures forall i :: 0 <= i < |roster| ==> LeftMerge(roster, records)[i].name == roster[i]
    ensures forall i, r :: 0 <= i < |roster| && r in records && r.name == roster[i] ==> LeftMerge(roster, records)[i] == r
    ensures forall i :: 0 <= i < |roster| && !HasMatch(roster[i], records) ==> LeftMerge(roster, records)[i] == ZeroRow(roster[i])
  {
    if roster != [] {
      RowsForUnique(roster[0], records);
      LeftMergeUnique(roster[1..], records);
      var rows := LeftMerge(roster, records);
      assert rows == RowsFor(roster[0], records) + LeftMerge(roster[1..], records);
      forall i | 0 < i < |roster| ensures rows[i] == LeftMerge(roster[1..], records)[i - 1] {
      }
    }
  }

  /**
   * When the same name is on several records, the join gives that roster name
   * one row per record, in record order, between the rows of the names before
   * and after it.
   */
  lemma DuplicatesGiveOneRowPerRecord(before: seq<string>, name: string, after: seq<string>, records: seq<Record>)
    requires HasMatch(name, records)
    ensures LeftMerge(before + [name] + after, records)
         == LeftMerge(before, records) + Matches(name, records) + LeftMerge(after, records)
  {
    LeftMergeAppend(before + [name], after, records);
    LeftMergeAppend(before, [name], records);
    var m := Matches(name, records);
    var r :| r in records && r.name == name;
    assert r in m;
    calc {
      LeftMerge([name], records);
      RowsFor(name, records) + LeftMerge([name][1..], records);
      { assert [name][1..] == []; }
      RowsFor(name, records);
      m;
    }
  }

  /** Without any tracked record every roster name gets its zero-filled row. */
  lemma {:induction false} LeftMergeNoRecords(roster: seq<string>)
    ensures LeftMerge(roster, []) == seq(|roster|, i requires 0 <= i < |roster| => ZeroRow(roster[i]))
  {
    if roster != [] {
      LeftMergeNoRecords(roster[1..]);
      assert !HasMatch(roster[0], []);
    }
  }
}
