/**
 * One run of the attendance dashboard, with the filesystem and the CSV file
 * given as inputs: load the roster, stop when it is empty, read the tracked
 * records (none when the CSV file is absent), build the attendance table and
 * its summary, and pick the photo of every row.
 */
module Dashboard {
  import opened Common
  import opened Roster
  import opened Merge
  import opened Derive
  import opened Photo

  /** Why a run stops before showing anything. */
  datatype Error = NoStudents

  /** What a run shows: the table, its summary counts and one photo per row. */
  datatype Report = Report(rows: seq<Row>, summary: Summary, photos: seq<Option<string>>)

  /** The tracked records: the CSV contents, or none when the file does not exist. */
  function TrackedRecords(csv: Option<seq<Record>>): (records: seq<Record>)
    ensures csv.None? ==> records == []
    ensures csv.Some? ==> records == csv.value
  {
    match csv
    case None => []
    case Some(rs) => rs
  }

  /** The photo of one student, given the listings of the students' directories (a name absent from `dirs` has no directory). */
  function PhotoOf(name: string, dirs: map<string, seq<string>>): (photo: Option<string>)
    ensures name !in dirs ==> photo.None?
    ensures photo.Some? ==> name in dirs && photo.value in dirs[name] && IsImageFile(photo.value)
  {
    if name in dirs then FirstImage(dirs[name]) else None
  }

  /** The table loop: pick the photo of every row, in row order. */
  method PickPhotos(rows: seq<Row>, dirs: map<string, seq<string>>) returns (photos: seq<Option<string>>)
    ensures |photos| == |rows|
    ensures forall i :: 0 <= i < |rows| ==> photos[i] == PhotoOf(rows[i].name, dirs)
  {
    photos := [];
    var i := 0;
    while i < |rows|
      invariant 0 <= i <= |rows|
      invariant |photos| == i
      invariant forall j :: 0 <= j < i ==> photos[j] == PhotoOf(rows[j].name, dirs)
    {
      var name := rows[i].name;
      var photo := PickPhoto(name in dirs, if name in dirs then dirs[name] else []);
      photos := photos + [photo];
      i := i + 1;
    }
  }

  /**
   * A whole run. It stops with NoStudents exactly when the known-faces
   * directory is missing or holds no sub-directory; otherwise it shows the
   * reconciled table of the roster against the tracked records, its summary
   * and the photos.
   */
  method Run(rootIsDir: bool, listing: seq<Entry>, csv: Option<seq<Record>>, dirs: map<string, seq<string>>)
    returns (outcome: Result<Report, Error>)
    ensures outcome.Failure? <==> !rootIsDir || !HasDir(listing)
    ensures outcome.Failure? ==> outcome.error == NoStudents
    ensures outcome.Success? ==>
      && outcome.value.rows == Reconcile(DirNames(listing), TrackedRecords(csv))
      && outcome.value.summary == Summarize(outcome.value.rows)
      && |outcome.value.photos| == |outcome.value.rows|
      && forall i :: 0 <= i < |outcome.value.rows| ==>
           outcome.value.photos[i] == PhotoOf(outcome.value.rows[i].name, dirs)
  {
    var students := LoadStudents(rootIsDir, listing);
    DirNamesEmpty(listing);
    if students == [] {
      return Failure(NoStudents);
    }
    var records := TrackedRecords(csv);
    var rows := Reconcile(students, records);
    var summary := Summarize(rows);
    var photos := PickPhotos(rows, dirs);
    outcome := Success(Report(rows, summary, photos));
  }

  /**
   * On a run that goes through, the summary is balanced, and on a "day zero"
   * run without a CSV file every student is listed once as Absent.
   */
  lemma RunSummary(rootIsDir: bool, listing: seq<Entry>, csv: Option<seq<Record>>)
    requires rootIsDir && HasDir(listing)
    ensures var rows := Reconcile(DirNames(listing), TrackedRecords(csv));
      Summarize(rows).present + Summarize(rows).absent == Summarize(rows).total >= |DirNames(listing)| > 0
    ensures csv.None? ==> Summarize(Reconcile(DirNames(listing), TrackedRecords(csv)))
                          == Summary(|DirNames(listing)|, 0, |DirNames(listing)|)
  {
    var roster := DirNames(listing);
    DirNamesEmpty(listing);
    ReconcileRows(roster, TrackedRecords(csv));
    SummaryBalanced(Reconcile(roster, TrackedRecords(csv)));
    if csv.None? {
      SummaryNoRecords(roster);
    }
  }
}
