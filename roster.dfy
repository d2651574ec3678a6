/**
 * The class roster: every sub-directory of the known-faces directory names one
 * student. The directory listing is an input sequence in listing order; each
 * entry carries its name and whether it is itself a directory.
 */
module Roster {

  datatype Entry = Entry(name: string, isDir: bool)

  /** The names of the directory entries of `listing`, in listing order. */
  function DirNames(listing: seq<Entry>): (names: seq<string>)
    ensures |names| <= |listing|
  {
    if listing == [] then []
    else (if listing[0].isDir then [listing[0].name] else []) + DirNames(listing[1..])
  }

  /** Some entry of the listing is a directory. */
  predicate HasDir(listing: seq<Entry>)
  {
    exists k :: 0 <= k < |listing| && listing[k].isDir
  }

  /** Filtering a listing split in two is filtering each part: the order of the listing is kept. */
  lemma {:induction false} DirNamesAppend(a: seq<Entry>, b: seq<Entry>)
    ensures DirNames(a + b) == DirNames(a) + DirNames(b)
  {
    if a != [] {
      assert (a + b)[1..] == a[1..] + b;
      DirNamesAppend(a[1..], b);
    } else {
      assert a + b == b;
    }
  }

  /** A name is on the roster exactly when some directory entry carries it. */
  lemma {:induction false} DirNamesMember(listing: seq<Entry>, x: string)
    ensures x in DirNames(listing) <==> exists k :: 0 <= k < |listing| && listing[k].isDir && listing[k].name == x
  {
    if listing != [] {
      DirNamesMember(listing[1..], x);
      if x in DirNames(listing[1..]) {
        var k :| 0 <= k < |listing[1..]| && listing[1..][k].isDir && listing[1..][k].name == x;
        assert listing[k + 1].isDir && listing[k + 1].name == x;
      }
      if exists k :: 0 <= k < |listing| && listing[k].isDir && listing[k].name == x {
        var k :| 0 <= k < |listing| && listing[k].isDir && listing[k].name == x;
        if k > 0 {
          assert listing[1..][k - 1] == listing[k];
        }
      }
    }
  }

  /** The roster is empty exactly when no entry of the listing is a directory. */
  lemma {:induction false} DirNamesEmpty(listing: seq<Entry>)
    ensures DirNames(listing) == [] <==> !HasDir(listing)
  {
    if listing != [] {
      DirNamesEmpty(listing[1..]);
      if HasDir(listing[1..]) {
        var k :| 0 <= k < |listing[1..]| && listing[1..][k].isDir;
        assert listing[k + 1].isDir;
      }
      if HasDir(listing) && !listing[0].isDir {
        var k :| 0 <= k < |listing| && listing[k].isDir;
        assert listing[1..][k - 1].isDir;
      }
    }
  }

  /**
   * Builds the roster the way the dashboard does: nothing when the known-faces
   * directory is missing, otherwise every directory entry's name, appended in
   * listing order.
   */
  method LoadStudents(rootIsDir: bool, listing: seq<Entry>) returns (students: seq<string>)
    ensures students == if rootIsDir then DirNames(listing) else []
  {
    students := [];
    if rootIsDir {
      var i := 0;
      while i < |listing|
        invariant 0 <= i <= |listing|
        invariant students == DirNames(listing[..i])
      {
        DirNamesAppend(listing[..i], [listing[i]]);
        assert listing[..i + 1] == listing[..i] + [listing[i]];
        if listing[i].isDir {
          students := students + [listing[i].name];
        }
        i := i + 1;
      }
      assert listing[..i] == listing;
    }
  }
}
