/**
 * Picking the photo shown beside a student: the first file of the student's
 * directory, in listing order, whose lower-cased name ends in ".jpg", ".jpeg"
 * or ".png".
 */
module Photo {
  import opened Common

  /** Lower-casing of one character; only the ASCII letters A to Z change. */
  function LowerChar(c: char): (d: char)
    ensures 'A' <= c <= 'Z' ==> 'a' <= d <= 'z' && d as int - c as int == 32
    ensures !('A' <= c <= 'Z') ==> d == c
    ensures !('A' <= d <= 'Z')
  {
    if 'A' <= c <= 'Z' then (c as int + 32) as char else c
  }

  function Lower(s: string): (t: string)
    ensures |t| == |s|
    ensures forall i :: 0 <= i < |s| ==> t[i] == LowerChar(s[i])
  {
    seq(|s|, i requires 0 <= i < |s| => LowerChar(s[i]))
  }

  predicate EndsWith(s: string, suffix: string)
  {
    |suffix| <= |s| && s[|s| - |suffix|..] == suffix
  }

  /** The file name qualifies as a photo. */
  predicate IsImageFile(f: string)
  {
    var l := Lower(f);
    EndsWith(l, ".jpg") || EndsWith(l, ".jpeg") || EndsWith(l, ".png")
  }

  /** Lower-casing twice is lower-casing once. */
  lemma LowerIdempotent(s: string)
    ensures Lower(Lower(s)) == Lower(s)
  {
  }

  /** Whether a name qualifies does not depend on the case of its letters. */
  lemma ImageTestIgnoresCase(f: string)
    ensures IsImageFile(Lower(f)) == IsImageFile(f)
  {
    LowerIdempotent(f);
  }

  /** The first file of `files` that qualifies as a photo, if any. */
  function FirstImage(files: seq<string>): (photo: Option<string>)
    ensures photo.Some? ==> photo.value in files && IsImageFile(photo.value)
  {
    if files == [] then None
    else if IsImageFile(files[0]) then Some(files[0])
    else FirstImage(files[1..])
  }

  /**
   * A photo is found exactly when some file qualifies, and then it is the
   * earliest file in the listing that qualifies.
   */
  lemma {:induction false} FirstImageSpec(files: seq<string>)
    ensures FirstImage(files).None? <==> forall k :: 0 <= k < |files| ==> !IsImageFile(files[k])
    ensures FirstImage(files).Some? ==>
      exists k :: 0 <= k < |files| && files[k] == FirstImage(files).value && IsImageFile(files[k])
                  && forall j :: 0 <= j < k ==> !IsImageFile(files[j])
  {
    if files != [] && !IsImageFile(files[0]) {
      FirstImageSpec(files[1..]);
      if FirstImage(files).Some? {
        var k :| 0 <= k < |files[1..]| && files[1..][k] == FirstImage(files).value && IsImageFile(files[1..][k])
                 && forall j :: 0 <= j < k ==> !IsImageFile(files[1..][j]);
        assert files[k + 1] == FirstImage(files).value;
        forall j | 0 <= j < k + 1 ensures !IsImageFile(files[j]) {
          if j > 0 {
            assert files[j] == files[1..][j - 1];
          }
        }
      }
      forall k | 0 < k < |files| ensures files[k] == files[1..][k - 1] {
      }
    }
  }

  /**
   * The photo loop of the dashboard: nothing when the student's directory is
   * missing, otherwise scan the listing and stop at the first file that
   * qualifies.
   */
  method PickPhoto(dirExists: bool, files: seq<string>) returns (photo: Option<string>)
    ensures photo == if dirExists then FirstImage(files) else None
  {
    photo := None;
    if dirExists {
      var i := 0;
      while i < |files|
        invariant 0 <= i <= |files|
        invariant FirstImage(files) == FirstImage(files[i..])
      {
        if IsImageFile(files[i]) {
          photo := Some(files[i]);
          break;
        }
        assert files[i..][1..] == files[i + 1..];
        i := i + 1;
      }
    }
  }
}
