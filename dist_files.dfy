/** Finding the distribution archive: the running maximum over the
    modification times of a glob's files, and the ordered search over
    several glob patterns in which the first pattern that yields a file wins. */
module DistFiles {
  import opened PhpValues

  /** A file a glob returned: its base name and its `filemtime`. */
  datatype Entry = Entry(name: string, mtime: int)

  /** The directory a pattern is looked up in. */
  datatype Dir = DocumentRoot | WorkingDir

  /** A glob pattern: a directory and a file-name mask in it. */
  datatype Pattern = Pattern(dir: Dir, mask: string)

  /** The index the running maximum ends on: the latest time starts at 0 and
      a file replaces the current choice only when its time is strictly
      greater. */
  function NewestIndex(files: seq<Entry>): (r: Option<nat>)
    ensures r.Some? ==> r.value < |files|
    decreases |files|
  {
    if files == [] then None
    else
      var n := |files| - 1;
      var best := NewestIndex(files[..n]);
      if files[n].mtime > LatestTime(files[..n], best) then Some(n) else best
  }

  /** The latest time after a choice: the chosen file's time, or 0. */
  function LatestTime(files: seq<Entry>, choice: Option<nat>): int
    requires choice.Some? ==> choice.value < |files|
  {
    if choice.Some? then files[choice.value].mtime else 0
  }

  /** The name of the file the running maximum chooses, if any. */
  function Newest(files: seq<Entry>): Option<string> {
    match NewestIndex(files)
    case None => None
    case Some(i) => Some(files[i].name)
  }

  /** No file has a positive modification time (an empty list included). */
  predicate NoPositiveTime(files: seq<Entry>) {
    forall j :: 0 <= j < |files| ==> files[j].mtime <= 0
  }

  /** File `i` is the one to choose: its time is positive and maximal, and
      every earlier file is strictly older (the earliest of equal times wins). */
  predicate IsNewest(files: seq<Entry>, i: int) {
    0 <= i < |files| && files[i].mtime > 0 &&
    (forall j :: 0 <= j < |files| ==> files[j].mtime <= files[i].mtime) &&
    (forall j :: 0 <= j < i ==> files[j].mtime < files[i].mtime)
  }

  /** The running maximum chooses exactly the file IsNewest describes, and
      chooses nothing exactly when no time is positive (an empty list included). */
  lemma {:induction false} NewestIndexIsNewest(files: seq<Entry>)
    ensures NewestIndex(files).None? <==> NoPositiveTime(files)
    ensures forall i :: NewestIndex(files) == Some(i) <==> IsNewest(files, i)
    decreases |files|
  {
    if files != [] {
      var n := |files| - 1;
      var prefix := files[..n];
      NewestIndexIsNewest(prefix);
      assert forall j :: 0 <= j < n ==> prefix[j] == files[j];
      var best := NewestIndex(prefix);
      if files[n].mtime > LatestTime(prefix, best) {
        assert IsNewest(files, n);
      } else if best.Some? {
        assert IsNewest(prefix, best.value);
        assert IsNewest(files, best.value);
      } else {
        forall i | 0 <= i <= n ensures !IsNewest(files, i) {
          assert files[i].mtime <= 0;
        }
      }
    }
  }

  /** Nothing is chosen exactly when no time is positive. */
  lemma NewestIsNoneIff(files: seq<Entry>)
    ensures Newest(files).None? <==> NoPositiveTime(files)
  {
    NewestIndexIsNewest(files);
  }

  /** A chosen name belongs to a file of the list with the greatest time,
      and no earlier file has that time. */
  lemma {:induction false} ChosenIsNewestMember(files: seq<Entry>, name: string)
    requires Newest(files) == Some(name)
    ensures exists i :: IsNewest(files, i) && files[i].name == name
  {
    NewestIndexIsNewest(files);
    var i := NewestIndex(files).value;
    assert IsNewest(files, i);
  }

  /** The loop that picks the most recently modified file. */
  method SelectNewest(files: seq<Entry>) returns (latest: Option<string>)
    ensures latest == Newest(files)
    ensures latest.None? <==> NoPositiveTime(files)
    ensures latest.Some? ==> exists i :: IsNewest(files, i) && files[i].name == latest.value
  {
    latest := None;
    var latestTime := 0;
    ghost var choice: Option<nat> := None;
    for i := 0 to |files|
      invariant choice == NewestIndex(files[..i])
      invariant choice.Some? ==> choice.value < i
      invariant latestTime == LatestTime(files[..i], choice)
      invariant latest == if choice.Some? then Some(files[choice.value].name) else None
    {
      assert files[..i + 1][..i] == files[..i];
      if files[i].mtime > latestTime {
        latestTime := files[i].mtime;
        latest := Some(files[i].name);
        choice := Some(i);
      }
    }
    assert files[..|files|] == files;
    NewestIndexIsNewest(files);
    if latest.Some? {
      ChosenIsNewestMember(files, latest.value);
    }
  }

  // ---------------------------------------------------------------------
  // Ordered pattern search

  /** The first pattern, in order, whose files yield a choice gives the
      result; the later patterns are not looked at. */
  function FirstNewest(glob: Pattern -> seq<Entry>, patterns: seq<Pattern>): Option<string>
    decreases |patterns|
  {
    if patterns == [] then None
    else
      match Newest(glob(patterns[0]))
      case Some(f) => Some(f)
      case None => FirstNewest(glob, patterns[1..])
  }

  /** Pattern `k` is the first one whose files yield a choice. */
  predicate FirstHit(glob: Pattern -> seq<Entry>, patterns: seq<Pattern>, k: int) {
    0 <= k < |patterns| && Newest(glob(patterns[k])).Some? &&
    forall j :: 0 <= j < k ==> Newest(glob(patterns[j])).None?
  }

  /** The search yields the choice of the first pattern that has one, and
      nothing exactly when no pattern has one. */
  lemma {:induction false} FirstNewestIsFirstHit(glob: Pattern -> seq<Entry>, patterns: seq<Pattern>)
    ensures FirstNewest(glob, patterns).None? <==>
      forall k :: 0 <= k < |patterns| ==> Newest(glob(patterns[k])).None?
    ensures forall k :: FirstHit(glob, patterns, k) ==> FirstNewest(glob, patterns) == Newest(glob(patterns[k]))
    decreases |patterns|
  {
    if patterns != [] {
      var rest := patterns[1..];
      FirstNewestIsFirstHit(glob, rest);
      assert forall k :: 1 <= k < |patterns| ==> patterns[k] == rest[k - 1];
      forall k | FirstHit(glob, patterns, k)
        ensures FirstNewest(glob, patterns) == Newest(glob(patterns[k]))
      {
        if k > 0 {
          assert FirstHit(glob, rest, k - 1);
        }
      }
    }
  }

  /** Once pattern `k` yields a file, what the later patterns would have
      matched does not change the result. */
  lemma {:induction false} LaterPatternsNotConsulted(
    glob: Pattern -> seq<Entry>, other: Pattern -> seq<Entry>, patterns: seq<Pattern>, k: nat)
    requires FirstHit(glob, patterns, k)
    requires forall j :: 0 <= j <= k ==> other(patterns[j]) == glob(patterns[j])
    ensures FirstNewest(other, patterns) == FirstNewest(glob, patterns)
    decreases |patterns|
  {
    if k > 0 {
      var rest := patterns[1..];
      assert FirstHit(glob, rest, k - 1) by {
        forall j | 0 <= j < k - 1 ensures Newest(glob(rest[j])).None? {
          assert rest[j] == patterns[j + 1];
        }
      }
      assert Newest(other(patterns[0])).None?;
      LaterPatternsNotConsulted(glob, other, rest, k - 1);
    }
  }

  /** The loop over the patterns, with its early `break`. */
  method SearchPatterns(glob: Pattern -> seq<Entry>, patterns: seq<Pattern>) returns (distFile: Option<string>)
    ensures distFile == FirstNewest(glob, patterns)
  {
    distFile := None;
    var i := 0;
    while i < |patterns|
      invariant 0 <= i <= |patterns|
      invariant distFile == None
      invariant FirstNewest(glob, patterns) == FirstNewest(glob, patterns[i..])
    {
      assert patterns[i..][1..] == patterns[i + 1..];
      var distFiles := glob(patterns[i]);
      if distFiles != [] {
        var latest := SelectNewest(distFiles);
        if latest.Some? {
          distFile := latest;
          break;
        }
      }
      i := i + 1;
    }
  }
}
