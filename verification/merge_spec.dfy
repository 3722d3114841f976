/**
 * What one press of "Merge Files" (`merge_files` in smerge.py) does, as
 * functions of the selection, the output directory, the text of the
 * file-name entry and the disk: the output path it picks, the progress it
 * reports, and the bytes it writes.
 */
module MergeSpec {
  import opened Paths

  type Bytes = seq<bv8>

  /** The file system as the merger sees it: the readable files and their
      contents, and the paths that cannot be opened for writing. */
  datatype Disk = Disk(files: map<string, Bytes>, unwritable: set<string>)

  /** The file name used when the entry is left empty. */
  const DEFAULT_NAME: string := "merged_audio"

  // ----- output path -----

  /** The text of the entry, or `merged_audio` when it is empty. */
  function OutputName(entry: string): string {
    if entry == [] then DEFAULT_NAME else entry
  }

  /** `os.path.join(output_path, f"{name}{splitext(first)[1]}")`. */
  function OutputPath(dir: string, entry: string, first: string): string {
    Join(dir, OutputName(entry) + Extension(first))
  }

  /** The output file lands in the directory of the first selected file,
      is called after the entry (or `merged_audio`) followed by the
      extension of the first selected file, which thus becomes its own
      extension unless the name is only dots; an entry starting with `/` is
      an absolute path and replaces the directory. */
  lemma OutputPathLayout(first: string, entry: string)
    ensures OutputName(entry) != [] && (entry != [] ==> OutputName(entry) == entry)
    ensures var path := OutputPath(Dirname(first), entry, first);
      && (SEP !in entry ==>
            Basename(path) == OutputName(entry) + Extension(first) && Dirname(path) == Dirname(first))
      && ((SEP !in entry && Extension(first) != []
           && exists j :: 0 <= j < |OutputName(entry)| && OutputName(entry)[j] != '.')
            ==> Extension(path) == Extension(first))
      && (entry != [] && entry[0] == SEP ==> path == entry + Extension(first))
  {
    var name := OutputName(entry);
    var e := Extension(first);
    assert SEP !in DEFAULT_NAME && DEFAULT_NAME[0] != '.';
    SplitextParts(first);
    if SEP !in entry {
      assert SEP !in name + e by {
        forall i | 0 <= i < |name + e| ensures (name + e)[i] != SEP {
          if i >= |name| { assert (name + e)[i] == e[i - |name|]; }
        }
      }
      JoinDirname(first, name + e);
      if e != [] && exists j :: 0 <= j < |name| && name[j] != '.' {
        ExtensionOfJoin(Dirname(first), name, e);
      }
    }
  }

  // ----- progress -----

  /** What the status label says: nothing yet, "Preparing to merge...",
      "Creating output file...", "Processing file `index` of `count`:
      <base name of `file`>", "Finalizing...", "Merge complete!" or
      "Error occurred during merge". */
  datatype Status =
    | Idle
    | Preparing
    | Creating
    | Processing(index: nat, count: nat, file: string)
    | Finalizing
    | Complete
    | ErrorOccurred

  /** One change of what the window shows: the progress bar alone (`value`),
      or the status label together with the progress bar. */
  datatype Update = Bar(value: real) | Show(status: Status, value: real)

  /** `20 + i * (60 / file_count)`, the bar while file `i` of `n` is copied. */
  function FileProgress(i: nat, n: nat): real
    requires 0 < n
  {
    20.0 + (i as real) * (60.0 / (n as real))
  }

  /** The per-file progress climbs evenly from above 20 to exactly 80. */
  lemma FileProgressRange(i: nat, j: nat, n: nat)
    requires 1 <= i <= j <= n
    ensures 20.0 < FileProgress(i, n) <= FileProgress(j, n) <= FileProgress(n, n) == 80.0
  {
    var step := 60.0 / (n as real);
    assert step * (n as real) == 60.0;
    assert step > 0.0;
    assert (i as real) * step <= (j as real) * step <= (n as real) * step;
  }

  /** What `merge_files` shows before it touches any file: the bar reset to
      0, then "Preparing" at 10 and "Creating" at 20. */
  const OPENING: seq<Update> := [Bar(0.0), Show(Preparing, 10.0), Show(Creating, 20.0)]

  /** What a merge that succeeds shows after the last file. */
  const CLOSING: seq<Update> := [Show(Finalizing, 90.0), Show(Complete, 100.0)]

  /** What the `except` branch shows. */
  const FAILURE: Update := Show(ErrorOccurred, 0.0)

  /** One label update per selected file, numbered from 1. */
  function FileUpdates(files: seq<string>): seq<Update> {
    if files == [] then [] else UpdatesFrom(files, 1, |files|)
  }

  /** The label updates for `files`, the first of them numbered `i` of `n`. */
  function UpdatesFrom(files: seq<string>, i: nat, n: nat): (u: seq<Update>)
    requires 0 < n
    ensures |u| == |files|
    decreases |files|
  {
    if files == [] then []
    else [Show(Processing(i, n, files[0]), FileProgress(i, n))] + UpdatesFrom(files[1..], i + 1, n)
  }

  lemma {:induction false} UpdatesAt(files: seq<string>, i: nat, n: nat)
    requires 0 < n
    ensures forall j :: 0 <= j < |files| ==>
      UpdatesFrom(files, i, n)[j] == Show(Processing(i + j, n, files[j]), FileProgress(i + j, n))
    decreases |files|
  {
    if files != [] {
      UpdatesAt(files[1..], i + 1, n);
      var u := UpdatesFrom(files, i, n);
      forall j | 1 <= j < |files|
        ensures u[j] == Show(Processing(i + j, n, files[j]), FileProgress(i + j, n))
      {
        assert u[j] == UpdatesFrom(files[1..], i + 1, n)[j - 1];
        assert files[1..][j - 1] == files[j];
      }
    }
  }

  lemma FileUpdateLength(files: seq<string>)
    ensures |FileUpdates(files)| == |files|
  {
  }

  /** The update for the file at index `i`. */
  lemma FileUpdateAt(files: seq<string>, i: nat)
    requires i < |files|
    ensures |FileUpdates(files)| == |files|
    ensures FileUpdates(files)[i] == Show(Processing(i + 1, |files|, files[i]), FileProgress(i + 1, |files|))
  {
    UpdatesAt(files, 1, |files|);
  }

  /** Everything a merge that succeeds shows, in order: the bar reset to 0,
      "Preparing" at 10, "Creating" at 20, each file, "Finalizing" at 90 and
      "Complete" at 100. */
  function Announcements(files: seq<string>): seq<Update> {
    OPENING + FileUpdates(files) + CLOSING
  }

  /** The updates up to and including the file at index `m - 1`, and all of them. */
  lemma AnnouncementsPrefix(files: seq<string>, m: nat)
    requires m <= |files|
    ensures |FileUpdates(files)| == |files|
    ensures Announcements(files)[..m + 3] == OPENING + FileUpdates(files)[..m]
  {
    if files != [] {
      UpdatesAt(files, 1, |files|);
    }
  }

  /** A merge that succeeds moves the bar forward only, from 0 to 100, and
      reports every selected file by number and base name. */
  lemma AnnouncementsProgress(files: seq<string>)
    requires files != []
    ensures var a := Announcements(files);
      && |a| == |files| + 5
      && a[0] == Bar(0.0) && a[|a| - 1] == Show(Complete, 100.0)
      && (forall i, j :: 0 <= i <= j < |a| ==> 0.0 <= a[i].value <= a[j].value <= 100.0)
      && (forall i :: 0 <= i < |files| ==> a[i + 3] == Show(Processing(i + 1, |files|, files[i]), FileProgress(i + 1, |files|)))
      && a[|files| + 2].value == 80.0
  {
    var n := |files|;
    AnnouncementsAt(files);
    AnnouncementsMonotone(files);
    AnnouncedValues(files);
    FileProgressRange(n, n, n);
  }

  /** Along `Announcements` the bar stays within 0..100 and never moves back. */
  lemma AnnouncementsMonotone(files: seq<string>)
    requires files != []
    ensures var a := Announcements(files);
      forall i, j :: 0 <= i <= j < |a| ==> 0.0 <= a[i].value <= a[j].value <= 100.0
  {
    var a := Announcements(files);
    AnnouncedValues(files);
    forall k: nat | k < |a| ensures InRange(a[k]) && NoDrop(a, k) {
      AnnouncementsStep(files, k);
    }
    forall i, j | 0 <= i <= j < |a| ensures 0.0 <= a[i].value <= a[j].value <= 100.0 {
      NonDecreasing(a, i, j);
    }
  }

  predicate InRange(u: Update) {
    0.0 <= u.value <= 100.0
  }

  /** The value does not drop from position `k` to the next. */
  predicate NoDrop(s: seq<Update>, k: nat) {
    k + 1 < |s| ==> s[k].value <= s[k + 1].value
  }

  lemma AnnouncementsStep(files: seq<string>, k: nat)
    requires files != [] && k < |files| + 5
    ensures var a := Announcements(files);
      InRange(a[k]) && NoDrop(a, k)
  {
    var n := |files|;
    var a := Announcements(files);
    AnnouncedValues(files);
    if k < 2 || k >= n + 3 {
    } else if k == 2 {
      FileProgressRange(1, 1, n);
    } else if k < n + 2 {
      FileProgressRange(k - 2, k - 1, n);
    } else {
      FileProgressRange(n, n, n);
    }
  }

  /** The values in `Announcements`, position by position. */
  lemma AnnouncedValues(files: seq<string>)
    ensures var a := Announcements(files); var n := |files|;
      && |a| == n + 5
      && a[0].value == 0.0 && a[1].value == 10.0 && a[2].value == 20.0
      && (forall i :: 3 <= i < n + 3 ==> a[i].value == FileProgress(i - 2, n))
      && a[n + 3].value == 90.0 && a[n + 4].value == 100.0
  {
    var a := Announcements(files);
    var u := FileUpdates(files);
    if files != [] {
      UpdatesAt(files, 1, |files|);
    }
    forall i | 3 <= i < |files| + 3 ensures a[i].value == FileProgress(i - 2, |files|) {
      assert a[i] == u[i - 3];
    }
  }

  /** A sequence whose values stay within 0..100 and never drop from one
      element to the next never drops at all. */
  lemma {:induction false} NonDecreasing(s: seq<Update>, i: nat, j: nat)
    requires i <= j < |s|
    requires forall k: nat :: k < |s| ==> InRange(s[k]) && NoDrop(s, k)
    ensures 0.0 <= s[i].value <= s[j].value <= 100.0
    decreases j - i
  {
    assert InRange(s[i]) && InRange(s[j]) && NoDrop(s, i);
    if i < j {
      NonDecreasing(s, i + 1, j);
    }
  }

  /** Where each update sits in `Announcements`. */
  lemma AnnouncementsAt(files: seq<string>)
    ensures var a := Announcements(files); var n := |files|;
      && |a| == n + 5
      && a[0] == Bar(0.0) && a[1] == Show(Preparing, 10.0) && a[2] == Show(Creating, 20.0)
      && (forall i :: 0 <= i < n ==>
            a[i + 3] == Show(Processing(i + 1, n, files[i]), FileProgress(i + 1, n)))
      && a[n + 3] == Show(Finalizing, 90.0) && a[n + 4] == Show(Complete, 100.0)
  {
    var a := Announcements(files);
    var u := FileUpdates(files);
    if files != [] {
      UpdatesAt(files, 1, |files|);
    }
    forall i | 0 <= i < |files| ensures a[i + 3] == u[i] {
    }
  }

  // ----- copying -----

  /** How far the copy loop got: all files copied, or stopped at the file
      (by index) that could not be opened. */
  datatype Copy = Copied(fs: map<string, Bytes>) | Stopped(fs: map<string, Bytes>, at: nat)

  /** The copy loop run over `files` into `out`, starting from the files
      `fs0`: each file is read in full and appended to `out`; a file that is
      not there stops the loop. Reads see what has been written so far, so a
      selected file that is the output itself is read in its current state. */
  function CopySteps(files: seq<string>, out: string, fs0: map<string, Bytes>): (c: Copy)
    requires out in fs0
    ensures out in c.fs && c.fs.Keys == fs0.Keys
    ensures forall p :: p in fs0 && p != out ==> c.fs[p] == fs0[p]
    ensures c.Stopped? ==> c.at < |files| && files[c.at] !in fs0
    decreases |files|
  {
    if files == [] then Copied(fs0)
    else
      match CopySteps(files[..|files| - 1], out, fs0)
      case Stopped(fs, k) => Stopped(fs, k)
      case Copied(fs) =>
        var f := files[|files| - 1];
        if f !in fs then Stopped(fs, |files| - 1)
        else Copied(fs[out := fs[out] + fs[f]])
  }

  /** Once the loop has stopped, the files after the one it stopped at
      change nothing. */
  lemma {:induction false} CopyStopsEarly(files: seq<string>, j: nat, out: string, fs0: map<string, Bytes>)
    requires out in fs0 && j <= |files|
    requires CopySteps(files[..j], out, fs0).Stopped?
    ensures CopySteps(files, out, fs0) == CopySteps(files[..j], out, fs0)
    decreases |files| - j
  {
    if j < |files| {
      assert files[..j + 1][..j] == files[..j];
      CopyStopsEarly(files, j + 1, out, fs0);
    } else {
      assert files[..j] == files;
    }
  }

  /** One more turn of the copy loop: the next file is appended, or the
      loop stops at it for good. */
  lemma CopyStep(files: seq<string>, i: nat, out: string, fs0: map<string, Bytes>, fs: map<string, Bytes>)
    requires out in fs0 && i < |files|
    requires CopySteps(files[..i], out, fs0) == Copied(fs)
    ensures out in fs
    ensures files[i] in fs ==>
      CopySteps(files[..i + 1], out, fs0) == Copied(fs[out := fs[out] + fs[files[i]]])
    ensures files[i] !in fs ==> CopySteps(files, out, fs0) == Stopped(fs, i)
  {
    assert files[..i + 1][..i] == files[..i];
    if files[i] !in fs {
      CopyStopsEarly(files, i + 1, out, fs0);
    }
  }

  /** Index of the first file that is not on the disk, or `|files|`. */
  function FirstMissing(files: seq<string>, fs: map<string, Bytes>): (k: nat)
    ensures k <= |files|
    ensures forall i :: 0 <= i < k ==> files[i] in fs
    ensures k < |files| ==> files[k] !in fs
    decreases |files|
  {
    if files == [] || files[0] !in fs then 0
    else 1 + FirstMissing(files[1..], fs)
  }

  predicate AllPresent(files: seq<string>, fs: map<string, Bytes>) {
    forall i :: 0 <= i < |files| ==> files[i] in fs
  }

  /** The contents of the files, one after the other. */
  function Contents(files: seq<string>, fs: map<string, Bytes>): Bytes
    requires AllPresent(files, fs)
    decreases |files|
  {
    if files == [] then [] else fs[files[0]] + Contents(files[1..], fs)
  }

  /** The sum of the sizes of the files. */
  function TotalSize(files: seq<string>, fs: map<string, Bytes>): nat
    requires AllPresent(files, fs)
    decreases |files|
  {
    if files == [] then 0 else |fs[files[0]]| + TotalSize(files[1..], fs)
  }

  lemma {:induction false} ContentsSnoc(files: seq<string>, f: string, fs: map<string, Bytes>)
    requires AllPresent(files, fs) && f in fs
    ensures AllPresent(files + [f], fs)
    ensures Contents(files + [f], fs) == Contents(files, fs) + fs[f]
    decreases |files|
  {
    if files == [] {
      assert [] + [f] == [f];
    } else {
      assert (files + [f])[1..] == files[1..] + [f];
      ContentsSnoc(files[1..], f, fs);
    }
  }

  /** When the output is not itself one of the selected files, the copy
      loop (run after the output has been emptied) succeeds exactly when
      every file is there; it writes the files' contents one after the
      other, stopping before the first file that is not there, which it
      names. */
  lemma CopyWritesContents(files: seq<string>, out: string, fs: map<string, Bytes>)
    requires out !in files
    ensures var c := CopySteps(files, out, fs[out := []]);
      var k := FirstMissing(files, fs);
      && AllPresent(files[..k], fs)
      && (c.Copied? <==> k == |files|)
      && (c.Stopped? ==> c.at == k)
      && c.fs[out] == Contents(files[..k], fs)
  {
    var fs0 := fs[out := []];
    var k := FirstMissing(files, fs);
    SameFirstMissing(files, out, fs);
    assert AllPresent(files[..k], fs) by {
      forall i | 0 <= i < k ensures files[..k][i] in fs {
        assert files[..k][i] == files[i];
      }
    }
    SameContents(files[..k], out, fs);
    CopyPrefix(files, k, out, fs0);
    if k < |files| {
      var p := files[..k + 1];
      assert p[..k] == files[..k] && p[k] == files[k];
      assert CopySteps(p, out, fs0) == Stopped(CopySteps(files[..k], out, fs0).fs, k);
      CopyStopsEarly(files, k + 1, out, fs0);
    } else {
      assert files[..k] == files;
    }
  }

  /** Up to the first missing file, the loop copies everything. */
  lemma {:induction false} CopyPrefix(files: seq<string>, j: nat, out: string, fs0: map<string, Bytes>)
    requires out in fs0 && fs0[out] == [] && out !in files
    requires j <= |files| && AllPresent(files[..j], fs0)
    ensures CopySteps(files[..j], out, fs0).Copied?
    ensures CopySteps(files[..j], out, fs0).fs[out] == Contents(files[..j], fs0)
    decreases j
  {
    var p := files[..j];
    if j == 0 {
      assert p == [];
    } else {
      var init := files[..j - 1];
      assert p[..j - 1] == init && p[j - 1] == files[j - 1];
      assert AllPresent(init, fs0) by {
        forall i | 0 <= i < |init| ensures init[i] in fs0 { assert init[i] == p[i]; }
      }
      CopyPrefix(files, j - 1, out, fs0);
      var f := files[j - 1];
      assert f != out;
      ContentsSnoc(init, f, fs0);
      assert init + [f] == p;
    }
  }

  /** The output is exactly as long as the inputs together. */
  lemma {:induction false} ContentsSize(files: seq<string>, fs: map<string, Bytes>)
    requires AllPresent(files, fs)
    ensures |Contents(files, fs)| == TotalSize(files, fs)
    decreases |files|
  {
    if files != [] {
      ContentsSize(files[1..], fs);
    }
  }

  /** Each input occupies its own stretch of the output, right after the
      inputs before it. */
  lemma {:induction false} ContentsAt(files: seq<string>, fs: map<string, Bytes>, i: nat)
    requires AllPresent(files, fs) && i < |files|
    ensures AllPresent(files[..i], fs)
    ensures var off := TotalSize(files[..i], fs);
      && off + |fs[files[i]]| <= |Contents(files, fs)|
      && Contents(files, fs)[off..off + |fs[files[i]]|] == fs[files[i]]
    decreases i
  {
    var c := Contents(files, fs);
    var head := fs[files[0]];
    var rest := files[1..];
    assert c == head + Contents(rest, fs);
    if i == 0 {
      assert files[..0] == [];
    } else {
      ContentsAt(rest, fs, i - 1);
      assert files[..i] == [files[0]] + rest[..i - 1];
      assert files[..i][1..] == rest[..i - 1];
      var off := TotalSize(rest[..i - 1], fs);
      assert TotalSize(files[..i], fs) == |head| + off;
      assert c[|head| + off..|head| + off + |fs[files[i]]|]
          == Contents(rest, fs)[off..off + |fs[rest[i - 1]]|];
    }
  }

  // ----- the whole merge -----

  datatype Failure = CannotCreate(path: string) | CannotRead(path: string)

  /** How a press of "Merge Files" ends: the warning for an empty selection,
      the success message naming the output, or the error message. */
  datatype Outcome = NothingSelected | Merged(path: string) | Failed(failure: Failure)

  /** The outcome, the disk afterwards and what the window showed meanwhile. */
  datatype Run = Run(outcome: Outcome, disk: Disk, shown: seq<Update>)

  /** `merge_files` with selection `selected`, output directory `dir` and
      entry text `entry`, on `disk`: a warning and nothing else for an empty
      selection, otherwise a merge into the derived output path. */
  function Merge(selected: seq<string>, dir: string, entry: string, disk: Disk): (r: Run)
    ensures selected == [] <==> r.outcome == NothingSelected
    ensures selected == [] ==> r.disk == disk && r.shown == []
  {
    if selected == [] then Run(NothingSelected, disk, [])
    else MergeInto(selected, OutputPath(dir, entry, selected[0]), disk)
  }

  /** The body of the `try` block of `merge_files`, writing to `path`. */
  function MergeInto(selected: seq<string>, path: string, disk: Disk): (r: Run)
    requires selected != []
    ensures r.outcome != NothingSelected
    ensures |r.shown| >= 2 && r.shown[|r.shown| - 1].Show?
  {
    if path in disk.unwritable then
      Run(Failed(CannotCreate(path)), disk, OPENING + [FAILURE])
    else
      match CopySteps(selected, path, disk.files[path := []])
      case Copied(fs) => Run(Merged(path), disk.(files := fs), Announcements(selected))
      case Stopped(fs, k) =>
        Run(Failed(CannotRead(selected[k])), disk.(files := fs),
            OPENING + FileUpdates(selected)[..k + 1] + [FAILURE])
  }

  /** What a merge into `path` (not itself one of the selected files) does
      to the disk: it succeeds exactly when the output can be created and
      every selected file is there, and then the output holds the files'
      contents one after the other, as many bytes as they have together. An
      output that cannot be created leaves the disk alone and is the error
      reported. Otherwise only the output changes: it is created or emptied
      and receives the files before the first one that is missing, which is
      the file the error names. */
  lemma MergeWrites(selected: seq<string>, path: string, disk: Disk)
    requires selected != [] && path !in selected
    ensures var r := MergeInto(selected, path, disk);
      var k := FirstMissing(selected, disk.files);
      && AllPresent(selected[..k], disk.files)
      && (r.outcome.Merged? <==> path !in disk.unwritable && AllPresent(selected, disk.files))
      && (r.outcome.Merged? ==>
            && r.outcome.path == path
            && AllPresent(selected, disk.files)
            && r.disk.files[path] == Contents(selected, disk.files)
            && |r.disk.files[path]| == TotalSize(selected, disk.files))
      && (r.outcome == Failed(CannotCreate(path)) <==> path in disk.unwritable)
      && (path in disk.unwritable ==> r.disk == disk)
      && (r.outcome.Failed? && r.outcome.failure.CannotRead? ==>
            k < |selected| && r.outcome.failure.path == selected[k])
      && (path !in disk.unwritable ==>
            && r.disk.unwritable == disk.unwritable
            && r.disk.files.Keys == disk.files.Keys + {path}
            && (forall p :: p in disk.files && p != path ==> r.disk.files[p] == disk.files[p])
            && r.disk.files[path] == Contents(selected[..k], disk.files))
  {
    var fs := disk.files;
    var k := FirstMissing(selected, fs);
    CopyWritesContents(selected, path, fs);
    if k == |selected| {
      assert selected[..k] == selected;
      ContentsSize(selected, fs);
    }
  }

  /** The progress bar only moves forward until the last update; a merge
      that succeeds ends at "Complete" and 100, one that fails ends at the
      error message and 0. Before anything else the bar is reset to 0. */
  lemma MergeProgress(selected: seq<string>, path: string, disk: Disk)
    requires selected != []
    ensures var r := MergeInto(selected, path, disk); var s := r.shown;
      && s[0] == Bar(0.0)
      && (forall i, j :: 0 <= i <= j < |s| - 1 ==> 0.0 <= s[i].value <= s[j].value <= 100.0)
      && (r.outcome.Merged? ==> s == Announcements(selected) && s[|s| - 1] == Show(Complete, 100.0))
      && (r.outcome.Failed? ==> s[|s| - 1] == Show(ErrorOccurred, 0.0))
  {
    var r := MergeInto(selected, path, disk);
    if path in disk.unwritable {
      assert FileUpdates(selected)[..0] == [];
      FailedTrace(selected, 0, r.shown);
    } else {
      match CopySteps(selected, path, disk.files[path := []])
      case Copied(fs) =>
        AnnouncementsProgress(selected);
      case Stopped(fs, k) =>
        FailedTrace(selected, k + 1, r.shown);
    }
  }

  /** How far a failed merge got before the error: an output that cannot be
      created fails before any file is reported; a merge that fails only
      once it has the output open has first shown everything a successful
      run shows up to and including the file it could not read. */
  lemma FailurePoint(selected: seq<string>, path: string, disk: Disk)
    requires selected != []
    ensures var r := MergeInto(selected, path, disk); var s := r.shown;
      && (r.outcome == Failed(CannotCreate(path)) ==> s == OPENING + [FAILURE])
      && (r.outcome.Failed? && r.outcome.failure.CannotRead? ==>
            exists k :: 0 <= k < |selected| && r.outcome.failure.path == selected[k]
              && s[..|s| - 1] == Announcements(selected)[..k + 4])
  {
    var r := MergeInto(selected, path, disk);
    if path !in disk.unwritable {
      match CopySteps(selected, path, disk.files[path := []])
      case Copied(fs) =>
      case Stopped(fs, k) =>
        FailedTrace(selected, k + 1, r.shown);
    }
  }

  /** A run that fails after `m` files were reported shows what a
      successful run shows up to that point, then the error. */
  lemma FailedTrace(files: seq<string>, m: nat, s: seq<Update>)
    requires files != [] && m <= |files|
    requires s == OPENING + FileUpdates(files)[..m] + [FAILURE]
    ensures s[0] == Bar(0.0) && s[|s| - 1] == FAILURE
    ensures s[..|s| - 1] == Announcements(files)[..m + 3]
    ensures forall i, j :: 0 <= i <= j < |s| - 1 ==> 0.0 <= s[i].value <= s[j].value <= 100.0
  {
    var a := Announcements(files);
    AnnouncementsMonotone(files);
    AnnouncementsPrefix(files, m);
    ErrorAfter(a, m + 3, s);
  }

  /** What a failed run shows: a successful run's first `m` updates, with
      the bar never moving back, then the error. */
  lemma ErrorAfter(a: seq<Update>, m: nat, s: seq<Update>)
    requires 0 < m <= |a| && s == a[..m] + [FAILURE]
    requires forall i, j :: 0 <= i <= j < |a| ==> 0.0 <= a[i].value <= a[j].value <= 100.0
    ensures s[0] == a[0] && s[|s| - 1] == FAILURE && s[..|s| - 1] == a[..m]
    ensures forall i, j :: 0 <= i <= j < |s| - 1 ==> 0.0 <= s[i].value <= s[j].value <= 100.0
  {
    assert s[..|s| - 1] == a[..m];
    forall i, j | 0 <= i <= j < |s| - 1 ensures 0.0 <= s[i].value <= s[j].value <= 100.0 {
      assert s[i] == a[i] && s[j] == a[j];
    }
  }

  /** Emptying the output does not matter to files other than the output. */
  lemma {:induction false} SameFirstMissing(files: seq<string>, out: string, fs: map<string, Bytes>)
    requires out !in files
    ensures FirstMissing(files, fs[out := []]) == FirstMissing(files, fs)
    decreases |files|
  {
    if files != [] {
      SameFirstMissing(files[1..], out, fs);
    }
  }

  lemma {:induction false} SameContents(files: seq<string>, out: string, fs: map<string, Bytes>)
    requires out !in files && AllPresent(files, fs)
    ensures AllPresent(files, fs[out := []])
    ensures Contents(files, fs[out := []]) == Contents(files, fs)
    decreases |files|
  {
    if files != [] {
      SameContents(files[1..], out, fs);
    }
  }
}
