/**
 * The `AudioMerger` window of smerge.py without its widgets: the state its
 * methods update (the selection, the output directory, the status label
 * and the progress bar) and the two actions behind its buttons.
 */
module Merger {
  import opened Paths
  import opened MergeSpec
  import NaturalSort

  class AudioMerger {
    /** The selected files, in natural order of their base names. */
    var selectedFiles: seq<string>
    /** The directory of the first selected file. */
    var outputPath: string
    /** The text of the status label. */
    var status: Status
    /** The value of the progress bar. */
    var progress: real
    /** Every change of the status label and progress bar made by the
        latest `merge_files`, in order. */
    ghost var shown: seq<Update>

    /** The selection is in natural order, the output directory is that of
        the first selected file (empty while nothing is selected), and the
        bar stays within 0..100. */
    ghost predicate Valid()
      reads this
    {
      && NaturalSort.InNaturalOrder(selectedFiles)
      && (selectedFiles == [] ==> outputPath == "")
      && (selectedFiles != [] ==> outputPath == Dirname(selectedFiles[0]))
      && 0.0 <= progress <= 100.0
    }

    /** A window with nothing selected, an empty status label and an empty bar. */
    constructor ()
      ensures Valid()
      ensures selectedFiles == [] && outputPath == ""
      ensures status == Idle && progress == 0.0 && shown == []
    {
      selectedFiles := [];
      outputPath := "";
      status := Idle;
      progress := 0.0;
      shown := [];
    }

    /** `update_status`: sets the label and the bar. */
    method UpdateStatus(s: Status, value: real)
      modifies this
      ensures status == s && progress == value
      ensures shown == old(shown) + [Show(s, value)]
      ensures selectedFiles == old(selectedFiles) && outputPath == old(outputPath)
    {
      status := s;
      progress := value;
      shown := shown + [Show(s, value)];
    }

    /** `select_files`, given what the file dialog returned: nothing when it
        was cancelled, otherwise the selection sorted naturally, and its
        first file's directory as the output directory. */
    method SelectFiles(files: seq<string>)
      requires Valid()
      modifies this
      ensures Valid()
      ensures files == [] ==> selectedFiles == old(selectedFiles) && outputPath == old(outputPath)
      ensures files != [] ==>
        && selectedFiles == NaturalSort.SortPaths(files)
        && outputPath == Dirname(selectedFiles[0])
      ensures status == old(status) && progress == old(progress) && shown == old(shown)
    {
      if files != [] {
        NaturalSort.SortPathsCorrect(files);
        selectedFiles := NaturalSort.SortPaths(files);
        outputPath := Dirname(selectedFiles[0]);
      }
    }

    /** `merge_files`, given the text of the file-name entry and the disk:
        does what `Merge` describes, leaves the selection alone, and ends
        with the label and bar showing the last update. */
    method MergeFiles(entry: string, disk: Disk) returns (outcome: Outcome, disk': Disk)
      requires Valid()
      modifies this
      ensures Valid()
      ensures selectedFiles == old(selectedFiles) && outputPath == old(outputPath)
      ensures var r := Merge(old(selectedFiles), old(outputPath), entry, disk);
        && outcome == r.outcome && disk' == r.disk
        && shown == r.shown
      ensures old(selectedFiles) == [] ==> status == old(status) && progress == old(progress)
      ensures outcome.Merged? ==> status == Complete && progress == 100.0
      ensures outcome.Failed? ==> status == ErrorOccurred && progress == 0.0
    {
      shown := [];
      if selectedFiles == [] {
        return NothingSelected, disk;
      }
      var selected := selectedFiles;
      var path := Begin(entry);
      outcome, disk' := WriteOutput(selected, path, disk);
    }

    /** The rest of `merge_files`, once the output path is known and the
        first three updates are shown: fail if the output cannot be created,
        otherwise copy every file into it, then show the end of the merge. */
    method WriteOutput(selected: seq<string>, path: string, disk: Disk)
        returns (outcome: Outcome, disk': Disk)
      requires selected != [] && shown == OPENING
      modifies this
      ensures selectedFiles == old(selectedFiles) && outputPath == old(outputPath)
      ensures var r := MergeInto(selected, path, disk);
        && outcome == r.outcome && disk' == r.disk
        && shown == r.shown
      ensures outcome.Merged? ==> status == Complete && progress == 100.0
      ensures outcome.Failed? ==> status == ErrorOccurred && progress == 0.0
    {
      if path in disk.unwritable {
        UpdateStatus(ErrorOccurred, 0.0);
        return Failed(CannotCreate(path)), disk;
      }
      var copy := CopyFiles(selected, path, disk.files[path := []]);
      match copy
      case Stopped(fs, k) =>
        UpdateStatus(ErrorOccurred, 0.0);
        outcome, disk' := Failed(CannotRead(selected[k])), disk.(files := fs);
      case Copied(fs) =>
        UpdateStatus(Finalizing, 90.0);
        UpdateStatus(Complete, 100.0);
        outcome, disk' := Merged(path), disk.(files := fs);
        assert shown == Announcements(selected);
    }

    /** The start of `merge_files` once something is selected: empty the
        bar, show `Preparing files...`, work out the output path from the
        entry and the first file's extension, and show `Creating output file...`. */
    method Begin(entry: string) returns (path: string)
      requires selectedFiles != [] && shown == []
      modifies this
      ensures selectedFiles == old(selectedFiles) && outputPath == old(outputPath)
      ensures path == OutputPath(outputPath, entry, selectedFiles[0])
      ensures shown == OPENING
      ensures progress == 20.0
    {
      var selected := selectedFiles;
      var dir := outputPath;
      var name := if entry == [] then DEFAULT_NAME else entry;
      progress := 0.0;
      shown := shown + [Bar(0.0)];
      UpdateStatus(Preparing, 10.0);
      var ext := Extension(selected[0]);
      path := Join(dir, name + ext);
      UpdateStatus(Creating, 20.0);
    }

    /** The copy loop of `merge_files`: for each selected file in turn,
        report it on the label and the bar, then append its contents to the
        output, stopping at the first file that is not there. */
    method CopyFiles(selected: seq<string>, path: string, fs0: map<string, Bytes>) returns (copy: Copy)
      requires path in fs0
      modifies this
      ensures selectedFiles == old(selectedFiles) && outputPath == old(outputPath)
      ensures copy == CopySteps(selected, path, fs0)
      ensures copy.Copied? ==> shown == old(shown) + FileUpdates(selected)
      ensures copy.Stopped? ==> copy.at < |selected| && shown == old(shown) + FileUpdates(selected)[..copy.at + 1]
    {
      var fs := fs0;
      var i := 0;
      while i < |selected|
        invariant i <= |selected|
        invariant selectedFiles == old(selectedFiles) && outputPath == old(outputPath)
        invariant path in fs && CopySteps(selected[..i], path, fs0) == Copied(fs)
        invariant shown == old(shown) + FileUpdates(selected)[..i]
      {
        var f := selected[i];
        ReportFile(selected, i, old(shown));
        CopyStep(selected, i, path, fs0, fs);
        if f !in fs {
          return Stopped(fs, i);
        }
        fs := fs[path := fs[path] + fs[f]];
        i := i + 1;
      }
      assert selected[..i] == selected;
      assert FileUpdates(selected)[..i] == FileUpdates(selected) by {
        FileUpdateLength(selected);
      }
      return Copied(fs);
    }

    /** The label and bar while the file at index `i` is copied:
        `Processing file i+1 of n: <base name>`, at `20 + (i+1) * (60 / n)`. */
    method ReportFile(selected: seq<string>, i: nat, ghost before: seq<Update>)
      requires i < |selected|
      requires shown == before + FileUpdates(selected)[..i]
      modifies this
      ensures selectedFiles == old(selectedFiles) && outputPath == old(outputPath)
      ensures FileUpdates(selected)[i] == Show(status, progress)
      ensures shown == before + FileUpdates(selected)[..i + 1]
      ensures 20.0 < progress <= 80.0
    {
      var n := |selected|;
      FileProgressRange(i + 1, i + 1, n);
      FileUpdateAt(selected, i);
      ghost var u := FileUpdates(selected);
      UpdateStatus(Processing(i + 1, n, selected[i]), 20.0 + ((i + 1) as real) * (60.0 / (n as real)));
      assert u[..i + 1] == u[..i] + [u[i]];
    }
  }
}
