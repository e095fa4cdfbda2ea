/** The entry point: ask for a criterion, then for a folder, then remove the
    duplicates in that folder and move every remaining file into it. The
    two dialogs are inputs here: the chooser's answer and the chosen path. */
module Driver {
  import opened Volumes
  import opened Dedupe
  import opened Flatten

  /** The chooser's answer when its window was cancelled. */
  const Cancelled: int := -1
  /** The chooser's answer when its window was closed without a choice. */
  const NoChoice: int := -2

  /** How a run ends. */
  datatype Outcome = CancelledRun | NoCriterion | NoFolder | Finished

  /** Which way the entry point goes for a chooser answer and a chosen
      folder; the empty path is the folder dialog's "nothing chosen". */
  function Decide(criterion: int, folder: string): (o: Outcome)
    ensures o == Finished <==> criterion != Cancelled && criterion != NoChoice && folder != ""
    ensures o == CancelledRun <==> criterion == Cancelled
    ensures o == NoCriterion <==> criterion == NoChoice
    ensures o == NoFolder ==> folder == ""
  {
    if criterion != Cancelled && criterion != NoChoice then
      if folder != "" then Finished else NoFolder
    else if criterion == Cancelled then CancelledRun
    else NoCriterion
  }

  /** One run of the tool on the volume `v` found at `folder`. Removal runs
      first and flattening runs on what removal leaves; a run that does not
      finish touches nothing and makes no removal attempt. */
  method RunTool(criterion: int, folder: string, v: Volume, failing: set<FilePath>)
    returns (outcome: Outcome, v': Volume, log: seq<Attempt>)
    ensures outcome == Decide(criterion, folder)
    ensures outcome != Finished ==> v' == v && log == []
    ensures outcome == Finished ==> v' == Flattened(Deduped(v, criterion, failing))
    ensures outcome == Finished && v.present ==> AttemptLog(v.files, Plan(v.files, criterion), failing, log)
    ensures outcome == Finished && !v.present ==> log == []
  {
    if criterion != Cancelled && criterion != NoChoice {
      if folder != "" {
        var deduped;
        deduped, log := DeleteDuplicateFiles(v, criterion, failing);
        v' := MoveFilesToTop(deduped);
        outcome := Finished;
      } else {
        outcome, v', log := NoFolder, v, [];
      }
    } else if criterion == Cancelled {
      outcome, v', log := CancelledRun, v, [];
    } else {
      outcome, v', log := NoCriterion, v, [];
    }
  }

  /** A folder that does not exist is left as it is by a whole run. */
  lemma MissingFolderUnchanged(criterion: int, v: Volume, failing: set<FilePath>)
    requires !v.present
    ensures Flattened(Deduped(v, criterion, failing)) == v
  {
  }

  /** A finished run on a real directory tree leaves a real directory tree
      whose files all sit in the root under distinct names. */
  lemma RunKeepsTree(criterion: int, v: Volume, failing: set<FilePath>)
    requires WellFormed(v) && v.present
    ensures var w := Flattened(Deduped(v, criterion, failing));
      && WellFormed(w)
      && (forall f :: f in w.files ==> AtRoot(f))
      && (forall i, j :: 0 <= i < j < |w.files| ==> w.files[i].path.name != w.files[j].path.name)
  {
    var d := Deduped(v, criterion, failing);
    DedupedWellFormed(v, criterion, failing);
    FlattenWellFormed(d);
    var w := Flattened(d);
    forall i, j | 0 <= i < j < |w.files| ensures w.files[i].path.name != w.files[j].path.name {
      assert w.files[i] in w.files && w.files[j] in w.files;
      assert w.files[i].path != w.files[j].path;
    }
  }
}
