# Duplicate remover and folder flattener

The tool asks for a deletion criterion and then for a folder. It then does two
things in the folder:

1. **Removes duplicates.** It walks the folder tree and groups the regular files
   by a key:
   - the file name, under criterion 0 ("same name") or 2 ("same name and same size");
   - the file size, under any other criterion (1, "same size").

   In every group with more than one file, the first file found (the survivor)
   stays and the others are removed. Under criterion 2 only the files whose size
   equals the survivor's are removed. A removal that fails is reported and the
   run goes on.
2. **Flattens.** It moves every file that is not already in the chosen folder
   into it. If the name is taken there, `(1)` is inserted before the
   extension; if that name is taken too, `(2)` is inserted into the already
   suffixed name (`a(1)(2).txt`), and so on until the name is free.

The model has five modules:

- `Volumes` (`volume.dfy`) holds the folder tree as a value: the files in walk
  order, and the names of the sub-directories that sit directly in the root.
- `Dedupe` (`dedupe.dfy`) models the scanner and the remover. Each loop is a
  method proved equal to a specification function (`KeyOrder`, `Group`, `Plan`,
  `Deduped`). Lemmas state:
  - which files are kept;
  - that survivors are never removed;
  - that a second run right after a failure-free run removes nothing.
- `FileNames` (`names.dfy`) models Python's `os.path.splitext` on a base name,
  the counter insertion and the search for a free name.
- `Flatten` (`flatten.dfy`) models the move loop. It is proved equal to
  `Flattened`, and lemmas state that the move overwrites nothing and that
  every file ends up in the root.
- `Driver` (`driver.dfy`) models the entry point: the chooser's sentinels, the
  folder check, and removal before flattening.

The operating system is an input, not something the model calls:

- The volume at the chosen folder is a parameter, and `Volume.present` says
  whether the folder exists.
- The removals that fail are given as a set of paths, `failing`.
- The two dialogs are the parameters `criterion` and `folder`.

## Model

| member | source | states |
|---|---|---|
| Volumes.Occupied | main.py:131 | the names an existence test finds in the root include every sub-directory of the root and every file sitting in it |
| Volumes.Without | main.py:99 | after removals a file remains iff it was in the walk and its path was not removed; the walk never grows |
| Dedupe.KeyOf | main.py:90 | the key is a name key exactly under criteria 0 and 2, and then holds the file name; otherwise it is a size key holding the file size |
| Dedupe.SameKey | main.py:90 | two files share a group iff they share the name (criteria 0 and 2) or the size (every other criterion) |
| Dedupe.Group | main.py:86-91 | the list kept under a key holds exactly the regular files of the walk with that key, and no more files than the walk |
| Dedupe.SurvivorOf | main.py:95-96 | the survivor of a file's group is a regular file of the walk with the same key |
| Dedupe.SurvivorIsFirstFound | main.py:83-96 | the first regular file the walk finds with a key heads that key's group, and is the survivor of every file of the group |
| Dedupe.KeyOrder | main.py:86-91 | the collection's keys are exactly the keys of the regular files, each listed once |
| Dedupe.Candidates | main.py:95-96 | a group of at most one file yields no removal; otherwise everything after the first file is removed, except that under criterion 2 only the files with the first file's size are removed |
| Dedupe.PlanOf | main.py:94-96 | the removals planned for a list of keys are all regular files of the walk |
| Dedupe.Plan | main.py:94-96 | every removal attempt of a run is on a regular file of the walk |
| Dedupe.Deduped | main.py:72-102 | a run keeps whether the folder exists and its sub-directories, and never adds files |
| Dedupe.Collection | main.py:83-91 | every key in the dictionary has a non-empty list, since a key is only created by adding a file to it |
| Dedupe.Collect | main.py:83-91 | the collection loop builds the insertion-ordered keys, and under every key the list of its group |
| Dedupe.CollectionGroups | main.py:83-91 | the dictionary built file by file has a key iff some regular file has it, and under each key exactly the list of its group |
| Dedupe.RemoveEach | main.py:97-102 | each attempt removes its path unless it fails or the path is already gone; a failure does not stop the batch; the log reports every attempt in order |
| Dedupe.AttemptStep | main.py:97-102 | an attempt on a failing or already removed path logs a failure and leaves the files as they are; any other attempt removes exactly that path and logs a removal; either way the batch goes on |
| Dedupe.RemoveGroups | main.py:94-102 | the deletion loop over the groups removes exactly the planned paths minus the failing ones, and logs one attempt per planned file |
| Dedupe.DeleteDuplicateFiles | main.py:72-102 | a missing folder is left untouched with no attempts; otherwise the result is the walk without the planned, non-failing paths, and the log covers the whole plan |
| Dedupe.DedupedWellFormed | main.py:72-102 | removal keeps paths unique, and leaves only files that were there before |
| Dedupe.PlanMembership | main.py:94-96 | a file is planned for removal iff it is a regular file of the walk, is not its group's first file, and under criterion 2 has that first file's size |
| Dedupe.PlannedPath | main.py:97-99 | since removal goes by path, a file's path is planned exactly when the file is |
| Dedupe.SurvivorKept | main.py:95-96 | the first file of every group is still there after a run, whatever removals fail |
| Dedupe.DifferentSizeKept | main.py:96 | under criterion 2, a same-named file whose size differs from the survivor's is kept |
| Dedupe.Survivors | main.py:83-102 | a file remains iff it is not regular, its removal failed, it is its group's first file, or under criterion 2 its size differs from that file's |
| Dedupe.PlanOfSurvivorsEmpty | main.py:94-96 | planning again on what a failure-free run leaves plans no removal |
| Dedupe.DedupeIdempotent | main.py:72-102 | a run right after a failure-free run changes nothing |
| Dedupe.OneSurvivorPerGroup | main.py:94-97 | under criteria 0 and 1 with no failures, every group is left with exactly its first file |
| FileNames.Decimal | main.py:133 | the counter is formatted as at least one decimal digit and nothing else |
| FileNames.DecimalNoLeadingZero | main.py:133 | the formatted counter starts with a zero only when the counter is zero |
| FileNames.DecimalRoundTrip | main.py:133 | reading the formatted counter back gives the counter |
| FileNames.SplitExt | main.py:132 | stem + extension is the name; a non-empty extension is one dot with no further dot, and its stem is not all dots |
| FileNames.SplitExtFindsExtension | main.py:132 | there is an extension iff some dot of the name follows a character that is not a dot |
| FileNames.SplitExtAt | main.py:132 | a stem that is not all dots, followed by an extension, splits back into exactly that stem and extension |
| FileNames.NoExtensionAppend | main.py:132-133 | appending dot-free text to a name without an extension gives a name without an extension |
| FileNames.Suffixed | main.py:132-133 | inserting the counter makes the name at least three characters longer |
| FileNames.SuffixKeepsExtension | main.py:132-133 | inserting the counter keeps the extension and grows the stem by "(counter)" |
| FileNames.NthTry | main.py:130-135 | the value of the tried name after k collisions; before any collision it is the original name |
| FileNames.NthTryStep | main.py:130-135 | every further try inserts the next counter into the previous try, not into the original name |
| FileNames.NthTryExtension | main.py:130-135 | no try changes the extension of the original name |
| FileNames.NthTryLength | main.py:130-135 | try number k is at least 3k characters longer than the original name, so the search cannot cycle |
| FileNames.FreeFrom | main.py:130-135 | the name the collision search ends on is not taken |
| FileNames.FreeFromIsFirstFree | main.py:130-135 | the chosen name is try number k, and every earlier try was taken |
| FileNames.FreeFromKeepsExtension | main.py:130-135 | the chosen name has the original extension and is no shorter than the original name |
| FileNames.FindFreeName | main.py:130-135 | the collision loop ends, on the first free try, which is not taken |
| FileNames.SuffixedAt | main.py:132-133 | inserting the counter into stem + extension gives stem, "(counter)", extension |
| FileNames.CompoundingSuffixes | main.py:131-135 | the tries for "a.txt" are "a(1).txt" and then "a(1)(2).txt", because the loop suffixes the already suffixed name |
| FileNames.HiddenFileSuffix | main.py:132-133 | a name whose only dot leads, such as ".bashrc", gets its counter at the end |
| Flatten.FlattenFrom | main.py:121-137 | the moves produce one entry per file of the walk, none lost and none added |
| Flatten.Flattened | main.py:114-137 | flattening keeps whether the folder exists and its sub-directories, and keeps the number of files |
| Flatten.FlattenFromShape | main.py:121-137 | after the moves every file is in the root with its size and kind, and files already in the root are untouched |
| Flatten.MoveFilesToTop | main.py:114-137 | the move loop, which re-reads the root's names for every existence test, gives the flattened volume |
| Flatten.RenameStep | main.py:130-137 | one rename keeps the move loop's invariant: the files handled so far are the flattened prefix, and the rest of the walk is unchanged |
| Flatten.SkipStep | main.py:126-127 | a file already in the root is passed over and changes nothing |
| Flatten.OccupiedAfterMove | main.py:137 | moving a file into the root under a name adds exactly that name to the names taken there |
| Flatten.FlattenFromFresh | main.py:130-137 | no chosen name was taken before or is chosen twice, so paths stay distinct |
| Flatten.FlattenWellFormed | main.py:126-137 | flattening a real tree overwrites nothing: the result is again a real tree, and every file is in the root |
| Flatten.FlattenIdempotent | main.py:121-127 | a second flatten changes nothing |
| Flatten.MovedKeepsExtension | main.py:130-135 | a moved file keeps its extension and its name does not get shorter |
| Flatten.TwoSameNamedFiles | main.py:121-137 | two "a.txt" files in two sub-directories of an empty root become "a.txt" and "a(1).txt" |
| Driver.Decide | main.py:142-157 | the run goes ahead iff the answer is neither -1 nor -2 and a folder was chosen; -1 means cancelled; -2 means no criterion |
| Driver.RunTool | main.py:140-157 | a run that does not go ahead changes nothing and attempts nothing; a run that goes ahead removes first and then flattens what is left |
| Driver.MissingFolderUnchanged | main.py:79-81 | removal followed by flattening leaves a missing folder exactly as it was |
| Driver.RunKeepsTree | main.py:145-149 | a finished run on a real tree leaves a real tree whose files all sit in the root under distinct names |

## Left out

- The dialogs (Tk windows, radio buttons, window centring arithmetic, the end message box) are not modelled. Their answers are the parameters `criterion` and `folder`.
- The printed messages are not modelled. The removal log (`Attempt`) and `Outcome` stand for what is printed.
- The operating system is an abstract input: `os.walk`, `os.path.isfile`, `os.path.getsize`, `os.remove` and `os.rename` act on the `Volume` value. An OS failure of a removal is the `failing` set; other reasons are not modelled.
- `os.path.getsize` and `os.rename` raising exceptions (a file vanishing between the walk and the call, permissions) is not modelled. In the source such an exception ends the program.
- File contents are represented by their size only, which is all the source compares.
- Sizes are taken once, at the walk. The source reads them again in the criterion-2 comprehension, but they cannot change in between, because no file of a group is removed before that group is planned.
- Symbolic links, walk cycles and paths given with `..` are not modelled. A path is its directory relative to the root plus its name, and `os.path.abspath` comparison is path equality.
- Concurrent changes to the folder by other programs are not modelled.
- Case-insensitive file systems are not modelled: names are compared exactly.
- `os.path.splitext` is modelled on a base name without separators, which is what the source passes it.
- The move loop's walk is the file list from before the first move. This matches the top-down walk, which lists the root before anything is moved into it.
- Dedupe.Group: only the head of a group is proved to be the first file found (`SurvivorIsFirstFound`). The order of the later files of a group is not stated in a contract; it changes only the order of log entries, not which files remain.
- Dedupe.KeyOrder: the order of the keys (first occurrence) is not stated in a contract; like `SameSize`'s order, it changes only the order of log entries.
- Driver.RunTool: flattening takes the files left by removal in the order the first walk listed them. The source walks the folder a second time, and the model assumes that walk lists the remaining files in the same relative order. That order decides which of two same-named files keeps its name and which gets `(1)`.
- Sub-directories emptied by the moves stay in place, as in the source. Their names keep occupying the root.
- A folder path that exists but names a regular file is not modelled. The walk finds nothing in it, and the model's `present` flag is about directories.
