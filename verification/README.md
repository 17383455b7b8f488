# python-quilt patch queue, modelled in Dafny

This project models the core of python-quilt, a Python re-implementation of
the `quilt` patch-queue tool. A quilt queue is a working tree together with
these files:

- a **series** file (`patches/series`) listing patches in order, one per
  line. A line can carry `-p<n>`/`--strip`, `-R`/`--reverse` and a
  `# comment`.
- an **applied-patches database** (`.pc/applied-patches`) listing the
  patches pushed so far, gated by a `.version` file.
- one **backup directory** per applied patch (`.pc/<patch>/`). It holds the
  originals of the files the patch touched and a `.timestamp`.
- **sentinels** (`.pc/<patch>~refresh`) left by forced pushes.

The commands modelled are `push`, `pop`, `new`, `delete`, `import`, `add`,
`revert` and `refresh`. The queue's own helpers are modelled too:

- the series parser and writer (`PatchLine`, `PatchSeries`, `Db`);
- `Patch`, `RollbackPatch` and `Diff` of the patch module;
- `Backup.backup_file`;
- the error classes.

The filesystem is a value, `Queue.Store`:

- the series, database and version files as optional text;
- the patch files as a map;
- each backup directory as a map from path to content;
- the sentinels as a set;
- the working tree as a map from path to content;
- the set of symbolic links.

Every command is a pure function from a store to an `Outcome`: the store it
leaves, the signals it emits and the error it raises. Effects made before an
error are kept, as they are when a Python exception escapes half-way through
a command.

The external programs are parameters:

- `patch` is a `PatchProgram`: from the command line `Patch.run` builds, the
  patch text and the tree, it gives an exit status and the new tree.
- `diff` is a `DiffProgram`.

The model builds both command lines exactly. `Patching.DecodePatchArgv`
proves that `patch` can read back every option it was given.

The queue invariant is `Queue.Consistent`:

- the database opens;
- the series names are distinct and plain;
- the applied names are a prefix of the series names.

The push, pop, new, delete and import laws prove that the commands keep it.

Modules follow the source files:

| module | source |
|---|---|
| `PyStr` | the Python string functions |
| `Errors` | `error.py` |
| `Patching` | `patch.py` (`Patch`, `run`, `get_header`) |
| `DiffTool` | `patch.py` (`Diff`) |
| `Getopt`, `SeriesLine` | `PatchLine` |
| `Series`, `SeriesLaws` | `PatchSeries` |
| `SeriesDb` | reading and saving, `Db` |
| `Queue` | the store |
| `Backups` | `backup.py` and `RollbackPatch` |
| `Push` | `push.py` |
| `Pop` | `pop.py` |
| `Insertion` | adding after the top |
| `New` | `new.py` |
| `Delete` | `delete.py` |
| `PatchImport` | `patchimport.py` |
| `Add` | `add.py` |
| `Revert` | `revert.py` |
| `Refresh` | `refresh.py` |

## Model

| member | source | states |
|---|---|---|
| Errors.MessagesTellKinds | quilt/error.py:22-63 | A message tells its error kind: the texts of NoPatchesInSeries, NoAppliedPatch and AllPatchesApplied without a top differ from each other and from every UnknownPatch and AllPatchesApplied text naming a patch, and no UnknownPatch text is an AllPatchesApplied one. All four are quilt errors. |
| Errors.MessagesNameThePatch | quilt/error.py:44-63 | Different patch names give different UnknownPatch and AllPatchesApplied messages, so a message identifies its patch. |
| Patching.WithSeparator | quilt/patch.py:47-51 | The prefix handed to `patch` ends in '/' and starts with the prefix given: a separator is added only when missing. |
| Patching.PatchArgv | quilt/patch.py:38-84 | The command line starts with "patch" and "-p<strip>". `patch` reads back from it exactly the intended invocation: the reverse flag is the exclusive or of the call's and the patch's own, the prefix has its separator, and the input is the patch's path. |
| Patching.DecodePatchArgv | quilt/patch.py:38-84 | Every invocation survives being spelled as a command line and read back: building the command line loses no option. |
| Patching.FlagOfInjective | quilt/patch.py:44-82 | Different options of `run` are spelled with different flags, so the command line is unambiguous. |
| Patching.HeaderIsPrefix | quilt/patch.py:90-105 | The header is a prefix of the patch file's text: the concatenation of its lines up to, not including, the first line starting with "---" or "Index:", or all lines when none does. When it stops short of the end, such a line exists. |
| Getopt.ShortStripSeparate | quilt/db.py:83-93 | "-p" alone takes the next word as the strip level, and fails when no word follows. Stated for getopt on the split argument words, the corrected call. |
| Getopt.ShortStrip | quilt/db.py:83-93 | "-p<v>" sets the strip level to v. Stated for getopt on the split argument words, the corrected call. |
| Getopt.ShortReverse | quilt/db.py:83-93 | "-R" sets reverse. Stated for getopt on the split argument words, the corrected call. |
| Getopt.LongReverse | quilt/db.py:83-93 | "--reverse" sets reverse. Stated for getopt on the split argument words, the corrected call. |
| Getopt.LongStrip | quilt/db.py:83-93 | "--strip=<v>" sets the strip level to v. Stated for getopt on the split argument words, the corrected call. |
| Getopt.ShortUnknown | quilt/db.py:83-93 | A single-dash word with a letter other than p or R is a getopt error. Stated for getopt on the split argument words, the corrected call. |
| Getopt.UniquePrefix | quilt/db.py:83-93 | "--rev" is read as "--reverse": a unique prefix selects its long option. Stated for getopt on the split argument words, the corrected call. |
| Getopt.StopsAtOperand | quilt/db.py:83-93 | Option parsing stops at the first word that is not an option. Stated for getopt on the split argument words, the corrected call. |
| Getopt.TestLineStripReverse | tests/test_db.py:82 | "-p0 --reverse" selects strip "0" and reverse. |
| Getopt.TestLineLongStrip | tests/test_db.py:83 | "--strip=0 -R" selects strip "0" and reverse. |
| Getopt.TestLineUnknownOption | tests/test_db.py:96-100 | "-X" makes getopt raise its error, which is not fatal: the line keeps the defaults. |
| SeriesLine.ParseLine | quilt/db.py:53-95 | The line's text is the raw line without its line break. A patch name is non-empty, holds no ' ' and no '#', and does not start with whitespace; a tab inside it stays part of the name. A line starting with '#' is a comment with no patch. |
| SeriesLine.ParseText | quilt/db.py:57-80 | On a line that is not a comment line, the comment is what follows the first '#', none without one. A patch is named exactly when the text before that '#' is not all whitespace, and its name is the first ' '-separated word of that text, stripped. |
| SeriesLine.BareNameDefaults | quilt/db.py:74-95 | A name with nothing after it gets strip "1" and no reverse, whatever reads the options. |
| SeriesLine.PlainNameLine | quilt/db.py:53-95 | A plain name on its own line is read back as exactly that patch, with default options and no comment. |
| SeriesLine.NameWithOptions | quilt/db.py:53-95 | A plain name followed by option words gets the strip level and direction those words select. |
| SeriesLine.ParseIdempotent | quilt/db.py:53-58 | Parsing a parsed line's text again, with or without its line break, gives the same line. |
| SeriesLine.AsWrittenIgnoresOptions | quilt/db.py:83-93 | The parser as written gives every line strip "1" and no reverse, whatever options follow the name. |
| SeriesLine.AsWrittenHasPatch | quilt/db.py:53-95 | The parser as written finds the same patch name as the corrected one; only the options differ. |
| SeriesLine.OptionsFinding | quilt/db.py:83-93 | On the test line "patch1 -p0 --reverse" the corrected parser gives strip "0" and reverse, and the parser as written gives the defaults. |
| SeriesLaws.Ends | quilt/db.py:185-199 | In a series without repeated names the top patch has no patch after it, and the first patch has none before it by either reading of `patch_before`. |
| SeriesLaws.AppendedIsTop | quilt/db.py:139-145 | After `add_patch` the appended patch is the top patch, and the first patch is unchanged. |
| SeriesLaws.InsertedIsFirst | quilt/db.py:151-161 | After `insert_patches` the first inserted patch is the first patch, and the top patch is unchanged. |
| Series.InListIffNamed | quilt/patch.py:106-108 | Membership in a list of patches, which goes through `Patch.__eq__`, holds exactly when the name is among the list's names, whatever the strip level and direction. |
| Series.Position | quilt/db.py:115-117 | A name is accepted exactly when the series knows it, and is otherwise refused with InvalidPatch. |
| Series.PatchesAfter | quilt/db.py:206-229 | The patches after a known patch are a proper suffix of the series' patches. An unknown name is refused. |
| Series.PatchesBefore | quilt/db.py:214-243 | The patches before a known patch are a proper prefix. An unknown name is refused. |
| Series.PatchesUntil | quilt/db.py:220-259 | The patches up to a known patch are a non-empty prefix that ends with that patch. |
| Series.PatchBeforeAsWritten | quilt/db.py:245-252 | As written, whenever it returns a patch, that patch is the first patch of the series. |
| Series.AddPatch | quilt/db.py:139-145 | Adding an entry appends its patch, keeps the name index well formed and keeps every known name known. |
| Series.InsertPatches | quilt/db.py:151-161 | The inserted patches come first, before all old ones. The index stays well formed, and old and new names are known. |
| Series.AddPatches | quilt/db.py:163-176 | With no `after`, it inserts at the front. An unknown `after` is refused. An `after` among the new patches makes `list.index` fail. Otherwise the new patches follow `after`'s line exactly. |
| Series.RemovePatch | quilt/db.py:178-183 | Removing a known patch drops exactly its line. An unknown name is refused. |
| Series.Partition | quilt/db.py:201-259 | A known patch splits the series into the patches before it, itself and the patches after it. `patches_until` is the first part with the patch. |
| SeriesLaws.ExactDistinct | quilt/db.py:139-145 | In a series whose every line is indexed, no two patches share a name. |
| SeriesLaws.ExactPosition | quilt/db.py:206-265 | In such a series every listed patch is known, and the positional queries split the patches at its own position. |
| SeriesLaws.Neighbours | quilt/db.py:231-252 | `patch_after` and the corrected `patch_before` give a patch's two neighbours. `patch_before` as written gives the first patch. |
| SeriesLaws.PatchBeforeDiffers | quilt/db.py:245-252 | The `patch_before` as written is wrong for every patch with at least two patches before it. |
| SeriesLaws.SpliceExact | quilt/db.py:163-176 | Adding distinct names the series does not know keeps every line indexed. |
| SeriesLaws.RemoveExact | quilt/db.py:178-183 | Removing a patch keeps every line indexed, and the patches lose exactly the patch's position. |
| SeriesDb.Read | quilt/db.py:123-130 | A missing file reads as an empty series. Otherwise every line is parsed in order. |
| SeriesDb.ReadSaveRead | quilt/db.py:123-137 | Reading, saving and reading again gives the very same series: lines, patches, comments and which line indexes each name. |
| SeriesDb.SaveReadNames | quilt/db.py:132-137 | Saving a series whose lines reparse and reading it back gives the same patch names in the same order. |
| SeriesDb.OpenDb | quilt/db.py:274-308 | The database opens exactly when `.version` is missing or starts with "2". Otherwise it raises DbVersion. |
| SeriesDb.DbReopens | quilt/db.py:280-293 | A database that opened opens again, the same, after `Db.save()`: the version written always passes the gate. |
| SeriesDb.VersionExamples | quilt/db.py:299-308 | The gate accepts "2" and "23" and refuses "", "1" and "32". |
| Queue.SavedNames | quilt/db.py:123-137 | A series of stable lines, saved and read back, lists the same names in the same order. |
| Queue.ReadExact | quilt/db.py:123-145 | A series read from a file without repeated names has every line indexed. |
| Queue.ConsistentExact | quilt/db.py:268-318 | In a consistent store both the series and the database have every line indexed, and every database line is stable. |
| Queue.AppliedPrefix | quilt/db.py:268-318 | In a consistent store the applied names are the first names of the series. |
| Queue.StillConsistent | quilt/db.py:290-293 | After a database save, the store is consistent again when the applied names are still a prefix of the series names. |
| Queue.KnownIffListed | quilt/db.py:261-265 | In a series whose every line is indexed, a name is known exactly when it is listed. |
| DiffTool.DiffLabels | quilt/patch.py:166-191 | The command ends with the two sides. Each side shows its label, or else its path, as `diff` reads the `--label` words `Diff.run` passes. |
| DiffTool.RunStatus | quilt/patch.py:166-191 | `Diff.run` accepts status 0 and 1 and raises for a status above 1. |
| DiffTool.EqualStatus | quilt/patch.py:193-207 | `Diff.equal` means equal for 0 and different for 1, and raises for anything else. |
| DiffTool.StatusesAgree | quilt/patch.py:166-207 | Wherever both read a status they agree it is not an error. `equal` also refuses the negative statuses that `run` lets pass. |
| Backups.Touched | quilt/patch.py:38-84 | The backups `patch --backup` leaves: exactly the changed files, with their content before, or empty for a created file. |
| Backups.Rollback | quilt/patch.py:128-144 | A non-empty backup is restored over its file. An empty backup removes its file without `keep` and leaves it with `keep`. Files without a backup are untouched. |
| Backups.RollbackRestores | quilt/patch.py:128-144 | Rolling back a `patch` run restores the tree it started from, except that touched files that were empty are gone. |
| Backups.RollbackRestoresExactly | quilt/patch.py:128-144 | When no touched file was empty, the rollback restores the tree exactly. |
| Backups.NothingTouched | quilt/patch.py:38-84 | A run leaves no backups exactly when it changed nothing. |
| Backups.KeepSparesEmptyBackups | quilt/patch.py:136-144 | With `keep` no working file is removed. Without it, exactly the files whose backups are empty are removed. |
| Backups.BackupFile | quilt/backup.py:32-45 | An existing empty file is skipped unless `copy_empty` is set. Otherwise the directory exists afterwards and holds the file's content, or an empty placeholder for a missing file. Every other entry is as it was. |
| Backups.BackupFileIdempotent | quilt/backup.py:32-45 | Backing a file up twice, with the tree unchanged, is the same as backing it up once. |
| Backups.BackupThenRollback | quilt/patch.py:128-144 | Rolling back from a directory that holds a file's placeholder removes the file; from one holding its copy, it restores the copy. |
| Push.ApplyOne | quilt/push.py:44-89 | An existing sentinel refuses the patch before anything happens. Otherwise `applying_patch` comes first. Only the tree and the patch's own directory and sentinel change. On success the patch's line is appended to the in-memory database; on an error it is appended or not. |
| Push.ApplyEach | quilt/push.py:111-112 | A run that applies the patches in turn without error appends exactly their lines and patches to the in-memory database. The series, database file, version and patch files stay. |
| Push.UnappliedAsWrittenIff | quilt/push.py:101-104 | The removal loop as written fails with ValueError exactly when some applied patch is among the pending ones. Otherwise it leaves them unchanged. |
| Push.ApplyWithoutFile | quilt/push.py:57-82 | A patch without a patch file leaves the tree as it was, gets its backup directory, is appended to the database, and fires `applied_empty_patch(patch, False)`. |
| Push.ApplySucceeds | quilt/push.py:59-89 | A successful run is kept: the tree is the one `patch` left, the sentinel is gone, and the patch is the new top. |
| Push.ApplyBacksUp | quilt/push.py:59-89 | After a successful run the backup directory holds the original of every changed file other than `.timestamp`, empty for a created one; its `.timestamp` is empty, as `touch` truncates it. |
| Push.ApplyFailsRollsBack | quilt/push.py:62-69 | A failed run without `force` leaves the sentinel, deletes the backup directory, leaves the database alone and restores every non-empty changed file. |
| Push.ApplyForced | quilt/push.py:59-89 | A failed run with `force` is kept: the sentinel stays, the patch is appended, and an error is raised. |
| Push.PushNeedsPatches | quilt/push.py:91-156 | With the series missing or empty, every push command raises NoPatchesInSeries and changes nothing. |
| Push.NextAtPrefixEnd | quilt/push.py:118-136 | In a consistent store the patch after the top is the series patch where the applied list ends. |
| Push.ApplyNextIs | quilt/push.py:118-136 | `apply_next_patch` applies the series patch where the applied list ends, and fails when there is none. |
| Push.ApplyNextGrows | quilt/push.py:118-136 | A completed `apply_next_patch` adds exactly the next series patch to the applied ones. The store stays consistent. |
| Push.AllApplied | quilt/push.py:118-156 | With every patch applied, `apply_next_patch` and `apply_all` raise AllPatchesApplied naming the top, and change nothing. |
| Push.ApplyAllIs | quilt/push.py:138-156 | `apply_all` applies every series patch from where the applied list ends, in order. |
| Push.ApplyAllCompletes | quilt/push.py:138-156 | A completed `apply_all` leaves every series patch applied, in series order. The store stays consistent. |
| Push.UnappliedPrefix | quilt/push.py:99-104 | Removing the applied patches of a consistent store, as intended, from the series patches up to position i leaves exactly the series patches from the end of the applied list to i. |
| Push.ApplyPatchIs | quilt/push.py:95-116 | Corrected `apply_patch(name)`: it applies the series patches from the end of the applied list up to the named one. If that patch is already applied, it raises AllPatchesApplied and changes nothing. |
| Push.ApplyPatchReaches | quilt/push.py:95-116 | A completed `apply_patch(name)`, corrected, leaves the applied patches equal to the series up to and including the named patch. |
| Push.ApplyPatchAsWrittenFails | quilt/push.py:101-104 | `apply_patch` as written fails, changing nothing, whenever some patch is applied. |
| Pop.UnapplyOne | quilt/pop.py:39-51 | Popping one patch changes only the tree and that patch's directory and sentinel. It succeeds exactly when the directory exists and the database knows the patch. A missing directory raises NoSuchFile. |
| Pop.UnapplyBack | quilt/pop.py:59-60 | Popping a list, last first, emits nothing and leaves the series, database file, version and patch files. Every patch not in the list keeps its directory and sentinel. |
| Pop.Close | quilt/pop.py:62-80 | The end of a pop keeps the error, the series, the tree, the directories, the sentinels and the patch files, and emits no signal. |
| Pop.PopNeedsApplied | quilt/pop.py:35-80 | With no applied patch, every pop command raises NoAppliedPatch and changes nothing. |
| Pop.UnapplyBackRemoves | quilt/pop.py:59-60 | Popping, last first, patches that end the database and have their directories leaves exactly the patches before them. Each loses its directory and sentinel, and no other patch changes. |
| Pop.UnapplyPatchIs | quilt/pop.py:53-62 | `unapply_patch(name)`, with the name wrapped as a `Patch`, for the applied patch at position i pops the patches after it. |
| Pop.UnapplyPatchLeaves | quilt/pop.py:53-62 | In a consistent store, `unapply_patch(name)` with the name wrapped as a `Patch` keeps exactly the first i+1 applied patches. Each popped patch loses its directory and sentinel, and the store stays consistent. |
| Pop.UnapplyPatchAsWritten | quilt/pop.py:53-62 | `unapply_patch` as written, for the argument it is given: a `Patch` argument behaves as the corrected pop, and only a `Patch` argument can succeed, because the database's keys are `Patch` objects that never equal a bare name. |
| Pop.UnapplyPatchAsWrittenFails | quilt/pop.py:53-58 | For every applied patch where the corrected pop succeeds, the bare name the command line passes raises InvalidPatchError("Patch <name> is not known.") and changes nothing. |
| Pop.UnapplyAllEmpties | quilt/pop.py:73-80 | `unapply_all` empties the database, and every patch loses its directory and sentinel. |
| Pop.UnapplyTopShrinks | quilt/pop.py:64-71 | `unapply_top_patch` pops exactly the top patch. |
| Pop.UnapplyTopMissingDir | quilt/pop.py:39-51 | A top patch without a backup directory makes pop raise NoSuchFile for that directory, changing nothing. |
| Pop.PushThenPop | quilt/pop.py:39-51 | Pushing a cleanly applying patch and popping it restores the directories, the sentinels, the database's patches and the tree. Only touched files that were empty are lost. |
| Pop.PushThenPopExactly | quilt/pop.py:39-51 | When none of the touched files was empty, push then pop gives back the store exactly. |
| Insertion.AddAfterTop | quilt/new.py:63-65 | Only the series file changes. Adding after the top fails only when there is a top: InvalidPatch when the series does not know it, NotInList when it does but the new patches include it. |
| Insertion.AddAfterTopPlaces | quilt/db.py:163-176 | In a consistent store, fresh, distinct, plain names go in after the applied patches. The series lists the applied patches, the new ones and the rest. Only the series file changes, and the store stays consistent. |
| New.Create | quilt/new.py:42-67 | A name already in the series is refused with PatchAlreadyExists before anything is written. On success `patch_created` fires, the patch file is empty, an existing directory of the name is deleted and a missing one created, and the database, tree and sentinels stay. |
| New.Prepared | quilt/new.py:51-61 | Preparing a new patch empties (or creates) its patch file, deletes an existing backup directory of the name or creates an empty one, and changes no other directory and nothing else. |
| New.CreatePlaces | quilt/new.py:42-67 | A fresh plain name is placed right after the applied patches, so it is the next patch a push applies. The store stays consistent. |
| Delete.DeleteIn | quilt/delete.py:47-72 | An empty series raises NoPatchesInSeries and an unknown name UnknownPatch, before anything happens. `deleting_patch` tells whether the patch is the top. On success `remove` deletes the patch file. A patch that is not the top leaves the database, backups, sentinels and tree alone. |
| Delete.DeletePatch | quilt/delete.py:93-98 | Without a name, or with an empty one, and nothing applied, it raises NoAppliedPatch and changes nothing. |
| Delete.DeleteUnapplied | quilt/delete.py:47-72 | Deleting an unapplied patch removes exactly that name from the series. The database, backups and tree stay, and the store stays consistent. |
| Delete.DeleteTop | quilt/delete.py:47-72 | Deleting the top patch pops it and drops it: the database keeps the others, its directory and sentinel are gone, and the store stays consistent. |
| Delete.DeleteTopMissingDir | quilt/delete.py:53-59 | A top patch without a backup directory is announced, then raises NoSuchFile, and nothing else changes. |
| Delete.DeleteNextAsWrittenFails | quilt/delete.py:79-86 | `delete_next` as written never deletes anything in a consistent store with an applied patch. |
| Delete.DeleteNextDeletes | quilt/delete.py:74-86 | The corrected `delete_next` deletes the first unapplied patch. It fails with "No next patch" exactly when every patch is applied. |
| Delete.DeleteBuriedBreaks | quilt/delete.py:47-72 | An applied patch below the top is dropped from the series without being popped, which leaves the store inconsistent. |
| Delete.NewThenDelete | quilt/delete.py:47-72 | Creating a fresh patch and deleting it with its file restores the series and the patch files, and never touches the database. |
| PatchImport.ImportNames | quilt/patchimport.py:39-45 | Importing names emits no signal and changes only the series file. |
| PatchImport.ImportPatch | quilt/patchimport.py:32-63 | A database with a refused version raises before anything is copied, and nothing changes. Otherwise a missing source raises NoSuchFile and changes nothing, and an existing one gives the patch files its content at the destination. The database, backups, sentinels and tree never change. |
| PatchImport.ImportPatches | quilt/patchimport.py:32-78 | A database with a refused version raises before anything is copied, and nothing changes. Importing emits no signal and never changes the database, backups, sentinels or tree. |
| PatchImport.CopyAll | quilt/patchimport.py:68-76 | The copies succeed exactly when every source exists. They add exactly the base names of the sources to the patch files. |
| PatchImport.DestinationNamed | quilt/patchimport.py:47-63 | The last part of the copy's key is the name the series registers. |
| PatchImport.ImportPatchMisfiled | quilt/patchimport.py:51-63 | With a new name that has a directory part, the copy's key is not the registered name, so the import leaves the registered name with a patch file only if it already had one. |
| PatchImport.OptionsNotSaved | quilt/patchimport.py:39-45 | The strip level and direction of an import are not written to the series: read back, the patch has the defaults. |
| PatchImport.ImportNamesPlaces | quilt/patchimport.py:39-45 | In a consistent store, fresh, distinct, plain names go right after the applied patches in the order given. The store stays consistent. |
| PatchImport.ImportPatchRenames | quilt/patchimport.py:47-63 | With a new name, the series registers its last part, whatever the file was called. |
| PatchImport.ImportPatchesPlaces | quilt/patchimport.py:65-78 | When all sources exist and their base names are fresh, every file is copied and the base names go right after the applied patches. |
| Add.FirstHolding | quilt/add.py:48-62 | The first of the given patches whose backup directory holds the file, or none exactly when none does. |
| Add.LaterPatches | quilt/add.py:52-56 | The applied patches after the target, none when the database does not know it. |
| Add.AddFile | quilt/add.py:70-97 | Add changes nothing when it raises. When it succeeds, a target patch was found. |
| Add.AddTo | quilt/add.py:87-93 | Adding succeeds exactly when the file is not in the patch, no later applied patch holds it and it is not a symbolic link. It then backs the file up into the patch's directory and changes nothing else; an error changes nothing. |
| Add.AddFiles | quilt/add.py:99-101 | Adding several files emits no signal, changes only backups and keeps every backup there was. |
| Add.AddFileKeeps | quilt/add.py:70-97 | A successful add backs the file up into the target patch, keeps every other backup and leaves the target as it was for the next file. |
| Add.AddFilesAdds | quilt/add.py:99-101 | When all files are added, each is backed up in the one target patch. When one fails, every earlier file is backed up and adding the failing file to the store left behind raises that same error. |
| Add.AddFilesStops | quilt/add.py:99-101 | The failing file's position, with every earlier file backed up in the target. |
| Add.AddSucceedsIff | quilt/add.py:70-97 | Adding succeeds exactly when a target exists, the file is in neither it nor a later applied patch, and it is not a link. |
| Add.AddTargetChoice | quilt/add.py:76-85 | Without a name the target is the top applied patch, else the first series patch. With neither, add raises "No patch available" and changes nothing. |
| Add.AddRefusesLater | quilt/add.py:48-62 | A file held by a later applied patch is refused, naming the first such patch, and nothing changes. |
| Add.LaterFirst | quilt/add.py:48-62 | In a database whose every line is indexed, the first later holder is the patch at the position that holds the file. |
| Add.AddTwiceRefused | quilt/add.py:40-46 | Adding a file twice to a patch is refused the second time with "already in patch", and nothing changes. |
| Add.AddThenRollback | quilt/add.py:64-68 | Popping restores what adding saved: whatever the tree became, a rollback gives the file back as it was added, or removes it if it was missing or empty. |
| Revert.RevertTarget | quilt/revert.py:91-94 | A new patch for a non-empty name, else the top applied patch. |
| Revert.Rebuilt | quilt/revert.py:73-82 | With a missing or empty patch file, nothing is run and the rebuilt file is the backup itself, none for an empty backup. |
| Revert.RevertIn | quilt/revert.py:99-129 | An error changes nothing. A file not in the patch is refused. Success means the file is in the patch and in no later applied patch, and emits exactly one signal, reverted or unchanged. Only the backups and the tree can change. |
| Revert.RevertFile | quilt/revert.py:85-129 | An error changes nothing, and only the backups and the tree can change. |
| Revert.RevertFiles | quilt/revert.py:131-133 | Reverting several files changes only the backups and the tree. |
| Revert.RevertFileReports | quilt/revert.py:85-129 | A successful revert of one file keeps the applied list, so the next file gets the same target, and reports the file as reverted or unchanged against it. |
| Revert.RevertFilesReports | quilt/revert.py:131-133 | When every file reverts, there is one signal per file, in the files' order, each naming the same target patch. |
| Revert.RevertFilesStops | quilt/revert.py:131-133 | A failing revert stops at some file: each earlier file has its signal, and reverting the failing file in the store left behind raises the same error and changes nothing. |
| Revert.RevertRefusesLater | quilt/revert.py:57-71 | A file held by a later applied patch is refused, naming the first such patch, and nothing changes. |
| Revert.RevertCreatedGone | quilt/revert.py:104-108 | A created file that is now missing is reverted by dropping its empty backup. The tree is untouched. |
| Revert.RevertRestores | quilt/revert.py:110-129 | Otherwise only the working file can change, and it then holds the file as the patch makes it out of the backup. |
| Revert.RevertToolFails | quilt/revert.py:73-82 | A failing `patch` run in the temporary directory raises with its command line and status, and nothing changes. |
| Revert.RevertWithoutDiff | quilt/revert.py:73-82 | With an empty or missing patch file the working file goes back to its backup. |
| Revert.RevertTwice | quilt/revert.py:85-129 | Reverting is idempotent: a second revert of the same file changes nothing and reports it unchanged. |
| Revert.RevertTargetTop | quilt/revert.py:94-97 | Without a name the top applied patch is reverted. With nothing applied, revert raises "Nothing to revert". |
| Refresh.Collect | quilt/refresh.py:53-62 | The diffs of the listed files, skipping `.timestamp`. A diff status above 1 raises with the command line. |
| Refresh.RefreshPatch | quilt/refresh.py:38-49 | Refresh changes nothing when it raises. Without a name it refreshes the top patch, and with none raises "No patch applied". |
| Refresh.RefreshIn | quilt/refresh.py:50-72 | A missing directory, a failing diff or an empty result raises and changes nothing. Otherwise the patch file holds the diffs, the timestamp is touched, the sentinel is removed and nothing else changes. |
| Refresh.NothingToRefreshIff | quilt/refresh.py:63-64 | "Nothing to refresh" is raised exactly when the diffs print nothing. |
| Refresh.CollectEmptyIff | quilt/refresh.py:55-64 | With an honest diff, the diffs print nothing exactly when no listed file differs from its backup. |
| Refresh.RefreshWhenChanged | quilt/refresh.py:50-72 | A patch is rewritten exactly when one of its files differs from its backup. Otherwise "Nothing to refresh" is raised. |
| Refresh.RefreshTwice | quilt/refresh.py:50-72 | Refreshing again at once writes the same text and leaves the store as the first refresh left it. |
| Refresh.CollectSkipsTimestamp | quilt/refresh.py:55-57 | Touching `.timestamp` does not change the diffs. |
| Refresh.RefreshTargetTop | quilt/refresh.py:42-48 | Without a name the top applied patch is refreshed. With nothing applied, refresh raises "No patch applied". |

## Left out

- Signals (`quilt/signals.py`) are modelled as a list of events. Only their
  order is stated; receivers are not modelled.
- Directories are not modelled: a tree is a flat map from path to content.
  - `Directory.create` and the directory half of `content()` are left out.
  - So are `get_absdir` and absolute paths.
  - File modes (`chmod`) are left out too.
- `TmpFile` and `TmpDirectory` are I/O. The temporary directory's name is a
  parameter of `Revert`.
- The order in which a backup directory lists its files is a parameter of
  `Refresh` and of the rollback.
- The `patch` and `diff` programs are parameters.
  - The model assumes `patch --backup` backs up exactly the files it changes.
  - `diff -q` in revert is read as content equality; its status above 1 is
    not modelled.
- `push.py:86` raises the undefined name `QuiltExceptions`; the model raises
  `QuiltError` there.
- `quilt/pop.py` does not run as written:
  - the names `quilt_patches` and `self.prefix` are unbound;
  - `reverse` and `self.top_patch` do not exist;
  - line 77 lacks a colon;
  - `os` is used at line 40 but never imported.
  The model uses the evident logic: the `.pc` directory of the patch,
  `reversed`, `db.top_patch()`, and `import os`. It also wraps the name
  given to `unapply_patch` in a `Patch` before the lookup (see "## Findings").
- Pop has no sentinel check: a patch left unrefreshed by a forced push is
  popped like any other.
- SeriesDb.Read / Push.PushArgv: every command reads series lines with the
  corrected option parser `SeriesLine.ParseLine` (see "## Findings"). As
  written, `db.py:83-93` gives every line strip 1 and forward, so a line
  "p -p0 -R" is pushed with `patch -p1`; that parser is
  `SeriesLine.ParseLineAsWritten`.
- Getopt.TestLineUnknownOption: states that getopt raises for "-X" and that
  the defaults stay. The error message that `db.py:93` prints to stderr,
  which `tests/test_db.py:96-100` looks for, is not modelled: the model has
  no stderr stream. As written, that print raises NameError, because
  `db.py` does not import `sys`.
- New.Create: `new.py:24` imports `PatchAlreadyExists`, which
  `quilt/error.py` does not define, so the module cannot be imported as
  written. The model supplies that error kind, with the message
  "Patch <name> already exists".
- Backups.BackupFile: `backup.py:33` reads `self.filename`, which the class
  never sets, so every call raises as written; the model reads the
  `filename` argument. `backup.py:40` copies an existing file flat into the
  destination directory, while `backup.py:42-44` places a missing file's
  placeholder at `dest_dir/dirname(file)/file`. The model keys both by the
  file's full path, so it agrees with both only for files at the top of the
  tree.
- `delete.py:48` calls `is_empty()` on the series, which has no such
  method. The model reads it as "the series lists no patch".
- `quilt/add.py` calls a `Backup` API that does not exist. The model uses
  `backup_file` with `copy_empty` set.
- `add.py` and `revert.py` use `Patch` and `stat` without importing them.
  The model treats them as imported.
- `revert.py` expects `backup_file` to return the copy, but it returns
  nothing. As written, `tmp_file` is then always false, so `revert_file`
  reports `file_unchanged` and leaves the working file alone
  (`revert.py:112`, `revert.py:128-129`), if `backup.py:33` has not already
  raised. The model takes the temporary copy directly and reverts the file.
  For a file the patch created, which is still in the tree, the backup is
  empty. `backup.py:35-36` returns nothing for an empty file even once
  `backup_file` returns its copy, so a corrected `revert.py` would still
  report `file_unchanged`. The model instead runs `patch` on an empty seed
  (`Revert.Seed`) and reverts the file to the text the patch creates.
- A failing `patch` run during revert is raised, as `Process.run` does.
- `Refresh` writes only the diffs: the patch header is not kept and no
  editor is run, as in the code.
- `New.Create` clears an existing backup directory of the new name, as
  `new.py` does.
- `Delete` builds its `Pop` helper properly. `delete.py:45` leaves out the
  patches directory.
- `import_patch` with a new name such as `sub/x` copies the file to
  `sub/x` but registers `x`, which then has no patch file of its own
  (`PatchImport.ImportPatchMisfiled`); a later push finds no file for it. The model
  keeps this behaviour.
- Import sources are a map from path to content. A copy into a directory is
  modelled by the destination key.
- `quilt/import.py` is not part of this model.
- `quilt/cli/` (the command-line front end), `utils.py` process handling and
  `setup.py` are not part of this model.
- Add.AddRefusesLater: stated for the list of later patches. The link to
  series positions is the separate lemma `Add.LaterFirst`, because a
  combined statement over a consistent store was too costly to prove.

## Findings

| source | as written | input that shows it | evidently intended | confidence | as-written member | corrected member |
|---|---|---|---|---|---|---|
| quilt/db.py:83-93 | The argument text is given to getopt as one string, and keys are compared without their dashes, so no option ever takes effect. | The series line "patch1 -p0 --reverse" is read with strip 1 and forward. | Split the words, compare "-p"/"--strip"/"-R"/"--reverse": strip 0, reversed. Also `import sys`, so that a GetoptError is printed to stderr instead of raising NameError. | not executed | SeriesLine.OptionsFinding | SeriesLine.NameWithOptions |
| quilt/db.py:245-252 | `patch_before` returns the first of the patches before the given one. | Series a, b, c: `patch_before(c)` gives a. | The patch immediately before, b. | not executed | SeriesLaws.PatchBeforeDiffers | SeriesLaws.Neighbours |
| quilt/push.py:101-104 | `patches.remove(applied)` is handed the whole applied list, which is never an element. | Series a, b with a applied: `apply_patch("b")` raises ValueError. | `patches.remove(patch)`, leaving b to apply. | not executed | Push.ApplyPatchAsWrittenFails | Push.ApplyPatchReaches |
| quilt/pop.py:53-58 | `unapply_patch` hands the bare name from `quilt/cli/pop.py:44` to `patches_after`, whose check looks it up among `Patch` keys; `Patch.__eq__` is false for a string, so no name is ever known. | Patches a, b applied: `pop a` raises "Patch a is not known." and pops nothing. | Wrap the name as `Patch(name)` first, as `push.py:98` does, popping b. | not executed | Pop.UnapplyPatchAsWrittenFails | Pop.UnapplyPatchLeaves |
| quilt/delete.py:79-86 | The patch after the top is looked up in the applied database, where nothing follows the top. | Series a, b with a applied: `delete_next()` raises "No next patch". | Look up the patch after the top in the series, deleting b. | not executed | Delete.DeleteNextAsWrittenFails | Delete.DeleteNextDeletes |
