/** `Revert` of quilt/revert.py: a file's uncommitted changes are undone
    by rebuilding, in a temporary directory, the file the patch makes out
    of the file's backup, and copying that back over the working file. */
module Revert {

  import opened Wrappers
  import opened Errors
  import opened Patching
  import opened Series
  import opened SeriesDb
  import opened Backups
  import opened Queue
  import opened Push
  import opened Add

  const NoPatchToRevert: string := "No patch available. Nothing to revert."

  /** The patch `revert_file` works on: a new `Patch` for a non-empty name,
      else the top applied patch. */
  function RevertTarget(name: Option<string>, db: PatchSeries): (p: Option<Patch>)
    ensures name.Some? && name.value != [] ==> p == Some(NewPatch(name.value))
    ensures !(name.Some? && name.value != []) ==> p == Top(db)
  {
    if name.Some? && name.value != [] then Some(NewPatch(name.value)) else Top(db)
  }

  /** `patch.run(cwd, patches, work_dir=tmpdir, no_backup_if_mismatch=True,
      remove_empty_files=True, force=True, quiet=True)` */
  function RevertArgv(st: Store, p: Patch, tmpDir: string): seq<string> {
    PatchArgv(p, RunOptions(Some(st.patchesDir), false, None, false, Some(tmpDir), true, false, true, true, true))
  }

  /** The temporary directory `_apply_patch_temporary` prepares: the backup
      copied in unless it is empty. */
  function Seed(file: string, saved: string): (t: Tree)
    ensures file in t <==> saved != ""
    ensures file in t ==> t[file] == saved
    ensures forall q | q != file :: q !in t
  {
    if saved == "" then map[] else map[file := saved]
  }

  /** The file `_apply_patch_temporary` leaves in the temporary directory:
      the backup with the patch applied to it when the patch file exists
      and is not empty, the backup itself otherwise; `None` when there is
      no such file. A failing `patch` raises. */
  function Rebuilt(st: Store, p: Patch, file: string, saved: string, tmpDir: string, tool: PatchProgram):
    (r: Result<Option<string>, QuiltError>)
    ensures !(p.name in st.patchFiles && st.patchFiles[p.name] != "") ==>
              r == Ok(if saved == "" then None else Some(saved))
  {
    var seed := Seed(file, saved);
    if p.name in st.patchFiles && st.patchFiles[p.name] != "" then
      var argv := RevertArgv(st, p, tmpDir);
      var ran := tool(argv, st.patchFiles[p.name], seed);
      if ran.code != 0 then Err(Subprocess(argv, ran.code))
      else Ok(if file in ran.tree then Some(ran.tree[file]) else None)
    else Ok(if file in seed then Some(seed[file]) else None)
  }

  /** `diff -q file tmp_file` succeeding: the working file exists and holds
      the rebuilt text (a missing side is /dev/null, and the rebuilt text is
      never empty here). */
  predicate SameText(tree: Tree, file: string, text: string) {
    file in tree && tree[file] == text
  }

  /** `revert_file(filename, patch_name)` after the constructor has opened
      the database. */
  function RevertFile(st: Store, file: string, name: Option<string>, tmpDir: string, tool: PatchProgram): (o: Outcome)
    ensures o.error.Some? ==> o.store == st && o.events == []
    ensures o.store.(backups := st.backups, tree := st.tree) == st
  {
    match OpenDb(st.version, st.applied)
    case Err(e) => Outcome(st, [], Some(e))
    case Ok(db) =>
      match RevertTarget(name, db)
      case None => Outcome(st, [], Some(Failed(NoPatchToRevert)))
      case Some(p) => RevertIn(st, db, p, file, tmpDir, tool)
  }

  /** The part of `revert_file` after the patch is chosen. The checks come
      first and change nothing: the file must be in the patch and in no
      applied patch after it. A file the patch created and the working tree
      no longer has only loses its empty backup. Otherwise the working file
      becomes the rebuilt one, unless that is missing, empty or equal to
      it. */
  function RevertIn(st: Store, db: PatchSeries, p: Patch, file: string, tmpDir: string, tool: PatchProgram): (o: Outcome)
    ensures o.error.Some? ==> o.store == st && o.events == []
    ensures o.store.(backups := st.backups, tree := st.tree) == st
    ensures !HasBackup(st, p.name, file) ==>
              o == Outcome(st, [], Some(Failed("File " + file + " is not in patch " + p.name)))
    ensures o.error.None? ==> HasBackup(st, p.name, file) && FirstHolding(st, LaterPatches(db, p.name), file).None?
    ensures o.error.None? ==> |o.events| == 1 && o.events[0] in {FileReverted(file, p.name), FileUnchanged(file, p.name)}
  {
    if !HasBackup(st, p.name, file) then
      Outcome(st, [], Some(Failed("File " + file + " is not in patch " + p.name)))
    else
      var later := LaterPatches(db, p.name);
      match FirstHolding(st, later, file)
      case Some(i) =>
        Outcome(st, [], Some(Failed("File " + file + " is modified by patch " + later[i].name)))
      case None =>
        var saved := st.backups[p.name][file];
        if file !in st.tree && saved == "" then
          Outcome(WithDir(st, p.name, Some(st.backups[p.name] - {file})), [FileReverted(file, p.name)], None)
        else
          match Rebuilt(st, p, file, saved, tmpDir, tool)
          case Err(e) => Outcome(st, [], Some(e))
          case Ok(c) =>
            if c.Some? && c.value != [] then
              if SameText(st.tree, file, c.value) then Outcome(st, [FileUnchanged(file, p.name)], None)
              else Outcome(st.(tree := st.tree[file := c.value]), [FileReverted(file, p.name)], None)
            else Outcome(st, [FileUnchanged(file, p.name)], None)
  }

  /** `revert_files(filenames, patch_name)`: each file in turn, stopping at
      the first error with the earlier files reverted. */
  function RevertFiles(st: Store, files: seq<string>, name: Option<string>, tmpDir: string, tool: PatchProgram): (o: Outcome)
    ensures o.store.(backups := st.backups, tree := st.tree) == st
    decreases |files|
  {
    if files == [] then Outcome(st, [], None)
    else
      var one := RevertFile(st, files[0], name, tmpDir, tool);
      if one.error.Some? then one
      else
        var rest := RevertFiles(one.store, files[1..], name, tmpDir, tool);
        Outcome(rest.store, one.events + rest.events, rest.error)
  }

  /** The signal `revert_file` emits for `file` in `patch`: reverted or
      unchanged. */
  predicate Reported(e: Event, file: string, patch: string) {
    e == FileReverted(file, patch) || e == FileUnchanged(file, patch)
  }

  /** A successful revert of one file keeps the target patch for the next
      file and reports the file against it. */
  lemma RevertFileReports(st: Store, file: string, name: Option<string>, tmpDir: string, tool: PatchProgram)
    requires RevertFile(st, file, name, tmpDir, tool).error.None?
    ensures var o := RevertFile(st, file, name, tmpDir, tool);
            var t := RevertTarget(name, Read(st.applied));
            t.Some? && o.store.version == st.version && o.store.applied == st.applied
            && |o.events| == 1 && Reported(o.events[0], file, t.value.name)
  {
    var o := RevertFile(st, file, name, tmpDir, tool);
    var db := Read(st.applied);
    var p := RevertTarget(name, db).value;
    assert o == RevertIn(st, db, p, file, tmpDir, tool);
  }

  /** A signal for the first file followed by signals for the first `n` of
      the rest report the first `n + 1` files. */
  lemma ReportedShift(e: Event, rest: seq<Event>, files: seq<string>, patch: string, n: nat)
    requires n < |files| && n <= |rest| && Reported(e, files[0], patch)
    requires forall i | 0 <= i < n :: Reported(rest[i], files[1..][i], patch)
    ensures forall i | 0 <= i < n + 1 :: Reported(([e] + rest)[i], files[i], patch)
  {
    forall i | 0 < i < n + 1 ensures Reported(([e] + rest)[i], files[i], patch) {
      assert files[1..][i - 1] == files[i];
    }
  }

  /** When every file reverts, there is one signal per file, in order, each
      against the same target patch. */
  lemma {:induction false} RevertFilesReports(st: Store, files: seq<string>, name: Option<string>, tmpDir: string, tool: PatchProgram)
    requires RevertFiles(st, files, name, tmpDir, tool).error.None?
    ensures var o := RevertFiles(st, files, name, tmpDir, tool);
            var t := RevertTarget(name, Read(st.applied));
            |o.events| == |files|
            && forall i | 0 <= i < |files| :: t.Some? && Reported(o.events[i], files[i], t.value.name)
    decreases |files|
  {
    if files != [] {
      var one := RevertFile(st, files[0], name, tmpDir, tool);
      var rest := RevertFiles(one.store, files[1..], name, tmpDir, tool);
      var t := RevertTarget(name, Read(st.applied));
      assert RevertFiles(st, files, name, tmpDir, tool) == Outcome(rest.store, one.events + rest.events, rest.error);
      RevertFileReports(st, files[0], name, tmpDir, tool);
      RevertFilesReports(one.store, files[1..], name, tmpDir, tool);
      assert one.events == [one.events[0]];
      ReportedShift(one.events[0], rest.events, files, t.value.name, |files| - 1);
    }
  }

  /** A failing revert stops at some file `k`: the files before it are
      reported against the target, and reverting file `k` in the store
      left behind raises the same error and changes nothing. */
  lemma {:induction false} RevertFilesStops(st: Store, files: seq<string>, name: Option<string>, tmpDir: string, tool: PatchProgram)
    returns (k: nat)
    requires RevertFiles(st, files, name, tmpDir, tool).error.Some?
    ensures var o := RevertFiles(st, files, name, tmpDir, tool);
            var t := RevertTarget(name, Read(st.applied));
            k < |files| && |o.events| == k
            && RevertFile(o.store, files[k], name, tmpDir, tool) == Outcome(o.store, [], o.error)
            && forall i | 0 <= i < k :: t.Some? && Reported(o.events[i], files[i], t.value.name)
    decreases |files|
  {
    var one := RevertFile(st, files[0], name, tmpDir, tool);
    if one.error.Some? {
      k := 0;
    } else {
      var rest := RevertFiles(one.store, files[1..], name, tmpDir, tool);
      var t := RevertTarget(name, Read(st.applied));
      assert RevertFiles(st, files, name, tmpDir, tool) == Outcome(rest.store, one.events + rest.events, rest.error);
      RevertFileReports(st, files[0], name, tmpDir, tool);
      var j := RevertFilesStops(one.store, files[1..], name, tmpDir, tool);
      k := j + 1;
      assert files[1..][j] == files[k];
      assert one.events == [one.events[0]];
      ReportedShift(one.events[0], rest.events, files, t.value.name, j);
    }
  }

  // ------------------------------------------------------------ the laws

  /** A file that an applied patch after the target holds is refused,
      naming the first such patch, and nothing changes. */
  lemma {:induction false} RevertRefusesLater(st: Store, db: PatchSeries, p: Patch, file: string, k: nat,
                                              tmpDir: string, tool: PatchProgram)
    requires HasBackup(st, p.name, file)
    requires var later := LaterPatches(db, p.name);
             k < |later| && FirstHolding(st, later, file) == Some(k)
    ensures var later := LaterPatches(db, p.name);
            RevertIn(st, db, p, file, tmpDir, tool)
              == Outcome(st, [], Some(Failed("File " + file + " is modified by patch " + later[k].name)))
  {
  }

  /** A file the patch created, gone from the working tree, is reverted by
      dropping its empty backup; the working tree is untouched. */
  lemma {:induction false} RevertCreatedGone(st: Store, db: PatchSeries, p: Patch, file: string,
                                             tmpDir: string, tool: PatchProgram)
    requires HasBackup(st, p.name, file) && FirstHolding(st, LaterPatches(db, p.name), file).None?
    requires file !in st.tree && st.backups[p.name][file] == ""
    ensures var o := RevertIn(st, db, p, file, tmpDir, tool);
            o.error.None? && o.events == [FileReverted(file, p.name)] && o.store.tree == st.tree
            && !HasBackup(o.store, p.name, file) && p.name in o.store.backups
            && (forall q | q != file :: (q in o.store.backups[p.name] <==> q in st.backups[p.name]))
            && forall n | n != p.name :: (n in o.store.backups <==> n in st.backups)
                                         && (n in st.backups ==> o.store.backups[n] == st.backups[n])
  {
  }

  /** Otherwise the backups stay as they are and the working tree changes
      at most at the file, which then holds the rebuilt text: the file as
      the patch makes it out of the backup. */
  lemma {:induction false} RevertRestores(st: Store, db: PatchSeries, p: Patch, file: string,
                                          tmpDir: string, tool: PatchProgram)
    requires HasBackup(st, p.name, file) && FirstHolding(st, LaterPatches(db, p.name), file).None?
    requires file in st.tree || st.backups[p.name][file] != ""
    requires Rebuilt(st, p, file, st.backups[p.name][file], tmpDir, tool).Ok?
    ensures var c := Rebuilt(st, p, file, st.backups[p.name][file], tmpDir, tool).value;
            var o := RevertIn(st, db, p, file, tmpDir, tool);
            o.error.None? && o.store.backups == st.backups
            && (forall q | q != file :: (q in o.store.tree <==> q in st.tree)
                                        && (q in st.tree ==> o.store.tree[q] == st.tree[q]))
            && (c.Some? && c.value != [] ==> SameText(o.store.tree, file, c.value))
            && (o.events == [FileReverted(file, p.name)] <==> c.Some? && c.value != [] && !SameText(st.tree, file, c.value))
  {
  }

  /** A failing `patch` run in the temporary directory is raised with its
      command line and exit status, and nothing changes. */
  lemma {:induction false} RevertToolFails(st: Store, db: PatchSeries, p: Patch, file: string,
                                           tmpDir: string, tool: PatchProgram)
    requires HasBackup(st, p.name, file) && FirstHolding(st, LaterPatches(db, p.name), file).None?
    requires file in st.tree || st.backups[p.name][file] != ""
    requires p.name in st.patchFiles && st.patchFiles[p.name] != ""
    requires tool(RevertArgv(st, p, tmpDir), st.patchFiles[p.name], Seed(file, st.backups[p.name][file])).code != 0
    ensures var argv := RevertArgv(st, p, tmpDir);
            var code := tool(argv, st.patchFiles[p.name], Seed(file, st.backups[p.name][file])).code;
            RevertIn(st, db, p, file, tmpDir, tool) == Outcome(st, [], Some(Subprocess(argv, code)))
  {
  }

  /** With an empty or missing patch file the rebuilt file is the backup
      itself: the working file goes back to what it was before the patch. */
  lemma {:induction false} RevertWithoutDiff(st: Store, db: PatchSeries, p: Patch, file: string,
                                             tmpDir: string, tool: PatchProgram)
    requires HasBackup(st, p.name, file) && FirstHolding(st, LaterPatches(db, p.name), file).None?
    requires st.backups[p.name][file] != ""
    requires !(p.name in st.patchFiles && st.patchFiles[p.name] != "")
    ensures var o := RevertIn(st, db, p, file, tmpDir, tool);
            o.error.None? && SameText(o.store.tree, file, st.backups[p.name][file])
  {
  }

  /** Reverting is idempotent: once a revert has gone through and the file
      is still in the patch, reverting it again changes nothing and reports
      it unchanged. */
  lemma {:induction false} RevertTwice(st: Store, db: PatchSeries, p: Patch, file: string,
                                       tmpDir: string, tool: PatchProgram)
    requires RevertIn(st, db, p, file, tmpDir, tool).error.None?
    requires HasBackup(RevertIn(st, db, p, file, tmpDir, tool).store, p.name, file)
    ensures var once := RevertIn(st, db, p, file, tmpDir, tool).store;
            RevertIn(once, db, p, file, tmpDir, tool) == Outcome(once, [FileUnchanged(file, p.name)], None)
  {
    var once := RevertIn(st, db, p, file, tmpDir, tool).store;
    var saved := st.backups[p.name][file];
    assert once.backups == st.backups;
    assert once.patchFiles == st.patchFiles && once.patchesDir == st.patchesDir;
    assert forall i | 0 <= i < |LaterPatches(db, p.name)| ::
             (HasBackup(once, LaterPatches(db, p.name)[i].name, file) <==> HasBackup(st, LaterPatches(db, p.name)[i].name, file));
    assert Rebuilt(once, p, file, saved, tmpDir, tool) == Rebuilt(st, p, file, saved, tmpDir, tool);
  }

  /** The patch chosen without a name is the top applied patch; with
      nothing applied there is nothing to revert. */
  lemma {:induction false} RevertTargetTop(st: Store, file: string, tmpDir: string, tool: PatchProgram)
    requires OpenDb(st.version, st.applied).Ok?
    ensures Top(Read(st.applied)).None? ==>
              RevertFile(st, file, None, tmpDir, tool) == Outcome(st, [], Some(Failed(NoPatchToRevert)))
    ensures Top(Read(st.applied)).Some? ==>
              RevertFile(st, file, None, tmpDir, tool)
                == RevertIn(st, Read(st.applied), Top(Read(st.applied)).value, file, tmpDir, tool)
  {
  }
}
