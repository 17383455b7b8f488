/** `Add` of quilt/add.py: a working file joins a patch by getting a backup
    copy in the patch's directory under `.pc`, so that popping the patch
    restores it. The checks shared with `Revert` (quilt/revert.py), which
    look for a file's backup in a patch and in the applied patches after
    it, live here too. */
module Add {

  import opened Wrappers
  import opened Errors
  import opened Patching
  import opened Series
  import opened SeriesLaws
  import opened SeriesDb
  import opened Backups
  import opened Queue

  const NoPatchToAdd: string := "No patch available. Please create a new patch before adding a file"

  /** The backup directory of `patch` holds `file`: `.pc/<patch>/<file>` exists. */
  predicate HasBackup(st: Store, patch: string, file: string) {
    patch in st.backups && file in st.backups[patch]
  }

  /** The applied patches after `name`, none when the database does not
      know it (`_file_in_next_patches` returns early then). */
  function LaterPatches(db: PatchSeries, name: string): (ps: seq<Patch>)
    ensures !IsPatch(db, name) ==> ps == []
    ensures IsPatch(db, name) ==> ps == PatchesAfter(db, name).value
  {
    if IsPatch(db, name) then PatchesAfter(db, name).value else []
  }

  /** The loop of `_file_in_next_patches`: the first of `ps` whose backup
      directory holds `file`. */
  function FirstHolding(st: Store, ps: seq<Patch>, file: string): (r: Option<nat>)
    ensures r.None? <==> forall i | 0 <= i < |ps| :: !HasBackup(st, ps[i].name, file)
    ensures r.Some? ==> r.value < |ps| && HasBackup(st, ps[r.value].name, file)
                        && forall i | 0 <= i < r.value :: !HasBackup(st, ps[i].name, file)
    decreases |ps|
  {
    if ps == [] then None
    else if HasBackup(st, ps[0].name, file) then Some(0)
    else
      var r := FirstHolding(st, ps[1..], file);
      assert forall i | 1 <= i < |ps| :: ps[1..][i - 1] == ps[i];
      if r.None? then None else Some(r.value + 1)
  }

  /** The patch `add_file` works on: the named one, else the top applied
      patch, else the first patch of the series. */
  function AddTarget(name: Option<string>, db: PatchSeries, s: PatchSeries): Option<string> {
    if name.Some? && name.value != [] then name
    else if TopName(db).Some? then TopName(db)
    else if First(s).Some? then Some(First(s).value.name)
    else None
  }

  /** `add_file(file, name)`. The checks come first and change nothing: a
      patch must be found, the file must not already be in it, no applied
      patch after it may hold the file, and the file must not be a symbolic
      link. Then the file is backed up into the patch's directory. */
  function AddFile(st: Store, file: string, name: Option<string>): (o: Outcome)
    ensures o.events == []
    ensures o.error.Some? ==> o.store == st
    ensures o.error.None? ==> AddTarget(name, Read(st.applied), Read(st.series)).Some?
  {
    match OpenDb(st.version, st.applied)
    case Err(e) => Outcome(st, [], Some(e))
    case Ok(db) =>
      match AddTarget(name, db, Read(st.series))
      case None => Outcome(st, [], Some(Failed(NoPatchToAdd)))
      case Some(p) => AddTo(st, db, p, file)
  }

  /** The part of `add_file` after the patch is chosen: the file is backed
      up into the patch's directory, an empty placeholder standing for a
      file that does not exist, and nothing else in the store changes. */
  function AddTo(st: Store, db: PatchSeries, p: string, file: string): (o: Outcome)
    ensures o.events == []
    ensures o.error.Some? ==> o.store == st
    ensures o.error.None? <==> !HasBackup(st, p, file) && FirstHolding(st, LaterPatches(db, p), file).None?
                               && file !in st.links
    ensures o.error.None? ==> p in o.store.backups
    ensures o.error.None? ==> o.store == WithDir(st, p, Some(o.store.backups[p])) && Backed(st, o.store.backups[p], p, file)
  {
    if HasBackup(st, p, file) then
      Outcome(st, [], Some(Failed("File " + file + " is already in patch " + p)))
    else
      var later := LaterPatches(db, p);
      match FirstHolding(st, later, file)
      case Some(i) =>
        Outcome(st, [], Some(Failed("File " + file + " is already modified by patch " + later[i].name)))
      case None =>
        if file in st.links then Outcome(st, [], Some(Failed("Cannot add symbolic link " + file)))
        else Outcome(WithDir(st, p, BackupFile(st.tree, file, DirOf(st, p), true)), [], None)
  }

  /** `dir` is the backup directory of `p` with `file` saved into it: its
      content, or an empty placeholder when it does not exist, and every
      other entry as it was. */
  ghost predicate Backed(st: Store, dir: Tree, p: string, file: string) {
    && file in dir
    && dir[file] == (if file in st.tree then st.tree[file] else "")
    && (forall q | q != file :: q in dir <==> HasBackup(st, p, q))
    && (forall q | q != file && q in dir :: dir[q] == st.backups[p][q])
  }

  /** `add_files(files, name)`: each file in turn, stopping at the first
      error with the earlier files added. */
  function AddFiles(st: Store, files: seq<string>, name: Option<string>): (o: Outcome)
    ensures o.events == []
    ensures o.store == st.(backups := o.store.backups)
    ensures forall n, f | HasBackup(st, n, f) :: HasBackup(o.store, n, f)
    decreases |files|
  {
    if files == [] then Outcome(st, [], None)
    else
      var one := AddFile(st, files[0], name);
      if one.error.Some? then one
      else
        AddFileKeeps(st, files[0], name);
        AddFiles(one.store, files[1..], name)
  }

  /** A successful add backs the file up into the target patch, keeps every
      other backup, changes nothing else, and so leaves the target as it
      was. */
  lemma AddFileKeeps(st: Store, file: string, name: Option<string>)
    requires AddFile(st, file, name).error.None?
    ensures var o := AddFile(st, file, name);
            var t := AddTarget(name, Read(st.applied), Read(st.series));
            t.Some? && HasBackup(o.store, t.value, file)
            && o.store == st.(backups := o.store.backups)
            && AddTarget(name, Read(o.store.applied), Read(o.store.series)) == t
            && forall n, f | HasBackup(st, n, f) :: HasBackup(o.store, n, f)
  {
    var o := AddFile(st, file, name);
    var db := Read(st.applied);
    var p := AddTarget(name, db, Read(st.series)).value;
    assert o == AddTo(st, db, p, file);
    assert Backed(st, o.store.backups[p], p, file);
  }

  // ------------------------------------------------------------ the laws

  /** `add_files` adds the files in turn: when it succeeds every file has a
      backup in the target patch; when it fails, the files before the
      failing one have one, and the failing file raises the error on the
      store they leave. */
  lemma AddFilesAdds(st: Store, files: seq<string>, name: Option<string>)
    ensures var o := AddFiles(st, files, name);
            var t := AddTarget(name, Read(st.applied), Read(st.series));
            (o.error.None? && files != [] ==>
               t.Some? && forall i | 0 <= i < |files| :: HasBackup(o.store, t.value, files[i]))
            && (o.error.Some? ==>
               exists k | 0 <= k < |files| ::
                 AddFile(o.store, files[k], name) == o
                 && forall i | 0 <= i < k :: t.Some? && HasBackup(o.store, t.value, files[i]))
  {
    if AddFiles(st, files, name).error.None? {
      if files != [] {
        AddFilesAllBacked(st, files, name);
      }
    } else {
      var k := AddFilesStops(st, files, name);
    }
  }

  lemma {:induction false} AddFilesAllBacked(st: Store, files: seq<string>, name: Option<string>)
    requires files != [] && AddFiles(st, files, name).error.None?
    ensures var t := AddTarget(name, Read(st.applied), Read(st.series));
            t.Some? && forall i | 0 <= i < |files| :: HasBackup(AddFiles(st, files, name).store, t.value, files[i])
    decreases |files|
  {
    var one := AddFile(st, files[0], name);
    var o := AddFiles(st, files, name);
    var t := AddTarget(name, Read(st.applied), Read(st.series));
    AddFileKeeps(st, files[0], name);
    assert o == AddFiles(one.store, files[1..], name);
    assert HasBackup(o.store, t.value, files[0]);
    if files[1..] != [] {
      AddFilesAllBacked(one.store, files[1..], name);
      forall i | 1 <= i < |files| ensures HasBackup(o.store, t.value, files[i]) {
        assert files[1..][i - 1] == files[i];
      }
    }
  }

  lemma {:induction false} AddFilesStops(st: Store, files: seq<string>, name: Option<string>) returns (k: nat)
    requires AddFiles(st, files, name).error.Some?
    ensures var o := AddFiles(st, files, name);
            var t := AddTarget(name, Read(st.applied), Read(st.series));
            k < |files| && AddFile(o.store, files[k], name) == o
            && forall i | 0 <= i < k :: t.Some? && HasBackup(o.store, t.value, files[i])
    decreases |files|
  {
    var one := AddFile(st, files[0], name);
    if one.error.Some? {
      k := 0;
    } else {
      k := StopsLater(st, files, name);
    }
  }

  lemma {:induction false} StopsLater(st: Store, files: seq<string>, name: Option<string>) returns (k: nat)
    requires files != [] && AddFile(st, files[0], name).error.None?
    requires AddFiles(st, files, name).error.Some?
    ensures var o := AddFiles(st, files, name);
            var t := AddTarget(name, Read(st.applied), Read(st.series));
            k < |files| && AddFile(o.store, files[k], name) == o
            && forall i | 0 <= i < k :: t.Some? && HasBackup(o.store, t.value, files[i])
    decreases |files|, 0
  {
    var one := AddFile(st, files[0], name);
    var o := AddFiles(one.store, files[1..], name);
    assert AddFiles(st, files, name) == o;
    var t := AddTarget(name, Read(st.applied), Read(st.series));
    assert t.Some? && AddTarget(name, Read(one.store.applied), Read(one.store.series)) == t
           && HasBackup(o.store, t.value, files[0]) by {
      AddFileKeeps(st, files[0], name);
    }
    var j := AddFilesStops(one.store, files[1..], name);
    k := j + 1;
    BackedShift(o.store, t.value, files, j);
  }

  /** Backups of the first file and of the first `j` of the rest cover the
      first `j + 1` files. */
  lemma BackedShift(s: Store, patch: string, files: seq<string>, j: nat)
    requires j < |files| - 1 && HasBackup(s, patch, files[0])
    requires forall i | 0 <= i < j :: HasBackup(s, patch, files[1..][i])
    ensures forall i | 0 <= i < j + 1 :: HasBackup(s, patch, files[i])
  {
    forall i | 0 < i < j + 1 ensures HasBackup(s, patch, files[i]) {
      assert files[1..][i - 1] == files[i];
    }
  }

  /** In an openable store, adding succeeds exactly when a patch is found,
      the file is in neither it nor an applied patch after it, and it is
      not a symbolic link. */
  lemma {:induction false} AddSucceedsIff(st: Store, file: string, name: Option<string>)
    requires OpenDb(st.version, st.applied).Ok?
    ensures var db := Read(st.applied);
            var p := AddTarget(name, db, Read(st.series));
            (AddFile(st, file, name).error.None?)
            <==> (p.Some? && !HasBackup(st, p.value, file)
                  && (forall i | 0 <= i < |LaterPatches(db, p.value)| ::
                        !HasBackup(st, LaterPatches(db, p.value)[i].name, file))
                  && file !in st.links)
  {
  }

  /** Without a name the target is the top applied patch, or with nothing
      applied the first patch of the series; with neither there is nothing
      to add to. */
  lemma {:induction false} AddTargetChoice(st: Store, file: string)
    requires OpenDb(st.version, st.applied).Ok?
    ensures var d := Names(Read(st.applied));
            var s := Names(Read(st.series));
            var p := AddTarget(None, Read(st.applied), Read(st.series));
            (d != [] ==> p == Some(d[|d| - 1]))
            && (d == [] && s != [] ==> p == Some(s[0]))
            && (d == [] && s == [] ==> AddFile(st, file, None) == Outcome(st, [], Some(Failed(NoPatchToAdd))))
  {
    TargetOf(Read(st.applied), Read(st.series));
    if Names(Read(st.applied)) == [] && Names(Read(st.series)) == [] {
      NothingToAdd(st, file);
    }
  }

  /** The unnamed target in terms of the names alone. */
  lemma {:induction false} TargetOf(db: PatchSeries, s: PatchSeries)
    ensures var d := Names(db);
            var p := AddTarget(None, db, s);
            (d != [] ==> p == Some(d[|d| - 1]))
            && (d == [] && Names(s) != [] ==> p == Some(Names(s)[0]))
            && (d == [] && Names(s) == [] ==> p == None)
  {
    if Names(db) == [] && Names(s) != [] {
      assert Names(s)[0] == Patches(s)[0].name;
    }
  }

  lemma {:induction false} NothingToAdd(st: Store, file: string)
    requires OpenDb(st.version, st.applied).Ok?
    requires AddTarget(None, Read(st.applied), Read(st.series)) == None
    ensures AddFile(st, file, None) == Outcome(st, [], Some(Failed(NoPatchToAdd)))
  {
  }

  /** A file that an applied patch after the named one already holds is
      refused, naming the first such patch, and nothing changes. */
  lemma {:induction false} AddRefusesLater(st: Store, file: string, p: string, k: nat)
    requires OpenDb(st.version, st.applied).Ok? && p != [] && !HasBackup(st, p, file)
    requires var later := LaterPatches(Read(st.applied), p);
             k < |later| && FirstHolding(st, later, file) == Some(k)
    ensures var later := LaterPatches(Read(st.applied), p);
            AddFile(st, file, Some(p))
              == Outcome(st, [], Some(Failed("File " + file + " is already modified by patch " + later[k].name)))
  {
    RefusedAt(st, Read(st.applied), p, file, k);
    AddFileNamed(st, file, p);
  }

  /** With a non-empty name and an openable database, `add_file` goes
      straight to the checks on that patch. */
  lemma {:induction false} AddFileNamed(st: Store, file: string, p: string)
    requires OpenDb(st.version, st.applied).Ok? && p != []
    ensures AddFile(st, file, Some(p)) == AddTo(st, Read(st.applied), p, file)
  {
  }

  /** The later-patch check of `AddTo`, once the first later holder is known. */
  lemma {:induction false} RefusedAt(st: Store, db: PatchSeries, p: string, file: string, k: nat)
    requires !HasBackup(st, p, file)
    requires k < |LaterPatches(db, p)| && FirstHolding(st, LaterPatches(db, p), file) == Some(k)
    ensures AddTo(st, db, p, file)
              == Outcome(st, [], Some(Failed("File " + file + " is already modified by patch " + LaterPatches(db, p)[k].name)))
  {
  }

  /** On an exact database the first later holder of the file is the one
      at position `j`. */
  lemma {:induction false} LaterFirst(st: Store, db: PatchSeries, file: string, i: nat, j: nat)
    requires Exact(db) && i < j < |Names(db)|
    requires var d := Names(db);
             HasBackup(st, d[j], file) && forall k | i < k < j :: !HasBackup(st, d[k], file)
    ensures var later := LaterPatches(db, Names(db)[i]);
            j - i - 1 < |later| && later[j - i - 1].name == Names(db)[j]
            && FirstHolding(st, later, file) == Some(j - i - 1)
  {
    LaterAt(db, i);
    ShiftedFirst(st, LaterPatches(db, Names(db)[i]), Names(db), file, i, j);
  }

  /** The same for patches named by the names after position `i`. */
  lemma {:induction false} ShiftedFirst(st: Store, later: seq<Patch>, d: seq<string>, file: string, i: nat, j: nat)
    requires i < j < |d| && |later| == |d| - i - 1
    requires forall k | 0 <= k < |later| :: later[k].name == d[i + 1 + k]
    requires HasBackup(st, d[j], file) && forall k | i < k < j :: !HasBackup(st, d[k], file)
    ensures j - i - 1 < |later| && later[j - i - 1].name == d[j]
    ensures FirstHolding(st, later, file) == Some(j - i - 1)
  {
    assert later[j - i - 1].name == d[j];
    forall m | 0 <= m < j - i - 1 ensures !HasBackup(st, later[m].name, file) {
      assert later[m].name == d[i + 1 + m];
    }
    FirstHoldingAt(st, later, file, j - i - 1);
  }

  /** In an exact series the patches after the one at position `i` are
      those at the positions after it. */
  lemma {:induction false} LaterAt(db: PatchSeries, i: nat)
    requires Exact(db) && i < |Names(db)|
    ensures var later := LaterPatches(db, Names(db)[i]);
            |later| == |Names(db)| - i - 1
            && forall k | 0 <= k < |later| :: later[k].name == Names(db)[i + 1 + k]
  {
    ExactPosition(db, i);
  }

  /** The first holder is found at `k` when `k` holds the file and none
      before it does. */
  lemma {:induction false} FirstHoldingAt(st: Store, ps: seq<Patch>, file: string, k: nat)
    requires k < |ps| && HasBackup(st, ps[k].name, file)
    requires forall m | 0 <= m < k :: !HasBackup(st, ps[m].name, file)
    ensures FirstHolding(st, ps, file) == Some(k)
  {
    var r := FirstHolding(st, ps, file);
    assert r.Some?;
  }

  /** Adding a file twice to the same patch is refused the second time,
      with nothing changed. */
  lemma {:induction false} AddTwiceRefused(st: Store, file: string, p: string)
    requires p != [] && AddFile(st, file, Some(p)).error.None?
    ensures var once := AddFile(st, file, Some(p)).store;
            AddFile(once, file, Some(p)) == Outcome(once, [], Some(Failed("File " + file + " is already in patch " + p)))
  {
  }

  /** What adding saves, popping restores: whatever later becomes of the
      working tree, rolling it back from the patch's directory gives the
      file back as it was when it was added, or removes it when it did not
      exist or was empty. */
  lemma {:induction false} AddThenRollback(st: Store, file: string, p: string, later: Tree)
    requires p != [] && file != Timestamp && AddFile(st, file, Some(p)).error.None?
    ensures var dir := AddFile(st, file, Some(p)).store.backups[p];
            var r := Rollback(later, dir - {Timestamp}, false);
            (file in r <==> file in st.tree && st.tree[file] != "")
            && (file in r ==> r[file] == st.tree[file])
  {
    var o := AddFile(st, file, Some(p));
    var dir := o.store.backups[p];
    assert o == AddTo(st, Read(st.applied), p, file);
    assert dir[file] == (if file in st.tree then st.tree[file] else "");
    var b := dir - {Timestamp};
    assert file in b && b[file] == dir[file];
    RollbackOne(later, b, file);
  }

  /** Rolling back a file a backup holds: it is removed for an empty backup,
      else it gets the backup's content. */
  lemma RollbackOne(tree: Tree, backup: Tree, file: string)
    requires file in backup
    ensures var r := Rollback(tree, backup, false);
            (file in r <==> backup[file] != "") && (file in r ==> r[file] == backup[file])
  {
  }

}
