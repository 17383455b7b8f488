/** `Refresh` of quilt/refresh.py: a patch file is rewritten as the diffs
    between each backed-up original in the patch's directory under `.pc`
    and the working file of the same name. The `diff` program is a
    parameter, and so is the order in which the directory lists its files. */
module Refresh {

  import opened Wrappers
  import opened Errors
  import opened PyStr
  import opened Series
  import opened SeriesDb
  import opened Backups
  import opened DiffTool
  import opened Queue

  const NothingApplied: string := "No patch applied. Nothing to refresh."
  const NothingToRefresh: string := "Nothing to refresh."

  datatype DiffRun = DiffRun(code: int, output: string)

  /** The `diff` program: from its command line and the texts of its two
      sides (`None` for /dev/null), its exit status and what it prints. */
  type DiffProgram = (seq<string>, Option<string>, Option<string>) -> DiffRun

  /** A file's text as `diff` reads it: /dev/null reads as empty. */
  function Content(t: Option<string>): string {
    t.GetOr("")
  }

  /** A `diff` that prints nothing exactly for sides of equal text and
      exits 0 or 1. */
  ghost predicate HonestDiff(diff: DiffProgram) {
    forall argv, a, b :: 0 <= diff(argv, a, b).code <= 1
                         && (diff(argv, a, b).output == [] <==> Content(a) == Content(b))
  }

  /** `Diff(pc_dir + File(f), File(f)).run(cwd, fd=f)` */
  function FileDiffArgv(tree: Tree, pc: string, p: string, dir: Tree, f: string): seq<string> {
    DiffArgv(Side(Join(Join(pc, p), f), f in dir), Side(f, f in tree), None, None, true)
  }

  function Lookup(t: Tree, f: string): Option<string> {
    if f in t then Some(t[f]) else None
  }

  /** The loop of `refresh` over the listed files: the outputs of one
      `diff` per file, the timestamp skipped, concatenated in listing order;
      a status above 1 raises. */
  function Collect(tree: Tree, pc: string, p: string, dir: Tree, files: seq<string>, diff: DiffProgram):
    (r: Result<string, QuiltError>)
    ensures r.Err? ==> r.error.Subprocess? && r.error.code > 1
    decreases |files|
  {
    if files == [] then Ok([])
    else if files[0] == Timestamp then Collect(tree, pc, p, dir, files[1..], diff)
    else
      var argv := FileDiffArgv(tree, pc, p, dir, files[0]);
      var run := diff(argv, Lookup(dir, files[0]), Lookup(tree, files[0]));
      if run.code > 1 then Err(Subprocess(argv, run.code))
      else
        match Collect(tree, pc, p, dir, files[1..], diff)
        case Err(e) => Err(e)
        case Ok(rest) => Ok(run.output + rest)
  }

  /** The store after a refresh that produced `text`: the patch file holds
      it, the timestamp is touched and the refresh sentinel removed. */
  function Refreshed(st: Store, p: string, text: string): (r: Store)
    requires p in st.backups
  {
    st.(patchFiles := st.patchFiles[p := text],
        backups := st.backups[p := st.backups[p][Timestamp := ""]],
        sentinels := st.sentinels - {p})
  }

  /** `refresh(patch_name)` after the constructor has opened the database:
      the named patch, or else the top applied one. */
  function RefreshPatch(st: Store, name: Option<string>, listing: seq<string>, diff: DiffProgram): (o: Outcome)
    ensures o.events == []
    ensures o.error.Some? ==> o.store == st
  {
    match OpenDb(st.version, st.applied)
    case Err(e) => Outcome(st, [], Some(e))
    case Ok(db) =>
      if name.Some? && name.value != [] then RefreshIn(st, name.value, listing, diff)
      else
        match TopName(db)
        case None => Outcome(st, [], Some(Failed(NothingApplied)))
        case Some(p) => RefreshIn(st, p, listing, diff)
  }

  /** `refresh` once the patch is chosen. Listing a missing directory
      raises; so does a failing `diff`; an empty result is refused; all
      before anything changes. */
  function RefreshIn(st: Store, p: string, listing: seq<string>, diff: DiffProgram): (o: Outcome)
    ensures o.events == []
    ensures o.error.Some? ==> o.store == st
    ensures p !in st.backups ==> o.error == Some(NoSuchFile(Join(st.pc, p)))
    ensures o.error.None? ==>
              p in st.backups
              && var text := Collect(st.tree, st.pc, p, st.backups[p], listing, diff);
                 text.Ok? && text.value != []
                 && o.store.patchFiles == st.patchFiles[p := text.value]
                 && p !in o.store.sentinels && o.store.sentinels == st.sentinels - {p}
                 && p in o.store.backups && Timestamp in o.store.backups[p]
                 && o.store.backups[p][Timestamp] == []
                 && (forall f | f != Timestamp :: (f in o.store.backups[p] <==> f in st.backups[p])
                                                  && (f in st.backups[p] ==> o.store.backups[p][f] == st.backups[p][f]))
                 && (forall n | n != p :: (n in o.store.backups <==> n in st.backups)
                                          && (n in st.backups ==> o.store.backups[n] == st.backups[n]))
                 && o.store.(patchFiles := st.patchFiles, backups := st.backups, sentinels := st.sentinels) == st
  {
    if p !in st.backups then Outcome(st, [], Some(NoSuchFile(Join(st.pc, p))))
    else
      match Collect(st.tree, st.pc, p, st.backups[p], listing, diff)
      case Err(e) => Outcome(st, [], Some(e))
      case Ok(text) =>
        if text == [] then Outcome(st, [], Some(Failed(NothingToRefresh)))
        else Outcome(Refreshed(st, p, text), [], None)
  }

  // ------------------------------------------------------------ the laws

  /** "Nothing to refresh" is raised exactly when the diffs of the listed
      files print nothing. */
  lemma {:induction false} NothingToRefreshIff(st: Store, p: string, listing: seq<string>, diff: DiffProgram)
    requires p in st.backups
    ensures (RefreshIn(st, p, listing, diff).error == Some(Failed(NothingToRefresh)))
            <==> Collect(st.tree, st.pc, p, st.backups[p], listing, diff) == Ok([])
  {
  }

  /** The working file differs from its backup, reading a missing file as
      empty. */
  predicate Differs(tree: Tree, dir: Tree, f: string) {
    Content(Lookup(dir, f)) != Content(Lookup(tree, f))
  }

  /** No listed file other than the timestamp differs from its backup. */
  predicate NoneDiffer(tree: Tree, dir: Tree, files: seq<string>) {
    forall i | 0 <= i < |files| && files[i] != Timestamp :: !Differs(tree, dir, files[i])
  }

  lemma NoneDifferCons(tree: Tree, dir: Tree, files: seq<string>)
    requires files != []
    ensures NoneDiffer(tree, dir, files)
            <==> (files[0] == Timestamp || !Differs(tree, dir, files[0])) && NoneDiffer(tree, dir, files[1..])
  {
    assert forall i | 1 <= i < |files| :: files[1..][i - 1] == files[i];
  }

  /** One honest `diff` run exits 0 or 1 and prints nothing exactly when
      the file does not differ. */
  lemma OneDiff(tree: Tree, pc: string, p: string, dir: Tree, f: string, diff: DiffProgram)
    requires HonestDiff(diff)
    ensures var run := diff(FileDiffArgv(tree, pc, p, dir, f), Lookup(dir, f), Lookup(tree, f));
            0 <= run.code <= 1 && (run.output == [] <==> !Differs(tree, dir, f))
  {
  }

  /** With an honest `diff`, the diffs print nothing exactly when no listed
      file other than the timestamp differs from its backup. */
  lemma {:induction false} CollectEmptyIff(tree: Tree, pc: string, p: string, dir: Tree, files: seq<string>,
                                          diff: DiffProgram)
    requires HonestDiff(diff)
    ensures Collect(tree, pc, p, dir, files, diff).Ok?
    ensures Collect(tree, pc, p, dir, files, diff) == Ok([])
            <==> forall i | 0 <= i < |files| && files[i] != Timestamp :: !Differs(tree, dir, files[i])
    decreases |files|
  {
    if files != [] {
      CollectEmptyIff(tree, pc, p, dir, files[1..], diff);
      NoneDifferCons(tree, dir, files);
      assert NoneDiffer(tree, dir, files[1..]) <==> Collect(tree, pc, p, dir, files[1..], diff) == Ok([]);
      if files[0] != Timestamp {
        OneDiff(tree, pc, p, dir, files[0], diff);
      }
    }
  }

  /** With an honest `diff` and a listing of the whole directory, a patch
      none of whose files changed has nothing to refresh, and one with a
      changed file is rewritten. */
  lemma {:induction false} RefreshWhenChanged(st: Store, p: string, listing: seq<string>, diff: DiffProgram)
    requires HonestDiff(diff) && p in st.backups
    requires forall f :: f in st.backups[p] <==> f in listing
    ensures var o := RefreshIn(st, p, listing, diff);
            (o.error.None? <==> exists f | f in st.backups[p] && f != Timestamp :: Differs(st.tree, st.backups[p], f))
            && (o.error.Some? ==> o.error == Some(Failed(NothingToRefresh)))
  {
    var dir := st.backups[p];
    CollectEmptyIff(st.tree, st.pc, p, dir, listing, diff);
    if exists f | f in dir && f != Timestamp :: Differs(st.tree, dir, f) {
      var f :| f in dir && f != Timestamp && Differs(st.tree, dir, f);
      var i :| 0 <= i < |listing| && listing[i] == f;
    } else {
      forall i | 0 <= i < |listing| && listing[i] != Timestamp ensures !Differs(st.tree, dir, listing[i]) {
        assert listing[i] in dir;
      }
    }
  }

  /** A refresh changes neither the working tree nor the files it reads the
      diffs from, so refreshing again at once writes the same text and
      leaves the store as the first refresh left it. */
  lemma {:induction false} RefreshTwice(st: Store, p: string, listing: seq<string>, diff: DiffProgram)
    requires RefreshIn(st, p, listing, diff).error.None?
    ensures var once := RefreshIn(st, p, listing, diff).store;
            RefreshIn(once, p, listing, diff) == Outcome(once, [], None)
  {
    var once := RefreshIn(st, p, listing, diff).store;
    var dir := st.backups[p];
    var dir1 := once.backups[p];
    assert dir1 == dir[Timestamp := []];
    CollectSkipsTimestamp(st.tree, st.pc, p, dir, listing, diff);
    var text := Collect(st.tree, st.pc, p, dir, listing, diff).value;
    assert dir1[Timestamp := []] == dir1;
    assert once.backups[p := dir1] == once.backups;
    assert once.patchFiles[p := text] == once.patchFiles;
    assert once.sentinels - {p} == once.sentinels;
  }

  /** Touching the timestamp does not change the diffs. */
  lemma {:induction false} CollectSkipsTimestamp(tree: Tree, pc: string, p: string, dir: Tree, files: seq<string>,
                                                diff: DiffProgram)
    ensures Collect(tree, pc, p, dir[Timestamp := []], files, diff) == Collect(tree, pc, p, dir, files, diff)
    decreases |files|
  {
    if files != [] {
      CollectSkipsTimestamp(tree, pc, p, dir, files[1..], diff);
      if files[0] != Timestamp {
        assert Lookup(dir[Timestamp := []], files[0]) == Lookup(dir, files[0]);
        assert FileDiffArgv(tree, pc, p, dir[Timestamp := []], files[0]) == FileDiffArgv(tree, pc, p, dir, files[0]);
      }
    }
  }

  /** Without a name the top applied patch is refreshed; with nothing
      applied there is nothing to refresh. */
  lemma {:induction false} RefreshTargetTop(st: Store, listing: seq<string>, diff: DiffProgram)
    requires OpenDb(st.version, st.applied).Ok?
    ensures var d := Names(Read(st.applied));
            (d == [] ==> RefreshPatch(st, None, listing, diff) == Outcome(st, [], Some(Failed(NothingApplied))))
            && (d != [] ==> RefreshPatch(st, None, listing, diff) == RefreshIn(st, d[|d| - 1], listing, diff))
  {
  }
}
