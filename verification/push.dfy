/** `Push` of quilt/push.py: applying one patch behind its `~refresh`
    sentinel, with its backups and the rollback of a failed run, and the
    three commands that apply the next patch, all patches, or the patches up
    to a named one. The `patch` program is a parameter. */
module Push {

  import opened Wrappers
  import opened Errors
  import opened PyStr
  import opened Patching
  import opened SeriesLine
  import opened Series
  import opened SeriesLaws
  import opened SeriesDb
  import opened Backups
  import opened Queue

  datatype ToolRun = ToolRun(code: int, tree: Tree)

  /** The `patch` program: from its command line, the patch file's text and
      the working tree, its exit status and the tree it leaves. With
      `--backup` it saves the original of every file it changes, an empty
      file for one it creates, under the `--prefix` directory. */
  type PatchProgram = (seq<string>, string, Tree) -> ToolRun

  /** `patch.run(cwd, patch_dir=patches, backup=True, prefix=.pc/<name>, quiet=quiet)` */
  function PushArgv(st: Store, p: Patch, quiet: bool): seq<string> {
    PatchArgv(p, RunOptions(Some(st.patchesDir), true, Some(Join(st.pc, p.name)), false, None,
                            false, false, false, false, quiet))
  }

  /** The backup directory after a run that turned `before` into `after`:
      the originals of the changed files added to the directory there was,
      which is created only when there is something to save. */
  function AfterRun(dir: Option<Tree>, before: Tree, after: Tree): Option<Tree> {
    var t := Touched(before, after);
    if dir.Some? then Some(dir.value + t)
    else if t == map[] then None
    else Some(t)
  }

  /** `timestamp.touch()` in a directory that exists, which empties the
      file or creates it empty; `pc_dir.create()` of one that does not. */
  function Stamp(dir: Option<Tree>): Tree {
    match dir
    case None => map[]
    case Some(d) => d[Timestamp := ""]
  }

  function NeedsRefresh(name: string): QuiltError {
    Failed("Patch " + name + " needs to be refreshed")
  }

  function DoesNotApply(name: string): QuiltError {
    Failed("Patch " + name + " does not apply")
  }

  function ForcedApply(name: string): QuiltError {
    Failed("Applied patch " + name + " (forced; needs refresh)")
  }

  /** A run of `patch` on an existing patch file: the store it leaves and
      whether its exit status was an error. */
  datatype Run = Run(store: Store, failed: bool)

  function RunPatch(st: Store, p: Patch, quiet: bool, tool: PatchProgram): Run
    requires p.name in st.patchFiles
  {
    var ran := tool(PushArgv(st, p, quiet), st.patchFiles[p.name], st.tree);
    Run(WithDir(st.(tree := ran.tree), p.name, AfterRun(DirOf(st, p.name), st.tree, ran.tree)),
        ran.code != 0)
  }


  /** `_apply_patch(patch, force, quiet)`. A patch whose sentinel exists is
      refused before anything happens. Otherwise the patch is run if its
      file exists; a failed run leaves the sentinel, and without `force` is
      rolled back from the backup directory, which is then deleted, before
      the database is touched. Every other path appends the patch to the
      in-memory database. */
  function ApplyOne(st: Store, db: PatchSeries, p: Patch, force: bool, quiet: bool,
                    tool: PatchProgram): (r: Step)
    ensures p.name in st.sentinels ==> r == Step(st, db, [], Some(NeedsRefresh(p.name)))
    ensures p.name !in st.sentinels ==> |r.events| >= 1 && r.events[0] == ApplyingPatch(p.name)
    ensures OnlyPatch(st, r.store, p.name)
    ensures r.error.None? ==> r.db == AddLine(db, MakeLine(Obj(p)))
    ensures r.error.Some? ==> r.db == db || r.db == AddLine(db, MakeLine(Obj(p)))
  {
    var name := p.name;
    if name in st.sentinels then Step(st, db, [], Some(NeedsRefresh(name)))
    else
      var run := if name in st.patchFiles then RunPatch(st, p, quiet, tool) else Run(st, false);
      var st1 := run.store;
      if run.failed && !force then
        var st2 := st1.(sentinels := st1.sentinels + {name});
        match DirOf(st2, name)
        case None => Step(st2, db, [ApplyingPatch(name)], Some(NoSuchFile(Join(st.pc, name))))
        case Some(b) =>
          var st3 := WithDir(st2.(tree := Rollback(st2.tree, b, false)), name, None);
          Step(st3, db, [ApplyingPatch(name)], Some(DoesNotApply(name)))
      else
        var st2 := if run.failed then st1.(sentinels := st1.sentinels + {name})
                   else st1.(sentinels := st1.sentinels - {name});
        var db1 := AddLine(db, MakeLine(Obj(p)));
        var st3 := WithDir(st2, name, Some(Stamp(DirOf(st2, name))));
        if name !in st.patchFiles then
          Step(st3, db1, [ApplyingPatch(name), AppliedEmpty(name, false)], None)
        else if name !in st2.backups then
          Step(st3, db1, [ApplyingPatch(name), AppliedEmpty(name, true)], None)
        else if run.failed then
          Step(st3, db1, [ApplyingPatch(name)], Some(ForcedApply(name)))
        else
          Step(st3, db1, [ApplyingPatch(name), AppliedPatch(name)], None)
  }

  /** `_apply_patch` for each patch in turn, stopping at the first error;
      `announce` adds the `applying` signal before each, as `apply_all` does. */
  function ApplyEach(st: Store, db: PatchSeries, ps: seq<Patch>, announce: bool, force: bool,
                     quiet: bool, tool: PatchProgram): (r: Step)
    ensures r.error.None? ==> LinesOf(r.db.rows) == LinesOf(db.rows) + ObjLines(ps)
    ensures r.error.None? ==> Patches(r.db) == Patches(db) + ps
    ensures r.store.series == st.series && r.store.applied == st.applied
    ensures r.store.version == st.version && r.store.patchFiles == st.patchFiles
    decreases |ps|
  {
    if ps == [] then Step(st, db, [], None)
    else
      var one := ApplyOne(st, db, ps[0], force, quiet, tool);
      var pre := if announce then [Applying(ps[0].name)] else [];
      if one.error.Some? then Step(one.store, one.db, pre + one.events, one.error)
      else
        var rest := ApplyEach(one.store, one.db, ps[1..], announce, force, quiet, tool);
        AddObj(db, ps[0]);
        EachStep(db, one.db, rest, ps);
        Step(rest.store, rest.db, pre + one.events + rest.events, rest.error)
  }

  /** Appending a patch adds its line and the patch itself. */
  lemma AddObj(db: PatchSeries, p: Patch)
    ensures LinesOf(AddLine(db, MakeLine(Obj(p))).rows) == LinesOf(db.rows) + ObjLines([p])
    ensures Patches(AddLine(db, MakeLine(Obj(p)))) == Patches(db) + [p]
  {
    var line := MakeLine(Obj(p));
    assert ObjLines([p]) == [line];
    assert [line][1..] == [];
    assert PatchesOf([line]) == [p];
  }

  lemma AppendOne<T>(a: seq<T>, x: seq<T>, b: seq<T>, whole: seq<T>)
    requires whole == x + b
    ensures (a + x) + b == a + whole
  {
  }

  /** One patch appended, then the rest: the lines and patches of the whole. */
  lemma EachStep(db: PatchSeries, mid: PatchSeries, rest: Step, ps: seq<Patch>)
    requires ps != []
    requires LinesOf(mid.rows) == LinesOf(db.rows) + ObjLines([ps[0]])
    requires Patches(mid) == Patches(db) + [ps[0]]
    requires rest.error.None? ==> LinesOf(rest.db.rows) == LinesOf(mid.rows) + ObjLines(ps[1..])
    requires rest.error.None? ==> Patches(rest.db) == Patches(mid) + ps[1..]
    ensures rest.error.None? ==> LinesOf(rest.db.rows) == LinesOf(db.rows) + ObjLines(ps)
    ensures rest.error.None? ==> Patches(rest.db) == Patches(db) + ps
  {
    assert ObjLines(ps) == ObjLines([ps[0]]) + ObjLines(ps[1..]);
    assert ps == [ps[0]] + ps[1..];
    AppendOne(LinesOf(db.rows), ObjLines([ps[0]]), ObjLines(ps[1..]), ObjLines(ps));
    AppendOne(Patches(db), [ps[0]], ps[1..], ps);
  }

  /** The end of a push command: on success the database is saved and
      `applied` names the new top; on an error nothing is saved. */
  function Finish(step: Step, pre: seq<Event>): Outcome {
    if step.error.Some? then Outcome(step.store, pre + step.events, step.error)
    else Outcome(WithDb(step.store, step.db), pre + step.events + [Applied(TopName(step.db))], None)
  }

  /** `_check`: the series file must exist and name a patch. */
  function Check(st: Store, series: PatchSeries): (e: Option<QuiltError>)
    ensures e.Some? <==> st.series.None? || Patches(series) == []
    ensures e.Some? ==> e.value == NoPatchesInSeries
  {
    if st.series.None? || Patches(series) == [] then Some(NoPatchesInSeries) else None
  }

  /** `apply_next_patch`: the first patch of the series when nothing is
      applied, else the one after the top. */
  function ApplyNext(st: Store, force: bool, quiet: bool, tool: PatchProgram): (r: Outcome) {
    match OpenDb(st.version, st.applied)
    case Err(e) => Outcome(st, [], Some(e))
    case Ok(db) =>
      var series := Read(st.series);
      match Check(st, series)
      case Some(e) => Outcome(st, [], Some(e))
      case None =>
        var next: Result<Option<Patch>, QuiltError> := if Top(db).None? then Ok(First(series)) else PatchAfter(series, Top(db).value.name);
        match next
        case Err(e) => Outcome(st, [], Some(e))
        case Ok(None) => Outcome(st, [], Some(AllPatchesApplied(TopName(db))))
        case Ok(Some(p)) => Finish(ApplyOne(st, db, p, force, quiet, tool), [Applying(p.name)])
  }

  /** `apply_all`: every patch after the top, or every patch. */
  function ApplyAll(st: Store, force: bool, quiet: bool, tool: PatchProgram): (r: Outcome) {
    match OpenDb(st.version, st.applied)
    case Err(e) => Outcome(st, [], Some(e))
    case Ok(db) =>
      var series := Read(st.series);
      match Check(st, series)
      case Some(e) => Outcome(st, [], Some(e))
      case None =>
        var todo: Result<seq<Patch>, QuiltError> := if Top(db).None? then Ok(Patches(series)) else PatchesAfter(series, Top(db).value.name);
        match todo
        case Err(e) => Outcome(st, [], Some(e))
        case Ok(ps) =>
          if ps == [] then Outcome(st, [], Some(AllPatchesApplied(TopName(db))))
          else Finish(ApplyEach(st, db, ps, true, force, quiet, tool), [])
  }

  /** `patches.remove(patch)`: drop the first patch of that name, if any. */
  function RemoveFirst(ps: seq<Patch>, n: string): (r: seq<Patch>)
    ensures n !in NamesOf(ps) ==> r == ps
    ensures n in NamesOf(ps) ==> |r| == |ps| - 1
  {
    if ps == [] then []
    else if ps[0].name == n then ps[1..]
    else [ps[0]] + RemoveFirst(ps[1..], n)
  }

  /** The loop of lines 102-104 as evidently intended: each applied patch
      found among the patches is removed from them. */
  function Unapplied(ps: seq<Patch>, applied: seq<Patch>): seq<Patch>
    decreases |applied|
  {
    if applied == [] then ps
    else Unapplied(RemoveFirst(ps, applied[0].name), applied[1..])
  }

  /** The same loop as written: for each applied patch found among the
      patches it calls `remove` with the whole applied list, which no patch
      equals, so `remove` raises ValueError. */
  function UnappliedAsWritten(ps: seq<Patch>, applied: seq<Patch>): (r: Result<seq<Patch>, QuiltError>)
    ensures r.Ok? ==> r.value == ps
    ensures r.Err? ==> r.error == NotInList("remove")
    decreases |applied|
  {
    if applied == [] then Ok(ps)
    else if InList(applied[0], ps) then Err(NotInList("remove"))
    else UnappliedAsWritten(ps, applied[1..])
  }

  /** The loop as written fails exactly when some applied patch is among
      the patches, and otherwise leaves them as they are. */
  lemma {:induction false} UnappliedAsWrittenIff(ps: seq<Patch>, applied: seq<Patch>)
    ensures UnappliedAsWritten(ps, applied).Err?
            <==> exists i | 0 <= i < |applied| :: applied[i].name in NamesOf(ps)
    ensures UnappliedAsWritten(ps, applied).Ok? ==> UnappliedAsWritten(ps, applied).value == ps
    decreases |applied|
  {
    if applied != [] {
      InListIffNamed(applied[0], ps);
      UnappliedAsWrittenIff(ps, applied[1..]);
      assert forall i | 1 <= i < |applied| :: applied[1..][i - 1] == applied[i];
    }
  }

  /** The patch the `applying` signal of `apply_patch` names: the loop
      variable of lines 102-104, which is the last applied patch when there
      is one. */
  function Announced(name: string, applied: seq<Patch>): string {
    if applied == [] then name else applied[|applied| - 1].name
  }

  /** `apply_patch(name)` with the removal loop given as `pending`. */
  function ApplyUpTo(st: Store, name: string, asWritten: bool, force: bool, quiet: bool,
                     tool: PatchProgram): (r: Outcome) {
    match OpenDb(st.version, st.applied)
    case Err(e) => Outcome(st, [], Some(e))
    case Ok(db) =>
      var series := Read(st.series);
      match Check(st, series)
      case Some(e) => Outcome(st, [], Some(e))
      case None =>
        match PatchesUntil(series, name)
        case Err(e) => Outcome(st, [], Some(e))
        case Ok(until) =>
          var applied := Patches(db);
          var pending: Result<seq<Patch>, QuiltError> := if asWritten then UnappliedAsWritten(until, applied) else Ok(Unapplied(until, applied));
          match pending
          case Err(e) => Outcome(st, [], Some(e))
          case Ok(ps) =>
            if ps == [] then Outcome(st, [], Some(AllPatchesApplied(TopName(db))))
            else Finish(ApplyEach(st, db, ps, false, force, quiet, tool), [Applying(Announced(name, applied))])
  }

  /** `apply_patch(name)` as written. */
  function ApplyPatchAsWritten(st: Store, name: string, force: bool, quiet: bool,
                               tool: PatchProgram): Outcome {
    ApplyUpTo(st, name, true, force, quiet, tool)
  }

  /** `apply_patch(name)` with the applied patches removed as intended. */
  function ApplyPatch(st: Store, name: string, force: bool, quiet: bool,
                      tool: PatchProgram): Outcome {
    ApplyUpTo(st, name, false, force, quiet, tool)
  }

  // ------------------------------------------------------ one patch

  /** A patch without a patch file is recorded with nothing run: the tree
      stays, its backup directory exists afterwards, and
      `applied_empty_patch(patch, False)` fires. */
  lemma ApplyWithoutFile(st: Store, db: PatchSeries, p: Patch, force: bool, quiet: bool, tool: PatchProgram)
    requires p.name !in st.sentinels && p.name !in st.patchFiles
    ensures var r := ApplyOne(st, db, p, force, quiet, tool);
            r.error.None? && r.store.tree == st.tree
            && Patches(r.db) == Patches(db) + [p]
            && p.name in r.store.backups && p.name !in r.store.sentinels
            && r.events == [ApplyingPatch(p.name), AppliedEmpty(p.name, false)]
  {
    AddObj(db, p);
  }

  /** A run that succeeds is kept: the tree is the one `patch` left, the
      sentinel is gone and the patch is the new top of the in-memory
      database. */
  lemma ApplySucceeds(st: Store, db: PatchSeries, p: Patch, force: bool, quiet: bool, tool: PatchProgram)
    requires p.name !in st.sentinels && p.name in st.patchFiles
    requires tool(PushArgv(st, p, quiet), st.patchFiles[p.name], st.tree).code == 0
    ensures var ran := tool(PushArgv(st, p, quiet), st.patchFiles[p.name], st.tree);
            var r := ApplyOne(st, db, p, force, quiet, tool);
            r.error.None? && r.store.tree == ran.tree && p.name !in r.store.sentinels
            && Patches(r.db) == Patches(db) + [p]
            && r.events == [ApplyingPatch(p.name),
                            if p.name in st.backups || ran.tree != st.tree then AppliedPatch(p.name)
                            else AppliedEmpty(p.name, true)]
  {
    var ran := tool(PushArgv(st, p, quiet), st.patchFiles[p.name], st.tree);
    NothingTouched(st.tree, ran.tree);
    AddObj(db, p);
  }

  /** After a run that succeeds, the backup directory holds the original of
      every file the run changed, empty for a file it created; its
      `.timestamp` is empty, whatever the run saved under that name. */
  lemma ApplyBacksUp(st: Store, db: PatchSeries, p: Patch, force: bool, quiet: bool, tool: PatchProgram)
    requires p.name !in st.sentinels && p.name in st.patchFiles
    requires tool(PushArgv(st, p, quiet), st.patchFiles[p.name], st.tree).code == 0
    ensures var ran := tool(PushArgv(st, p, quiet), st.patchFiles[p.name], st.tree);
            var r := ApplyOne(st, db, p, force, quiet, tool);
            p.name in r.store.backups
            && (forall f | f != Timestamp && Changed(st.tree, ran.tree, f) ::
                 f in r.store.backups[p.name]
                 && r.store.backups[p.name][f] == (if f in st.tree then st.tree[f] else ""))
            && (Timestamp in r.store.backups[p.name] ==> r.store.backups[p.name][Timestamp] == "")
  {
    var ran := tool(PushArgv(st, p, quiet), st.patchFiles[p.name], st.tree);
    var dir := AfterRun(DirOf(st, p.name), st.tree, ran.tree);
    var r := ApplyOne(st, db, p, force, quiet, tool);
    assert r.store.backups[p.name] == Stamp(dir);
    StampKeeps(DirOf(st, p.name), st.tree, ran.tree);
  }

  lemma StampKeeps(dir: Option<Tree>, before: Tree, after: Tree)
    ensures forall f | f != Timestamp && Changed(before, after, f) ::
              f in Stamp(AfterRun(dir, before, after))
              && Stamp(AfterRun(dir, before, after))[f] == (if f in before then before[f] else "")
    ensures var d := Stamp(AfterRun(dir, before, after));
            Timestamp in d ==> d[Timestamp] == ""
  {
    var t := Touched(before, after);
    forall f | f != Timestamp && Changed(before, after, f)
      ensures f in Stamp(AfterRun(dir, before, after))
              && Stamp(AfterRun(dir, before, after))[f] == (if f in before then before[f] else "")
    {
      assert f in t;
    }
  }

  /** A run that fails without `force` leaves the sentinel and no backup
      directory, does not touch the database, and restores every non-empty
      file it changed. When the patch had no backup directory before, the
      tree is exactly the one before the run, less the empty files the run
      touched. */
  lemma ApplyFailsRollsBack(st: Store, db: PatchSeries, p: Patch, quiet: bool, tool: PatchProgram)
    requires p.name !in st.sentinels && p.name in st.patchFiles
    requires tool(PushArgv(st, p, quiet), st.patchFiles[p.name], st.tree).code != 0
    ensures var ran := tool(PushArgv(st, p, quiet), st.patchFiles[p.name], st.tree);
            var r := ApplyOne(st, db, p, false, quiet, tool);
            r.db == db && p.name in r.store.sentinels && p.name !in r.store.backups
            && r.events == [ApplyingPatch(p.name)]
            && r.error == Some(if p.name in st.backups || ran.tree != st.tree then DoesNotApply(p.name)
                               else NoSuchFile(Join(st.pc, p.name)))
            && (forall f | Changed(st.tree, ran.tree, f) && f in st.tree && st.tree[f] != "" ::
                  f in r.store.tree && r.store.tree[f] == st.tree[f])
            && (p.name !in st.backups ==> r.store.tree == WithoutEmptyTouched(st.tree, ran.tree))
  {
    var ran := tool(PushArgv(st, p, quiet), st.patchFiles[p.name], st.tree);
    NothingTouched(st.tree, ran.tree);
    RollbackRestores(st.tree, ran.tree);
    if p.name !in st.backups && ran.tree == st.tree {
      var w := WithoutEmptyTouched(st.tree, ran.tree);
      assert w == st.tree by {
        forall f | f in st.tree ensures f in w {
          assert !Changed(st.tree, ran.tree, f);
        }
      }
    }
  }

  /** A run that fails with `force` is kept: the sentinel stays, the patch
      is appended to the in-memory database, and `_apply_patch` raises when
      the run left a backup directory. */
  lemma ApplyForced(st: Store, db: PatchSeries, p: Patch, quiet: bool, tool: PatchProgram)
    requires p.name !in st.sentinels && p.name in st.patchFiles
    requires tool(PushArgv(st, p, quiet), st.patchFiles[p.name], st.tree).code != 0
    ensures var ran := tool(PushArgv(st, p, quiet), st.patchFiles[p.name], st.tree);
            var r := ApplyOne(st, db, p, true, quiet, tool);
            r.store.tree == ran.tree && p.name in r.store.sentinels
            && Patches(r.db) == Patches(db) + [p]
            && (r.error.Some? <==> p.name in st.backups || ran.tree != st.tree)
            && (r.error.Some? ==> r.error.value == ForcedApply(p.name))
  {
    var ran := tool(PushArgv(st, p, quiet), st.patchFiles[p.name], st.tree);
    NothingTouched(st.tree, ran.tree);
    AddObj(db, p);
  }

  // ------------------------------------------------------ the commands

  /** Saving a database that gained patches with plain names opens again
      with their names appended. */
  lemma SavedAppend(st: Store, db: PatchSeries, d: PatchSeries, ps: seq<Patch>)
    requires StableLines(LinesOf(db.rows))
    requires forall i | 0 <= i < |ps| :: PlainName(ps[i].name)
    requires LinesOf(d.rows) == LinesOf(db.rows) + ObjLines(ps)
    requires Patches(d) == Patches(db) + ps
    ensures OpenDb(WithDb(st, d).version, WithDb(st, d).applied).Ok?
    ensures Names(Read(WithDb(st, d).applied)) == Names(db) + NamesOf(ps)
  {
    ObjStable(ps);
    StableConcat(LinesOf(db.rows), ObjLines(ps));
    SavedDbNames(st, d);
    NamesOfConcat(Patches(db), ps);
  }


  /** With the series file missing or empty, every push command raises
      NoPatchesInSeries and changes nothing. */
  lemma PushNeedsPatches(st: Store, name: string, force: bool, quiet: bool, tool: PatchProgram)
    requires OpenDb(st.version, st.applied).Ok?
    requires st.series.None? || Patches(Read(st.series)) == []
    ensures ApplyNext(st, force, quiet, tool) == Outcome(st, [], Some(NoPatchesInSeries))
    ensures ApplyAll(st, force, quiet, tool) == Outcome(st, [], Some(NoPatchesInSeries))
    ensures ApplyPatch(st, name, force, quiet, tool) == Outcome(st, [], Some(NoPatchesInSeries))
    ensures ApplyPatchAsWritten(st, name, force, quiet, tool) == Outcome(st, [], Some(NoPatchesInSeries))
  {
  }

  /** In a consistent store the patch after the top is the series patch at
      the position where the applied list ends, and the patches after the
      top are the series patches from there on. */
  lemma NextAtPrefixEnd(st: Store)
    requires Consistent(st)
    ensures var s := Read(st.series);
            var db := Read(st.applied);
            var k := |Patches(db)|;
            k <= |Patches(s)|
            && (if Top(db).None? then Ok(First(s)) else PatchAfter(s, Top(db).value.name))
               == Ok(if k < |Patches(s)| then Some(Patches(s)[k]) else None)
            && (if Top(db).None? then Ok(Patches(s)) else PatchesAfter(s, Top(db).value.name))
               == Ok(Patches(s)[k..])
  {
    ConsistentExact(st);
    var s := Read(st.series);
    var db := Read(st.applied);
    var k := |Patches(db)|;
    if k > 0 {
      Neighbours(s, k - 1);
      ExactPosition(s, k - 1);
      assert Names(db)[k - 1] == Names(s)[k - 1];
    }
  }

  /** Names before position `k`, then the names of the patches from `k` to
      `m`, are the names before `m`. */
  lemma {:induction false} PrefixExtend(ps: seq<Patch>, before: seq<string>, k: nat, m: nat)
    requires k <= m <= |ps| && before == NamesOf(ps)[..k]
    ensures before + NamesOf(ps[k..m]) == NamesOf(ps)[..m]
  {
    var ns := NamesOf(ps);
    var whole := before + NamesOf(ps[k..m]);
    forall j | 0 <= j < m ensures whole[j] == ns[j] {
      if j >= k {
        assert ps[k..m][j - k] == ps[j];
      }
    }
  }

  /** A step of a push command from a consistent store that appends to the
      in-memory database exactly the series patches from where the applied
      list ends up to position `m`, and leaves the series file alone. */
  ghost predicate Appends(st: Store, step: Step, m: nat) {
    var db := Read(st.applied);
    var k := |Patches(db)|;
    var ps := Patches(Read(st.series));
    k <= m <= |ps| && step.store.series == st.series
    && (step.error.None? ==> LinesOf(step.db.rows) == LinesOf(db.rows) + ObjLines(ps[k..m])
                             && Patches(step.db) == Patches(db) + ps[k..m])
  }

  /** The series patches between two positions have plain names. */
  lemma {:induction false} PlainSlice(ps: seq<Patch>, k: nat, m: nat)
    requires k <= m <= |ps|
    requires forall i | 0 <= i < |NamesOf(ps)| :: PlainName(NamesOf(ps)[i])
    ensures forall i | 0 <= i < |ps[k..m]| :: PlainName(ps[k..m][i].name)
  {
    assert forall i | 0 <= i < |ps[k..m]| :: ps[k..m][i].name == NamesOf(ps)[k + i];
  }

  /** The step of a command that appended the series patches from where the
      applied list ends up to `m`: the lines and the patches it appended. */
  lemma AppendsFrom(st: Store, step: Step, m: nat, todo: seq<Patch>)
    requires |Patches(Read(st.applied))| <= m <= |Patches(Read(st.series))|
    requires todo == Patches(Read(st.series))[|Patches(Read(st.applied))|..m]
    requires step.store.series == st.series
    requires step.error.None? ==> LinesOf(step.db.rows) == LinesOf(Read(st.applied).rows) + ObjLines(todo)
    requires step.error.None? ==> Patches(step.db) == Patches(Read(st.applied)) + todo
    ensures Appends(st, step, m)
  {
  }

  /** Such a step, once finished without error, saves the applied names
      followed by the names of the patches it appended. */
  lemma StepSaves(st: Store, step: Step, pre: seq<Event>, o: Outcome, m: nat)
    requires StableLines(LinesOf(Read(st.applied).rows))
    requires forall i | 0 <= i < |NamesOf(Patches(Read(st.series)))| :: PlainName(NamesOf(Patches(Read(st.series)))[i])
    requires Appends(st, step, m)
    requires o == Finish(step, pre) && o.error.None?
    ensures o.store.series == st.series && OpenDb(o.store.version, o.store.applied).Ok?
    ensures Names(Read(o.store.applied))
            == Names(Read(st.applied)) + NamesOf(Patches(Read(st.series))[|Patches(Read(st.applied))|..m])
  {
    var db := Read(st.applied);
    var todo := Patches(Read(st.series))[|Patches(db)|..m];
    PlainSlice(Patches(Read(st.series)), |Patches(db)|, m);
    SavedAppend(step.store, db, step.db, todo);
  }

  /** A push that ends without error after such a step saves a database
      whose names are the series names up to position `m`, and the store
      stays consistent. */
  lemma FinishReaches(st: Store, step: Step, pre: seq<Event>, o: Outcome, m: nat)
    requires Consistent(st) && Appends(st, step, m)
    requires o == Finish(step, pre) && o.error.None?
    ensures o.store.series == st.series
    ensures Names(Read(o.store.applied)) == Names(Read(st.series))[..m]
    ensures Consistent(o.store)
  {
    ConsistentExact(st);
    StepSaves(st, step, pre, o, m);
    AppliedPrefix(st);
    PrefixExtend(Patches(Read(st.series)), Names(Read(st.applied)), |Patches(Read(st.applied))|, m);
    StillConsistent(st, o.store);
  }

  /** The same for a step given by what it appended. */
  lemma StepReaches(st: Store, step: Step, pre: seq<Event>, o: Outcome, m: nat, todo: seq<Patch>)
    requires Consistent(st)
    requires |Patches(Read(st.applied))| <= m <= |Patches(Read(st.series))|
    requires todo == Patches(Read(st.series))[|Patches(Read(st.applied))|..m]
    requires step.store.series == st.series
    requires step.error.None? ==> LinesOf(step.db.rows) == LinesOf(Read(st.applied).rows) + ObjLines(todo)
    requires step.error.None? ==> Patches(step.db) == Patches(Read(st.applied)) + todo
    requires o == Finish(step, pre) && o.error.None?
    ensures o.store.series == st.series
    ensures Names(Read(o.store.applied)) == Names(Read(st.series))[..m]
    ensures Consistent(o.store)
  {
    AppendsFrom(st, step, m, todo);
    FinishReaches(st, step, pre, o, m);
  }

  /** In a consistent store `apply_next_patch` applies the series patch
      where the applied list ends, and fails when there is none. */
  lemma ApplyNextIs(st: Store, force: bool, quiet: bool, tool: PatchProgram)
    requires Consistent(st)
    ensures var s := Read(st.series);
            var db := Read(st.applied);
            var k := |Patches(db)|;
            (k < |Patches(s)| ==>
               ApplyNext(st, force, quiet, tool)
               == Finish(ApplyOne(st, db, Patches(s)[k], force, quiet, tool), [Applying(Patches(s)[k].name)]))
            && (k >= |Patches(s)| ==> ApplyNext(st, force, quiet, tool).error.Some?)
  {
    NextAtPrefixEnd(st);
    assert OpenDb(st.version, st.applied) == Ok(Read(st.applied));
  }

  lemma HasNext(st: Store, force: bool, quiet: bool, tool: PatchProgram)
    requires Consistent(st)
    requires ApplyNext(st, force, quiet, tool).error.None?
    ensures |Patches(Read(st.applied))| < |Patches(Read(st.series))|
  {
    ApplyNextIs(st, force, quiet, tool);
  }

  lemma SliceToEnd<T>(s: seq<T>, k: nat)
    requires k <= |s|
    ensures s[k..] == s[k..|s|]
  {
  }

  lemma SliceOne<T>(s: seq<T>, k: nat)
    requires k < |s|
    ensures s[k..k + 1] == [s[k]]
  {
  }

  /** The step `apply_next_patch` takes, as one that appends. */
  lemma ApplyNextStep(st: Store, force: bool, quiet: bool, tool: PatchProgram) returns (step: Step, p: Patch)
    requires Consistent(st)
    requires |Patches(Read(st.applied))| < |Patches(Read(st.series))|
    ensures ApplyNext(st, force, quiet, tool) == Finish(step, [Applying(p.name)])
    ensures Appends(st, step, |Patches(Read(st.applied))| + 1)
  {
    ApplyNextIs(st, force, quiet, tool);
    p := Patches(Read(st.series))[|Patches(Read(st.applied))|];
    step := ApplyOne(st, Read(st.applied), p, force, quiet, tool);
    OneAppends(st, step, p);
  }

  /** A step that appends the series patch where the applied list ends. */
  lemma OneAppends(st: Store, step: Step, p: Patch)
    requires |Patches(Read(st.applied))| < |Patches(Read(st.series))|
    requires p == Patches(Read(st.series))[|Patches(Read(st.applied))|]
    requires step.store.series == st.series
    requires step.error.None? ==> step.db == AddLine(Read(st.applied), MakeLine(Obj(p)))
    ensures Appends(st, step, |Patches(Read(st.applied))| + 1)
  {
    var db := Read(st.applied);
    var k := |Patches(db)|;
    AddObj(db, p);
    SliceOne(Patches(Read(st.series)), k);
    AppendsFrom(st, step, k + 1, [p]);
  }

  /** `apply_next_patch` on a consistent store that it completes: exactly
      the next series patch joins the applied ones, so they stay a prefix of
      the series, one longer, and the store stays consistent. */
  lemma ApplyNextGrows(st: Store, force: bool, quiet: bool, tool: PatchProgram)
    requires Consistent(st)
    requires ApplyNext(st, force, quiet, tool).error.None?
    ensures var r := ApplyNext(st, force, quiet, tool);
            var k := |Names(Read(st.applied))|;
            k < |Names(Read(st.series))|
            && Names(Read(r.store.applied)) == Names(Read(st.series))[..k + 1]
            && r.store.series == st.series && Consistent(r.store)
  {
    HasNext(st, force, quiet, tool);
    var step, p := ApplyNextStep(st, force, quiet, tool);
    FinishReaches(st, step, [Applying(p.name)], ApplyNext(st, force, quiet, tool),
                  |Patches(Read(st.applied))| + 1);
  }

  /** Once every series patch is applied, `apply_next_patch` and
      `apply_all` raise AllPatchesApplied naming the top, and change nothing. */
  lemma AllApplied(st: Store, force: bool, quiet: bool, tool: PatchProgram)
    requires Consistent(st)
    requires Names(Read(st.applied)) == Names(Read(st.series)) != []
    ensures var top := Some(Names(Read(st.series))[|Names(Read(st.series))| - 1]);
            ApplyNext(st, force, quiet, tool) == Outcome(st, [], Some(AllPatchesApplied(top)))
            && ApplyAll(st, force, quiet, tool) == Outcome(st, [], Some(AllPatchesApplied(top)))
  {
    NextAtPrefixEnd(st);
    assert OpenDb(st.version, st.applied) == Ok(Read(st.applied));
    assert st.series.Some?;
  }

  /** In a consistent store `apply_all` applies the series patches from
      where the applied list ends, and fails when there are none. */
  lemma ApplyAllIs(st: Store, force: bool, quiet: bool, tool: PatchProgram)
    requires Consistent(st)
    ensures var s := Read(st.series);
            var db := Read(st.applied);
            var k := |Patches(db)|;
            (k < |Patches(s)| ==>
               ApplyAll(st, force, quiet, tool)
               == Finish(ApplyEach(st, db, Patches(s)[k..], true, force, quiet, tool), []))
            && (k >= |Patches(s)| ==> ApplyAll(st, force, quiet, tool).error.Some?)
  {
    NextAtPrefixEnd(st);
    assert OpenDb(st.version, st.applied) == Ok(Read(st.applied));
  }

  lemma HasMore(st: Store, force: bool, quiet: bool, tool: PatchProgram)
    requires Consistent(st)
    requires ApplyAll(st, force, quiet, tool).error.None?
    ensures |Patches(Read(st.applied))| < |Patches(Read(st.series))|
  {
    ApplyAllIs(st, force, quiet, tool);
  }

  /** The step `apply_all` takes, as one that appends. */
  lemma ApplyAllStep(st: Store, force: bool, quiet: bool, tool: PatchProgram) returns (step: Step)
    requires Consistent(st)
    requires |Patches(Read(st.applied))| < |Patches(Read(st.series))|
    ensures ApplyAll(st, force, quiet, tool) == Finish(step, [])
    ensures var db := Read(st.applied);
            var todo := Patches(Read(st.series))[|Patches(db)|..];
            step.store.series == st.series
            && (step.error.None? ==> LinesOf(step.db.rows) == LinesOf(db.rows) + ObjLines(todo)
                                     && Patches(step.db) == Patches(db) + todo)
  {
    var db := Read(st.applied);
    var ps := Patches(Read(st.series));
    step := ApplyEach(st, db, ps[|Patches(db)|..], true, force, quiet, tool);
    ApplyAllIs(st, force, quiet, tool);
  }

  /** `apply_all` on a consistent store that it completes: every series
      patch ends up applied, in series order. */
  lemma ApplyAllCompletes(st: Store, force: bool, quiet: bool, tool: PatchProgram)
    requires Consistent(st)
    requires ApplyAll(st, force, quiet, tool).error.None?
    ensures var r := ApplyAll(st, force, quiet, tool);
            Names(Read(r.store.applied)) == Names(Read(st.series))
            && r.store.series == st.series && Consistent(r.store)
  {
    HasMore(st, force, quiet, tool);
    var step := ApplyAllStep(st, force, quiet, tool);
    var k := |Patches(Read(st.applied))|;
    var ps := Patches(Read(st.series));
    SliceToEnd(ps, k);
    StepReaches(st, step, [], ApplyAll(st, force, quiet, tool), |ps|, ps[k..]);
  }

  /** Removing, in order, applied patches whose names match the patches'
      leading names takes exactly that many patches off the front. */
  lemma {:induction false} UnappliedFront(ps: seq<Patch>, applied: seq<Patch>)
    requires forall t | 0 <= t < |ps| && t < |applied| :: applied[t].name == ps[t].name
    ensures Unapplied(ps, applied) == ps[if |applied| < |ps| then |applied| else |ps|..]
    decreases |applied|
  {
    if applied != [] {
      if ps == [] {
        UnappliedFront(ps, applied[1..]);
      } else {
        assert RemoveFirst(ps, applied[0].name) == ps[1..];
        UnappliedFront(ps[1..], applied[1..]);
        assert ps[1..][if |applied| - 1 < |ps| - 1 then |applied| - 1 else |ps| - 1..]
            == ps[if |applied| < |ps| then |applied| else |ps|..];
      }
    }
  }

  /** The applied patches of a consistent store, removed as intended from
      the series patches up to position `i`, leave those not applied yet. */
  lemma UnappliedPrefix(ps: seq<Patch>, applied: seq<Patch>, i: nat)
    requires i < |ps| && |applied| <= |ps|
    requires NamesOf(applied) == NamesOf(ps)[..|applied|]
    ensures Unapplied(ps[..i + 1], applied) == (if |applied| <= i then ps[|applied|..i + 1] else [])
  {
    var until := ps[..i + 1];
    assert forall t | 0 <= t < |until| && t < |applied| :: applied[t].name == NamesOf(applied)[t] == until[t].name;
    UnappliedFront(until, applied);
  }

  /** The patches up to a named series patch are the series patches up to
      its position. */
  lemma UntilPosition(st: Store, i: nat)
    requires Consistent(st) && i < |Names(Read(st.series))|
    ensures PatchesUntil(Read(st.series), Names(Read(st.series))[i]) == Ok(Patches(Read(st.series))[..i + 1])
  {
    ConsistentExact(st);
    ExactPosition(Read(st.series), i);
  }

  /** In a consistent store `apply_patch(name)`, as intended, applies the
      series patches from where the applied list ends up to the named one,
      and raises AllPatchesApplied, changing nothing, when that patch is
      applied already. */
  lemma ApplyPatchIs(st: Store, i: nat, force: bool, quiet: bool, tool: PatchProgram)
    requires Consistent(st) && i < |Names(Read(st.series))|
    ensures var s := Read(st.series);
            var db := Read(st.applied);
            var k := |Patches(db)|;
            var name := Names(s)[i];
            (k <= i ==>
               ApplyPatch(st, name, force, quiet, tool)
               == Finish(ApplyEach(st, db, Patches(s)[k..i + 1], false, force, quiet, tool),
                         [Applying(Announced(name, Patches(db)))]))
            && (k > i ==> ApplyPatch(st, name, force, quiet, tool)
                          == Outcome(st, [], Some(AllPatchesApplied(TopName(db)))))
  {
    var db := Read(st.applied);
    UntilPosition(st, i);
    AppliedPrefix(st);
    UnappliedPrefix(Patches(Read(st.series)), Patches(db), i);
    assert OpenDb(st.version, st.applied) == Ok(db);
    assert st.series.Some?;
  }

  lemma HasPending(st: Store, i: nat, force: bool, quiet: bool, tool: PatchProgram)
    requires Consistent(st) && i < |Names(Read(st.series))|
    requires ApplyPatch(st, Names(Read(st.series))[i], force, quiet, tool).error.None?
    ensures |Patches(Read(st.applied))| <= i
  {
    ApplyPatchIs(st, i, force, quiet, tool);
  }

  /** The step `apply_patch(name)` takes, as one that appends. */
  lemma ApplyPatchStep(st: Store, i: nat, force: bool, quiet: bool, tool: PatchProgram)
    returns (step: Step, pre: seq<Event>)
    requires Consistent(st) && i < |Names(Read(st.series))|
    requires |Patches(Read(st.applied))| <= i
    ensures ApplyPatch(st, Names(Read(st.series))[i], force, quiet, tool) == Finish(step, pre)
    ensures var db := Read(st.applied);
            var todo := Patches(Read(st.series))[|Patches(db)|..i + 1];
            step.store.series == st.series
            && (step.error.None? ==> LinesOf(step.db.rows) == LinesOf(db.rows) + ObjLines(todo)
                                     && Patches(step.db) == Patches(db) + todo)
  {
    var db := Read(st.applied);
    var ps := Patches(Read(st.series));
    ApplyPatchIs(st, i, force, quiet, tool);
    step := ApplyEach(st, db, ps[|Patches(db)|..i + 1], false, force, quiet, tool);
    pre := [Applying(Announced(Names(Read(st.series))[i], Patches(db)))];
  }

  /** `apply_patch(name)`, as intended, on a consistent store that it
      completes: the applied patches become exactly the series up to and
      including the named patch. */
  lemma ApplyPatchReaches(st: Store, i: nat, force: bool, quiet: bool, tool: PatchProgram)
    requires Consistent(st) && i < |Names(Read(st.series))|
    requires ApplyPatch(st, Names(Read(st.series))[i], force, quiet, tool).error.None?
    ensures var r := ApplyPatch(st, Names(Read(st.series))[i], force, quiet, tool);
            Names(Read(r.store.applied)) == Names(Read(st.series))[..i + 1]
            && r.store.series == st.series && Consistent(r.store)
  {
    HasPending(st, i, force, quiet, tool);
    var step, pre := ApplyPatchStep(st, i, force, quiet, tool);
    var o := ApplyPatch(st, Names(Read(st.series))[i], force, quiet, tool);
    StepReaches(st, step, pre, o, i + 1, Patches(Read(st.series))[|Patches(Read(st.applied))|..i + 1]);
  }

  /** With some patch applied, the first applied patch is among the series
      patches up to any position, so the loop as written fails. */
  lemma FirstAppliedPending(st: Store, i: nat)
    requires Consistent(st) && i < |Names(Read(st.series))| && Names(Read(st.applied)) != []
    ensures UnappliedAsWritten(Patches(Read(st.series))[..i + 1], Patches(Read(st.applied))).Err?
  {
    var s := Read(st.series);
    var db := Read(st.applied);
    AppliedPrefix(st);
    var until := Patches(s)[..i + 1];
    assert Patches(db)[0].name == Names(s)[0] == NamesOf(until)[0];
    HeadPending(until, Patches(db));
  }

  lemma HeadPending(ps: seq<Patch>, applied: seq<Patch>)
    requires ps != [] && applied != [] && applied[0].name == NamesOf(ps)[0]
    ensures UnappliedAsWritten(ps, applied).Err?
  {
    UnappliedAsWrittenIff(ps, applied);
  }

  /** `apply_patch(name)` as written fails, changing nothing, whenever some
      patch is applied: the first applied patch is always among the patches
      up to the named one, and `remove` is handed the whole applied list. */
  lemma ApplyPatchAsWrittenFails(st: Store, i: nat, force: bool, quiet: bool, tool: PatchProgram)
    requires Consistent(st) && i < |Names(Read(st.series))| && Names(Read(st.applied)) != []
    ensures ApplyPatchAsWritten(st, Names(Read(st.series))[i], force, quiet, tool)
            == Outcome(st, [], Some(NotInList("remove")))
  {
    UntilPosition(st, i);
    FirstAppliedPending(st, i);
    assert OpenDb(st.version, st.applied) == Ok(Read(st.applied));
    assert st.series.Some?;
  }
}
