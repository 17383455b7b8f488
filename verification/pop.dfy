/** `Pop` of quilt/pop.py: taking the top patch off the queue by rolling
    the working tree back from its backup directory, and the three commands
    that pop down to a named patch, pop the top patch, or pop them all.
    The file as it stands does not run (it names undefined variables and a
    `for` statement lacks its colon); this is the logic it evidently means:
    the backup directory is `.pc/<name>` and the top patch is the
    database's. */
module Pop {

  import opened Wrappers
  import opened Errors
  import opened PyStr
  import opened Patching
  import opened SeriesLine
  import opened Series
  import opened SeriesLaws
  import opened SeriesDb
  import opened Backups
  import opened Queue
  import opened Push

  /** `_check`: the applied-patches file must exist and list a patch. */
  function Check(st: Store, db: PatchSeries): (e: Option<QuiltError>)
    ensures e.Some? <==> st.applied.None? || Patches(db) == []
    ensures e.Some? ==> e.value == NoAppliedPatch
  {
    if st.applied.None? || Patches(db) == [] then Some(NoAppliedPatch) else None
  }

  /** `_unapply_patch(name)`: the `.timestamp` of `.pc/name` is deleted, the
      tree is rolled back from what is left of the directory, which is then
      removed, the patch leaves the in-memory database and its sentinel is
      deleted. Listing a directory that does not exist raises before
      anything changes; a patch missing from the database raises after the
      rollback. */
  function UnapplyOne(st: Store, db: PatchSeries, name: string): (r: Step)
    ensures r.events == [] && OnlyPatch(st, r.store, name)
    ensures r.error.None? <==> name in st.backups && IsPatch(db, name)
    ensures name !in st.backups ==> r == Step(st, db, [], Some(NoSuchFile(Join(st.pc, name))))
    ensures name in st.backups ==>
              name !in r.store.backups
              && r.store.tree == Rollback(st.tree, st.backups[name] - {Timestamp}, false)
    ensures r.error.Some? && name in st.backups ==>
              r.error.value == InvalidPatch(name) && r.db == db && r.store.sentinels == st.sentinels
    ensures r.error.None? ==>
              name !in r.store.sentinels && Patches(r.db) == PatchesBefore(db, name).value + PatchesAfter(db, name).value
  {
    match DirOf(st, name)
    case None => Step(st, db, [], Some(NoSuchFile(Join(st.pc, name))))
    case Some(b) =>
      var st1 := WithDir(st.(tree := Rollback(st.tree, b - {Timestamp}, false)), name, None);
      match RemovePatch(db, name)
      case Err(e) => Step(st1, db, [], Some(e))
      case Ok(db1) => Step(st1.(sentinels := st1.sentinels - {name}), db1, [], None)
  }

  /** The loop `for patch in reverse(patches)`: `_unapply_patch` for each
      patch from the last to the first, stopping at the first error. */
  function UnapplyBack(st: Store, db: PatchSeries, ps: seq<Patch>): (r: Step)
    ensures r.events == []
    ensures r.store.series == st.series && r.store.applied == st.applied
    ensures r.store.version == st.version && r.store.patchFiles == st.patchFiles
    ensures r.store.pc == st.pc && r.store.patchesDir == st.patchesDir && r.store.links == st.links
    ensures forall n | n !in NamesOf(ps) :: (n in r.store.backups <==> n in st.backups)
                                          && (n in r.store.backups ==> r.store.backups[n] == st.backups[n])
                                          && (n in r.store.sentinels <==> n in st.sentinels)
    decreases |ps|
  {
    if ps == [] then Step(st, db, [], None)
    else
      var one := UnapplyOne(st, db, ps[|ps| - 1].name);
      if one.error.Some? then one
      else
        var rest := UnapplyBack(one.store, one.db, ps[..|ps| - 1]);
        NamesOfInit(ps);
        rest
  }

  lemma {:induction false} NamesOfInit(ps: seq<Patch>)
    requires ps != []
    ensures forall n | n !in NamesOf(ps) :: n != ps[|ps| - 1].name && n !in NamesOf(ps[..|ps| - 1])
  {
    assert NamesOf(ps)[|ps| - 1] == ps[|ps| - 1].name;
    assert forall i | 0 <= i < |ps| - 1 :: NamesOf(ps[..|ps| - 1])[i] == NamesOf(ps)[i];
  }

  /** The end of a pop command: the database is saved once, after the whole
      batch; an error leaves the file as it was. Pop emits no signals. */
  function Close(step: Step): (o: Outcome)
    ensures o.store.series == step.store.series && o.events == [] && o.error == step.error
    ensures o.store.tree == step.store.tree && o.store.backups == step.store.backups
    ensures o.store.sentinels == step.store.sentinels && o.store.patchFiles == step.store.patchFiles
    ensures o.store.pc == step.store.pc && o.store.patchesDir == step.store.patchesDir
  {
    if step.error.Some? then Outcome(step.store, [], step.error)
    else Outcome(WithDb(step.store, step.db), [], None)
  }

  /** `unapply_patch(name)`: every applied patch after `name`, the last first. */
  function UnapplyPatch(st: Store, name: string): Outcome {
    match OpenDb(st.version, st.applied)
    case Err(e) => Outcome(st, [], Some(e))
    case Ok(db) =>
      match Check(st, db)
      case Some(e) => Outcome(st, [], Some(e))
      case None =>
        match PatchesAfter(db, name)
        case Err(e) => Outcome(st, [], Some(e))
        case Ok(ps) => Close(UnapplyBack(st, db, ps))
  }

  /** What `unapply_patch` is handed: the command line passes the bare name
      (quilt/cli/pop.py:44), where every other command wraps a name in a
      `Patch` before asking the database about it. */
  datatype PatchArg = BareName(text: string) | PatchObject(name: string)

  /** `patch in self.patch2line`: the keys are `Patch` objects, and
      `Patch.__eq__` is false for anything that is not a `Patch`, so a bare
      name is never found, whatever it spells. */
  predicate KnownArg(db: PatchSeries, a: PatchArg) {
    a.PatchObject? && IsPatch(db, a.name)
  }

  /** The text `InvalidPatchError` shows for the argument. */
  function ArgText(a: PatchArg): string {
    match a
    case BareName(t) => t
    case PatchObject(n) => n
  }

  /** `unapply_patch(patch_name)` as written, for the argument it is given:
      `patches_after` checks the argument against the database before
      anything is popped. A `Patch` argument behaves as `UnapplyPatch`. */
  function UnapplyPatchAsWritten(st: Store, a: PatchArg): (o: Outcome)
    ensures a.PatchObject? ==> o == UnapplyPatch(st, a.name)
    ensures o.error.None? ==> a.PatchObject?
  {
    match OpenDb(st.version, st.applied)
    case Err(e) => Outcome(st, [], Some(e))
    case Ok(db) =>
      match Check(st, db)
      case Some(e) => Outcome(st, [], Some(e))
      case None =>
        if !KnownArg(db, a) then Outcome(st, [], Some(InvalidPatch(ArgText(a))))
        else
          match PatchesAfter(db, a.name)
          case Err(e) => Outcome(st, [], Some(e))
          case Ok(ps) => Close(UnapplyBack(st, db, ps))
  }

  /** `unapply_top_patch()`: the top of the database. */
  function UnapplyTop(st: Store): Outcome {
    match OpenDb(st.version, st.applied)
    case Err(e) => Outcome(st, [], Some(e))
    case Ok(db) =>
      match Check(st, db)
      case Some(e) => Outcome(st, [], Some(e))
      case None => Close(UnapplyOne(st, db, Top(db).value.name))
  }

  /** `unapply_all()`: every applied patch, the last first. */
  function UnapplyAll(st: Store): Outcome {
    match OpenDb(st.version, st.applied)
    case Err(e) => Outcome(st, [], Some(e))
    case Ok(db) =>
      match Check(st, db)
      case Some(e) => Outcome(st, [], Some(e))
      case None => Close(UnapplyBack(st, db, Patches(db)))
  }

  // ------------------------------------------------------------ the laws

  /** With the applied-patches file missing or empty, every pop command
      raises NoAppliedPatch and changes nothing. */
  lemma PopNeedsApplied(st: Store, name: string)
    requires OpenDb(st.version, st.applied).Ok?
    requires st.applied.None? || Patches(Read(st.applied)) == []
    ensures UnapplyPatch(st, name) == Outcome(st, [], Some(NoAppliedPatch))
    ensures UnapplyTop(st) == Outcome(st, [], Some(NoAppliedPatch))
    ensures UnapplyAll(st) == Outcome(st, [], Some(NoAppliedPatch))
  {
  }

  /** Removing a patch keeps the remaining lines stable. */
  lemma {:induction false} RemoveStable(s: PatchSeries, name: string)
    requires RemovePatch(s, name).Ok? && StableLines(LinesOf(s.rows))
    ensures StableLines(LinesOf(RemovePatch(s, name).value.rows))
  {
    var i := RemovedRow(s, name);
    LinesOfDrop(s.rows, i);
    StableDrop(LinesOf(s.rows), i);
  }

  /** `remove_patch` drops one row. */
  lemma RemovedRow(s: PatchSeries, name: string) returns (i: nat)
    requires RemovePatch(s, name).Ok?
    ensures i < |s.rows| && RemovePatch(s, name).value.rows == s.rows[..i] + s.rows[i + 1..]
  {
    i := Position(s, name).value;
  }

  lemma {:induction false} LinesOfDrop(rows: seq<Row>, i: nat)
    requires i < |rows|
    ensures LinesOf(rows[..i] + rows[i + 1..]) == LinesOf(rows)[..i] + LinesOf(rows)[i + 1..]
  {
    var a := LinesOf(rows[..i] + rows[i + 1..]);
    var b := LinesOf(rows)[..i] + LinesOf(rows)[i + 1..];
    forall j | 0 <= j < |a| ensures a[j] == b[j] {
      if j < i { assert (rows[..i] + rows[i + 1..])[j] == rows[j]; }
      else { assert (rows[..i] + rows[i + 1..])[j] == rows[j + 1]; }
    }
  }

  lemma {:induction false} StableDrop(ls: seq<PatchLine>, i: nat)
    requires StableLines(ls) && i < |ls|
    ensures StableLines(ls[..i] + ls[i + 1..])
  {
    var r := ls[..i] + ls[i + 1..];
    forall j | 0 <= j < |r| ensures '\n' !in r[j].text && Reparses(r[j]) {
      if j < i { assert r[j] == ls[j]; } else { assert r[j] == ls[j + 1]; }
    }
  }

  /** In a list of distinct names the last name is not among the others. */
  lemma {:induction false} DistinctLast(pre: seq<Patch>, ps: seq<Patch>)
    requires ps != [] && Distinct(NamesOf(pre + ps))
    ensures forall i | 0 <= i < |ps| - 1 :: ps[i].name != ps[|ps| - 1].name
    ensures ps[|ps| - 1].name !in NamesOf(ps[..|ps| - 1])
  {
    var ns := NamesOf(pre + ps);
    assert forall i | 0 <= i < |ps| :: ns[|pre| + i] == ps[i].name;
  }

  /** Removing the last patch of an exact database of stable lines leaves
      an exact database of stable lines holding the others. */
  lemma {:induction false} RemoveLast(db: PatchSeries, pre: seq<Patch>, ps: seq<Patch>)
    requires ps != [] && Exact(db) && StableLines(LinesOf(db.rows)) && Patches(db) == pre + ps
    ensures var d := RemovePatch(db, ps[|ps| - 1].name);
            d.Ok? && Exact(d.value) && StableLines(LinesOf(d.value.rows))
            && Patches(d.value) == pre + ps[..|ps| - 1]
    ensures ps[|ps| - 1].name !in NamesOf(ps[..|ps| - 1])
  {
    var last := ps[|ps| - 1];
    var k := |Patches(db)| - 1;
    InitOfConcat(pre, ps, Patches(db), k);
    RemoveExact(db, k);
    RemoveStable(db, last.name);
    ExactDistinct(db);
    DistinctLast(pre, ps);
  }

  /** Popping the last patch of an exact database that has its backup
      directory succeeds, and the rest keep theirs. */
  lemma {:induction false} PopLast(st: Store, db: PatchSeries, pre: seq<Patch>, ps: seq<Patch>) returns (one: Step, init: seq<Patch>)
    requires ps != [] && Exact(db) && StableLines(LinesOf(db.rows)) && Patches(db) == pre + ps
    requires forall i | 0 <= i < |ps| :: ps[i].name in st.backups
    ensures init == ps[..|ps| - 1]
    ensures one == UnapplyOne(st, db, ps[|ps| - 1].name) && one.error.None?
    ensures Exact(one.db) && StableLines(LinesOf(one.db.rows)) && Patches(one.db) == pre + init
    ensures forall i | 0 <= i < |init| :: init[i].name in one.store.backups
    ensures ps[|ps| - 1].name !in one.store.backups && ps[|ps| - 1].name !in one.store.sentinels
    ensures ps[|ps| - 1].name !in NamesOf(init)
  {
    init := ps[..|ps| - 1];
    var last := ps[|ps| - 1];
    RemoveLast(db, pre, ps);
    one := UnapplyOne(st, db, last.name);
    assert one.db == RemovePatch(db, last.name).value;
    forall i | 0 <= i < |init| ensures init[i].name in one.store.backups {
      assert init[i] == ps[i];
      assert init[i].name in NamesOf(init);
    }
  }

  /** Popping, last first, the patches that end an exact database, each with
      its backup directory, succeeds and leaves exactly the patches before
      them; each loses its directory and its sentinel, and no other patch's
      directory or sentinel changes. */
  lemma {:induction false} UnapplyBackRemoves(st: Store, db: PatchSeries, pre: seq<Patch>, ps: seq<Patch>)
    requires Exact(db) && StableLines(LinesOf(db.rows)) && Patches(db) == pre + ps
    requires forall i | 0 <= i < |ps| :: ps[i].name in st.backups
    ensures var r := UnapplyBack(st, db, ps);
            r.error.None? && Exact(r.db) && StableLines(LinesOf(r.db.rows)) && Patches(r.db) == pre
            && forall i | 0 <= i < |ps| :: ps[i].name !in r.store.backups && ps[i].name !in r.store.sentinels
    decreases |ps|
  {
    if ps != [] {
      var one, init := PopLast(st, db, pre, ps);
      UnapplyBackRemoves(one.store, one.db, pre, init);
      var r := UnapplyBack(one.store, one.db, init);
      assert UnapplyBack(st, db, ps) == r;
      Gone(ps, init, r.store, one.store);
    }
  }

  lemma {:induction false} InitOfConcat<T>(pre: seq<T>, ps: seq<T>, s: seq<T>, k: nat)
    requires ps != [] && s == pre + ps && k + 1 == |s|
    ensures s[..k] + s[k + 1..] == pre + ps[..|ps| - 1]
    ensures s[k] == ps[|ps| - 1]
  {
    assert s[k + 1..] == [];
    var a := s[..k];
    var b := pre + ps[..|ps| - 1];
    assert forall i | 0 <= i < |a| :: a[i] == b[i];
  }

  /** Every patch but the last is gone from `r`, and the last is gone from
      `one` and, not being among the others, from `r` too. */
  lemma {:induction false} Gone(ps: seq<Patch>, init: seq<Patch>, r: Store, one: Store)
    requires ps != [] && init == ps[..|ps| - 1]
    requires forall i | 0 <= i < |init| :: init[i].name !in r.backups && init[i].name !in r.sentinels
    requires ps[|ps| - 1].name !in one.backups && ps[|ps| - 1].name !in one.sentinels
    requires ps[|ps| - 1].name !in NamesOf(init)
    requires forall n | n !in NamesOf(init) :: (n in r.backups <==> n in one.backups)
                                            && (n in r.sentinels <==> n in one.sentinels)
    ensures forall i | 0 <= i < |ps| :: ps[i].name !in r.backups && ps[i].name !in r.sentinels
  {
    forall i | 0 <= i < |ps| ensures ps[i].name !in r.backups && ps[i].name !in r.sentinels {
      if i < |ps| - 1 {
        assert init[i] == ps[i];
      }
    }
  }

  // ------------------------------------------------- popping a store

  /** Closing a successful pop that kept the first `m` applied patches: the
      saved database reopens with exactly those names, the series is
      untouched, and the store stays consistent. */
  lemma {:induction false} PopCloses(st: Store, step: Step, o: Outcome, m: nat)
    requires Consistent(st) && step.store.series == st.series && step.error.None?
    requires StableLines(LinesOf(step.db.rows))
    requires m <= |Names(Read(st.applied))| && Names(step.db) == Names(Read(st.applied))[..m]
    requires o == Close(step)
    ensures o.error.None? && o.store.series == st.series
    ensures Names(Read(o.store.applied)) == Names(Read(st.applied))[..m]
    ensures Consistent(o.store)
  {
    SavedDbNames(step.store, step.db);
    PrefixOfPrefix(Names(Read(st.applied)), Names(Read(st.series)), m);
    StillConsistent(st, o.store);
  }

  lemma {:induction false} SplitAt<T>(s: seq<T>, k: nat)
    requires k <= |s|
    ensures s == s[..k] + s[k..]
  {
  }

  lemma {:induction false} PrefixOfPrefix<T>(a: seq<T>, b: seq<T>, m: nat)
    requires a <= b && m <= |a|
    ensures a[..m] <= b
  {
    assert forall j | 0 <= j < m :: a[..m][j] == a[j] == b[j];
  }

  /** The names of the first `k` patches are the first `k` names. */
  lemma {:induction false} NamesOfPrefix(ps: seq<Patch>, k: nat)
    requires k <= |ps|
    ensures NamesOf(ps[..k]) == NamesOf(ps)[..k]
  {
    var a := NamesOf(ps[..k]);
    var b := NamesOf(ps)[..k];
    assert forall j | 0 <= j < k :: a[j] == ps[..k][j].name == b[j];
  }

  /** The patches from position `keep` on all have their backup directories. */
  lemma {:induction false} TailBacked(st: Store, ps: seq<Patch>, keep: nat, rest: seq<Patch>)
    requires keep <= |ps| && rest == ps[keep..]
    requires forall j | keep <= j < |ps| :: NamesOf(ps)[j] in st.backups
    ensures forall j | 0 <= j < |rest| :: rest[j].name in st.backups
  {
    forall j | 0 <= j < |rest| ensures rest[j].name in st.backups {
      assert rest[j] == ps[keep + j];
      assert NamesOf(ps)[keep + j] == ps[keep + j].name;
    }
  }

  /** Popping the applied patches of a consistent store from position `keep`
      on, each with its backup directory: the step succeeds, keeps the
      first `keep` patches, and removes the directory and sentinel of every
      patch it pops. */
  lemma {:induction false} PopFrom(st: Store, keep: nat) returns (step: Step, rest: seq<Patch>)
    requires Consistent(st) && keep <= |Names(Read(st.applied))|
    requires forall j | keep <= j < |Names(Read(st.applied))| :: Names(Read(st.applied))[j] in st.backups
    ensures rest == Patches(Read(st.applied))[keep..]
    ensures step == UnapplyBack(st, Read(st.applied), rest)
    ensures step.error.None? && step.store.series == st.series
    ensures StableLines(LinesOf(step.db.rows))
    ensures Names(step.db) == Names(Read(st.applied))[..keep]
    ensures forall j | keep <= j < |Names(Read(st.applied))| ::
              Names(Read(st.applied))[j] !in step.store.backups && Names(Read(st.applied))[j] !in step.store.sentinels
  {
    ConsistentExact(st);
    step, rest := PopTail(st, Read(st.applied), keep);
  }

  /** The same for any exact database of stable lines. */
  lemma {:induction false} PopTail(st: Store, db: PatchSeries, keep: nat) returns (step: Step, rest: seq<Patch>)
    requires Exact(db) && StableLines(LinesOf(db.rows)) && keep <= |Names(db)|
    requires forall j | keep <= j < |Names(db)| :: Names(db)[j] in st.backups
    ensures rest == Patches(db)[keep..]
    ensures step == UnapplyBack(st, db, rest)
    ensures step.error.None? && step.store.series == st.series
    ensures StableLines(LinesOf(step.db.rows))
    ensures Names(step.db) == Names(db)[..keep]
    ensures forall j | keep <= j < |Names(db)| :: Names(db)[j] !in step.store.backups && Names(db)[j] !in step.store.sentinels
  {
    var ps := Patches(db);
    rest := ps[keep..];
    TailBacked(st, ps, keep, rest);
    SplitAt(ps, keep);
    UnapplyBackRemoves(st, db, ps[..keep], rest);
    step := UnapplyBack(st, db, rest);
    NamesOfPrefix(ps, keep);
    TailGone(ps, keep, rest, step.store.backups, step.store.sentinels);
  }

  lemma {:induction false} TailGone(ps: seq<Patch>, keep: nat, rest: seq<Patch>, dirs: map<string, Tree>, marks: set<string>)
    requires keep <= |ps| && rest == ps[keep..]
    requires forall j | 0 <= j < |rest| :: rest[j].name !in dirs && rest[j].name !in marks
    ensures forall j | keep <= j < |NamesOf(ps)| :: NamesOf(ps)[j] !in dirs && NamesOf(ps)[j] !in marks
  {
    forall j | keep <= j < |NamesOf(ps)| ensures NamesOf(ps)[j] !in dirs && NamesOf(ps)[j] !in marks {
      assert rest[j - keep] == ps[j];
    }
  }

  /** `unapply_patch(name)` for the applied patch at position `i` of a
      consistent store pops the patches after it. */
  lemma {:induction false} UnapplyPatchIs(st: Store, i: nat)
    requires Consistent(st) && st.applied.Some? && i < |Names(Read(st.applied))|
    ensures UnapplyPatch(st, Names(Read(st.applied))[i])
            == Close(UnapplyBack(st, Read(st.applied), Patches(Read(st.applied))[i + 1..]))
  {
    ConsistentExact(st);
    ExactPosition(Read(st.applied), i);
  }

  /** `unapply_top_patch()` pops the last patch of the database. */
  lemma {:induction false} UnapplyTopIs(st: Store)
    requires OpenDb(st.version, st.applied).Ok? && st.applied.Some? && Names(Read(st.applied)) != []
    ensures var ps := Patches(Read(st.applied));
            UnapplyTop(st) == Close(UnapplyOne(st, Read(st.applied), ps[|ps| - 1].name))
  {
    var db := Read(st.applied);
    assert TopName(db) == Some(Patches(db)[|Patches(db)| - 1].name);
  }

  /** Popping a list of one patch is popping that patch, when it succeeds. */
  lemma {:induction false} BackOfOne(st: Store, db: PatchSeries, p: Patch)
    ensures UnapplyBack(st, db, [p]).error.None? ==> UnapplyBack(st, db, [p]) == UnapplyOne(st, db, p.name)
  {
    assert [p][..0] == [];
  }

  /** In a consistent store, `unapply_patch(name)` for the applied patch at
      position `i` pops exactly the patches after it: the database keeps
      the first `i + 1` names, each popped patch loses its backup directory
      and its sentinel, the series is untouched and the store stays
      consistent. */
  lemma {:induction false} UnapplyPatchLeaves(st: Store, i: nat)
    requires Consistent(st) && st.applied.Some? && i < |Names(Read(st.applied))|
    requires forall j | i < j < |Names(Read(st.applied))| :: Names(Read(st.applied))[j] in st.backups
    ensures var d := Names(Read(st.applied));
            var o := UnapplyPatch(st, d[i]);
            o.error.None? && o.store.series == st.series && o.events == []
            && Names(Read(o.store.applied)) == d[..i + 1] && Consistent(o.store)
            && forall j | i < j < |d| :: d[j] !in o.store.backups && d[j] !in o.store.sentinels
  {
    UnapplyPatchIs(st, i);
    var step, rest := PopFrom(st, i + 1);
    var o := UnapplyPatch(st, Names(Read(st.applied))[i]);
    PopCloses(st, step, o, i + 1);
  }

  /** As written, `pop <name>` never pops: for the same store and patch
      where popping after the wrapped name succeeds, the bare name the
      command line passes raises InvalidPatchError and nothing changes. */
  lemma {:induction false} UnapplyPatchAsWrittenFails(st: Store, i: nat)
    requires Consistent(st) && st.applied.Some? && i < |Names(Read(st.applied))|
    requires forall j | i < j < |Names(Read(st.applied))| :: Names(Read(st.applied))[j] in st.backups
    ensures var n := Names(Read(st.applied))[i];
            UnapplyPatchAsWritten(st, BareName(n)) == Outcome(st, [], Some(InvalidPatch(n)))
            && UnapplyPatchAsWritten(st, PatchObject(n)).error.None?
  {
    var n := Names(Read(st.applied))[i];
    UnapplyPatchLeaves(st, i);
    assert UnapplyPatchAsWritten(st, PatchObject(n)) == UnapplyPatch(st, n);
    BareNameRefused(st, n);
  }

  /** A bare name is refused once the database opens and lists a patch. */
  lemma BareNameRefused(st: Store, t: string)
    requires OpenDb(st.version, st.applied).Ok? && st.applied.Some? && Names(Read(st.applied)) != []
    ensures UnapplyPatchAsWritten(st, BareName(t)) == Outcome(st, [], Some(InvalidPatch(t)))
  {
    assert Check(st, Read(st.applied)).None?;
  }

  /** In a consistent store whose applied patches all have their backup
      directories, `unapply_all()` pops every one: the database is left
      empty, each loses its directory and sentinel, the series is untouched
      and the store stays consistent. */
  lemma {:induction false} UnapplyAllEmpties(st: Store)
    requires Consistent(st) && st.applied.Some? && Names(Read(st.applied)) != []
    requires forall j | 0 <= j < |Names(Read(st.applied))| :: Names(Read(st.applied))[j] in st.backups
    ensures var d := Names(Read(st.applied));
            var o := UnapplyAll(st);
            o.error.None? && o.store.series == st.series && o.events == []
            && Names(Read(o.store.applied)) == [] && Consistent(o.store)
            && forall j | 0 <= j < |d| :: d[j] !in o.store.backups && d[j] !in o.store.sentinels
  {
    var step, rest := PopFrom(st, 0);
    assert rest == Patches(Read(st.applied));
    var o := UnapplyAll(st);
    PopCloses(st, step, o, 0);
  }

  /** In a consistent store whose top patch has its backup directory,
      `unapply_top_patch()` pops exactly that patch. */
  lemma {:induction false} UnapplyTopShrinks(st: Store)
    requires Consistent(st) && st.applied.Some? && Names(Read(st.applied)) != []
    requires Names(Read(st.applied))[|Names(Read(st.applied))| - 1] in st.backups
    ensures var d := Names(Read(st.applied));
            var o := UnapplyTop(st);
            o.error.None? && o.store.series == st.series && o.events == []
            && Names(Read(o.store.applied)) == d[..|d| - 1] && Consistent(o.store)
            && d[|d| - 1] !in o.store.backups && d[|d| - 1] !in o.store.sentinels
  {
    ConsistentExact(st);
    var step := TopStep(st);
    PopCloses(st, step, UnapplyTop(st), |Names(Read(st.applied))| - 1);
  }

  /** The step `unapply_top_patch()` closes, under the same conditions. */
  lemma {:induction false} TopStep(st: Store) returns (step: Step)
    requires OpenDb(st.version, st.applied).Ok? && st.applied.Some? && Names(Read(st.applied)) != []
    requires Exact(Read(st.applied)) && StableLines(LinesOf(Read(st.applied).rows))
    requires Names(Read(st.applied))[|Names(Read(st.applied))| - 1] in st.backups
    ensures var d := Names(Read(st.applied));
            UnapplyTop(st) == Close(step) && step.error.None? && step.store.series == st.series
            && StableLines(LinesOf(step.db.rows)) && Names(step.db) == d[..|d| - 1]
            && d[|d| - 1] !in step.store.backups && d[|d| - 1] !in step.store.sentinels
  {
    UnapplyTopIs(st);
    step := TopTail(st, Read(st.applied));
  }

  /** Popping the last patch of an exact database of stable lines whose
      last patch has its backup directory. */
  lemma {:induction false} TopTail(st: Store, db: PatchSeries) returns (step: Step)
    requires Exact(db) && StableLines(LinesOf(db.rows)) && Names(db) != []
    requires Names(db)[|Names(db)| - 1] in st.backups
    ensures var d := Names(db);
            var ps := Patches(db);
            step == UnapplyOne(st, db, ps[|ps| - 1].name) && step.error.None? && step.store.series == st.series
            && StableLines(LinesOf(step.db.rows)) && Names(step.db) == d[..|d| - 1]
            && d[|d| - 1] !in step.store.backups && d[|d| - 1] !in step.store.sentinels
  {
    var ps := Patches(db);
    var n := |ps|;
    assert Names(db)[n - 1] == ps[n - 1].name;
    step := PopTop(st, db);
    NamesOfDropLast(Patches(step.db), ps);
  }

  /** The names of all patches but the last are all names but the last. */
  lemma {:induction false} NamesOfDropLast(init: seq<Patch>, ps: seq<Patch>)
    requires ps != [] && init == ps[..|ps| - 1]
    ensures NamesOf(init) == NamesOf(ps)[..|ps| - 1]
  {
    NamesOfPrefix(ps, |ps| - 1);
  }

  /** The same in terms of the patches. */
  lemma {:induction false} PopTop(st: Store, db: PatchSeries) returns (one: Step)
    requires Exact(db) && StableLines(LinesOf(db.rows)) && Patches(db) != []
    requires Patches(db)[|Patches(db)| - 1].name in st.backups
    ensures var ps := Patches(db);
            one == UnapplyOne(st, db, ps[|ps| - 1].name) && one.error.None? && one.store.series == st.series
            && StableLines(LinesOf(one.db.rows)) && Patches(one.db) == ps[..|ps| - 1]
            && ps[|ps| - 1].name !in one.store.backups && ps[|ps| - 1].name !in one.store.sentinels
  {
    var ps := Patches(db);
    var n := |ps|;
    var last := [ps[n - 1]];
    InitLast(ps);
    var init;
    one, init := PopLast(st, db, ps[..n - 1], last);
    EmptyInit(ps[..n - 1], last, init);
  }

  lemma {:induction false} InitLast<T>(s: seq<T>)
    requires s != []
    ensures s == s[..|s| - 1] + [s[|s| - 1]]
  {
  }

  lemma {:induction false} EmptyInit<T>(pre: seq<T>, one: seq<T>, init: seq<T>)
    requires |one| == 1 && init == one[..|one| - 1]
    ensures pre + init == pre
  {
  }

  /** A top patch without a backup directory makes `unapply_top_patch()`
      raise NoSuchFile for the directory, changing nothing. */
  lemma {:induction false} UnapplyTopMissingDir(st: Store)
    requires OpenDb(st.version, st.applied).Ok? && st.applied.Some?
    requires Names(Read(st.applied)) != []
    requires Names(Read(st.applied))[|Names(Read(st.applied))| - 1] !in st.backups
    ensures var d := Names(Read(st.applied));
            UnapplyTop(st) == Outcome(st, [], Some(NoSuchFile(Join(st.pc, d[|d| - 1]))))
  {
  }

  // ------------------------------------------------ push, then pop

  /** The backup directory a first successful run leaves, less its
      `.timestamp`, is what the run touched, when the run did not touch a
      working file of that name. */
  lemma {:induction false} StampedTouched(before: Tree, after: Tree)
    requires !Changed(before, after, Timestamp)
    ensures Stamp(AfterRun(None, before, after)) - {Timestamp} == Touched(before, after)
  {
    var t := Touched(before, after);
    assert Timestamp !in t;
    if t != map[] {
      assert Stamp(AfterRun(None, before, after)) == t[Timestamp := ""];
      assert t[Timestamp := ""] - {Timestamp} == t;
    }
  }

  /** What `_apply_patch` leaves after a clean first run of a patch that
      has no backup directory and no sentinel. */
  lemma {:induction false} PushedOnce(st: Store, db: PatchSeries, p: Patch, force: bool, quiet: bool,
                                      tool: PatchProgram) returns (a: Step, ran: ToolRun)
    requires p.name !in st.sentinels && p.name !in st.backups && p.name in st.patchFiles
    requires tool(PushArgv(st, p, quiet), st.patchFiles[p.name], st.tree).code == 0
    ensures ran == tool(PushArgv(st, p, quiet), st.patchFiles[p.name], st.tree)
    ensures a == ApplyOne(st, db, p, force, quiet, tool) && a.error.None?
    ensures a.db == AddLine(db, MakeLine(Obj(p)))
    ensures a.store == st.(tree := ran.tree,
                           backups := st.backups[p.name := Stamp(AfterRun(None, st.tree, ran.tree))])
  {
    ran := tool(PushArgv(st, p, quiet), st.patchFiles[p.name], st.tree);
    var dir := AfterRun(None, st.tree, ran.tree);
    var st1 := WithDir(st.(tree := ran.tree), p.name, dir);
    assert RunPatch(st, p, quiet, tool) == Run(st1, false);
    assert st1.sentinels - {p.name} == st1.sentinels;
    assert DirOf(st1, p.name) == dir;
    var st3 := WithDir(st1, p.name, Some(Stamp(dir)));
    DirTwice(st.(tree := ran.tree), p.name, dir, Stamp(dir));
    a := ApplyOne(st, db, p, force, quiet, tool);
    assert a.store == st3;
  }

  /** Setting a directory twice keeps only the second. */
  lemma DirTwice(st: Store, name: string, first: Option<Tree>, second: Tree)
    ensures WithDir(WithDir(st, name, first), name, Some(second)) == st.(backups := st.backups[name := second])
  {
    var m := WithDir(WithDir(st, name, first), name, Some(second)).backups;
    assert m == st.backups[name := second] by {
      assert forall n :: n in m <==> n in st.backups[name := second];
      assert forall n | n in m :: m[n] == st.backups[name := second][n];
    }
  }

  /** Taking the last patch off an exact database it was appended to gives
      back the patches there were. */
  lemma {:induction false} AddThenRemove(db: PatchSeries, p: Patch)
    requires Exact(db) && !IsPatch(db, p.name)
    ensures var s := AddLine(db, MakeLine(Obj(p)));
            RemovePatch(s, p.name).Ok? && Patches(RemovePatch(s, p.name).value) == Patches(db)
  {
    var line := MakeLine(Obj(p));
    var s := AddLine(db, line);
    AddObj(db, p);
    AddLineExact(db, line);
    var k := |Patches(db)|;
    assert Patches(s)[k] == p;
    RemoveExact(s, k);
    assert Patches(s)[..k] == Patches(db);
    assert Patches(s)[k + 1..] == [];
  }

  /** Pushing a patch that applies cleanly and then popping it restores the
      store: the backup directories, the sentinels and every other file are
      as before, the database holds the same patches, and the working tree
      is the one before the push less the empty files the patch touched,
      which a rollback cannot tell from missing ones. */
  lemma {:induction false} PushThenPop(st: Store, db: PatchSeries, p: Patch, force: bool, quiet: bool,
                                       tool: PatchProgram)
    requires p.name !in st.sentinels && p.name !in st.backups && p.name in st.patchFiles
    requires Exact(db) && !IsPatch(db, p.name)
    requires var ran := tool(PushArgv(st, p, quiet), st.patchFiles[p.name], st.tree);
             ran.code == 0 && !Changed(st.tree, ran.tree, Timestamp)
    ensures var ran := tool(PushArgv(st, p, quiet), st.patchFiles[p.name], st.tree);
            var a := ApplyOne(st, db, p, force, quiet, tool);
            var u := UnapplyOne(a.store, a.db, p.name);
            u.error.None? && u.events == []
            && u.store == st.(tree := WithoutEmptyTouched(st.tree, ran.tree))
            && Patches(u.db) == Patches(db)
  {
    var a, ran := PushedOnce(st, db, p, force, quiet, tool);
    AddThenRemove(db, p);
    StampedTouched(st.tree, ran.tree);
    RollbackRestores(st.tree, ran.tree);
    var stamped := Stamp(AfterRun(None, st.tree, ran.tree));
    UnapplyStore(a.store, a.db, p.name);
    PutThenRemove(st.backups, p.name, stamped);
    assert st.sentinels - {p.name} == st.sentinels;
  }

  /** A successful pop of one patch: the tree rolled back from its
      directory, and its directory and sentinel gone. */
  lemma UnapplyStore(st: Store, db: PatchSeries, name: string)
    requires name in st.backups && IsPatch(db, name)
    ensures UnapplyOne(st, db, name).store
            == st.(tree := Rollback(st.tree, st.backups[name] - {Timestamp}, false),
                   backups := st.backups - {name}, sentinels := st.sentinels - {name})
  {
  }

  /** A key added and then removed again leaves a map without it as it was. */
  lemma PutThenRemove<V>(m: map<string, V>, k: string, v: V)
    requires k !in m
    ensures m[k := v] - {k} == m
  {
    assert forall n :: n in m[k := v] - {k} <==> n in m;
  }

  /** When none of the files the patch touched was empty, pushing and
      popping it gives back the store exactly. */
  lemma {:induction false} PushThenPopExactly(st: Store, db: PatchSeries, p: Patch, force: bool, quiet: bool,
                                              tool: PatchProgram)
    requires p.name !in st.sentinels && p.name !in st.backups && p.name in st.patchFiles
    requires Exact(db) && !IsPatch(db, p.name)
    requires var ran := tool(PushArgv(st, p, quiet), st.patchFiles[p.name], st.tree);
             ran.code == 0 && !Changed(st.tree, ran.tree, Timestamp)
             && forall f | f in st.tree && Changed(st.tree, ran.tree, f) :: st.tree[f] != ""
    ensures var a := ApplyOne(st, db, p, force, quiet, tool);
            var u := UnapplyOne(a.store, a.db, p.name);
            u.error.None? && u.store == st && Patches(u.db) == Patches(db)
  {
    var ran := tool(PushArgv(st, p, quiet), st.patchFiles[p.name], st.tree);
    PushThenPop(st, db, p, force, quiet, tool);
    RollbackRestores(st.tree, ran.tree);
    RollbackRestoresExactly(st.tree, ran.tree);
  }
}
