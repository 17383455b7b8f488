/** `Delete` of quilt/delete.py: a patch leaves the series; when it is the
    top applied patch it is popped first, and its patch file can be removed,
    optionally keeping a `~` copy. */
module Delete {

  import opened Wrappers
  import opened Errors
  import opened PyStr
  import opened Patching
  import opened SeriesLine
  import opened Series
  import opened SeriesLaws
  import opened SeriesDb
  import opened Queue
  import opened Pop
  import opened New

  /** `_delete_patch(name, remove, backup)`, with the series `s` and the
      database `db` the constructor opened. An empty series and a name the series does not
      know are refused before anything happens. Otherwise `deleting_patch`
      fires, the top applied patch is popped and the database saved, and
      the patch is dropped. */
  function DeleteIn(st: Store, s: PatchSeries, db: PatchSeries, name: string, remove: bool, backup: bool): (o: Outcome)
    ensures Patches(s) == [] ==> o == Outcome(st, [], Some(NoPatchesInSeries))
    ensures Patches(s) != [] && !IsPatch(s, name) ==>
              o == Outcome(st, [], Some(UnknownPatch(name)))
    ensures Patches(s) != [] && IsPatch(s, name) ==>
              o.events != [] && o.events[0] == DeletingPatch(name, TopName(db) == Some(name))
    ensures o.error.None? ==>
              o.events == [DeletingPatch(name, TopName(db) == Some(name)), DeletedPatch(name)]
              && (!remove ==> o.store.patchFiles == st.patchFiles)
              && (remove ==> name !in o.store.patchFiles)
              && (remove && !backup ==> o.store.patchFiles == st.patchFiles - {name})
    ensures TopName(db) != Some(name) ==>
              o.store.applied == st.applied && o.store.version == st.version && o.store.backups == st.backups
              && o.store.sentinels == st.sentinels && o.store.tree == st.tree
  {
    if Patches(s) == [] then Outcome(st, [], Some(NoPatchesInSeries))
    else if !IsPatch(s, name) then Outcome(st, [], Some(UnknownPatch(name)))
    else
      var applied := TopName(db) == Some(name);
      var ev := [DeletingPatch(name, applied)];
      if applied then PopAndDrop(st, db, s, name, remove, backup, ev)
      else DropPatch(st, s, name, remove, backup, ev)
  }

  /** The top patch is popped, `pop._unapply_patch(name)` followed by
      `db.save()`, and then dropped; a failing pop raises before the series
      is touched. */
  function PopAndDrop(st: Store, db: PatchSeries, s: PatchSeries, name: string, remove: bool, backup: bool,
                      ev: seq<Event>): (o: Outcome)
    ensures o.error.None? ==> o.events == ev + [DeletedPatch(name)]
    ensures o.error.Some? ==> o.events == ev
    ensures o.error.None? ==> (!remove ==> o.store.patchFiles == st.patchFiles) && (remove ==> name !in o.store.patchFiles)
                              && (remove && !backup ==> o.store.patchFiles == st.patchFiles - {name})
    ensures name !in st.backups ==> o == Outcome(st, ev, Some(NoSuchFile(Join(st.pc, name))))
  {
    var popped := Close(UnapplyOne(st, db, name));
    if popped.error.Some? then Outcome(popped.store, ev, popped.error)
    else DropPatch(popped.store, s, name, remove, backup, ev)
  }

  /** The rest of `_delete_patch` once the patch is off the queue: it
      leaves the series, which is saved; with `remove` the patch file is
      deleted, after being copied to `name~` with `backup`. Copying a
      missing patch file raises after the series is saved. */
  function DropPatch(st: Store, s: PatchSeries, name: string, remove: bool, backup: bool, ev: seq<Event>): (o: Outcome)
    ensures o.store.applied == st.applied && o.store.version == st.version && o.store.backups == st.backups
    ensures o.store.sentinels == st.sentinels && o.store.tree == st.tree
    ensures o.store.pc == st.pc && o.store.patchesDir == st.patchesDir && o.store.links == st.links
    ensures !IsPatch(s, name) ==> o == Outcome(st, ev, Some(InvalidPatch(name)))
    ensures IsPatch(s, name) ==>
              o.store.series == Some(Save(RemovePatch(s, name).value))
              && o.error == FileError(st, name, remove, backup)
              && o.events == (if o.error.None? then ev + [DeletedPatch(name)] else ev)
    ensures o.error.None? ==>
              (!remove ==> o.store.patchFiles == st.patchFiles)
              && (remove && !backup ==> o.store.patchFiles == st.patchFiles - {name})
              && (remove ==> o.store.patchFiles.Keys == st.patchFiles.Keys - {name} + (if backup then {name + "~"} else {}))
              && (remove && backup ==> name in st.patchFiles && o.store.patchFiles[name + "~"] == st.patchFiles[name])
              && forall n | n != name && n != name + "~" && n in o.store.patchFiles ::
                   o.store.patchFiles[n] == st.patchFiles[n]
  {
    match RemovePatch(s, name)
    case Err(e) => Outcome(st, ev, Some(e))
    case Ok(s1) =>
      var st1 := WithSeries(st, s1);
      if !remove then Outcome(st1, ev + [DeletedPatch(name)], None)
      else if backup && name !in st1.patchFiles then
        Outcome(st1, ev, Some(NoSuchFile(Join(st.patchesDir, name))))
      else
        var files := if backup then st1.patchFiles[name + "~" := st1.patchFiles[name]] else st1.patchFiles;
        Outcome(st1.(patchFiles := files - {name}), ev + [DeletedPatch(name)], None)
  }

  /** What the file part of a deletion raises: only a backup copy of a
      missing patch file fails. */
  function FileError(st: Store, name: string, remove: bool, backup: bool): Option<QuiltError> {
    if remove && backup && name !in st.patchFiles then Some(NoSuchFile(Join(st.patchesDir, name))) else None
  }

  /** `delete_patch(name, remove, backup)`: the named patch, or the top
      applied patch when no name (or an empty one) is given. */
  function DeletePatch(st: Store, name: Option<string>, remove: bool, backup: bool): (o: Outcome)
    ensures OpenDb(st.version, st.applied).Ok? && (name.None? || name.value == []) && Names(Read(st.applied)) == [] ==>
              o == Outcome(st, [], Some(NoAppliedPatch))
  {
    match OpenDb(st.version, st.applied)
    case Err(e) => Outcome(st, [], Some(e))
    case Ok(db) =>
      if name.Some? && name.value != [] then DeleteIn(st, Read(st.series), db, name.value, remove, backup)
      else
        match TopName(db)
        case None => Outcome(st, [], Some(NoAppliedPatch))
        case Some(top) => DeleteIn(st, Read(st.series), db, top, remove, backup)
  }

  /** `delete_next(remove, backup)` as written: the patch after the top is
      looked up in the database, where nothing follows the top. */
  function DeleteNextAsWritten(st: Store, remove: bool, backup: bool): (o: Outcome)
    ensures OpenDb(st.version, st.applied).Ok? && Names(Read(st.applied)) == [] ==>
              o == Outcome(st, [], Some(NoAppliedPatch))
  {
    match OpenDb(st.version, st.applied)
    case Err(e) => Outcome(st, [], Some(e))
    case Ok(db) =>
      match TopName(db)
      case None => Outcome(st, [], Some(NoAppliedPatch))
      case Some(top) =>
        match PatchAfter(db, top)
        case Err(e) => Outcome(st, [], Some(e))
        case Ok(None) => Outcome(st, [], Some(Failed("No next patch")))
        case Ok(Some(p)) => DeleteIn(st, Read(st.series), db, p.name, remove, backup)
  }

  /** `delete_next(remove, backup)` as its documentation describes it: the
      patch after the top applied patch in the series. */
  function DeleteNext(st: Store, remove: bool, backup: bool): (o: Outcome)
    ensures OpenDb(st.version, st.applied).Ok? && Names(Read(st.applied)) == [] ==>
              o == Outcome(st, [], Some(NoAppliedPatch))
  {
    match OpenDb(st.version, st.applied)
    case Err(e) => Outcome(st, [], Some(e))
    case Ok(db) =>
      match TopName(db)
      case None => Outcome(st, [], Some(NoAppliedPatch))
      case Some(top) =>
        match PatchAfter(Read(st.series), top)
        case Err(e) => Outcome(st, [], Some(e))
        case Ok(None) => Outcome(st, [], Some(Failed("No next patch")))
        case Ok(Some(p)) => DeleteIn(st, Read(st.series), db, p.name, remove, backup)
  }

  // ------------------------------------------------------------ the laws

  /** Dropping the series patch at position `k`, at or after every applied
      patch, from a consistent store and saving the series leaves the other
      names in order and the store consistent. */
  lemma {:induction false} SeriesDrop(st: Store, k: nat)
    requires Consistent(st) && |Names(Read(st.applied))| <= k < |Names(Read(st.series))|
    ensures RemovePatch(Read(st.series), Names(Read(st.series))[k]).Ok?
    ensures var s := Read(st.series);
            var r := WithSeries(st, RemovePatch(s, Names(s)[k]).value);
            r == st.(series := r.series)
            && Names(Read(r.series)) == Names(s)[..k] + Names(s)[k + 1..]
            && Consistent(r)
  {
    var s := Read(st.series);
    var ns := Names(s);
    ConsistentExact(st);
    ReadStable(st.series);
    DropSaved(s, k);
    AppliedPrefix(st);
    PrefixDrop(Names(Read(st.applied)), ns, k);
  }

  /** Removing the patch at position `k` from an exact series of stable
      lines with distinct plain names and saving it gives back the other
      names, still distinct and plain. */
  lemma {:induction false} DropSaved(s: PatchSeries, k: nat)
    requires Exact(s) && StableLines(LinesOf(s.rows)) && k < |Names(s)|
    requires Distinct(Names(s)) && forall j | 0 <= j < |Names(s)| :: PlainName(Names(s)[j])
    ensures RemovePatch(s, Names(s)[k]).Ok?
    ensures var ns := Names(s);
            var rs := Names(Read(Some(Save(RemovePatch(s, ns[k]).value))));
            rs == ns[..k] + ns[k + 1..] && Distinct(rs)
            && forall j | 0 <= j < |rs| :: PlainName(rs[j])
  {
    var ns := Names(s);
    var name := ns[k];
    RemoveExact(s, k);
    var s1 := RemovePatch(s, name).value;
    RemoveStable(s, name);
    SavedNames(s1);
    NamesOfDrop(Patches(s), k);
    DistinctDrop(ns, k);
    PlainDrop(ns, k, ns[..k] + ns[k + 1..]);
  }

  lemma {:induction false} PlainDrop(ns: seq<string>, k: nat, rs: seq<string>)
    requires k < |ns| && rs == ns[..k] + ns[k + 1..]
    requires forall j | 0 <= j < |ns| :: PlainName(ns[j])
    ensures forall j | 0 <= j < |rs| :: PlainName(rs[j])
  {
    forall j | 0 <= j < |rs| ensures PlainName(rs[j]) {
      if j < k { assert rs[j] == ns[j]; } else { assert rs[j] == ns[j + 1]; }
    }
  }

  lemma {:induction false} PrefixDrop<T>(d: seq<T>, ns: seq<T>, k: nat)
    requires d <= ns && |d| <= k < |ns|
    ensures d <= ns[..k] + ns[k + 1..]
  {
    assert forall j | 0 <= j < |d| :: (ns[..k] + ns[k + 1..])[j] == ns[j];
  }

  lemma {:induction false} NamesOfDrop(ps: seq<Patch>, k: nat)
    requires k < |ps|
    ensures NamesOf(ps[..k] + ps[k + 1..]) == NamesOf(ps)[..k] + NamesOf(ps)[k + 1..]
  {
    var a := NamesOf(ps[..k] + ps[k + 1..]);
    var b := NamesOf(ps)[..k] + NamesOf(ps)[k + 1..];
    forall j | 0 <= j < |a| ensures a[j] == b[j] {
      if j < k { assert (ps[..k] + ps[k + 1..])[j] == ps[j]; }
      else { assert (ps[..k] + ps[k + 1..])[j] == ps[j + 1]; }
    }
  }

  lemma {:induction false} DistinctDrop(ns: seq<string>, k: nat)
    requires k < |ns| && Distinct(ns)
    ensures Distinct(ns[..k] + ns[k + 1..])
  {
    var r := ns[..k] + ns[k + 1..];
    forall i, j | 0 <= i < j < |r| ensures r[i] != r[j] {
      var i' := if i < k then i else i + 1;
      var j' := if j < k then j else j + 1;
      assert r[i] == ns[i'] && r[j] == ns[j'];
    }
  }

  /** In a consistent store, deleting the unapplied series patch at
      position `k` removes exactly that name from the series, leaves the
      database, backups and working tree alone, and keeps the store
      consistent; only a backup copy of a missing patch file raises. */
  lemma {:induction false} DeleteUnapplied(st: Store, k: nat, remove: bool, backup: bool) returns (o: Outcome)
    requires Consistent(st) && |Names(Read(st.applied))| <= k < |Names(Read(st.series))|
    ensures o == DeletePatch(st, Some(Names(Read(st.series))[k]), remove, backup)
    ensures var s := Names(Read(st.series));
            o.error == FileError(st, s[k], remove, backup)
            && Names(Read(o.store.series)) == s[..k] + s[k + 1..]
            && o.store.applied == st.applied && o.store.backups == st.backups
            && o.store.sentinels == st.sentinels && o.store.tree == st.tree
            && Consistent(o.store)
    ensures o.error.None? && remove && !backup ==>
              o.store.patchFiles == st.patchFiles - {Names(Read(st.series))[k]}
  {
    var s := Read(st.series);
    var name := Names(s)[k];
    Unapplied(st, k);
    NamedDeleteIs(st, name, remove, backup);
    SeriesDrop(st, k);
    o := DropPatch(st, s, name, remove, backup, [DeletingPatch(name, false)]);
    SameConsistent(WithSeries(st, RemovePatch(s, name).value), o.store);
  }

  /** A series patch at or after the applied ones is known, not the top,
      and has a non-empty name. */
  lemma {:induction false} Unapplied(st: Store, k: nat)
    requires Consistent(st) && |Names(Read(st.applied))| <= k < |Names(Read(st.series))|
    ensures var s := Read(st.series);
            var name := Names(s)[k];
            Patches(s) != [] && IsPatch(s, name) && name != [] && TopName(Read(st.applied)) != Some(name)
  {
    var s := Read(st.series);
    var db := Read(st.applied);
    var name := Names(s)[k];
    ConsistentExact(st);
    KnownIffListed(s, name);
    AppliedPrefix(st);
    assert PlainName(name);
    if Names(db) != [] {
      ExactDistinct(s);
      assert Names(db)[|Names(db)| - 1] == Names(s)[|Names(db)| - 1];
    }
  }

  /** Deleting a named patch that is not the top only drops it. */
  lemma {:induction false} NamedDeleteIs(st: Store, name: string, remove: bool, backup: bool)
    requires OpenDb(st.version, st.applied).Ok? && name != []
    requires Patches(Read(st.series)) != [] && IsPatch(Read(st.series), name)
    requires TopName(Read(st.applied)) != Some(name)
    ensures DeletePatch(st, Some(name), remove, backup)
              == DropPatch(st, Read(st.series), name, remove, backup, [DeletingPatch(name, false)])
  {
  }

  /** In a consistent store whose top patch has its backup directory,
      deleting the top patch pops it and drops it from the series: the
      database keeps the others, the store stays consistent, and the
      patch's directory and sentinel are gone. */
  lemma {:induction false} DeleteTop(st: Store, remove: bool, backup: bool) returns (o: Outcome)
    requires Consistent(st) && st.applied.Some? && Names(Read(st.applied)) != []
    requires Names(Read(st.applied))[|Names(Read(st.applied))| - 1] in st.backups
    ensures o == DeletePatch(st, None, remove, backup)
    ensures var s := Names(Read(st.series));
            var d := Names(Read(st.applied));
            var m := |d| - 1;
            o.error == FileError(st, d[m], remove, backup)
            && o.events[0] == DeletingPatch(d[m], true)
            && Names(Read(o.store.applied)) == d[..m]
            && Names(Read(o.store.series)) == s[..m] + s[m + 1..]
            && d[m] !in o.store.backups && d[m] !in o.store.sentinels
            && Consistent(o.store)
  {
    var u := TopPopped(st);
    TopDeleteIs(st, u, remove, backup);
    var d := Names(Read(st.applied));
    var m := |d| - 1;
    AppliedPrefix(st);
    assert Names(Read(st.series))[m] == d[m];
    DropNext(u.store, m, remove, backup, [DeletingPatch(d[m], true)]);
    o := DropPatch(u.store, Read(st.series), d[m], remove, backup, [DeletingPatch(d[m], true)]);
  }

  /** Dropping the series patch at position `m`, just after the applied
      ones, from a consistent store: only a backup copy of a missing patch
      file raises, the other names stay in order, the database stays, and
      the store stays consistent. */
  lemma {:induction false} DropNext(t: Store, m: nat, remove: bool, backup: bool, ev: seq<Event>)
    requires Consistent(t) && |Names(Read(t.applied))| == m < |Names(Read(t.series))|
    ensures var s := Names(Read(t.series));
            var o := DropPatch(t, Read(t.series), s[m], remove, backup, ev);
            o.error == FileError(t, s[m], remove, backup)
            && o.events == (if o.error.None? then ev + [DeletedPatch(s[m])] else ev)
            && Names(Read(o.store.series)) == s[..m] + s[m + 1..]
            && Consistent(o.store)
  {
    var s := Read(t.series);
    var name := Names(s)[m];
    SeriesDrop(t, m);
    var o := DropPatch(t, s, name, remove, backup, ev);
    SameConsistent(WithSeries(t, RemovePatch(s, name).value), o.store);
  }

  /** Deleting the top patch is dropping it from the store its pop leaves. */
  lemma {:induction false} TopDeleteIs(st: Store, u: Outcome, remove: bool, backup: bool)
    requires OpenDb(st.version, st.applied).Ok? && Names(Read(st.applied)) != []
    requires var db := Read(st.applied);
             var top := Names(db)[|Names(db)| - 1];
             u == Close(UnapplyOne(st, db, top)) && u.error.None?
             && Patches(Read(st.series)) != [] && IsPatch(Read(st.series), top)
    ensures var d := Names(Read(st.applied));
            var top := d[|d| - 1];
            DeletePatch(st, None, remove, backup)
              == DropPatch(u.store, Read(st.series), top, remove, backup, [DeletingPatch(top, true)])
  {
  }

  /** Consistency depends only on the series, the database and its version. */
  lemma {:induction false} SameConsistent(a: Store, b: Store)
    requires a.series == b.series && a.applied == b.applied && a.version == b.version
    ensures Consistent(a) == Consistent(b)
  {
  }

  /** The pop inside deleting the top patch is `unapply_top_patch()`. */
  lemma {:induction false} TopPopped(st: Store) returns (u: Outcome)
    requires Consistent(st) && st.applied.Some? && Names(Read(st.applied)) != []
    requires Names(Read(st.applied))[|Names(Read(st.applied))| - 1] in st.backups
    ensures var db := Read(st.applied);
            var d := Names(db);
            var m := |d| - 1;
            var s := Read(st.series);
            u == Close(UnapplyOne(st, db, d[m])) && u.error.None?
            && u.store.series == st.series && u.store.patchFiles == st.patchFiles
            && u.store.pc == st.pc && u.store.patchesDir == st.patchesDir
            && Names(Read(u.store.applied)) == d[..m] && Consistent(u.store)
            && d[m] !in u.store.backups && d[m] !in u.store.sentinels
            && Patches(s) != [] && IsPatch(s, d[m]) && TopName(db) == Some(d[m])
  {
    var db := Read(st.applied);
    var d := Names(db);
    var m := |d| - 1;
    UnapplyTopIs(st);
    UnapplyTopShrinks(st);
    u := UnapplyTop(st);
    ConsistentExact(st);
    AppliedPrefix(st);
    assert Names(Read(st.series))[m] == d[m];
    KnownIffListed(Read(st.series), d[m]);
  }

  /** A top patch without its backup directory is announced, then the pop
      raises NoSuchFile for the directory and nothing else changes. */
  lemma {:induction false} DeleteTopMissingDir(st: Store, remove: bool, backup: bool)
    requires Consistent(st) && st.applied.Some? && Names(Read(st.applied)) != []
    requires Names(Read(st.applied))[|Names(Read(st.applied))| - 1] !in st.backups
    ensures var d := Names(Read(st.applied));
            var top := d[|d| - 1];
            DeletePatch(st, None, remove, backup)
              == Outcome(st, [DeletingPatch(top, true)], Some(NoSuchFile(Join(st.pc, top))))
  {
    var d := Names(Read(st.applied));
    var m := |d| - 1;
    ConsistentExact(st);
    AppliedPrefix(st);
    assert Names(Read(st.series))[m] == d[m];
    KnownIffListed(Read(st.series), d[m]);
  }

  /** As written, `delete_next` never deletes anything in a consistent
      store with an applied patch: the database has nothing after its top. */
  lemma {:induction false} DeleteNextAsWrittenFails(st: Store, remove: bool, backup: bool)
    requires Consistent(st) && Names(Read(st.applied)) != []
    ensures DeleteNextAsWritten(st, remove, backup) == Outcome(st, [], Some(Failed("No next patch")))
  {
    var db := Read(st.applied);
    ConsistentExact(st);
    Neighbours(db, |Patches(db)| - 1);
  }

  /** The corrected `delete_next` deletes the first unapplied patch, and
      fails with "No next patch" exactly when every patch is applied. */
  lemma {:induction false} DeleteNextDeletes(st: Store, remove: bool, backup: bool)
    requires Consistent(st) && Names(Read(st.applied)) != []
    ensures var s := Names(Read(st.series));
            var k := |Names(Read(st.applied))|;
            k <= |s|
            && (k < |s| ==> DeleteNext(st, remove, backup) == DeletePatch(st, Some(s[k]), remove, backup))
            && (k == |s| ==> DeleteNext(st, remove, backup) == Outcome(st, [], Some(Failed("No next patch"))))
  {
    var s := Read(st.series);
    var db := Read(st.applied);
    var k := |Patches(db)|;
    ConsistentExact(st);
    AppliedPrefix(st);
    assert Names(db)[k - 1] == Names(s)[k - 1];
    Neighbours(s, k - 1);
    if k < |Patches(s)| {
      assert Names(s)[k] == Patches(s)[k].name;
      assert PlainName(Names(s)[k]);
    }
  }

  /** An applied patch below the top is dropped from the series without
      being popped, so the database lists a patch the series no longer
      has: the store is left inconsistent. */
  lemma {:induction false} DeleteBuriedBreaks(st: Store, i: nat) returns (o: Outcome)
    requires Consistent(st) && i + 1 < |Names(Read(st.applied))|
    ensures o == DeletePatch(st, Some(Names(Read(st.applied))[i]), false, false)
    ensures o.error.None? && o.store.applied == st.applied && !Consistent(o.store)
  {
    var s := Read(st.series);
    var d := Names(Read(st.applied));
    var name := d[i];
    Buried(st, i);
    NamedDeleteIs(st, name, false, false);
    ReadStable(st.series);
    ConsistentExact(st);
    DropSaved(s, i);
    o := DropPatch(st, s, name, false, false, [DeletingPatch(name, false)]);
    var rs := Names(s)[..i] + Names(s)[i + 1..];
    assert Names(Read(o.store.series)) == rs;
    assert d[i] != rs[i];
  }

  /** An applied patch below the top is known, not the top, has a
      non-empty name, and sits at its own position in the series. */
  lemma {:induction false} Buried(st: Store, i: nat)
    requires Consistent(st) && i + 1 < |Names(Read(st.applied))|
    ensures var s := Read(st.series);
            var d := Names(Read(st.applied));
            Patches(s) != [] && IsPatch(s, d[i]) && d[i] != [] && TopName(Read(st.applied)) != Some(d[i])
            && i + 1 < |Names(s)| && Names(s)[i] == d[i] && d[i] != Names(s)[i + 1]
  {
    var s := Read(st.series);
    var db := Read(st.applied);
    var d := Names(db);
    ConsistentExact(st);
    AppliedPrefix(st);
    assert Names(s)[i] == d[i];
    KnownIffListed(s, d[i]);
    ExactDistinct(s);
    assert PlainName(d[i]);
    assert Names(s)[|d| - 1] == d[|d| - 1];
  }

  /** Creating a fresh patch and then deleting it, file and all, gives
      back the series and the patch files; the database is never touched. */
  lemma {:induction false} NewThenDelete(st: Store, name: string) returns (c: Outcome, o: Outcome)
    requires Consistent(st) && PlainName(name) && name !in Names(Read(st.series))
    requires name !in st.patchFiles
    ensures c == Create(st, name) && o == DeletePatch(c.store, Some(name), true, false)
    ensures o.error.None? && o.store.applied == st.applied
            && Names(Read(o.store.series)) == Names(Read(st.series))
            && o.store.patchFiles == st.patchFiles
  {
    c := Created(st, name);
    o := DeleteCreated(st, c.store, name);
  }

  /** Deleting, file and all, the patch a store `t` has just gained after
      the applied patches of `st`. */
  lemma {:induction false} DeleteCreated(st: Store, t: Store, name: string) returns (o: Outcome)
    requires Consistent(t) && t.applied == st.applied && name !in st.patchFiles
    requires t.patchFiles == st.patchFiles[name := ""]
    requires var s := Names(Read(st.series));
             var k := |Names(Read(st.applied))|;
             k <= |s| && Names(Read(t.series)) == s[..k] + [name] + s[k..]
    ensures o == DeletePatch(t, Some(name), true, false)
    ensures o.error.None? && o.store.applied == st.applied
            && Names(Read(o.store.series)) == Names(Read(st.series))
            && o.store.patchFiles == st.patchFiles
  {
    var s := Names(Read(st.series));
    var k := |Names(Read(st.applied))|;
    SpliceAt(s, k, name, Names(Read(t.series)));
    o := DeleteAt(t, k, name, s, st.patchFiles);
  }

  lemma {:induction false} SpliceAt<T>(s: seq<T>, k: nat, x: T, s1: seq<T>)
    requires k <= |s| && s1 == s[..k] + [x] + s[k..]
    ensures k < |s1| && s1[k] == x && s1[..k] + s1[k + 1..] == s
  {
    SpliceOut(s[..k], x, s[k..], s1);
    SplitAt(s, k);
  }

  /** Deleting, file and all, the patch at position `k` right after the
      applied ones, whose file was just created empty. */
  lemma {:induction false} DeleteAt(t: Store, k: nat, name: string, s: seq<string>, files: map<string, string>)
    returns (o: Outcome)
    requires Consistent(t) && |Names(Read(t.applied))| == k
    requires k < |Names(Read(t.series))| && Names(Read(t.series))[k] == name
    requires Names(Read(t.series))[..k] + Names(Read(t.series))[k + 1..] == s
    requires name !in files && t.patchFiles == files[name := ""]
    ensures o == DeletePatch(t, Some(name), true, false)
    ensures o.error.None? && o.store.applied == t.applied
            && Names(Read(o.store.series)) == s && o.store.patchFiles == files
  {
    o := DeleteUnapplied(t, k, true, false);
    UpdateThenRemove(files, name, "");
  }

  lemma {:induction false} UpdateThenRemove<K, V>(m: map<K, V>, k: K, v: V)
    requires k !in m
    ensures m[k := v] - {k} == m
  {
  }

  /** What creating a fresh patch leaves, as plain facts. */
  lemma {:induction false} Created(st: Store, name: string) returns (c: Outcome)
    requires Consistent(st) && PlainName(name) && name !in Names(Read(st.series))
    ensures c == Create(st, name) && c.error.None? && c.store.applied == st.applied
    ensures c.store.patchFiles == st.patchFiles[name := ""] && Consistent(c.store)
    ensures var s := Names(Read(st.series));
            var k := |Names(Read(st.applied))|;
            k <= |s| && Names(Read(c.store.series)) == s[..k] + [name] + s[k..]
  {
    CreatePlaces(st, name);
    c := Create(st, name);
  }

  lemma {:induction false} SpliceOut<T>(a: seq<T>, x: T, b: seq<T>, s: seq<T>)
    requires s == a + [x] + b
    ensures |a| < |s| && s[|a|] == x && s[..|a|] + s[|a| + 1..] == a + b
  {
    assert s[..|a|] == a;
    assert s[|a| + 1..] == b;
  }

}
