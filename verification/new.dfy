/** `New.create` of quilt/new.py: a new, empty patch goes into the series
    right after the top applied patch. */
module New {

  import opened Wrappers
  import opened Errors
  import opened PyStr
  import opened Patching
  import opened SeriesLine
  import opened Series
  import opened SeriesLaws
  import opened SeriesDb
  import opened Queue
  import opened Insertion

  /** `New.create(patchname)`, after the constructor has opened the
      database and the series. A name already in the series is refused
      before anything is written. Otherwise the patch file is created empty
      (an existing one is truncated), the patch's directory under `.pc` is
      deleted when it exists and created empty when it does not, and the
      patch is added after the top applied patch and the series saved. The
      database is never written. */
  function Create(st: Store, name: string): (o: Outcome)
    ensures o.store.applied == st.applied && o.store.version == st.version
    ensures o.store.sentinels == st.sentinels && o.store.tree == st.tree && o.store.links == st.links
    ensures OpenDb(st.version, st.applied).Ok? && IsPatch(Read(st.series), name) ==>
              o == Outcome(st, [], Some(PatchAlreadyExists(name)))
    ensures o.error.None? ==>
              o.events == [PatchCreated(name)] && o.store == Prepared(st, name).(series := o.store.series)
  {
    match OpenDb(st.version, st.applied)
    case Err(e) => Outcome(st, [], Some(e))
    case Ok(db) =>
      var s := Read(st.series);
      if IsPatch(s, name) then Outcome(st, [], Some(PatchAlreadyExists(name)))
      else
        var st2 := Prepared(st, name);
        match AddAfterTop(st2, s, db, [NewPatch(name)])
        case Err(e) => Outcome(st2, [], Some(e))
        case Ok(st3) => Outcome(st3, [PatchCreated(name)], None)
  }

  /** The empty patch file written, and the patch's directory under `.pc`
      deleted when it exists and created empty when it does not. */
  function Prepared(st: Store, name: string): (r: Store)
    ensures r == st.(patchFiles := r.patchFiles, backups := r.backups)
    ensures r.patchFiles == st.patchFiles[name := ""]
    ensures name in st.backups ==> name !in r.backups
    ensures name !in st.backups ==> name in r.backups && r.backups[name] == map[]
    ensures forall n | n != name :: (n in r.backups <==> n in st.backups)
                                    && (n in r.backups ==> r.backups[n] == st.backups[n])
  {
    var st1 := st.(patchFiles := st.patchFiles[name := ""]);
    WithDir(st1, name, if name in st.backups then None else Some(map[]))
  }

  // ------------------------------------------------------------ the laws

  /** In a consistent store a fresh plain name is created: the series lists
      the applied patches, then the new one, then the rest; the patch is the
      next one a push applies; the store stays consistent. */
  lemma {:induction false} CreatePlaces(st: Store, name: string)
    requires Consistent(st) && PlainName(name) && name !in Names(Read(st.series))
    ensures var s := Names(Read(st.series));
            var k := |Names(Read(st.applied))|;
            var o := Create(st, name);
            k <= |s| && o.error.None?
            && Names(Read(o.store.series)) == s[..k] + [name] + s[k..]
            && Consistent(o.store)
  {
    PreparedPlaces(st, name);
    CreateAdds(st, name);
  }

  /** The same, for the series added to once the patch file and directory
      are prepared. */
  lemma {:induction false} PreparedPlaces(st: Store, name: string)
    requires Consistent(st) && PlainName(name) && name !in Names(Read(st.series))
    ensures var s := Names(Read(st.series));
            var k := |Names(Read(st.applied))|;
            var r := AddAfterTop(Prepared(st, name), Read(st.series), Read(st.applied), [NewPatch(name)]);
            OpenDb(st.version, st.applied).Ok? && !IsPatch(Read(st.series), name)
            && k <= |s| && r.Ok?
            && Names(Read(r.value.series)) == s[..k] + [name] + s[k..]
            && Consistent(r.value)
  {
    ConsistentExact(st);
    KnownIffListed(Read(st.series), name);
    var st2 := Prepared(st, name);
    FilesConsistent(st, st2);
    AddOneAfterTop(st2, NewPatch(name));
  }

  /** A name the series does not know is added after the top. */
  lemma CreateAdds(st: Store, name: string)
    requires OpenDb(st.version, st.applied).Ok? && !IsPatch(Read(st.series), name)
    ensures var r := AddAfterTop(Prepared(st, name), Read(st.series), Read(st.applied), [NewPatch(name)]);
            r.Ok? ==> Create(st, name).store == r.value && Create(st, name).error.None?
  {
  }
}
