/** `Import` of quilt/patchimport.py: patch files are copied into the
    patches directory and their names added to the series right after the
    top applied patch. The files being imported live outside the store and
    are given as a map from path to content. `patchFiles` is keyed by the
    path joined onto the patches directory, so a file imported under a
    sub-directory has the key `dir/name`. */
module PatchImport {

  import opened Wrappers
  import opened Errors
  import opened PyStr
  import opened Patching
  import opened SeriesLine
  import opened Series
  import opened SeriesLaws
  import opened SeriesDb
  import opened Queue
  import opened Insertion

  type Sources = map<string, string>

  /** `Patch(name, reverse=reverse, strip=strip)` as `_import_patches`
      builds it: the strip level is kept as `str()` gives it, "None" when
      none is given. */
  function Imported(name: string, strip: Option<string>, reverse: bool): (p: Patch)
    ensures p.name == name && p.reverse == reverse
  {
    Patch(name, strip.GetOr("None"), reverse)
  }

  function ImportedAll(names: seq<string>, strip: Option<string>, reverse: bool): (ps: seq<Patch>)
    ensures |ps| == |names| && NamesOf(ps) == names
    ensures forall i | 0 <= i < |names| :: ps[i] == Imported(names[i], strip, reverse)
  {
    seq(|names|, i requires 0 <= i < |names| => Imported(names[i], strip, reverse))
  }

  /** `_import_patches(patches, reverse, strip)`, after the constructor has
      opened the database and the series. The database is never written. */
  function ImportNames(st: Store, names: seq<string>, strip: Option<string>, reverse: bool): (o: Outcome)
    ensures o.events == []
    ensures o.store == st.(series := o.store.series)
  {
    match OpenDb(st.version, st.applied)
    case Err(e) => Outcome(st, [], Some(e))
    case Ok(db) =>
      match AddAfterTop(st, Read(st.series), db, ImportedAll(names, strip, reverse))
      case Err(e) => Outcome(st, [], Some(e))
      case Ok(st1) => Outcome(st1, [], None)
  }

  /** The key of a copy under the patches directory, and the name the
      series registers, for `import_patch(patch_name, new_name)`. */
  function Destination(path: string, newName: string): (string, string) {
    if newName != [] then (Join(Dirname(newName), Basename(newName)), Basename(newName))
    else (Basename(path), Basename(path))
  }

  /** `import_patch(patch_name, new_name)`: the file is copied to
      `new_name`'s directory under the patches directory, or to the
      patches directory itself, under its base name, and that base name is
      imported. The constructor opens the database first, so a refused
      version raises before anything is copied; copying a file that does
      not exist raises before anything changes. */
  function ImportPatch(st: Store, sources: Sources, path: string, newName: string): (o: Outcome)
    ensures o.events == []
    ensures o.store.applied == st.applied && o.store.version == st.version
    ensures o.store.backups == st.backups && o.store.sentinels == st.sentinels && o.store.tree == st.tree
    ensures OpenDb(st.version, st.applied).Err? ==>
              o == Outcome(st, [], Some(OpenDb(st.version, st.applied).error))
    ensures OpenDb(st.version, st.applied).Ok? && path !in sources ==>
              o == Outcome(st, [], Some(NoSuchFile(path)))
    ensures OpenDb(st.version, st.applied).Ok? && path in sources ==>
              o.store.patchFiles == st.patchFiles[Destination(path, newName).0 := sources[path]]
  {
    match OpenDb(st.version, st.applied)
    case Err(e) => Outcome(st, [], Some(e))
    case Ok(_) =>
      if path !in sources then Outcome(st, [], Some(NoSuchFile(path)))
      else
        var dest := Destination(path, newName);
        var st1 := st.(patchFiles := st.patchFiles[dest.0 := sources[path]]);
        ImportNames(st1, [dest.1], None, false)
  }

  /** `import_patches(patches)`: after the constructor has opened the
      database, each file is copied into the patches directory under its
      base name, in order; a missing file raises and leaves the copies made
      before it. Then all the base names are imported. */
  function ImportPatches(st: Store, sources: Sources, paths: seq<string>): (o: Outcome)
    ensures o.events == []
    ensures o.store.applied == st.applied && o.store.version == st.version
    ensures o.store.backups == st.backups && o.store.sentinels == st.sentinels && o.store.tree == st.tree
    ensures OpenDb(st.version, st.applied).Err? ==>
              o == Outcome(st, [], Some(OpenDb(st.version, st.applied).error))
  {
    match OpenDb(st.version, st.applied)
    case Err(e) => Outcome(st, [], Some(e))
    case Ok(_) =>
      match CopyAll(st.patchFiles, sources, paths)
      case Err(e) => Outcome(st.(patchFiles := e.0), [], Some(e.1))
      case Ok(files) => ImportNames(st.(patchFiles := files), Basenames(paths), None, false)
  }

  /** The copies of `import_patches`' loop: the patch files after each copy,
      or, at the first missing file, the files copied so far and the error. */
  function CopyAll(files: map<string, string>, sources: Sources, paths: seq<string>):
    (r: Result<map<string, string>, (map<string, string>, QuiltError)>)
    ensures r.Ok? <==> forall i | 0 <= i < |paths| :: paths[i] in sources
    ensures r.Ok? ==> forall n :: n in r.value <==> n in files || n in Basenames(paths)
    decreases |paths|
  {
    if paths == [] then Ok(files)
    else if paths[0] !in sources then Err((files, NoSuchFile(paths[0])))
    else
      var r := CopyAll(files[Basename(paths[0]) := sources[paths[0]]], sources, paths[1..]);
      assert forall i | 1 <= i < |paths| :: paths[1..][i - 1] == paths[i];
      BasenamesShift(paths);
      ShiftedMembers(Basenames(paths), Basenames(paths[1..]));
      assert Basenames(paths)[0] == Basename(paths[0]);
      r
  }

  function Basenames(paths: seq<string>): (ns: seq<string>)
    ensures |ns| == |paths|
    ensures forall i | 0 <= i < |paths| :: ns[i] == Basename(paths[i])
  {
    seq(|paths|, i requires 0 <= i < |paths| => Basename(paths[i]))
  }

  /** The base names of all but the first path are the base names after
      the first. */
  lemma BasenamesShift(paths: seq<string>)
    requires paths != []
    ensures |Basenames(paths[1..])| == |paths| - 1
    ensures forall i | 1 <= i < |paths| :: Basenames(paths)[i] == Basenames(paths[1..])[i - 1]
  {
    var bs, rest := Basenames(paths), Basenames(paths[1..]);
    forall i | 1 <= i < |paths| ensures bs[i] == rest[i - 1] {
      assert paths[1..][i - 1] == paths[i];
    }
  }

  lemma ShiftedMembers<T>(xs: seq<T>, ys: seq<T>)
    requires xs != [] && |ys| == |xs| - 1
    requires forall i | 1 <= i < |xs| :: xs[i] == ys[i - 1]
    ensures forall n :: n in xs <==> n == xs[0] || n in ys
  {
    forall n ensures n in xs <==> n == xs[0] || n in ys {
      if n in ys {
        var i :| 0 <= i < |ys| && ys[i] == n;
        assert xs[i + 1] == n;
      }
    }
  }

  // ------------------------------------------------------------ the laws

  /** The last part of the copy's key is the name the series registers. */
  lemma {:induction false} DestinationNamed(path: string, newName: string)
    ensures var d := Destination(path, newName);
            Basename(d.0) == d.1
  {
    if newName != [] {
      var b := Basename(newName);
      JoinTail(Dirname(newName), b);
      LastPart(Join(Dirname(newName), b), b);
    } else {
      var b := Basename(path);
      LastPart(b, b);
    }
  }

  /** A new name with a directory part registers only its last part while
      the copy is keyed by the whole name, so the import gives the
      registered name no patch file of its own. */
  lemma {:induction false} ImportPatchMisfiled(st: Store, sources: Sources, path: string, newName: string)
    requires path in sources && '/' in newName
    ensures var d := Destination(path, newName);
            var o := ImportPatch(st, sources, path, newName);
            d.0 != d.1 && (d.1 in o.store.patchFiles <==> d.1 in st.patchFiles)
  {
    var a, b := Dirname(newName), Basename(newName);
    DirnameNonEmpty(newName);
    assert !StartsWith(b, "/") by {
      if b != [] { assert b[0] in b; }
    }
    assert |Join(a, b)| > |b|;
  }

  /** Joining a part with no '/' onto a directory leaves that part at the
      end, preceded by nothing or by a '/'. */
  lemma {:induction false} JoinTail(a: string, b: string)
    requires '/' !in b
    ensures var k := Join(a, b);
            |b| <= |k| && k[|k| - |b|..] == b && (|k| == |b| || k[|k| - |b| - 1] == '/')
  {
    assert !StartsWith(b, "/") by {
      if b != [] { assert b[0] in b; }
    }
    var k := Join(a, b);
    if a == [] || a[|a| - 1] == '/' {
      assert k == a + b;
      assert k[|a|..] == b;
    } else {
      assert k == a + "/" + b;
      assert k[|a| + 1..] == b;
      assert k[|a|] == '/';
    }
  }

  /** A string ending in `b`, which has no '/', preceded by nothing or by a
      '/', has base name `b`. */
  lemma {:induction false} LastPart(k: string, b: string)
    requires '/' !in b && |b| <= |k| && k[|k| - |b|..] == b
    requires |k| == |b| || k[|k| - |b| - 1] == '/'
    ensures Basename(k) == b
  {
    var j := FindLast(k, '/');
    var m := |k| - |b|;
    forall i | m <= i < |k| ensures k[i] != '/' {
      assert k[i] == b[i - m];
    }
    forall i | j + 1 <= i < |k| ensures k[i] != '/' {
      assert k[i] == k[j + 1..][i - j - 1];
    }
    assert j + 1 == m;
  }

  /** The strip level and direction an import is given are not written to
      the series: a plain name is saved bare and read back with the
      defaults, strip 1 and forward. */
  lemma OptionsNotSaved(name: string, strip: Option<string>, reverse: bool)
    requires PlainName(name)
    ensures var line := MakeLine(Obj(Imported(name, strip, reverse)));
            line.text == name && ParseLine(line.text).patch == Some(NewPatch(name))
  {
    PlainNameLine(name);
  }

  /** In a consistent store, importing fresh, distinct, plain names puts
      them right after the applied patches, in the order given, and the
      store stays consistent; only the series changes. */
  lemma {:induction false} ImportNamesPlaces(st: Store, names: seq<string>, strip: Option<string>, reverse: bool)
    requires Consistent(st) && Distinct(names)
    requires forall j | 0 <= j < |names| :: PlainName(names[j]) && names[j] !in Names(Read(st.series))
    ensures var s := Names(Read(st.series));
            var k := |Names(Read(st.applied))|;
            var o := ImportNames(st, names, strip, reverse);
            k <= |s| && o.error.None? && o.store == st.(series := o.store.series)
            && Names(Read(o.store.series)) == s[..k] + names + s[k..]
            && Consistent(o.store)
  {
    var ps := ImportedAll(names, strip, reverse);
    AddAfterTopPlaces(st, ps);
  }

  /** `import_patch` with a new name registers that name's last part,
      whatever the file was called, right after the applied patches. */
  lemma {:induction false} ImportPatchRenames(st: Store, sources: Sources, path: string, newName: string)
    requires Consistent(st) && path in sources && newName != []
    requires PlainName(Basename(newName)) && Basename(newName) !in Names(Read(st.series))
    ensures var s := Names(Read(st.series));
            var k := |Names(Read(st.applied))|;
            var o := ImportPatch(st, sources, path, newName);
            k <= |s| && o.error.None?
            && Names(Read(o.store.series)) == s[..k] + [Basename(newName)] + s[k..]
            && Consistent(o.store)
            && o.store.patchFiles[Join(Dirname(newName), Basename(newName))] == sources[path]
  {
    var dest := Destination(path, newName);
    var st1 := st.(patchFiles := st.patchFiles[dest.0 := sources[path]]);
    assert Consistent(st1);
    ImportNamesPlaces(st1, [dest.1], None, false);
  }

  /** In a consistent store whose source files all exist and whose base
      names are fresh, distinct and plain, `import_patches` copies every
      file and puts the base names right after the applied patches. */
  lemma {:induction false} ImportPatchesPlaces(st: Store, sources: Sources, paths: seq<string>)
    requires Consistent(st) && forall i | 0 <= i < |paths| :: paths[i] in sources
    requires Distinct(Basenames(paths))
    requires forall j | 0 <= j < |paths| :: PlainName(Basename(paths[j])) && Basename(paths[j]) !in Names(Read(st.series))
    ensures var s := Names(Read(st.series));
            var k := |Names(Read(st.applied))|;
            var o := ImportPatches(st, sources, paths);
            k <= |s| && o.error.None?
            && Names(Read(o.store.series)) == s[..k] + Basenames(paths) + s[k..]
            && Consistent(o.store)
            && forall n :: n in o.store.patchFiles <==> n in st.patchFiles || n in Basenames(paths)
  {
    assert OpenDb(st.version, st.applied).Ok?;
    var files := CopiedAll(st, sources, paths);
    FreshBasenames(Names(Read(st.series)), paths);
    ImportAfterCopies(st, files, Basenames(paths));
  }

  /** Importing names into a consistent store whose patch files were just
      replaced by copies. */
  lemma {:induction false} ImportAfterCopies(st: Store, files: map<string, string>, names: seq<string>)
    requires Consistent(st) && Distinct(names)
    requires forall j | 0 <= j < |names| :: PlainName(names[j]) && names[j] !in Names(Read(st.series))
    ensures var s := Names(Read(st.series));
            var k := |Names(Read(st.applied))|;
            var o := ImportNames(st.(patchFiles := files), names, None, false);
            k <= |s| && o.error.None?
            && Names(Read(o.store.series)) == s[..k] + names + s[k..]
            && Consistent(o.store) && o.store.patchFiles == files
  {
    var st1 := st.(patchFiles := files);
    FilesConsistent(st, st1);
    ImportNamesPlaces(st1, names, None, false);
  }

  /** When the database opens and every source exists, `import_patches` is
      the import of the base names into the store holding all the copies. */
  lemma {:induction false} CopiedAll(st: Store, sources: Sources, paths: seq<string>) returns (files: map<string, string>)
    requires OpenDb(st.version, st.applied).Ok? && forall i | 0 <= i < |paths| :: paths[i] in sources
    ensures ImportPatches(st, sources, paths) == ImportNames(st.(patchFiles := files), Basenames(paths), None, false)
    ensures forall n :: n in files <==> n in st.patchFiles || n in Basenames(paths)
  {
    files := CopyAll(st.patchFiles, sources, paths).value;
  }

  /** Base names that are each plain and fresh are so as a list. */
  lemma FreshBasenames(known: seq<string>, paths: seq<string>)
    requires forall j | 0 <= j < |paths| :: PlainName(Basename(paths[j])) && Basename(paths[j]) !in known
    ensures forall j | 0 <= j < |Basenames(paths)| :: PlainName(Basenames(paths)[j]) && Basenames(paths)[j] !in known
  {
  }
}
