/** The state the queue commands share, as values: the series file, the
    applied-patches database of the `.pc` directory, the patch files, each
    applied patch's backup directory, the `~refresh` sentinels and the
    working tree. Every command opens the database and the series when it
    is constructed and writes them back with `save()`. */
module Queue {

  import opened Wrappers
  import opened Errors
  import opened PyStr
  import opened Patching
  import opened SeriesLine
  import opened Series
  import opened SeriesLaws
  import opened SeriesDb
  import opened Backups

  /** Files are text, `None` when they do not exist. `backups[n]` is the
      directory `.pc/n`, `.timestamp` included; `n in sentinels` means the
      file `.pc/n~refresh` exists; `links` are the working paths that are
      symbolic links. `pc` and `patchesDir` are the two directory paths. */
  datatype Store = Store(
    pc: string,
    patchesDir: string,
    series: Option<string>,
    applied: Option<string>,
    version: Option<string>,
    patchFiles: map<string, string>,
    backups: map<string, Tree>,
    sentinels: set<string>,
    tree: Tree,
    links: set<string>)

  /** The signals the commands emit, in the order they fire. */
  datatype Event =
    | Applying(name: string)
    | ApplyingPatch(name: string)
    | AppliedPatch(name: string)
    | AppliedEmpty(name: string, present: bool)
    | Applied(top: Option<string>)
    | PatchCreated(name: string)
    | DeletingPatch(name: string, applied: bool)
    | DeletedPatch(name: string)
    | FileReverted(file: string, patch: string)
    | FileUnchanged(file: string, patch: string)

  /** What a command leaves: the store, the signals emitted, and the error
      it raised. Effects made before an error stay. */
  datatype Outcome = Outcome(store: Store, events: seq<Event>, error: Option<QuiltError>)

  /** What one patch's application or removal leaves, before the database
      is saved: the store, the in-memory database, the signals and the error
      raised. */
  datatype Step = Step(store: Store, db: PatchSeries, events: seq<Event>, error: Option<QuiltError>)

  const Timestamp: string := ".timestamp"

  function Names(s: PatchSeries): seq<string> {
    NamesOf(Patches(s))
  }

  function TopName(s: PatchSeries): (r: Option<string>)
    ensures r.None? <==> Names(s) == []
    ensures r.Some? ==> r.value == Names(s)[|Names(s)| - 1]
  {
    match Top(s)
    case None => None
    case Some(p) => Some(p.name)
  }

  /** The store after `Db.save()`: the version file, then the applied patches. */
  function WithDb(st: Store, db: PatchSeries): Store {
    var files := SaveDb(db);
    st.(version := Some(files.0), applied := Some(files.1))
  }

  /** The store after `Series.save()`. */
  function WithSeries(st: Store, s: PatchSeries): Store {
    st.(series := Some(Save(s)))
  }

  /** The store with the directory `.pc/name` set, or removed for `None`. */
  function WithDir(st: Store, name: string, dir: Option<Tree>): (r: Store)
    ensures dir.Some? ==> name in r.backups && r.backups[name] == dir.value
    ensures dir.None? ==> name !in r.backups
    ensures forall n | n != name :: (n in r.backups <==> n in st.backups)
                                    && (n in r.backups ==> r.backups[n] == st.backups[n])
    ensures r.(backups := st.backups) == st
  {
    if dir.Some? then st.(backups := st.backups[name := dir.value])
    else st.(backups := st.backups - {name})
  }

  function DirOf(st: Store, name: string): (r: Option<Tree>)
    ensures r.Some? <==> name in st.backups
    ensures r.Some? ==> r.value == st.backups[name]
  {
    if name in st.backups then Some(st.backups[name]) else None
  }

  /** `b` differs from `a` at most in the working tree and in the backup
      directory and sentinel of patch `name`. */
  ghost predicate OnlyPatch(a: Store, b: Store, name: string) {
    b.pc == a.pc && b.patchesDir == a.patchesDir
    && b.series == a.series && b.applied == a.applied && b.version == a.version
    && b.patchFiles == a.patchFiles && b.links == a.links
    && (forall n | n != name :: (n in b.backups <==> n in a.backups)
                                && (n in b.backups ==> b.backups[n] == a.backups[n]))
    && (forall n | n != name :: n in b.sentinels <==> n in a.sentinels)
  }

  // ------------------------------------------------ what saving preserves

  /** Lines that a save and a re-read give back with the same names: no
      line break in the text, and the text parses to the same patch name. */
  ghost predicate StableLines(ls: seq<PatchLine>) {
    forall i | 0 <= i < |ls| :: '\n' !in ls[i].text && Reparses(ls[i])
  }

  /** A store the queue commands keep sound: the database opens, the series
      names are distinct and plain, and the applied names are a prefix of
      the series names. */
  ghost predicate Consistent(st: Store) {
    var s := Read(st.series);
    var d := Read(st.applied);
    OpenDb(st.version, st.applied).Ok?
    && Distinct(Names(s))
    && (forall i | 0 <= i < |Names(s)| :: PlainName(Names(s)[i]))
    && Names(d) <= Names(s)
  }

  /** Every line read from a file is stable. */
  lemma ReadStable(file: Option<string>)
    ensures StableLines(LinesOf(Read(file).rows))
  {
    if file.Some? {
      var raws := Lines(file.value);
      var ls := LinesOf(Read(file).rows);
      forall i | 0 <= i < |ls| ensures '\n' !in ls[i].text && Reparses(ls[i]) {
        assert ls[i] == ParseLine(raws[i]);
        ParsedLineOneLine(raws[i]);
        LinesReparse(raws[i], NewPatch(""));
      }
    }
  }

  /** A line made from a patch with a plain name is stable. */
  lemma PlainStable(p: Patch)
    requires PlainName(p.name)
    ensures StableLines([MakeLine(Obj(p))])
  {
    var line := MakeLine(Obj(p));
    LinesReparse("", p);
    NoBreakInPlain(p.name);
    assert line.text == p.name;
    assert [line][0] == line;
  }

  lemma NoBreakInPlain(n: string)
    requires PlainName(n)
    ensures '\n' !in n
  {
    forall c | c in n ensures c != '\n' {
      assert !IsSpace(c);
    }
  }

  /** Saving a series of stable lines and reading it back gives the same
      names in the same order. */
  lemma SavedNames(s: PatchSeries)
    requires StableLines(LinesOf(s.rows))
    ensures Names(Read(Some(Save(s)))) == Names(s)
  {
    assert forall i | 0 <= i < |s.rows| :: s.rows[i].line == LinesOf(s.rows)[i];
    SaveReadNames(s);
  }

  /** The same for the database, through `Db.save()` and re-opening. */
  lemma SavedDbNames(st: Store, db: PatchSeries)
    requires StableLines(LinesOf(db.rows))
    ensures OpenDb(WithDb(st, db).version, WithDb(st, db).applied) == Ok(Read(Some(Save(db))))
    ensures Names(Read(WithDb(st, db).applied)) == Names(db)
  {
    SavedNames(db);
  }

  // ------------------------------------------ which series are exact

  /** Each patch of some lines is listed among their patches. */
  lemma {:induction false} PatchListed(lines: seq<PatchLine>, j: nat)
    requires j < |lines| && lines[j].patch.Some?
    ensures lines[j].patch.value in PatchesOf(lines)
  {
    if j > 0 {
      PatchListed(lines[1..], j - 1);
      assert lines[1..][j - 1] == lines[j];
    }
  }

  /** The name of every patch line of a series is among its names. */
  lemma RowNamesListed(s: PatchSeries)
    ensures forall i | 0 <= i < |s.rows| && s.rows[i].line.patch.Some? ::
              s.rows[i].line.patch.value.name in Names(s)
  {
    forall i | 0 <= i < |s.rows| && s.rows[i].line.patch.Some?
      ensures s.rows[i].line.patch.value.name in Names(s)
    {
      PatchListed(LinesOf(s.rows), i);
      var k :| 0 <= k < |Patches(s)| && Patches(s)[k] == s.rows[i].line.patch.value;
      assert Names(s)[k] == s.rows[i].line.patch.value.name;
    }
  }

  lemma DistinctConcat(a: seq<string>, b: seq<string>)
    requires Distinct(a + b)
    ensures Distinct(a) && Distinct(b)
    ensures forall x | x in a :: x !in b
  {
    assert forall i | 0 <= i < |a| :: (a + b)[i] == a[i];
    assert forall j | 0 <= j < |b| :: (a + b)[|a| + j] == b[j];
  }

  /** A series built from lines with distinct names is exact. */
  lemma {:induction false} BuildExact(lines: seq<PatchLine>)
    requires Distinct(NamesOf(PatchesOf(lines)))
    ensures Exact(Build(lines))
    decreases |lines|
  {
    if lines != [] {
      var init := lines[..|lines| - 1];
      var last := lines[|lines| - 1];
      assert lines == init + [last];
      PatchesOfConcat(init, [last]);
      NamesOfConcat(PatchesOf(init), PatchesOf([last]));
      DistinctConcat(NamesOf(PatchesOf(init)), NamesOf(PatchesOf([last])));
      BuildExact(init);
      var b := Build(init);
      assert Names(b) == NamesOf(PatchesOf(init));
      RowNamesListed(b);
      if last.patch.Some? {
        assert PatchesOf([last]) == [last.patch.value];
        assert last.patch.value.name !in Names(b);
      }
      AddLineExact(b, last);
    }
  }

  /** A series read from a file without repeated names is exact. */
  lemma ReadExact(file: Option<string>)
    requires Distinct(Names(Read(file)))
    ensures Exact(Read(file))
  {
    if file.Some? {
      BuildExact(ParseAll(Lines(file.value)));
    }
  }

  /** In a consistent store both the series and the database are exact, and
      every line of the database is stable. */
  lemma ConsistentExact(st: Store)
    requires Consistent(st)
    ensures Exact(Read(st.series)) && Exact(Read(st.applied))
    ensures StableLines(LinesOf(Read(st.applied).rows))
    ensures |Names(Read(st.applied))| <= |Names(Read(st.series))|
  {
    var s := Read(st.series);
    var d := Read(st.applied);
    ReadExact(st.series);
    DistinctPrefix(Names(d), Names(s));
    ReadExact(st.applied);
    ReadStable(st.applied);
  }

  lemma DistinctPrefix(a: seq<string>, b: seq<string>)
    requires a <= b && Distinct(b)
    ensures Distinct(a) && |a| <= |b|
  {
    assert forall i | 0 <= i < |a| :: a[i] == b[i];
  }

  /** The applied names are the first names of the series. */
  lemma AppliedPrefix(st: Store)
    requires Consistent(st)
    ensures |Patches(Read(st.applied))| <= |Patches(Read(st.series))|
    ensures Names(Read(st.applied)) == Names(Read(st.series))[..|Patches(Read(st.applied))|]
  {
  }

  /** After a command that saved the database, the store is consistent again
      when the applied names are still a prefix of the series names. */
  lemma StillConsistent(st: Store, r: Store)
    requires Consistent(st) && r.series == st.series
    requires OpenDb(r.version, r.applied).Ok?
    requires Names(Read(r.applied)) <= Names(Read(st.series))
    ensures Consistent(r)
  {
  }

  /** After a command that saved only the series, the store is consistent
      again when the new series names are distinct and plain and still start
      with the applied names. */
  lemma SeriesConsistent(st: Store, r: Store)
    requires Consistent(st) && r == st.(series := r.series)
    requires Distinct(Names(Read(r.series)))
    requires forall i | 0 <= i < |Names(Read(r.series))| :: PlainName(Names(Read(r.series))[i])
    requires Names(Read(st.applied)) <= Names(Read(r.series))
    ensures Consistent(r)
  {
  }

  /** Consistency depends only on the series, the database and its version. */
  lemma FilesConsistent(st: Store, r: Store)
    requires Consistent(st)
    requires r.series == st.series && r.applied == st.applied && r.version == st.version
    ensures Consistent(r)
  {
  }

  /** The patches as lines made from Patch objects, the way `add_patch` stores them. */
  function ObjLines(ps: seq<Patch>): (ls: seq<PatchLine>)
    ensures |ls| == |ps|
    ensures forall i | 0 <= i < |ps| :: ls[i] == MakeLine(Obj(ps[i]))
  {
    seq(|ps|, i requires 0 <= i < |ps| => MakeLine(Obj(ps[i])))
  }

  lemma ObjStable(ps: seq<Patch>)
    requires forall i | 0 <= i < |ps| :: PlainName(ps[i].name)
    ensures StableLines(ObjLines(ps))
  {
    forall i | 0 <= i < |ps| ensures '\n' !in ObjLines(ps)[i].text && Reparses(ObjLines(ps)[i]) {
      PlainStable(ps[i]);
      assert [MakeLine(Obj(ps[i]))][0] == ObjLines(ps)[i];
    }
  }

  lemma StableConcat(a: seq<PatchLine>, b: seq<PatchLine>)
    requires StableLines(a) && StableLines(b)
    ensures StableLines(a + b)
  {
    assert forall i | 0 <= i < |a| :: (a + b)[i] == a[i];
    assert forall i | |a| <= i < |a + b| :: (a + b)[i] == b[i - |a|];
  }

  // ------------------------------------------- lines that stay stable

  lemma {:induction false} SliceStable(ls: seq<PatchLine>, a: nat, b: nat)
    requires a <= b <= |ls| && StableLines(ls)
    ensures StableLines(ls[a..b])
  {
    forall i | 0 <= i < b - a ensures '\n' !in ls[a..b][i].text && Reparses(ls[a..b][i]) {
      assert ls[a..b][i] == ls[a + i];
    }
  }

  /** Putting lines made from patches with plain names into a series of
      stable lines keeps it stable. */
  lemma {:induction false} SpliceStable(s: PatchSeries, ps: seq<Patch>, at: nat)
    requires at <= |s.rows| && StableLines(LinesOf(s.rows))
    requires forall i | 0 <= i < |ps| :: PlainName(ps[i].name)
    ensures StableLines(LinesOf(Splice(s, ps, at).rows))
  {
    var names := NamesOf(ps);
    var a := Unindex(s.rows[..at], names);
    var b := NewRows(ps);
    var c := Unindex(s.rows[at..], names);
    var ls := LinesOf(s.rows);
    LinesOfConcat(a + b, c);
    LinesOfConcat(a, b);
    assert LinesOf(a) == ls[..at];
    assert LinesOf(c) == ls[at..];
    assert LinesOf(b) == ObjLines(ps);
    SliceStable(ls, 0, at);
    SliceStable(ls, at, |ls|);
    ObjStable(ps);
    StableConcat(ls[..at], ObjLines(ps));
    StableConcat(ls[..at] + ObjLines(ps), ls[at..]);
  }

  /** In an exact series a name is known exactly when it is listed. */
  lemma KnownIffListed(s: PatchSeries, n: string)
    requires Exact(s)
    ensures IsPatch(s, n) <==> n in Names(s)
  {
    if IsPatch(s, n) {
      RowNamesListed(s);
      assert Keyed(s.rows[Lookup(s.rows, n).value], n);
    }
    if n in Names(s) {
      var k :| 0 <= k < |Names(s)| && Names(s)[k] == n;
      ExactPosition(s, k);
    }
  }
}
