/** `PatchSeries` of quilt/db.py: the ordered lines of a series (or applied
    patches) file, and the dict from patch to the line holding it.

    The source keys the dict by Patch, which hashes and compares by name, and
    finds a line's position with `list.index`, which compares lines by
    identity. So the dict amounts to choosing, for each name, at most one
    line: here each row carries a flag saying whether it is the dict's line
    for the name of its patch. */
module Series {

  import opened Wrappers
  import opened Errors
  import opened Patching
  import opened SeriesLine

  /** A line of the series and whether the dict maps its patch's name to it. */
  datatype Row = Row(line: PatchLine, indexed: bool)

  datatype PatchSeries = PatchSeries(rows: seq<Row>)

  const Empty: PatchSeries := PatchSeries([])

  /** The row is the dict's line for the name `n`. */
  predicate Keyed(row: Row, n: string) {
    row.indexed && row.line.patch.Some? && row.line.patch.value.name == n
  }

  /** The dict is well formed: only patch lines are in it, and no name has
      two lines. Every operation below keeps this. */
  ghost predicate Valid(s: PatchSeries) {
    ValidRows(s.rows)
  }

  ghost predicate ValidRows(rows: seq<Row>) {
    (forall i | 0 <= i < |rows| && rows[i].indexed :: rows[i].line.patch.Some?)
    && forall i, j | 0 <= i < j < |rows| && rows[i].indexed && rows[j].indexed ::
         rows[i].line.patch.value.name != rows[j].line.patch.value.name
  }

  /** No name is keyed both in `a` and in `b`. */
  ghost predicate Disjoint(a: seq<Row>, b: seq<Row>)
    requires ValidRows(a) && ValidRows(b)
  {
    forall i, j | 0 <= i < |a| && 0 <= j < |b| && a[i].indexed && b[j].indexed ::
      a[i].line.patch.value.name != b[j].line.patch.value.name
  }

  /** Every patch line is in the dict. Then no name occurs twice. A series
      read from a file with distinct names is exact, and so is one changed
      only through the queue commands. */
  ghost predicate Exact(s: PatchSeries) {
    Valid(s) && forall i | 0 <= i < |s.rows| && s.rows[i].line.patch.Some? :: s.rows[i].indexed
  }

  // ---------------------------------------------------------------- queries

  function LinesOf(rows: seq<Row>): (ls: seq<PatchLine>)
    ensures |ls| == |rows|
    ensures forall i | 0 <= i < |rows| :: ls[i] == rows[i].line
  {
    seq(|rows|, i requires 0 <= i < |rows| => rows[i].line)
  }

  /** The patches of some lines, in order, skipping blank and comment lines. */
  function PatchesOf(lines: seq<PatchLine>): (ps: seq<Patch>)
    ensures |ps| <= |lines|
  {
    if lines == [] then []
    else
      match lines[0].patch
      case None => PatchesOf(lines[1..])
      case Some(p) => [p] + PatchesOf(lines[1..])
  }

  function NamesOf(ps: seq<Patch>): (ns: seq<string>)
    ensures |ns| == |ps|
    ensures forall i | 0 <= i < |ps| :: ns[i] == ps[i].name
  {
    if ps == [] then [] else [ps[0].name] + NamesOf(ps[1..])
  }

  /** A patch is in a list, by `Patch.__eq__`, exactly when its name is
      among the list's names, whatever its strip level and direction. */
  lemma InListIffNamed(p: Patch, ps: seq<Patch>)
    ensures InList(p, ps) <==> p.name in NamesOf(ps)
    ensures forall strip, reverse :: InList(p, ps) <==> InList(Patch(p.name, strip, reverse), ps)
  {
    var ns := NamesOf(ps);
    if p.name in ns {
      var i :| 0 <= i < |ns| && ns[i] == p.name;
      assert SamePatch(ps[i], p);
    }
  }

  /** `patches()` */
  function Patches(s: PatchSeries): seq<Patch> {
    PatchesOf(LinesOf(s.rows))
  }

  /** `top_patch()`: the last patch, None for a series without patches. */
  function Top(s: PatchSeries): (r: Option<Patch>)
    ensures r.None? <==> Patches(s) == []
    ensures r.Some? ==> r.value == Patches(s)[|Patches(s)| - 1]
  {
    var ps := Patches(s);
    if ps == [] then None else Some(ps[|ps| - 1])
  }

  /** `first_patch()`: the first patch, None for a series without patches. */
  function First(s: PatchSeries): (r: Option<Patch>)
    ensures r.None? <==> Patches(s) == []
    ensures r.Some? ==> r.value == Patches(s)[0]
  {
    var ps := Patches(s);
    if ps == [] then None else Some(ps[0])
  }

  /** The position of the dict's line for `n`, if it has one. */
  function Lookup(rows: seq<Row>, n: string): (r: Option<nat>)
    ensures r.Some? ==> r.value < |rows| && Keyed(rows[r.value], n)
    ensures r.None? ==> forall i | 0 <= i < |rows| :: !Keyed(rows[i], n)
  {
    if rows == [] then None
    else if Keyed(rows[0], n) then Some(0)
    else
      match Lookup(rows[1..], n)
      case None => None
      case Some(i) => Some(i + 1)
  }

  /** `is_patch(name)` */
  predicate IsPatch(s: PatchSeries, name: string) {
    Lookup(s.rows, name).Some?
  }

  /** `_check_patch`, then the position of the patch's line. */
  function Position(s: PatchSeries, name: string): (r: Result<nat, QuiltError>)
    ensures r.Ok? <==> IsPatch(s, name)
    ensures r.Err? ==> r.error == InvalidPatch(name)
    ensures r.Ok? ==> r.value < |s.rows| && Keyed(s.rows[r.value], name)
  {
    match Lookup(s.rows, name)
    case None => Err(InvalidPatch(name))
    case Some(i) => Ok(i)
  }

  /** `patches_after(name)`: the patches on the lines after the patch's line. */
  function PatchesAfter(s: PatchSeries, name: string): (r: Result<seq<Patch>, QuiltError>)
    ensures r.Err? <==> !IsPatch(s, name)
    ensures r.Err? ==> r.error == InvalidPatch(name)
    ensures r.Ok? ==> |r.value| < |Patches(s)| && r.value == Patches(s)[|Patches(s)| - |r.value|..]
  {
    var i :- Position(s, name);
    Split(LinesOf(s.rows), i);
    Ok(PatchesOf(LinesOf(s.rows)[i + 1..]))
  }

  /** `patches_before(name)`: the patches on the lines before the patch's line. */
  function PatchesBefore(s: PatchSeries, name: string): (r: Result<seq<Patch>, QuiltError>)
    ensures r.Err? <==> !IsPatch(s, name)
    ensures r.Err? ==> r.error == InvalidPatch(name)
    ensures r.Ok? ==> |r.value| < |Patches(s)| && r.value == Patches(s)[..|r.value|]
  {
    var i :- Position(s, name);
    Split(LinesOf(s.rows), i);
    Ok(PatchesOf(LinesOf(s.rows)[..i]))
  }

  /** `patches_until(name)`: the patches up to and including the patch. */
  function PatchesUntil(s: PatchSeries, name: string): (r: Result<seq<Patch>, QuiltError>)
    ensures r.Err? <==> !IsPatch(s, name)
    ensures r.Err? ==> r.error == InvalidPatch(name)
    ensures r.Ok? ==> r.value != [] && |r.value| <= |Patches(s)| && r.value == Patches(s)[..|r.value|]
                      && r.value[|r.value| - 1].name == name
  {
    var i :- Position(s, name);
    var lines := LinesOf(s.rows);
    Split(lines, i);
    assert lines[..i + 1] == lines[..i] + [lines[i]];
    PatchesOfConcat(lines[..i], [lines[i]]);
    Ok(PatchesOf(lines[..i + 1]))
  }

  /** `patch_after(name)`: the first of the patches after it, if any. */
  function PatchAfter(s: PatchSeries, name: string): (r: Result<Option<Patch>, QuiltError>)
    ensures r.Err? <==> !IsPatch(s, name)
    ensures r.Ok? ==> (r.value.None? <==> PatchesAfter(s, name).value == [])
    ensures r.Ok? && r.value.Some? ==> r.value.value == PatchesAfter(s, name).value[0]
  {
    var ps :- PatchesAfter(s, name);
    Ok(if ps == [] then None else Some(ps[0]))
  }

  /** `patch_before(name)` as written: it returns the FIRST of the patches
      before the given one, which is the first patch of the series. */
  function PatchBeforeAsWritten(s: PatchSeries, name: string): (r: Result<Option<Patch>, QuiltError>)
    ensures r.Err? <==> !IsPatch(s, name)
    ensures r.Ok? && r.value.Some? ==> r.value == First(s)
  {
    var ps :- PatchesBefore(s, name);
    Ok(if ps == [] then None else Some(ps[0]))
  }

  /** `patch_before(name)` as its documentation describes it: the patch
      immediately before the given one. */
  function PatchBefore(s: PatchSeries, name: string): (r: Result<Option<Patch>, QuiltError>)
    ensures r.Err? <==> !IsPatch(s, name)
    ensures r.Ok? ==> (r.value.None? <==> PatchesBefore(s, name).value == [])
    ensures r.Ok? && r.value.Some? ==>
              r.value.value == PatchesBefore(s, name).value[|PatchesBefore(s, name).value| - 1]
  {
    var ps :- PatchesBefore(s, name);
    Ok(if ps == [] then None else Some(ps[|ps| - 1]))
  }

  // -------------------------------------------------------------- mutations

  /** The rows with the dict entries for `names` taken away: the effect, on
      the old lines, of assigning those names to new lines. */
  function Unindex(rows: seq<Row>, names: seq<string>): (r: seq<Row>)
    ensures |r| == |rows| && LinesOf(r) == LinesOf(rows)
    ensures forall i | 0 <= i < |rows| :: r[i].line == rows[i].line
    ensures forall i | 0 <= i < |rows| ::
              r[i].indexed == (rows[i].indexed && !(rows[i].line.patch.Some? && rows[i].line.patch.value.name in names))
  {
    seq(|rows|, i requires 0 <= i < |rows| =>
      Row(rows[i].line, rows[i].indexed && !(rows[i].line.patch.Some? && rows[i].line.patch.value.name in names)))
  }

  /** `add_patch(entry)`: append the entry's line; the dict maps its patch's
      name to it, replacing an older line of that name. */
  function AddPatch(s: PatchSeries, e: Entry): (r: PatchSeries)
    ensures Patches(r) == Patches(s) + PatchesOf([MakeLine(e)])
    ensures Valid(s) ==> Valid(r)
    ensures MakeLine(e).patch.Some? ==> IsPatch(r, MakeLine(e).patch.value.name)
    ensures forall n | IsPatch(s, n) :: IsPatch(r, n)
  {
    AddLine(s, MakeLine(e))
  }

  /** Appending one line, already made. */
  function AddLine(s: PatchSeries, line: PatchLine): (r: PatchSeries)
    ensures LinesOf(r.rows) == LinesOf(s.rows) + [line]
    ensures Patches(r) == Patches(s) + PatchesOf([line])
    ensures Valid(s) ==> Valid(r)
    ensures line.patch.Some? ==> IsPatch(r, line.patch.value.name)
    ensures forall n | IsPatch(s, n) :: IsPatch(r, n)
  {
    var rows := match line.patch
      case None => s.rows + [Row(line, false)]
      case Some(p) => Unindex(s.rows, [p.name]) + [Row(line, true)];
    var r := PatchSeries(rows);
    assert LinesOf(rows) == LinesOf(s.rows) + [line];
    PatchesOfConcat(LinesOf(s.rows), [line]);
    AddPatchKeeps(s, line, r);
    r
  }

  lemma AddPatchKeeps(s: PatchSeries, line: PatchLine, r: PatchSeries)
    requires line.patch.None? ==> r.rows == s.rows + [Row(line, false)]
    requires line.patch.Some? ==> r.rows == Unindex(s.rows, [line.patch.value.name]) + [Row(line, true)]
    ensures Valid(s) ==> Valid(r)
    ensures line.patch.Some? ==> IsPatch(r, line.patch.value.name)
    ensures forall n | IsPatch(s, n) :: IsPatch(r, n)
  {
    if line.patch.Some? {
      var m := line.patch.value.name;
      assert Keyed(r.rows[|s.rows|], m);
      LookupFinds(r.rows, m, |s.rows|);
    }
    forall n | IsPatch(s, n) ensures IsPatch(r, n) {
      var i := Lookup(s.rows, n).value;
      if line.patch.Some? && line.patch.value.name == n {
        assert Keyed(r.rows[|s.rows|], n);
        LookupFinds(r.rows, n, |s.rows|);
      } else {
        assert Keyed(r.rows[i], n);
        LookupFinds(r.rows, n, i);
      }
    }
  }

  /** A keyed row is found by the lookup. */
  lemma LookupFinds(rows: seq<Row>, n: string, i: nat)
    requires i < |rows| && Keyed(rows[i], n)
    ensures Lookup(rows, n).Some?
  {
  }

  /** The rows `PatchLine(p)` builds for Patch objects: each is in the dict
      unless a later patch of the same name takes its place. */
  function NewRows(ps: seq<Patch>): (rows: seq<Row>)
    ensures |rows| == |ps|
    ensures forall k | 0 <= k < |ps| :: rows[k].line == MakeLine(Obj(ps[k]))
    ensures forall k | 0 <= k < |ps| :: rows[k].indexed == (ps[k].name !in NamesOf(ps[k + 1..]))
  {
    seq(|ps|, k requires 0 <= k < |ps| => NewRow(ps, k))
  }

  function NewRow(ps: seq<Patch>, k: nat): Row
    requires k < |ps|
  {
    Row(MakeLine(Obj(ps[k])), ps[k].name !in NamesOf(ps[k + 1..]))
  }

  /** The rows of `ps` put in at position `at`; the dict entries of their
      names move to the new lines. */
  function Splice(s: PatchSeries, ps: seq<Patch>, at: nat): (r: PatchSeries)
    requires at <= |s.rows|
    ensures Patches(r) == PatchesOf(LinesOf(s.rows)[..at]) + ps + PatchesOf(LinesOf(s.rows)[at..])
    ensures Valid(s) ==> Valid(r)
    ensures forall p | p in ps :: IsPatch(r, p.name)
    ensures forall n | IsPatch(s, n) :: IsPatch(r, n)
  {
    var names := NamesOf(ps);
    var head := s.rows[..at];
    var tail := s.rows[at..];
    var r := PatchSeries(Unindex(head, names) + NewRows(ps) + Unindex(tail, names));
    assert s.rows == head + tail;
    SpliceLines(s, ps, at, r);
    InsertKeeps(s, ps, head, tail, r);
    r
  }

  /** `insert_patches(ps)`: the patches' lines go in front. */
  function InsertPatches(s: PatchSeries, ps: seq<Patch>): (r: PatchSeries)
    ensures Patches(r) == ps + Patches(s)
    ensures Valid(s) ==> Valid(r)
    ensures forall p | p in ps :: IsPatch(r, p.name)
    ensures forall n | IsPatch(s, n) :: IsPatch(r, n)
  {
    var r := Splice(s, ps, 0);
    var lines := LinesOf(s.rows);
    assert lines[..0] == [] && lines[0..] == lines;
    assert Patches(r) == PatchesOf([]) + ps + PatchesOf(lines);
    assert PatchesOf([]) + ps == ps;
    r
  }

  /** `add_patches(ps, after)`: with no `after` the patches go in front;
      otherwise right after the line of `after`, which must be known. When
      `after` is among the new patches, its dict entry moves to a new line
      before the lines after it are looked up, and `list.index` fails. */
  function AddPatches(s: PatchSeries, ps: seq<Patch>, after: Option<Patch>): (r: Result<PatchSeries, QuiltError>)
    ensures after.None? ==> r == Ok(InsertPatches(s, ps))
    ensures after.Some? && !IsPatch(s, after.value.name) ==> r == Err(InvalidPatch(after.value.name))
    ensures after.Some? && IsPatch(s, after.value.name) ==>
              (r.Err? <==> after.value.name in NamesOf(ps))
    ensures r.Err? ==> r.error == InvalidPatch(after.value.name) || r.error == NotInList("index")
    ensures r.Ok? && after.Some? ==>
              Patches(r.value) == PatchesUntil(s, after.value.name).value + ps
                                  + PatchesAfter(s, after.value.name).value
    ensures r.Ok? ==> (Valid(s) ==> Valid(r.value)) && forall p | p in ps :: IsPatch(r.value, p.name)
    ensures r.Ok? ==> forall n | IsPatch(s, n) :: IsPatch(r.value, n)
  {
    if after.None? then Ok(InsertPatches(s, ps))
    else
      var i :- Position(s, after.value.name);
      if after.value.name in NamesOf(ps) then Err(NotInList("index"))
      else
        SplicedAfter(s, ps, after.value.name, i);
        Ok(Splice(s, ps, i + 1))
  }

  /** Splicing after a patch's line puts the new patches between the
      patches up to it and those after it. */
  lemma SplicedAfter(s: PatchSeries, ps: seq<Patch>, name: string, i: nat)
    requires Position(s, name) == Ok(i)
    ensures Patches(Splice(s, ps, i + 1)) == PatchesUntil(s, name).value + ps + PatchesAfter(s, name).value
  {
    var lines := LinesOf(s.rows);
    assert PatchesUntil(s, name).value == PatchesOf(lines[..i + 1]);
    assert PatchesAfter(s, name).value == PatchesOf(lines[i + 1..]);
  }

  lemma SpliceLines(s: PatchSeries, ps: seq<Patch>, at: nat, r: PatchSeries)
    requires at <= |s.rows|
    requires r.rows == Unindex(s.rows[..at], NamesOf(ps)) + NewRows(ps) + Unindex(s.rows[at..], NamesOf(ps))
    ensures Patches(r) == PatchesOf(LinesOf(s.rows)[..at]) + ps + PatchesOf(LinesOf(s.rows)[at..])
  {
    var names := NamesOf(ps);
    var a := Unindex(s.rows[..at], names);
    var b := NewRows(ps);
    var c := Unindex(s.rows[at..], names);
    LinesOfConcat(a + b, c);
    LinesOfConcat(a, b);
    assert LinesOf(a) == LinesOf(s.rows)[..at];
    assert LinesOf(c) == LinesOf(s.rows)[at..];
    NewLines(ps);
    PatchesOfConcat(LinesOf(a) + LinesOf(b), LinesOf(c));
    PatchesOfConcat(LinesOf(a), LinesOf(b));
  }

  /** Putting `NewRows(ps)` between `head` and `tail`, both with the names
      of `ps` taken out of the dict, keeps the dict well formed and makes
      every name of `ps`, and every name known before, known. */
  lemma InsertKeeps(s: PatchSeries, ps: seq<Patch>, head: seq<Row>, tail: seq<Row>, r: PatchSeries)
    requires s.rows == head + tail
    requires r.rows == Unindex(head, NamesOf(ps)) + NewRows(ps) + Unindex(tail, NamesOf(ps))
    ensures Valid(s) ==> Valid(r)
    ensures forall p | p in ps :: IsPatch(r, p.name)
    ensures forall n | IsPatch(s, n) :: IsPatch(r, n)
  {
    var names := NamesOf(ps);
    var a := Unindex(head, names);
    var b := NewRows(ps);
    var c := Unindex(tail, names);
    forall p | p in ps ensures IsPatch(r, p.name) {
      NewRowKeyed(ps, p.name);
      FoundIn(a, b, c, |a| + LastOfName(ps, p.name), p.name);
    }
    forall n | IsPatch(s, n) ensures IsPatch(r, n) {
      if n in names {
        NewRowKeyed(ps, n);
        FoundIn(a, b, c, |a| + LastOfName(ps, n), n);
      } else {
        UnindexKeyed(head, names, n);
        UnindexKeyed(tail, names, n);
        OldNameFound(head, tail, a, b, c, n);
      }
    }
    if Valid(s) {
      InsertValid(s, ps, head, tail, r);
    }
  }

  /** The new row for the last patch named `n` is the dict's line for `n`. */
  lemma {:induction false} NewRowKeyed(ps: seq<Patch>, n: string)
    requires n in NamesOf(ps) || exists p | p in ps :: p.name == n
    ensures LastOfName(ps, n) < |NewRows(ps)| && Keyed(NewRows(ps)[LastOfName(ps, n)], n)
  {
  }

  /** Taking other names out of the dict leaves the line for `n` keyed. */
  lemma {:induction false} UnindexKeyed(rows: seq<Row>, names: seq<string>, n: string)
    requires n !in names
    ensures |Unindex(rows, names)| == |rows|
    ensures forall i | 0 <= i < |rows| && Keyed(rows[i], n) :: Keyed(Unindex(rows, names)[i], n)
  {
  }

  /** A keyed row anywhere in three row sequences put together is found. */
  lemma {:induction false} FoundIn(a: seq<Row>, b: seq<Row>, c: seq<Row>, i: nat, n: string)
    requires i < |a| + |b| + |c|
    requires Keyed(if i < |a| then a[i] else if i < |a| + |b| then b[i - |a|] else c[i - |a| - |b|], n)
    ensures Lookup(a + b + c, n).Some?
  {
    ConcatAt(a, b, c, i);
    LookupFinds(a + b + c, n, i);
  }

  /** Indexing into three sequences put together. */
  lemma {:induction false} ConcatAt<T>(a: seq<T>, b: seq<T>, c: seq<T>, i: nat)
    requires i < |a| + |b| + |c|
    ensures (a + b + c)[i] == if i < |a| then a[i] else if i < |a| + |b| then b[i - |a|] else c[i - |a| - |b|]
  {
  }

  /** A name the dict of `head + tail` knows, whose line stays keyed in `a`
      and `c`, is known to `a + b + c`. */
  lemma {:induction false} OldNameFound(head: seq<Row>, tail: seq<Row>, a: seq<Row>, b: seq<Row>, c: seq<Row>, n: string)
    requires |a| == |head| && |c| == |tail|
    requires forall i | 0 <= i < |head| && Keyed(head[i], n) :: Keyed(a[i], n)
    requires forall i | 0 <= i < |tail| && Keyed(tail[i], n) :: Keyed(c[i], n)
    requires Lookup(head + tail, n).Some?
    ensures Lookup(a + b + c, n).Some?
  {
    var i := Lookup(head + tail, n).value;
    if i < |head| {
      assert (head + tail)[i] == head[i];
      FoundIn(a, b, c, i, n);
    } else {
      assert (head + tail)[i] == tail[i - |head|];
      FoundIn(a, b, c, i + |b|, n);
    }
  }

  lemma InsertValid(s: PatchSeries, ps: seq<Patch>, head: seq<Row>, tail: seq<Row>, r: PatchSeries)
    requires Valid(s) && s.rows == head + tail
    requires r.rows == Unindex(head, NamesOf(ps)) + NewRows(ps) + Unindex(tail, NamesOf(ps))
    ensures Valid(r)
  {
    var names := NamesOf(ps);
    var a := Unindex(head, names);
    var b := NewRows(ps);
    var c := Unindex(tail, names);
    SplitValid(head, tail);
    UnindexValid(head, names);
    UnindexValid(tail, names);
    NewRowsValid(ps);
    UnindexDisjoint(head, tail, names);
    NewRowsDisjoint(ps, head);
    NewRowsDisjoint(ps, tail);
    ConcatValid(a, b);
    ConcatDisjoint(a, b, c);
    ConcatValid(a + b, c);
  }

  /** The parts of a valid row sequence are valid and share no name. */
  lemma SplitValid(head: seq<Row>, tail: seq<Row>)
    requires ValidRows(head + tail)
    ensures ValidRows(head) && ValidRows(tail) && Disjoint(head, tail)
  {
    var all := head + tail;
    assert forall i | 0 <= i < |head| :: head[i] == all[i];
    assert forall j | 0 <= j < |tail| :: tail[j] == all[|head| + j];
  }

  /** Two valid row sequences that share no name make a valid one. */
  lemma ConcatValid(a: seq<Row>, b: seq<Row>)
    requires ValidRows(a) && ValidRows(b) && Disjoint(a, b)
    ensures ValidRows(a + b)
  {
    var all := a + b;
    forall i, j | 0 <= i < j < |all| && all[i].indexed && all[j].indexed
      ensures all[i].line.patch.value.name != all[j].line.patch.value.name
    {
      if j < |a| {
        assert all[i] == a[i] && all[j] == a[j];
      } else if i < |a| {
        assert all[i] == a[i] && all[j] == b[j - |a|];
      } else {
        assert all[i] == b[i - |a|] && all[j] == b[j - |a|];
      }
    }
  }

  lemma ConcatDisjoint(a: seq<Row>, b: seq<Row>, c: seq<Row>)
    requires ValidRows(a) && ValidRows(b) && ValidRows(c) && ValidRows(a + b)
    requires Disjoint(a, c) && Disjoint(b, c)
    ensures Disjoint(a + b, c)
  {
    var ab := a + b;
    forall i, j | 0 <= i < |ab| && 0 <= j < |c| && ab[i].indexed && c[j].indexed
      ensures ab[i].line.patch.value.name != c[j].line.patch.value.name
    {
      if i < |a| { assert ab[i] == a[i]; } else { assert ab[i] == b[i - |a|]; }
    }
  }

  /** Taking names out of the dict keeps it valid, and disjoint from
      anything the original was disjoint from. */
  lemma UnindexValid(rows: seq<Row>, names: seq<string>)
    requires ValidRows(rows)
    ensures ValidRows(Unindex(rows, names))
  {
  }

  lemma UnindexDisjoint(a: seq<Row>, b: seq<Row>, names: seq<string>)
    requires ValidRows(a) && ValidRows(b) && Disjoint(a, b)
    ensures ValidRows(Unindex(a, names)) && ValidRows(Unindex(b, names))
    ensures Disjoint(Unindex(a, names), Unindex(b, names))
  {
  }

  lemma NewRowsValid(ps: seq<Patch>)
    ensures ValidRows(NewRows(ps))
  {
    var rows := NewRows(ps);
    forall a, b | 0 <= a < b < |rows| && rows[a].indexed && rows[b].indexed
      ensures rows[a].line.patch.value.name != rows[b].line.patch.value.name
    {
      NewRowsDistinct(ps, a, b);
    }
  }

  /** The new rows share no name with rows whose dict lost the new names. */
  lemma NewRowsDisjoint(ps: seq<Patch>, rows: seq<Row>)
    requires ValidRows(rows)
    ensures ValidRows(NewRows(ps)) && ValidRows(Unindex(rows, NamesOf(ps)))
    ensures Disjoint(NewRows(ps), Unindex(rows, NamesOf(ps)))
    ensures Disjoint(Unindex(rows, NamesOf(ps)), NewRows(ps))
  {
    NewRowsValid(ps);
    var names := NamesOf(ps);
    var a := NewRows(ps);
    var c := Unindex(rows, names);
    forall i, j | 0 <= i < |a| && 0 <= j < |c| && a[i].indexed && c[j].indexed
      ensures a[i].line.patch.value.name != c[j].line.patch.value.name
    {
      assert a[i].line.patch.value.name == names[i];
    }
  }

  /** Two indexed new rows hold different names. */
  lemma NewRowsDistinct(ps: seq<Patch>, a: nat, b: nat)
    requires a < b < |ps|
    requires ps[a].name !in NamesOf(ps[a + 1..])
    ensures ps[a].name != ps[b].name
  {
    assert ps[a].name !in NamesOf(ps[a + 1..]);
    assert NamesOf(ps[a + 1..])[b - a - 1] == ps[b].name;
  }

  /** The last position of a patch named `n` in `ps`. */
  function LastOfName(ps: seq<Patch>, n: string): (k: nat)
    requires n in NamesOf(ps) || exists p | p in ps :: p.name == n
    ensures k < |ps| && ps[k].name == n && forall j | k < j < |ps| :: ps[j].name != n
    ensures n !in NamesOf(ps[k + 1..])
  {
    if ps[|ps| - 1].name == n then
      NoneAfter(ps, |ps| - 1, n);
      |ps| - 1
    else
      var init := ps[..|ps| - 1];
      assert n in NamesOf(init) by {
        var j :| 0 <= j < |ps| && ps[j].name == n;
        assert NamesOf(init)[j] == n;
      }
      var k := LastOfName(init, n);
      assert forall j | k < j < |ps| :: ps[j].name != n by {
        forall j | k < j < |ps| ensures ps[j].name != n {
          if j < |ps| - 1 { assert ps[j] == init[j]; }
        }
      }
      NoneAfter(ps, k, n);
      k
  }

  /** No patch after position `k` is named `n`, so its name is not among
      theirs. */
  lemma {:induction false} NoneAfter(ps: seq<Patch>, k: nat, n: string)
    requires k < |ps| && forall j | k < j < |ps| :: ps[j].name != n
    ensures n !in NamesOf(ps[k + 1..])
  {
    var ns := NamesOf(ps[k + 1..]);
    forall i | 0 <= i < |ns| ensures ns[i] != n {
      assert ps[k + 1..][i] == ps[k + 1 + i];
    }
  }

  lemma NamesOfConcat(a: seq<Patch>, b: seq<Patch>)
    ensures NamesOf(a + b) == NamesOf(a) + NamesOf(b)
  {
    assert |NamesOf(a + b)| == |NamesOf(a) + NamesOf(b)|;
    forall i | 0 <= i < |a + b| ensures NamesOf(a + b)[i] == (NamesOf(a) + NamesOf(b))[i] {
      if i < |a| { assert (a + b)[i] == a[i]; } else { assert (a + b)[i] == b[i - |a|]; }
    }
  }

  /** `remove_patch(name)`: drop the patch's line, and its dict entry. */
  function RemovePatch(s: PatchSeries, name: string): (r: Result<PatchSeries, QuiltError>)
    ensures r.Err? <==> !IsPatch(s, name)
    ensures r.Err? ==> r.error == InvalidPatch(name)
    ensures r.Ok? ==> (Valid(s) ==> Valid(r.value) && !IsPatch(r.value, name))
    ensures r.Ok? ==> forall n | n != name :: IsPatch(r.value, n) == IsPatch(s, n)
    ensures r.Ok? ==> Patches(r.value) == PatchesBefore(s, name).value + PatchesAfter(s, name).value
  {
    var i :- Position(s, name);
    var r := PatchSeries(s.rows[..i] + s.rows[i + 1..]);
    LinesOfConcat(s.rows[..i], s.rows[i + 1..]);
    assert LinesOf(s.rows[..i]) == LinesOf(s.rows)[..i];
    assert LinesOf(s.rows[i + 1..]) == LinesOf(s.rows)[i + 1..];
    PatchesOfConcat(LinesOf(s.rows)[..i], LinesOf(s.rows)[i + 1..]);
    RemoveKeeps(s, name, i, r);
    Ok(r)
  }

  lemma RemoveKeeps(s: PatchSeries, name: string, i: nat, r: PatchSeries)
    requires i < |s.rows| && Keyed(s.rows[i], name)
    requires r.rows == s.rows[..i] + s.rows[i + 1..]
    ensures Valid(s) ==> Valid(r) && !IsPatch(r, name)
    ensures forall n | n != name :: IsPatch(r, n) == IsPatch(s, n)
  {
    assert forall j | 0 <= j < i :: r.rows[j] == s.rows[j];
    assert forall j | i <= j < |r.rows| :: r.rows[j] == s.rows[j + 1];
    forall n | n != name ensures IsPatch(r, n) == IsPatch(s, n) {
      if IsPatch(s, n) {
        var j := Lookup(s.rows, n).value;
        var j' := if j < i then j else j - 1;
        assert Keyed(r.rows[j'], n);
        LookupFinds(r.rows, n, j');
      }
      if IsPatch(r, n) {
        var j := Lookup(r.rows, n).value;
        var j' := if j < i then j else j + 1;
        assert Keyed(s.rows[j'], n);
        LookupFinds(s.rows, n, j');
      }
    }
    if Valid(s) {
      forall j | 0 <= j < |r.rows| ensures !Keyed(r.rows[j], name) {
        var j' := if j < i then j else j + 1;
        assert r.rows[j] == s.rows[j'] && j' != i;
      }
    }
  }

  // ----------------------------------------------------------------- lemmas

  lemma {:induction false} PatchesOfConcat(a: seq<PatchLine>, b: seq<PatchLine>)
    ensures PatchesOf(a + b) == PatchesOf(a) + PatchesOf(b)
  {
    if a != [] {
      assert (a + b)[1..] == a[1..] + b;
      PatchesOfConcat(a[1..], b);
    } else {
      assert a + b == b;
    }
  }

  lemma LinesOfConcat(a: seq<Row>, b: seq<Row>)
    ensures LinesOf(a + b) == LinesOf(a) + LinesOf(b)
  {
  }

  /** The new rows' lines hold exactly the new patches. */
  lemma {:induction false} NewLines(ps: seq<Patch>)
    ensures PatchesOf(LinesOf(NewRows(ps))) == ps
  {
    if ps != [] {
      var ls := LinesOf(NewRows(ps));
      assert ls[1..] == LinesOf(NewRows(ps[1..]));
      NewLines(ps[1..]);
    }
  }

  /** The patches split around the line at `i`. */
  lemma Split(lines: seq<PatchLine>, i: nat)
    requires i < |lines| && lines[i].patch.Some?
    ensures PatchesOf(lines) == PatchesOf(lines[..i]) + [lines[i].patch.value] + PatchesOf(lines[i + 1..])
  {
    Around(lines, i);
    SplitAround(lines[..i], lines[i], lines[i + 1..]);
  }

  /** A sequence is what precedes its `i`-th element, the element, and what
      follows it. */
  lemma Around<T>(s: seq<T>, i: nat)
    requires i < |s|
    ensures s == s[..i] + [s[i]] + s[i + 1..]
  {
    assert s[i..] == [s[i]] + s[i + 1..];
  }

  lemma SplitAround(head: seq<PatchLine>, x: PatchLine, tail: seq<PatchLine>)
    requires x.patch.Some?
    ensures PatchesOf(head + [x] + tail) == PatchesOf(head) + [x.patch.value] + PatchesOf(tail)
  {
    PatchesOfConcat(head + [x], tail);
    PatchesOfConcat(head, [x]);
    assert [x][1..] == [];
  }

  /** A known patch splits the series: the patches before it, the patch
      itself, and the patches after it make up all the patches, and
      `patches_until` is the first part with the patch itself. */
  lemma Partition(s: PatchSeries, name: string)
    requires IsPatch(s, name)
    ensures var p := s.rows[Lookup(s.rows, name).value].line.patch.value;
            p.name == name
            && PatchesBefore(s, name).value + [p] + PatchesAfter(s, name).value == Patches(s)
            && PatchesUntil(s, name).value == PatchesBefore(s, name).value + [p]
  {
    var i := Lookup(s.rows, name).value;
    var lines := LinesOf(s.rows);
    Split(lines, i);
    assert lines[..i + 1] == lines[..i] + [lines[i]];
    PatchesOfConcat(lines[..i], [lines[i]]);
  }
}
