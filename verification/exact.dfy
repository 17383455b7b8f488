/** Laws of a series whose every patch line is in the dict (`Exact`): the
    series read from a file without repeated names, and every series the
    queue commands make from one when they add only new names. In such a
    series the names are distinct and a name's position among the patches
    decides every positional query. */
module SeriesLaws {

  import opened Wrappers
  import opened Patching
  import opened SeriesLine
  import opened Series

  predicate Distinct(ns: seq<string>) {
    forall i, j | 0 <= i < j < |ns| :: ns[i] != ns[j]
  }

  /** Every patch line is in the dict. */
  ghost predicate AllKeyed(rows: seq<Row>) {
    forall i | 0 <= i < |rows| && rows[i].line.patch.Some? :: rows[i].indexed
  }

  /** Each patch of some lines comes from one of the lines. */
  lemma {:induction false} PatchOrigin(lines: seq<PatchLine>, k: nat)
    requires k < |PatchesOf(lines)|
    ensures exists j | 0 <= j < |lines| :: lines[j].patch == Some(PatchesOf(lines)[k])
  {
    assert lines != [];
    match lines[0].patch
    case None =>
      PatchOrigin(lines[1..], k);
      var j :| 0 <= j < |lines[1..]| && lines[1..][j].patch == Some(PatchesOf(lines[1..])[k]);
      assert lines[j + 1] == lines[1..][j];
    case Some(p) =>
      if k > 0 {
        PatchOrigin(lines[1..], k - 1);
        var j :| 0 <= j < |lines[1..]| && lines[1..][j].patch == Some(PatchesOf(lines[1..])[k - 1]);
        assert lines[j + 1] == lines[1..][j];
      }
  }

  /** In an exact series no two patches share a name. */
  lemma ExactDistinct(s: PatchSeries)
    requires Exact(s)
    ensures Distinct(NamesOf(Patches(s)))
  {
    RowsDistinct(s.rows);
  }

  lemma {:induction false} RowsDistinct(rows: seq<Row>)
    requires ValidRows(rows) && AllKeyed(rows)
    ensures Distinct(NamesOf(PatchesOf(LinesOf(rows))))
  {
    if rows != [] {
      var rest := rows[1..];
      assert ValidRows(rest) && AllKeyed(rest) by {
        assert rows == [rows[0]] + rest;
        SplitValid([rows[0]], rest);
        forall i | 0 <= i < |rest| && rest[i].line.patch.Some? ensures rest[i].indexed {
          assert rest[i] == rows[i + 1];
        }
      }
      RowsDistinct(rest);
      var tailPs := PatchesOf(LinesOf(rest));
      assert LinesOf(rows)[1..] == LinesOf(rest);
      match rows[0].line.patch
      case None =>
        assert PatchesOf(LinesOf(rows)) == tailPs;
      case Some(p) =>
        assert PatchesOf(LinesOf(rows)) == [p] + tailPs;
        HeadNotInTail(rows);
        DistinctCons(p.name, NamesOf(tailPs));
        assert NamesOf([p] + tailPs) == [p.name] + NamesOf(tailPs);
    }
  }

  /** The first patch line's name is not used again further down. */
  lemma HeadNotInTail(rows: seq<Row>)
    requires ValidRows(rows) && AllKeyed(rows)
    requires rows != [] && rows[0].line.patch.Some?
    ensures rows[0].line.patch.value.name !in NamesOf(PatchesOf(LinesOf(rows[1..])))
  {
    var rest := rows[1..];
    var tailPs := PatchesOf(LinesOf(rest));
    var n := rows[0].line.patch.value.name;
    forall k | 0 <= k < |tailPs| ensures tailPs[k].name != n {
      PatchOrigin(LinesOf(rest), k);
      var m :| 0 <= m < |LinesOf(rest)| && LinesOf(rest)[m].patch == Some(tailPs[k]);
      assert rows[m + 1] == rest[m];
      assert rows[m + 1].indexed;
    }
  }

  lemma DistinctCons(n: string, ns: seq<string>)
    requires Distinct(ns) && n !in ns
    ensures Distinct([n] + ns)
  {
    var all := [n] + ns;
    forall i, j | 0 <= i < j < |all| ensures all[i] != all[j] {
      assert all[j] == ns[j - 1];
      if i > 0 { assert all[i] == ns[i - 1]; }
    }
  }

  /** In an exact series the dict knows every patch, and the positional
      queries split the patches at the patch's own position. */
  lemma ExactPosition(s: PatchSeries, k: nat)
    requires Exact(s) && k < |Patches(s)|
    ensures var ps := Patches(s);
            var name := ps[k].name;
            IsPatch(s, name)
            && PatchesBefore(s, name) == Ok(ps[..k])
            && PatchesAfter(s, name) == Ok(ps[k + 1..])
            && PatchesUntil(s, name) == Ok(ps[..k + 1])
  {
    var ps := Patches(s);
    var name := ps[k].name;
    PatchOrigin(LinesOf(s.rows), k);
    var j :| 0 <= j < |s.rows| && LinesOf(s.rows)[j].patch == Some(ps[k]);
    assert Keyed(s.rows[j], name);
    LookupFinds(s.rows, name, j);
    Partition(s, name);
    var before := PatchesBefore(s, name).value;
    ExactDistinct(s);
    assert ps[|before|].name == name;
    assert ps == before + [ps[k]] + PatchesAfter(s, name).value;
    assert PatchesAfter(s, name).value == ps[k + 1..];
  }

  /** `patch_after` and the corrected `patch_before` give the neighbours of
      a patch in the series; `patch_before` as written gives the first patch
      whenever there is any patch before. */
  lemma Neighbours(s: PatchSeries, k: nat)
    requires Exact(s) && k < |Patches(s)|
    ensures var ps := Patches(s);
            var name := ps[k].name;
            PatchAfter(s, name) == Ok(if k + 1 < |ps| then Some(ps[k + 1]) else None)
            && PatchBefore(s, name) == Ok(if k > 0 then Some(ps[k - 1]) else None)
            && PatchBeforeAsWritten(s, name) == Ok(if k > 0 then Some(ps[0]) else None)
  {
    ExactPosition(s, k);
  }

  /** The top patch has no patch after it, and the first patch none before
      it, by either reading of `patch_before`. */
  lemma Ends(s: PatchSeries)
    requires Exact(s)
    ensures Top(s).Some? ==> PatchAfter(s, Top(s).value.name) == Ok(None)
    ensures First(s).Some? ==> PatchBefore(s, First(s).value.name) == Ok(None)
                               && PatchBeforeAsWritten(s, First(s).value.name) == Ok(None)
  {
    if Patches(s) != [] {
      Neighbours(s, |Patches(s)| - 1);
      Neighbours(s, 0);
    }
  }

  /** `add_patch` makes the appended patch the top and keeps the first one. */
  lemma AppendedIsTop(s: PatchSeries, p: Patch)
    ensures var r := AddLine(s, MakeLine(Obj(p)));
            Top(r) == Some(p) && (First(s).Some? ==> First(r) == First(s))
  {
    var line := MakeLine(Obj(p));
    assert [line][1..] == [];
    assert PatchesOf([line]) == [p];
  }

  /** `insert_patches` makes the first inserted patch the first one and
      keeps the top, if there was one. */
  lemma InsertedIsFirst(s: PatchSeries, ps: seq<Patch>)
    requires ps != []
    ensures var r := InsertPatches(s, ps);
            First(r) == Some(ps[0]) && (Top(s).Some? ==> Top(r) == Top(s))
  {
  }

  /** The as-written `patch_before` is wrong for every patch with at least
      two patches before it. */
  lemma PatchBeforeDiffers(s: PatchSeries, k: nat)
    requires Exact(s) && 2 <= k < |Patches(s)|
    ensures PatchBeforeAsWritten(s, Patches(s)[k].name) != PatchBefore(s, Patches(s)[k].name)
  {
    Neighbours(s, k);
    ExactDistinct(s);
    assert NamesOf(Patches(s))[0] != NamesOf(Patches(s))[k - 1];
  }

  /** Appending a line whose name is new keeps a series exact. */
  lemma AddLineExact(s: PatchSeries, line: PatchLine)
    requires Exact(s)
    requires line.patch.Some? ==> !IsPatch(s, line.patch.value.name)
    ensures Exact(AddLine(s, line))
  {
    var r := AddLine(s, line);
    if line.patch.Some? {
      var name := line.patch.value.name;
      forall i | 0 <= i < |s.rows| && s.rows[i].line.patch.Some?
        ensures s.rows[i].line.patch.value.name != name
      {
        assert !Keyed(s.rows[i], name);
      }
      assert r.rows == Unindex(s.rows, [name]) + [Row(line, true)];
      forall i | 0 <= i < |r.rows| && r.rows[i].line.patch.Some? ensures r.rows[i].indexed {
        if i < |s.rows| {
          assert r.rows[i] == Unindex(s.rows, [name])[i];
        }
      }
    } else {
      assert r.rows == s.rows + [Row(line, false)];
      forall i | 0 <= i < |r.rows| && r.rows[i].line.patch.Some? ensures r.rows[i].indexed {
        assert r.rows[i] == s.rows[i];
      }
    }
  }

  /** New rows, then old rows whose dict lost the new names, are all keyed
      when the new names are distinct and unknown to the old series. */
  lemma InsertAllKeyed(s: PatchSeries, ps: seq<Patch>, head: seq<Row>, tail: seq<Row>, r: PatchSeries)
    requires Exact(s) && s.rows == head + tail
    requires Distinct(NamesOf(ps)) && forall p | p in ps :: !IsPatch(s, p.name)
    requires r.rows == Unindex(head, NamesOf(ps)) + NewRows(ps) + Unindex(tail, NamesOf(ps))
    ensures AllKeyed(r.rows)
  {
    var names := NamesOf(ps);
    UnknownNames(s, ps);
    SplitOther(s.rows, head, tail, names);
    UnindexNoop(head, names);
    UnindexNoop(tail, names);
    NewRowsKeyed(ps);
    AllKeyedConcat(head, NewRows(ps));
    AllKeyedConcat(head + NewRows(ps), tail);
  }

  /** Rows holding none of `names` are left alone by taking them out of the dict. */
  predicate Other(rows: seq<Row>, names: seq<string>) {
    forall i | 0 <= i < |rows| && rows[i].line.patch.Some? :: rows[i].line.patch.value.name !in names
  }

  lemma UnknownNames(s: PatchSeries, ps: seq<Patch>)
    requires Exact(s) && forall p | p in ps :: !IsPatch(s, p.name)
    ensures Other(s.rows, NamesOf(ps))
  {
    var names := NamesOf(ps);
    forall i | 0 <= i < |s.rows| && s.rows[i].line.patch.Some?
      ensures s.rows[i].line.patch.value.name !in names
    {
      var n := s.rows[i].line.patch.value.name;
      assert Keyed(s.rows[i], n);
      LookupFinds(s.rows, n, i);
      forall k | 0 <= k < |ps| ensures names[k] != n {
        assert ps[k] in ps;
      }
    }
  }

  lemma SplitOther(rows: seq<Row>, head: seq<Row>, tail: seq<Row>, names: seq<string>)
    requires rows == head + tail && Other(rows, names) && AllKeyed(rows)
    ensures Other(head, names) && Other(tail, names) && AllKeyed(head) && AllKeyed(tail)
  {
    assert forall i | 0 <= i < |head| :: head[i] == rows[i];
    assert forall i | 0 <= i < |tail| :: tail[i] == rows[|head| + i];
  }

  lemma UnindexNoop(rows: seq<Row>, names: seq<string>)
    requires Other(rows, names)
    ensures Unindex(rows, names) == rows
  {
  }

  lemma NewRowsKeyed(ps: seq<Patch>)
    requires Distinct(NamesOf(ps))
    ensures AllKeyed(NewRows(ps))
  {
  }

  lemma AllKeyedConcat(a: seq<Row>, b: seq<Row>)
    requires AllKeyed(a) && AllKeyed(b)
    ensures AllKeyed(a + b)
  {
    forall i | 0 <= i < |a + b| && (a + b)[i].line.patch.Some? ensures (a + b)[i].indexed {
      if i < |a| { assert (a + b)[i] == a[i]; } else { assert (a + b)[i] == b[i - |a|]; }
    }
  }

  /** Inserting distinct new names keeps a series exact. */
  lemma SpliceExact(s: PatchSeries, ps: seq<Patch>, at: nat)
    requires at <= |s.rows|
    requires Exact(s) && Distinct(NamesOf(ps)) && forall p | p in ps :: !IsPatch(s, p.name)
    ensures Exact(Splice(s, ps, at))
  {
    var head := s.rows[..at];
    var tail := s.rows[at..];
    assert s.rows == head + tail;
    InsertAllKeyed(s, ps, head, tail, Splice(s, ps, at));
  }

  lemma AddPatchesExact(s: PatchSeries, ps: seq<Patch>, after: Option<Patch>)
    requires Exact(s) && Distinct(NamesOf(ps)) && forall p | p in ps :: !IsPatch(s, p.name)
    requires AddPatches(s, ps, after).Ok?
    ensures Exact(AddPatches(s, ps, after).value)
  {
    if after.None? {
      SpliceExact(s, ps, 0);
    } else {
      SpliceExact(s, ps, Position(s, after.value.name).value + 1);
    }
  }

  /** Removing a patch keeps a series exact; its patches lose exactly the
      patch's position. */
  lemma RemoveExact(s: PatchSeries, k: nat)
    requires Exact(s) && k < |Patches(s)|
    ensures var name := Patches(s)[k].name;
            RemovePatch(s, name).Ok?
            && Exact(RemovePatch(s, name).value)
            && Patches(RemovePatch(s, name).value) == Patches(s)[..k] + Patches(s)[k + 1..]
  {
    var name := Patches(s)[k].name;
    ExactPosition(s, k);
    var i := Position(s, name).value;
    var r := RemovePatch(s, name).value;
    assert r.rows == s.rows[..i] + s.rows[i + 1..];
    forall j | 0 <= j < |r.rows| && r.rows[j].line.patch.Some? ensures r.rows[j].indexed {
      if j < i { assert r.rows[j] == s.rows[j]; } else { assert r.rows[j] == s.rows[j + 1]; }
    }
  }
}
