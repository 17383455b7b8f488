/** What `New.create` (quilt/new.py) and `Import._import_patches`
    (quilt/patchimport.py) share: new patches go into the series right after
    the top applied patch, or in front when nothing is applied, and the
    series is saved. The applied-patches database is read but never
    changed. */
module Insertion {

  import opened Wrappers
  import opened Errors
  import opened PyStr
  import opened Patching
  import opened SeriesLine
  import opened Series
  import opened SeriesLaws
  import opened SeriesDb
  import opened Queue

  /** `series.add_patches(patches, db.top_patch())`, then `series.save()`. */
  function AddAfterTop(st: Store, series: PatchSeries, db: PatchSeries, ps: seq<Patch>): (r: Result<Store, QuiltError>)
    ensures r.Ok? ==> r.value == st.(series := r.value.series) && r.value.series.Some?
    ensures Top(db).None? ==> r.Ok?
    ensures r.Err? ==> Top(db).Some?
                       && r.error == (if IsPatch(series, Top(db).value.name) then NotInList("index")
                                      else InvalidPatch(Top(db).value.name))
  {
    match AddPatches(series, ps, Top(db))
    case Err(e) => Err(e)
    case Ok(s1) => Ok(WithSeries(st, s1))
  }

  // ------------------------------------------------------------ the laws

  /** Names of patches around a splice point. */
  lemma {:induction false} NamesSplice(xs: seq<Patch>, ps: seq<Patch>, k: nat)
    requires k <= |xs|
    ensures NamesOf(xs[..k] + ps + xs[k..]) == NamesOf(xs)[..k] + NamesOf(ps) + NamesOf(xs)[k..]
  {
    var a := NamesOf(xs[..k] + ps + xs[k..]);
    var b := NamesOf(xs)[..k] + NamesOf(ps) + NamesOf(xs)[k..];
    assert |a| == |b|;
    forall j | 0 <= j < |a| ensures a[j] == b[j] {
      if j < k {
        assert (xs[..k] + ps + xs[k..])[j] == xs[j];
      } else if j < k + |ps| {
        assert (xs[..k] + ps + xs[k..])[j] == ps[j - k];
      } else {
        assert (xs[..k] + ps + xs[k..])[j] == xs[j - |ps|];
      }
    }
  }

  /** Distinct new names, none of them among distinct old ones, spliced in
      anywhere, give distinct names. */
  lemma {:induction false} DistinctSplice(ns: seq<string>, ms: seq<string>, k: nat)
    requires k <= |ns| && Distinct(ns) && Distinct(ms)
    requires forall j | 0 <= j < |ms| :: ms[j] !in ns
    ensures Distinct(ns[..k] + ms + ns[k..])
  {
    var r := ns[..k] + ms + ns[k..];
    forall i, j | 0 <= i < j < |r| ensures r[i] != r[j] {
      var x := if i < k then ns[i] else if i < k + |ms| then ms[i - k] else ns[i - |ms|];
      var y := if j < k then ns[j] else if j < k + |ms| then ms[j - k] else ns[j - |ms|];
      assert r[i] == x && r[j] == y;
      if i < k && k + |ms| <= j {
        assert ns[i] != ns[j - |ms|];
      }
      if k <= i < k + |ms| && k + |ms| <= j {
        assert ns[j - |ms|] in ns;
      }
      if i < k && k <= j < k + |ms| {
        assert ns[i] in ns;
      }
    }
  }

  /** Plain names spliced into plain names stay plain. */
  lemma {:induction false} PlainSplice(ns: seq<string>, ms: seq<string>, k: nat)
    requires k <= |ns|
    requires forall j | 0 <= j < |ns| :: PlainName(ns[j])
    requires forall j | 0 <= j < |ms| :: PlainName(ms[j])
    ensures forall j | 0 <= j < |ns[..k] + ms + ns[k..]| :: PlainName((ns[..k] + ms + ns[k..])[j])
  {
    var r := ns[..k] + ms + ns[k..];
    forall j | 0 <= j < |r| ensures PlainName(r[j]) {
      if j < k { assert r[j] == ns[j]; }
      else if j < k + |ms| { assert r[j] == ms[j - k]; }
      else { assert r[j] == ns[j - |ms|]; }
    }
  }

  /** The new patches are unknown to an exact series that lists none of them. */
  lemma {:induction false} NoneKnown(s: PatchSeries, ps: seq<Patch>)
    requires Exact(s) && forall j | 0 <= j < |ps| :: ps[j].name !in Names(s)
    ensures forall p | p in ps :: !IsPatch(s, p.name)
  {
    forall p | p in ps ensures !IsPatch(s, p.name) {
      var j :| 0 <= j < |ps| && ps[j] == p;
      KnownIffListed(s, p.name);
    }
  }

  /** Adding fresh, distinct, plain names to an exact series of stable
      lines after the patch at position `k - 1`, or in front for `k == 0`,
      puts them at position `k` and keeps the lines stable. */
  lemma {:induction false} SpliceAfter(s: PatchSeries, ps: seq<Patch>, after: Option<Patch>, k: nat) returns (s1: PatchSeries)
    requires Exact(s) && StableLines(LinesOf(s.rows)) && k <= |Patches(s)|
    requires after.None? ==> k == 0
    requires after.Some? ==> 0 < k && Patches(s)[k - 1].name == after.value.name
    requires Distinct(NamesOf(ps)) && forall j | 0 <= j < |ps| :: PlainName(ps[j].name)
    requires forall j | 0 <= j < |ps| :: ps[j].name !in Names(s)
    ensures AddPatches(s, ps, after) == Ok(s1)
    ensures Patches(s1) == Patches(s)[..k] + ps + Patches(s)[k..]
    ensures StableLines(LinesOf(s1.rows))
  {
    NoneKnown(s, ps);
    if after.None? {
      s1 := InsertPatches(s, ps);
      assert s1 == Splice(s, ps, 0);
      SpliceStable(s, ps, 0);
      assert Patches(s)[..0] == [] && Patches(s)[0..] == Patches(s);
    } else {
      var name := after.value.name;
      ExactPosition(s, k - 1);
      assert name in Names(s) by { assert Names(s)[k - 1] == name; }
      assert name !in NamesOf(ps) by {
        forall j | 0 <= j < |ps| ensures NamesOf(ps)[j] != name {
          assert ps[j].name !in Names(s);
        }
      }
      var i := Position(s, name).value;
      s1 := Splice(s, ps, i + 1);
      SpliceStable(s, ps, i + 1);
    }
  }

  /** In a consistent store, with fresh, distinct and plain names, the
      series after `add_patches` holds the applied patches, the new ones,
      and the rest, in that order, on stable lines. */
  lemma {:induction false} AddAfterTopSeries(st: Store, ps: seq<Patch>) returns (s1: PatchSeries)
    requires Consistent(st)
    requires Distinct(NamesOf(ps)) && forall j | 0 <= j < |ps| :: PlainName(ps[j].name)
    requires forall j | 0 <= j < |ps| :: ps[j].name !in Names(Read(st.series))
    ensures var s := Read(st.series);
            var k := |Patches(Read(st.applied))|;
            k <= |Patches(s)|
            && AddPatches(s, ps, Top(Read(st.applied))) == Ok(s1)
            && Patches(s1) == Patches(s)[..k] + ps + Patches(s)[k..]
            && StableLines(LinesOf(s1.rows))
  {
    ConsistentExact(st);
    AppliedPrefix(st);
    ReadStable(st.series);
    s1 := SpliceAfterTop(Read(st.series), Read(st.applied), ps);
  }

  /** The same for a series and a database whose names start it. */
  lemma {:induction false} SpliceAfterTop(s: PatchSeries, db: PatchSeries, ps: seq<Patch>) returns (s1: PatchSeries)
    requires Exact(s) && StableLines(LinesOf(s.rows))
    requires |Patches(db)| <= |Patches(s)| && Names(db) == Names(s)[..|Patches(db)|]
    requires Distinct(NamesOf(ps)) && forall j | 0 <= j < |ps| :: PlainName(ps[j].name)
    requires forall j | 0 <= j < |ps| :: ps[j].name !in Names(s)
    ensures var k := |Patches(db)|;
            AddPatches(s, ps, Top(db)) == Ok(s1)
            && Patches(s1) == Patches(s)[..k] + ps + Patches(s)[k..]
            && StableLines(LinesOf(s1.rows))
  {
    var k := |Patches(db)|;
    if k > 0 {
      assert Names(db)[k - 1] == Names(s)[k - 1];
    }
    s1 := SpliceAfter(s, ps, Top(db), k);
  }

  /** In a consistent store, with fresh, distinct and plain names, adding
      after the top succeeds and changes only the series file, which then
      lists the applied patches, the new ones and the rest, in that order;
      the store stays consistent. */
  lemma {:induction false} AddAfterTopPlaces(st: Store, ps: seq<Patch>)
    requires Consistent(st)
    requires Distinct(NamesOf(ps)) && forall j | 0 <= j < |ps| :: PlainName(ps[j].name)
    requires forall j | 0 <= j < |ps| :: ps[j].name !in Names(Read(st.series))
    ensures var s := Names(Read(st.series));
            var k := |Names(Read(st.applied))|;
            var r := AddAfterTop(st, Read(st.series), Read(st.applied), ps);
            k <= |s| && r.Ok? && r.value == st.(series := r.value.series)
            && Names(Read(r.value.series)) == s[..k] + NamesOf(ps) + s[k..]
            && Consistent(r.value)
  {
    var s1 := AddAfterTopSeries(st, ps);
    var s := Read(st.series);
    var k := |Patches(Read(st.applied))|;
    SavedNames(s1);
    NamesSplice(Patches(s), ps, k);
    AppliedPrefix(st);
    FreshSplice(Names(s), ps, k);
    SeriesConsistent(st, WithSeries(st, s1));
  }

  /** Fresh, distinct, plain names spliced into distinct plain names keep
      them distinct and plain, and keep the names before the splice point. */
  lemma {:induction false} FreshSplice(ns: seq<string>, ps: seq<Patch>, k: nat)
    requires k <= |ns| && Distinct(ns) && forall j | 0 <= j < |ns| :: PlainName(ns[j])
    requires Distinct(NamesOf(ps)) && forall j | 0 <= j < |ps| :: PlainName(ps[j].name)
    requires forall j | 0 <= j < |ps| :: ps[j].name !in ns
    ensures var r := ns[..k] + NamesOf(ps) + ns[k..];
            Distinct(r) && (forall j | 0 <= j < |r| :: PlainName(r[j])) && ns[..k] <= r
  {
    var ms := NamesOf(ps);
    assert forall j | 0 <= j < |ms| :: ms[j] !in ns && PlainName(ms[j]) by {
      forall j | 0 <= j < |ms| ensures ms[j] !in ns && PlainName(ms[j]) {
        assert ms[j] == ps[j].name;
      }
    }
    DistinctSplice(ns, ms, k);
    PlainSplice(ns, ms, k);
  }

  /** The same for one patch. */
  lemma {:induction false} AddOneAfterTop(st: Store, p: Patch)
    requires Consistent(st) && PlainName(p.name) && p.name !in Names(Read(st.series))
    ensures var s := Names(Read(st.series));
            var k := |Names(Read(st.applied))|;
            var r := AddAfterTop(st, Read(st.series), Read(st.applied), [p]);
            k <= |s| && r.Ok? && r.value == st.(series := r.value.series)
            && Names(Read(r.value.series)) == s[..k] + [p.name] + s[k..]
            && Consistent(r.value)
  {
    assert NamesOf([p]) == [p.name];
    AddAfterTopPlaces(st, [p]);
  }
}
