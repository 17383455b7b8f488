/** The Patch value of quilt/patch.py: its identity, the `patch` command line
    that `Patch.run` builds, and `Patch.get_header`. */
module Patching {

  import opened Wrappers
  import opened PyStr
  import opened Errors

  /** A patch of the queue. `strip` holds the text `str(strip)` gives, since the
      command line is all it is used for. */
  datatype Patch = Patch(name: string, strip: string, reverse: bool)

  /** `Patch(name)` with the constructor's defaults strip=1, reverse=False. */
  function NewPatch(name: string): (p: Patch)
    ensures p.name == name && p.strip == "1" && !p.reverse
  {
    Patch(name, "1", false)
  }

  /** `Patch.__eq__`: two patches are the same patch when their names are. */
  predicate SamePatch(a: Patch, b: Patch) {
    a.name == b.name
  }

  /** `p in ps` on a list of patches: membership through `Patch.__eq__`. */
  predicate InList(p: Patch, ps: seq<Patch>) {
    exists i | 0 <= i < |ps| :: SamePatch(ps[i], p)
  }

  /** The keyword arguments of `Patch.run`. Directory arguments are paths;
      `None` and the empty path both count as "not given", as they do for the
      source's truth tests. */
  datatype RunOptions = RunOptions(
    patchDir: Option<string>,
    backup: bool,
    prefix: Option<string>,
    reverse: bool,
    workDir: Option<string>,
    force: bool,
    dryRun: bool,
    noBackupIfMismatch: bool,
    removeEmptyFiles: bool,
    quiet: bool)

  predicate Given(o: Option<string>) {
    o.Some? && o.value != []
  }

  /** What an invocation of `patch` asks for, independent of its spelling. */
  datatype Invocation = Invocation(
    strip: string,
    backup: bool,
    prefix: Option<string>,
    reverse: bool,
    workDir: Option<string>,
    noBackupIfMismatch: bool,
    removeEmptyFiles: bool,
    force: bool,
    input: string,
    quiet: bool,
    dryRun: bool)

  /** The path of the patch file `run` passes after `-i`. */
  function InputPath(p: Patch, o: RunOptions): string {
    if Given(o.patchDir) then Join(o.patchDir.value, p.name) else p.name
  }

  /** The prefix with a trailing separator, as `run` normalises it. */
  function WithSeparator(prefix: string): (r: string)
    requires prefix != []
    ensures r != [] && r[|r| - 1] == '/'
    ensures StartsWith(r, prefix)
  {
    if prefix[|prefix| - 1] == '/' then prefix else prefix + "/"
  }

  /** The optional elements of the command line `Patch.run` may emit. */
  datatype Opt =
    | Backup | Prefix | Reverse | WorkDir | NoBackupIfMismatch
    | RemoveEmptyFiles | Force | Input | Quiet | DryRun

  /** The flag that spells an option on the command line. */
  function FlagOf(o: Opt): string {
    match o
    case Backup => "--backup"
    case Prefix => "--prefix"
    case Reverse => "-R"
    case WorkDir => "-d"
    case NoBackupIfMismatch => "--no-backup-if-mismatch"
    case RemoveEmptyFiles => "--remove-empty-files"
    case Force => "-f"
    case Input => "-i"
    case Quiet => "-s"
    case DryRun => "--dry-run"
  }

  /** Options whose flag is followed by a value. */
  predicate TakesValue(o: Opt) {
    o == Prefix || o == WorkDir || o == Input
  }

  /** The options after "patch" and "-p<strip>", in the order `run` appends them. */
  const PatchOpts: seq<Opt> := [
    Backup, Prefix, Reverse, WorkDir, NoBackupIfMismatch, RemoveEmptyFiles, Force,
    Input, Quiet, DryRun]

  /** A switch's setting as a slot value: present (with no text) or absent. */
  function On(b: bool): Option<string> {
    if b then Some("") else None
  }

  /** The option values of an invocation, in `PatchOpts` order. */
  function SlotValues(inv: Invocation): seq<Option<string>> {
    [On(inv.backup), inv.prefix, On(inv.reverse), inv.workDir, On(inv.noBackupIfMismatch),
     On(inv.removeEmptyFiles), On(inv.force), Some(inv.input), On(inv.quiet), On(inv.dryRun)]
  }

  /** The invocation `Patch.run` makes of patch `p` with options `o`: the
      reverse flag is the XOR of the call's and the patch's own, the prefix
      gains a trailing separator, and the input is the patch path. */
  function Intended(p: Patch, o: RunOptions): Invocation {
    Invocation(
      p.strip,
      o.backup,
      if Given(o.prefix) then Some(WithSeparator(o.prefix.value)) else None,
      o.reverse != p.reverse,
      if Given(o.workDir) then o.workDir else None,
      o.noBackupIfMismatch,
      o.removeEmptyFiles,
      o.force,
      InputPath(p, o),
      o.quiet,
      o.dryRun)
  }

  /** The command line `Patch.run` builds: "patch", "-p<strip>", then each
      option of `PatchOpts` that the options ask for, in that order. What it
      states is that `patch` reads back exactly the intended invocation. */
  function PatchArgv(p: Patch, o: RunOptions): (argv: seq<string>)
    ensures |argv| >= 2 && argv[..2] == ["patch", "-p" + p.strip]
    ensures DecodeArgv(argv) == Some(Intended(p, o))
  {
    var argv := ["patch", "-p" + p.strip] + Spell(PatchOpts, SlotValues(Intended(p, o)));
    DecodePatchArgv(Intended(p, o));
    argv
  }

  /** Any invocation survives spelling and reading back. */
  lemma DecodePatchArgv(inv: Invocation)
    ensures DecodeArgv(["patch", "-p" + inv.strip] + Spell(PatchOpts, SlotValues(inv))) == Some(inv)
  {
    var vals := SlotValues(inv);
    var argv := ["patch", "-p" + inv.strip] + Spell(PatchOpts, vals);
    assert argv[2..] == Spell(PatchOpts, vals);
    SlotValuesWellSpelled(inv);
    PatchFlagsDistinct();
    ReadSpell(PatchOpts, vals);
    assert argv[1][2..] == inv.strip;
  }

  lemma SlotValuesWellSpelled(inv: Invocation)
    ensures WellSpelled(PatchOpts, SlotValues(inv))
  {
    var vals := SlotValues(inv);
    forall i | 0 <= i < |PatchOpts| && !TakesValue(PatchOpts[i]) && vals[i].Some?
      ensures vals[i].value == ""
    {
    }
  }

  /** The tokens of the options with the given values. */
  function Spell(opts: seq<Opt>, vals: seq<Option<string>>): seq<string>
    requires |opts| == |vals|
  {
    if opts == [] then []
    else
      var head :=
        if vals[0].None? then []
        else if TakesValue(opts[0]) then [FlagOf(opts[0]), vals[0].value]
        else [FlagOf(opts[0])];
      head + Spell(opts[1..], vals[1..])
  }

  // ---- Reading a command line back -------------------------------------------

  /** Reads option values back from tokens. Values are taken positionally after
      their flag, so a value that looks like a flag is still read as a value. */
  function ReadSlots(opts: seq<Opt>, args: seq<string>): (r: Option<seq<Option<string>>>)
    ensures r.Some? ==> |r.value| == |opts|
  {
    if opts == [] then (if args == [] then Some([]) else None)
    else if !TakesValue(opts[0]) && args != [] && args[0] == FlagOf(opts[0]) then
      var rest :- ReadSlots(opts[1..], args[1..]);
      Some([Some("")] + rest)
    else if TakesValue(opts[0]) && |args| >= 2 && args[0] == FlagOf(opts[0]) then
      var rest :- ReadSlots(opts[1..], args[2..]);
      Some([Some(args[1])] + rest)
    else
      var rest :- ReadSlots(opts[1..], args);
      Some([None] + rest)
  }

  /** The invocation a `patch` command line spells, if it has the shape
      `Patch.run` produces. */
  function DecodeArgv(argv: seq<string>): Option<Invocation> {
    if |argv| < 2 || argv[0] != "patch" || !StartsWith(argv[1], "-p") then None
    else
      var v :- ReadSlots(PatchOpts, argv[2..]);
      if v[7].None? then None
      else Some(Invocation(argv[1][2..], v[0].Some?, v[1], v[2].Some?, v[3], v[4].Some?,
                           v[5].Some?, v[6].Some?, v[7].value, v[8].Some?, v[9].Some?))
  }

  /** No two of the options share a flag. */
  predicate DistinctFlags(opts: seq<Opt>) {
    forall i, j | 0 <= i < j < |opts| :: FlagOf(opts[i]) != FlagOf(opts[j])
  }

  /** A fingerprint of a string from its length and last character. */
  function Key(s: string): int {
    if s == [] then 0 else |s| * 256 + (s[|s| - 1] as int) % 256
  }

  /** Different options have different flags: their fingerprints already differ. */
  lemma FlagOfInjective(a: Opt, b: Opt)
    ensures FlagOf(a) == FlagOf(b) ==> a == b
  {
    if FlagOf(a) == FlagOf(b) {
      assert Key(FlagOf(a)) == Key(FlagOf(b));
    }
  }

  lemma PatchFlagsDistinct()
    ensures DistinctFlags(PatchOpts)
  {
    forall i, j | 0 <= i < j < |PatchOpts| ensures FlagOf(PatchOpts[i]) != FlagOf(PatchOpts[j]) {
      FlagOfInjective(PatchOpts[i], PatchOpts[j]);
    }
  }

  /** Switch values carry no text. */
  predicate WellSpelled(opts: seq<Opt>, vals: seq<Option<string>>) {
    |opts| == |vals|
    && forall i | 0 <= i < |opts| :: !TakesValue(opts[i]) && vals[i].Some? ==> vals[i].value == ""
  }

  lemma {:induction false} SpellStartsWithFlag(opts: seq<Opt>, vals: seq<Option<string>>)
    requires |opts| == |vals|
    ensures Spell(opts, vals) != [] ==>
              exists k | 0 <= k < |opts| :: Spell(opts, vals)[0] == FlagOf(opts[k])
  {
    if opts != [] && vals[0].None? {
      SpellStartsWithFlag(opts[1..], vals[1..]);
      if Spell(opts, vals) != [] {
        var k :| 0 <= k < |opts[1..]| && Spell(opts, vals)[0] == FlagOf(opts[1..][k]);
        assert opts[1..][k] == opts[k + 1];
      }
    }
  }

  /** Spelling and reading are inverse when the flags are distinct. */
  lemma {:induction false} ReadSpell(opts: seq<Opt>, vals: seq<Option<string>>)
    requires WellSpelled(opts, vals)
    requires DistinctFlags(opts)
    ensures ReadSlots(opts, Spell(opts, vals)) == Some(vals)
  {
    if opts != [] {
      var rest := Spell(opts[1..], vals[1..]);
      assert WellSpelled(opts[1..], vals[1..]) by {
        forall i | 0 <= i < |opts[1..]| ensures opts[1..][i] == opts[i + 1] {}
      }
      assert DistinctFlags(opts[1..]) by {
        forall i, j | 0 <= i < j < |opts[1..]|
          ensures FlagOf(opts[1..][i]) != FlagOf(opts[1..][j])
        {
          assert opts[1..][i] == opts[i + 1] && opts[1..][j] == opts[j + 1];
        }
      }
      ReadSpell(opts[1..], vals[1..]);
      SpellStartsWithFlag(opts[1..], vals[1..]);
      assert rest != [] ==> rest[0] != FlagOf(opts[0]) by {
        if rest != [] {
          var k :| 0 <= k < |opts[1..]| && rest[0] == FlagOf(opts[1..][k]);
          assert opts[1..][k] == opts[k + 1];
        }
      }
      if vals[0].None? {
        assert Spell(opts, vals) == rest;
      } else if TakesValue(opts[0]) {
        assert Spell(opts, vals) == [FlagOf(opts[0]), vals[0].value] + rest;
        assert Spell(opts, vals)[2..] == rest;
      } else {
        assert Spell(opts, vals) == [FlagOf(opts[0])] + rest;
        assert Spell(opts, vals)[1..] == rest;
      }
      assert vals == [vals[0]] + vals[1..];
    }
  }

  // ---- get_header ------------------------------------------------------------

  /** `Patch.get_header` on the patch file's content: the lines before the first
      one that starts with "---" or "Index:". A missing file raises IOError. */
  function Header(file: Option<string>, path: string): Result<string, QuiltError> {
    if file.None? then Err(NoSuchFile(path))
    else Ok(Concat(HeaderLines(Lines(file.value))))
  }

  predicate IsHunkStart(line: string) {
    StartsWith(line, "---") || StartsWith(line, "Index:")
  }

  /** The longest prefix of `lines` none of which starts a diff. */
  function HeaderLines(lines: seq<string>): (h: seq<string>)
    ensures h <= lines
    ensures forall i | 0 <= i < |h| :: !IsHunkStart(h[i])
    ensures |h| < |lines| ==> IsHunkStart(lines[|h|])
  {
    if lines == [] || IsHunkStart(lines[0]) then []
    else [lines[0]] + HeaderLines(lines[1..])
  }

  function Concat(lines: seq<string>): string {
    if lines == [] then "" else lines[0] + Concat(lines[1..])
  }

  /** The lines `for line in f` yields: each piece up to and including a '\n',
      then the remainder if it is not empty. */
  function Lines(text: string): (ls: seq<string>)
    ensures Concat(ls) == text
    ensures forall i | 0 <= i < |ls| :: ls[i] != []
    ensures forall i | 0 <= i < |ls| :: '\n' !in ls[i][..|ls[i]| - 1]
    decreases |text|
  {
    if text == [] then []
    else
      var k := Find(text, '\n');
      if k == |text| then [text]
      else [text[..k + 1]] + Lines(text[k + 1..])
  }

  lemma {:induction false} ConcatPrefix(a: seq<string>, b: seq<string>)
    requires a <= b
    ensures Concat(a) <= Concat(b)
  {
    if a != [] {
      assert a[1..] <= b[1..];
      ConcatPrefix(a[1..], b[1..]);
    }
  }

  /** The header is a prefix of the file: the concatenation of its lines up
      to, not including, the first line that starts a diff, or all of them
      when none does. */
  lemma HeaderIsPrefix(text: string)
    ensures var ls := Lines(text);
            var h := Concat(HeaderLines(ls));
            h <= text
            && (|h| < |text| ==> exists i | 0 <= i < |ls| :: IsHunkStart(ls[i]))
            && exists k | 0 <= k <= |ls| ::
                 h == Concat(ls[..k]) && (forall i | 0 <= i < k :: !IsHunkStart(ls[i]))
                 && (k < |ls| ==> IsHunkStart(ls[k]))
  {
    var ls := Lines(text);
    var hs := HeaderLines(ls);
    ConcatPrefix(hs, ls);
    if |Concat(hs)| < |text| {
      if |hs| == |ls| { assert false; }
      assert IsHunkStart(ls[|hs|]);
    }
    var k := |hs|;
    assert hs == ls[..k];
    forall i | 0 <= i < k ensures !IsHunkStart(ls[i]) {
      assert ls[i] == hs[i];
    }
  }
}
