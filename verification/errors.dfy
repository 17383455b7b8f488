/** The error kinds the queue operations raise (quilt/error.py), together with the
    other exceptions the core lets escape: InvalidPatchError and DBError from
    quilt/db.py, SubprocessError from the tool runner, and the Python built-in
    errors a few code paths hit. Patches are named by their name only, which is
    all any message uses. */
module Errors {

  import opened Wrappers

  datatype QuiltError =
    | NoPatchesInSeries                      // error.py NoPatchesInSeries
    | NoAppliedPatch                         // error.py NoAppliedPatch
    | AllPatchesApplied(top: Option<string>) // error.py AllPatchesApplied
    | UnknownPatch(name: string)             // error.py UnknownPatch
    | PatchAlreadyExists(name: string)       // raised by new.py, not defined in error.py
    | InvalidPatch(name: string)             // db.py InvalidPatchError
    | DbVersion(found: string)               // db.py DBError
    | Failed(message: string)                // a bare QuiltError("...")
    | Subprocess(command: seq<string>, code: int) // SubprocessError
    | NoSuchFile(path: string)               // IOError / OSError from a missing file
    | NotInList(operation: string)            // ValueError from list.remove or list.index

  /** True for the kinds that derive from QuiltError, i.e. those a caller's
      `except QuiltError` catches; the built-in errors do not. */
  predicate IsQuiltError(e: QuiltError) {
    !(e.NoSuchFile? || e.NotInList?)
  }

  const DB_VERSION: int := 2

  /** Decimal rendering of an integer, as `%d` does. */
  function IntToString(n: int): (s: string)
    ensures |s| >= 1
    decreases if n < 0 then 1 - n else n
  {
    if n < 0 then "-" + IntToString(-n)
    else if n < 10 then [Digit(n)]
    else IntToString(n / 10) + [Digit(n % 10)]
  }

  function Digit(d: int): char
    requires 0 <= d < 10
  {
    "0123456789"[d]
  }

  /** Python's repr of a list of strings, without escaping. */
  function ListRepr(xs: seq<string>): string {
    "[" + JoinQuoted(xs) + "]"
  }

  function JoinQuoted(xs: seq<string>): string {
    if xs == [] then ""
    else if |xs| == 1 then "'" + xs[0] + "'"
    else "'" + xs[0] + "', " + JoinQuoted(xs[1..])
  }

  /** The text `str(e)` gives. */
  function Render(e: QuiltError): string {
    match e
    case NoPatchesInSeries => "No patch in series"
    case NoAppliedPatch => "No patches applied"
    case AllPatchesApplied(top) =>
      if top.None? then "All patches are already applied"
      else "File series fully applied, ends at patch " + top.value
    case UnknownPatch(name) => "Patch " + name + " is not in series"
    case PatchAlreadyExists(name) => "Patch " + name + " already exists"
    case InvalidPatch(name) => "Patch " + name + " is not known."
    case DbVersion(found) =>
      "The quilt meta-data version of '" + found + "' is not supported by "
      + "python-quilt. Python-quilt only supports version " + IntToString(DB_VERSION)
    case Failed(message) => message
    case Subprocess(command, code) =>
      "Command " + ListRepr(command) + " finished with return code " + IntToString(code)
    case NoSuchFile(path) => "[Errno 2] No such file or directory: '" + path + "'"
    case NotInList(operation) => "list." + operation + "(x): x not in list"
  }

  /** The messages of the queue errors of quilt/error.py tell their kinds
      apart: the fixed texts differ from each other and from every text
      naming a patch, and an UnknownPatch text is never an
      AllPatchesApplied one. All of them are quilt errors. */
  lemma MessagesTellKinds(n: string, m: string)
    ensures var fixed := [Render(NoPatchesInSeries), Render(NoAppliedPatch), Render(AllPatchesApplied(None))];
            (forall i, j | 0 <= i < j < 3 :: fixed[i] != fixed[j])
            && (forall i | 0 <= i < 3 :: fixed[i] != Render(UnknownPatch(n))
                                         && fixed[i] != Render(AllPatchesApplied(Some(n))))
    ensures Render(UnknownPatch(n)) != Render(AllPatchesApplied(Some(m)))
    ensures IsQuiltError(NoPatchesInSeries) && IsQuiltError(NoAppliedPatch)
    ensures IsQuiltError(AllPatchesApplied(None)) && IsQuiltError(UnknownPatch(n))
  {
    var fixed := [Render(NoPatchesInSeries), Render(NoAppliedPatch), Render(AllPatchesApplied(None))];
    var u := Render(UnknownPatch(n));
    var f := Render(AllPatchesApplied(Some(m)));
    var g := Render(AllPatchesApplied(Some(n)));
    assert u[0] == 'P' && f[0] == 'F' && g[0] == 'F';
    assert fixed[0][0] == 'N' && fixed[1][0] == 'N' && fixed[2][0] == 'A';
    assert fixed[0][8] == ' ' && fixed[1][8] == 'e';
  }

  /** Distinct patch names give distinct UnknownPatch and AllPatchesApplied
      messages, so the message identifies the patch. */
  lemma {:induction false} MessagesNameThePatch(a: string, b: string)
    ensures Render(UnknownPatch(a)) == Render(UnknownPatch(b)) ==> a == b
    ensures Render(AllPatchesApplied(Some(a))) == Render(AllPatchesApplied(Some(b))) ==> a == b
    ensures Render(AllPatchesApplied(None)) != Render(AllPatchesApplied(Some(a)))
  {
    var p := "Patch ";
    var s := " is not in series";
    if Render(UnknownPatch(a)) == Render(UnknownPatch(b)) {
      var x := p + a + s;
      var y := p + b + s;
      assert |a| == |b| by { assert |x| == |y|; }
      forall i | 0 <= i < |a| ensures a[i] == b[i] {
        assert x[|p| + i] == a[i];
        assert y[|p| + i] == b[i];
      }
    }
    var f := "File series fully applied, ends at patch ";
    if Render(AllPatchesApplied(Some(a))) == Render(AllPatchesApplied(Some(b))) {
      assert (f + a)[|f|..] == a;
      assert (f + b)[|f|..] == b;
    }
    var none := "All patches are already applied";
    assert none[0] != (f + a)[0];
  }
}
