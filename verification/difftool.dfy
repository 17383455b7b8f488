/** `Diff` of quilt/patch.py: the `diff` command line, with a missing side
    replaced by /dev/null, and how its exit status is read. What `diff`
    prints is left to the tool; only its exit status matters here. */
module DiffTool {

  import opened Wrappers
  import opened Errors

  const DevNull: string := "/dev/null"

  /** The path `Diff` passes for one side: the file, or /dev/null when it
      does not exist. */
  function Side(path: string, present: bool): (s: string)
    ensures present ==> s == path
    ensures !present ==> s == DevNull
  {
    if present then path else DevNull
  }

  /** The `--label` words of `Diff.run`. */
  function Labels(right: string, leftLabel: Option<string>, rightLabel: Option<string>): seq<string> {
    (if leftLabel.Some? && leftLabel.value != [] then ["--label", leftLabel.value] else [])
    + (if rightLabel.Some? && rightLabel.value != [] then
         (if leftLabel.Some? && leftLabel.value != [] then [] else ["--label", right])
         + ["--label", rightLabel.value]
       else [])
  }

  /** `Diff.run`'s command line. */
  function DiffArgv(left: string, right: string, leftLabel: Option<string>,
                    rightLabel: Option<string>, unified: bool): seq<string> {
    ["diff"] + (if unified then ["-u"] else []) + Labels(right, leftLabel, rightLabel) + [left, right]
  }

  /** The labels `diff` shows for the two sides of a command line built by
      `Diff.run`: the first `--label` names the left side, a second the
      right; a side without one shows its path. */
  function ShownLabels(argv: seq<string>): (string, string)
    requires |argv| >= 3
  {
    var body := argv[..|argv| - 2];
    var left := argv[|argv| - 2];
    var right := argv[|argv| - 1];
    var opts := if |body| >= 2 && body[1] == "-u" then body[2..] else body[1..];
    if |opts| >= 4 then (opts[1], opts[3])
    else if |opts| >= 2 then (opts[1], right)
    else (left, right)
  }

  /** The command ends with the two sides, and the sides are labelled: the
      left by its label or its path, except that a right label alone makes
      the left side show the right file's path; the right by its label or
      its path. */
  lemma DiffLabels(left: string, right: string, leftLabel: Option<string>,
                   rightLabel: Option<string>, unified: bool)
    requires unified
    ensures var argv := DiffArgv(left, right, leftLabel, rightLabel, unified);
            var givenL := leftLabel.Some? && leftLabel.value != [];
            var givenR := rightLabel.Some? && rightLabel.value != [];
            argv[|argv| - 2..] == [left, right]
            && ShownLabels(argv).0 == (if givenL then leftLabel.value else if givenR then right else left)
            && ShownLabels(argv).1 == (if givenR then rightLabel.value else right)
  {
    var argv := DiffArgv(left, right, leftLabel, rightLabel, unified);
    var labels := Labels(right, leftLabel, rightLabel);
    assert argv == ["diff", "-u"] + labels + [left, right];
    assert argv[..|argv| - 2] == ["diff", "-u"] + labels;
  }

  /** `Diff.run`: `diff` exits 0 for equal files and 1 for different
      ones; only a status above 1 is an error. */
  function RunStatus(argv: seq<string>, code: int): (r: Result<(), QuiltError>)
    ensures r.Ok? <==> code <= 1
    ensures r.Err? ==> r.error == Subprocess(argv, code)
  {
    if code > 1 then Err(Subprocess(argv, code)) else Ok(())
  }

  /** `Diff.equal`: status 0 means equal, 1 different, anything else is
      an error. */
  function EqualStatus(argv: seq<string>, code: int): (r: Result<bool, QuiltError>)
    ensures r.Ok? <==> code == 0 || code == 1
    ensures r.Ok? ==> (r.value <==> code == 0)
    ensures r.Err? ==> r.error == Subprocess(argv, code)
  {
    if code == 0 then Ok(true)
    else if code == 1 then Ok(false)
    else Err(Subprocess(argv, code))
  }

  /** `Diff.equal`'s command line. */
  function EqualArgv(left: string, right: string): seq<string> {
    ["diff", "-q", left, right]
  }

  /** Where both read a status, `run` and `equal` agree that it is not an
      error; `equal` also refuses the negative statuses `run` lets pass. */
  lemma StatusesAgree(argv: seq<string>, code: int)
    ensures EqualStatus(argv, code).Ok? ==> RunStatus(argv, code).Ok?
    ensures RunStatus(argv, code).Ok? && code < 0 ==> EqualStatus(argv, code).Err?
  {
  }
}
