/** Python 2's `getopt.getopt(args, "p:R", ["strip=", "reverse"])`, the option
    parser a series line's arguments are meant to go through, and the strip
    level and reverse flag the line's options select. */
module Getopt {

  import opened Wrappers
  import opened PyStr

  /** One parsed option: its spelling with dashes ("-p", "--strip", ...) and
      its argument ("" for an option without one). */
  datatype OptPair = OptPair(opt: string, arg: string)

  /** The long options the series parser declares. */
  const LongOpts: seq<string> := ["strip=", "reverse"]

  /** `getopt.getopt`: options are read while the next word starts with '-'
      and is not "-"; "--" ends them. `None` is a `GetoptError`. */
  function Getopt(args: seq<string>): (r: Option<seq<OptPair>>)
    decreases |args|
  {
    if args == [] || !StartsWith(args[0], "-") || args[0] == "-" then Some([])
    else if args[0] == "--" then Some([])
    else if StartsWith(args[0], "--") then
      var step :- DoLong(args[0][2..], args[1..]);
      var more :- Getopt(step.1);
      Some([step.0] + more)
    else
      var step :- DoShorts(args[0][1..], args[1..]);
      var more :- Getopt(step.1);
      Some(step.0 + more)
  }

  /** `getopt.do_longs` for one "--name[=value]" word. */
  function DoLong(word: string, args: seq<string>): (r: Option<(OptPair, seq<string>)>)
    ensures r.Some? ==> |r.value.1| <= |args|
  {
    var i := Find(word, '=');
    var name := word[..i];
    var optarg: Option<string> := if i < |word| then Some(word[i + 1..]) else None;
    var kind :- LongHasArgs(name);
    var full := kind.1;
    if kind.0 then
      if optarg.Some? then Some((OptPair("--" + full, optarg.value), args))
      else if args == [] then None
      else Some((OptPair("--" + full, args[0]), args[1..]))
    else if optarg.Some? then None
    else Some((OptPair("--" + full, ""), args))
  }

  /** `getopt.long_has_args`: an exact match, or else the one long option the
      name is a prefix of. Yields whether it takes a value and its full name. */
  function LongHasArgs(name: string): Option<(bool, string)> {
    var ps := Possibilities(name, LongOpts);
    if ps == [] then None
    else if name in ps then Some((false, name))
    else if name + "=" in ps then Some((true, name))
    else if |ps| > 1 then None
    else
      var u := ps[0];
      if u != [] && u[|u| - 1] == '=' then Some((true, u[..|u| - 1])) else Some((false, u))
  }

  function Possibilities(name: string, longs: seq<string>): (ps: seq<string>)
    ensures forall o | o in ps :: o in longs && StartsWith(o, name)
    ensures forall o | o in longs && StartsWith(o, name) :: o in ps
  {
    if longs == [] then []
    else (if StartsWith(longs[0], name) then [longs[0]] else []) + Possibilities(name, longs[1..])
  }

  /** `getopt.do_shorts` for the letters after a single '-': 'R' is a switch,
      'p' takes the rest of the word or else the next word, anything else is
      an error. */
  function DoShorts(letters: string, args: seq<string>): (r: Option<(seq<OptPair>, seq<string>)>)
    ensures r.Some? ==> |r.value.1| <= |args|
    decreases |letters|
  {
    if letters == [] then Some(([], args))
    else if letters[0] == 'p' then
      if |letters| > 1 then Some(([OptPair("-p", letters[1..])], args))
      else if args == [] then None
      else Some(([OptPair("-p", args[0])], args[1..]))
    else if letters[0] == 'R' then
      var step :- DoShorts(letters[1..], args);
      Some(([OptPair("-R", "")] + step.0, step.1))
    else None
  }

  /** The strip level and reverse flag a list of parsed options selects: the
      last strip given wins, and any reverse switch sets reverse. */
  function Apply(opts: seq<OptPair>, strip: string, reverse: bool): (r: (string, bool))
    ensures reverse ==> r.1
    ensures (exists i | 0 <= i < |opts| :: opts[i].opt in ["-R", "--reverse"]) ==> r.1
    ensures !reverse && r.1 ==> exists i | 0 <= i < |opts| :: opts[i].opt in ["-R", "--reverse"]
  {
    if opts == [] then (strip, reverse)
    else
      var o := opts[0];
      var r := if o.opt in ["-p", "--strip"] then Apply(opts[1..], o.arg, reverse)
               else if o.opt in ["-R", "--reverse"] then Apply(opts[1..], strip, true)
               else Apply(opts[1..], strip, reverse);
      assert forall i | 1 <= i < |opts| :: opts[i] == opts[1..][i - 1];
      r
  }

  /** The options of a series line's argument text: the words go through
      getopt and select strip and reverse; a getopt error leaves the defaults
      strip "1" and reverse false. */
  function LineOptions(args: string): (string, bool) {
    LineOptionsOf(Words(args))
  }

  /** The options selected by a line's words. */
  function LineOptionsOf(words: seq<string>): (string, bool) {
    match Getopt(words)
    case None => ("1", false)
    case Some(opts) => Apply(opts, "1", false)
  }

  /** One parsed option in front of the result of parsing the remaining words. */
  function Cons(o: OptPair, r: Option<seq<OptPair>>): Option<seq<OptPair>> {
    match r
    case None => None
    case Some(more) => Some([o] + more)
  }

  /** "-p<v>" sets strip to v. */
  lemma ShortStrip(v: string, rest: seq<string>)
    requires v != []
    ensures Getopt(["-p" + v] + rest) == Cons(OptPair("-p", v), Getopt(rest))
  {
    var args := ["-p" + v] + rest;
    var w := args[0];
    assert w[..1] == "-" && w[1] == 'p' && |w| > 2;
    assert !StartsWith(w, "--") by { assert w[..2][1] == 'p'; }
    assert w[1..] == "p" + v && ("p" + v)[1..] == v && args[1..] == rest;
  }

  /** "-p" alone takes the next word as its value, and fails when there is none. */
  lemma ShortStripSeparate(v: string, rest: seq<string>)
    ensures Getopt(["-p", v] + rest) == Cons(OptPair("-p", v), Getopt(rest))
    ensures Getopt(["-p"]) == None
  {
    var args := ["-p", v] + rest;
    var w := args[0];
    assert w[..1] == "-" && w[1] == 'p';
    assert !StartsWith(w, "--") by { assert w[..2][1] == 'p'; }
    assert w[1..] == "p" && args[1..] == [v] + rest && ([v] + rest)[1..] == rest;
    var one := ["-p"];
    assert one[0][..1] == "-" && one[0][1..] == "p" && one[1..] == [];
    assert !StartsWith(one[0], "--") by { assert one[0][..2][1] == 'p'; }
  }

  /** "-R" sets reverse. */
  lemma ShortReverse(rest: seq<string>)
    ensures Getopt(["-R"] + rest) == Cons(OptPair("-R", ""), Getopt(rest))
  {
    var args := ["-R"] + rest;
    var w := args[0];
    assert w[..1] == "-" && w[1] == 'R';
    assert !StartsWith(w, "--") by { assert w[..2][1] == 'R'; }
    assert w[1..] == "R" && "R"[1..] == [] && args[1..] == rest;
    assert DoShorts("", rest) == Some(([], rest));
    assert [OptPair("-R", "")] + [] == [OptPair("-R", "")];
  }

  /** A single-dash word with a letter other than 'p' or 'R' is a getopt error. */
  lemma ShortUnknown(c: char, rest: seq<string>)
    requires c != 'p' && c != 'R' && c != '-'
    ensures Getopt(["-" + [c]] + rest) == None
  {
    var args := ["-" + [c]] + rest;
    var w := args[0];
    assert w[..1] == "-" && w[1] == c && |w| == 2;
    assert !StartsWith(w, "--") by { assert w[..2][1] == c; }
    assert w[1..] == [c];
  }

  /** "--reverse" sets reverse. */
  lemma LongReverse(rest: seq<string>)
    ensures Getopt(["--reverse"] + rest) == Cons(OptPair("--reverse", ""), Getopt(rest))
  {
    var args := ["--reverse"] + rest;
    var w := args[0];
    assert w[..1] == "-" && w[..2] == "--" && w != "--";
    assert w[2..] == "reverse" && args[1..] == rest;
    DoLongReverse(rest);
  }

  lemma DoLongReverse(args: seq<string>)
    ensures DoLong("reverse", args) == Some((OptPair("--reverse", ""), args))
  {
    assert Find("reverse", '=') == 7;
    assert "reverse"[..7] == "reverse";
    ReverseIsExact();
    assert "--" + "reverse" == "--reverse";
  }

  lemma ReverseIsExact()
    ensures LongHasArgs("reverse") == Some((false, "reverse"))
  {
    assert !StartsWith("strip=", "reverse");
    assert StartsWith("reverse", "reverse");
    assert Possibilities("reverse", LongOpts) == ["reverse"];
  }

  /** "--strip=<v>" sets strip to v. */
  lemma LongStrip(v: string, rest: seq<string>)
    ensures Getopt(["--strip=" + v] + rest) == Cons(OptPair("--strip", v), Getopt(rest))
  {
    var args := ["--strip=" + v] + rest;
    var w := args[0];
    assert w[..1] == "-" && w[..2] == "--" && w != "--" by { assert w[2] == 's'; }
    assert w[2..] == "strip=" + v && args[1..] == rest;
    DoLongStrip(v, rest);
  }

  lemma DoLongStrip(v: string, args: seq<string>)
    ensures DoLong("strip=" + v, args) == Some((OptPair("--strip", v), args))
  {
    var word := "strip=" + v;
    assert word[5] == '=' && '=' !in word[..5];
    assert Find(word, '=') == 5;
    assert word[..5] == "strip" && word[6..] == v;
    StripIsPrefix();
    assert "--" + "strip" == "--strip";
  }

  lemma StripIsPrefix()
    ensures LongHasArgs("strip") == Some((true, "strip"))
  {
    assert !StartsWith("reverse", "strip") by { assert "reverse"[..5][0] != "strip"[0]; }
    assert StartsWith("strip=", "strip");
    assert Possibilities("strip", LongOpts) == ["strip="];
    assert "strip" !in ["strip="];
    assert "strip" + "=" == "strip=";
  }

  /** A unique prefix of a long option selects it: "--rev" is "--reverse". */
  lemma UniquePrefix(rest: seq<string>)
    ensures Getopt(["--rev"] + rest) == Cons(OptPair("--reverse", ""), Getopt(rest))
  {
    var args := ["--rev"] + rest;
    var w := args[0];
    assert w[..1] == "-" && w[..2] == "--" && w != "--";
    assert w[2..] == "rev" && args[1..] == rest;
    DoLongRev(rest);
  }

  lemma DoLongRev(args: seq<string>)
    ensures DoLong("rev", args) == Some((OptPair("--reverse", ""), args))
  {
    assert Find("rev", '=') == 3;
    assert "rev"[..3] == "rev";
    RevIsPrefix();
    assert "--" + "reverse" == "--reverse";
  }

  lemma RevIsPrefix()
    ensures LongHasArgs("rev") == Some((false, "reverse"))
  {
    assert !StartsWith("strip=", "rev") by { assert "strip="[..3][0] != "rev"[0]; }
    assert StartsWith("reverse", "rev");
    assert Possibilities("rev", LongOpts) == ["reverse"];
    assert "rev" !in ["reverse"] && "rev=" !in ["reverse"];
  }

  /** Parsing stops at the first word that is not an option. */
  lemma StopsAtOperand(w: string, rest: seq<string>)
    requires w == [] || w[0] != '-'
    ensures Getopt([w] + rest) == Some([])
  {
    assert ([w] + rest)[0] == w;
  }

  /** "-p0 --reverse", from the queue's own series-file test, gives strip
      "0" and reverse. */
  lemma TestLineStripReverse()
    ensures LineOptionsOf(["-p0", "--reverse"]) == ("0", true)
  {
    LongReverse([]);
    ShortStrip("0", ["--reverse"]);
    assert "-p" + "0" == "-p0";
    assert ["-p0", "--reverse"] == ["-p" + "0"] + ["--reverse"];
    assert ["--reverse"] == ["--reverse"] + [];
    assert [OptPair("--reverse", "")] + [] == [OptPair("--reverse", "")];
    assert [OptPair("-p", "0")] + [OptPair("--reverse", "")] == [OptPair("-p", "0"), OptPair("--reverse", "")];
  }

  /** "--strip=0 -R", from the same test, gives strip "0" and reverse. */
  lemma TestLineLongStrip()
    ensures LineOptionsOf(["--strip=0", "-R"]) == ("0", true)
  {
    var opts := [OptPair("--strip", "0"), OptPair("-R", "")];
    ParseLongStrip();
    ApplyStripReverse(opts);
  }

  lemma ParseLongStrip()
    ensures Getopt(["--strip=0", "-R"]) == Some([OptPair("--strip", "0"), OptPair("-R", "")])
  {
    assert "--strip=" + "0" == "--strip=0";
    assert ["--strip=0", "-R"] == ["--strip=" + "0"] + ["-R"];
    LongStrip("0", ["-R"]);
    ReverseAlone();
    assert [OptPair("--strip", "0")] + [OptPair("-R", "")] == [OptPair("--strip", "0"), OptPair("-R", "")];
  }

  lemma ReverseAlone()
    ensures Getopt(["-R"]) == Some([OptPair("-R", "")])
  {
    ShortReverse([]);
    assert ["-R"] == ["-R"] + [];
    assert [OptPair("-R", "")] + [] == [OptPair("-R", "")];
  }

  lemma ApplyStripReverse(opts: seq<OptPair>)
    requires opts == [OptPair("--strip", "0"), OptPair("-R", "")]
    ensures Apply(opts, "1", false) == ("0", true)
  {
    assert opts[1..][1..] == [];
    assert Apply(opts[1..], "0", false) == ("0", true);
  }

  /** "-X", from the queue's bad-arguments test: getopt raises its error,
      which is not fatal, and the defaults stay. */
  lemma TestLineUnknownOption()
    ensures Getopt(["-X"]).None?
    ensures LineOptionsOf(["-X"]) == ("1", false)
  {
    ShortUnknown('X', []);
    assert "-" + ['X'] == "-X";
    assert ["-X"] == ["-" + ['X']] + [];
  }
}
