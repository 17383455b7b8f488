/** One line of a series or applied-patches file (`PatchLine` in quilt/db.py):
    its text, the patch it names if any, and its comment. */
module SeriesLine {

  import opened Wrappers
  import opened PyStr
  import opened Patching
  import Getopt

  datatype PatchLine = PatchLine(text: string, patch: Option<Patch>, comment: string)

  /** What `PatchLine(...)` is built from: a line of file text, or a Patch. */
  datatype Entry = Raw(line: string) | Obj(p: Patch)

  /** The line for an entry: text is parsed, a Patch is written as its name. */
  function MakeLine(e: Entry): (l: PatchLine)
    ensures e.Obj? ==> l.patch == Some(e.p) && l.text == e.p.name && l.comment == ""
    ensures e.Raw? ==> l == ParseLine(e.line)
  {
    match e
    case Raw(line) => ParseLine(line)
    case Obj(p) => PatchLine(p.name, Some(p), "")
  }

  /** `PatchLine._parse_line` with the option parsing the queue's tests expect:
      the argument words go through getopt and select strip and reverse. */
  function ParseLine(raw: string): (l: PatchLine)
    ensures l.text == RStripCRLF(raw)
    ensures l.patch.Some? ==> NameOf(l.patch.value.name)
    ensures StartsWith(RStrip(l.text), "#") ==> l.patch.None? && l.comment == l.text
  {
    ParseText(RStripCRLF(raw), Getopt.LineOptions)
  }

  /** `PatchLine._parse_line` as written: the argument text is handed to getopt
      as one string, whose first character decides that there are no options,
      and the parsed keys would be compared without their dashes anyway. */
  function ParseLineAsWritten(raw: string): (l: PatchLine)
    ensures l.text == RStripCRLF(raw)
    ensures l.patch.Some? ==> NameOf(l.patch.value.name)
  {
    ParseText(RStripCRLF(raw), AsWrittenOptions)
  }

  /** A name as the parser cuts it out of a line: non-empty, free of ' ' and
      '#', and not starting with whitespace. */
  predicate NameOf(name: string) {
    name != [] && !IsSpace(name[0]) && ' ' !in name && '#' !in name
  }

  /** The shared structure of both parsers, on a line without its line break;
      `options` reads the text after the name. The comment is what follows
      the first '#', kept even when no patch precedes it. */
  function ParseText(line: string, options: string -> (string, bool)): (l: PatchLine)
    ensures l.text == line
    ensures l.patch.Some? ==> NameOf(l.patch.value.name)
    ensures StartsWith(RStrip(line), "#") ==> l.patch.None? && l.comment == line
    ensures (forall a :: options(a) == ("1", false)) ==>
              l.patch.Some? ==> l.patch.value.strip == "1" && !l.patch.value.reverse
    ensures !StartsWith(RStrip(line), "#") ==>
              l.comment == (if Find(line, '#') < |line| then line[Find(line, '#') + 1..] else "")
    ensures !StartsWith(RStrip(line), "#") ==> (l.patch.Some? <==> Strip(line[..Find(line, '#')]) != [])
    ensures l.patch.Some? ==>
              var entry := Strip(line[..Find(line, '#')]);
              var n := l.patch.value.name;
              |n| <= |entry| && entry[..|n|] == n && (|n| == |entry| || entry[|n|] == ' ')
  {
    if StartsWith(RStrip(line), "#") then PatchLine(line, None, line)
    else if Strip(line) == [] then
      OnlySpaceNoHash(line);
      assert line[..|line|] == line;
      PatchLine(line, None, "")
    else
      var k := Find(line, '#');
      var comment := if k < |line| then line[k + 1..] else "";
      var entry := Strip(line[..k]);
      if entry == [] then PatchLine(line, None, comment)
      else
        var sp := Find(entry, ' ');
        var name := entry[..sp];
        var args := if sp < |entry| then entry[sp + 1..] else "";
        var o := if args == [] then ("1", false) else options(args);
        NameInEntry(line[..k], entry, name);
        PatchLine(line, Some(Patch(name, o.0, o.1)), comment)
  }

  /** A name that is the whole text before the first '#' has no arguments
      and so gets strip "1" and no reverse, whatever the option reader. */
  lemma BareNameDefaults(line: string, options: string -> (string, bool))
    ensures var l := ParseText(line, options);
            l.patch.Some? && l.patch.value.name == Strip(line[..Find(line, '#')]) ==>
              l.patch.value.strip == "1" && !l.patch.value.reverse
  {
    var l := ParseText(line, options);
    var k := Find(line, '#');
    var entry := Strip(line[..k]);
    if l.patch.Some? && l.patch.value.name == entry {
      var sp := Find(entry, ' ');
      assert entry[..sp] == entry;
      assert sp == |entry|;
    }
  }

  /** A text of whitespace only has no '#'. */
  lemma OnlySpaceNoHash(line: string)
    requires Strip(line) == []
    ensures Find(line, '#') == |line|
  {
    assert '#' !in line by {
      forall i | 0 <= i < |line| ensures line[i] != '#' {
        assert IsSpace(line[i]);
      }
    }
  }

  lemma NameInEntry(head: string, entry: string, name: string)
    requires '#' !in head
    requires entry == Strip(head) && entry != []
    requires name == entry[..Find(entry, ' ')]
    ensures NameOf(name)
  {
    StripIsInfix(head);
    assert name[0] == entry[0];
    assert '#' !in name by {
      forall i | 0 <= i < |name| ensures name[i] != '#' {
        assert name[i] == entry[i];
        assert entry[i] in head;
      }
    }
  }

  /** Every character of the stripped text occurs in the text. */
  lemma StripIsInfix(s: string)
    ensures forall c | c in Strip(s) :: c in s
  {
    var t := RStrip(s);
    var r := LStrip(t);
    assert Strip(s) == r;
    forall c | c in r ensures c in s {
      var i :| 0 <= i < |r| && r[i] == c;
      assert t[|t| - |r| + i] == c;
      assert s[|t| - |r| + i] == c;
    }
  }

  /** As written, no option ever takes effect. */
  function AsWrittenOptions(args: string): (string, bool) {
    match Getopt.Getopt(Characters(args))
    case None => ("1", false)
    case Some(opts) => ApplyWithoutDashes(opts, "1", false)
  }

  /** The words a string is when iterated: its characters. */
  function Characters(s: string): (ws: seq<string>)
    ensures |ws| == |s|
    ensures forall i | 0 <= i < |s| :: ws[i] == [s[i]]
  {
    if s == [] then [] else [[s[0]]] + Characters(s[1..])
  }

  /** The option loop as written: keys are compared with "p", "strip", "R" and
      "reverse", which getopt never yields. */
  function ApplyWithoutDashes(opts: seq<Getopt.OptPair>, strip: string, reverse: bool): (string, bool) {
    if opts == [] then (strip, reverse)
    else if opts[0].opt in ["p", "strip"] then ApplyWithoutDashes(opts[1..], opts[0].arg, reverse)
    else if opts[0].opt in ["R", "reverse"] then ApplyWithoutDashes(opts[1..], strip, true)
    else ApplyWithoutDashes(opts[1..], strip, reverse)
  }

  /** The as-written option reader gives the defaults for every argument
      text: getopt is handed one-character words, and the first of them is
      either not an option or the lone "-" that ends option parsing. */
  lemma AsWrittenDefaults(args: string)
    ensures AsWrittenOptions(args) == ("1", false)
  {
    var ws := Characters(args);
    if ws != [] {
      assert ws[0] == [args[0]];
      assert !StartsWith(ws[0], "-") || ws[0] == "-";
      assert Getopt.Getopt(ws) == Some([]);
    }
  }

  /** Every line the as-written parser reads gets strip "1" and no reverse,
      whatever options follow the name. */
  lemma AsWrittenIgnoresOptions(raw: string)
    ensures ParseLineAsWritten(raw).patch.Some? ==>
              ParseLineAsWritten(raw).patch.value.strip == "1"
              && !ParseLineAsWritten(raw).patch.value.reverse
  {
    forall a ensures AsWrittenOptions(a) == ("1", false) {
      AsWrittenDefaults(a);
    }
  }

  /** A name with no whitespace and no '#' is read back as exactly a patch of
      that name with the default options and no comment. */
  lemma PlainNameLine(n: string)
    requires PlainName(n)
    ensures ParseLine(n) == PatchLine(n, Some(NewPatch(n)), "")
  {
    PlainNameStrips(n);
    assert n[0] in n;
    assert !StartsWith(n, "#") by { assert n[..1][0] == n[0]; }
    assert '#' !in n;
    assert Find(n, '#') == |n| && n[..|n|] == n;
    assert ' ' !in n;
    assert Find(n, ' ') == |n|;
  }

  lemma PlainNameStrips(n: string)
    requires PlainName(n)
    ensures RStripCRLF(n) == n && RStrip(n) == n && LStrip(n) == n && Strip(n) == n
  {
    assert n[|n| - 1] in n && n[0] in n;
  }

  /** A plain name followed by one space and option words is read as a patch
      of that name with the options getopt selects from those words. */
  lemma NameWithOptions(n: string, args: string)
    requires PlainName(n)
    requires args != [] && '#' !in args && !IsSpace(args[0]) && !IsSpace(args[|args| - 1])
    ensures var o := Getopt.LineOptions(args);
            ParseLine(n + " " + args) == PatchLine(n + " " + args, Some(Patch(n, o.0, o.1)), "")
  {
    var line := n + " " + args;
    assert n[0] in n;
    LineShape(n, args);
    assert Find(line, '#') == |line| && line[..|line|] == line;
    assert Find(line, ' ') == |n| by {
      var f := Find(line, ' ');
      assert line[..|n|] == n;
      assert line[|n|] == ' ';
    }
    assert line[..|n|] == n && line[|n| + 1..] == args;
  }

  /** The facts about `n + " " + args` the parser's first steps look at. */
  lemma LineShape(n: string, args: string)
    requires PlainName(n)
    requires args != [] && '#' !in args && !IsSpace(args[0]) && !IsSpace(args[|args| - 1])
    ensures var line := n + " " + args;
            RStripCRLF(line) == line && Strip(line) == line
            && !StartsWith(RStrip(line), "#") && '#' !in line
  {
    var line := n + " " + args;
    assert line[|line| - 1] == args[|args| - 1];
    assert RStripCRLF(line) == line;
    assert RStrip(line) == line;
    assert line[0] == n[0] && n[0] in n;
    assert !StartsWith(line, "#") by { assert line[..1][0] == n[0]; }
    assert LStrip(line) == line;
    assert '#' !in line by {
      forall i | 0 <= i < |line| ensures line[i] != '#' {
        if i < |n| { assert line[i] == n[i] && n[i] in n; }
        else if i > |n| { assert line[i] == args[i - |n| - 1]; }
      }
    }
  }

  /** Re-parsing a parsed line's own text, with or without a line break,
      gives the same line: parsing only looks at the text with its line
      break removed. */
  lemma ParseIdempotent(raw: string)
    ensures ParseLine(ParseLine(raw).text) == ParseLine(raw)
    ensures ParseLine(ParseLine(raw).text + "\n") == ParseLine(raw)
  {
    var t := RStripCRLF(raw);
    assert RStripCRLF(t) == t;
    assert RStripCRLF(t + "\n") == RStripCRLF(t) by {
      assert (t + "\n")[..|t + "\n"| - 1] == t;
    }
  }

  /** The line in the series test of the queue, "patch1 -p0 --reverse", is
      read with strip "0" and reverse by the corrected parser, but with the
      defaults by the parser as written. */
  lemma OptionsFinding(name: string, strip: string, reverse: string)
    requires name == "patch1" && strip == "-p0" && reverse == "--reverse"
    ensures ParseLine(name + " " + (strip + " " + reverse)).patch == Some(Patch("patch1", "0", true))
    ensures ParseLineAsWritten(name + " " + (strip + " " + reverse)).patch == Some(Patch("patch1", "1", false))
  {
    var args := strip + " " + reverse;
    assert PlainName(name);
    assert forall c | c in strip :: !IsSpace(c) && c != '#';
    assert forall c | c in reverse :: !IsSpace(c) && c != '#';
    assert args[0] == strip[0] && args[|args| - 1] == reverse[|reverse| - 1];
    assert '#' !in args by {
      forall i | 0 <= i < |args| ensures args[i] != '#' {
        if i < |strip| { assert args[i] == strip[i] && strip[i] in strip; }
        else if i > |strip| { assert args[i] == reverse[i - |strip| - 1] && reverse[i - |strip| - 1] in reverse; }
      }
    }
    NameWithOptions(name, args);
    TwoWords(strip, reverse);
    Getopt.TestLineStripReverse();
    assert Getopt.LineOptions(args) == ("0", true);
    AsWrittenIgnoresOptions(name + " " + args);
    AsWrittenHasPatch(name, args);
  }

  /** The as-written parser finds the same patch name; only the options differ. */
  lemma AsWrittenHasPatch(n: string, args: string)
    requires PlainName(n)
    requires args != [] && '#' !in args && !IsSpace(args[0]) && !IsSpace(args[|args| - 1])
    ensures ParseLineAsWritten(n + " " + args).patch.Some?
    ensures ParseLineAsWritten(n + " " + args).patch.value.name == n
  {
    var line := n + " " + args;
    assert n[0] in n;
    LineShape(n, args);
    assert Find(line, '#') == |line| && line[..|line|] == line;
    assert Find(line, ' ') == |n| by {
      assert line[..|n|] == n;
      assert line[|n|] == ' ';
    }
  }

  /** `str.split()` of a word, a space and more text. */
  lemma WordsJoin(w: string, rest: string)
    requires w != [] && forall c | c in w :: !IsSpace(c)
    ensures Words(w + " " + rest) == [w] + Words(rest)
  {
    var s := w + " " + rest;
    assert s[0] == w[0] && w[0] in w;
    assert LStrip(s) == s;
    WordLengthOf(w, " " + rest);
    assert s == w + (" " + rest);
    assert s[..|w|] == w && s[|w|..] == " " + rest;
    WordsSkipsSpace(rest);
  }

  lemma TwoWords(w: string, v: string)
    requires w != [] && forall c | c in w :: !IsSpace(c)
    requires v != [] && forall c | c in v :: !IsSpace(c)
    ensures Words(w + " " + v) == [w, v]
  {
    WordsJoin(w, v);
    WordsSingle(v);
    PairOf(w, v, Words(v));
  }

  lemma PairOf<T>(a: T, b: T, s: seq<T>)
    requires s == [b]
    ensures [a] + s == [a, b]
  {
  }

  lemma WordsSkipsSpace(rest: string)
    ensures Words(" " + rest) == Words(rest)
  {
    assert LStrip(" " + rest) == LStrip(rest) by { assert (" " + rest)[1..] == rest; }
  }

  lemma WordsSingle(w: string)
    requires w != [] && forall c | c in w :: !IsSpace(c)
    ensures Words(w) == [w]
  {
    assert w[0] in w;
    assert LStrip(w) == w;
    WordLengthOf(w, "");
    assert w + "" == w;
    assert w[|w|..] == [];
  }

  lemma {:induction false} WordLengthOf(w: string, rest: string)
    requires forall c | c in w :: !IsSpace(c)
    requires rest == [] || IsSpace(rest[0])
    ensures WordLength(w + rest) == |w|
  {
    if w != [] {
      assert (w + rest)[0] == w[0] && w[0] in w;
      assert (w + rest)[1..] == w[1..] + rest;
      assert forall c | c in w[1..] :: c in w;
      WordLengthOf(w[1..], rest);
    } else {
      assert w + rest == rest;
    }
  }
}
