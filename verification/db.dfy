/** Reading and saving a series file, and the `.version` gate of the
    applied-patches database (`PatchSeries.read`/`save` and `Db` in
    quilt/db.py). A file is its text, `None` when it does not exist. */
module SeriesDb {

  import opened Wrappers
  import opened Errors
  import opened PyStr
  import opened Patching
  import opened SeriesLine
  import opened Series
  import opened SeriesLaws

  /** Each line of the file, parsed. */
  function ParseAll(raws: seq<string>): (ls: seq<PatchLine>)
    ensures |ls| == |raws|
    ensures forall i | 0 <= i < |raws| :: ls[i] == ParseLine(raws[i])
  {
    seq(|raws|, i requires 0 <= i < |raws| => ParseLine(raws[i]))
  }

  /** The series `add_patch` builds from an empty one, line by line. */
  function Build(lines: seq<PatchLine>): (s: PatchSeries)
    ensures LinesOf(s.rows) == lines
    ensures Valid(s)
    decreases |lines|
  {
    if lines == [] then Empty
    else AddLine(Build(lines[..|lines| - 1]), lines[|lines| - 1])
  }

  /** `read()`: every line of an existing file in turn; no file, no lines. */
  function Read(file: Option<string>): (s: PatchSeries)
    ensures Valid(s)
    ensures file.None? ==> Patches(s) == []
    ensures file.Some? ==> LinesOf(s.rows) == ParseAll(Lines(file.value))
  {
    if file.None? then Empty else Build(ParseAll(Lines(file.value)))
  }

  /** The text of each line followed by a line break. */
  function Terminated(texts: seq<string>): (ts: seq<string>)
    ensures |ts| == |texts|
    ensures forall i | 0 <= i < |texts| :: ts[i] == texts[i] + "\n"
  {
    seq(|texts|, i requires 0 <= i < |texts| => texts[i] + "\n")
  }

  function Texts(s: PatchSeries): (ts: seq<string>)
    ensures |ts| == |s.rows|
    ensures forall i | 0 <= i < |s.rows| :: ts[i] == s.rows[i].line.text
  {
    seq(|s.rows|, i requires 0 <= i < |s.rows| => s.rows[i].line.text)
  }

  /** `save()`: the file's new content. */
  function Save(s: PatchSeries): string {
    Concat(Terminated(Texts(s)))
  }

  /** No line's text holds a line break, so the saved file has exactly one
      line per line of the series. A parsed line never holds one; a line
      made from a Patch holds one only if the patch's name does. */
  predicate OneLineEach(s: PatchSeries) {
    forall i | 0 <= i < |s.rows| :: '\n' !in s.rows[i].line.text
  }

  /** Splitting the saved text into lines gives back each text with its break. */
  lemma {:induction false} LinesTerminated(texts: seq<string>)
    requires forall i | 0 <= i < |texts| :: '\n' !in texts[i]
    ensures Lines(Concat(Terminated(texts))) == Terminated(texts)
  {
    if texts != [] {
      var t := texts[0] + "\n";
      var rest := Terminated(texts[1..]);
      assert Terminated(texts) == [t] + rest;
      var all := Concat([t] + rest);
      assert all == t + Concat(rest);
      var k := Find(all, '\n');
      assert all[|texts[0]|] == '\n';
      assert k == |texts[0]| by {
        assert all[..|texts[0]|] == texts[0];
      }
      assert all[..k + 1] == t;
      assert all[k + 1..] == Concat(rest);
      LinesTerminated(texts[1..]);
    }
  }

  /** Re-reading a saved series parses each line's text again. */
  lemma SaveRead(s: PatchSeries)
    requires OneLineEach(s)
    ensures LinesOf(Read(Some(Save(s))).rows) == ParseAll(Texts(s))
  {
    LinesTerminated(Texts(s));
    var reread := ParseAll(Lines(Save(s)));
    forall i | 0 <= i < |s.rows| ensures reread[i] == ParseLine(Texts(s)[i]) {
      ParseAfterBreak(Texts(s)[i]);
    }
  }

  /** A line break at the end changes nothing in the parse. */
  lemma ParseAfterBreak(t: string)
    ensures ParseLine(t + "\n") == ParseLine(t)
  {
    assert RStripCRLF(t + "\n") == RStripCRLF(t) by {
      assert (t + "\n")[..|t|] == t;
    }
  }

  /** The series depends only on its lines. */
  lemma ReadIsBuild(file: string)
    ensures Read(Some(file)) == Build(ParseAll(Lines(file)))
  {
  }

  /** Reading, saving and reading again gives the very same series: the
      lines, their patches and comments, and which line the dict keeps for
      each name. */
  lemma ReadSaveRead(file: Option<string>)
    ensures Read(Some(Save(Read(file)))) == Read(file)
  {
    var s := Read(file);
    var raws := if file.None? then [] else Lines(file.value);
    var lines := ParseAll(raws);
    assert s == Build(lines);
    assert OneLineEach(s) by {
      forall i | 0 <= i < |s.rows| ensures '\n' !in s.rows[i].line.text {
        ParsedLineOneLine(raws[i]);
        assert s.rows[i].line == LinesOf(s.rows)[i];
      }
    }
    SaveRead(s);
    forall i | 0 <= i < |lines| ensures ParseLine(Texts(s)[i]) == lines[i] {
      assert Texts(s)[i] == LinesOf(s.rows)[i].text;
      ParseIdempotent(raws[i]);
    }
    assert ParseAll(Texts(s)) == lines;
    assert ParseAll(Lines(Save(s))) == lines;
  }

  /** A line `for line in f` yields holds a line break only at its end, so
      its parsed text holds none. */
  lemma ParsedLineOneLine(raw: string)
    requires raw == [] || '\n' !in raw[..|raw| - 1]
    ensures '\n' !in ParseLine(raw).text
  {
    StrippedOneLine(raw);
  }

  lemma StrippedOneLine(raw: string)
    requires raw == [] || '\n' !in raw[..|raw| - 1]
    ensures '\n' !in RStripCRLF(raw)
  {
    var t := RStripCRLF(raw);
    forall j | 0 <= j < |t| ensures t[j] != '\n' {
      if j < |raw| - 1 {
        assert raw[..|raw| - 1][j] == raw[j];
      }
    }
  }

  /** Re-reading a line's saved text finds the patch of the same name, or
      again no patch. The options of a line made from a Patch are not
      written, so only the name is kept. */
  predicate Reparses(line: PatchLine) {
    NamesOf(PatchesOf([ParseLine(line.text)])) == NamesOf(PatchesOf([line]))
  }

  /** Lines read from a file reparse, and so do lines made from a Patch with
      a plain name. */
  lemma LinesReparse(raw: string, p: Patch)
    ensures Reparses(ParseLine(raw))
    ensures PlainName(p.name) ==> Reparses(MakeLine(Obj(p)))
  {
    ParseIdempotent(raw);
    if PlainName(p.name) {
      PlainNameLine(p.name);
    }
  }

  /** Saving a series whose lines all reparse, and reading it back, gives
      the same patch names in the same order. */
  lemma SaveReadNames(s: PatchSeries)
    requires OneLineEach(s)
    requires forall i | 0 <= i < |s.rows| :: Reparses(s.rows[i].line)
    ensures NamesOf(Patches(Read(Some(Save(s))))) == NamesOf(Patches(s))
  {
    SaveRead(s);
    SameNames(ParseAll(Texts(s)), LinesOf(s.rows));
  }

  lemma {:induction false} SameNames(a: seq<PatchLine>, b: seq<PatchLine>)
    requires |a| == |b|
    requires forall i | 0 <= i < |a| :: NamesOf(PatchesOf([a[i]])) == NamesOf(PatchesOf([b[i]]))
    ensures NamesOf(PatchesOf(a)) == NamesOf(PatchesOf(b))
  {
    if a != [] {
      assert a == [a[0]] + a[1..] && b == [b[0]] + b[1..];
      PatchesOfConcat([a[0]], a[1..]);
      PatchesOfConcat([b[0]], b[1..]);
      NamesOfConcat(PatchesOf([a[0]]), PatchesOf(a[1..]));
      NamesOfConcat(PatchesOf([b[0]]), PatchesOf(b[1..]));
      SameNames(a[1..], b[1..]);
    }
  }

  // ------------------------------------------------------------ the database

  /** The text `_create_version` writes: `str(DB_VERSION)`. */
  function VersionText(): (t: string)
    ensures t == "2"
  {
    IntToString(DB_VERSION)
  }

  /** What `f.read(1)` returns: the first character, or nothing. */
  function FirstChar(t: string): (r: string)
    ensures |r| <= 1 && r <= t
    ensures t != [] ==> |r| == 1
  {
    if t == [] then [] else t[..1]
  }

  /** `Db(dirname)`: the version gate, which runs only when `.version`
      exists, then the applied patches. */
  function OpenDb(version: Option<string>, applied: Option<string>): (r: Result<PatchSeries, QuiltError>)
    ensures r.Ok? <==> version.None? || StartsWith(version.value, VersionText())
    ensures r.Ok? ==> r.value == Read(applied)
    ensures r.Err? ==> r.error == DbVersion(FirstChar(version.value))
  {
    if version.Some? && FirstChar(version.value) != VersionText() then
      Err(DbVersion(FirstChar(version.value)))
    else
      Ok(Read(applied))
  }

  /** `Db.save()`: the version file, then the applied-patches file. */
  function SaveDb(db: PatchSeries): (files: (string, string))
    ensures files.0 == VersionText()
  {
    (VersionText(), Save(db))
  }

  /** A database that opened opens again, the same, once saved: the version
      written always passes the gate. */
  lemma DbReopens(version: Option<string>, applied: Option<string>)
    requires OpenDb(version, applied).Ok?
    ensures var files := SaveDb(OpenDb(version, applied).value);
            OpenDb(Some(files.0), Some(files.1)) == OpenDb(version, applied)
  {
    ReadSaveRead(applied);
  }

  /** The gate passes exactly when `.version` is missing or starts with "2":
      "2" and "23" pass; "", "1" and "32" do not. */
  lemma VersionExamples()
    ensures OpenDb(None, None).Ok?
    ensures OpenDb(Some("2\n"), None).Ok? && OpenDb(Some("23"), None).Ok?
    ensures OpenDb(Some(""), None) == Err(DbVersion(""))
    ensures OpenDb(Some("1"), None) == Err(DbVersion("1"))
    ensures OpenDb(Some("32"), None) == Err(DbVersion("3"))
  {
    assert FirstChar("1") == "1";
    assert "1"[0] != "2"[0];
    assert FirstChar("32") == "3" by { assert "32"[..1] == "3"; }
    assert "3"[0] != "2"[0];
  }
}
