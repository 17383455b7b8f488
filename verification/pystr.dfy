/** The few Python string and os.path operations the core relies on, over
    `string` (a `seq<char>`). Only the behaviour on Python 2 byte strings is
    modelled: whitespace is the six ASCII characters of `string.whitespace`. */
module PyStr {

  /** A character `str.strip()` removes: space, \t, \n, \r, \x0b, \x0c. */
  predicate IsSpace(c: char) {
    c == ' ' || c == '\t' || c == '\n' || c == '\r' || c as int == 11 || c as int == 12
  }

  predicate IsCRLF(c: char) {
    c == '\r' || c == '\n'
  }

  predicate StartsWith(s: string, prefix: string) {
    |prefix| <= |s| && s[..|prefix|] == prefix
  }

  /** `s.rstrip("\r\n")` */
  function RStripCRLF(s: string): (r: string)
    ensures r <= s
    ensures r == [] || !IsCRLF(r[|r| - 1])
    ensures forall i | |r| <= i < |s| :: IsCRLF(s[i])
  {
    if |s| > 0 && IsCRLF(s[|s| - 1]) then RStripCRLF(s[..|s| - 1]) else s
  }

  /** `s.rstrip()` */
  function RStrip(s: string): (r: string)
    ensures r <= s
    ensures r == [] || !IsSpace(r[|r| - 1])
    ensures forall i | |r| <= i < |s| :: IsSpace(s[i])
  {
    if |s| > 0 && IsSpace(s[|s| - 1]) then RStrip(s[..|s| - 1]) else s
  }

  /** `s.lstrip()` */
  function LStrip(s: string): (r: string)
    ensures |r| <= |s| && r == s[|s| - |r|..]
    ensures r == [] || !IsSpace(r[0])
    ensures forall i | 0 <= i < |s| - |r| :: IsSpace(s[i])
  {
    if |s| > 0 && IsSpace(s[0]) then LStrip(s[1..]) else s
  }

  /** `s.strip()` */
  function Strip(s: string): (r: string)
    ensures r == [] || (!IsSpace(r[0]) && !IsSpace(r[|r| - 1]))
    ensures (forall i | 0 <= i < |s| :: IsSpace(s[i])) <==> r == []
  {
    var t := RStrip(s);
    var r := LStrip(t);
    StripEmpty(s);
    assert r != [] ==> !IsSpace(s[|t| - |r|]) by {
      if r != [] { assert t[|t| - |r|] == r[0]; }
    }
    r
  }

  /** Text with a non-space last character does not strip away: `strip()`
      is empty only after `rstrip()` is. */
  lemma {:induction false} StripEmpty(s: string)
    ensures LStrip(RStrip(s)) == [] ==> RStrip(s) == []
  {
    var t := RStrip(s);
    if t != [] {
      assert !IsSpace(t[|t| - 1]);
    }
  }

  /** Index of the first `c` in `s`, or `|s|` when `c` does not occur. */
  function Find(s: string, c: char): (k: nat)
    ensures k <= |s|
    ensures c !in s[..k]
    ensures k < |s| <==> c in s
    ensures k < |s| ==> s[k] == c
  {
    if s == [] then 0
    else if s[0] == c then 0
    else 1 + Find(s[1..], c)
  }

  /** Index of the last `c` in `s`, or -1 when `c` does not occur. */
  function FindLast(s: string, c: char): (k: int)
    ensures -1 <= k < |s|
    ensures c !in s[k + 1..]
    ensures k >= 0 <==> c in s
    ensures k >= 0 ==> s[k] == c
  {
    if s == [] then -1
    else if s[|s| - 1] == c then |s| - 1
    else
      var k := FindLast(s[..|s| - 1], c);
      assert c !in s[k + 1..] by {
        forall j | k + 1 <= j < |s| ensures s[j] != c {
          if j < |s| - 1 { assert s[j] == s[..|s| - 1][k + 1..][j - k - 1]; }
        }
      }
      k
  }

  /** `s.split()`: the maximal runs of non-whitespace characters, in order. */
  function Words(s: string): (ws: seq<string>)
    ensures forall w | w in ws :: w != [] && forall c | c in w :: !IsSpace(c)
    decreases |s|
  {
    var t := LStrip(s);
    if t == [] then []
    else
      var n := WordLength(t);
      [t[..n]] + Words(t[n..])
  }

  /** Length of the leading run of non-whitespace characters of `t`. */
  function WordLength(t: string): (n: nat)
    ensures n <= |t|
    ensures forall i | 0 <= i < n :: !IsSpace(t[i])
    ensures n == |t| || IsSpace(t[n])
  {
    if t == [] || IsSpace(t[0]) then 0 else 1 + WordLength(t[1..])
  }

  /** `os.path.basename(p)`: what follows the last '/'. */
  function Basename(p: string): (b: string)
    ensures '/' !in b
    ensures |b| <= |p| && b == p[|p| - |b|..]
  {
    p[FindLast(p, '/') + 1..]
  }

  /** `os.path.dirname(p)`: what precedes the last '/', with trailing slashes
      removed unless it consists of slashes only. */
  function Dirname(p: string): string {
    var head := p[..FindLast(p, '/') + 1];
    if head != [] && exists i | 0 <= i < |head| :: head[i] != '/' then RStripSlash(head) else head
  }

  function RStripSlash(s: string): (r: string)
    ensures r <= s
  {
    if |s| > 0 && s[|s| - 1] == '/' then RStripSlash(s[..|s| - 1]) else s
  }

  /** A path with a '/' has a directory part. */
  lemma DirnameNonEmpty(p: string)
    requires '/' in p
    ensures Dirname(p) != []
  {
    var head := p[..FindLast(p, '/') + 1];
    if exists i | 0 <= i < |head| :: head[i] != '/' {
      RStripKeepsText(head);
    }
  }

  /** Stripping trailing slashes leaves a text that is not all slashes
      non-empty. */
  lemma {:induction false} RStripKeepsText(s: string)
    requires exists i | 0 <= i < |s| :: s[i] != '/'
    ensures RStripSlash(s) != []
    decreases |s|
  {
    if |s| > 0 && s[|s| - 1] == '/' {
      var i :| 0 <= i < |s| && s[i] != '/';
      assert s[..|s| - 1][i] != '/';
      RStripKeepsText(s[..|s| - 1]);
    }
  }

  /** `os.path.join(a, b)` for two components. */
  function Join(a: string, b: string): string {
    if StartsWith(b, "/") then b
    else if a == [] || a[|a| - 1] == '/' then a + b
    else a + "/" + b
  }

  /** A name with no whitespace and no '#': text that the series parser reads
      back as exactly that name. */
  predicate PlainName(n: string) {
    n != [] && forall c | c in n :: !IsSpace(c) && c != '#'
  }
}
