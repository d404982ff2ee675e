/**
  Texts and lines as Go's strings and bufio packages cut them. A char stands
  for a byte; white space is ASCII white space.
 */
module Text {
  import opened Lists

  /** A file on disk. */
  class File {
    const path: string
    const onDisk: bool      // os.Stat finds it
    const isDir: bool
    const readable: bool    // os.ReadFile may read it
    var content: string

    constructor (path: string, onDisk: bool, isDir: bool, readable: bool, content: string)
      ensures this.path == path && this.onDisk == onDisk && this.isDir == isDir && this.readable == readable
              && this.content == content
    {
      this.path, this.onDisk, this.isDir, this.readable, this.content := path, onDisk, isDir, readable, content;
    }

    /** os.ReadFile. */
    function Data(): Option<string>
      reads this
    {
      if onDisk && !isDir && readable then Some(content) else None
    }
  }

  predicate Blank(c: char) {
    c == ' ' || c == '\t'
  }

  predicate Space(c: char) {
    Blank(c) || '\n' <= c <= '\r'
  }

  ghost predicate OneLine(s: string) {
    forall i :: 0 <= i < |s| ==> s[i] != '\n'
  }

  /** Where c last occurs in the first n characters of s, or -1. */
  function LastBefore(s: string, c: char, n: nat): (k: int)
    requires n <= |s|
    ensures -1 <= k < n && (k >= 0 ==> s[k] == c) && forall i :: k < i < n ==> s[i] != c
  {
    if n == 0 then -1 else if s[n - 1] == c then n - 1 else LastBefore(s, c, n - 1)
  }

  // ---- strings.Split(s, "\n") and strings.Join(lines, "\n") ----

  /** Where the first line of s ends: its first newline from i on, or its end. */
  function CutFrom(s: string, i: nat): (k: nat)
    requires i <= |s|
    ensures i <= k <= |s| && (k < |s| ==> s[k] == '\n') && forall j :: i <= j < k ==> s[j] != '\n'
    decreases |s| - i
  {
    if i == |s| || s[i] == '\n' then i else CutFrom(s, i + 1)
  }

  function Cut(s: string): (k: nat)
    ensures k <= |s| && (k < |s| ==> s[k] == '\n') && forall j :: 0 <= j < k ==> s[j] != '\n'
  {
    CutFrom(s, 0)
  }

  lemma CutUnique(s: string, k: nat)
    requires k <= |s| && (k < |s| ==> s[k] == '\n') && forall j :: 0 <= j < k ==> s[j] != '\n'
    ensures Cut(s) == k
  {
  }

  function Lines(s: string): (r: seq<string>)
    ensures |r| >= 1
  {
    var k := Cut(s);
    if k == |s| then [s] else [s[..k]] + Lines(s[k + 1..])
  }

  function Join(lines: seq<string>): string {
    if lines == [] then ""
    else if |lines| == 1 then lines[0]
    else lines[0] + "\n" + Join(lines[1..])
  }

  /** The lines of a text that has a newline. */
  lemma LinesStep(s: string)
    requires Cut(s) < |s|
    ensures Lines(s) == [s[..Cut(s)]] + Lines(s[Cut(s) + 1..])
  {
  }

  lemma {:induction false} LineIsLine(s: string, i: nat)
    requires i < |Lines(s)|
    ensures OneLine(Lines(s)[i])
  {
    var k, lines := Cut(s), Lines(s);
    if k == |s| {
      assert lines == [s];
    } else {
      LinesStep(s);
      if i == 0 {
        assert lines[0] == s[..k];
      } else {
        LineIsLine(s[k + 1..], i - 1);
        assert lines[i] == Lines(s[k + 1..])[i - 1];
      }
    }
  }

  lemma LinesAreLines(s: string)
    ensures forall l :: l in Lines(s) ==> OneLine(l)
  {
    forall i | 0 <= i < |Lines(s)|
      ensures OneLine(Lines(s)[i])
    {
      LineIsLine(s, i);
    }
  }

  lemma JoinStep(first: string, rest: seq<string>)
    requires rest != []
    ensures Join([first] + rest) == first + "\n" + Join(rest)
  {
    assert ([first] + rest)[1..] == rest;
  }

  lemma {:induction false} JoinLines(s: string)
    ensures Join(Lines(s)) == s
  {
    var k := Cut(s);
    if k < |s| {
      JoinLines(s[k + 1..]);
      LinesStep(s);
      JoinStep(s[..k], Lines(s[k + 1..]));
      assert s == s[..k] + "\n" + s[k + 1..];
    }
  }

  lemma LinesOfLine(l: string)
    requires OneLine(l)
    ensures Lines(l) == [l]
  {
    assert l[..|l|] == l;
    CutUnique(l, |l|);
  }

  /** A newline between two texts separates their lines. */
  lemma {:induction false} LinesConcat(a: string, b: string)
    ensures Lines(a + "\n" + b) == Lines(a) + Lines(b)
  {
    var s, k := a + "\n" + b, Cut(a);
    assert s[..k] == a[..k];
    CutUnique(s, k);
    if k == |a| {
      assert a[..k] == a && s[k + 1..] == b;
    } else {
      assert s[k + 1..] == a[k + 1..] + "\n" + b;
      LinesConcat(a[k + 1..], b);
    }
  }

  lemma {:induction false} LinesJoin(lines: seq<string>)
    requires |lines| >= 1 && forall l :: l in lines ==> OneLine(l)
    ensures Lines(Join(lines)) == lines
  {
    LinesOfLine(lines[0]);
    if |lines| > 1 {
      var rest := lines[1..];
      LinesJoin(rest);
      LinesConcat(lines[0], Join(rest));
      JoinStep(lines[0], rest);
      assert lines == [lines[0]] + rest;
    }
  }

  // ---- bufio.ScanLines ----

  function DropCR(l: string): string {
    if l != [] && l[|l| - 1] == '\r' then l[..|l| - 1] else l
  }

  /**
    What follows the last newline is a line only if it is not empty; a final
    carriage return is dropped from each line.
   */
  function ScanLines(s: string): seq<string> {
    Map(DropCR, Kept(Lines(s)))
  }

  function Kept(lines: seq<string>): seq<string>
    requires lines != []
  {
    if lines[|lines| - 1] == "" then lines[..|lines| - 1] else lines
  }

  /** Each line with a newline after it: what a loop of Fprintln writes. */
  function Print(lines: seq<string>): string {
    if lines == [] then "" else lines[0] + "\n" + Print(lines[1..])
  }

  lemma {:induction false} PrintOneMore(lines: seq<string>, l: string)
    ensures Print(lines + [l]) == Print(lines) + l + "\n"
  {
    if lines == [] {
      assert lines + [l] == [l] && [l][1..] == [];
      assert Print([l]) == l + "\n" + "";
    } else {
      PrintOneMore(lines[1..], l);
      assert (lines + [l])[1..] == lines[1..] + [l];
    }
  }

  lemma {:induction false} LinesOfPrint(lines: seq<string>)
    requires forall l :: l in lines ==> OneLine(l)
    ensures Lines(Print(lines)) == lines + [""]
  {
    if lines == [] {
      LinesOfLine("");
    } else {
      LinesOfPrint(lines[1..]);
      LinesOfLine(lines[0]);
      LinesConcat(lines[0], Print(lines[1..]));
      assert [lines[0]] + (lines[1..] + [""]) == lines + [""];
    }
  }

  lemma ScanOfPrint(lines: seq<string>)
    requires forall l :: l in lines ==> OneLine(l)
    ensures ScanLines(Print(lines)) == Map(DropCR, lines)
  {
    LinesOfPrint(lines);
    assert (lines + [""])[..|lines|] == lines;
  }

  lemma {:induction false} PrintIsJoin(lines: seq<string>)
    requires lines != []
    ensures Print(lines) == Join(lines) + "\n"
  {
    if |lines| > 1 {
      PrintIsJoin(lines[1..]);
    } else {
      assert Print(lines[1..]) == "";
    }
  }

  /** Text below the last newline is a line too. */
  lemma LinesBelow(lines: seq<string>, last: string)
    requires (forall l :: l in lines ==> OneLine(l)) && OneLine(last)
    ensures Lines(Print(lines) + last) == lines + [last]
  {
    LinesOfLine(last);
    if lines == [] {
      assert Print(lines) + last == last;
    } else {
      PrintIsJoin(lines);
      LinesJoin(lines);
      LinesConcat(Join(lines), last);
    }
  }

  lemma ScanBelow(lines: seq<string>, last: string)
    requires (forall l :: l in lines ==> OneLine(l)) && OneLine(last) && last != ""
    ensures ScanLines(Print(lines) + last) == Map(DropCR, lines + [last])
  {
    LinesBelow(lines, last);
  }

  // ---- Trimming ----

  /** strings.TrimRight(s, " \t") */
  function TrimRight(s: string): string {
    if s != [] && Blank(s[|s| - 1]) then TrimRight(s[..|s| - 1]) else s
  }

  lemma {:induction false} TrimRightIsTrimmed(s: string)
    ensures var t := TrimRight(s);
            && t <= s && (t == [] || !Blank(t[|t| - 1]))
            && (forall i :: |t| <= i < |s| ==> Blank(s[i]))
            && (t == s <==> s == [] || !Blank(s[|s| - 1]))
  {
    if s != [] && Blank(s[|s| - 1]) {
      TrimRightIsTrimmed(s[..|s| - 1]);
    }
  }

  function TrimLeftSpace(s: string): string {
    if s != [] && Space(s[0]) then TrimLeftSpace(s[1..]) else s
  }

  function TrimRightSpace(s: string): string {
    if s != [] && Space(s[|s| - 1]) then TrimRightSpace(s[..|s| - 1]) else s
  }

  /** strings.TrimSpace */
  function TrimSpace(s: string): string {
    TrimRightSpace(TrimLeftSpace(s))
  }

  /** The scanner's carriage return never reaches a reader that trims. */
  lemma {:induction false} TrimDropsCR(l: string)
    ensures TrimSpace(DropCR(l)) == TrimSpace(l)
  {
    if l != [] && l[|l| - 1] == '\r' {
      TrimSpaceInit(l);
    }
  }

  lemma {:induction false} TrimSpaceInit(l: string)
    requires l != [] && Space(l[|l| - 1])
    ensures TrimSpace(l[..|l| - 1]) == TrimSpace(l)
  {
    if Space(l[0]) {
      if |l| > 1 {
        TrimSpaceInit(l[1..]);
        assert l[1..][..|l| - 2] == l[..|l| - 1][1..];
      }
    }
  }

  // ---- Searching ----

  predicate At(s: string, i: nat, sub: string) {
    i + |sub| <= |s| && s[i..i + |sub|] == sub
  }

  ghost predicate Occurs(s: string, sub: string) {
    exists i: nat :: At(s, i, sub)
  }

  /** strings.Index: the first occurrence. */
  function Index(s: string, sub: string): (r: Option<nat>)
    ensures r.Some? ==> At(s, r.value, sub) && forall i: nat :: i < r.value ==> !At(s, i, sub)
    ensures r.None? <==> !Occurs(s, sub)
  {
    IndexFrom(s, sub, 0)
  }

  function IndexFrom(s: string, sub: string, k: nat): (r: Option<nat>)
    requires k <= |s|
    ensures r.Some? ==> k <= r.value && At(s, r.value, sub) && forall i: nat :: k <= i < r.value ==> !At(s, i, sub)
    ensures r.None? <==> forall i: nat :: k <= i ==> !At(s, i, sub)
    decreases |s| - k
  {
    if At(s, k, sub) then Some(k)
    else if k == |s| then None
    else IndexFrom(s, sub, k + 1)
  }

  lemma IndexIs(s: string, sub: string, k: nat)
    requires At(s, k, sub) && forall i: nat :: i < k ==> !At(s, i, sub)
    ensures Index(s, sub) == Some(k)
  {
  }

  predicate Contains(s: string, sub: string)
    ensures Contains(s, sub) <==> Occurs(s, sub)
  {
    Index(s, sub).Some?
  }
}
