/** The whitespace checker and its fixer (internal/pkg/checks/files.go). */
module FileChecks {
  import opened Lists
  import opened Text

  const MAX_FILE_SIZE: nat := 512_000
  const BINARY_SNIFF_LEN: nat := 8000

  const SIZE_EXEMPT_NAMES: seq<string> := [
    "package-lock.json", "npm-shrinkwrap.json", "pnpm-lock.yaml", "yarn.lock", "bun.lock", "go.sum",
    "Cargo.lock", "Gemfile.lock", "poetry.lock", "uv.lock", "composer.lock"]

  datatype Violation = TooLarge | TrailingWhitespace(line: nat) | MissingNewline

  /** How long the path is without the slashes at its end. */
  function EndBefore(path: string, n: nat): (k: nat)
    requires n <= |path|
    ensures k <= n && (k > 0 ==> path[k - 1] != '/') && forall i :: k <= i < n ==> path[i] == '/'
  {
    if n > 0 && path[n - 1] == '/' then EndBefore(path, n - 1) else n
  }

  /** r stands between two slashes of path, or where it begins, and nothing but slashes follows it. */
  ghost predicate EndsWithElement(path: string, r: string, k: nat) {
    && r != [] && '/' !in r && k + |r| <= |path| && path[k..k + |r|] == r
    && (k == 0 || path[k - 1] == '/') && forall i :: k + |r| <= i < |path| ==> path[i] == '/'
  }

  ghost predicate OnlySlashes(path: string) {
    forall i :: 0 <= i < |path| ==> path[i] == '/'
  }

  /** filepath.Base: the last element of the path, "." for no path and "/" for nothing but slashes. */
  function Base(path: string): (r: string)
    ensures if path == [] then r == "."
            else if OnlySlashes(path) then r == "/"
            else exists k: nat :: EndsWithElement(path, r, k)
  {
    var end := EndBefore(path, |path|);
    if path == [] then "."
    else if end == 0 then "/"
    else
      var start := LastBefore(path, '/', end) + 1;
      assert path[end - 1] != '/' && EndsWithElement(path, path[start..end], start);
      path[start..end]
  }

  predicate SizeExempt(path: string) {
    Base(path) in SIZE_EXEMPT_NAMES
  }

  predicate IsBinary(data: string) {
    '\0' in data[..if |data| < BINARY_SNIFF_LEN then |data| else BINARY_SNIFF_LEN]
  }

  lemma ElementUnique(path: string, r: string, k: nat, q: string, m: nat)
    requires EndsWithElement(path, r, k) && EndsWithElement(path, q, m)
    ensures r == q
  {
    assert forall i :: 0 <= i < |r| ==> path[k + i] == r[i] && r[i] != '/';
    assert forall i :: 0 <= i < |q| ==> path[m + i] == q[i] && q[i] != '/';
    assert path[k + |r| - 1] != '/' && path[m + |q| - 1] != '/';
  }

  /** A file is exempt when the last element of its path is one of the names. */
  lemma ExemptIff(path: string)
    ensures SizeExempt(path) <==>
            exists name, k: nat :: name in SIZE_EXEMPT_NAMES && EndsWithElement(path, name, k)
  {
    if name, k: nat :| name in SIZE_EXEMPT_NAMES && EndsWithElement(path, name, k) {
      assert path[k] == name[0];
      var m: nat :| EndsWithElement(path, Base(path), m);
      ElementUnique(path, name, k, Base(path), m);
    }
    if SizeExempt(path) {
      assert |"."| == |"/"| == 1 && forall name :: name in SIZE_EXEMPT_NAMES ==> |name| > 1;
    }
  }

  /** The line rules skip files that are too large and not exempt, and files with a NUL byte among the first 8000. */
  lemma GatedIff(path: string, data: string)
    ensures Gated(path, data) <==>
            || (|data| > 512_000 && !exists name, k: nat :: name in SIZE_EXEMPT_NAMES && EndsWithElement(path, name, k))
            || exists i :: 0 <= i < |data| && i < 8000 && data[i] == '\0'
  {
    ExemptIff(path);
    var n := if |data| < BINARY_SNIFF_LEN then |data| else BINARY_SNIFF_LEN;
    assert forall i :: 0 <= i < n ==> data[..n][i] == data[i];
  }

  predicate Oversized(path: string, data: string) {
    |data| > MAX_FILE_SIZE && !SizeExempt(path)
  }

  /** The line rules do not apply to this file. */
  predicate Gated(path: string, data: string) {
    Oversized(path, data) || IsBinary(data)
  }

  // ---- The rules ----

  predicate Trailing(line: string) {
    TrimRight(line) != line
  }

  predicate EndsInNewline(data: string) {
    data == [] || data[|data| - 1] == '\n'
  }

  /** vs reports exactly the lines with trailing white space, numbered from 1 and in order, then a missing newline. */
  ghost predicate Reports(vs: seq<Violation>, lines: seq<string>, missing: bool) {
    && (forall v :: v in vs <==> (TrailingAt(lines, v) || (v.MissingNewline? && missing)))
    && Ascending(vs)
  }

  /** Line numbers go up, and only the last entry may be about something else than a line. */
  ghost predicate Ascending(vs: seq<Violation>) {
    forall i, j :: 0 <= i < j < |vs| ==>
      && vs[i].TrailingWhitespace?
      && (vs[j].TrailingWhitespace? ==> vs[i].line < vs[j].line)
  }

  ghost predicate TrailingAt(lines: seq<string>, v: Violation) {
    v.TrailingWhitespace? && 1 <= v.line <= |lines| && Trailing(lines[v.line - 1])
  }

  function Fixed(data: string): string {
    Print(Map(TrimRight, ScanLines(data)))
  }

  /** The fixer leaves a gated file alone. */
  function FixOnce(path: string, data: string): string {
    if Gated(path, data) then data else Fixed(data)
  }

  // ---- checkFileContent and fixFileContent ----

  lemma OneMoreEntry(vs: seq<Violation>, v: Violation)
    requires Ascending(vs)
    requires forall w :: w in vs ==> w.TrailingWhitespace? && (v.TrailingWhitespace? ==> w.line < v.line)
    ensures Ascending(vs + [v])
  {
    var all := vs + [v];
    forall i, j | 0 <= i < j < |all|
      ensures all[i].TrailingWhitespace? && (all[j].TrailingWhitespace? ==> all[i].line < all[j].line)
    {
      assert all[i] == vs[i] && vs[i] in vs;
    }
  }

  method TrailingLines(lines: seq<string>) returns (vs: seq<Violation>)
    ensures forall v :: v in vs <==> TrailingAt(lines, v)
    ensures Ascending(vs)
  {
    vs := [];
    var lineNum := 0;
    while lineNum < |lines|
      invariant 0 <= lineNum <= |lines|
      invariant forall v :: v in vs <==> TrailingAt(lines, v) && v.line <= lineNum
      invariant Ascending(vs)
    {
      lineNum := lineNum + 1;
      if Trailing(lines[lineNum - 1]) {
        OneMoreEntry(vs, TrailingWhitespace(lineNum));
        vs := vs + [TrailingWhitespace(lineNum)];
      }
    }
  }

  method CheckLines(lines: seq<string>, missing: bool) returns (vs: seq<Violation>)
    ensures Reports(vs, lines, missing)
  {
    vs := TrailingLines(lines);
    if missing {
      OneMoreEntry(vs, MissingNewline);
      vs := vs + [MissingNewline];
    }
  }

  method CheckFileContent(f: File) returns (r: Result<seq<Violation>>)
    ensures r.Err? <==> !f.onDisk || (!f.isDir && !Oversized(f.path, f.content) && !f.readable)
    ensures r.Ok? && f.isDir ==> r.value == []
    ensures r.Ok? && !f.isDir && Gated(f.path, f.content) ==>
              r.value == if Oversized(f.path, f.content) then [TooLarge] else []
    ensures r.Ok? && !f.isDir && !Gated(f.path, f.content) ==>
              Reports(r.value, ScanLines(f.content), !EndsInNewline(f.content))
  {
    if !f.onDisk {
      return Err("stat");
    }
    if f.isDir {
      return Ok([]);
    }
    if Oversized(f.path, f.content) {
      return Ok([TooLarge]);
    }
    if f.Data().None? {
      return Err("read");
    }
    var data := f.Data().value;
    if IsBinary(data) {
      return Ok([]);
    }
    var vs := CheckLines(ScanLines(data), |data| > 0 && data[|data| - 1] != '\n');
    r := Ok(vs);
  }

  method FixFileContent(f: File) returns (ok: bool)
    modifies f`content
    ensures ok <==> f.onDisk && (f.isDir || Oversized(f.path, old(f.content)) || f.readable)
    ensures f.content == if ok && !f.isDir then FixOnce(f.path, old(f.content)) else old(f.content)
  {
    if !f.onDisk {
      return false;
    }
    if f.isDir || Oversized(f.path, f.content) {
      return true;
    }
    if f.Data().None? {
      return false;
    }
    var data := f.Data().value;
    if IsBinary(data) {
      return true;
    }
    var buf := PrintTrimmed(ScanLines(data));
    f.content := buf;
    return true;
  }

  lemma PrintNext(lines: seq<string>, i: nat)
    requires i < |lines|
    ensures Print(lines[..i + 1]) == Print(lines[..i]) + lines[i] + "\n"
  {
    assert lines[..i + 1] == lines[..i] + [lines[i]];
    PrintOneMore(lines[..i], lines[i]);
  }

  method PrintTrimmed(lines: seq<string>) returns (buf: string)
    ensures buf == Print(Map(TrimRight, lines))
  {
    buf := "";
    ghost var trimmed := Map(TrimRight, lines);
    for i := 0 to |lines|
      invariant buf == Print(trimmed[..i])
    {
      PrintNext(trimmed, i);
      buf := buf + TrimRight(lines[i]) + "\n";
    }
    assert trimmed[..|lines|] == trimmed;
  }

  // ---- The fixer against the checker ----

  ghost predicate Clean(data: string) {
    EndsInNewline(data) && forall l :: l in ScanLines(data) ==> !Trailing(l)
  }

  ghost predicate EndsInCR(t: string) {
    t != [] && t[|t| - 1] == '\r'
  }

  ghost predicate EndsInBlankCR(t: string) {
    |t| >= 2 && t[|t| - 1] == '\r' && Blank(t[|t| - 2])
  }

  /** Trimmed of blanks, the line ends in a carriage return. */
  ghost predicate HidesCR(line: string) {
    EndsInCR(TrimRight(line))
  }

  /** Trimmed of blanks, the line ends in a blank and a carriage return. */
  ghost predicate HidesBlankCR(line: string) {
    EndsInBlankCR(TrimRight(line))
  }

  lemma ScannedAreLines(data: string)
    ensures forall l :: l in ScanLines(data) ==> OneLine(l)
  {
    LinesAreLines(data);
    var lines := Lines(data);
    assert forall i :: 0 <= i < |lines| ==> OneLine(lines[i]);
    assert forall i :: 0 <= i < |ScanLines(data)| ==> ScanLines(data)[i] == DropCR(lines[i]);
  }

  lemma TrimmedAreLines(lines: seq<string>)
    requires forall l :: l in lines ==> OneLine(l)
    ensures forall l :: l in Map(TrimRight, lines) ==> OneLine(l)
  {
    forall i | 0 <= i < |lines|
      ensures OneLine(TrimRight(lines[i]))
    {
      assert lines[i] in lines;
      TrimRightIsTrimmed(lines[i]);
    }
  }

  /** after is what a reader of the fixed file sees instead of before. */
  ghost predicate Refixed(before: seq<string>, after: seq<string>) {
    |after| == |before| && forall i :: 0 <= i < |before| ==> after[i] == DropCR(TrimRight(before[i]))
  }

  lemma {:induction false} PrintEndsInNewline(lines: seq<string>)
    ensures EndsInNewline(Print(lines))
  {
    if lines != [] {
      PrintEndsInNewline(lines[1..]);
    }
  }

  /** What a second reader sees in a fixed file. */
  lemma FixedLines(data: string)
    ensures EndsInNewline(Fixed(data)) && Refixed(ScanLines(data), ScanLines(Fixed(data)))
  {
    ScannedAreLines(data);
    TrimmedAreLines(ScanLines(data));
    ScanOfPrint(Map(TrimRight, ScanLines(data)));
    PrintEndsInNewline(Map(TrimRight, ScanLines(data)));
  }

  lemma DropTrailing(t: string)
    requires t == [] || !Blank(t[|t| - 1])
    ensures Trailing(DropCR(t)) <==> EndsInBlankCR(t)
  {
    TrimRightIsTrimmed(DropCR(t));
  }

  lemma FixedLineTrailing(line: string)
    ensures Trailing(DropCR(TrimRight(line))) <==> HidesBlankCR(line)
  {
    TrimRightIsTrimmed(line);
    DropTrailing(TrimRight(line));
  }

  lemma RefixedTrailing(before: seq<string>, after: seq<string>)
    requires Refixed(before, after)
    ensures (forall l :: l in after ==> !Trailing(l)) <==> (forall l :: l in before ==> !HidesBlankCR(l))
  {
    forall i | 0 <= i < |before|
      ensures Trailing(after[i]) <==> HidesBlankCR(before[i])
    {
      FixedLineTrailing(before[i]);
    }
    assert forall i :: 0 <= i < |before| ==> before[i] in before && after[i] in after;
  }

  /** The fixer satisfies the checker exactly when no line hides a blank before a carriage return. */
  lemma FixedIsCleanIff(data: string)
    ensures Clean(Fixed(data)) <==> forall l :: l in ScanLines(data) ==> !HidesBlankCR(l)
  {
    FixedLines(data);
    RefixedTrailing(ScanLines(data), ScanLines(Fixed(data)));
  }

  lemma TrimTwice(line: string)
    ensures TrimRight(DropCR(TrimRight(line))) == TrimRight(line) <==> !HidesCR(line)
  {
    TrimRightIsTrimmed(line);
    TrimRightIsTrimmed(DropCR(TrimRight(line)));
  }

  lemma PrintInjective(a: seq<string>, b: seq<string>)
    requires (forall l :: l in a ==> OneLine(l)) && (forall l :: l in b ==> OneLine(l)) && Print(a) == Print(b)
    ensures a == b
  {
    LinesOfPrint(a);
    LinesOfPrint(b);
    assert (a + [""])[..|a|] == a && (b + [""])[..|b|] == b;
  }

  lemma RefixedTrim(before: seq<string>, after: seq<string>)
    requires Refixed(before, after)
    ensures Map(TrimRight, after) == Map(TrimRight, before) <==> forall l :: l in before ==> !HidesCR(l)
  {
    var once, twice := Map(TrimRight, before), Map(TrimRight, after);
    forall i | 0 <= i < |before|
      ensures twice[i] == once[i] <==> !HidesCR(before[i])
    {
      TrimTwice(before[i]);
    }
    assert forall i :: 0 <= i < |before| ==> before[i] in before;
  }

  /** A second fix changes nothing exactly when no line hides a carriage return. */
  lemma SecondFixIsIdentityIff(data: string)
    ensures Fixed(Fixed(data)) == Fixed(data) <==> forall l :: l in ScanLines(data) ==> !HidesCR(l)
  {
    FixedLines(data);
    RefixedTrim(ScanLines(data), ScanLines(Fixed(data)));
    ScannedAreLines(data);
    ScannedAreLines(Fixed(data));
    TrimmedAreLines(ScanLines(data));
    TrimmedAreLines(ScanLines(Fixed(data)));
    if Fixed(Fixed(data)) == Fixed(data) {
      PrintInjective(Map(TrimRight, ScanLines(Fixed(data))), Map(TrimRight, ScanLines(data)));
    }
  }

  // ---- Through the gates ----

  /** The checker has nothing to say about lines or the final newline. */
  ghost predicate Passes(path: string, data: string) {
    Gated(path, data) || Clean(data)
  }

  /**
    On any file: the checker accepts the fixed file, and a second fix changes
    nothing, exactly when the file or its fixed form is gated or no line hides
    such an ending.
   */
  lemma FixThenCheck(path: string, data: string)
    ensures Passes(path, FixOnce(path, data)) <==>
            Gated(path, data) || Gated(path, Fixed(data)) || forall l :: l in ScanLines(data) ==> !HidesBlankCR(l)
    ensures FixOnce(path, FixOnce(path, data)) == FixOnce(path, data) <==>
            Gated(path, data) || Gated(path, Fixed(data)) || forall l :: l in ScanLines(data) ==> !HidesCR(l)
  {
    FixedIsCleanIff(data);
    SecondFixIsIdentityIff(data);
  }

  /** Every carriage return is followed by a newline or ends the text. */
  ghost predicate PlacedCRs(data: string) {
    forall i :: 0 <= i < |data| && data[i] == '\r' ==> i + 1 == |data| || data[i + 1] == '\n'
  }

  lemma {:induction false} PlacedCRsEndLines(data: string)
    requires PlacedCRs(data)
    ensures forall l :: l in Lines(data) ==> '\r' !in DropCR(l)
  {
    var k := Cut(data);
    var first := data[..k];
    forall i | 0 <= i < |DropCR(first)|
      ensures DropCR(first)[i] != '\r'
    {
      assert first[i] == data[i];
      if i + 1 < k {
        assert first[i + 1] == data[i + 1] && first[i + 1] in first;
      }
    }
    if k < |data| {
      var rest := data[k + 1..];
      assert forall i :: 0 <= i < |rest| ==> rest[i] == data[k + 1 + i];
      PlacedCRsEndLines(rest);
    } else {
      assert first == data;
    }
  }

  /** A text with ordinary line ends is fixed in one go, whatever the file. */
  lemma OrdinaryTextIsFixed(path: string, data: string)
    requires PlacedCRs(data)
    ensures Passes(path, FixOnce(path, data)) && FixOnce(path, FixOnce(path, data)) == FixOnce(path, data)
  {
    PlacedCRsEndLines(data);
    var lines := Lines(data);
    forall l | l in ScanLines(data)
      ensures !HidesCR(l) && !HidesBlankCR(l)
    {
      var i :| 0 <= i < |ScanLines(data)| && ScanLines(data)[i] == l;
      assert l == DropCR(lines[i]) && lines[i] in lines;
      TrimRightIsTrimmed(l);
    }
    FixThenCheck(path, data);
  }

  /** A blank between two carriage returns survives the fixer as trailing white space. */
  lemma HiddenBlankSurvives()
    ensures ScanLines("a \r\r\n") == ["a \r"] && !Clean(Fixed("a \r\r\n"))
  {
    LinesOfLine("a \r\r");
    LinesOfLine("");
    LinesConcat("a \r\r", "");
    assert "a \r\r\n" == "a \r\r" + "\n" + "";
    assert Lines("a \r\r\n") == ["a \r\r", ""];
    assert ["a \r\r", ""][..1] == ["a \r\r"];
    assert DropCR("a \r\r") == "a \r";
    assert ScanLines("a \r\r\n") == ["a \r"];
    assert TrimRight("a \r") == "a \r";
    assert HidesBlankCR("a \r") && "a \r" in ScanLines("a \r\r\n");
    FixedIsCleanIff("a \r\r\n");
  }

  // ---- Size ----

  function Total(lines: seq<string>): nat {
    if lines == [] then 0 else |lines[0]| + 1 + Total(lines[1..])
  }

  lemma {:induction false} JoinLength(lines: seq<string>)
    requires lines != []
    ensures |Join(lines)| + 1 == Total(lines)
  {
    if |lines| > 1 {
      JoinLength(lines[1..]);
    } else {
      assert Total(lines[1..]) == 0;
    }
  }

  lemma {:induction false} PrintLength(lines: seq<string>)
    ensures |Print(lines)| == Total(lines)
  {
    if lines != [] {
      PrintLength(lines[1..]);
    }
  }

  lemma {:induction false} TotalMonotone(a: seq<string>, b: seq<string>)
    requires |a| == |b| && forall i :: 0 <= i < |a| ==> |a[i]| <= |b[i]|
    ensures Total(a) <= Total(b)
  {
    if a != [] {
      TotalMonotone(a[1..], b[1..]);
    }
  }

  lemma {:induction false} TotalInit(lines: seq<string>)
    requires lines != [] && lines[|lines| - 1] == ""
    ensures Total(lines[..|lines| - 1]) + 1 == Total(lines)
  {
    if |lines| == 1 {
      assert Total(lines[1..]) == 0;
    } else {
      TotalInit(lines[1..]);
      assert lines[1..][..|lines| - 2] == lines[..|lines| - 1][1..];
    }
  }

  lemma {:induction false} JoinEnd(lines: seq<string>)
    requires |lines| > 1 && lines[|lines| - 1] == ""
    ensures Join(lines) != [] && Join(lines)[|Join(lines)| - 1] == '\n'
  {
    if |lines| > 2 {
      JoinEnd(lines[1..]);
    } else {
      assert Join(lines[1..]) == "";
    }
  }

  lemma LastLine(data: string)
    ensures Lines(data)[|Lines(data)| - 1] == "" <==> EndsInNewline(data)
  {
    var lines := Lines(data);
    JoinLines(data);
    if |lines| > 1 && lines[|lines| - 1] == "" {
      JoinEnd(lines);
    }
    if data == [] {
      LinesOfLine(data);
    } else if data[|data| - 1] == '\n' {
      var init := data[..|data| - 1];
      assert data == init + "\n" + "";
      LinesConcat(init, "");
      LinesOfLine("");
    }
  }

  lemma TrimmedLength(kept: seq<string>)
    ensures |Print(Map(TrimRight, Map(DropCR, kept)))| <= Total(kept)
  {
    var trimmed := Map(TrimRight, Map(DropCR, kept));
    forall i | 0 <= i < |kept|
      ensures |trimmed[i]| <= |kept[i]|
    {
      TrimRightIsTrimmed(DropCR(kept[i]));
    }
    TotalMonotone(trimmed, kept);
    PrintLength(trimmed);
  }

  lemma KeptLength(lines: seq<string>)
    requires lines != []
    ensures |Print(Map(TrimRight, Map(DropCR, Kept(lines))))|
         <= |Join(lines)| + if lines[|lines| - 1] == "" then 0 else 1
  {
    JoinLength(lines);
    TrimmedLength(Kept(lines));
    if lines[|lines| - 1] == "" {
      TotalInit(lines);
    }
  }

  lemma FixedLengthOf(data: string, lines: seq<string>)
    requires lines == Lines(data) && Join(lines) == data && (lines[|lines| - 1] == "" <==> EndsInNewline(data))
    ensures |Fixed(data)| <= |data| + if EndsInNewline(data) then 0 else 1
  {
    KeptLength(lines);
    assert Fixed(data) == Print(Map(TrimRight, Map(DropCR, Kept(lines))));
  }

  /** Fixing adds at most one byte, and only a missing newline. */
  lemma FixedLength(data: string)
    ensures |Fixed(data)| <= |data| + if EndsInNewline(data) then 0 else 1
  {
    JoinLines(data);
    LastLine(data);
    FixedLengthOf(data, Lines(data));
  }

  /** Fixing keeps every byte of the line. */
  ghost predicate KeptWhole(line: string) {
    TrimRight(DropCR(line)) == line
  }

  lemma {:induction false} SameTotal(a: seq<string>, b: seq<string>)
    requires |a| == |b| && forall i :: 0 <= i < |a| ==> |a[i]| <= |b[i]|
    ensures Total(a) == Total(b) <==> forall i :: 0 <= i < |a| ==> |a[i]| == |b[i]|
  {
    if a != [] {
      SameTotal(a[1..], b[1..]);
      TotalMonotone(a[1..], b[1..]);
      assert forall i :: 1 <= i < |a| ==> a[1..][i - 1] == a[i] && b[1..][i - 1] == b[i];
    }
  }

  lemma KeepsLength(line: string)
    ensures |TrimRight(DropCR(line))| <= |line|
    ensures |TrimRight(DropCR(line))| == |line| <==> KeptWhole(line)
  {
    TrimRightIsTrimmed(DropCR(line));
  }

  ghost predicate AllKeptWhole(lines: seq<string>) {
    forall i :: 0 <= i < |lines| ==> KeptWhole(lines[i])
  }

  /** Lines that are printed again, none longer than before, gain one byte or nothing. */
  lemma PrintGrowsIff(after: seq<string>, before: seq<string>)
    requires |after| == |before| > 0 && forall i :: 0 <= i < |after| ==> |after[i]| <= |before[i]|
    ensures |Print(after)| > |Join(before)| <==> forall i :: 0 <= i < |after| ==> |after[i]| == |before[i]|
  {
    JoinLength(before);
    PrintLength(after);
    TotalMonotone(after, before);
    SameTotal(after, before);
  }

  /** Without a newline at its end, a text grows exactly when no line of it loses a byte. */
  lemma FixGrowsOf(lines: seq<string>)
    requires lines != []
    ensures |Print(Map(TrimRight, Map(DropCR, lines)))| > |Join(lines)| <==> AllKeptWhole(lines)
  {
    var trimmed := Map(TrimRight, Map(DropCR, lines));
    forall i | 0 <= i < |lines|
      ensures |trimmed[i]| <= |lines[i]| && (|trimmed[i]| == |lines[i]| <==> KeptWhole(lines[i]))
    {
      KeepsLength(lines[i]);
    }
    PrintGrowsIff(trimmed, lines);
  }

  lemma FixedIsPrint(data: string, lines: seq<string>)
    requires lines == Lines(data) && lines[|lines| - 1] != ""
    ensures Fixed(data) == Print(Map(TrimRight, Map(DropCR, lines)))
  {
    assert Kept(lines) == lines;
    assert ScanLines(data) == Map(DropCR, Kept(lines));
  }

  lemma LastLineStays(data: string, lines: seq<string>)
    requires !EndsInNewline(data) && lines == Lines(data)
    ensures lines[|lines| - 1] != ""
  {
    LastLine(data);
  }

  lemma FixGrowsWith(data: string, lines: seq<string>)
    requires lines == Lines(data) && !EndsInNewline(data)
    ensures |Fixed(data)| > |data| <==> AllKeptWhole(lines)
  {
    LastLineStays(data, lines);
    JoinLines(data);
    FixedIsPrint(data, lines);
    FixGrowsOf(lines);
  }

  lemma FixShrinks(data: string)
    requires EndsInNewline(data)
    ensures |Fixed(data)| <= |data|
  {
    FixedLength(data);
  }

  /** Fixing makes a text longer exactly when its newline is missing and no line loses a byte. */
  lemma FixGrowsIff(data: string)
    ensures |Fixed(data)| > |data| <==> !EndsInNewline(data) && AllKeptWhole(Lines(data))
  {
    if EndsInNewline(data) {
      FixShrinks(data);
    } else {
      FixGrowsWith(data, Lines(data));
    }
  }

  /**
    The fixer pushes a file over the size limit, which it cannot mend, exactly
    when the file has the greatest size allowed, its newline is missing and no
    line loses a byte.
   */
  lemma FixOutgrowsIff(path: string, data: string)
    requires !Gated(path, data)
    ensures Oversized(path, FixOnce(path, data)) <==>
            && |data| == MAX_FILE_SIZE && !SizeExempt(path)
            && !EndsInNewline(data) && AllKeptWhole(Lines(data))
  {
    FixedLength(data);
    FixGrowsIff(data);
  }

  /** A file of one line, as large as it may be and without a newline. */
  function FullLine(): string {
    seq(MAX_FILE_SIZE, _ => 'a')
  }

  lemma FullLineOutgrows(path: string)
    requires !SizeExempt(path)
    ensures !Gated(path, FullLine()) && Oversized(path, FixOnce(path, FullLine()))
  {
    var data := FullLine();
    LinesOfLine(data);
    TrimRightIsTrimmed(data);
    assert data[MAX_FILE_SIZE - 1] == 'a' && DropCR(data) == data;
    FixOutgrowsIff(path, data);
  }

  // ---- The gates before and after ----

  lemma {:induction false} LineChars(data: string, i: nat, c: char)
    requires i < |Lines(data)| && c in Lines(data)[i]
    ensures c in data
  {
    var k := Cut(data);
    if k < |data| {
      LinesStep(data);
      if i > 0 {
        LineChars(data[k + 1..], i - 1, c);
      }
    }
  }

  lemma {:induction false} PrintChars(lines: seq<string>, c: char)
    requires c in Print(lines) && c != '\n'
    ensures exists i :: 0 <= i < |lines| && c in lines[i]
  {
    if c !in lines[0] {
      PrintChars(lines[1..], c);
      var i :| 0 <= i < |lines[1..]| && c in lines[1..][i];
      assert lines[i + 1] == lines[1..][i];
    }
  }

  lemma TrimmedChars(lines: seq<string>, i: nat, c: char)
    requires i < |lines| && c in Map(TrimRight, Map(DropCR, lines))[i]
    ensures c in lines[i]
  {
    TrimRightIsTrimmed(DropCR(lines[i]));
  }

  /** The fixer writes nothing but bytes of the file and newlines. */
  lemma FixedChars(data: string, c: char)
    requires c in Fixed(data) && c != '\n'
    ensures c in data
  {
    var kept := Kept(Lines(data));
    PrintChars(Map(TrimRight, Map(DropCR, kept)), c);
    var i :| 0 <= i < |kept| && c in Map(TrimRight, Map(DropCR, kept))[i];
    TrimmedChars(kept, i, c);
    LineChars(data, i, c);
  }

  /**
    Fixing takes no file past a gate, and so a second look at it applies the
    same rules, unless the file has a NUL byte or is as large as it may be and
    gains the missing newline.
   */
  lemma GateStays(path: string, data: string)
    requires '\0' !in data && (|data| != MAX_FILE_SIZE || EndsInNewline(data) || SizeExempt(path))
    ensures Gated(path, FixOnce(path, data)) <==> Gated(path, data)
    ensures Clean(FixOnce(path, data)) <==>
            if Gated(path, data) then Clean(data) else forall l :: l in ScanLines(data) ==> !HidesBlankCR(l)
  {
    FixedIsCleanIff(data);
    if !Gated(path, data) {
      FixedLength(data);
      if '\0' in Fixed(data) {
        FixedChars(data, '\0');
      }
    }
  }
}
