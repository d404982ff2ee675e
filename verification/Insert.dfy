/** The marker insertion of the scaffold (pkg/scaffold/insert.go). */
module Insert {
  import opened Lists
  import opened Text

  // ---- strings.Join(strings.Fields(line), " ") ----

  function WordEnd(s: string): (k: nat)
    ensures k <= |s| && (s != [] && !Space(s[0]) ==> k > 0)
    ensures (forall i :: 0 <= i < k ==> !Space(s[i])) && (k < |s| ==> Space(s[k]))
  {
    if s == [] || Space(s[0]) then 0 else 1 + WordEnd(s[1..])
  }

  function Fields(s: string): seq<string>
    decreases |s|
  {
    if s == [] then []
    else if Space(s[0]) then Fields(s[1..])
    else [s[..WordEnd(s)]] + Fields(s[WordEnd(s)..])
  }

  function Spaced(words: seq<string>): string {
    if words == [] then "" else if |words| == 1 then words[0] else words[0] + " " + Spaced(words[1..])
  }

  function Normal(line: string): string {
    Spaced(Fields(line))
  }

  // ---- What the words of a line are ----

  ghost predicate AllSpace(s: string) {
    forall i :: 0 <= i < |s| ==> Space(s[i])
  }

  ghost predicate Word(s: string) {
    s != [] && forall i :: 0 <= i < |s| ==> !Space(s[i])
  }

  /** line consists of the words, with white space between them and possibly around them. */
  ghost predicate Spread(words: seq<string>, line: string)
    decreases |words|
  {
    if words == [] then AllSpace(line)
    else exists i, j :: FirstWordAt(words[0], line, i, j) && Spread(words[1..], line[j..])
  }

  /** word is line[i..j]: white space before it, and white space or the end after it. */
  ghost predicate FirstWordAt(word: string, line: string, i: int, j: int) {
    && 0 <= i < j <= |line| && (forall m :: 0 <= m < i ==> Space(line[m])) && Word(word) && line[i..j] == word
    && (j < |line| ==> Space(line[j]))
  }

  lemma FirstWordShift(word: string, line: string, i: int, j: int)
    requires line != [] && Space(line[0])
    ensures FirstWordAt(word, line, i, j) <==> FirstWordAt(word, line[1..], i - 1, j - 1)
  {
    var rest := line[1..];
    assert forall m :: 1 <= m < |line| ==> line[m] == rest[m - 1];
    if 1 <= i < j <= |line| {
      assert rest[i - 1..j - 1] == line[i..j];
    }
    if i == 0 < j <= |line| && line[0..j] == word {
      assert word[0] == line[0];
    }
  }

  lemma SpreadShift(words: seq<string>, line: string)
    requires line != [] && Space(line[0])
    ensures Spread(words, line) <==> Spread(words, line[1..])
  {
    var rest := line[1..];
    if words == [] {
      assert forall i :: 1 <= i < |line| ==> line[i] == rest[i - 1];
    } else {
      if i, j :| FirstWordAt(words[0], line, i, j) && Spread(words[1..], line[j..]) {
        FirstWordShift(words[0], line, i, j);
        assert rest[j - 1..] == line[j..];
      }
      if i, j :| FirstWordAt(words[0], rest, i, j) && Spread(words[1..], rest[j..]) {
        FirstWordShift(words[0], line, i + 1, j + 1);
        assert line[j + 1..] == rest[j..];
      }
    }
  }

  lemma FirstWordIs(word: string, line: string, i: int, j: int)
    requires line != [] && !Space(line[0]) && FirstWordAt(word, line, i, j)
    ensures i == 0 && j == WordEnd(line)
  {
    assert i == 0;
    assert forall m :: 0 <= m < j ==> line[0..j][m] == line[m];
  }

  lemma SpreadWord(words: seq<string>, line: string)
    requires line != [] && !Space(line[0])
    ensures var k := WordEnd(line);
            Spread(words, line) <==> words != [] && words[0] == line[..k] && Spread(words[1..], line[k..])
  {
    var k := WordEnd(line);
    if words != [] {
      if i, j :| FirstWordAt(words[0], line, i, j) && Spread(words[1..], line[j..]) {
        FirstWordIs(words[0], line, i, j);
      }
      if words[0] == line[..k] && Spread(words[1..], line[k..]) {
        assert line[0..k] == line[..k];
        assert FirstWordAt(words[0], line, 0, k);
      }
    }
  }

  /** Fields splits a line into its words. */
  lemma {:induction false} FieldsIff(line: string, words: seq<string>)
    ensures Fields(line) == words <==> Spread(words, line)
    decreases |line|
  {
    if line == [] {
      assert words != [] ==> !Spread(words, line);
    } else if Space(line[0]) {
      SpreadShift(words, line);
      FieldsIff(line[1..], words);
    } else {
      var k := WordEnd(line);
      SpreadWord(words, line);
      if words != [] {
        FieldsIff(line[k..], words[1..]);
        assert words == [words[0]] + words[1..];
      }
    }
  }

  ghost predicate Words(words: seq<string>) {
    forall i :: 0 <= i < |words| ==> Word(words[i])
  }

  lemma {:induction false} FieldsAreWords(line: string)
    ensures Words(Fields(line))
    decreases |line|
  {
    if line != [] {
      FieldsAreWords(if Space(line[0]) then line[1..] else line[WordEnd(line)..]);
    }
  }

  lemma {:induction false} SpacedSpreads(words: seq<string>)
    requires Words(words)
    ensures Spread(words, Spaced(words))
  {
    if words != [] {
      var line, k := Spaced(words), |words[0]|;
      assert line[0..k] == words[0];
      assert FirstWordAt(words[0], line, 0, k);
      if |words| == 1 {
        assert line[k..] == "";
      } else {
        SpacedSpreads(words[1..]);
        assert line[k..] == " " + Spaced(words[1..]);
        assert line[k..][1..] == Spaced(words[1..]);
        SpreadShift(words[1..], line[k..]);
      }
    }
  }

  /** Lines compare equal exactly when they have the same words. */
  lemma NormalIff(a: string, b: string)
    ensures Normal(a) == Normal(b) <==> Fields(a) == Fields(b)
  {
    FieldsAreWords(a);
    FieldsAreWords(b);
    SpacedSpreads(Fields(a));
    SpacedSpreads(Fields(b));
    FieldsIff(Normal(a), Fields(a));
    FieldsIff(Normal(b), Fields(b));
  }

  /** The blanks a line starts with, all of them. */
  function Indent(line: string): (r: string)
    ensures r <= line && (|r| < |line| ==> !Blank(line[|r|]))
    ensures forall c :: c in r ==> Blank(c)
  {
    if line != [] && Blank(line[0]) then [line[0]] + Indent(line[1..]) else ""
  }

  lemma {:induction false} NormalIgnoresIndent(indent: string, line: string)
    requires forall c :: c in indent ==> Blank(c)
    ensures Normal(indent + line) == Normal(line)
  {
    if indent == [] {
      assert indent + line == line;
    } else {
      assert indent[0] in indent;
      assert (indent + line)[1..] == indent[1..] + line;
      NormalIgnoresIndent(indent[1..], line);
    }
  }

  // ---- The edit on lines ----

  /** slices.IndexFunc: the first line containing marker. */
  function Find(lines: seq<string>, marker: string): (r: Option<nat>)
    ensures r.Some? ==> r.value < |lines| && Contains(lines[r.value], marker)
    ensures r.Some? ==> forall i :: 0 <= i < r.value ==> !Contains(lines[i], marker)
    ensures r.None? ==> forall i :: 0 <= i < |lines| ==> !Contains(lines[i], marker)
  {
    FindFrom(lines, marker, 0)
  }

  function FindFrom(lines: seq<string>, marker: string, k: nat): (r: Option<nat>)
    requires k <= |lines|
    ensures r.Some? ==> k <= r.value < |lines| && Contains(lines[r.value], marker)
    ensures r.Some? ==> forall i :: k <= i < r.value ==> !Contains(lines[i], marker)
    ensures r.None? ==> forall i :: k <= i < |lines| ==> !Contains(lines[i], marker)
    decreases |lines| - k
  {
    if k == |lines| then None
    else if Contains(lines[k], marker) then Some(k)
    else FindFrom(lines, marker, k + 1)
  }

  /** The lines of a snippet. */
  type Part = s: seq<string> | s != [] witness [""]

  /** Some line reads like the first line of part. */
  predicate Known(lines: seq<string>, part: Part) {
    exists l :: l in lines && Normal(l) == Normal(part[0])
  }

  /** A snippet is known when some line of the file has the words of its first line. */
  lemma KnownIff(lines: seq<string>, part: Part)
    ensures Known(lines, part) <==> exists l, words :: l in lines && Spread(words, l) && Spread(words, part[0])
  {
    if l :| l in lines && Normal(l) == Normal(part[0]) {
      NormalIff(l, part[0]);
      FieldsIff(l, Fields(l));
      FieldsIff(part[0], Fields(l));
    }
    if l, words :| l in lines && Spread(words, l) && Spread(words, part[0]) {
      FieldsIff(l, words);
      FieldsIff(part[0], words);
      NormalIff(l, part[0]);
    }
  }

  function Indented(indent: string, lines: seq<string>): seq<string> {
    Map(l => indent + l, lines)
  }

  function InsertAt(lines: seq<string>, at: nat, more: seq<string>): seq<string>
    requires at <= |lines|
  {
    lines[..at] + more + lines[at..]
  }

  function Edit(lines: seq<string>, marker: string, part: Part): seq<string> {
    match Find(lines, marker)
    case None => lines
    case Some(at) => if Known(lines, part) then lines else InsertAt(lines, at, Indented(Indent(lines[at]), part))
  }

  /** The edit on a text; no change leaves the very same text. */
  function EditText(data: string, marker: string, snippet: string): string {
    Join(Edit(Lines(data), marker, Lines(snippet)))
  }

  lemma EditedAreLines(lines: seq<string>, marker: string, part: Part)
    requires lines != [] && (forall l :: l in lines ==> OneLine(l)) && forall l :: l in part ==> OneLine(l)
    ensures Edit(lines, marker, part) != [] && forall l :: l in Edit(lines, marker, part) ==> OneLine(l)
  {
    var at := Find(lines, marker);
    if at.Some? {
      var indent := Indent(lines[at.value]);
      forall i | 0 <= i < |part|
        ensures OneLine(indent + part[i])
      {
        assert part[i] in part;
        assert forall j :: 0 <= j < |indent| ==> indent[j] in indent;
      }
    }
  }

  /** The text after an edit has exactly the edited lines. */
  lemma EditTextLines(data: string, marker: string, snippet: string)
    ensures Lines(EditText(data, marker, snippet)) == Edit(Lines(data), marker, Lines(snippet))
  {
    LinesAreLines(data);
    LinesAreLines(snippet);
    EditedAreLines(Lines(data), marker, Lines(snippet));
    LinesJoin(Edit(Lines(data), marker, Lines(snippet)));
  }

  // ---- InsertBefore ----

  predicate IsGo(path: string) {
    |path| >= 3 && path[|path| - 3..] == ".go"
  }

  method IndentLines(indent: string, snippet: seq<string>) returns (r: seq<string>)
    ensures r == Indented(indent, snippet)
  {
    var snippetLines := new string[|snippet|](i requires 0 <= i < |snippet| => snippet[i]);
    for i := 0 to snippetLines.Length
      invariant forall k :: 0 <= k < i ==> snippetLines[k] == indent + snippet[k]
      invariant forall k :: i <= k < |snippet| ==> snippetLines[k] == snippet[k]
    {
      snippetLines[i] := indent + snippetLines[i];
    }
    r := snippetLines[..];
  }

  /**
    InsertBefore: false without a marker, otherwise true and the edit; format
    is gofmt, which only a .go file passes through and which may refuse it.
   */
  method InsertBefore(f: File, marker: string, snippet: string, format: string -> Option<string>)
    returns (r: Result<bool>)
    modifies f`content
    ensures old(f.Data()).None? ==> r.Err? && f.Data() == old(f.Data())
    ensures old(f.Data()).Some? && Find(Lines(old(f.Data()).value), marker).None? ==>
              r == Ok(false) && f.Data() == old(f.Data())
    ensures old(f.Data()).Some? && Find(Lines(old(f.Data()).value), marker).Some?
            && Known(Lines(old(f.Data()).value), Lines(snippet)) ==>
              r == Ok(true) && f.Data() == old(f.Data())
    ensures old(f.Data()).Some? && Find(Lines(old(f.Data()).value), marker).Some?
            && !Known(Lines(old(f.Data()).value), Lines(snippet)) ==>
              var edited := EditText(old(f.Data()).value, marker, snippet);
              var out := if IsGo(f.path) then format(edited) else Some(edited);
              if out.Some? then r == Ok(true) && f.Data() == out else r.Err? && f.Data() == old(f.Data())
    ensures old(f.Data()).Some? && (|f.path| < 3 || f.path[|f.path| - 3..] != ".go") ==>
              f.Data() == Some(EditText(old(f.Data()).value, marker, snippet))
  {
    if f.Data().None? {
      return Err("insert before");
    }
    var lines := Lines(f.Data().value);
    JoinLines(f.Data().value);
    var at := Find(lines, marker);
    if at.None? {
      return Ok(false);
    }
    if Known(lines, Lines(snippet)) {
      return Ok(true);
    }
    var snippetLines := IndentLines(Indent(lines[at.value]), Lines(snippet));
    var out := Join(lines[..at.value] + snippetLines + lines[at.value..]);
    if IsGo(f.path) {
      var formatted := format(out);
      if formatted.None? {
        return Err("insert before");
      }
      out := formatted.value;
    }
    f.content := out;
    return Ok(true);
  }

  // ---- Many insertions ----

  function EditAll(lines: seq<string>, marker: string, parts: seq<Part>): seq<string> {
    if parts == [] then lines
    else Edit(EditAll(lines, marker, parts[..|parts| - 1]), marker, parts[|parts| - 1])
  }

  /** The indented lines of all the parts, in order. */
  function Block(indent: string, parts: seq<Part>): seq<string> {
    if parts == [] then []
    else Block(indent, parts[..|parts| - 1]) + Indented(indent, parts[|parts| - 1])
  }

  /** No line of the part contains the marker once indented. */
  ghost predicate NoMarker(indent: string, marker: string, part: Part) {
    forall l :: l in Indented(indent, part) ==> !Contains(l, marker)
  }

  /** The first line of part k reads like no line of the file and no line of an earlier part. */
  ghost predicate IsNew(lines: seq<string>, parts: seq<Part>, k: nat)
    requires k < |parts|
  {
    !Known(lines, parts[k]) && forall j :: 0 <= j < k ==> !Known(parts[j], parts[k])
  }

  /** Every part is new when its turn comes and leaves the marker the first of its kind. */
  ghost predicate Insertable(lines: seq<string>, marker: string, indent: string, parts: seq<Part>) {
    forall k :: 0 <= k < |parts| ==> NoMarker(indent, marker, parts[k]) && IsNew(lines, parts, k)
  }

  lemma InsertableInit(lines: seq<string>, marker: string, indent: string, parts: seq<Part>, n: nat)
    requires Insertable(lines, marker, indent, parts) && n <= |parts|
    ensures Insertable(lines, marker, indent, parts[..n])
  {
    forall k | 0 <= k < n
      ensures NoMarker(indent, marker, parts[..n][k]) && IsNew(lines, parts[..n], k)
    {
      assert NoMarker(indent, marker, parts[k]) && IsNew(lines, parts, k);
      assert forall j :: 0 <= j <= k ==> parts[..n][j] == parts[j];
    }
  }

  lemma {:induction false} BlockHas(indent: string, parts: seq<Part>, l: string)
    ensures l in Block(indent, parts) <==> exists j :: 0 <= j < |parts| && l in Indented(indent, parts[j])
  {
    if parts != [] {
      var init := parts[..|parts| - 1];
      BlockHas(indent, init, l);
      if j :| 0 <= j < |parts| && l in Indented(indent, parts[j]) {
        assert j < |init| ==> init[j] == parts[j];
      }
    }
  }

  lemma IndentedKnown(indent: string, lines: seq<string>, part: Part)
    requires forall c :: c in indent ==> Blank(c)
    ensures Known(Indented(indent, lines), part) <==> Known(lines, part)
  {
    forall i | 0 <= i < |lines|
      ensures Normal(indent + lines[i]) == Normal(lines[i])
    {
      NormalIgnoresIndent(indent, lines[i]);
    }
    assert forall i :: 0 <= i < |lines| ==> lines[i] in lines && Indented(indent, lines)[i] in Indented(indent, lines);
  }

  /** What has been inserted holds no line that reads like the first line of the next part. */
  lemma BlockUnknown(lines: seq<string>, indent: string, parts: seq<Part>, k: nat)
    requires (forall c :: c in indent ==> Blank(c)) && k < |parts| && IsNew(lines, parts, k)
    ensures !Known(Block(indent, parts[..k]), parts[k])
  {
    forall l | l in Block(indent, parts[..k])
      ensures Normal(l) != Normal(parts[k][0])
    {
      BlockHas(indent, parts[..k], l);
      var j :| 0 <= j < k && l in Indented(indent, parts[..k][j]);
      IndentedKnown(indent, parts[j], parts[k]);
    }
  }

  lemma BlockUnmarked(indent: string, marker: string, parts: seq<Part>)
    requires forall j :: 0 <= j < |parts| ==> NoMarker(indent, marker, parts[j])
    ensures forall l :: l in Block(indent, parts) ==> !Contains(l, marker)
  {
    forall l | l in Block(indent, parts)
      ensures !Contains(l, marker)
    {
      BlockHas(indent, parts, l);
      var j :| 0 <= j < |parts| && l in Indented(indent, parts[j]);
      assert NoMarker(indent, marker, parts[j]);
    }
  }

  lemma FindIs(lines: seq<string>, marker: string, at: nat)
    requires at < |lines| && Contains(lines[at], marker) && forall i :: 0 <= i < at ==> !Contains(lines[i], marker)
    ensures Find(lines, marker) == Some(at)
  {
  }

  /** The marker stays where it was, below everything inserted. */
  lemma MarkerMoves(lines: seq<string>, marker: string, at: nat, more: seq<string>)
    requires Find(lines, marker) == Some(at) && forall l :: l in more ==> !Contains(l, marker)
    ensures Find(InsertAt(lines, at, more), marker) == Some(at + |more|)
    ensures InsertAt(lines, at, more)[at + |more|] == lines[at]
  {
    var now := InsertAt(lines, at, more);
    forall i | 0 <= i < at + |more|
      ensures !Contains(now[i], marker)
    {
      if i < at {
        assert now[i] == lines[i];
      } else {
        assert now[i] == more[i - at] && more[i - at] in more;
      }
    }
    FindIs(now, marker, at + |more|);
  }

  lemma InsertedUnknown(lines: seq<string>, at: nat, more: seq<string>, part: Part)
    requires at <= |lines| && !Known(lines, part) && !Known(more, part)
    ensures !Known(InsertAt(lines, at, more), part)
  {
    forall l | l in InsertAt(lines, at, more)
      ensures l in lines || l in more
    {
    }
  }

  lemma NextInsertion(lines: seq<string>, marker: string, at: nat, block: seq<string>, part: Part)
    requires Find(lines, marker) == Some(at) && forall l :: l in block ==> !Contains(l, marker)
    requires !Known(lines, part) && !Known(block, part)
    ensures Edit(InsertAt(lines, at, block), marker, part) ==
            InsertAt(lines, at, block + Indented(Indent(lines[at]), part))
  {
    MarkerMoves(lines, marker, at, block);
    InsertedUnknown(lines, at, block, part);
    var more := Indented(Indent(lines[at]), part);
    assert InsertAt(InsertAt(lines, at, block), at + |block|, more) == InsertAt(lines, at, block + more);
  }

  /**
    New snippets without the marker end up in insertion order directly above
    the marker, indented like it, and nothing else changes.
   */
  lemma {:induction false} InsertionsStack(lines: seq<string>, marker: string, at: nat, parts: seq<Part>)
    requires Find(lines, marker) == Some(at) && Insertable(lines, marker, Indent(lines[at]), parts)
    ensures EditAll(lines, marker, parts) == InsertAt(lines, at, Block(Indent(lines[at]), parts))
    decreases |parts|
  {
    var indent := Indent(lines[at]);
    if parts == [] {
      assert InsertAt(lines, at, []) == lines;
    } else {
      var n := |parts| - 1;
      var init := parts[..n];
      InsertableInit(lines, marker, indent, parts, n);
      InsertionsStack(lines, marker, at, init);
      assert IsNew(lines, parts, n);
      BlockUnknown(lines, indent, parts, n);
      BlockUnmarked(indent, marker, init);
      NextInsertion(lines, marker, at, Block(indent, init), parts[n]);
    }
  }

  /** After all the insertions, replaying any of the calls changes nothing. */
  lemma ReplayChangesNothing(lines: seq<string>, marker: string, at: nat, parts: seq<Part>, k: nat)
    requires Find(lines, marker) == Some(at) && Insertable(lines, marker, Indent(lines[at]), parts) && k < |parts|
    ensures Edit(EditAll(lines, marker, parts), marker, parts[k]) == EditAll(lines, marker, parts)
  {
    InsertionsStack(lines, marker, at, parts);
    var indent := Indent(lines[at]);
    var l := Indented(indent, parts[k])[0];
    assert l in Indented(indent, parts[k]);
    BlockHas(indent, parts, l);
    NormalIgnoresIndent(indent, parts[k][0]);
    assert l in EditAll(lines, marker, parts);
  }

  // ---- The same on texts ----

  function EditAllText(data: string, marker: string, snippets: seq<string>): string {
    if snippets == [] then data
    else EditText(EditAllText(data, marker, snippets[..|snippets| - 1]), marker, snippets[|snippets| - 1])
  }

  function Parts(snippets: seq<string>): (r: seq<Part>)
    ensures |r| == |snippets| && forall i :: 0 <= i < |r| ==> r[i] == Lines(snippets[i])
  {
    seq(|snippets|, i requires 0 <= i < |snippets| => Lines(snippets[i]))
  }

  lemma {:induction false} EditAllTextLines(data: string, marker: string, snippets: seq<string>)
    ensures Lines(EditAllText(data, marker, snippets)) == EditAll(Lines(data), marker, Parts(snippets))
  {
    if snippets != [] {
      var init := snippets[..|snippets| - 1];
      EditAllTextLines(data, marker, init);
      assert Parts(snippets)[..|snippets| - 1] == Parts(init);
      EditTextLines(EditAllText(data, marker, init), marker, snippets[|snippets| - 1]);
    }
  }

  /** A file with a marker, after any number of new insertions and any replay. */
  lemma FileAfterInsertions(data: string, marker: string, at: nat, snippets: seq<string>, k: nat)
    requires Find(Lines(data), marker) == Some(at) && k < |snippets|
    requires Insertable(Lines(data), marker, Indent(Lines(data)[at]), Parts(snippets))
    ensures var text := EditAllText(data, marker, snippets);
            && Lines(text) == InsertAt(Lines(data), at, Block(Indent(Lines(data)[at]), Parts(snippets)))
            && EditText(text, marker, snippets[k]) == text
  {
    var text := EditAllText(data, marker, snippets);
    EditAllTextLines(data, marker, snippets);
    InsertionsStack(Lines(data), marker, at, Parts(snippets));
    ReplayChangesNothing(Lines(data), marker, at, Parts(snippets), k);
    JoinLines(text);
  }

  /** For a marker that does not start with a blank, indenting a line changes nothing about the marker in it. */
  lemma {:induction false} IndentHidesNoMarker(indent: string, line: string, marker: string)
    requires (forall c :: c in indent ==> Blank(c)) && marker != [] && !Blank(marker[0])
    ensures Contains(indent + line, marker) <==> Contains(line, marker)
  {
    if i: nat :| At(line, i, marker) {
      assert At(indent + line, |indent| + i, marker);
    }
    if i: nat :| At(indent + line, i, marker) {
      assert (indent + line)[i..i + |marker|][0] == marker[0];
      assert forall j :: 0 <= j < |indent| ==> indent[j] in indent;
      assert i >= |indent|;
      assert At(line, i - |indent|, marker);
    }
  }

  /** No line of the snippet contains the marker. */
  ghost predicate Unmarked(marker: string, part: Part) {
    forall i :: 0 <= i < |part| ==> !Contains(part[i], marker)
  }

  lemma IndentedUnmarked(indent: string, marker: string, part: Part)
    requires (forall c :: c in indent ==> Blank(c)) && marker != [] && !Blank(marker[0]) && Unmarked(marker, part)
    ensures NoMarker(indent, marker, part)
  {
    forall l | l in Indented(indent, part)
      ensures !Contains(l, marker)
    {
      var i :| 0 <= i < |part| && Indented(indent, part)[i] == l;
      IndentHidesNoMarker(indent, part[i], marker);
    }
  }

  /**
    What a caller can check of the snippets before the first call: none contains
    the marker, and their first lines are new.
   */
  ghost predicate NewSnippets(lines: seq<string>, marker: string, parts: seq<Part>) {
    forall k :: 0 <= k < |parts| ==> Unmarked(marker, parts[k]) && IsNew(lines, parts, k)
  }

  /**
    For a marker that does not start with a blank, as all markers of the
    scaffold: snippets without the marker and with new first lines end up in
    insertion order directly above it, indented like it, and replaying any of
    the calls changes nothing.
   */
  lemma SnippetsAboveMarker(data: string, marker: string, at: nat, snippets: seq<string>, k: nat)
    requires marker != [] && !Blank(marker[0]) && Find(Lines(data), marker) == Some(at) && k < |snippets|
    requires NewSnippets(Lines(data), marker, Parts(snippets))
    ensures var text := EditAllText(data, marker, snippets);
            && Lines(text) == InsertAt(Lines(data), at, Block(Indent(Lines(data)[at]), Parts(snippets)))
            && EditText(text, marker, snippets[k]) == text
  {
    var indent, parts := Indent(Lines(data)[at]), Parts(snippets);
    forall j | 0 <= j < |parts|
      ensures NoMarker(indent, marker, parts[j]) && IsNew(Lines(data), parts, j)
    {
      assert Unmarked(marker, parts[j]);
      IndentedUnmarked(indent, marker, parts[j]);
    }
    FileAfterInsertions(data, marker, at, snippets, k);
  }
}
