/**
  The go.work splice (pkg/scaffold/workspace.go) against the go.work reader
  (cmd/mmw/cmd/workspace/workspace.go).
 */
module GoWork {
  import opened Lists
  import opened Text

  const OPEN := "use ("
  const CLOSE := ")"

  /** filepath.Clean. */
  type Cleaner = string -> string

  // ---- workModules ----

  datatype Reader = Reader(inUse: bool, modules: seq<string>)

  const START := Reader(false, [])

  predicate HasPrefix(s: string, prefix: string) {
    |prefix| <= |s| && s[..|prefix|] == prefix
  }

  predicate HasSuffix(s: string, suffix: string) {
    |suffix| <= |s| && s[|s| - |suffix|..] == suffix
  }

  function ReadLine(clean: Cleaner, r: Reader, text: string): Reader {
    var line := TrimSpace(text);
    if line == OPEN then r.(inUse := true)
    else if r.inUse && line == CLOSE then r.(inUse := false)
    else if r.inUse && line != "" then r.(modules := r.modules + [clean(line)])
    else if HasPrefix(line, "use ") && !HasSuffix(line, "(") then
      r.(modules := r.modules + [clean(TrimSpace(line[4..]))])
    else r
  }

  function ReadAll(clean: Cleaner, r: Reader, lines: seq<string>): Reader {
    if lines == [] then r
    else ReadLine(clean, ReadAll(clean, r, lines[..|lines| - 1]), lines[|lines| - 1])
  }

  function Modules(clean: Cleaner, content: string): seq<string> {
    ReadAll(clean, START, Lines(content)).modules
  }

  lemma {:induction false} ReadConcat(clean: Cleaner, r: Reader, a: seq<string>, b: seq<string>)
    ensures ReadAll(clean, r, a + b) == ReadAll(clean, ReadAll(clean, r, a), b)
  {
    if b == [] {
      assert a + b == a;
    } else {
      assert (a + b)[..|a + b| - 1] == a + b[..|b| - 1];
      ReadConcat(clean, r, a, b[..|b| - 1]);
    }
  }

  /** Reading only ever appends. */
  lemma {:induction false} ReadAppends(clean: Cleaner, r: Reader, lines: seq<string>)
    ensures var alone := ReadAll(clean, Reader(r.inUse, []), lines);
            ReadAll(clean, r, lines) == Reader(alone.inUse, r.modules + alone.modules)
  {
    if lines == [] {
      assert r.modules + [] == r.modules;
    } else {
      ReadAppends(clean, r, lines[..|lines| - 1]);
    }
  }

  lemma {:induction false} ReadTrimmed(clean: Cleaner, r: Reader, a: seq<string>, b: seq<string>)
    requires |a| == |b| && forall i :: 0 <= i < |a| ==> TrimSpace(a[i]) == TrimSpace(b[i])
    ensures ReadAll(clean, r, a) == ReadAll(clean, r, b)
  {
    if a != [] {
      ReadTrimmed(clean, r, a[..|a| - 1], b[..|b| - 1]);
    }
  }

  lemma ReadKept(clean: Cleaner, r: Reader, lines: seq<string>)
    requires lines != []
    ensures ReadAll(clean, r, Map(DropCR, Kept(lines))) == ReadAll(clean, r, lines)
  {
    var kept := Kept(lines);
    forall i | 0 <= i < |kept|
      ensures TrimSpace(DropCR(kept[i])) == TrimSpace(kept[i])
    {
      TrimDropsCR(kept[i]);
    }
    ReadTrimmed(clean, r, Map(DropCR, kept), kept);
  }

  /** workModules: the scanner's lines read like the plain lines of the file; no module is an error. */
  method WorkModules(f: File, clean: Cleaner) returns (r: Result<seq<string>>)
    ensures r.Ok? <==> f.Data().Some? && Modules(clean, f.Data().value) != []
    ensures r.Ok? ==> r.value == Modules(clean, f.Data().value)
  {
    if f.Data().None? {
      return Err("read go.work");
    }
    var lines := ScanLines(f.Data().value);
    var modules: seq<string>, inUse := [], false;
    for i := 0 to |lines|
      invariant Reader(inUse, modules) == ReadAll(clean, START, lines[..i])
    {
      assert lines[..i + 1][..i] == lines[..i];
      var line := TrimSpace(lines[i]);
      if line == OPEN {
        inUse := true;
      } else if inUse && line == CLOSE {
        inUse := false;
      } else if inUse && line != "" {
        modules := modules + [clean(line)];
      } else if HasPrefix(line, "use ") && !HasSuffix(line, "(") {
        modules := modules + [clean(TrimSpace(line[4..]))];
      }
    }
    assert lines[..|lines|] == lines;
    ReadKept(clean, START, Lines(f.Data().value));
    r := if modules == [] then Err("workspace: no modules found in go.work") else Ok(modules);
  }

  // ---- When the reader is inside a use block ----

  /** Some line opens a block and no later one closes it. */
  ghost predicate Opens(lines: seq<string>) {
    exists u :: 0 <= u < |lines| && OpensAt(lines, u)
  }

  ghost predicate OpensAt(lines: seq<string>, u: nat)
    requires u < |lines|
  {
    TrimSpace(lines[u]) == OPEN && forall v :: u < v < |lines| ==> TrimSpace(lines[v]) != CLOSE
  }

  lemma OpensKept(init: seq<string>, line: string, u: nat)
    requires u < |init|
    ensures OpensAt(init + [line], u) <==> OpensAt(init, u) && TrimSpace(line) != CLOSE
  {
    var lines := init + [line];
    assert forall v :: 0 <= v < |init| ==> lines[v] == init[v];
    assert lines[|init|] == line;
    if OpensAt(lines, u) {
      forall v | u < v < |init|
        ensures TrimSpace(init[v]) != CLOSE
      {
        assert TrimSpace(lines[v]) != CLOSE;
      }
    }
  }

  lemma OpensStep(init: seq<string>, line: string)
    ensures Opens(init + [line]) <==> TrimSpace(line) == OPEN || (Opens(init) && TrimSpace(line) != CLOSE)
  {
    var lines, n := init + [line], |init|;
    assert OpensAt(lines, n) <==> TrimSpace(line) == OPEN;
    forall u: nat | u < n
      ensures OpensAt(lines, u) <==> OpensAt(init, u) && TrimSpace(line) != CLOSE
    {
      OpensKept(init, line, u);
    }
    if Opens(lines) {
      var u :| 0 <= u < |lines| && OpensAt(lines, u);
      assert u == n || OpensAt(init, u);
    }
    if Opens(init) && TrimSpace(line) != CLOSE {
      var u :| 0 <= u < n && OpensAt(init, u);
      assert OpensAt(lines, u);
    }
  }

  lemma {:induction false} InUseIffOpens(clean: Cleaner, lines: seq<string>)
    ensures ReadAll(clean, START, lines).inUse <==> Opens(lines)
  {
    if lines != [] {
      var init, line := lines[..|lines| - 1], lines[|lines| - 1];
      InUseIffOpens(clean, init);
      OpensStep(init, line);
      assert lines == init + [line];
    }
  }

  /** A path of one line, without white space around it, that opens no block. */
  ghost predicate UsePath(path: string) {
    OneLine(path) && TrimSpace(path) == path && path != [] && path[|path| - 1] != '('
  }

  lemma {:induction false} TrimLeftShortens(s: string)
    ensures |TrimLeftSpace(s)| <= |s|
  {
    if s != [] && Space(s[0]) {
      TrimLeftShortens(s[1..]);
    }
  }

  lemma {:induction false} TrimRightShortens(s: string)
    ensures |TrimRightSpace(s)| <= |s|
  {
    if s != [] && Space(s[|s| - 1]) {
      TrimRightShortens(s[..|s| - 1]);
    }
  }

  /** Trimmed text does not end in white space. */
  lemma TrimmedEnd(s: string)
    requires TrimSpace(s) == s && s != []
    ensures !Space(s[|s| - 1])
  {
    TrimRightShortens(TrimLeftSpace(s));
    if Space(s[0]) {
      TrimLeftShortens(s[1..]);
    } else if Space(s[|s| - 1]) {
      TrimRightShortens(s[..|s| - 1]);
    }
  }

  lemma UseLineTrims(path: string)
    requires UsePath(path)
    ensures var line := "use " + path;
            && OneLine(line) && TrimSpace(line) == line && line != OPEN && line != CLOSE && line[4..] == path
            && HasPrefix(line, "use ") && !HasSuffix(line, "(")
  {
    var line := "use " + path;
    assert line[0] == 'u' && line[|line| - 1] == path[|path| - 1];
    TrimmedEnd(path);
    assert line[|line| - 1..] == [path[|path| - 1]] && line[..4] == "use " && line[4..] == path;
    assert OPEN[4] == '(' && CLOSE[0] == ')';
  }

  /**
    A line that uses one path, after any text, is that module unless a block is
    still open there; the reader then takes the whole line for a path.
   */
  lemma SingleUse(clean: Cleaner, content: string, path: string)
    requires UsePath(path)
    ensures Modules(clean, content + "\n" + ("use " + path)) ==
            Modules(clean, content) + [clean(if Opens(Lines(content)) then "use " + path else path)]
  {
    var line, above := "use " + path, Lines(content);
    UseLineTrims(path);
    LinesConcat(content, line);
    LinesOfLine(line);
    InUseIffOpens(clean, above);
    ReadConcat(clean, START, above, [line]);
    var r := ReadAll(clean, START, above);
    assert ReadAll(clean, r, [line]) == ReadLine(clean, r, line);
  }

  // ---- UpdateGoWork ----

  function NewEntry(name: string): string {
    "\t./modules/" + name
  }

  predicate Present(content: string, name: string) {
    Contains(content + "\n", NewEntry(name) + "\n")
  }

  /** Where the new line goes: before the first newline and ")" at or after the first "use (". */
  function Splice(content: string): (r: Option<nat>)
    ensures r.Some? ==> r.value < |content| && content[r.value] == '\n'
  {
    match Index(content, OPEN)
    case None => None
    case Some(i) =>
      match Index(content[i..], "\n)")
      case None => None
      case Some(j) => assert content[i..][j..j + 2][0] == '\n' && content[i..][j] == content[i + j]; Some(i + j)
  }

  lemma AtShift(s: string, from: nat, i: nat, sub: string)
    requires from <= i && from <= |s|
    ensures At(s, i, sub) <==> At(s[from..], i - from, sub)
  {
    if i + |sub| <= |s| {
      assert s[i..i + |sub|] == s[from..][i - from..i - from + |sub|];
    }
  }

  lemma IndexFromIff(s: string, from: nat, i: nat, sub: string)
    requires from <= i && from <= |s|
    ensures Index(s[from..], sub).Some? && Index(s[from..], sub).value == i - from <==> FirstAt(s, from, i, sub)
  {
    forall k: nat | from <= k
      ensures At(s, k, sub) <==> At(s[from..], k - from, sub)
    {
      AtShift(s, from, k, sub);
    }
    if FirstAt(s, from, i, sub) {
      forall k: nat | k < i - from
        ensures !At(s[from..], k, sub)
      {
        assert !At(s, from + k, sub);
      }
      IndexIs(s[from..], sub, i - from);
    }
  }

  lemma SpliceOf(content: string, u: nat)
    requires Index(content, OPEN) == Some(u)
    ensures u <= |content|
    ensures Splice(content) == match Index(content[u..], "\n)") case None => None case Some(j) => Some(u + j)
  {
  }

  /** The splice is the first newline and ")" from the first "use (" on. */
  lemma SpliceIff(content: string, pos: nat)
    ensures Splice(content).Some? && Splice(content).value == pos <==>
            exists u: nat :: u <= pos && FirstAt(content, 0, u, OPEN) && FirstAt(content, u, pos, "\n)")
  {
    assert content[0..] == content;
    if Index(content, OPEN).Some? {
      var u := Index(content, OPEN).value;
      SpliceOf(content, u);
      IndexFromIff(content, 0, u, OPEN);
      if u <= pos {
        IndexFromIff(content, u, pos, "\n)");
      }
    }
    if w: nat :| w <= pos && FirstAt(content, 0, w, OPEN) && FirstAt(content, w, pos, "\n)") {
      IndexFromIff(content, 0, w, OPEN);
    }
  }

  /** sub is at i and nowhere between from and i. */
  ghost predicate FirstAt(s: string, from: nat, i: nat, sub: string) {
    from <= i && At(s, i, sub) && forall k: nat :: from <= k < i ==> !At(s, k, sub)
  }

  function Inserted(content: string, pos: nat, name: string): string
    requires pos <= |content|
  {
    content[..pos] + "\n" + NewEntry(name) + content[pos..]
  }

  /** go.work after an update: unchanged when the text of the entry is there, or when there is nowhere to put it. */
  function Updated(content: string, name: string): string {
    if Present(content, name) || Splice(content).None? then content
    else Inserted(content, Splice(content).value, name)
  }

  method UpdateGoWork(f: File, name: string) returns (ok: bool)
    modifies f`content
    ensures ok <==> old(f.Data()).Some? && (Present(old(f.content), name) || Splice(old(f.content)).Some?)
    ensures f.content == if ok then Updated(old(f.content), name) else old(f.content)
  {
    if f.Data().None? {
      return false;
    }
    var content := f.Data().value;
    if Present(content, name) {
      return true;
    }
    var useIdx := Index(content, OPEN);
    if useIdx.None? {
      return false;
    }
    var closeIdx := Index(content[useIdx.value..], "\n)");
    if closeIdx.None? {
      return false;
    }
    var pos := useIdx.value + closeIdx.value;
    f.content := content[..pos] + "\n" + NewEntry(name) + content[pos..];
    return true;
  }

  // ---- The splice against the reader ----

  /** A name that is one line and does not end in white space. */
  ghost predicate EntryName(name: string) {
    OneLine(name) && (name == [] || !Space(name[|name| - 1]))
  }

  lemma EntryTrims(name: string)
    requires EntryName(name)
    ensures OneLine(NewEntry(name)) && TrimSpace(NewEntry(name)) == "./modules/" + name
    ensures "./modules/" + name != OPEN && "./modules/" + name != CLOSE && "./modules/" + name != ""
            && !HasPrefix("./modules/" + name, "use ")
  {
    var entry := "./modules/" + name;
    assert NewEntry(name)[1..] == entry && Space(NewEntry(name)[0]);
    assert entry[0] == '.' && TrimLeftSpace(entry) == entry;
    assert TrimLeftSpace(NewEntry(name)) == entry;
    assert entry[|entry| - 1] == if name == [] then '/' else name[|name| - 1];
    assert TrimRightSpace(entry) == entry;
  }

  /** The new line lands between the lines before the splice and the lines after it. */
  lemma InsertedLines(content: string, pos: nat, name: string)
    requires pos < |content| && content[pos] == '\n' && OneLine(NewEntry(name))
    ensures Lines(content) == Lines(content[..pos]) + Lines(content[pos + 1..])
    ensures Lines(Inserted(content, pos, name)) == Lines(content[..pos]) + [NewEntry(name)] + Lines(content[pos + 1..])
  {
    var a, b, e := content[..pos], content[pos + 1..], NewEntry(name);
    LinesConcat(a, b);
    LinesWithOneMore(a, e, b);
    SpliceText(content, pos, e);
  }

  lemma SpliceText(content: string, pos: nat, e: string)
    requires pos < |content| && content[pos] == '\n'
    ensures content == content[..pos] + "\n" + content[pos + 1..]
    ensures content[..pos] + "\n" + e + content[pos..] == content[..pos] + "\n" + e + "\n" + content[pos + 1..]
  {
    assert content[pos..] == "\n" + content[pos + 1..];
  }

  lemma LinesWithOneMore(a: string, e: string, b: string)
    requires OneLine(e)
    ensures Lines(a + "\n" + e + "\n" + b) == Lines(a) + [e] + Lines(b)
  {
    LinesConcat(a + "\n" + e, b);
    LinesConcat(a, e);
    LinesOfLine(e);
  }

  /**
    What the reader finds after the splice: the old list with the new module
    right after the entries above the splice, exactly when the reader is in a
    use block there; otherwise the old list, unchanged.
   */
  lemma ReaderSeesEntryIff(clean: Cleaner, content: string, pos: nat, name: string)
    requires Splice(content) == Some(pos) && EntryName(name)
    ensures var mods := Modules(clean, content);
            var above := Modules(clean, content[..pos]);
            && above <= mods
            && Modules(clean, Inserted(content, pos, name)) ==
               if Opens(Lines(content[..pos])) then above + [clean("./modules/" + name)] + mods[|above|..] else mods
  {
    var a, b := Lines(content[..pos]), Lines(content[pos + 1..]);
    var r := ReadAll(clean, START, a);
    EntryTrims(name);
    InsertedLines(content, pos, name);
    InUseIffOpens(clean, a);
    var r' := ReadLine(clean, r, NewEntry(name));
    ReadConcat(clean, START, a, b);
    ReadConcat(clean, START, a, [NewEntry(name)]);
    ReadConcat(clean, START, a + [NewEntry(name)], b);
    assert ReadAll(clean, r, [NewEntry(name)]) == r';
    ReadAppends(clean, r, b);
    ReadAppends(clean, r', b);
  }

  lemma InsertedIsPresent(content: string, pos: nat, name: string)
    requires pos < |content| && content[pos] == '\n'
    ensures Present(Inserted(content, pos, name), name)
  {
    var s, e := Inserted(content, pos, name) + "\n", NewEntry(name);
    assert s == content[..pos] + "\n" + (e + "\n") + content[pos + 1..] + "\n";
    assert At(s, pos + 1, e + "\n");
  }

  /** Whatever the file, a second update changes nothing. */
  lemma SecondUpdateChangesNothing(content: string, name: string)
    ensures Updated(Updated(content, name), name) == Updated(content, name)
  {
    if Splice(content).Some? {
      InsertedIsPresent(content, Splice(content).value, name);
    }
  }

  // ---- What an update means for the reader ----

  /** What the reader makes of the new line. */
  function Module(clean: Cleaner, name: string): string {
    clean("./modules/" + name)
  }

  /** There is a place for a new entry, and the reader is inside a use block there. */
  ghost predicate OpenAtSplice(content: string) {
    Splice(content).Some? && Opens(Lines(content[..Splice(content).value]))
  }

  /** The entry is not there as text, and a use block is open where it would go. */
  ghost predicate Adds(content: string, name: string) {
    !Present(content, name) && OpenAtSplice(content)
  }

  /** Whatever the file, an update adds the module once to what the reader lists, or nothing. */
  lemma UpdateListsOnceMore(clean: Cleaner, content: string, name: string)
    requires EntryName(name)
    ensures multiset(Modules(clean, Updated(content, name))) ==
            multiset(Modules(clean, content))
            + if Adds(content, name) then multiset{Module(clean, name)} else multiset{}
  {
    if !Present(content, name) && Splice(content).Some? {
      var pos := Splice(content).value;
      ReaderSeesEntryIff(clean, content, pos, name);
      OnceMore(Modules(clean, content), Modules(clean, content[..pos]), Module(clean, name));
    }
  }

  lemma OnceMore(mods: seq<string>, above: seq<string>, m: string)
    requires above <= mods
    ensures multiset(above + [m] + mods[|above|..]) == multiset(mods) + multiset{m}
  {
    assert mods == above + mods[|above|..];
  }

  /**
    After an update the reader lists the module exactly when it did before or
    the update added it. So a successful update leaves an unlisted module out
    exactly when the text of its entry is there already or no use block is
    open at the splice.
   */
  lemma UpdateListsIff(clean: Cleaner, content: string, name: string)
    requires EntryName(name)
    ensures Module(clean, name) in Modules(clean, Updated(content, name)) <==>
            Module(clean, name) in Modules(clean, content) || Adds(content, name)
  {
    UpdateListsOnceMore(clean, content, name);
    var m := Module(clean, name);
    assert m in Modules(clean, content) <==> multiset(Modules(clean, content))[m] > 0;
    assert m in Modules(clean, Updated(content, name)) <==> multiset(Modules(clean, Updated(content, name)))[m] > 0;
  }

  function Times(modules: seq<string>, m: string): nat {
    multiset(modules)[m]
  }

  /**
    An update makes the reader list a module twice exactly when it listed it,
    other than by the very text of the entry, above an open block.
   */
  lemma UpdateDuplicatesIff(clean: Cleaner, content: string, name: string)
    requires EntryName(name) && Times(Modules(clean, content), Module(clean, name)) <= 1
    ensures Times(Modules(clean, Updated(content, name)), Module(clean, name)) > 1 <==>
            Module(clean, name) in Modules(clean, content) && Adds(content, name)
  {
    UpdateListsOnceMore(clean, content, name);
  }

  ghost predicate SomeLineEnds(lines: seq<string>, e: string) {
    exists k :: 0 <= k < |lines| && HasSuffix(lines[k], e)
  }

  /** The text test looks for a line that ends in the entry. */
  lemma PresentIff(content: string, name: string)
    requires OneLine(name)
    ensures Present(content, name) <==> SomeLineEnds(Lines(content), NewEntry(name))
  {
    var e := NewEntry(name);
    assert OneLine(e);
    if Present(content, name) {
      var i: nat :| At(content + "\n", i, e + "\n");
      LineOfOccurrence(content, i, e);
    }
    if SomeLineEnds(Lines(content), e) {
      var k :| 0 <= k < |Lines(content)| && HasSuffix(Lines(content)[k], e);
      JoinLines(content);
      SuffixOccurs(Lines(content), k, e);
    }
  }

  /** Where a text ends in a line, its last line ends in it. */
  lemma LastLineEnds(a: string, e: string)
    requires OneLine(e)
    ensures exists init: seq<string>, last: string :: Lines(a + e) == init + [last + e]
  {
    var k := LastBefore(a, '\n', |a|);
    var last := a[k + 1..];
    assert OneLine(last + e);
    LinesOfLine(last + e);
    if k < 0 {
      assert last == a;
      assert Lines(a + e) == [] + [last + e];
    } else {
      assert a + e == a[..k] + "\n" + (last + e);
      LinesConcat(a[..k], last + e);
    }
  }

  lemma SplitAt(s: string, i: nat, e: string)
    requires At(s, i, e + "\n")
    ensures s == (s[..i] + e) + "\n" + s[i + |e| + 1..]
  {
    assert s[i..i + |e| + 1] == e + "\n";
    assert s == s[..i] + s[i..i + |e| + 1] + s[i + |e| + 1..];
  }

  lemma LinesOfMore(content: string)
    ensures Lines(content + "\n") == Lines(content) + [""]
  {
    LinesConcat(content, "");
    LinesOfLine("");
    assert content + "\n" + "" == content + "\n";
  }

  lemma SuffixInInit(x: seq<string>, last: string, y: seq<string>, lines: seq<string>, e: string)
    requires y != [] && x + [last + e] + y == lines + [""]
    ensures SomeLineEnds(lines, e)
  {
    var k := |x|;
    assert (x + [last + e] + y)[k] == last + e;
    assert (lines + [""])[k] == lines[k];
    assert (last + e)[|last|..] == e;
    assert HasSuffix(lines[k], e);
  }

  lemma LineOfOccurrence(content: string, i: nat, e: string)
    requires OneLine(e) && At(content + "\n", i, e + "\n")
    ensures SomeLineEnds(Lines(content), e)
  {
    var s := content + "\n";
    var a, b := s[..i], s[i + |e| + 1..];
    SplitAt(s, i, e);
    LinesConcat(a + e, b);
    LinesOfMore(content);
    LastLineEnds(a, e);
    var init, last :| Lines(a + e) == init + [last + e];
    SuffixInInit(init, last, Lines(b), Lines(content), e);
  }

  /** Text in front of s, or behind it, moves an occurrence or leaves it where it is. */
  lemma AtWithin(front: string, s: string, back: string, i: nat, sub: string)
    requires At(s, i, sub)
    ensures At(front + s + back, |front| + i, sub)
  {
    var all := front + s + back;
    assert all[|front| + i..|front| + i + |sub|] == s[i..i + |sub|];
  }

  lemma LineOccurs(l: string, back: string, e: string)
    requires HasSuffix(l, e)
    ensures Occurs(l + "\n" + back, e + "\n")
  {
    assert (l + "\n")[|l| - |e|..] == e + "\n";
    assert At(l + "\n", |l| - |e|, e + "\n");
    AtWithin("", l + "\n", back, |l| - |e|, e + "\n");
    assert "" + (l + "\n") + back == l + "\n" + back;
  }

  lemma {:induction false} SuffixOccurs(lines: seq<string>, k: nat, e: string)
    requires k < |lines| && HasSuffix(lines[k], e)
    ensures Occurs(Join(lines) + "\n", e + "\n")
  {
    var l := lines[0];
    if |lines| == 1 {
      LineOccurs(l, "", e);
      assert l + "\n" + "" == Join(lines) + "\n";
    } else {
      var rest := Join(lines[1..]) + "\n";
      JoinStep(l, lines[1..]);
      assert lines == [l] + lines[1..];
      assert Join(lines) + "\n" == l + "\n" + rest;
      if k == 0 {
        LineOccurs(l, rest, e);
      } else {
        SuffixOccurs(lines[1..], k - 1, e);
        var i: nat :| At(rest, i, e + "\n");
        AtWithin(l + "\n", rest, "", i, e + "\n");
        assert l + "\n" + rest + "" == l + "\n" + rest;
      }
    }
  }

  // ---- Files on which the text test, the splice and the reader disagree ----

  /** Lines that start with "use (" and do not go on with a closing parenthesis, up to the splice. */
  ghost predicate UpToSplice(lines: seq<string>) {
    && lines != [] && (forall l :: l in lines ==> OneLine(l))
    && HasPrefix(lines[0], OPEN) && forall i :: 1 <= i < |lines| ==> lines[i] == "" || lines[i][0] != ')'
  }

  ghost predicate NoCloseAfterNewline(text: string) {
    forall i :: 0 <= i < |text| - 1 && text[i] == '\n' ==> text[i + 1] != ')'
  }

  lemma {:induction false} NoClose(lines: seq<string>)
    requires lines != [] && (forall l :: l in lines ==> OneLine(l))
    requires forall k :: 1 <= k < |lines| ==> lines[k] == "" || lines[k][0] != ')'
    ensures NoCloseAfterNewline(Join(lines) + "\n")
  {
    var l, text := lines[0], Join(lines) + "\n";
    assert l in lines;
    if |lines| > 1 {
      var rest := Join(lines[1..]) + "\n";
      NoClose(lines[1..]);
      JoinStep(l, lines[1..]);
      assert lines == [l] + lines[1..] && text == l + "\n" + rest;
      FirstChar(lines[1..]);
      assert forall i :: |l| < i < |text| ==> text[i] == rest[i - |l| - 1];
    }
  }

  lemma FirstChar(lines: seq<string>)
    requires lines != [] && (lines[0] == "" || lines[0][0] != ')')
    ensures (Join(lines) + "\n")[0] != ')'
  {
    if |lines| > 1 {
      JoinStep(lines[0], lines[1..]);
      assert lines == [lines[0]] + lines[1..];
    }
  }

  /** What may stand above the use block: whole lines, none of which contains "use (". */
  ghost predicate Head(head: string) {
    (head == "" || head[|head| - 1] == '\n') && forall i: nat :: !At(head, i, OPEN)
  }

  /** text, and below it a line that starts with ")". */
  function Tail(text: string, rest: string): (r: string)
    ensures text <= r
  {
    text + "\n)" + rest
  }

  lemma NotWithin(head: string, tail: string, i: nat)
    requires Head(head) && i < |head|
    ensures !At(head + tail, i, OPEN)
  {
    var content := head + tail;
    if i + 5 <= |head| {
      assert content[i..i + 5] == head[i..i + 5];
      assert !At(head, i, OPEN);
    } else if i + 5 <= |content| {
      var k := |head| - 1 - i;
      assert OPEN[0] == 'u' && OPEN[1] == 's' && OPEN[2] == 'e' && OPEN[3] == ' ' && OPEN[4] == '(';
      assert content[i..i + 5][k] == content[i + k] == '\n' && OPEN[k] != '\n';
      assert content[i..i + 5] != OPEN;
    }
  }

  lemma OpenIs(head: string, tail: string)
    requires Head(head) && HasPrefix(tail, OPEN)
    ensures FirstAt(head + tail, 0, |head|, OPEN)
  {
    assert (head + tail)[|head|..|head| + 5] == tail[..5];
    forall i: nat | i < |head|
      ensures !At(head + tail, i, OPEN)
    {
      NotWithin(head, tail, i);
    }
  }

  lemma CloseIs(head: string, text: string, rest: string)
    requires NoCloseAfterNewline(text + "\n")
    ensures FirstAt(head + Tail(text, rest), |head|, |head| + |text|, "\n)")
  {
    var content, end := head + Tail(text, rest), |head| + |text|;
    assert content[end..end + 2] == "\n)";
    forall i: nat | |head| <= i < end
      ensures !At(content, i, "\n)")
    {
      assert content[i..i + 2] == [content[i], content[i + 1]];
      assert (text + "\n")[i - |head|] == content[i] && (text + "\n")[i - |head| + 1] == content[i + 1];
    }
  }

  lemma TailOpens(text: string, rest: string)
    requires HasPrefix(text, OPEN)
    ensures HasPrefix(Tail(text, rest), OPEN)
  {
    assert Tail(text, rest)[..5] == text[..5];
  }

  lemma SpliceIs(head: string, text: string, rest: string, pos: nat)
    requires Head(head) && HasPrefix(text, OPEN) && NoCloseAfterNewline(text + "\n") && pos == |head| + |text|
    ensures Splice(head + Tail(text, rest)) == Some(pos)
  {
    TailOpens(text, rest);
    OpenIs(head, Tail(text, rest));
    CloseIs(head, text, rest);
    SpliceAt(head + Tail(text, rest), |head|, pos);
  }

  lemma SpliceAt(content: string, u: nat, pos: nat)
    requires u <= pos && FirstAt(content, 0, u, OPEN) && FirstAt(content, u, pos, "\n)")
    ensures Splice(content) == Some(pos)
  {
    SpliceIff(content, pos);
  }

  lemma LinesAfter(lines: seq<string>, rest: string)
    requires lines != [] && forall l :: l in lines ==> OneLine(l)
    ensures Lines(Join(lines) + "\n)" + rest) == lines + Lines(")" + rest)
  {
    var text := Join(lines);
    LinesJoin(lines);
    assert text + "\n)" + rest == text + "\n" + (")" + rest);
    LinesConcat(text, ")" + rest);
  }

  /** A go.work: what stands above the block, the block up to the line that closes it, and the text after that ")". */
  function GoFile(head: string, lines: seq<string>, rest: string): string {
    head + Tail(Join(lines), rest)
  }

  lemma SpliceAfter(head: string, lines: seq<string>, rest: string, pos: nat)
    requires Head(head) && UpToSplice(lines) && pos == |head| + |Join(lines)|
    ensures Splice(GoFile(head, lines, rest)) == Some(pos)
  {
    FirstLinePrefix(lines);
    NoClose(lines);
    SpliceIs(head, Join(lines), rest, pos);
  }

  lemma CutAfter(head: string, text: string, rest: string)
    ensures (head + Tail(text, rest))[..|head| + |text|] == head + text
    ensures (head + Tail(text, rest))[|head| + |text|..] == "\n)" + rest
  {
  }

  /** A use block up to the line that closes it: opened on a line of its own, and not closed before. */
  ghost predicate UseBlock(lines: seq<string>) {
    UpToSplice(lines) && OpensAt(lines, 0)
  }

  lemma OpensBelow(above: seq<string>, lines: seq<string>)
    requires lines != [] && OpensAt(lines, 0)
    ensures Opens(above + lines)
  {
    var all := above + lines;
    assert forall v :: 0 <= v < |lines| ==> all[|above| + v] == lines[v];
    forall v | |above| < v < |all|
      ensures TrimSpace(all[v]) != CLOSE
    {
      assert all[v] == lines[v - |above|];
    }
    assert OpensAt(all, |above|);
  }

  lemma BlockIsOpen(head: string, lines: seq<string>)
    requires Head(head) && UseBlock(lines)
    ensures Opens(Lines(head + Join(lines)))
  {
    LinesJoin(lines);
    if head == "" {
      assert head + Join(lines) == Join(lines);
      OpensBelow([], lines);
      assert [] + lines == lines;
    } else {
      var above := head[..|head| - 1];
      assert head + Join(lines) == above + "\n" + Join(lines);
      LinesConcat(above, Join(lines));
      OpensBelow(Lines(above), lines);
    }
  }

  /** after is mods with m right after the first entries of it, which are above. */
  ghost predicate GainsAfter(above: seq<string>, mods: seq<string>, m: string, after: seq<string>) {
    above <= mods && after == above + [m] + mods[|above|..]
  }

  lemma GainsAt(clean: Cleaner, content: string, above: string, pos: nat, after: string, name: string)
    requires EntryName(name) && !Present(content, name) && Splice(content) == Some(pos)
    requires content[..pos] == above && Opens(Lines(above)) && after == Inserted(content, pos, name)
    ensures Updated(content, name) == after
    ensures GainsAfter(Modules(clean, above), Modules(clean, content), Module(clean, name), Modules(clean, after))
  {
    ReaderSeesEntryIff(clean, content, pos, name);
  }

  lemma {:induction false} JoinMore(lines: seq<string>, l: string)
    requires lines != []
    ensures Join(lines + [l]) == Join(lines) + "\n" + l
  {
    if |lines| == 1 {
      assert (lines + [l])[1..] == [l];
    } else {
      assert (lines + [l])[1..] == lines[1..] + [l];
      JoinMore(lines[1..], l);
    }
  }

  lemma InsertedInText(head: string, text: string, rest: string, name: string, pos: nat)
    requires pos == |head| + |text|
    ensures Inserted(head + Tail(text, rest), pos, name) == head + Tail(text + "\n" + NewEntry(name), rest)
  {
    CutAfter(head, text, rest);
    assert head + text + "\n" + NewEntry(name) + ("\n)" + rest) == head + (text + "\n" + NewEntry(name) + "\n)" + rest);
  }

  lemma InsertedInFile(head: string, lines: seq<string>, rest: string, name: string, pos: nat)
    requires lines != [] && pos == |head| + |Join(lines)|
    ensures Inserted(GoFile(head, lines, rest), pos, name) == GoFile(head, lines + [NewEntry(name)], rest)
  {
    InsertedInText(head, Join(lines), rest, name, pos);
    JoinMore(lines, NewEntry(name));
  }

  /**
    A go.work with its use block on its own lines, whatever stands above and
    below, and without the entry: the entry becomes the block's last line, and
    the reader gains exactly the new module, after the block's other entries.
   */
  lemma UpdateAddsModule(clean: Cleaner, head: string, lines: seq<string>, rest: string, name: string)
    requires EntryName(name) && Head(head) && UseBlock(lines) && !Present(GoFile(head, lines, rest), name)
    ensures Updated(GoFile(head, lines, rest), name) == GoFile(head, lines + [NewEntry(name)], rest)
    ensures GainsAfter(Modules(clean, head + Join(lines)), Modules(clean, GoFile(head, lines, rest)),
                       Module(clean, name), Modules(clean, GoFile(head, lines + [NewEntry(name)], rest)))
  {
    var pos: nat := |head| + |Join(lines)|;
    SpliceAfter(head, lines, rest, pos);
    CutAfter(head, Join(lines), rest);
    BlockIsOpen(head, lines);
    InsertedInFile(head, lines, rest, name, pos);
    GainsAt(clean, GoFile(head, lines, rest), head + Join(lines), pos,
            GoFile(head, lines + [NewEntry(name)], rest), name);
  }

  lemma FirstLinePrefix(lines: seq<string>)
    requires lines != [] && HasPrefix(lines[0], OPEN)
    ensures HasPrefix(Join(lines), OPEN)
  {
    if |lines| > 1 {
      JoinStep(lines[0], lines[1..]);
      assert lines == [lines[0]] + lines[1..];
    }
  }

  /** A line that neither starts nor ends in white space. */
  lemma Untrimmed(s: string)
    requires s != [] && !Space(s[0]) && !Space(s[|s| - 1])
    ensures TrimSpace(s) == s
  {
    assert TrimLeftSpace(s) == s;
    assert TrimRightSpace(s) == s;
  }

  lemma ReadOne(clean: Cleaner, r: Reader, init: seq<string>, line: string)
    ensures ReadAll(clean, r, init + [line]) == ReadLine(clean, ReadAll(clean, r, init), line)
  {
    assert (init + [line])[..|init|] == init;
  }

  /** The reader on a line that opens a block and one entry of it. */
  lemma ReadEntry(clean: Cleaner, open: string, entry: string)
    requires TrimSpace(open) == OPEN && TrimSpace(entry) != OPEN && TrimSpace(entry) != CLOSE && TrimSpace(entry) != ""
    ensures ReadAll(clean, START, [open, entry]) == Reader(true, [clean(TrimSpace(entry))])
  {
    ReadOne(clean, START, [], open);
    ReadOne(clean, START, [open], entry);
    assert [] + [open] == [open] && [open] + [entry] == [open, entry];
  }

  /** The closing line and nothing else that the reader looks at. */
  lemma ReadClose(clean: Cleaner, r: Reader)
    requires r.inUse
    ensures ReadAll(clean, r, [CLOSE]) == r.(inUse := false)
  {
    ReadOne(clean, r, [], CLOSE);
    assert [] + [CLOSE] == [CLOSE];
    Untrimmed(CLOSE);
  }

  /** A file that is only a block, and the line that closes it. */
  lemma AloneSplice(lines: seq<string>)
    requires UpToSplice(lines)
    ensures Splice(GoFile("", lines, "")) == Some(|Join(lines)|)
    ensures GoFile("", lines, "")[..|Join(lines)|] == Join(lines)
    ensures Lines(GoFile("", lines, "")) == lines + [CLOSE]
  {
    SpliceAfter("", lines, "", |Join(lines)|);
    CutAfter("", Join(lines), "");
    assert "" + Join(lines) == Join(lines);
    AloneLines(lines);
  }

  lemma AloneLines(lines: seq<string>)
    requires UpToSplice(lines)
    ensures Lines(GoFile("", lines, "")) == lines + [CLOSE]
  {
    LinesAfter(lines, "");
    LinesOfLine(CLOSE);
    assert ")" + "" == CLOSE && GoFile("", lines, "") == Join(lines) + "\n)" + "";
  }

  function BlockOf(open: string, entry: string): string {
    GoFile("", [open, entry], "")
  }

  /** Two lines that a block closed at the first column may consist of. */
  ghost predicate BlockLines(open: string, entry: string) {
    && TrimSpace(open) == OPEN && HasPrefix(open, OPEN) && OneLine(open)
    && OneLine(entry) && entry != "" && entry[0] != ')'
    && TrimSpace(entry) != OPEN && TrimSpace(entry) != CLOSE && TrimSpace(entry) != ""
  }

  lemma LinesOfBlock(open: string, entry: string)
    requires BlockLines(open, entry)
    ensures Lines(BlockOf(open, entry)) == [open, entry] + [CLOSE]
    ensures OpenAtSplice(BlockOf(open, entry))
  {
    AloneSplice([open, entry]);
    LinesJoin([open, entry]);
    assert OpensAt([open, entry], 0);
  }

  lemma SomeOfThree(a: string, b: string, c: string, e: string)
    ensures SomeLineEnds([a, b] + [c], e) <==> HasSuffix(a, e) || HasSuffix(b, e) || HasSuffix(c, e)
  {
    var lines := [a, b] + [c];
    assert lines[0] == a && lines[1] == b && lines[2] == c;
  }

  lemma PresentInBlock(open: string, entry: string, name: string)
    requires BlockLines(open, entry) && EntryName(name)
    ensures Present(BlockOf(open, entry), name) <==> HasSuffix(open, NewEntry(name)) || HasSuffix(entry, NewEntry(name))
  {
    LinesOfBlock(open, entry);
    PresentIff(BlockOf(open, entry), name);
    NotSuffix(CLOSE, name);
    SomeOfThree(open, entry, CLOSE, NewEntry(name));
  }

  lemma ModulesOfBlock(clean: Cleaner, open: string, entry: string)
    requires BlockLines(open, entry)
    ensures Modules(clean, BlockOf(open, entry)) == [clean(TrimSpace(entry))]
  {
    LinesOfBlock(open, entry);
    ReadEntry(clean, open, entry);
    ReadConcat(clean, START, [open, entry], [CLOSE]);
    ReadClose(clean, ReadAll(clean, START, [open, entry]));
  }

  function Comment(name: string): (r: string)
    ensures HasSuffix(r, NewEntry(name)) && r[0] == '/'
  {
    assert ("//" + NewEntry(name))[2..] == NewEntry(name);
    "//" + NewEntry(name)
  }

  /** The entry as a comment. */
  function CommentedOut(name: string): string {
    BlockOf(OPEN, Comment(name))
  }

  lemma EntryEnds(name: string)
    requires EntryName(name)
    ensures !Space(NewEntry(name)[|NewEntry(name)| - 1])
  {
    assert name != [] ==> NewEntry(name)[|NewEntry(name)| - 1] == name[|name| - 1];
  }

  /** An entry that is commented out counts as present, so the update succeeds, changes nothing and adds no module. */
  lemma CommentedEntryIsNotAdded(clean: Cleaner, name: string)
    requires EntryName(name)
    ensures Present(CommentedOut(name), name) && OpenAtSplice(CommentedOut(name))
    ensures Updated(CommentedOut(name), name) == CommentedOut(name)
    ensures Modules(clean, CommentedOut(name)) == [clean(Comment(name))]
    ensures clean(Comment(name)) != Module(clean, name) ==> Module(clean, name) !in Modules(clean, CommentedOut(name))
  {
    EntryTrims(name);
    EntryEnds(name);
    Untrimmed(Comment(name));
    Untrimmed(OPEN);
    LinesOfBlock(OPEN, Comment(name));
    PresentInBlock(OPEN, Comment(name), name);
    ModulesOfBlock(clean, OPEN, Comment(name));
  }

  /** The entry in a file with carriage returns at its line ends. */
  function WithReturns(name: string): string {
    BlockOf(OPEN + "\r", NewEntry(name) + "\r")
  }

  /**
    With carriage returns at its line ends, the entry is listed and not found, and
    the update lists the module twice.
   */
  lemma ReturnsListTwice(clean: Cleaner, name: string)
    requires EntryName(name)
    ensures Modules(clean, WithReturns(name)) == [Module(clean, name)] && Adds(WithReturns(name), name)
    ensures Times(Modules(clean, Updated(WithReturns(name), name)), Module(clean, name)) == 2
  {
    var open, entry := OPEN + "\r", NewEntry(name) + "\r";
    EntryTrims(name);
    Untrimmed(OPEN);
    assert DropCR(open) == OPEN && DropCR(entry) == NewEntry(name);
    TrimDropsCR(open);
    TrimDropsCR(entry);
    LinesOfBlock(open, entry);
    ModulesOfBlock(clean, open, entry);
    PresentInBlock(open, entry, name);
    NotSuffix(open, name);
    NotSuffix(entry, name);
    UpdateListsOnceMore(clean, WithReturns(name), name);
  }

  lemma NotSuffix(line: string, name: string)
    requires EntryName(name) && line != [] && (Space(line[|line| - 1]) || |line| == 1)
    ensures !HasSuffix(line, NewEntry(name))
  {
    var e := NewEntry(name);
    EntryEnds(name);
    if |e| <= |line| {
      assert line[|line| - |e|..][|e| - 1] == line[|line| - 1];
    }
  }

  const INDENTED_CLOSE := " )"
  const REPLACE := "replace ("
  const RULE := "\texample.com/m => ./m"
  const INDENTED := [OPEN, INDENTED_CLOSE, REPLACE, RULE]

  /** A use block with an indented closing parenthesis, and a replace block. */
  function IndentedClose(): string {
    GoFile("", INDENTED, "")
  }

  lemma IndentedTrims()
    ensures TrimSpace(INDENTED_CLOSE) == CLOSE && TrimSpace(REPLACE) == REPLACE && TrimSpace(RULE) == RULE[1..]
    ensures TrimSpace(REPLACE) != OPEN && TrimSpace(RULE) != OPEN
  {
    Untrimmed(CLOSE);
    Untrimmed(REPLACE);
    Untrimmed(RULE[1..]);
    assert INDENTED_CLOSE[1..] == CLOSE && TrimLeftSpace(CLOSE) == CLOSE;
    assert TrimLeftSpace(RULE[1..]) == RULE[1..];
    assert REPLACE[0] == 'r' && RULE[1..][0] == 'e' && OPEN[0] == 'u';
  }

  lemma IndentedNotOpen(lines: seq<string>)
    requires |lines| == 4 && TrimSpace(lines[1]) == CLOSE && TrimSpace(lines[2]) != OPEN && TrimSpace(lines[3]) != OPEN
    ensures !Opens(lines)
  {
    assert CLOSE != OPEN;
  }

  lemma IndentedUpToSplice()
    ensures UpToSplice(INDENTED)
  {
    assert OPEN[..5] == OPEN;
  }

  /** A go.work to which an update does not add the module reads as before. */
  lemma NotAdded(clean: Cleaner, content: string, name: string)
    requires EntryName(name) && !Adds(content, name)
    ensures Modules(clean, Updated(content, name)) == Modules(clean, content)
  {
    if !Present(content, name) && Splice(content).Some? {
      ReaderSeesEntryIff(clean, content, Splice(content).value, name);
    }
  }

  lemma IndentedIsNotOpen()
    ensures Splice(IndentedClose()).Some? && !OpenAtSplice(IndentedClose())
  {
    IndentedTrims();
    IndentedNotOpen(INDENTED);
    IndentedUpToSplice();
    AloneSplice(INDENTED);
    LinesJoin(INDENTED);
  }

  /**
    An indented closing parenthesis ends the block for the reader and not for
    the splice: the entry lands in the next block and the module is lost.
   */
  lemma IndentedCloseLosesModule(clean: Cleaner, name: string)
    requires EntryName(name)
    ensures Splice(IndentedClose()).Some? && !OpenAtSplice(IndentedClose())
    ensures Modules(clean, Updated(IndentedClose(), name)) == Modules(clean, IndentedClose())
  {
    IndentedIsNotOpen();
    NotAdded(clean, IndentedClose(), name);
  }
}
