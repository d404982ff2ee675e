/** The dump configuration and its lookups (internal/pkg/dump/config.go). */
module Config {
  import opened Lists
  import opened Database

  const DEFAULT_CHILD_DEPTH: nat := 1
  const DEFAULT_CHILDREN_PER_PARENT: nat := 20

  type Positive = n: int | n >= 1 witness 1

  /** A parsed glob of Go's path.Match; a bare name has already been qualified. */
  datatype Token =
    | Literal(c: char)
    | AnyChar
    | AnyRun
    | Class(negated: bool, ranges: seq<(char, char)>)

  type Pattern = seq<Token>

  datatype Seed = Seed(
    table: string,
    childDepth: Option<nat>,
    childrenPerParent: Option<Positive>,
    allChildren: seq<Pattern>,
    sql: string)

  datatype AttachRule = AttachRule(table: string, to: string)

  datatype Config = Config(
    seeds: seq<Seed>,
    childrenPerParent: Option<Positive>,
    exclude: seq<Pattern>,
    attach: seq<AttachRule>)

  /** path.Match: `*` and `?` stop at a slash, a character class does not. */
  predicate Matches(p: Pattern, s: string)
    decreases |p| + |s|
  {
    if p == [] then s == []
    else match p[0]
         case Literal(c) => s != [] && s[0] == c && Matches(p[1..], s[1..])
         case AnyChar => s != [] && s[0] != '/' && Matches(p[1..], s[1..])
         case AnyRun => Matches(p[1..], s) || (s != [] && s[0] != '/' && Matches(p, s[1..]))
         case Class(negated, ranges) =>
           s != [] && (exists r :: r in ranges && r.0 <= s[0] <= r.1) != negated && Matches(p[1..], s[1..])
  }

  predicate MatchAny(patterns: seq<Pattern>, key: string) {
    exists p :: p in patterns && Matches(p, key)
  }

  function Qualify(name: string): string {
    if '.' in name then name else "public." + name
  }

  function SeedKey(s: Seed): string {
    Qualify(s.table)
  }

  function ChildDepth(s: Seed): nat {
    match s.childDepth
    case Some(d) => d
    case None => DEFAULT_CHILD_DEPTH
  }

  function ChildrenPerParent(cfg: Config, s: Seed): Positive {
    match s.childrenPerParent
    case Some(n) => n
    case None =>
      match cfg.childrenPerParent
      case Some(n) => n
      case None => DEFAULT_CHILDREN_PER_PARENT
  }

  /** How many children through one foreign key an expanded row brings in; 0 lifts the cap. */
  function ChildLimit(cfg: Config, s: Seed, key: string): nat {
    if MatchAny(s.allChildren, key) then 0 else ChildrenPerParent(cfg, s)
  }

  predicate Excluded(cfg: Config, key: string) {
    MatchAny(cfg.exclude, key)
  }

  predicate AttachedVia(cfg: Config, fk: ForeignKey) {
    exists a :: a in cfg.attach && Qualify(a.table) == fk.child && Qualify(a.to) == fk.parent
  }

  // ---- What the lookups mean ----

  /** key is the table that name stands for: a name without a dot is one of the schema public. */
  ghost predicate Names(name: string, key: string) {
    (key == name && '.' in name) || (key == "public." + name && '.' !in name)
  }

  /** Every name stands for one table; it has a schema, and qualifying it again changes nothing. */
  lemma QualifyOnce(name: string)
    ensures '.' in Qualify(name) && Qualify(Qualify(name)) == Qualify(name)
    ensures forall key :: Names(name, key) <==> key == Qualify(name)
  {
    assert "public."[6] == '.';
  }

  /** The cap that the seed gives, else the configuration, else 20. */
  ghost predicate CapIs(cfg: Config, s: Seed, k: nat) {
    || s.childrenPerParent == Some(k)
    || (s.childrenPerParent.None? && cfg.childrenPerParent == Some(k))
    || (s.childrenPerParent.None? && cfg.childrenPerParent.None? && k == 20)
  }

  /** The depth that the seed gives, else 1. */
  ghost predicate DepthIs(s: Seed, d: nat) {
    s.childDepth == Some(d) || (s.childDepth.None? && d == 1)
  }

  ghost predicate SplitsAt(p: Pattern, q: Pattern, s: string, k: int) {
    0 <= k <= |s| && Matches(p, s[..k]) && Matches(q, s[k..])
  }

  /** s is a match of p followed by a match of q. */
  ghost predicate Splits(p: Pattern, q: Pattern, s: string) {
    exists k :: SplitsAt(p, q, s, k)
  }

  /** A pattern in two parts matches what splits into a match of each. */
  lemma {:induction false} MatchesConcat(p: Pattern, q: Pattern, s: string)
    ensures Matches(p + q, s) <==> Splits(p, q, s)
    decreases |p| + |s|
  {
    if p == [] {
      assert p + q == q && s[0..] == s && s[..0] == [];
      assert Matches(q, s) ==> SplitsAt(p, q, s, 0);
      assert forall k :: SplitsAt(p, q, s, k) ==> k == 0;
    } else if p[0].AnyRun? {
      MatchesConcat(p[1..], q, s);
      if s != [] {
        MatchesConcat(p, q, s[1..]);
      }
      RunConcat(p, q, s);
    } else {
      if s != [] {
        MatchesConcat(p[1..], q, s[1..]);
      }
      TokenConcat(p, q, s);
    }
  }

  /** A single character that the token p[0] accepts. */
  predicate Accepts(t: Token, c: char) {
    match t
    case Literal(l) => c == l
    case AnyChar => c != '/'
    case AnyRun => c != '/'
    case Class(negated, ranges) => (exists r :: r in ranges && r.0 <= c <= r.1) != negated
  }

  lemma MatchesToken(p: Pattern, s: string)
    requires p != [] && !p[0].AnyRun?
    ensures Matches(p, s) <==> s != [] && Accepts(p[0], s[0]) && Matches(p[1..], s[1..])
  {
  }

  lemma MatchesRun(p: Pattern, s: string)
    requires p != [] && p[0].AnyRun?
    ensures Matches(p, s) <==> Matches(p[1..], s) || (s != [] && s[0] != '/' && Matches(p, s[1..]))
  {
  }

  /** Splitting s[1..] at k is splitting s at k + 1. */
  lemma Shift(s: string, k: int)
    requires s != [] && 1 <= k <= |s|
    ensures s[..k][0] == s[0] && s[..k][1..] == s[1..][..k - 1] && s[k..] == s[1..][k - 1..]
  {
  }

  lemma TokenSplits(p: Pattern, q: Pattern, s: string)
    requires p != [] && !p[0].AnyRun?
    ensures Splits(p, q, s) <==> s != [] && Accepts(p[0], s[0]) && Splits(p[1..], q, s[1..])
  {
    if k :| SplitsAt(p, q, s, k) {
      MatchesToken(p, s[..k]);
      Shift(s, k);
      assert SplitsAt(p[1..], q, s[1..], k - 1);
    }
    if s != [] && Accepts(p[0], s[0]) {
      if k :| SplitsAt(p[1..], q, s[1..], k) {
        Shift(s, k + 1);
        MatchesToken(p, s[..k + 1]);
        assert SplitsAt(p, q, s, k + 1);
      }
    }
  }

  lemma TokenConcat(p: Pattern, q: Pattern, s: string)
    requires p != [] && !p[0].AnyRun? && (s != [] ==> (Matches(p[1..] + q, s[1..]) <==> Splits(p[1..], q, s[1..])))
    ensures Matches(p + q, s) <==> Splits(p, q, s)
  {
    assert (p + q)[0] == p[0] && (p + q)[1..] == p[1..] + q;
    MatchesToken(p + q, s);
    TokenSplits(p, q, s);
  }

  lemma RunSplits(p: Pattern, q: Pattern, s: string)
    requires p != [] && p[0].AnyRun?
    ensures Splits(p, q, s) <==> Splits(p[1..], q, s) || (s != [] && s[0] != '/' && Splits(p, q, s[1..]))
  {
    if k :| SplitsAt(p, q, s, k) {
      MatchesRun(p, s[..k]);
      if Matches(p[1..], s[..k]) {
        assert SplitsAt(p[1..], q, s, k);
      } else {
        Shift(s, k);
        assert SplitsAt(p, q, s[1..], k - 1);
      }
    }
    if k :| SplitsAt(p[1..], q, s, k) {
      MatchesRun(p, s[..k]);
      assert SplitsAt(p, q, s, k);
    }
    if s != [] && s[0] != '/' {
      if k :| SplitsAt(p, q, s[1..], k) {
        Shift(s, k + 1);
        MatchesRun(p, s[..k + 1]);
        assert SplitsAt(p, q, s, k + 1);
      }
    }
  }

  lemma RunConcat(p: Pattern, q: Pattern, s: string)
    requires p != [] && p[0].AnyRun? && (Matches(p[1..] + q, s) <==> Splits(p[1..], q, s))
    requires s != [] ==> (Matches(p + q, s[1..]) <==> Splits(p, q, s[1..]))
    ensures Matches(p + q, s) <==> Splits(p, q, s)
  {
    assert (p + q)[0] == p[0] && (p + q)[1..] == p[1..] + q;
    MatchesRun(p + q, s);
    RunSplits(p, q, s);
  }

  /** A star matches exactly the texts without a slash; any other token exactly one character it accepts. */
  lemma {:induction false} OneToken(t: Token, s: string)
    ensures t.AnyRun? ==> (Matches([t], s) <==> '/' !in s)
    ensures !t.AnyRun? ==> (Matches([t], s) <==> |s| == 1 && Accepts(t, s[0]))
  {
    assert [t][1..] == [];
    if t.AnyRun? {
      MatchesRun([t], s);
      if s != [] {
        OneToken(t, s[1..]);
        assert s == [s[0]] + s[1..];
      }
    } else {
      MatchesToken([t], s);
    }
  }
}
