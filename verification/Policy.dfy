/** The local policy: glob rules over package URLs, deny before allow before warn, then the release cooldown. */
module Policy {
  import Text

  datatype Action = Allow | Warn | Block | Monitor | Unknown
  datatype Kind = NoKind | PolicyRule | Cooldown | UnknownPackage | Vulnerability | Malware | IntelError

  /** `rule` is the pattern that decided, "" for none; `finding` the position of the finding that did, -1 for none. */
  datatype Decision = Decision(action: Action, rule: string, kind: Kind, finding: int)

  // ---- globs ----

  /** One element of a compiled glob. */
  datatype Atom = AnyRun | AnyOne | Literal(c: char)

  function AtomOf(c: char): Atom {
    if c == '*' then AnyRun else if c == '?' then AnyOne else Literal(c)
  }

  predicate Blank(pattern: string) {
    forall i :: 0 <= i < |pattern| ==> Text.IsSpace(pattern[i])
  }

  function Atoms(pattern: string): (atoms: seq<Atom>) {
    seq(|pattern|, i requires 0 <= i < |pattern| => AtomOf(pattern[i]))
  }

  /** Compiles a pattern; a blank one is refused. */
  method CompileGlob(pattern: string) returns (ok: bool, atoms: seq<Atom>)
    ensures ok == !Blank(pattern)
    ensures ok ==> atoms == Atoms(pattern)
  {
    atoms := [];
    ok := !Blank(pattern);
    if ok {
      for i := 0 to |pattern|
        invariant atoms == Atoms(pattern[..i])
      {
        atoms := atoms + [AtomOf(pattern[i])];
        assert Atoms(pattern[..i + 1]) == Atoms(pattern[..i]) + [AtomOf(pattern[i])];
      }
      assert pattern[..|pattern|] == pattern;
    }
  }

  /** The text one atom stands for: a dot does not match a newline. */
  ghost predicate Piece(atom: Atom, s: string) {
    match atom
    case AnyRun => '\n' !in s
    case AnyOne => |s| == 1 && s[0] != '\n'
    case Literal(c) => s == [c]
  }

  ghost function Joined(pieces: seq<string>): string {
    if pieces == [] then "" else pieces[0] + Joined(pieces[1..])
  }

  ghost predicate Pieces(atoms: seq<Atom>, pieces: seq<string>) {
    |pieces| == |atoms| && forall i :: 0 <= i < |atoms| ==> Piece(atoms[i], pieces[i])
  }

  /** What the anchored regular expression accepts: a string cut into one piece per atom. */
  ghost predicate Accepts(atoms: seq<Atom>, s: string) {
    exists pieces :: Pieces(atoms, pieces) && Joined(pieces) == s
  }

  /** A matcher for it. */
  predicate Matches(atoms: seq<Atom>, s: string)
    decreases |atoms| + |s|
  {
    if atoms == [] then s == ""
    else
      match atoms[0]
      case AnyRun => Matches(atoms[1..], s) || (s != "" && s[0] != '\n' && Matches(atoms, s[1..]))
      case AnyOne => s != "" && s[0] != '\n' && Matches(atoms[1..], s[1..])
      case Literal(c) => s != "" && s[0] == c && Matches(atoms[1..], s[1..])
  }

  lemma {:induction false} MatchesAccepts(atoms: seq<Atom>, s: string) returns (pieces: seq<string>)
    requires Matches(atoms, s)
    ensures Pieces(atoms, pieces) && Joined(pieces) == s
    decreases |atoms| + |s|
  {
    if atoms == [] {
      pieces := [];
    } else if atoms[0].AnyRun? && !Matches(atoms[1..], s) {
      var rest := MatchesAccepts(atoms, s[1..]);
      hide Matches, Piece;
      RunLonger(atoms, rest, s[0]);
      assert s == [s[0]] + s[1..];
      pieces := [[s[0]] + rest[0]] + rest[1..];
    } else {
      var n := if atoms[0].AnyRun? then 0 else 1;
      var rest := MatchesAccepts(atoms[1..], s[n..]);
      hide Matches;
      pieces := [s[..n]] + rest;
      assert pieces[1..] == rest;
      assert s == s[..n] + s[n..];
    }
  }

  /** A run takes one more character. */
  lemma RunLonger(atoms: seq<Atom>, pieces: seq<string>, c: char)
    requires atoms != [] && atoms[0].AnyRun? && c != '\n' && Pieces(atoms, pieces)
    ensures var longer := [[c] + pieces[0]] + pieces[1..];
      Pieces(atoms, longer) && Joined(longer) == [c] + Joined(pieces)
  {
    var longer := [[c] + pieces[0]] + pieces[1..];
    assert longer[1..] == pieces[1..];
    assert Piece(atoms[0], pieces[0]);
  }

  lemma {:induction false} AcceptsMatches(atoms: seq<Atom>, pieces: seq<string>)
    requires Pieces(atoms, pieces)
    ensures Matches(atoms, Joined(pieces))
    decreases |atoms| + |Joined(pieces)|
  {
    if atoms != [] {
      var head, tail, s := pieces[0], pieces[1..], Joined(pieces);
      assert Piece(atoms[0], head);
      if atoms[0].AnyRun? && head != "" {
        var less := [head[1..]] + tail;
        assert less[1..] == tail;
        assert Joined(less) == s[1..];
        AcceptsMatches(atoms, less);
      } else {
        assert s[|head|..] == Joined(tail);
        AcceptsMatches(atoms[1..], tail);
        assert head == "" ==> s == Joined(tail);
      }
    }
  }

  lemma MatcherIsRight(atoms: seq<Atom>, s: string)
    ensures Matches(atoms, s) <==> Accepts(atoms, s)
  {
    if Matches(atoms, s) {
      var pieces := MatchesAccepts(atoms, s);
    }
    if Accepts(atoms, s) {
      var pieces :| Pieces(atoms, pieces) && Joined(pieces) == s;
      AcceptsMatches(atoms, pieces);
    }
  }

  /** What one character of a pattern stands for: a star for any text on one line, a question mark for any one character
      but a line break, any other for itself. */
  ghost predicate StandsFor(c: char, piece: string) {
    && (c == '*' ==> '\n' !in piece)
    && (c == '?' ==> exists d: char :: d != '\n' && piece == [d])
    && (c != '*' && c != '?' ==> piece == [c])
  }

  ghost predicate CutInto(pattern: string, pieces: seq<string>, s: string) {
    |pieces| == |pattern| && Joined(pieces) == s && forall i :: 0 <= i < |pattern| ==> StandsFor(pattern[i], pieces[i])
  }

  /** A pattern matches exactly what can be cut into one piece for each of its characters. */
  lemma GlobsMean(pattern: string, s: string)
    ensures Matches(Atoms(pattern), s) <==> exists pieces :: CutInto(pattern, pieces, s)
  {
    MatcherIsRight(Atoms(pattern), s);
    forall i, piece: string | 0 <= i < |pattern| ensures Piece(Atoms(pattern)[i], piece) <==> StandsFor(pattern[i], piece) {
      PieceIs(pattern[i], piece);
    }
    hide Piece, StandsFor, Matches, AtomOf;
    if Accepts(Atoms(pattern), s) {
      var pieces :| Pieces(Atoms(pattern), pieces) && Joined(pieces) == s;
      assert CutInto(pattern, pieces, s);
    }
    if exists pieces :: CutInto(pattern, pieces, s) {
      var pieces :| CutInto(pattern, pieces, s);
      assert Pieces(Atoms(pattern), pieces);
    }
  }

  lemma PieceIs(c: char, piece: string)
    ensures Piece(AtomOf(c), piece) <==> StandsFor(c, piece)
  {
    if |piece| == 1 {
      assert piece == [piece[0]];
    }
  }

  predicate Plain(pattern: string) {
    '*' !in pattern && '?' !in pattern
  }

  /** A pattern without wildcards matches only itself. */
  lemma {:induction false} PlainMatchesItself(pattern: string, s: string)
    requires Plain(pattern)
    ensures Matches(Atoms(pattern), s) <==> s == pattern
  {
    if pattern != "" {
      var atoms, rest := Atoms(pattern), pattern[1..];
      assert atoms[1..] == Atoms(rest);
      assert atoms[0] == Literal(pattern[0]) by {
        assert pattern[0] in pattern;
      }
      if s != "" {
        PlainMatchesItself(rest, s[1..]);
        assert s == [s[0]] + s[1..] && pattern == [pattern[0]] + rest;
      }
    }
  }

  // ---- rules ----

  datatype Rule = Rule(action: Action, pattern: string)

  datatype Config = Config(deny: seq<string>, allow: seq<string>, warn: seq<string>, cooldown: bool, minAge: int)

  datatype Engine = Engine(rules: seq<Rule>, cooldown: bool, minAge: int)

  const DAY := 86_400_000_000_000

  /** The rules of the patterns that compile. */
  function RulesOf(action: Action, patterns: seq<string>): (rules: seq<Rule>)
    ensures forall r :: r in rules ==> r.action == action
  {
    if patterns == [] then []
    else
      var before, last := RulesOf(action, patterns[..|patterns| - 1]), patterns[|patterns| - 1];
      if Blank(last) then before else before + [Rule(action, last)]
  }

  function New(c: Config): Engine {
    Engine(RulesOf(Block, c.deny) + RulesOf(Allow, c.allow) + RulesOf(Warn, c.warn), c.cooldown,
           if c.minAge == 0 then DAY else c.minAge)
  }

  method Add(rules: seq<Rule>, action: Action, patterns: seq<string>) returns (more: seq<Rule>, errors: nat)
    ensures more == rules + RulesOf(action, patterns)
    ensures errors == 0 <==> forall p :: p in patterns ==> !Blank(p)
  {
    more, errors := rules, 0;
    for i := 0 to |patterns|
      invariant more == rules + RulesOf(action, patterns[..i])
      invariant errors == 0 <==> forall p :: p in patterns[..i] ==> !Blank(p)
    {
      assert patterns[..i + 1] == patterns[..i] + [patterns[i]];
      var ok, _ := CompileGlob(patterns[i]);
      if ok {
        more := more + [Rule(action, patterns[i])];
      } else {
        errors := errors + 1;
      }
    }
    assert patterns[..|patterns|] == patterns;
  }

  /** Builds the engine; every pattern must compile. */
  method NewEngine(c: Config) returns (engine: Engine, ok: bool)
    ensures engine == New(c)
    ensures ok <==> forall p :: p in c.deny + c.allow + c.warn ==> !Blank(p)
  {
    var rules, first := Add([], Block, c.deny);
    var second, third;
    rules, second := Add(rules, Allow, c.allow);
    rules, third := Add(rules, Warn, c.warn);
    assert [] + RulesOf(Block, c.deny) == RulesOf(Block, c.deny);
    ok := first == 0 && second == 0 && third == 0;
    engine := Engine(rules, c.cooldown, if c.minAge == 0 then DAY else c.minAge);
  }

  predicate Hits(rule: Rule, purl: string) {
    Matches(Atoms(rule.pattern), purl)
  }

  /** The position of the first matching rule, or |rules|. */
  function FirstHit(rules: seq<Rule>, purl: string): (i: nat)
    ensures i <= |rules| && (i < |rules| ==> Hits(rules[i], purl))
    ensures forall k :: 0 <= k < i ==> !Hits(rules[k], purl)
  {
    if rules == [] || Hits(rules[0], purl) then 0
    else
      var i := FirstHit(rules[1..], purl);
      assert forall k :: 1 <= k < i + 1 ==> rules[k] == rules[1..][k - 1];
      i + 1
  }

  /** Whether the package is younger than the cooldown allows. */
  predicate TooYoung(e: Engine, published: int, now: int) {
    e.cooldown && published != 0 && now - published < e.minAge
  }

  /** `published` is 0 when the publish time is not known. */
  function Evaluated(e: Engine, purl: string, published: int, now: int): Decision {
    if purl == "" then Decision(Unknown, "", UnknownPackage, -1)
    else
      var i := FirstHit(e.rules, purl);
      if i < |e.rules| then Decision(e.rules[i].action, e.rules[i].pattern, PolicyRule, -1)
      else if TooYoung(e, published, now) then Decision(Block, "", Cooldown, -1)
      else Decision(Allow, "", NoKind, -1)
  }

  method Evaluate(e: Engine, purl: string, published: int, now: int) returns (d: Decision)
    ensures d == Evaluated(e, purl, published, now)
  {
    if purl == "" {
      return Decision(Unknown, "", UnknownPackage, -1);
    }
    for i := 0 to |e.rules|
      invariant forall k :: 0 <= k < i ==> !Hits(e.rules[k], purl)
    {
      if Hits(e.rules[i], purl) {
        return Decision(e.rules[i].action, e.rules[i].pattern, PolicyRule, -1);
      }
    }
    if TooYoung(e, published, now) {
      return Decision(Block, "", Cooldown, -1);
    }
    return Decision(Allow, "", NoKind, -1);
  }

  /** Only an allow rule that names one exact version may serve a known malicious package. */
  predicate ExemptsMalware(d: Decision) {
    d.action == Allow && d.rule != "" && Plain(d.rule)
  }

  lemma {:induction false} RuleFor(action: Action, patterns: seq<string>, pattern: string)
    requires pattern in patterns && !Blank(pattern)
    ensures Rule(action, pattern) in RulesOf(action, patterns)
  {
    var last := |patterns| - 1;
    if patterns[last] != pattern {
      assert patterns == patterns[..last] + [patterns[last]];
      RuleFor(action, patterns[..last], pattern);
    }
  }

  ghost predicate Denied(c: Config, purl: string) {
    exists p :: p in c.deny && !Blank(p) && Matches(Atoms(p), purl)
  }

  /** The first hit is a deny rule exactly when some deny pattern matches. */
  lemma DenyComesFirst(c: Config, purl: string)
    ensures var e := New(c); var i := FirstHit(e.rules, purl);
      Denied(c, purl) <==> i < |e.rules| && e.rules[i].action == Block
  {
    var e := New(c);
    var denies := RulesOf(Block, c.deny);
    var i := FirstHit(e.rules, purl);
    if Denied(c, purl) {
      var p :| p in c.deny && !Blank(p) && Matches(Atoms(p), purl);
      RuleFor(Block, c.deny, p);
      var k :| 0 <= k < |denies| && denies[k] == Rule(Block, p);
      assert e.rules[k] == denies[k];
      assert Hits(e.rules[k], purl);
      assert e.rules[i] == denies[i];
    }
    if i < |e.rules| && e.rules[i].action == Block {
      LaterRulesDoNotBlock(c, i);
      FromPatterns(Block, c.deny, e.rules[i]);
    }
  }

  lemma LaterRulesDoNotBlock(c: Config, i: nat)
    requires i < |New(c).rules| && New(c).rules[i].action == Block
    ensures New(c).rules[i] in RulesOf(Block, c.deny)
  {
    var denies, allows, warns := RulesOf(Block, c.deny), RulesOf(Allow, c.allow), RulesOf(Warn, c.warn);
    var r := New(c).rules[i];
    assert r in denies || r in allows || r in warns;
  }

  lemma {:induction false} FromPatterns(action: Action, patterns: seq<string>, r: Rule)
    requires r in RulesOf(action, patterns)
    ensures r.pattern in patterns && !Blank(r.pattern)
  {
    var last := |patterns| - 1;
    if Blank(patterns[last]) || r != Rule(action, patterns[last]) {
      FromPatterns(action, patterns[..last], r);
      assert patterns == patterns[..last] + [patterns[last]];
    }
  }

  ghost predicate Allowed(c: Config, purl: string) {
    exists p :: p in c.allow && !Blank(p) && Matches(Atoms(p), purl)
  }

  ghost predicate Warned(c: Config, purl: string) {
    exists p :: p in c.warn && !Blank(p) && Matches(Atoms(p), purl)
  }

  /** Deny decides before allow, and allow before warn: the deciding rule blocks, allows or warns exactly when a pattern of
      its kind matches and none of an earlier kind does. */
  lemma RuleOrder(c: Config, purl: string)
    ensures var rules := New(c).rules;
      var i := FirstHit(rules, purl);
      && (i < |rules| <==> Denied(c, purl) || Allowed(c, purl) || Warned(c, purl))
      && (i < |rules| ==>
            rules[i].action == if Denied(c, purl) then Block else if Allowed(c, purl) then Allow else Warn)
  {
    DenyComesFirst(c, purl);
    var denies, allows, warns := RulesOf(Block, c.deny), RulesOf(Allow, c.allow), RulesOf(Warn, c.warn);
    var rules := New(c).rules;
    var i := FirstHit(rules, purl);
    HitsThere(Allow, c.allow, purl);
    HitsThere(Warn, c.warn, purl);
    HitsThere(Block, c.deny, purl);
    hide RulesOf, Matches, Hits, FirstHit, Blank;
    FirstOfThree(denies, allows, warns, purl);
  }

  /** Some rule of these patterns matches exactly when some pattern does. */
  lemma HitsThere(action: Action, patterns: seq<string>, purl: string)
    ensures AnyHit(RulesOf(action, patterns), purl) <==> exists p :: p in patterns && !Blank(p) && Matches(Atoms(p), purl)
  {
    if exists p :: p in patterns && !Blank(p) && Matches(Atoms(p), purl) {
      var k := HitFor(action, patterns, purl);
    }
    if AnyHit(RulesOf(action, patterns), purl) {
      var k :| 0 <= k < |RulesOf(action, patterns)| && Hits(RulesOf(action, patterns)[k], purl);
      FromPatterns(action, patterns, RulesOf(action, patterns)[k]);
    }
  }

  ghost predicate AnyHit(rules: seq<Rule>, purl: string) {
    exists k :: 0 <= k < |rules| && Hits(rules[k], purl)
  }

  /** The first hit in two lists lies in the first if that has one, and else where the second has its first. */
  lemma {:induction false} FirstOfTwo(a: seq<Rule>, b: seq<Rule>, purl: string)
    ensures if FirstHit(a, purl) < |a| then FirstHit(a + b, purl) == FirstHit(a, purl)
      else FirstHit(a + b, purl) == |a| + FirstHit(b, purl)
    decreases |a|
  {
    hide Hits;
    if a == [] {
      assert a + b == b;
    } else {
      assert (a + b)[1..] == a[1..] + b;
      FirstOfTwo(a[1..], b, purl);
    }
  }

  lemma AnyHitIs(rules: seq<Rule>, purl: string)
    ensures AnyHit(rules, purl) <==> FirstHit(rules, purl) < |rules|
  {
    hide Hits, FirstHit;
  }

  /** Of three lists it lies in the first that has one. */
  lemma FirstOfThree(a: seq<Rule>, b: seq<Rule>, c: seq<Rule>, purl: string)
    ensures var i := FirstHit(a + b + c, purl);
      if AnyHit(a, purl) then i < |a| else if AnyHit(b, purl) then |a| <= i < |a| + |b|
      else if AnyHit(c, purl) then |a| + |b| <= i < |a| + |b| + |c| else i == |a| + |b| + |c|
  {
    hide Hits, FirstHit, AnyHit;
    assert a + b + c == a + (b + c);
    FirstOfTwo(a, b + c, purl);
    FirstOfTwo(b, c, purl);
    AnyHitIs(a, purl);
    AnyHitIs(b, purl);
    AnyHitIs(c, purl);
  }

  /** A pattern that matches gives a rule that does. */
  lemma HitFor(action: Action, patterns: seq<string>, purl: string) returns (k: nat)
    requires exists p :: p in patterns && !Blank(p) && Matches(Atoms(p), purl)
    ensures k < |RulesOf(action, patterns)| && Hits(RulesOf(action, patterns)[k], purl)
  {
    var p :| p in patterns && !Blank(p) && Matches(Atoms(p), purl);
    RuleFor(action, patterns, p);
    var rules := RulesOf(action, patterns);
    k :| 0 <= k < |rules| && rules[k] == Rule(action, p);
  }
}
