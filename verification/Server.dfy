/** The decision pipeline: local policy, publish-time cooldown and vulnerability intelligence. */
module Server {
  import opened Options
  import opened Policy
  import Text
  import Intel

  datatype Settings = Settings(failOpenUnknown: bool, failOpenIntel: bool, default: Option<Action>, threshold: real)

  datatype Info = Info(needsDecision: bool, skipVulnerabilityCheck: bool, purl: string, published: int)

  /** The two lookups a decision may make: a publish time (0 when the registry has none) and the findings. */
  datatype Lookups = Lookups(published: Option<int>, findings: Option<seq<Intel.Finding>>)

  function LookupFailed(s: Settings): Decision {
    Decision(if s.failOpenIntel then Warn else Block, "", IntelError, -1)
  }

  /** A matched warn or allow rule decides everything but malware. */
  function RuleAction(s: Settings, info: Info, look: Lookups, ruled: Decision): Action {
    if ExemptsMalware(ruled) || info.skipVulnerabilityCheck then ruled.action
    else if look.findings.None? then LookupFailed(s).action
    else if Intel.HasMalware(look.findings.value) then Block
    else ruled.action
  }

  predicate NeedsPublishTime(e: Engine, info: Info, now: int) {
    var d := Evaluated(e, info.purl, info.published, now);
    d.action == Allow && d.rule == "" && e.cooldown && info.published == 0
  }

  /** The action decide takes. */
  function Verdict(s: Settings, e: Engine, info: Info, look: Lookups, now: int): Action {
    if !info.needsDecision then Allow
    else if NeedsPublishTime(e, info, now) && look.published.None? then LookupFailed(s).action
    else
      var published := if NeedsPublishTime(e, info, now) then look.published.value else info.published;
      var d := Evaluated(e, info.purl, published, now);
      if d.action == Block then Block
      else if d.action == Unknown then if s.failOpenUnknown then Warn else Block
      else if d.rule != "" then RuleAction(s, info, look, d)
      else if info.skipVulnerabilityCheck then Allow
      else if look.findings.None? then LookupFailed(s).action
      else Intel.ActionFor(look.findings.value, s.default, s.threshold)
  }

  method RuleDecision(s: Settings, info: Info, look: Lookups, ruled: Decision) returns (d: Decision)
    ensures d.action == RuleAction(s, info, look, ruled)
    ensures
      || d == ruled
      || (d == LookupFailed(s) && look.findings.None?)
      || (d.kind == Malware && d.action == Block && d.rule == "" && look.findings.Some?
          && Intel.HasMalware(look.findings.value) && Intel.Blames(look.findings.value, d))
  {
    if ExemptsMalware(ruled) || info.skipVulnerabilityCheck {
      return ruled;
    }
    if look.findings.None? {
      return LookupFailed(s);
    }
    var malware, block := Intel.MalwareDecision(look.findings.value);
    return if malware then block else ruled;
  }

  ghost predicate Young(e: Engine, info: Info, look: Lookups, now: int) {
    || TooYoung(e, info.published, now)
    || (info.published == 0 && look.published.Some? && TooYoung(e, look.published.value, now))
  }

  /** As every engine's rules are: they block, allow or warn. */
  ghost predicate Built(e: Engine) {
    forall r :: r in e.rules ==> r.action in {Block, Allow, Warn}
  }

  /** The cause a decision names is its cause, and nothing is blocked without one. */
  ghost predicate Explained(e: Engine, info: Info, look: Lookups, now: int, d: Decision) {
    var i := FirstHit(e.rules, info.purl);
    && (d.action == Block ==> d.kind != NoKind) && (d.action == Allow ==> d.kind in {NoKind, PolicyRule})
    && (d.kind != PolicyRule ==> d.rule == "")
    && (if d.kind in {Malware, Vulnerability} then look.findings.Some? && Intel.Blames(look.findings.value, d)
        else d.finding == -1)
    && (d.kind == Malware ==> d.action == Block && look.findings.Some? && Intel.HasMalware(look.findings.value))
    && (d.kind == Vulnerability ==> look.findings.Some? && look.findings.value != [] && !Intel.HasMalware(look.findings.value))
    && (d.kind == IntelError ==> look.findings.None? || (NeedsPublishTime(e, info, now) && look.published.None?))
    && (d.kind == PolicyRule ==> i < |e.rules| && d.action == e.rules[i].action && d.rule == e.rules[i].pattern)
    && (d.kind == UnknownPackage ==> info.purl == "")
    && (d.kind == Cooldown ==> d.action == Block && i == |e.rules| && Young(e, info, look, now))
  }

  method Decide(s: Settings, e: Engine, info: Info, look: Lookups, now: int) returns (d: Decision)
    ensures d.action == Verdict(s, e, info, look, now)
    ensures Built(e) ==> Explained(e, info, look, now, d)
  {
    if !info.needsDecision {
      return Decision(Allow, "", NoKind, -1);
    }
    var published := info.published;
    var policyDecision := Evaluate(e, info.purl, published, now);
    if policyDecision.action == Allow && policyDecision.rule == "" && e.cooldown && published == 0 {
      if look.published.None? {
        return LookupFailed(s);
      }
      published := look.published.value;
      policyDecision := Evaluate(e, info.purl, published, now);
    }
    if policyDecision.action == Block {
      return policyDecision;
    }
    if policyDecision.action == Unknown {
      return Decision(if s.failOpenUnknown then Warn else Block, "", UnknownPackage, -1);
    }
    if policyDecision.rule != "" {
      d := RuleDecision(s, info, look, policyDecision);
      return;
    }
    if info.skipVulnerabilityCheck {
      return Decision(Allow, "", NoKind, -1);
    }
    if look.findings.None? {
      return LookupFailed(s);
    }
    d := Intel.Decide(look.findings.value, s.default, s.threshold);
    if d.action == Allow {
      return Decision(Allow, "", NoKind, -1);
    }
  }

  // ---- precedence ----

  /** An identified package that is checked for vulnerabilities, with every lookup made answered. */
  ghost predicate Checked(e: Engine, info: Info, look: Lookups, now: int) {
    && info.needsDecision && info.purl != "" && !info.skipVulnerabilityCheck && look.findings.Some?
    && (NeedsPublishTime(e, info, now) ==> look.published.Some?)
  }

  /** The first matching rule is an allow rule whose text is the package itself. */
  ghost predicate NamedExactly(c: Config, purl: string) {
    var rules := New(c).rules;
    var i := FirstHit(rules, purl);
    i < |rules| && rules[i].action == Allow && rules[i].pattern == purl
  }

  lemma RulesAreNotBlank(c: Config, i: nat)
    requires i < |New(c).rules|
    ensures New(c).rules[i].pattern != "" && New(c).rules[i].action in {Block, Allow, Warn}
  {
    var denies, allows, warns := RulesOf(Block, c.deny), RulesOf(Allow, c.allow), RulesOf(Warn, c.warn);
    var r := New(c).rules[i];
    assert r in denies || r in allows || r in warns;
    if r in denies {
      FromPatterns(Block, c.deny, r);
    } else if r in allows {
      FromPatterns(Allow, c.allow, r);
    } else {
      FromPatterns(Warn, c.warn, r);
    }
  }

  /** A package with a malicious finding is blocked, whatever the rules, settings and other findings, unless the first
      matching rule allows exactly this package URL without wildcards; and then it is allowed. */
  lemma MalwareIsBlocked(s: Settings, c: Config, info: Info, look: Lookups, now: int)
    requires Checked(New(c), info, look, now) && Intel.HasMalware(look.findings.value)
    ensures Verdict(s, New(c), info, look, now) ==
      if NamedExactly(c, info.purl) && '*' !in info.purl && '?' !in info.purl then Allow else Block
  {
    hide FirstHit, NamedExactly, New;
    assert look.findings.value != [];
    hide Intel.HasMalware;
    ExemptIff(c, info.purl);
    if FirstHit(New(c).rules, info.purl) < |New(c).rules| {
      MalwareUnderRule(s, c, info, look, now);
    }
  }

  lemma MalwareUnderRule(s: Settings, c: Config, info: Info, look: Lookups, now: int)
    requires Checked(New(c), info, look, now) && Intel.HasMalware(look.findings.value)
    requires FirstHit(New(c).rules, info.purl) < |New(c).rules|
    ensures var rule := New(c).rules[FirstHit(New(c).rules, info.purl)];
      Verdict(s, New(c), info, look, now) ==
        if ExemptsMalware(Decision(rule.action, rule.pattern, PolicyRule, -1)) then Allow else Block
  {
    hide FirstHit, New, Plain, Intel.HasMalware;
    RulesAreNotBlank(c, FirstHit(New(c).rules, info.purl));
  }

  /** The rule that decides exempts malware exactly when it names the package, which has no wildcard. */
  lemma ExemptIff(c: Config, purl: string)
    ensures var rules := New(c).rules;
      var i := FirstHit(rules, purl);
      NamedExactly(c, purl) && Plain(purl) <==>
        i < |rules| && ExemptsMalware(Decision(rules[i].action, rules[i].pattern, PolicyRule, -1))
  {
    var rules := New(c).rules;
    var i := FirstHit(rules, purl);
    if i < |rules| {
      RulesAreNotBlank(c, i);
      if Plain(rules[i].pattern) {
        PlainMatchesItself(rules[i].pattern, purl);
      }
    }
  }

  /** A package URL with a wildcard in it is not exempted even by the rule that repeats it. */
  lemma WildcardIsNotExempt(s: Settings, now: int)
    ensures var purl := "pkg:npm/a@1?x";
      var c := Config([], [purl], [], false, 0);
      var info := Info(true, false, purl, 0);
      var look := Lookups(None, Some([Intel.Finding("MAL-1", [], [], 0.0)]));
      NamedExactly(c, purl) && Verdict(s, New(c), info, look, now) == Block
  {
    var purl := "pkg:npm/a@1?x";
    var c := Config([], [purl], [], false, 0);
    var info := Info(true, false, purl, 0);
    var look := Lookups(None, Some([Intel.Finding("MAL-1", [], [], 0.0)]));
    assert purl[11] == '?';
    assert !Blank(purl) by {
      assert !Text.IsSpace(purl[0]);
    }
    assert RulesOf(Allow, [purl]) == [Rule(Allow, purl)];
    assert New(c).rules == [Rule(Allow, purl)];
    SelfMatch(purl);
    assert FirstHit(New(c).rules, purl) == 0;
    assert Intel.IsMal("MAL-1");
    assert Intel.Malicious(look.findings.value[0]);
    MalwareIsBlocked(s, c, info, look, now);
  }

  /** A pattern without line breaks matches itself. */
  lemma {:induction false} SelfMatch(pattern: string)
    requires '\n' !in pattern
    ensures Matches(Atoms(pattern), pattern)
  {
    if pattern != "" {
      assert pattern[0] in pattern;
      assert Atoms(pattern)[1..] == Atoms(pattern[1..]);
      SelfMatch(pattern[1..]);
      if pattern[0] == '*' {
        assert Atoms(pattern)[0] == AnyRun;
        StarOver(Atoms(pattern), pattern);
      }
    }
  }

  lemma StarOver(atoms: seq<Atom>, s: string)
    requires atoms != [] && atoms[0] == AnyRun && s != "" && s[0] != '\n' && Matches(atoms[1..], s[1..])
    ensures Matches(atoms, s)
  {
    assert Matches(atoms, s[1..]);
  }

  /** A matching deny rule blocks, whatever the other rules, the settings and the lookups say. */
  lemma DenyAlwaysBlocks(s: Settings, c: Config, info: Info, look: Lookups, now: int)
    requires info.needsDecision && info.purl != "" && Denied(c, info.purl)
    ensures Verdict(s, New(c), info, look, now) == Block
  {
    DenyComesFirst(c, info.purl);
    var i := FirstHit(New(c).rules, info.purl);
    RulesAreNotBlank(c, i);
  }

  /** Without a matching rule and with its lookups answered, a package is blocked exactly when it is too young, malicious,
      too severe, or has findings and the default is to block. */
  lemma UnmatchedIsBlockedIff(s: Settings, c: Config, info: Info, look: Lookups, now: int)
    requires Checked(New(c), info, look, now)
    requires FirstHit(New(c).rules, info.purl) == |New(c).rules|
    ensures var findings := look.findings.value;
      var published := if c.cooldown && info.published == 0 then look.published.value else info.published;
      var minAge := if c.minAge == 0 then 24 * 60 * 60 * 1_000_000_000 else c.minAge;
      Verdict(s, New(c), info, look, now) == Block <==>
        || (c.cooldown && published != 0 && now - published < minAge)
        || (exists f :: f in findings && Intel.Malicious(f))
        || (s.threshold > 0.0 && exists f :: f in findings && f.severity >= s.threshold)
        || (findings != [] && s.default == Some(Block))
  {
    var findings := look.findings.value;
    assert Intel.HasMalware(findings) <==> exists f :: f in findings && Intel.Malicious(f);
    assert Intel.Severe(findings, s.threshold) <==>
      s.threshold > 0.0 && exists f :: f in findings && f.severity >= s.threshold;
    assert Intel.HasMalware(findings) ==> findings != [];
    hide Intel.HasMalware, Intel.Severe, FirstHit;
  }

  /** Without a matching rule and with its lookups answered, a package that is not blocked is allowed exactly if it has no
      findings; otherwise it gets the default action, a warning if none is set. */
  lemma UnmatchedOtherwise(s: Settings, c: Config, info: Info, look: Lookups, now: int)
    requires Checked(New(c), info, look, now) && Verdict(s, New(c), info, look, now) != Block
    requires FirstHit(New(c).rules, info.purl) == |New(c).rules|
    ensures Verdict(s, New(c), info, look, now)
         == if look.findings.value == [] then Allow else if s.default.None? then Warn else s.default.value
  {
    hide FirstHit;
  }

  // ---- failed lookups and unknown packages ----

  /** No deny rule and no cooldown decides, nor an allow rule that exempts from the malware check. */
  ghost predicate Undecided(c: Config, info: Info, look: Lookups, now: int) {
    && info.needsDecision && info.purl != "" && !info.skipVulnerabilityCheck && !Denied(c, info.purl)
    && !(NamedExactly(c, info.purl) && '*' !in info.purl && '?' !in info.purl)
    && (FirstHit(New(c).rules, info.purl) == |New(c).rules| && c.cooldown ==>
          && (info.published == 0 ==> look.published.Some?)
          && var published := if info.published == 0 then look.published.value else info.published;
             published == 0 || now - published >= if c.minAge == 0 then DAY else c.minAge)
  }

  /** When only the findings could decide and cannot be had, the package is blocked unless failing open is set, and warned
      about then. */
  lemma FailedFindings(s: Settings, c: Config, info: Info, look: Lookups, now: int)
    requires Undecided(c, info, look, now) && look.findings.None?
    ensures Verdict(s, New(c), info, look, now) == if s.failOpenIntel then Warn else Block
  {
    hide FirstHit, Denied, NamedExactly, RulesOf;
    if FirstHit(New(c).rules, info.purl) < |New(c).rules| {
      FailedUnderRule(s, c, info, look, now);
    }
  }

  lemma FailedUnderRule(s: Settings, c: Config, info: Info, look: Lookups, now: int)
    requires info.needsDecision && info.purl != "" && !info.skipVulnerabilityCheck && !Denied(c, info.purl)
    requires !(NamedExactly(c, info.purl) && Plain(info.purl)) && look.findings.None?
    requires FirstHit(New(c).rules, info.purl) < |New(c).rules|
    ensures Verdict(s, New(c), info, look, now) == if s.failOpenIntel then Warn else Block
  {
    hide FirstHit, Denied, NamedExactly, Plain, RulesOf, New;
    ExemptIff(c, info.purl);
    DenyComesFirst(c, info.purl);
    RulesAreNotBlank(c, FirstHit(New(c).rules, info.purl));
  }

  /** The same when the publish time is needed and cannot be had: no rule matches and the cooldown is on. */
  lemma FailedPublishTime(s: Settings, c: Config, info: Info, look: Lookups, now: int)
    requires info.needsDecision && info.purl != "" && FirstHit(New(c).rules, info.purl) == |New(c).rules|
    requires c.cooldown && info.published == 0 && look.published.None?
    ensures Verdict(s, New(c), info, look, now) == if s.failOpenIntel then Warn else Block
  {
    hide FirstHit;
  }

  /** A package that could not be identified is blocked unless failing open is set, and warned about then. */
  lemma UnknownPackages(s: Settings, c: Config, info: Info, look: Lookups, now: int)
    requires info.needsDecision && info.purl == ""
    ensures Verdict(s, New(c), info, look, now) == if s.failOpenUnknown then Warn else Block
  {
  }

  /** With failing open off, whatever is let through was identified, is not denied, and had every lookup it needed
      answered: its publish time if no rule matched under a cooldown, and its findings unless it is exempt or not checked. */
  lemma FailClosed(s: Settings, c: Config, info: Info, look: Lookups, now: int)
    requires !s.failOpenIntel && !s.failOpenUnknown && info.needsDecision
    requires Verdict(s, New(c), info, look, now) != Block
    ensures info.purl != "" && !Denied(c, info.purl)
    ensures FirstHit(New(c).rules, info.purl) == |New(c).rules| && c.cooldown && info.published == 0 ==> look.published.Some?
    ensures look.findings.Some? || info.skipVulnerabilityCheck
      || (NamedExactly(c, info.purl) && '*' !in info.purl && '?' !in info.purl)
  {
    if info.purl == "" {
      UnknownPackages(s, c, info, look, now);
    } else {
      ExemptIff(c, info.purl);
      DenyComesFirst(c, info.purl);
      var i := FirstHit(New(c).rules, info.purl);
      if i < |New(c).rules| {
        RulesAreNotBlank(c, i);
      }
      hide FirstHit, Denied, NamedExactly, Plain, RulesOf;
    }
  }

  /** What needs no decision, like metadata, is allowed. */
  lemma NoDecisionNeeded(s: Settings, c: Config, info: Info, look: Lookups, now: int)
    requires !info.needsDecision
    ensures Verdict(s, New(c), info, look, now) == Allow
  {
  }

  /** A matched allow or warn rule has its way when the findings are answered and hold no malware. */
  lemma RuleHasItsWay(s: Settings, c: Config, info: Info, look: Lookups, now: int)
    requires Checked(New(c), info, look, now) && !Intel.HasMalware(look.findings.value)
    requires !Denied(c, info.purl) && FirstHit(New(c).rules, info.purl) < |New(c).rules|
    ensures Verdict(s, New(c), info, look, now)
         == if exists p :: p in c.allow && !Blank(p) && Matches(Atoms(p), info.purl) then Allow else Warn
  {
    RuleOrder(c, info.purl);
    var i := FirstHit(New(c).rules, info.purl);
    RulesAreNotBlank(c, i);
    hide FirstHit, Denied, RulesOf, Intel.HasMalware, Matches;
  }

  /** Adding deny patterns never lets a blocked package through. */
  lemma MoreDenyBlocksMore(s: Settings, c: Config, more: seq<string>, info: Info, look: Lookups, now: int)
    requires Verdict(s, New(c), info, look, now) == Block && info.needsDecision && info.purl != ""
    ensures Verdict(s, New(c.(deny := c.deny + more)), info, look, now) == Block
  {
    var wider := c.(deny := c.deny + more);
    if Denied(wider, info.purl) {
      DenyAlwaysBlocks(s, wider, info, look, now);
    } else {
      StillNotDenied(c, more, info.purl);
      SameVerdict(s, c, wider, info, look, now);
    }
  }

  lemma StillNotDenied(c: Config, more: seq<string>, purl: string)
    requires !Denied(c.(deny := c.deny + more), purl)
    ensures !Denied(c, purl)
  {
    forall p | p in c.deny ensures p in c.deny + more {
    }
  }

  lemma SameVerdict(s: Settings, c: Config, d: Config, info: Info, look: Lookups, now: int)
    requires d == c.(deny := d.deny) && !Denied(c, info.purl) && !Denied(d, info.purl)
    ensures Verdict(s, New(c), info, look, now) == Verdict(s, New(d), info, look, now)
  {
    hide FirstHit, RulesOf, Denied;
    SameFirstHit(c, d, info.purl);
    assert forall published :: Evaluated(New(c), info.purl, published, now) == Evaluated(New(d), info.purl, published, now);
  }

  /** Two configurations that differ only in deny patterns that do not match decide by the same rule. */
  lemma SameFirstHit(c: Config, d: Config, purl: string)
    requires d == c.(deny := d.deny) && !Denied(c, purl) && !Denied(d, purl)
    ensures var i, j := FirstHit(New(c).rules, purl), FirstHit(New(d).rules, purl);
      (i < |New(c).rules| <==> j < |New(d).rules|) && (i < |New(c).rules| ==> New(c).rules[i] == New(d).rules[j])
  {
    hide FirstHit, RulesOf, Denied, Hits;
    var rest := RulesOf(Allow, c.allow) + RulesOf(Warn, c.warn);
    assert New(c).rules == RulesOf(Block, c.deny) + rest && New(d).rules == RulesOf(Block, d.deny) + rest;
    SkipDenies(c, rest, purl);
    SkipDenies(d, rest, purl);
  }

  lemma SkipDenies(c: Config, rest: seq<Rule>, purl: string)
    requires !Denied(c, purl)
    ensures FirstHit(RulesOf(Block, c.deny) + rest, purl) == |RulesOf(Block, c.deny)| + FirstHit(rest, purl)
  {
    var denies := RulesOf(Block, c.deny);
    forall k | 0 <= k < |denies| ensures !Hits(denies[k], purl) {
      FromPatterns(Block, c.deny, denies[k]);
    }
    FirstOfTwo(denies, rest, purl);
  }
}
