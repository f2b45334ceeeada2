/** What a package's findings decide: malware first, then the severity threshold, then the default action. */
module Intel {
  import opened Options
  import opened Policy

  datatype Finding = Finding(id: string, aliases: seq<string>, cwes: seq<string>, severity: real)

  predicate IsMal(id: string) {
    "MAL-" <= id
  }

  /** The finding's MAL- identifier, its own before an alias; "" for none. */
  function MalAlias(f: Finding): (mal: string)
    ensures mal != "" <==> IsMal(f.id) || exists a :: a in f.aliases && IsMal(a)
    ensures mal != "" ==> IsMal(mal)
  {
    if IsMal(f.id) then f.id else FirstMal(f.aliases)
  }

  function FirstMal(aliases: seq<string>): (mal: string)
    ensures mal != "" <==> exists a :: a in aliases && IsMal(a)
    ensures mal != "" ==> IsMal(mal)
  {
    if aliases == [] then "" else if IsMal(aliases[0]) then aliases[0] else FirstMal(aliases[1..])
  }

  predicate Malicious(f: Finding) {
    MalAlias(f) != "" || "CWE-506" in f.cwes
  }

  /** A finding is malicious exactly when its identifier or an alias starts with "MAL-", or it is classified as embedded
      malicious code. */
  lemma MaliciousIs(f: Finding)
    ensures Malicious(f) <==>
      || (|f.id| >= 4 && f.id[..4] == ['M', 'A', 'L', '-'])
      || (exists a :: a in f.aliases && |a| >= 4 && a[..4] == ['M', 'A', 'L', '-'])
      || (exists c :: c in f.cwes && c == ['C', 'W', 'E', '-', '5', '0', '6'])
  {
    assert forall s: string :: IsMal(s) <==> |s| >= 4 && s[..4] == ['M', 'A', 'L', '-'];
  }

  predicate HasMalware(findings: seq<Finding>) {
    exists i :: 0 <= i < |findings| && Malicious(findings[i])
  }

  function KindOf(f: Finding): Kind {
    if Malicious(f) then Malware else Vulnerability
  }

  /** `i` is the first of the most severe findings among those selected. */
  ghost predicate Worst(findings: seq<Finding>, i: nat, atLeast: real) {
    && i < |findings| && findings[i].severity >= atLeast
    && (forall k :: 0 <= k < |findings| ==> findings[k].severity <= findings[i].severity)
    && (forall k :: 0 <= k < i ==> findings[k].severity < findings[i].severity)
  }

  predicate Severe(findings: seq<Finding>, threshold: real) {
    threshold > 0.0 && exists i :: 0 <= i < |findings| && findings[i].severity >= threshold
  }

  ghost predicate Blames(findings: seq<Finding>, d: Decision) {
    0 <= d.finding < |findings| && d.kind == KindOf(findings[d.finding])
  }

  /** The block for the first malicious finding, if there is one. */
  method MalwareDecision(findings: seq<Finding>) returns (found: bool, d: Decision)
    ensures found == HasMalware(findings)
    ensures found ==>
      && d.action == Block && d.rule == "" && d.kind == Malware && Blames(findings, d)
      && forall k :: 0 <= k < d.finding ==> !Malicious(findings[k])
  {
    for i := 0 to |findings|
      invariant forall k :: 0 <= k < i ==> !Malicious(findings[k])
    {
      if Malicious(findings[i]) {
        return true, Decision(Block, "", Malware, i);
      }
    }
    return false, Decision(Allow, "", NoKind, -1);
  }

  /** Action to take when findings exist but none is malicious or severe enough. */
  function Fallback(default: Option<Action>): Action {
    if default.None? then Warn else default.value
  }

  /** The action the findings call for. */
  function ActionFor(findings: seq<Finding>, default: Option<Action>, threshold: real): Action {
    if findings == [] then Allow
    else if HasMalware(findings) || Severe(findings, threshold) then Block
    else Fallback(default)
  }

  /** Decides, and blames the first malicious finding, else the first of the most severe. */
  method Decide(findings: seq<Finding>, default: Option<Action>, threshold: real) returns (d: Decision)
    ensures d.action == ActionFor(findings, default, threshold) && d.rule == ""
    ensures if findings == [] then d.kind == NoKind && d.finding == -1 else Blames(findings, d)
    ensures d.kind == Malware <==> HasMalware(findings)
    ensures findings != [] && !HasMalware(findings) ==>
      Worst(findings, d.finding, if Severe(findings, threshold) then threshold else findings[d.finding].severity)
  {
    if findings == [] {
      return Decision(Allow, "", NoKind, -1);
    }
    var malware;
    malware, d := MalwareDecision(findings);
    if malware {
      return;
    }
    var blocking := -1;
    for i := 0 to |findings|
      invariant -1 <= blocking < i
      invariant blocking == -1 ==> forall k :: 0 <= k < i ==> !(threshold > 0.0 && findings[k].severity >= threshold)
      invariant blocking >= 0 ==> threshold > 0.0 && findings[blocking].severity >= threshold
      invariant blocking >= 0 ==> forall k :: 0 <= k < i ==> findings[k].severity <= findings[blocking].severity
      invariant blocking >= 0 ==> forall k :: 0 <= k < blocking ==> findings[k].severity < findings[blocking].severity
    {
      if threshold > 0.0 && findings[i].severity >= threshold
        && (blocking < 0 || findings[i].severity > findings[blocking].severity) {
        blocking := i;
      }
    }
    if blocking >= 0 {
      return Decision(Block, "", KindOf(findings[blocking]), blocking);
    }
    var worst := 0;
    for i := 1 to |findings|
      invariant 0 <= worst < i
      invariant forall k :: 0 <= k < i ==> findings[k].severity <= findings[worst].severity
      invariant forall k :: 0 <= k < worst ==> findings[k].severity < findings[worst].severity
    {
      if findings[i].severity > findings[worst].severity {
        worst := i;
      }
    }
    return Decision(Fallback(default), "", KindOf(findings[worst]), worst);
  }
}
