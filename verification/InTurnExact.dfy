/** Exactly when one pass with two rules equals applying them in turn, and what that means for the registries' rules. */
module InTurnExact {
  import opened Streams
  import opened RewriteSpec
  import opened RewriteInTurn

  // ---- a finite test for Apart ----

  /** b placed d bytes after the start of a agrees with it wherever the two overlap. */
  predicate Agree(a: seq<byte>, b: seq<byte>, d: int) {
    forall t :: 0 <= t < |a| && d <= t < d + |b| ==> a[t] == b[t - d]
  }

  predicate NoOverlap(a: seq<byte>, b: seq<byte>) {
    forall d :: -|b| < d < |a| ==> !Agree(a, b, d)
  }

  /** The part of a before b, and the part after it. */
  ghost function Before(a: seq<byte>, d: int): seq<byte>
    requires d <= |a|
  {
    if d <= 0 then [] else a[..d]
  }

  ghost function Beyond(a: seq<byte>, end: int): seq<byte>
    requires 0 <= end
  {
    if end >= |a| then [] else a[end..]
  }

  /** Texts that agree occur together in their merge. */
  lemma Merged(a: seq<byte>, b: seq<byte>, d: int)
    requires -|b| < d < |a| && Agree(a, b, d)
    ensures var text := Before(a, d) + b + Beyond(a, d + |b|);
      OccursAt(text, a, if d < 0 then -d else 0) && OccursAt(text, b, |Before(a, d)|)
  {
    var u, v := Before(a, d), Beyond(a, d + |b|);
    var text := u + b + v;
    var p := if d < 0 then -d else 0;
    assert |text| >= p + |a|;
    forall t | 0 <= t < |a| ensures text[p + t] == a[t] {
      MergedAt(a, b, d, t);
    }
    hide Agree, Before, Beyond;
    assert text[p..p + |a|] == a;
    Occurs(text, a, p);
    assert text[|u|..|u| + |b|] == b;
    Occurs(text, b, |u|);
  }

  lemma MergedAt(a: seq<byte>, b: seq<byte>, d: int, t: nat)
    requires -|b| < d < |a| && Agree(a, b, d) && t < |a|
    ensures var text := Before(a, d) + b + Beyond(a, d + |b|);
      var p := if d < 0 then -d else 0;
      p + t < |text| && text[p + t] == a[t]
  {
    var u, v := Before(a, d), Beyond(a, d + |b|);
    if t < d {
      assert u[t] == a[t];
    } else if t < d + |b| {
      assert a[t] == b[t - d];
    } else {
      assert v[t - (d + |b|)] == a[t];
    }
  }

  lemma Occurs(text: seq<byte>, a: seq<byte>, p: nat)
    requires p + |a| <= |text| && text[p..p + |a|] == a
    ensures OccursAt(text, a, p)
  {
    assert text[p..][..|a|] == text[p..p + |a|];
  }

  lemma OccurrenceIs(text: seq<byte>, a: seq<byte>, p: nat, t: nat)
    requires OccursAt(text, a, p) && t < |a|
    ensures p + |a| <= |text| && text[p + t] == a[t]
  {
    assert text[p..][t] == a[t];
  }

  /** Two texts are apart exactly when they agree at no overlapping placement. */
  lemma ApartIsFinite(a: seq<byte>, b: seq<byte>)
    ensures Apart(a, b) <==> NoOverlap(a, b)
  {
    if Apart(a, b) {
      forall d | -|b| < d < |a| ensures !Agree(a, b, d) {
        if Agree(a, b, d) {
          Merged(a, b, d);
          assert false;
        }
      }
    }
    if NoOverlap(a, b) {
      forall text, p: nat, q: nat | OccursAt(text, a, p) && OccursAt(text, b, q)
        ensures p + |a| <= q || q + |b| <= p
      {
        AgreeWhereFound(text, a, b, p, q);
      }
    }
  }

  lemma AgreeWhereFound(text: seq<byte>, a: seq<byte>, b: seq<byte>, p: nat, q: nat)
    requires OccursAt(text, a, p) && OccursAt(text, b, q)
    ensures Agree(a, b, q - p)
  {
    forall t | 0 <= t < |a| && q - p <= t < q - p + |b| ensures a[t] == b[t - (q - p)] {
      OccurrenceIs(text, a, p, t);
      OccurrenceIs(text, b, q, p + t - q);
    }
  }

  // ---- two rules ----

  /** Two occurrences of the text never overlap unless they are the same. */
  ghost predicate SelfApart(a: seq<byte>) {
    forall text, p: nat, q: nat :: OccursAt(text, a, p) && OccursAt(text, a, q) ==> p == q || p + |a| <= q || q + |a| <= p
  }

  ghost predicate SameInTurn(rules: seq<Rule>)
    requires NonEmpty(rules)
  {
    forall data :: Rewrite(rules, data) == InTurn(rules, data)
  }

  /** A rule that changes its text changes every data that holds it. */
  lemma {:induction false} LengthMoves(one: seq<Rule>, data: seq<byte>)
    requires |one| == 1 && NonEmpty(one) && |one[0].to| != |one[0].from|
    ensures |one[0].to| > |one[0].from| ==>
      |Rewrite(one, data)| >= |data| + (if LastEnd(one, data) > 0 then 1 else 0)
    ensures |one[0].to| < |one[0].from| ==>
      |Rewrite(one, data)| <= |data| - (if LastEnd(one, data) > 0 then 1 else 0)
    decreases |data|
  {
    if data != [] {
      hide Rewrite, LastEnd;
      Unroll(one, data);
      LengthMoves(one, data[StepLen(one, data)..]);
    } else {
      EmptyRewrite(one);
    }
  }

  lemma {:induction false} ContentMoves(one: seq<Rule>, data: seq<byte>)
    requires |one| == 1 && NonEmpty(one) && |one[0].to| == |one[0].from| && one[0].to != one[0].from
    requires LastEnd(one, data) > 0
    ensures Rewrite(one, data) != data
    decreases |data|
  {
    hide Rewrite, LastEnd, MatchAt;
    if data == [] {
      NoEnd(one);
      assert false;
    } else {
      Unroll(one, data);
      if MatchAt(one, data) == 0 {
        MatchedIs(one, data);
        assert Rewrite(one, data)[..|one[0].to|] == one[0].to;
      } else {
        ContentMoves(one, data[1..]);
        assert Rewrite(one, data)[1..] == Rewrite(one, data[1..]);
      }
    }
  }

  lemma NoEnd(one: seq<Rule>)
    requires NonEmpty(one)
    ensures LastEnd(one, []) == 0
  {
  }

  lemma MatchedIs(one: seq<Rule>, data: seq<byte>)
    requires |one| == 1 && MatchAt(one, data) == 0
    ensures one[0].from <= data && data[..|one[0].from|] == one[0].from
  {
  }

  lemma ReplacedDiffers(one: seq<Rule>, data: seq<byte>, at: nat)
    requires |one| == 1 && NonEmpty(one) && one[0].to != one[0].from && OccursAt(data, one[0].from, at)
    ensures Rewrite(one, data) != data
  {
    hide Rewrite, LastEnd;
    MatchMoves(one, data, 0, at);
    if |one[0].to| == |one[0].from| {
      ContentMoves(one, data);
    } else {
      LengthMoves(one, data);
    }
  }

  /** The data in which applying the first rule makes the second rule's text: the first text between the parts of the
      second that its replacement completes. */
  ghost function Trap(rules: seq<Rule>, d: int): seq<byte>
    requires |rules| == 2 && -|rules[0].to| < d < |rules[1].from|
  {
    Before(rules[1].from, d) + rules[0].from + Beyond(rules[1].from, d + |rules[0].to|)
  }

  ghost predicate Separate(rules: seq<Rule>) {
    |rules| == 2 && NonEmpty(rules) && Apart(rules[1].from, rules[0].from) && SelfApart(rules[0].from)
  }

  /** An occurrence in the left part of u + a + v is one in any text that starts with u. */
  lemma FoundLeft(b: seq<byte>, u: seq<byte>, rest: seq<byte>, text: seq<byte>, at: nat)
    requires u <= b && OccursAt(u + rest, text, at) && at + |text| <= |u|
    ensures OccursAt(b, text, at)
  {
    assert (u + rest)[at..][..|text|] == b[at..at + |text|];
    Occurs(b, text, at);
  }

  /** An occurrence in the right part is one in any text that ends with v. */
  lemma FoundRight(b: seq<byte>, front: seq<byte>, v: seq<byte>, text: seq<byte>, at: nat)
    requires |v| <= |b| && v == b[|b| - |v|..] && OccursAt(front + v, text, at) && |front| <= at
    ensures OccursAt(b, text, at - |front| + |b| - |v|)
  {
    var start := at - |front| + |b| - |v|;
    assert (front + v)[at..] == v[at - |front|..] == b[start..];
  }

  /** Around the first text put a proper start and a proper end of the second: nothing else occurs. */
  lemma HoldsOne(rules: seq<Rule>, u: seq<byte>, v: seq<byte>, k: nat, at: nat)
    requires Separate(rules) && k < 2
    requires u < rules[1].from && |v| < |rules[1].from| && v == rules[1].from[|rules[1].from| - |v|..]
    requires OccursAt(u + rules[0].from + v, rules[k].from, at)
    ensures k == 0 && at == |u|
  {
    hide Apart, SelfApart, OccursAt;
    var a, b, text := rules[0].from, rules[1].from, rules[k].from;
    var data := u + a + v;
    OccurrenceFits(data, text, at);
    if at + |text| <= |u| {
      assert data == u + (a + v);
      FoundLeft(b, u, a + v, text, at);
      InsideImpossible(rules, k, at);
    } else if |u| + |a| <= at {
      FoundRight(b, u + a, v, text, at);
      InsideImpossible(rules, k, at - |u + a| + |b| - |v|);
    } else {
      assert data[|u|..|u| + |a|] == a;
      Occurs(data, a, |u|);
      Collides(rules, k, data, at, |u|);
    }
  }

  lemma Edges(b: seq<byte>, d: int, end: int)
    requires d < |b| && 0 < end
    ensures b == [] || Before(b, d) < b
    ensures var v := Beyond(b, end); |v| <= |b| && v == b[|b| - |v|..] && (b != [] ==> |v| < |b|)
  {
  }

  lemma OccurrenceFits(data: seq<byte>, text: seq<byte>, at: nat)
    requires OccursAt(data, text, at)
    ensures at + |text| <= |data|
  {
  }

  /** An occurrence that overlaps one of the first text is that one. */
  lemma Collides(rules: seq<Rule>, k: nat, data: seq<byte>, at: nat, place: nat)
    requires Separate(rules) && k < 2 && OccursAt(data, rules[k].from, at) && OccursAt(data, rules[0].from, place)
    requires at + |rules[k].from| > place && place + |rules[0].from| > at
    ensures k == 0 && at == place
  {
  }

  /** Neither text occurs in a proper part of the second. */
  lemma InsideImpossible(rules: seq<Rule>, k: nat, at: nat)
    requires Separate(rules) && k < 2 && OccursAt(rules[1].from, rules[k].from, at)
    ensures k == 1 && at == 0
  {
    var b := rules[1].from;
    assert b[0..] == b;
    Occurs(b, b, 0);
    OccurrenceIs(b, rules[k].from, at, 0);
  }

  /** No rule matches in the first n places. */
  ghost predicate Quiet(some: seq<Rule>, data: seq<byte>, n: nat)
    requires n <= |data|
  {
    forall q: nat :: q < n ==> NoMatch(some, data[q..])
  }

  lemma CopiesQuiet(some: seq<Rule>, u: seq<byte>, rest: seq<byte>)
    requires NonEmpty(some) && Quiet(some, u + rest, |u|)
    ensures Rewrite(some, u + rest) == u + Rewrite(some, rest)
  {
    hide Rewrite, LastEnd, NoneBelow;
    CopyUpTo(some, u + rest, |u|);
    assert (u + rest)[|u|..] == rest && (u + rest)[..|u|] == u;
  }

  lemma ReplacesFirst(some: seq<Rule>, v: seq<byte>)
    requires some != [] && NonEmpty(some)
    ensures Rewrite(some, some[0].from + v) == some[0].to + Rewrite(some, v)
  {
    hide Rewrite, MatchAt;
    var a := some[0].from;
    MatchAtIs(some, a + v, 0);
    Unroll(some, a + v);
    assert (a + v)[|a|..] == v;
  }

  /** Rules whose only match in u + a + v is the first rule's, on a. */
  lemma OneMatch(some: seq<Rule>, u: seq<byte>, v: seq<byte>)
    requires some != [] && NonEmpty(some)
    requires Quiet(some, u + (some[0].from + v), |u|) && Quiet(some, v, |v|)
    ensures Rewrite(some, u + some[0].from + v) == u + some[0].to + v
  {
    hide Rewrite, Quiet;
    var a := some[0].from;
    assert u + a + v == u + (a + v) && v + [] == v;
    CopiesQuiet(some, u, a + v);
    ReplacesFirst(some, v);
    CopiesQuiet(some, v, []);
    EmptyRewrite(some);
    Associate(u, some[0].to, v);
  }

  /** Both rules, and the first alone, rewrite the trap to the text the first replacement completes. */
  lemma TrapRewrites(rules: seq<Rule>, some: seq<Rule>, d: int)
    requires Separate(rules) && -|rules[0].to| < d < |rules[1].from|
    requires some == rules || some == rules[..1]
    ensures NonEmpty(some)
    ensures Rewrite(some, Trap(rules, d))
         == Before(rules[1].from, d) + rules[0].to + Beyond(rules[1].from, d + |rules[0].to|)
  {
    hide Rewrite, Apart, SelfApart;
    var u, v := Before(rules[1].from, d), Beyond(rules[1].from, d + |rules[0].to|);
    Edges(rules[1].from, d, d + |rules[0].to|);
    hide Before, Beyond;
    assert u + rules[0].from + v == u + (rules[0].from + v);
    forall q: nat | q < |u| ensures NoMatch(some, (u + (rules[0].from + v))[q..]) {
      QuietAt(rules, some, u, v, q);
    }
    forall q: nat | q < |v| ensures NoMatch(some, v[q..]) {
      QuietAt(rules, some, u, v, |u| + |rules[0].from| + q);
      assert (u + rules[0].from + v)[|u| + |rules[0].from| + q..] == v[q..];
    }
    OneMatch(some, u, v);
  }

  lemma QuietAt(rules: seq<Rule>, some: seq<Rule>, u: seq<byte>, v: seq<byte>, q: nat)
    requires Separate(rules) && (some == rules || some == rules[..1])
    requires u < rules[1].from && |v| < |rules[1].from| && v == rules[1].from[|rules[1].from| - |v|..]
    requires q != |u| && q <= |u + rules[0].from + v|
    ensures NoMatch(some, (u + rules[0].from + v)[q..])
  {
    hide Apart, SelfApart;
    var data := u + rules[0].from + v;
    forall k | 0 <= k < |some| ensures !(some[k].from <= data[q..]) {
      if some[k].from <= data[q..] {
        assert OccursAt(data, rules[k].from, q);
        HoldsOne(rules, u, v, k, q);
      }
    }
  }

  lemma InTurnOfTwo(rules: seq<Rule>, data: seq<byte>)
    requires |rules| == 2 && NonEmpty(rules)
    ensures NonEmpty(rules[..1]) && NonEmpty(rules[1..])
    ensures InTurn(rules, data) == Rewrite(rules[1..], Rewrite(rules[..1], data))
  {
    hide Rewrite;
    var others := rules[1..];
    assert others[..1] == others && others[1..] == [];
    assert InTurn(others, Rewrite(rules[..1], data)) == InTurn([], Rewrite(others[..1], Rewrite(rules[..1], data)));
  }

  /** The trap catches: one pass leaves the second text that the first replacement made, in turn it is replaced. */
  lemma TrapCatches(rules: seq<Rule>, d: int)
    requires Separate(rules) && rules[1].to != rules[1].from
    requires -|rules[0].to| < d < |rules[1].from| && Agree(rules[1].from, rules[0].to, d)
    ensures Rewrite(rules, Trap(rules, d)) != InTurn(rules, Trap(rules, d))
  {
    hide Rewrite, InTurn, Apart, SelfApart, Agree;
    var data := Trap(rules, d);
    TrapRewrites(rules, rules, d);
    TrapRewrites(rules, rules[..1], d);
    InTurnOfTwo(rules, data);
    Merged(rules[1].from, rules[0].to, d);
    ReplacedDiffers(rules[1..], Rewrite(rules[..1], data), if d < 0 then -d else 0);
  }

  /** A rule that replaces its text by itself changes nothing. */
  lemma {:induction false} IdentityRule(one: seq<Rule>, data: seq<byte>)
    requires |one| == 1 && NonEmpty(one) && one[0].to == one[0].from
    ensures Rewrite(one, data) == data
    decreases |data|
  {
    hide Rewrite, LastEnd, MatchAt;
    if data == [] {
      EmptyRewrite(one);
    } else {
      Unroll(one, data);
      IdentityStep(one, data);
      var n := StepLen(one, data);
      IdentityRule(one, data[n..]);
      assert data[..n] + data[n..] == data;
    }
  }

  lemma IdentityStep(one: seq<Rule>, data: seq<byte>)
    requires |one| == 1 && NonEmpty(one) && one[0].to == one[0].from && data != []
    ensures StepOut(one, data) == data[..StepLen(one, data)]
  {
  }

  /** Nor does it change what the other rule does. */
  lemma {:induction false} IdentityIgnored(rules: seq<Rule>, data: seq<byte>)
    requires Separate(rules) && rules[1].to == rules[1].from
    ensures NonEmpty(rules[..1]) && Rewrite(rules, data) == Rewrite(rules[..1], data)
    decreases |data|
  {
    hide Rewrite, MatchAt, Apart, SelfApart;
    var one := rules[..1];
    if data == [] {
      EmptyRewrite(rules);
      EmptyRewrite(one);
    } else {
      MatchHead(rules, data);
      Unroll(rules, data);
      IdentityIgnored(rules, data[StepLen(rules, data)..]);
      if MatchAt(rules, data) == 1 {
        SecondMatches(rules, data);
      } else {
        Unroll(one, data);
      }
    }
  }

  /** The first rule copies the second text. */
  lemma SecondMatches(rules: seq<Rule>, data: seq<byte>)
    requires Separate(rules) && MatchAt(rules, data) == 1
    ensures NonEmpty(rules[..1]) && rules[1].from <= data
    ensures Rewrite(rules[..1], data) == rules[1].from + Rewrite(rules[..1], data[|rules[1].from|..])
  {
    hide Rewrite, Apart, SelfApart;
    var b := rules[1].from;
    assert b <= data;
    hide MatchAt;
    var rest := data[|b|..];
    assert data == b[0..] + rest && b[0..] == b;
    ApartSymmetric(b, rules[0].from);
    PassThrough(rules[..1], b, rest, 0);
  }

  /** For two rules whose texts never overlap each other, the first never itself, one pass equals the rules in turn on
      every body exactly when the first replacement overlaps the second text at no placement, or the second rule does
      nothing. */
  lemma TwoRulesInTurnIff(rules: seq<Rule>)
    requires Separate(rules)
    ensures SameInTurn(rules) <==> NoOverlap(rules[1].from, rules[0].to) || rules[1].to == rules[1].from
  {
    hide Rewrite, InTurn, Agree, SelfApart;
    if rules[1].to == rules[1].from {
      forall data ensures Rewrite(rules, data) == InTurn(rules, data) {
        InTurnOfTwo(rules, data);
        IdentityIgnored(rules, data);
        IdentityRule(rules[1..], Rewrite(rules[..1], data));
      }
    } else if NoOverlap(rules[1].from, rules[0].to) {
      ApartIsFinite(rules[1].from, rules[0].to);
      assert Independent(rules);
      forall data ensures Rewrite(rules, data) == InTurn(rules, data) {
        OnePassIsInTurn(rules, data);
      }
    } else {
      var d :| -|rules[0].to| < d < |rules[1].from| && Agree(rules[1].from, rules[0].to, d);
      TrapCatches(rules, d);
    }
  }

  // ---- the registries' rules ----

  const SECURE := "https://files.pythonhosted.org/"
  const PLAIN := "http://files.pythonhosted.org/"

  /** "ht" starts nowhere but at the start, not even cut off by the end. */
  predicate StartsOnce(s: string) {
    && |s| > 0 && s[|s| - 1] != 'h'
    && forall d :: 0 < d < |s| - 1 ==> s[d] == 'h' ==> s[d + 1] != 't'
  }

  lemma OriginsStartOnce()
    ensures |SECURE| == 31 && |PLAIN| == 30 && SECURE[..4] == PLAIN[..4] == "http" && SECURE[4] == 's' && PLAIN[4] == ':'
    ensures StartsOnce(SECURE) && StartsOnce(PLAIN)
  {
    var secure, plain := SECURE, PLAIN;
    assert forall d {:trigger secure[d]} :: 0 < d < 31 ==> secure[d] == 'h' ==> d == 17 || d == 20;
    assert forall d {:trigger plain[d]} :: 0 < d < 30 ==> plain[d] == 'h' ==> d == 16 || d == 19;
  }

  lemma CharAt(text: seq<byte>, x: string, p: nat, d: nat)
    requires IsAscii(x) && OccursAt(text, Ascii(x), p) && d < |x|
    ensures p + |x| <= |text| && text[p + d] == x[d] as byte
  {
    OccurrenceIs(text, Ascii(x), p, d);
  }

  /** Origins meet in a text only where they start together. */
  lemma OriginsMeet(text: seq<byte>, x: string, y: string, p: nat, q: nat)
    requires StartsOnce(x) && |x| >= 2 && |y| >= 2 && y[0] == 'h' && y[1] == 't' && IsAscii(x) && IsAscii(y)
    requires OccursAt(text, Ascii(x), p) && OccursAt(text, Ascii(y), q) && p <= q < p + |x|
    ensures p == q
  {
    if p < q {
      var d := q - p;
      CharAt(text, x, p, d);
      CharAt(text, y, q, 0);
      CharAt(text, y, q, 1);
      assert x[d] == 'h' && d + 1 < |x|;
      CharAt(text, x, p, d + 1);
      assert false;
    }
  }

  ghost predicate IsAscii(s: string) {
    forall i :: 0 <= i < |s| ==> s[i] < 128 as char
  }

  lemma OriginsAreAscii()
    ensures IsAscii(SECURE) && IsAscii(PLAIN)
  {
  }

  lemma PypiSeparate(prefix: seq<byte>)
    ensures Separate(PypiRules(prefix))
  {
    OriginsStartOnce();
    OriginsAreAscii();
    var a, b := Ascii(SECURE), Ascii(PLAIN);
    forall text, p: nat, q: nat | OccursAt(text, b, p) && OccursAt(text, a, q) ensures p + |b| <= q || q + |a| <= p {
      OriginsApart(text, p, q);
    }
    forall text, p: nat, q: nat | OccursAt(text, a, p) && OccursAt(text, a, q)
      ensures p == q || p + |a| <= q || q + |a| <= p
    {
      if p <= q < p + |a| {
        OriginsMeet(text, SECURE, SECURE, p, q);
      } else if q <= p < q + |a| {
        OriginsMeet(text, SECURE, SECURE, q, p);
      }
    }
  }

  lemma OriginsApart(text: seq<byte>, p: nat, q: nat)
    requires OccursAt(text, Ascii(PLAIN), p) && OccursAt(text, Ascii(SECURE), q)
    ensures p + 30 <= q || q + 31 <= p
  {
    OriginsStartOnce();
    OriginsAreAscii();
    hide OccursAt;
    if p <= q < p + 30 {
      OriginsMeet(text, PLAIN, SECURE, p, q);
      OccurrenceIs(text, Ascii(PLAIN), p, 4);
      OccurrenceIs(text, Ascii(SECURE), q, 4);
      assert false;
    } else if q <= p < q + 31 {
      OriginsMeet(text, SECURE, PLAIN, q, p);
    }
  }

  ghost function Files(prefix: seq<byte>): seq<byte> {
    prefix + Ascii("files/")
  }

  /** One pass with the PyPI rules equals the rules in turn, on every body, exactly when what they point downloads at
      overlaps the plain origin at no placement. */
  lemma PypiInTurnIff(prefix: seq<byte>)
    ensures NonEmpty(PypiRules(prefix))
    ensures SameInTurn(PypiRules(prefix)) <==> NoOverlap(Ascii(PLAIN), Files(prefix))
  {
    PypiSeparate(prefix);
    var rules := PypiRules(prefix);
    assert rules[1].to != rules[1].from by {
      FilesIsNoOrigin(prefix);
    }
    hide SameInTurn, NoOverlap, Separate;
    TwoRulesInTurnIff(rules);
  }

  lemma FilesIsNoOrigin(prefix: seq<byte>)
    ensures Files(prefix) != Ascii(PLAIN)
  {
    var files := Files(prefix);
    assert files[|files| - 2] == Ascii("files/")[4] == 's' as byte;
    assert Ascii(PLAIN)[28] == 'g' as byte;
  }

  /** What starts with "ht" does not start inside the plain origin. */
  lemma NotInside(files: seq<byte>, d: int)
    requires |files| >= 2 && files[0] == 'h' as byte && files[1] == 't' as byte && 0 < d < 30
    ensures !Agree(Ascii(PLAIN), files, d)
  {
    OriginsStartOnce();
    OriginsAreAscii();
    var b := Ascii(PLAIN);
    if d == 29 {
      assert PLAIN[29] != 'h';
      assert b[29] != files[29 - d];
    } else {
      assert PLAIN[d] != 'h' || PLAIN[d + 1] != 't';
      assert b[d] != files[d - d] || b[d + 1] != files[d + 1 - d];
    }
  }

  /** The plain origin does not start so late in what ends in "files/" that it sticks out. */
  lemma NotStickingOut(prefix: seq<byte>, d: int)
    requires -|Files(prefix)| < d <= 0 && 30 - d > |Files(prefix)|
    ensures !Agree(Ascii(PLAIN), Files(prefix), d)
  {
    OriginsStartOnce();
    OriginsAreAscii();
    var b, files := Ascii(PLAIN), Files(prefix);
    var end := |files| + d;
    FilesEnd(prefix);
    if b[end - 1] == files[end - 1 - d] {
      SlashInPlain(end - 1);
      assert b[end - 2] != files[end - 2 - d];
    }
  }

  lemma FilesEnd(prefix: seq<byte>)
    ensures var files := Files(prefix); files[|files| - 1] == '/' as byte && files[|files| - 2] == 's' as byte
  {
    var files := Files(prefix);
    assert files[|files| - 1] == Ascii("files/")[5] && files[|files| - 2] == Ascii("files/")[4];
  }

  lemma SlashInPlain(i: nat)
    requires i < 30 && |PLAIN| == 30 && Ascii(PLAIN)[i] == '/' as byte && IsAscii(PLAIN)
    ensures i >= 1 && Ascii(PLAIN)[i - 1] != 's' as byte
  {
    var plain := PLAIN;
    assert plain[i] == '/';
    assert i == 5 || i == 6 || i == 29;
  }

  /** For an absolute prefix, one that starts like "http", the condition is that the plain origin does not occur in what
      the rules point downloads at. */
  lemma AbsolutePrefixInTurnIff(prefix: seq<byte>)
    requires |prefix| >= 2 && prefix[0] == 'h' as byte && prefix[1] == 't' as byte
    ensures NonEmpty(PypiRules(prefix))
    ensures SameInTurn(PypiRules(prefix)) <==> forall at: nat :: !OccursAt(Files(prefix), Ascii(PLAIN), at)
  {
    PypiInTurnIff(prefix);
    hide SameInTurn, Agree;
    OriginsStartOnce();
    var b, files := Ascii(PLAIN), Files(prefix);
    if NoOverlap(b, files) {
      forall at: nat ensures !OccursAt(files, b, at) {
        if OccursAt(files, b, at) {
          OccurrenceFits(files, b, at);
          Occurs(files, files, 0);
          AgreeWhereFound(files, b, files, at, 0);
          assert false;
        }
      }
    } else {
      var d :| -|files| < d < |b| && Agree(b, files, d);
      if d > 0 {
        NotInside(files, d);
      } else if 30 - d > |files| {
        NotStickingOut(prefix, d);
      }
      Merged(b, files, d);
      assert Before(b, d) + files + Beyond(b, d + |files|) == files;
    }
  }

  /** A base path without a host breaks it: the slash it starts with completes a plain origin that the body left open. */
  lemma RootPrefixBreaks()
    ensures var rules := PypiRules(Ascii("/pypi/"));
      var data := Ascii("http://files.pythonhosted.org") + Ascii("https://files.pythonhosted.org/");
      NonEmpty(rules) && Rewrite(rules, data) != InTurn(rules, data)
  {
    hide Rewrite, InTurn;
    var prefix := Ascii("/pypi/");
    var rules := PypiRules(prefix);
    PypiSeparate(prefix);
    FilesIsNoOrigin(prefix);
    OriginsStartOnce();
    var a, b := Ascii(SECURE), Ascii(PLAIN);
    assert Agree(b, Files(prefix), 29) by {
      assert b[29] == '/' as byte == Files(prefix)[0];
    }
    TrapCatches(rules, 29);
    OpenOrigin();
    assert Trap(rules, 29) == Ascii("http://files.pythonhosted.org") + Ascii("https://files.pythonhosted.org/");
  }

  lemma OpenOrigin()
    ensures |PLAIN| == 30 && Ascii(PLAIN)[..29] == Ascii("http://files.pythonhosted.org")
  {
    var open := "http://files.pythonhosted.org";
    assert PLAIN[..29] == open;
  }

  /** The single npm rule is trivially applied in turn. */
  lemma NpmInTurn(prefix: seq<byte>)
    ensures NonEmpty(NpmRules(prefix)) && SameInTurn(NpmRules(prefix))
  {
    hide Rewrite;
    var rules := NpmRules(prefix);
    forall data ensures Rewrite(rules, data) == InTurn(rules, data) {
      assert rules[..1] == rules && rules[1..] == [];
    }
  }
}
