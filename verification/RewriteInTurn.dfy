/** When one pass over the body equals applying the rules one after the other. */
module RewriteInTurn {
  import opened Streams
  import opened RewriteSpec

  ghost function InTurn(rules: seq<Rule>, data: seq<byte>): seq<byte>
    requires NonEmpty(rules)
    decreases |rules|
  {
    if rules == [] then data else InTurn(rules[1..], Rewrite(rules[..1], data))
  }

  /** Whatever text holds both, their occurrences share no byte. */
  ghost predicate Apart(a: seq<byte>, b: seq<byte>) {
    forall text, p: nat, q: nat :: OccursAt(text, a, p) && OccursAt(text, b, q) ==> p + |a| <= q || q + |b| <= p
  }

  /** No text overlaps another rule's, and no replacement overlaps a later rule's text. */
  ghost predicate Independent(rules: seq<Rule>) {
    && (forall i, k :: 0 <= i < k < |rules| ==> Apart(rules[k].from, rules[i].from))
    && (forall i, k :: 0 <= i < k < |rules| ==> Apart(rules[k].from, rules[i].to))
  }

  lemma ApartSymmetric(a: seq<byte>, b: seq<byte>)
    requires Apart(a, b)
    ensures Apart(b, a)
  {
  }

  lemma MatchHead(rules: seq<Rule>, data: seq<byte>)
    requires rules != []
    ensures MatchAt(rules[..1], data) == if rules[0].from <= data then 0 else 1
    ensures MatchAt(rules, data) == if rules[0].from <= data then 0 else 1 + MatchAt(rules[1..], data)
  {
    var m := MatchAt(rules[1..], data);
    if !(rules[0].from <= data) {
      assert NoneBelow(rules[1..], m, data);
      forall k | 0 <= k < m + 1 ensures !(rules[k].from <= data) {
        assert k > 0 ==> rules[k] == rules[1..][k - 1];
      }
      assert m < |rules[1..]| ==> FirstMatch(rules, data, m + 1);
    }
  }

  /** A text apart from every rule's passes through unchanged. */
  lemma {:induction false} PassThrough(rules: seq<Rule>, text: seq<byte>, rest: seq<byte>, at: nat)
    requires NonEmpty(rules) && at <= |text|
    requires forall k :: 0 <= k < |rules| ==> Apart(rules[k].from, text)
    ensures Rewrite(rules, text[at..] + rest) == text[at..] + Rewrite(rules, rest)
    decreases |text| - at
  {
    hide Rewrite, MatchAt, Apart;
    if at == |text| {
      assert text[at..] == [] && [] + rest == rest;
    } else {
      var data := text[at..] + rest;
      forall k | 0 <= k < |rules| ensures !(rules[k].from <= data) {
        NotInside(rules[k].from, text, at, rest);
      }
      Unroll(rules, data);
      PassThrough(rules, text, rest, at + 1);
      assert data[1..] == text[at + 1..] + rest;
      assert [data[0]] + text[at + 1..] == text[at..];
      Associate([data[0]], text[at + 1..], Rewrite(rules, rest));
    }
  }

  lemma NotInside(a: seq<byte>, b: seq<byte>, at: nat, rest: seq<byte>)
    requires Apart(a, b) && a != [] && at < |b|
    ensures !(a <= b[at..] + rest)
  {
    var text := b + rest;
    assert text[at..] == b[at..] + rest;
    assert OccursAt(text, b, 0);
    assert a <= b[at..] + rest ==> OccursAt(text, a, at);
  }

  /** The output agrees with the data up to its first replacement. */
  lemma {:induction false} AgreesUpTo(one: seq<Rule>, data: seq<byte>, n: nat) returns (p: nat)
    requires |one| == 1 && NonEmpty(one) && n <= |Rewrite(one, data)|
    ensures p <= n && p <= |data| && Rewrite(one, data)[..p] == data[..p]
    ensures p < n ==> OccursAt(Rewrite(one, data), one[0].to, p)
    decreases |data|
  {
    hide Rewrite;
    p := 0;
    if data == [] {
      EmptyRewrite(one);
    } else {
      Unroll(one, data);
      var out := Rewrite(one, data);
      if MatchAt(one, data) == 0 {
        assert out[0..] == out;
      } else if n > 0 {
        p := AgreesUpTo(one, data[1..], n - 1);
        p := p + 1;
        assert out == [data[0]] + Rewrite(one, data[1..]);
        assert out[p..] == Rewrite(one, data[1..])[p - 1..];
        assert out[..p] == [data[0]] + Rewrite(one, data[1..])[..p - 1] == data[..p];
      }
    }
  }

  /** Applying the first rule creates no occurrence of a later rule's text. */
  lemma NothingNew(rules: seq<Rule>, data: seq<byte>, k: nat)
    requires NonEmpty(rules) && Independent(rules) && 0 < k < |rules|
    requires data != [] && !(rules[0].from <= data) && rules[k].from <= Rewrite(rules[..1], data)
    ensures rules[k].from <= data
  {
    hide Rewrite, Independent, MatchAt;
    var one, text := rules[..1], rules[k].from;
    Unroll(one, data);
    MatchHead(rules, data);
    var out, tail := Rewrite(one, data), Rewrite(one, data[1..]);
    assert out == [data[0]] + tail;
    var p := AgreesUpTo(one, data[1..], |text| - 1);
    assert out[..p + 1] == [data[0]] + tail[..p];
    assert data[..p + 1] == [data[0]] + data[1..][..p];
    if p < |text| - 1 {
      assert out[p + 1..] == tail[p..] && out[0..] == out;
      assert OccursAt(out, rules[0].to, p + 1) && OccursAt(out, text, 0);
      ApartAt(rules, 0, k, out, 0, p + 1);
    } else {
      assert text == out[..p + 1];
    }
  }

  lemma ApartAt(rules: seq<Rule>, i: nat, k: nat, text: seq<byte>, p: nat, q: nat)
    requires Independent(rules) && i < k < |rules|
    requires OccursAt(text, rules[k].from, p) && OccursAt(text, rules[i].to, q)
    ensures p + |rules[k].from| <= q || q + |rules[i].to| <= p
  {
    assert Apart(rules[k].from, rules[i].to);
  }

  /** One pass with all rules is one pass with the first, then one pass with the others. */
  lemma {:induction false} FirstThenOthers(rules: seq<Rule>, data: seq<byte>)
    requires NonEmpty(rules) && Independent(rules) && rules != []
    ensures Rewrite(rules, data) == Rewrite(rules[1..], Rewrite(rules[..1], data))
    decreases |data|
  {
    hide Rewrite, MatchAt, Independent;
    var one, others := rules[..1], rules[1..];
    if data == [] {
      EmptyRewrite(rules);
      EmptyRewrite(one);
      EmptyRewrite(others);
    } else {
      FirstThenOthers(rules, data[StepLen(rules, data)..]);
      Unroll(rules, data);
      SecondPassStep(rules, data);
    }
  }

  /** After the first rule's pass, the other rules' pass takes the same first step. */
  lemma SecondPassStep(rules: seq<Rule>, data: seq<byte>)
    requires NonEmpty(rules) && Independent(rules) && rules != [] && data != []
    ensures Rewrite(rules[1..], Rewrite(rules[..1], data))
         == StepOut(rules, data) + Rewrite(rules[1..], Rewrite(rules[..1], data[StepLen(rules, data)..]))
  {
    hide Rewrite, MatchAt, Independent;
    var m := MatchAt(rules, data);
    MatchHead(rules, data);
    if m == 0 {
      FirstRuleStep(rules, data);
    } else if m < |rules| {
      OtherRuleStep(rules, data, m);
    } else {
      Unroll(rules[..1], data);
      CopiedStep(rules, data);
    }
  }

  lemma FirstRuleStep(rules: seq<Rule>, data: seq<byte>)
    requires NonEmpty(rules) && Independent(rules) && rules != [] && data != [] && rules[0].from <= data
    ensures Rewrite(rules[1..], Rewrite(rules[..1], data))
         == rules[0].to + Rewrite(rules[1..], Rewrite(rules[..1], data[|rules[0].from|..]))
  {
    hide Rewrite, MatchAt, Apart;
    MatchHead(rules, data);
    Unroll(rules[..1], data);
    PassThrough(rules[1..], rules[0].to, Rewrite(rules[..1], data[|rules[0].from|..]), 0);
    assert rules[0].to[0..] == rules[0].to;
  }

  lemma OtherRuleStep(rules: seq<Rule>, data: seq<byte>, m: nat)
    requires NonEmpty(rules) && Independent(rules) && data != [] && m > 0 && FirstMatch(rules, data, m)
    ensures Rewrite(rules[1..], Rewrite(rules[..1], data))
         == rules[m].to + Rewrite(rules[1..], Rewrite(rules[..1], data[|rules[m].from|..]))
  {
    hide Rewrite, MatchAt, Apart;
    var one, others, text := rules[..1], rules[1..], rules[m].from;
    var rest := data[|text|..];
    var tail := Rewrite(one, rest);
    assert data == text[0..] + rest && text[0..] == text;
    ApartSymmetric(text, rules[0].from);
    PassThrough(one, text, rest, 0);
    OnlyOne(rules, m, tail);
    Unroll(others, text + tail);
    assert (text + tail)[|text|..] == tail;
  }

  lemma CopiedStep(rules: seq<Rule>, data: seq<byte>)
    requires NonEmpty(rules) && Independent(rules) && rules != [] && data != []
    requires NoMatch(rules, data) && Rewrite(rules[..1], data) == [data[0]] + Rewrite(rules[..1], data[1..])
    ensures Rewrite(rules[1..], Rewrite(rules[..1], data)) == [data[0]] + Rewrite(rules[1..], Rewrite(rules[..1], data[1..]))
  {
    hide Rewrite, MatchAt, Independent;
    var out, others := Rewrite(rules[..1], data), rules[1..];
    if exists m: nat :: m < |others| && others[m].from <= out {
      var m: nat :| m < |others| && others[m].from <= out;
      NothingNew(rules, data, m + 1);
    }
    assert NoMatch(others, out);
    Unroll(others, out);
    assert out[1..] == Rewrite(rules[..1], data[1..]);
  }

  lemma OnlyOne(rules: seq<Rule>, m: nat, tail: seq<byte>)
    requires NonEmpty(rules) && Independent(rules) && 0 < m < |rules|
    ensures MatchAt(rules[1..], rules[m].from + tail) == m - 1
  {
    var others, data := rules[1..], rules[m].from + tail;
    forall k | 0 <= k < m - 1 ensures !(others[k].from <= data) {
      assert Apart(rules[m].from, rules[k + 1].from);
      assert data[0..] == data;
      assert OccursAt(data, rules[m].from, 0);
      assert others[k].from <= data ==> OccursAt(data, rules[k + 1].from, 0);
    }
    MatchAtIs(others, data, m - 1);
  }

  /** Independent rules: one pass is the same as the rules in turn. */
  lemma {:induction false} OnePassIsInTurn(rules: seq<Rule>, data: seq<byte>)
    requires NonEmpty(rules) && Independent(rules)
    ensures Rewrite(rules, data) == InTurn(rules, data)
    decreases |rules|
  {
    if rules == [] {
      NoRules(data);
    } else {
      FirstThenOthers(rules, data);
      OnePassIsInTurn(rules[1..], Rewrite(rules[..1], data));
    }
  }

  lemma {:induction false} NoRules(data: seq<byte>)
    ensures NonEmpty([]) && Rewrite([], data) == data
    decreases |data|
  {
    if data != [] {
      NoRules(data[1..]);
    }
  }

  /** Texts that never overlap one another can be streamed. */
  lemma ApartIsSplittable(rules: seq<Rule>)
    requires NonEmpty(rules)
    requires forall i, k :: 0 <= i < k < |rules| ==> Apart(rules[k].from, rules[i].from)
    ensures Splittable(rules)
  {
    forall j, i, at: nat | 0 <= j < |rules| && 0 <= i < |rules| && Unshadowed(rules, j)
      && OccursAt(rules[j].from, rules[i].from, at)
      ensures at + |rules[i].from| == |rules[j].from|
    {
      var text := rules[j].from;
      assert OccursAt(text, text, 0) by { assert text[0..] == text; }
    }
  }

  // ---- the registries' own rules ----

  ghost function Ascii(s: string): seq<byte> {
    seq(|s|, i requires 0 <= i < |s| => if s[i] < 128 as char then s[i] as byte else 0)
  }

  ghost function NpmRules(prefix: seq<byte>): seq<Rule> {
    [Rule(Ascii("https://registry.npmjs.org/"), prefix)]
  }

  ghost function PypiRules(prefix: seq<byte>): seq<Rule> {
    [Rule(Ascii("https://files.pythonhosted.org/"), prefix + Ascii("files/")),
     Rule(Ascii("http://files.pythonhosted.org/"), prefix + Ascii("files/"))]
  }

  lemma RegistryRulesSplit(prefix: seq<byte>)
    ensures NonEmpty(NpmRules(prefix)) && Splittable(NpmRules(prefix))
    ensures NonEmpty(PypiRules(prefix)) && Splittable(PypiRules(prefix))
  {
    var rules := PypiRules(prefix);
    var secure, plain := rules[0].from, rules[1].from;
    assert |secure| == 31 && |plain| == 30;
    assert secure[4] == 's' as byte && plain[4] == ':' as byte;
    assert secure[0..] == secure;
    assert !OccursAt(secure, plain, 0);
  }
}
