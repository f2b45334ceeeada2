/** Finding the top-level "time" member of an npm packument token by token, without keeping the rest of it. */
module JsonSkip {
  import opened Options

  /** A JSON value, as sections 3 to 7 of RFC 8259 describe them; members are in document order and may repeat a key. */
  datatype Value = Object(members: Members) | Array(elements: Elements) | Text(text: string) | Null | Scalar
  datatype Members = NoMembers | Member(key: string, value: Value, others: Members)
  datatype Elements = NoElements | Element(value: Value, others: Elements)

  /** What the decoder reports; a key and a string value are the same kind of token. */
  datatype Token = BeginObject | EndObject | BeginArray | EndArray | String(text: string) | NullToken | ScalarToken

  ghost function Tokens(v: Value): seq<Token> {
    match v
    case Object(members) => [BeginObject] + MemberTokens(members) + [EndObject]
    case Array(elements) => [BeginArray] + ElementTokens(elements) + [EndArray]
    case Text(text) => [String(text)]
    case Null => [NullToken]
    case Scalar => [ScalarToken]
  }

  ghost function MemberTokens(m: Members): seq<Token> {
    match m
    case NoMembers => []
    case Member(key, value, others) => [String(key)] + Tokens(value) + MemberTokens(others)
  }

  ghost function ElementTokens(e: Elements): seq<Token> {
    match e
    case NoElements => []
    case Element(value, others) => Tokens(value) + ElementTokens(others)
  }

  function Nesting(t: Token): int {
    match t
    case BeginObject | BeginArray => 1
    case EndObject | EndArray => -1
    case _ => 0
  }

  /** What is left once the depth is back at zero, if it ever is. */
  ghost function Skipped(tokens: seq<Token>, depth: int): Option<seq<Token>> {
    if tokens == [] then None
    else if depth + Nesting(tokens[0]) == 0 then Some(tokens[1..])
    else Skipped(tokens[1..], depth + Nesting(tokens[0]))
  }

  /** The times a value decodes to: null leaves the map empty, a null time is the empty string, the last of several
      equal keys wins, and anything else does not decode. */
  function TimesOfValue(tokens: seq<Token>): Option<map<string, string>> {
    if tokens == [NullToken] then Some(map[])
    else if |tokens| >= 2 && tokens[0] == BeginObject then TimesOfMembers(tokens[1..], map[])
    else None
  }

  function TimesOfMembers(tokens: seq<Token>, times: map<string, string>): Option<map<string, string>> {
    if tokens == [EndObject] then Some(times)
    else if |tokens| >= 3 && tokens[0].String? && tokens[1].String? then
      TimesOfMembers(tokens[2..], times[tokens[0].text := tokens[1].text])
    else if |tokens| >= 3 && tokens[0].String? && tokens[1].NullToken? then
      TimesOfMembers(tokens[2..], times[tokens[0].text := ""])
    else None
  }

  /** A streaming decoder: the tokens still to come, after which the body ends or is broken. */
  class Decoder {
    var rest: seq<Token>
    const broken: bool

    constructor (tokens: seq<Token>, broken: bool)
      ensures rest == tokens && this.broken == broken
    {
      rest, this.broken := tokens, broken;
    }

    method Next() returns (token: Option<Token>)
      modifies this`rest
      ensures token.None? <==> old(rest) == []
      ensures token.None? ==> rest == []
      ensures token.Some? ==> old(rest) == [token.value] + rest
    {
      if rest == [] {
        return None;
      }
      token := Some(rest[0]);
      rest := rest[1..];
    }

    predicate More()
      reads this
    {
      if rest == [] then broken else rest[0] != EndObject && rest[0] != EndArray
    }

    /** Reads tokens until the depth is back at zero. */
    method SkipValue() returns (ok: bool)
      modifies this`rest
      ensures ok == Skipped(old(rest), 0).Some?
      ensures rest == if ok then Skipped(old(rest), 0).value else []
    {
      var depth := 0;
      while true
        invariant Skipped(rest, depth) == Skipped(old(rest), 0)
        decreases |rest|
      {
        var token := Next();
        if token.None? {
          return false;
        }
        depth := depth + Nesting(token.value);
        if depth == 0 {
          return true;
        }
      }
    }

    /** Reads one whole value and decodes it as times. */
    method DecodeTimes() returns (times: Option<map<string, string>>)
      modifies this`rest
      ensures times == Decoded(old(rest))
    {
      var before := rest;
      var whole := SkipValue();
      if !whole {
        return None;
      }
      SkippedIsSuffix(before, 0);
      times := TimesOfValue(before[..|before| - |rest|]);
    }

    /** The times of the first top-level "time" member. */
    method NpmTimes() returns (times: Option<map<string, string>>)
      modifies this`rest
      ensures times == TimesIn(old(rest))
    {
      var token := Next();
      if token != Some(BeginObject) {
        return None;
      }
      while More()
        invariant TimesAmong(rest) == TimesIn(old(rest))
        decreases |rest|
      {
        ghost var members := rest;
        token := Next();
        if token.None? {
          return None;
        }
        if token == Some(String("time")) {
          times := DecodeTimes();
          return times;
        }
        SkippedIsSuffix(rest, 0);
        var skipped := SkipValue();
        if !skipped {
          return None;
        }
      }
      return None;
    }
  }

  ghost function Decoded(tokens: seq<Token>): Option<map<string, string>> {
    var rest := Skipped(tokens, 0);
    if rest.None? then None
    else SkippedIsSuffix(tokens, 0); TimesOfValue(tokens[..|tokens| - |rest.value|])
  }

  ghost function TimesIn(tokens: seq<Token>): Option<map<string, string>> {
    if tokens != [] && tokens[0] == BeginObject then TimesAmong(tokens[1..]) else None
  }

  /** The times found in a stream of members. */
  ghost function TimesAmong(tokens: seq<Token>): Option<map<string, string>>
    decreases |tokens|
  {
    if tokens == [] || tokens[0] == EndObject || tokens[0] == EndArray then None
    else if tokens[0] == String("time") then Decoded(tokens[1..])
    else
      SkippedIsSuffix(tokens[1..], 0);
      var rest := Skipped(tokens[1..], 0);
      if rest.None? then None else TimesAmong(rest.value)
  }

  lemma {:induction false} SkippedIsSuffix(tokens: seq<Token>, depth: int)
    ensures var rest := Skipped(tokens, depth);
      rest.Some? ==> |rest.value| < |tokens| && rest.value == tokens[|tokens| - |rest.value|..]
  {
    if tokens != [] && depth + Nesting(tokens[0]) != 0 {
      SkippedIsSuffix(tokens[1..], depth + Nesting(tokens[0]));
    }
  }

  // ---- a value is skipped exactly ----

  lemma SkipOne(t: Token, rest: seq<Token>, depth: int)
    ensures Skipped([t] + rest, depth)
         == if depth + Nesting(t) == 0 then Some(rest) else Skipped(rest, depth + Nesting(t))
  {
    assert ([t] + rest)[1..] == rest;
  }

  /** Inside another value, one value leaves the depth as it was; at the top, it ends the skip. */
  lemma {:induction false} SkipFrom(v: Value, rest: seq<Token>, depth: int)
    requires depth >= 0
    ensures Skipped(Tokens(v) + rest, depth) == if depth == 0 then Some(rest) else Skipped(rest, depth)
    decreases v
  {
    hide Skipped;
    match v
    case Object(members) =>
      assert Tokens(v) + rest == [BeginObject] + (MemberTokens(members) + ([EndObject] + rest));
      hide Tokens, MemberTokens;
      SkipOne(BeginObject, MemberTokens(members) + ([EndObject] + rest), depth);
      SkipMembers(members, [EndObject] + rest, depth + 1);
      SkipOne(EndObject, rest, depth + 1);
    case Array(elements) =>
      assert Tokens(v) + rest == [BeginArray] + (ElementTokens(elements) + ([EndArray] + rest));
      hide Tokens, ElementTokens;
      SkipOne(BeginArray, ElementTokens(elements) + ([EndArray] + rest), depth);
      SkipElements(elements, [EndArray] + rest, depth + 1);
      SkipOne(EndArray, rest, depth + 1);
    case _ => SkipOne(Tokens(v)[0], rest, depth);
  }

  lemma {:induction false} SkipMembers(m: Members, rest: seq<Token>, depth: int)
    requires depth >= 1
    ensures Skipped(MemberTokens(m) + rest, depth) == Skipped(rest, depth)
    decreases m
  {
    match m
    case NoMembers => assert MemberTokens(m) + rest == rest;
    case Member(key, value, others) =>
      assert MemberTokens(m) + rest == [String(key)] + (Tokens(value) + (MemberTokens(others) + rest));
      SkipOne(String(key), Tokens(value) + (MemberTokens(others) + rest), depth);
      SkipFrom(value, MemberTokens(others) + rest, depth);
      SkipMembers(others, rest, depth);
  }

  lemma {:induction false} SkipElements(e: Elements, rest: seq<Token>, depth: int)
    requires depth >= 1
    ensures Skipped(ElementTokens(e) + rest, depth) == Skipped(rest, depth)
    decreases e
  {
    match e
    case NoElements => assert ElementTokens(e) + rest == rest;
    case Element(value, others) =>
      assert ElementTokens(e) + rest == Tokens(value) + (ElementTokens(others) + rest);
      SkipFrom(value, ElementTokens(others) + rest, depth);
      SkipElements(others, rest, depth);
  }

  /** Skipping consumes exactly the tokens of one value, however nested. */
  lemma SkipsExactlyOneValue(v: Value, rest: seq<Token>)
    ensures Skipped(Tokens(v) + rest, 0) == Some(rest)
  {
    hide Skipped, Tokens;
    SkipFrom(v, rest, 0);
  }

  /** More input does not change what was skipped. */
  lemma {:induction false} SkippedStays(tokens: seq<Token>, more: seq<Token>, depth: int)
    requires Skipped(tokens, depth).Some?
    ensures Skipped(tokens + more, depth) == Some(Skipped(tokens, depth).value + more)
  {
    assert tokens + more == [tokens[0]] + (tokens[1..] + more);
    SkipOne(tokens[0], tokens[1..] + more, depth);
    if depth + Nesting(tokens[0]) != 0 {
      SkippedStays(tokens[1..], more, depth + Nesting(tokens[0]));
    }
  }

  /** A value cut short is never skipped. */
  lemma CutValueFails(v: Value, n: nat)
    requires n < |Tokens(v)|
    ensures Skipped(Tokens(v)[..n], 0) == None
  {
    hide Tokens, Skipped;
    var tokens := Tokens(v);
    SkipsExactlyOneValue(v, []);
    assert tokens[..n] + tokens[n..] == tokens == tokens + [];
    if Skipped(tokens[..n], 0).Some? {
      SkippedStays(tokens[..n], tokens[n..], 0);
      assert false;
    }
  }

  // ---- the first top-level "time" ----

  /** The times of a value, read off the tree. */
  ghost function Times(v: Value): Option<map<string, string>> {
    match v
    case Null => Some(map[])
    case Object(members) => TimesFrom(members, map[])
    case _ => None
  }

  ghost function TimesFrom(m: Members, times: map<string, string>): Option<map<string, string>> {
    match m
    case NoMembers => Some(times)
    case Member(key, Text(text), others) => TimesFrom(others, times[key := text])
    case Member(key, Null, others) => TimesFrom(others, times[key := ""])
    case Member(_, _, _) => None
  }

  ghost function FirstMember(m: Members, key: string): Option<Value> {
    match m
    case NoMembers => None
    case Member(k, value, others) => if k == key then Some(value) else FirstMember(others, key)
  }

  /** The times of a document: those of its first "time" member. */
  ghost function DocumentTimes(v: Value): Option<map<string, string>> {
    if !v.Object? then None
    else
      var found := FirstMember(v.members, "time");
      if found.None? then None else Times(found.value)
  }

  lemma {:induction false} MembersDecode(m: Members, times: map<string, string>)
    ensures TimesOfMembers(MemberTokens(m) + [EndObject], times) == TimesFrom(m, times)
    decreases m
  {
    if m.Member? {
      var after := MemberTokens(m.others) + [EndObject];
      var tokens := MemberTokens(m) + [EndObject];
      assert tokens == [String(m.key)] + (Tokens(m.value) + after);
      FirstTokenDecides(m.value, after);
      if m.value.Text? {
        assert tokens[2..] == after;
        MembersDecode(m.others, times[m.key := m.value.text]);
      } else if m.value.Null? {
        assert tokens[2..] == after;
        MembersDecode(m.others, times[m.key := ""]);
      }
    }
  }

  lemma FirstTokenDecides(v: Value, after: seq<Token>)
    ensures |Tokens(v)| >= 1
    ensures (Tokens(v) + after)[0].String? <==> v.Text?
    ensures (Tokens(v) + after)[0].NullToken? <==> v.Null?
    ensures v.Text? ==> Tokens(v) == [String(v.text)]
  {
  }

  lemma ValueDecodes(v: Value)
    ensures TimesOfValue(Tokens(v)) == Times(v)
  {
    if v.Object? {
      assert Tokens(v)[1..] == MemberTokens(v.members) + [EndObject];
      MembersDecode(v.members, map[]);
    }
  }

  /** A complete value decodes to its times, whatever follows it. */
  lemma DecodesValue(v: Value, rest: seq<Token>)
    ensures Decoded(Tokens(v) + rest) == Times(v)
  {
    SkipsExactlyOneValue(v, rest);
    assert (Tokens(v) + rest)[..|Tokens(v)|] == Tokens(v);
    ValueDecodes(v);
  }

  lemma {:induction false} AmongMembers(m: Members, rest: seq<Token>)
    ensures TimesAmong(MemberTokens(m) + ([EndObject] + rest))
         == var found := FirstMember(m, "time"); if found.None? then None else Times(found.value)
    decreases m
  {
    match m
    case NoMembers => assert (MemberTokens(m) + ([EndObject] + rest))[0] == EndObject;
    case Member(key, value, others) =>
      var after := MemberTokens(others) + ([EndObject] + rest);
      var tokens := MemberTokens(m) + ([EndObject] + rest);
      assert tokens == [String(key)] + (Tokens(value) + after);
      assert tokens[1..] == Tokens(value) + after;
      if key == "time" {
        DecodesValue(value, after);
      } else {
        SkipsExactlyOneValue(value, after);
        AmongMembers(others, rest);
      }
  }

  /** The times found are those of the first top-level "time" member, whatever keys and strings occur deeper; there are
      none exactly when the document is no object, has no such member, or the member does not decode. */
  lemma FindsFirstTopLevelTime(doc: Value, rest: seq<Token>)
    ensures TimesIn(Tokens(doc) + rest) == DocumentTimes(doc)
  {
    hide TimesAmong, FirstMember, Times, MemberTokens;
    if doc.Object? {
      var tokens := Tokens(doc) + rest;
      assert tokens[1..] == MemberTokens(doc.members) + ([EndObject] + rest);
      AmongMembers(doc.members, rest);
    }
  }

  lemma DecodedStays(tokens: seq<Token>, more: seq<Token>)
    requires Decoded(tokens).Some?
    ensures Decoded(tokens + more) == Decoded(tokens)
  {
    SkippedIsSuffix(tokens, 0);
    SkippedStays(tokens, more, 0);
    var n := |tokens| - |Skipped(tokens, 0).value|;
    assert (tokens + more)[..n] == tokens[..n];
  }

  lemma {:induction false} AmongStays(tokens: seq<Token>, more: seq<Token>)
    requires TimesAmong(tokens).Some?
    ensures TimesAmong(tokens + more) == TimesAmong(tokens)
    decreases |tokens|
  {
    assert (tokens + more)[1..] == tokens[1..] + more;
    if tokens[0] == String("time") {
      DecodedStays(tokens[1..], more);
    } else {
      SkippedStays(tokens[1..], more, 0);
      SkippedIsSuffix(tokens[1..], 0);
      AmongStays(Skipped(tokens[1..], 0).value, more);
    }
  }

  /** A document cut short, as a limited body is, yields the whole document's times or an error. */
  lemma CutDocumentNeverMisleads(doc: Value, n: nat)
    requires n <= |Tokens(doc)|
    ensures var times := TimesIn(Tokens(doc)[..n]); times == None || times == DocumentTimes(doc)
  {
    hide Tokens, TimesAmong, DocumentTimes;
    var cut, more := Tokens(doc)[..n], Tokens(doc)[n..];
    if TimesIn(cut).Some? {
      AmongStays(cut[1..], more);
      assert cut + more == Tokens(doc) == Tokens(doc) + [];
      assert (cut + more)[1..] == cut[1..] + more;
      FindsFirstTopLevelTime(doc, []);
    }
  }
}
