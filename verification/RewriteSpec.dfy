/** What rewriting download origins means, independently of how the body is split into reads:
    scan once from the left; where a rule's text starts, emit its replacement and jump past it
    (the earliest rule wins), otherwise copy one byte. */
module RewriteSpec {
  import opened Streams

  datatype Rule = Rule(from: seq<byte>, to: seq<byte>)

  ghost predicate NonEmpty(rules: seq<Rule>) {
    forall i :: 0 <= i < |rules| ==> rules[i].from != []
  }

  predicate OccursAt(data: seq<byte>, text: seq<byte>, at: nat) {
    at <= |data| && text <= data[at..]
  }

  /** None of the first n rules' texts starts `data`. */
  ghost predicate NoneBelow(rules: seq<Rule>, n: nat, data: seq<byte>)
    requires n <= |rules|
  {
    forall k :: 0 <= k < n ==> !(rules[k].from <= data)
  }

  ghost predicate NoMatch(rules: seq<Rule>, data: seq<byte>) {
    NoneBelow(rules, |rules|, data)
  }

  ghost predicate FirstMatch(rules: seq<Rule>, data: seq<byte>, m: nat) {
    m < |rules| && rules[m].from <= data && NoneBelow(rules, m, data)
  }

  /** The lowest-numbered rule whose text `data` starts with, or |rules|. */
  ghost function MatchAt(rules: seq<Rule>, data: seq<byte>): (m: nat)
    ensures FirstMatch(rules, data, m) || (m == |rules| && NoMatch(rules, data))
  {
    FirstFrom(rules, data, 0)
  }

  ghost function FirstFrom(rules: seq<Rule>, data: seq<byte>, i: nat): (m: nat)
    requires i <= |rules| && NoneBelow(rules, i, data)
    ensures FirstMatch(rules, data, m) || (m == |rules| && NoMatch(rules, data))
    decreases |rules| - i
  {
    if i == |rules| || rules[i].from <= data then i else FirstFrom(rules, data, i + 1)
  }

  /** How far one step of the scan moves, and what it emits. */
  ghost function StepLen(rules: seq<Rule>, data: seq<byte>): (n: nat)
    requires NonEmpty(rules) && data != []
    ensures 0 < n <= |data|
  {
    var m := MatchAt(rules, data);
    if m < |rules| then |rules[m].from| else 1
  }

  ghost function StepOut(rules: seq<Rule>, data: seq<byte>): seq<byte>
    requires data != []
  {
    var m := MatchAt(rules, data);
    if m < |rules| then rules[m].to else [data[0]]
  }

  ghost function Rewrite(rules: seq<Rule>, data: seq<byte>): seq<byte>
    requires NonEmpty(rules)
    decreases |data|
  {
    if data == [] then [] else StepOut(rules, data) + Rewrite(rules, data[StepLen(rules, data)..])
  }

  /** Where the last replaced match of that scan ends; 0 when nothing matches. */
  ghost function LastEnd(rules: seq<Rule>, data: seq<byte>): (e: nat)
    requires NonEmpty(rules)
    ensures e <= |data|
    decreases |data|
  {
    if data == [] then 0
    else
      var n := StepLen(rules, data);
      var e := LastEnd(rules, data[n..]);
      if MatchAt(rules, data) < |rules| || e > 0 then n + e else 0
  }

  /** The longest text a read boundary can leave undecided. */
  ghost function Keep(rules: seq<Rule>): (keep: nat)
    ensures forall i :: 0 <= i < |rules| ==> |rules[i].from| <= keep + 1
  {
    if rules == [] then 0
    else
      var last := |rules| - 1;
      var keep := Keep(rules[..last]);
      if |rules[last].from| > keep + 1 then |rules[last].from| - 1 else keep
  }

  /** How much of `data` one flush consumes. */
  ghost function Used(rules: seq<Rule>, data: seq<byte>, final: bool): (n: nat)
    requires NonEmpty(rules)
    ensures LastEnd(rules, data) <= n <= |data|
  {
    if final then |data|
    else if |data| - Keep(rules) < LastEnd(rules, data) then LastEnd(rules, data)
    else |data| - Keep(rules)
  }

  /** A rule that some text can trigger: no earlier rule's text starts its own. */
  ghost predicate Unshadowed(rules: seq<Rule>, j: nat)
    requires j < |rules|
  {
    NoneBelow(rules, j, rules[j].from)
  }

  /** No text of a live rule holds a rule's text that ends before it does. */
  ghost predicate Splittable(rules: seq<Rule>) {
    forall j, i, at: nat | 0 <= j < |rules| && 0 <= i < |rules| && Unshadowed(rules, j)
      && OccursAt(rules[j].from, rules[i].from, at) :: at + |rules[i].from| == |rules[j].from|
  }

  // ---- one step of the scan ----

  lemma MatchAtIs(rules: seq<Rule>, data: seq<byte>, m: nat)
    requires FirstMatch(rules, data, m)
    ensures MatchAt(rules, data) == m
  {
  }

  lemma NoneBelowIn(rules: seq<Rule>, n: nat, data: seq<byte>, less: seq<byte>)
    requires n <= |rules| && NoneBelow(rules, n, data) && less <= data
    ensures NoneBelow(rules, n, less)
  {
  }

  /** Cutting the data off past the first match leaves the first step as it is. */
  lemma MatchCut(rules: seq<Rule>, data: seq<byte>, less: seq<byte>)
    requires NonEmpty(rules) && less != [] && less <= data && StepLen(rules, data) <= |less|
    ensures MatchAt(rules, less) == MatchAt(rules, data)
    ensures StepLen(rules, less) == StepLen(rules, data) && StepOut(rules, less) == StepOut(rules, data)
  {
    var m := MatchAt(rules, data);
    NoneBelowIn(rules, m, data, less);
    if m < |rules| {
      assert rules[m].from == data[..|rules[m].from|] == less[..|rules[m].from|];
      MatchAtIs(rules, less, m);
    } else {
      assert MatchAt(rules, less) == |rules|;
    }
  }

  lemma Unroll(rules: seq<Rule>, data: seq<byte>)
    requires NonEmpty(rules) && data != []
    ensures Rewrite(rules, data) == StepOut(rules, data) + Rewrite(rules, data[StepLen(rules, data)..])
    ensures LastEnd(rules, data) ==
            var e := LastEnd(rules, data[StepLen(rules, data)..]);
            if MatchAt(rules, data) < |rules| || e > 0 then StepLen(rules, data) + e else 0
  {
  }

  lemma EmptyRewrite(rules: seq<Rule>)
    requires NonEmpty(rules)
    ensures Rewrite(rules, []) == []
  {
  }

  lemma Associate(a: seq<byte>, b: seq<byte>, c: seq<byte>)
    ensures a + b + c == a + (b + c)
  {
  }

  /** Bytes before the first match are copied. */
  lemma {:induction false} CopyUpTo(rules: seq<Rule>, data: seq<byte>, p: nat)
    requires NonEmpty(rules) && p <= |data|
    requires forall q: nat :: q < p ==> NoMatch(rules, data[q..])
    ensures Rewrite(rules, data) == data[..p] + Rewrite(rules, data[p..])
    ensures LastEnd(rules, data) == if LastEnd(rules, data[p..]) == 0 then 0 else p + LastEnd(rules, data[p..])
  {
    hide Rewrite, LastEnd;
    assert data[0..] == data;
    if p > 0 {
      var tail := data[1..];
      assert NoMatch(rules, data[0..]);
      Unroll(rules, data);
      forall q: nat | q < p - 1 ensures NoMatch(rules, tail[q..]) {
        assert tail[q..] == data[q + 1..];
      }
      CopyUpTo(rules, tail, p - 1);
      assert tail[p - 1..] == data[p..];
      Associate([data[0]], tail[..p - 1], Rewrite(rules, data[p..]));
      assert [data[0]] + tail[..p - 1] == data[..p];
    }
  }

  /** The scan ends past 0 exactly when some rule's text occurs. */
  lemma {:induction false} MatchMoves(rules: seq<Rule>, data: seq<byte>, i: nat, at: nat)
    requires NonEmpty(rules) && i < |rules| && OccursAt(data, rules[i].from, at)
    ensures LastEnd(rules, data) > 0
    decreases |data|
  {
    if at == 0 {
      assert data[0..] == data;
    } else if MatchAt(rules, data) == |rules| {
      assert data[1..][at - 1..] == data[at..];
      MatchMoves(rules, data[1..], i, at - 1);
    }
  }

  lemma {:induction false} SomeMatch(rules: seq<Rule>, data: seq<byte>) returns (i: nat, at: nat)
    requires NonEmpty(rules) && LastEnd(rules, data) > 0
    ensures i < |rules| && OccursAt(data, rules[i].from, at)
    decreases |data|
  {
    var m := MatchAt(rules, data);
    if m < |rules| {
      i, at := m, 0;
      assert data[0..] == data;
    } else {
      i, at := SomeMatch(rules, data[1..]);
      at := at + 1;
      assert data[1..][at - 1..] == data[at..];
    }
  }

  /** Past the last match the scan copies, so cutting the data there cuts the output there. */
  lemma {:induction false} CutAfterLastMatch(rules: seq<Rule>, data: seq<byte>, e: nat)
    requires NonEmpty(rules) && LastEnd(rules, data) <= e <= |data|
    ensures Rewrite(rules, data) == Rewrite(rules, data[..e]) + data[e..]
    decreases |data|
  {
    hide Rewrite, LastEnd, MatchAt, NonEmpty;
    if data == [] {
      assert data[..e] == data && data[e..] == [];
    } else if e == 0 {
      Unroll(rules, data);
      CutAfterLastMatch(rules, data[1..], 0);
      EmptyRewrite(rules);
      assert data[..0] == [] && data[1..][..0] == [];
      assert [data[0]] + data[1..][0..] == data[0..];
    } else {
      var cut, n := data[..e], StepLen(rules, data);
      Unroll(rules, data);
      MatchCut(rules, data, cut);
      Unroll(rules, cut);
      CutAfterLastMatch(rules, data[n..], e - n);
      assert data[n..][..e - n] == cut[n..];
      assert data[n..][e - n..] == data[e..];
      Associate(StepOut(rules, data), Rewrite(rules, cut[n..]), data[e..]);
    }
  }

  // ---- one flush ----

  /** Data that already holds a match, or is longer than any text, decides its first step by itself. */
  lemma StepStays(rules: seq<Rule>, data: seq<byte>, t: seq<byte>)
    requires NonEmpty(rules) && Splittable(rules)
    requires data != [] && Used(rules, data, false) > 0
    ensures StepLen(rules, data + t) <= |data|
  {
    var k := MatchAt(rules, data + t);
    if k < |rules| && |rules[k].from| > |data| {
      var long := rules[k].from;
      assert long == (data + t)[..|long|];
      assert data == long[..|data|];
      NoneBelowIn(rules, k, data + t, long);
      assert Unshadowed(rules, k);
      var i, at := SomeMatch(rules, data);
      assert rules[i].from <= data[at..] <= long[at..];
      assert OccursAt(long, rules[i].from, at);
      assert false;
    }
  }

  /** What a flush writes, followed by the rewrite of what it holds back and of anything that
      arrives later, is the rewrite of the whole. */
  lemma {:induction false} FlushThenRest(rules: seq<Rule>, data: seq<byte>, t: seq<byte>)
    requires NonEmpty(rules) && Splittable(rules)
    ensures var n := Used(rules, data, false);
            Rewrite(rules, data[..n]) + Rewrite(rules, data[n..] + t) == Rewrite(rules, data + t)
    decreases |data|
  {
    hide Rewrite, LastEnd, MatchAt, Splittable, Used, Keep;
    var n := Used(rules, data, false);
    if n == 0 {
      EmptyRewrite(rules);
      assert data[..0] == [] && data[0..] == data;
    } else {
      var step := StepLen(rules, data);
      var tail := data[step..];
      StepStays(rules, data, t);
      MatchCut(rules, data + t, data);
      Unroll(rules, data + t);
      UsedSteps(rules, data);
      MatchCut(rules, data, data[..n]);
      Unroll(rules, data[..n]);
      FlushThenRest(rules, tail, t);
      assert (data + t)[step..] == tail + t;
      assert tail[n - step..] == data[n..];
      assert tail[..n - step] == data[..n][step..];
      Associate(StepOut(rules, data), Rewrite(rules, tail[..n - step]), Rewrite(rules, data[n..] + t));
    }
  }

  lemma UsedSteps(rules: seq<Rule>, data: seq<byte>)
    requires NonEmpty(rules) && data != [] && Used(rules, data, false) > 0
    ensures StepLen(rules, data) <= Used(rules, data, false)
    ensures Used(rules, data[StepLen(rules, data)..], false) == Used(rules, data, false) - StepLen(rules, data)
  {
  }

  // ---- a body in chunks ----

  ghost function Flat(chunks: seq<seq<byte>>): seq<byte> {
    if chunks == [] then [] else Flat(chunks[..|chunks| - 1]) + chunks[|chunks| - 1]
  }

  /** What has been written and what is held back after these reads. */
  datatype Progress = Progress(written: seq<byte>, pending: seq<byte>)

  ghost function Feed(rules: seq<Rule>, p: Progress, chunk: seq<byte>): Progress
    requires NonEmpty(rules)
  {
    var data := p.pending + chunk;
    var n := Used(rules, data, false);
    Progress(p.written + Rewrite(rules, data[..n]), data[n..])
  }

  ghost function FeedAll(rules: seq<Rule>, chunks: seq<seq<byte>>): Progress
    requires NonEmpty(rules)
  {
    if chunks == [] then Progress([], [])
    else Feed(rules, FeedAll(rules, chunks[..|chunks| - 1]), chunks[|chunks| - 1])
  }

  /** The whole output when `last` is the read that reports the end of the body. */
  ghost function StreamOut(rules: seq<Rule>, chunks: seq<seq<byte>>, last: seq<byte>): seq<byte>
    requires NonEmpty(rules)
  {
    var p := FeedAll(rules, chunks);
    p.written + Rewrite(rules, p.pending + last)
  }

  lemma FeedKeeps(rules: seq<Rule>, p: Progress, chunk: seq<byte>, t: seq<byte>)
    requires NonEmpty(rules) && Splittable(rules)
    ensures var q := Feed(rules, p, chunk);
            q.written + Rewrite(rules, q.pending + t) == p.written + Rewrite(rules, p.pending + (chunk + t))
  {
    hide Rewrite, Used, LastEnd, MatchAt, Splittable;
    var data := p.pending + chunk;
    FlushThenRest(rules, data, t);
    assert data + t == p.pending + (chunk + t);
    var n := Used(rules, data, false);
    assert p.written + Rewrite(rules, data[..n]) + Rewrite(rules, data[n..] + t)
        == p.written + (Rewrite(rules, data[..n]) + Rewrite(rules, data[n..] + t));
  }

  /** However the body is split, what was written and what is held back amount to the body read so far,
      whatever follows it. */
  lemma {:induction false} FedIsPrefix(rules: seq<Rule>, chunks: seq<seq<byte>>, t: seq<byte>)
    requires NonEmpty(rules) && Splittable(rules)
    ensures var p := FeedAll(rules, chunks);
            p.written + Rewrite(rules, p.pending + t) == Rewrite(rules, Flat(chunks) + t)
    decreases |chunks|
  {
    hide Rewrite, Feed, Splittable;
    if chunks == [] {
      assert FeedAll(rules, chunks) == Progress([], []);
    } else {
      var before, chunk := chunks[..|chunks| - 1], chunks[|chunks| - 1];
      FeedKeeps(rules, FeedAll(rules, before), chunk, t);
      FedIsPrefix(rules, before, chunk + t);
      assert Flat(before) + (chunk + t) == Flat(chunks) + t;
    }
  }

  ghost predicate SameTexts(rules: seq<Rule>, others: seq<Rule>) {
    |others| == |rules| && forall i :: 0 <= i < |rules| ==> others[i].from == rules[i].from
  }

  ghost predicate StreamsExactly(rules: seq<Rule>) {
    forall others, chunks, last :: SameTexts(rules, others) && NonEmpty(others) ==>
      StreamOut(others, chunks, last) == Rewrite(others, Flat(chunks) + last)
  }

  /** Splittable texts are exactly those for which, whatever the replacements, the body and
      its reads, streaming equals rewriting the whole body. */
  lemma StreamingIsExact(rules: seq<Rule>)
    requires NonEmpty(rules)
    ensures StreamsExactly(rules) <==> Splittable(rules)
  {
    if Splittable(rules) {
      forall others, chunks, last | SameTexts(rules, others) && NonEmpty(others)
        ensures StreamOut(others, chunks, last) == Rewrite(others, Flat(chunks) + last)
      {
        SplittableTexts(rules, others);
        FedIsPrefix(others, chunks, last);
      }
    } else {
      SplitBreaks(rules);
    }
  }

  lemma SplittableTexts(rules: seq<Rule>, others: seq<Rule>)
    requires Splittable(rules) && SameTexts(rules, others)
    ensures Splittable(others)
  {
    forall j, i, at: nat | 0 <= j < |others| && 0 <= i < |others| && Unshadowed(others, j)
      && OccursAt(others[j].from, others[i].from, at)
      ensures at + |others[i].from| == |others[j].from|
    {
      forall k | 0 <= k < j ensures !(rules[k].from <= rules[j].from) {
        assert !(others[k].from <= others[j].from);
      }
      assert Unshadowed(rules, j);
      assert OccursAt(rules[j].from, rules[i].from, at);
    }
  }

  /** The rules with replacement texts that tell rule j from all the others. */
  ghost function Marked(rules: seq<Rule>, j: nat): (marked: seq<Rule>)
    ensures SameTexts(rules, marked)
    ensures forall i :: 0 <= i < |rules| ==> marked[i].to == if i == j then [] else [0 as byte]
  {
    seq(|rules|, i requires 0 <= i < |rules| => Rule(rules[i].from, if i == j then [] else [0 as byte]))
  }

  /** When a live text holds another that ends before it does, cutting the body between the two ends
      makes the stream replace something else than the outer text. */
  lemma SplitBreaks(rules: seq<Rule>)
    requires NonEmpty(rules) && !Splittable(rules)
    ensures !StreamsExactly(rules)
  {
    hide Rewrite, LastEnd, MatchAt, Used, Keep, FeedAll, Flat, StreamOut, Unshadowed, OccursAt;
    var j, i, at: nat :| 0 <= j < |rules| && 0 <= i < |rules| && Unshadowed(rules, j)
      && OccursAt(rules[j].from, rules[i].from, at) && at + |rules[i].from| != |rules[j].from|;
    var marked, first, last := CutBreaks(rules, j, i, at);
    assert StreamOut(marked, [first], last) != Rewrite(marked, Flat([first]) + last);
  }

  lemma CutBreaks(rules: seq<Rule>, j: nat, i: nat, at: nat) returns (marked: seq<Rule>, first: seq<byte>, last: seq<byte>)
    requires NonEmpty(rules) && j < |rules| && i < |rules| && Unshadowed(rules, j)
    requires OccursAt(rules[j].from, rules[i].from, at) && at + |rules[i].from| != |rules[j].from|
    ensures SameTexts(rules, marked) && NonEmpty(marked)
    ensures StreamOut(marked, [first], last) != Rewrite(marked, Flat([first]) + last)
  {
    hide Rewrite, LastEnd, MatchAt, Used, Keep, FeedAll, Flat;
    var outer, cut := rules[j].from, at + |rules[i].from|;
    marked, first, last := Marked(rules, j), outer[..cut], outer[cut..];
    WholeIsSilent(rules, j);
    assert OccursAt(first, marked[i].from, at) by {
      assert first[at..] == outer[at..][..|rules[i].from|];
    }
    MatchMoves(marked, first, i, at);
    MarkedShows(rules, j, first);
    OneChunk(marked, first);
    assert first + last == outer;
  }

  lemma OneChunk(rules: seq<Rule>, chunk: seq<byte>)
    requires NonEmpty(rules)
    ensures Flat([chunk]) == chunk
    ensures FeedAll(rules, [chunk]).written == Rewrite(rules, chunk[..Used(rules, chunk, false)])
  {
    var none: seq<seq<byte>> := [];
    assert [chunk][..0] == none;
    assert Flat(none) + chunk == chunk;
    assert FeedAll(rules, none).pending + chunk == chunk;
  }

  lemma WholeIsSilent(rules: seq<Rule>, j: nat)
    requires NonEmpty(rules) && j < |rules| && Unshadowed(rules, j)
    ensures NonEmpty(Marked(rules, j)) && Rewrite(Marked(rules, j), rules[j].from) == []
  {
    var marked, outer := Marked(rules, j), rules[j].from;
    assert NoneBelow(marked, j, outer);
    MatchAtIs(marked, outer, j);
    assert outer[|outer|..] == [];
  }

  lemma {:induction false} MarkedShows(rules: seq<Rule>, j: nat, data: seq<byte>)
    requires NonEmpty(Marked(rules, j)) && j < |rules| && |data| < |rules[j].from|
    requires LastEnd(Marked(rules, j), data) > 0
    ensures Rewrite(Marked(rules, j), data[..Used(Marked(rules, j), data, false)]) != []
  {
    var marked := Marked(rules, j);
    UsedSteps(marked, data);
    MatchCut(marked, data, data[..Used(marked, data, false)]);
  }
}
