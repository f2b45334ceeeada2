/** The streaming rewriter: a lazily maintained index of each rule's next occurrence inside one
    buffer, and a held-back tail between buffers. */
module Rewrite {
  import opened Streams
  import opened RewriteSpec

  /** `at` is the first occurrence of `text` at or after `from`, or -1. */
  ghost predicate IsNext(data: seq<byte>, text: seq<byte>, from: nat, at: int) {
    && (at == -1 || (at >= from && OccursAt(data, text, at)))
    && forall q: nat :: from <= q && (at == -1 || q < at) ==> !OccursAt(data, text, q)
  }

  function IndexFrom(data: seq<byte>, text: seq<byte>, from: nat): (at: int)
    requires from <= |data|
    ensures IsNext(data, text, from, at)
    decreases |data| - from
  {
    if OccursAt(data, text, from) then from
    else if from == |data| then -1
    else IndexFrom(data, text, from + 1)
  }

  // ---- relating the index to the scan ----

  /** The scan of data[start..] copies up to the picked occurrence and replaces it. */
  lemma MatchStep(rules: seq<Rule>, data: seq<byte>, start: nat, p: nat, pick: nat)
    requires NonEmpty(rules) && start <= p <= |data|
    requires forall q: nat, k :: start <= q < p && 0 <= k < |rules| ==> !OccursAt(data, rules[k].from, q)
    requires FirstMatch(rules, data[p..], pick)
    ensures var next := p + |rules[pick].from|;
            && next <= |data|
            && Rewrite(rules, data[start..]) == data[start..p] + rules[pick].to + Rewrite(rules, data[next..])
            && LastEnd(rules, data[start..]) == next - start + LastEnd(rules, data[next..])
  {
    hide Rewrite, LastEnd, MatchAt;
    var rest, here := data[start..], data[p..];
    var next := p + |rules[pick].from|;
    forall q: nat | q < p - start ensures NoMatch(rules, rest[q..]) {
      assert rest[q..] == data[start + q..];
      assert forall k :: 0 <= k < |rules| ==> !OccursAt(data, rules[k].from, start + q);
    }
    CopyUpTo(rules, rest, p - start);
    assert rest[p - start..] == here && rest[..p - start] == data[start..p];
    MatchAtIs(rules, here, pick);
    Unroll(rules, here);
    assert here[next - p..] == data[next..];
    Associate(data[start..p], rules[pick].to, Rewrite(rules, data[next..]));
  }

  /** Past the last occurrence the scan copies. */
  lemma NoMoreMatches(rules: seq<Rule>, data: seq<byte>, start: nat)
    requires NonEmpty(rules) && start <= |data|
    requires forall q: nat, k :: start <= q && 0 <= k < |rules| ==> !OccursAt(data, rules[k].from, q)
    ensures Rewrite(rules, data[start..]) == data[start..] && LastEnd(rules, data[start..]) == 0
  {
    hide Rewrite, MatchAt;
    var rest := data[start..];
    forall q: nat | q < |rest| ensures NoMatch(rules, rest[q..]) {
      assert rest[q..] == data[start + q..];
      assert forall k :: 0 <= k < |rules| ==> !OccursAt(data, rules[k].from, start + q);
    }
    CopyUpTo(rules, rest, |rest|);
    EmptyRewrite(rules);
    assert rest[|rest|..] == [] && rest[..|rest|] == rest;
  }

  /** What the loop has settled stays a prefix of what one flush writes. */
  lemma CutPrefix(rules: seq<Rule>, data: seq<byte>, done: seq<byte>, start: nat, used: nat)
    requires NonEmpty(rules) && start <= |data|
    requires done + Rewrite(rules, data[start..]) == Rewrite(rules, data)
    requires LastEnd(rules, data) == start + LastEnd(rules, data[start..]) <= used <= |data|
    ensures done + Rewrite(rules, data[start..used]) == Rewrite(rules, data[..used])
  {
    hide Rewrite, LastEnd;
    CutAfterLastMatch(rules, data, used);
    CutAfterLastMatch(rules, data[start..], used - start);
    assert data[start..][..used - start] == data[start..used];
    assert data[start..][used - start..] == data[used..];
    Cancel(done + Rewrite(rules, data[start..used]), Rewrite(rules, data[..used]), data[used..]);
  }

  lemma Cancel(a: seq<byte>, b: seq<byte>, c: seq<byte>)
    requires a + c == b + c
    ensures a == b
  {
    assert a == (a + c)[..|a|];
    assert b == (b + c)[..|b|];
  }

  // ---- one buffer ----

  /** Picks the earliest occurrence, the lowest-numbered rule among equals; -1 when none is left. */
  method Pick(next: array<int>) returns (pick: int)
    ensures -1 <= pick < next.Length
    ensures pick == -1 ==> forall i :: 0 <= i < next.Length ==> next[i] < 0
    ensures pick >= 0 ==> next[pick] >= 0
    ensures pick >= 0 ==> forall i :: 0 <= i < next.Length && next[i] >= 0 ==>
      next[pick] <= next[i] && (i < pick ==> next[pick] < next[i])
  {
    pick := -1;
    for i := 0 to next.Length
      invariant -1 <= pick < i
      invariant pick == -1 ==> forall k :: 0 <= k < i ==> next[k] < 0
      invariant pick >= 0 ==> next[pick] >= 0
      invariant pick >= 0 ==> forall k :: 0 <= k < i && next[k] >= 0 ==>
        next[pick] <= next[k] && (k < pick ==> next[pick] < next[k])
    {
      if next[i] >= 0 && (pick < 0 || next[i] < next[pick]) {
        pick := i;
      }
    }
  }

  ghost predicate Indexed(data: seq<byte>, rules: seq<Rule>, next: seq<int>, start: nat) {
    |next| == |rules| && forall i :: 0 <= i < |rules| ==> IsNext(data, rules[i].from, start, next[i])
  }

  /** Looks again only for the rules whose known occurrence now lies behind `start`. */
  method Advance(data: seq<byte>, rules: seq<Rule>, next: array<int>, ghost before: nat, start: nat)
    requires before <= start <= |data| && Indexed(data, rules, next[..], before)
    modifies next
    ensures Indexed(data, rules, next[..], start)
  {
    for i := 0 to next.Length
      invariant forall k :: 0 <= k < i ==> IsNext(data, rules[k].from, start, next[k])
      invariant forall k :: i <= k < next.Length ==> IsNext(data, rules[k].from, before, next[k])
    {
      if 0 <= next[i] < start {
        next[i] := IndexFrom(data, rules[i].from, start);
      }
    }
  }

  /** The picked occurrence is the scan's next match. */
  lemma PickedIsFirst(data: seq<byte>, rules: seq<Rule>, next: seq<int>, start: nat, pick: nat)
    requires start <= |data| && Indexed(data, rules, next, start) && pick < |next| && next[pick] >= 0
    requires forall i :: 0 <= i < |next| && next[i] >= 0 ==>
      next[pick] <= next[i] && (i < pick ==> next[pick] < next[i])
    ensures start <= next[pick] <= |data| && FirstMatch(rules, data[next[pick]..], pick)
    ensures forall q: nat, k :: start <= q < next[pick] && 0 <= k < |rules| ==> !OccursAt(data, rules[k].from, q)
  {
    var p := next[pick];
    assert IsNext(data, rules[pick].from, start, p);
    forall k | 0 <= k < pick ensures !(rules[k].from <= data[p..]) {
      assert IsNext(data, rules[k].from, start, next[k]);
      assert !OccursAt(data, rules[k].from, p);
    }
    forall q: nat, k | start <= q < p && 0 <= k < |rules| ensures !OccursAt(data, rules[k].from, q) {
      assert IsNext(data, rules[k].from, start, next[k]);
    }
  }

  ghost predicate Settled(rules: seq<Rule>, data: seq<byte>, done: seq<byte>, start: nat) {
    && NonEmpty(rules) && start <= |data|
    && done + Rewrite(rules, data[start..]) == Rewrite(rules, data)
    && LastEnd(rules, data) == start + LastEnd(rules, data[start..])
  }

  lemma SettledStep(rules: seq<Rule>, data: seq<byte>, done: seq<byte>, start: nat, p: nat, pick: nat)
    requires Settled(rules, data, done, start) && start <= p <= |data|
    requires forall q: nat, k :: start <= q < p && 0 <= k < |rules| ==> !OccursAt(data, rules[k].from, q)
    requires FirstMatch(rules, data[p..], pick)
    ensures Settled(rules, data, done + data[start..p] + rules[pick].to, p + |rules[pick].from|)
    ensures start < p + |rules[pick].from| <= |data|
  {
    hide Rewrite, LastEnd, MatchAt, NoneBelow;
    MatchStep(rules, data, start, p, pick);
    var next := p + |rules[pick].from|;
    assert done + data[start..p] + rules[pick].to + Rewrite(rules, data[next..])
        == done + (data[start..p] + rules[pick].to + Rewrite(rules, data[next..]));
  }

  lemma SettledIsPrefix(rules: seq<Rule>, data: seq<byte>, done: seq<byte>, start: nat, final: bool)
    requires Settled(rules, data, done, start)
    ensures start <= Used(rules, data, final)
    ensures var used := Used(rules, data, final);
            done + Rewrite(rules, data[start..used]) == Rewrite(rules, data[..used])
  {
    hide Rewrite, Keep;
    CutPrefix(rules, data, done, start, Used(rules, data, final));
  }

  /** Writes one buffer with every complete match replaced; on success reports how much it consumed. */
  method WriteRewritten(dst: Writer, data: seq<byte>, rules: seq<Rule>, keep: nat, final: bool)
      returns (n: nat, ok: bool)
    requires NonEmpty(rules) && keep == Keep(rules) && dst.lawful
    modifies dst
    ensures ok ==> n == Used(rules, data, final) && dst.out == old(dst.out) + Rewrite(rules, data[..n])
    ensures old(dst.out) <= dst.out <= old(dst.out) + Rewrite(rules, data[..Used(rules, data, final)])
    ensures dst.reliable ==> ok
  {
    hide Rewrite, LastEnd, MatchAt, Keep, Used, Settled, IsNext, OccursAt, NonEmpty, FirstMatch;
    var next := BuildIndex(data, rules);
    var start := 0;
    ghost var done: seq<byte> := [];
    ghost var used := Used(rules, data, final);
    SettledAtStart(rules, data);
    assert dst.out + done == dst.out;
    n := 0;
    while true
      invariant Indexed(data, rules, next[..], start) && start <= |data|
      invariant Settled(rules, data, done, start)
      invariant dst.out == old(dst.out) + done
      decreases |data| - start
    {
      var pick := Pick(next);
      if pick < 0 {
        break;
      }
      var at := next[pick];
      PickedIsFirst(data, rules, next[..], start, pick);
      ghost var settled := done + data[start..at] + rules[pick].to;
      SettledStep(rules, data, done, start, at, pick);
      SettledIsPrefix(rules, data, settled, at + |rules[pick].from|, final);
      var written := WriteBoth(dst, data[start..at], rules[pick].to);
      assert old(dst.out) + done + data[start..at] + rules[pick].to == old(dst.out) + settled;
      assert old(dst.out) + settled <= old(dst.out) + Rewrite(rules, data[..used]);
      if !written {
        return 0, false;
      }
      done := settled;
      Advance(data, rules, next, start, at + |rules[pick].from|);
      start := at + |rules[pick].from|;
    }
    var end := |data|;
    if !final {
      end := if start < |data| - keep then |data| - keep else start;
    }
    LastWrite(rules, data, next[..], done, start, final);
    assert old(dst.out) + done + data[start..end] == old(dst.out) + (done + data[start..end]);
    var _, written := dst.Write(data[start..end]);
    return end, written;
  }

  method BuildIndex(data: seq<byte>, rules: seq<Rule>) returns (next: array<int>)
    ensures fresh(next) && Indexed(data, rules, next[..], 0)
  {
    next := new int[|rules|];
    for i := 0 to |rules|
      invariant forall k :: 0 <= k < i ==> IsNext(data, rules[k].from, 0, next[k])
    {
      next[i] := IndexFrom(data, rules[i].from, 0);
    }
  }

  method WriteBoth(dst: Writer, a: seq<byte>, b: seq<byte>) returns (ok: bool)
    requires dst.lawful
    modifies dst
    ensures old(dst.out) <= dst.out <= old(dst.out) + a + b
    ensures ok ==> dst.out == old(dst.out) + a + b
    ensures dst.reliable ==> ok
  {
    var n: nat;
    n, ok := dst.Write(a);
    if ok {
      n, ok := dst.Write(b);
    }
  }

  lemma SettledAtStart(rules: seq<Rule>, data: seq<byte>)
    requires NonEmpty(rules)
    ensures Settled(rules, data, [], 0)
  {
    hide Rewrite, LastEnd;
    assert data[0..] == data;
    assert [] + Rewrite(rules, data) == Rewrite(rules, data);
  }

  lemma LastWrite(rules: seq<Rule>, data: seq<byte>, next: seq<int>, done: seq<byte>, start: nat, final: bool)
    requires Settled(rules, data, done, start) && Indexed(data, rules, next, start)
    requires forall i :: 0 <= i < |next| ==> next[i] < 0
    ensures Used(rules, data, final) ==
            if final then |data| else if start < |data| - Keep(rules) then |data| - Keep(rules) else start
    ensures done + data[start..Used(rules, data, final)] == Rewrite(rules, data[..Used(rules, data, final)])
  {
    hide Rewrite, LastEnd, Keep;
    var used := Used(rules, data, final);
    forall q: nat, k | start <= q && 0 <= k < |rules| ensures !OccursAt(data, rules[k].from, q) {
      assert IsNext(data, rules[k].from, start, next[k]);
    }
    NoMoreMatches(rules, data, start);
    SettledIsPrefix(rules, data, done, start, final);
    CutAfterLastMatch(rules, data[start..], used - start);
    assert data[start..][..used - start] == data[start..used];
    assert data[start..] == data[start..used] + data[start..][used - start..];
    Cancel(Rewrite(rules, data[start..used]), data[start..used], data[start..][used - start..]);
  }

  // ---- the whole stream ----

  datatype Outcome = Done | ReadFailed | WriteFailed | LastWriteFailed

  method LongestKept(rules: seq<Rule>) returns (keep: nat)
    ensures keep == Keep(rules)
  {
    keep := 0;
    for i := 0 to |rules|
      invariant keep == Keep(rules[..i])
    {
      assert rules[..i + 1][..i] == rules[..i];
      keep := if keep > |rules[i].from| - 1 then keep else |rules[i].from| - 1;
    }
    assert rules[..|rules|] == rules;
  }

  /** Copies src to dst with every rule applied. For texts that can be split, the output is the rewrite of the
      whole body, and after a failure it is a prefix of the rewrite of every way the body could have gone on. */
  method RewriteStream(dst: Writer, src: Reader, rules: seq<Rule>)
      returns (outcome: Outcome, ghost chunks: seq<seq<byte>>, ghost last: seq<byte>)
    requires NonEmpty(rules) && dst.lawful
    modifies dst, src
    ensures Flat(chunks) + last + src.rest == old(src.rest)
    ensures outcome == Done ==> src.rest == [] && dst.out == old(dst.out) + StreamOut(rules, chunks, last)
    ensures outcome == Done && Splittable(rules) ==> dst.out == old(dst.out) + Rewrite(rules, old(src.rest))
    ensures outcome == LastWriteFailed && Splittable(rules) ==>
      dst.out <= old(dst.out) + Rewrite(rules, old(src.rest))
    ensures outcome in {ReadFailed, WriteFailed} && Splittable(rules) ==>
      forall t :: dst.out <= old(dst.out) + Rewrite(rules, Flat(chunks) + last + t)
    ensures old(dst.out) <= dst.out
    ensures !src.faulty && dst.reliable ==> outcome == Done
  {
    hide Rewrite, Used, Keep, Splittable, StreamOut, NonEmpty, FeedAll, Flat;
    NothingFed(rules);
    var keep := LongestKept(rules);
    var pending: seq<byte> := [];
    chunks := [];
    ghost var start := dst.out;
    while true
      invariant pending == FeedAll(rules, chunks).pending
      invariant dst.out == start + FeedAll(rules, chunks).written
      invariant Flat(chunks) + src.rest == old(src.rest)
      decreases |src.rest|, src.stalls
    {
      var chunk, err := src.Read(CHUNK);
      ghost var fed := chunks;
      pending := pending + chunk;
      last := chunk;
      assert Flat(chunks) + last + src.rest == Flat(chunks) + (last + src.rest);
      if err == Failed {
        ReadFailure(rules, chunks, last, start, dst.out);
        return ReadFailed, chunks, last;
      }
      var flushed, ok := WriteRewritten(dst, pending, rules, keep, err == EOF);
      if err == EOF {
        Finish(rules, chunks, last);
        ghost var written := FeedAll(rules, chunks).written;
        ghost var flush := Rewrite(rules, pending[..Used(rules, pending, true)]);
        assert start + written + flush == start + (written + flush);
        assert Flat(chunks) + last + src.rest == Flat(chunks) + last;
        return if ok then Done else LastWriteFailed, chunks, last;
      }
      Extend(rules, chunks, chunk);
      chunks, last := chunks + [chunk], [];
      if !ok {
        WriteFailure(rules, fed, chunk, start, dst.out);
        assert Flat(chunks) + last == Flat(chunks);
        return WriteFailed, chunks, last;
      }
      pending := pending[flushed..];
    }
  }

  lemma Extend(rules: seq<Rule>, chunks: seq<seq<byte>>, chunk: seq<byte>)
    requires NonEmpty(rules)
    ensures Flat(chunks + [chunk]) == Flat(chunks) + chunk
    ensures FeedAll(rules, chunks + [chunk]) == Feed(rules, FeedAll(rules, chunks), chunk)
  {
    assert (chunks + [chunk])[..|chunks|] == chunks;
  }

  lemma NothingFed(rules: seq<Rule>)
    requires NonEmpty(rules)
    ensures FeedAll(rules, []) == Progress([], []) && Flat([]) == []
  {
  }

  lemma ReadFailure(rules: seq<Rule>, chunks: seq<seq<byte>>, last: seq<byte>, start: seq<byte>, out: seq<byte>)
    requires NonEmpty(rules) && out == start + FeedAll(rules, chunks).written
    ensures Splittable(rules) ==> forall t :: out <= start + Rewrite(rules, Flat(chunks) + last + t)
  {
    hide Rewrite, FeedAll, Splittable, Flat;
    if Splittable(rules) {
      forall t ensures out <= start + Rewrite(rules, Flat(chunks) + last + t) {
        FedIsPrefix(rules, chunks, last + t);
        assert Flat(chunks) + last + t == Flat(chunks) + (last + t);
      }
    }
  }

  lemma WriteFailure(rules: seq<Rule>, chunks: seq<seq<byte>>, chunk: seq<byte>, start: seq<byte>, out: seq<byte>)
    requires NonEmpty(rules)
    requires var p := FeedAll(rules, chunks);
      var data := p.pending + chunk;
      out <= start + p.written + Rewrite(rules, data[..Used(rules, data, false)])
    ensures Splittable(rules) ==> forall t :: out <= start + Rewrite(rules, Flat(chunks + [chunk]) + [] + t)
  {
    hide Rewrite, FeedAll, Splittable, Flat, Used;
    Extend(rules, chunks, chunk);
    var more := chunks + [chunk];
    assert out <= start + FeedAll(rules, more).written;
    if Splittable(rules) {
      forall t ensures out <= start + Rewrite(rules, Flat(more) + [] + t) {
        FedIsPrefix(rules, more, t);
        assert Flat(more) + [] + t == Flat(more) + t;
      }
    }
  }

  /** The last flush completes the stream's output. */
  lemma Finish(rules: seq<Rule>, chunks: seq<seq<byte>>, last: seq<byte>)
    requires NonEmpty(rules)
    ensures var p := FeedAll(rules, chunks);
      var data := p.pending + last;
      p.written + Rewrite(rules, data[..Used(rules, data, true)]) == StreamOut(rules, chunks, last)
    ensures Splittable(rules) ==> StreamOut(rules, chunks, last) == Rewrite(rules, Flat(chunks) + last)
  {
    hide Rewrite, FeedAll, Splittable, Flat;
    var data := FeedAll(rules, chunks).pending + last;
    assert data[..Used(rules, data, true)] == data;
    if Splittable(rules) {
      FedIsPrefix(rules, chunks, last);
    }
  }
}
