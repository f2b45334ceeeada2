/** The token bucket that limits explain requests, over real-valued tokens and seconds. */
module TokenBucket {
  datatype Limit = Limit(rate: real, burst: real)

  ghost predicate Sane(l: Limit) {
    l.rate >= 0.0 && l.burst >= 0.0
  }

  function Min(a: real, b: real): real {
    if a <= b then a else b
  }

  /** The tokens that accrue in some time. */
  function Earned(l: Limit, elapsed: real): real {
    elapsed * l.rate
  }

  lemma EarnedIsPositive(l: Limit, elapsed: real)
    requires Sane(l) && elapsed >= 0.0
    ensures Earned(l, elapsed) >= 0.0
  {
    var e, r := elapsed, l.rate;
    assert e * r >= 0.0;
  }

  lemma EarnedAdds(l: Limit, t: real, u: real)
    ensures Earned(l, t + u) == Earned(l, t) + Earned(l, u)
  {
  }

  function Refilled(l: Limit, tokens: real, elapsed: real): real {
    Min(l.burst, tokens + Earned(l, elapsed))
  }

  class Bucket {
    const limit: Limit
    var tokens: real
    var last: real

    constructor (limit: Limit, now: real)
      ensures this.limit == limit && tokens == limit.burst && last == now
    {
      this.limit, tokens, last := limit, limit.burst, now;
    }

    /** Refills the bucket for the time since the last call, then takes one token if there is one. */
    method Allow(now: real) returns (ok: bool)
      requires Sane(limit) && 0.0 <= tokens <= limit.burst && last <= now
      modifies this`tokens, this`last
      ensures 0.0 <= tokens <= limit.burst && last == now
      ensures ok <==> Refilled(limit, old(tokens), now - old(last)) >= 1.0
      ensures tokens == Refilled(limit, old(tokens), now - old(last)) - if ok then 1.0 else 0.0
    {
      hide Earned;
      EarnedIsPositive(limit, now - last);
      tokens := Min(limit.burst, tokens + Earned(limit, now - last));
      last := now;
      ok := tokens >= 1.0;
      if ok {
        tokens := tokens - 1.0;
      }
    }
  }

  // ---- runs: calls made at the given times ----

  ghost predicate Ordered(times: seq<real>) {
    forall i, j :: 0 <= i <= j < |times| ==> times[i] <= times[j]
  }

  /** The tokens call k finds, the bucket having been created full at the time start. */
  ghost function Found(l: Limit, start: real, times: seq<real>, k: nat): real
    requires k < |times|
    decreases k, 0
  {
    if k == 0 then Refilled(l, l.burst, times[0] - start)
    else Refilled(l, Left(l, start, times, k - 1), times[k] - times[k - 1])
  }

  ghost predicate Admitted(l: Limit, start: real, times: seq<real>, k: nat)
    requires k < |times|
    decreases k, 1
  {
    Found(l, start, times, k) >= 1.0
  }

  /** The tokens call k leaves. */
  ghost function Left(l: Limit, start: real, times: seq<real>, k: nat): real
    requires k < |times|
    decreases k, 2
  {
    Found(l, start, times, k) - if Admitted(l, start, times, k) then 1.0 else 0.0
  }

  /** How many of the calls from..upTo, upTo excluded, were admitted. */
  ghost function Admissions(l: Limit, start: real, times: seq<real>, from: nat, upTo: nat): nat
    requires from <= upTo <= |times|
    decreases upTo
  {
    if from == upTo then 0
    else Admissions(l, start, times, from, upTo - 1) + if Admitted(l, start, times, upTo - 1) then 1 else 0
  }

  /** What the window from call s to call k may admit in all, less what it has admitted before call k. */
  ghost function Room(l: Limit, start: real, times: seq<real>, s: nat, k: nat): real
    requires s <= k < |times|
  {
    l.burst + Earned(l, times[k] - times[s]) - Admissions(l, start, times, s, k) as real
  }

  /** From one call to the next a window earns what time refills and loses what was admitted. */
  lemma RoomGrows(l: Limit, start: real, times: seq<real>, s: nat, k: nat)
    requires s <= k && k + 1 < |times|
    ensures Room(l, start, times, s, k + 1)
         == Room(l, start, times, s, k) - (if Admitted(l, start, times, k) then 1.0 else 0.0)
            + Earned(l, times[k + 1] - times[k])
  {
    hide Admitted, Earned;
    EarnedAdds(l, times[k] - times[s], times[k + 1] - times[k]);
    assert times[k + 1] - times[s] == times[k] - times[s] + (times[k + 1] - times[k]);
  }

  lemma EmptyWindow(l: Limit, start: real, times: seq<real>, k: nat)
    requires k < |times|
    ensures Room(l, start, times, k, k) == l.burst
  {
  }

  /** A call finds the room of the tightest window that ends with it. */
  lemma {:induction false} FoundIsTightestRoom(l: Limit, start: real, times: seq<real>, k: nat) returns (tight: nat)
    requires Sane(l) && Ordered(times) && k < |times| && start <= times[0]
    ensures tight <= k && Found(l, start, times, k) == Room(l, start, times, tight, k)
    ensures forall s: nat :: s <= k ==> Found(l, start, times, k) <= Room(l, start, times, s, k)
    ensures 0.0 <= Found(l, start, times, k) <= l.burst
  {
    hide Earned, Room;
    EmptyWindow(l, start, times, k);
    if k == 0 {
      tight := 0;
      EarnedIsPositive(l, times[0] - start);
    } else {
      var before := FoundIsTightestRoom(l, start, times, k - 1);
      var added := Earned(l, times[k] - times[k - 1]);
      EarnedIsPositive(l, times[k] - times[k - 1]);
      forall s: nat | s < k
        ensures Left(l, start, times, k - 1) + added <= Room(l, start, times, s, k)
      {
        RoomGrows(l, start, times, s, k - 1);
        assert Found(l, start, times, k - 1) <= Room(l, start, times, s, k - 1);
      }
      RoomGrows(l, start, times, before, k - 1);
      tight := if Left(l, start, times, k - 1) + added <= l.burst then before else k;
    }
  }

  /** The bucket stays between empty and full. */
  lemma StaysWithinBurst(l: Limit, start: real, times: seq<real>, k: nat)
    requires Sane(l) && Ordered(times) && k < |times| && start <= times[0]
    ensures 0.0 <= Left(l, start, times, k) <= l.burst
  {
    hide Found, Room;
    var _ := FoundIsTightestRoom(l, start, times, k);
  }

  /** Admitting call k keeps the window from call s within burst + rate * length. */
  ghost predicate Fits(l: Limit, start: real, times: seq<real>, s: nat, k: nat)
    requires s <= k < |times|
  {
    Admissions(l, start, times, s, k) as real + 1.0 <= l.burst + Earned(l, times[k] - times[s])
  }

  /** A call is admitted exactly when that keeps every window of calls that ends with it within its bound. */
  lemma AdmittedExactlyWithinRate(l: Limit, start: real, times: seq<real>, k: nat)
    requires Sane(l) && Ordered(times) && k < |times| && start <= times[0]
    ensures Admitted(l, start, times, k) <==> forall s: nat :: s <= k ==> Fits(l, start, times, s, k)
  {
    hide Found, Earned, Admissions;
    var tight := FoundIsTightestRoom(l, start, times, k);
    assert Fits(l, start, times, tight, k) <==> Room(l, start, times, tight, k) >= 1.0;
    forall s: nat | s <= k && Admitted(l, start, times, k) ensures Fits(l, start, times, s, k) {
      assert Found(l, start, times, k) <= Room(l, start, times, s, k);
    }
  }

  /** In any window of time [a, b] at most burst + rate * (b - a) calls are admitted. */
  lemma {:induction false} WindowBound(l: Limit, start: real, times: seq<real>, from: nat, upTo: nat, a: real, b: real)
    requires Sane(l) && Ordered(times) && from <= upTo <= |times| && a <= b
    requires times != [] ==> start <= times[0]
    requires forall k :: from <= k < upTo ==> a <= times[k] <= b
    ensures Admissions(l, start, times, from, upTo) as real <= l.burst + Earned(l, b - a)
    decreases upTo
  {
    hide Earned, Admitted;
    EarnedIsPositive(l, b - a);
    if from < upTo {
      var k := upTo - 1;
      if Admitted(l, start, times, k) {
        AdmittedExactlyWithinRate(l, start, times, k);
        assert Fits(l, start, times, from, k);
        EarnedAdds(l, times[k] - times[from], (b - times[k]) + (times[from] - a));
        assert times[k] - times[from] + ((b - times[k]) + (times[from] - a)) == b - a;
        EarnedIsPositive(l, (b - times[k]) + (times[from] - a));
      } else {
        WindowBound(l, start, times, from, k, a, b);
      }
    }
  }
}
