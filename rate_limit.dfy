/**
  The per-user sliding-window rate limiter, as pure functions over one user's
  stored list of timestamps. The server's table of such lists and the method
  that updates it live in module ChatServer.
 */
module RateLimit {

  /** At most this many messages ... */
  const MAX_MESSAGES: nat := 5
  /** ... within this many seconds. */
  const WINDOW_SECONDS: int := 10

  /** A timestamp `t` still counts at time `now`. */
  predicate InWindow(t: int, now: int) {
    now - t < WINDOW_SECONDS
  }

  /** Timestamps are in non-decreasing order. */
  predicate Sorted(ts: seq<int>) {
    forall i, j :: 0 <= i <= j < |ts| ==> ts[i] <= ts[j]
  }

  /** The stored timestamps that survive pruning at `now`, in their original order. */
  function Kept(ts: seq<int>, now: int): (r: seq<int>)
    ensures |r| <= |ts|
    ensures forall t :: t in r <==> t in ts && InWindow(t, now)
  {
    if ts == [] then []
    else
      var init, last := ts[..|ts| - 1], ts[|ts| - 1];
      assert ts == init + [last];
      if InWindow(last, now) then Kept(init, now) + [last] else Kept(init, now)
  }

  /** The list stored for the user after a call at `now`: pruned, then `now` appended. */
  function Recorded(ts: seq<int>, now: int): (r: seq<int>)
    ensures |r| > 0 && r[|r| - 1] == now
    ensures forall i :: 0 <= i < |r| ==> InWindow(r[i], now)
  {
    Kept(ts, now) + [now]
  }

  /** The verdict of a call at `now` on stored list `ts`. */
  predicate Limited(ts: seq<int>, now: int) {
    |Recorded(ts, now)| > MAX_MESSAGES
  }

  /** Positions of `ts` whose timestamp is still inside the window: an independent count. */
  function WithinIndices(ts: seq<int>, now: int): set<int> {
    set i | 0 <= i < |ts| && InWindow(ts[i], now)
  }

  /** The in-window positions of a list are those of its prefix, plus its last position if that one is in the window. */
  lemma WithinSnoc(ts: seq<int>, now: int)
    requires |ts| > 0
    ensures WithinIndices(ts, now) ==
      WithinIndices(ts[..|ts| - 1], now) + (if InWindow(ts[|ts| - 1], now) then {|ts| - 1} else {})
  {
  }

  lemma {:induction false} KeptCount(ts: seq<int>, now: int)
    ensures |Kept(ts, now)| == |WithinIndices(ts, now)|
  {
    if ts != [] {
      var n := |ts|;
      var init := ts[..n - 1];
      KeptCount(init, now);
      WithinSnoc(ts, now);
      assert n - 1 !in WithinIndices(init, now);
      assert ts == init + [ts[n - 1]];
    }
  }

  /** A call is limited exactly when the timestamps still in the window, plus the new one, exceed the limit. */
  lemma LimitedIffCrowded(ts: seq<int>, now: int)
    ensures Limited(ts, now) <==> |WithinIndices(ts, now)| + 1 > MAX_MESSAGES
  {
    KeptCount(ts, now);
  }

  /** Pruning keeps everything when every timestamp is recent. */
  lemma {:induction false} KeptAll(ts: seq<int>, now: int)
    requires forall i :: 0 <= i < |ts| ==> InWindow(ts[i], now)
    ensures Kept(ts, now) == ts
  {
    if ts != [] {
      KeptAll(ts[..|ts| - 1], now);
    }
  }

  /** Pruning drops everything when every timestamp is stale. */
  lemma {:induction false} KeptNone(ts: seq<int>, now: int)
    requires forall i :: 0 <= i < |ts| ==> !InWindow(ts[i], now)
    ensures Kept(ts, now) == []
  {
    if ts != [] {
      KeptNone(ts[..|ts| - 1], now);
    }
  }

  /** Appending to a list appends to each of its suffixes. */
  lemma SuffixSnoc(init: seq<int>, x: int, k: nat)
    requires k <= |init|
    ensures init[|init| - k..] + [x] == (init + [x])[|init| - k..]
  {
  }

  /** On a list in clock order, pruning removes a prefix: what is kept is a suffix. */
  lemma {:induction false} KeptIsSuffix(ts: seq<int>, now: int)
    requires Sorted(ts)
    ensures Kept(ts, now) == ts[|ts| - |Kept(ts, now)|..]
  {
    if ts != [] {
      var n := |ts|;
      var init := ts[..n - 1];
      assert ts == init + [ts[n - 1]];
      if InWindow(ts[n - 1], now) {
        KeptIsSuffix(init, now);
        SuffixSnoc(init, ts[n - 1], |Kept(init, now)|);
      } else {
        forall i | 0 <= i < n
          ensures !InWindow(ts[i], now)
        {
          assert ts[i] <= ts[n - 1];
        }
        KeptNone(ts, now);
      }
    }
  }

  /**
    Verdicts of successive calls at `times`, starting from stored list `ts`.
    What they are for a burst is stated by BurstVerdicts and BurstAfterQuiet.
   */
  function Verdicts(ts: seq<int>, times: seq<int>): (r: seq<bool>)
    ensures |r| == |times|
    decreases |times|
  {
    if times == [] then []
    else [Limited(ts, times[0])] + Verdicts(Recorded(ts, times[0]), times[1..])
  }

  /** The list stored after successive calls at `times`, starting from `ts`. */
  function History(ts: seq<int>, times: seq<int>): seq<int>
    decreases |times|
  {
    if times == [] then ts
    else History(Recorded(ts, times[0]), times[1..])
  }

  /** Calls in clock order, all within one window of each other. */
  predicate Burst(times: seq<int>) {
    forall i, j :: 0 <= i <= j < |times| ==> 0 <= times[j] - times[i] < WINDOW_SECONDS
  }

  /** Every stored timestamp precedes every call and lies within one window of it. */
  predicate Recent(ts: seq<int>, times: seq<int>) {
    forall i, j :: 0 <= i < |ts| && 0 <= j < |times| ==> 0 <= times[j] - ts[i] < WINDOW_SECONDS
  }

  /** The first call of a burst on recent history prunes nothing, and what remains is again a burst on recent history. */
  lemma BurstStep(ts: seq<int>, times: seq<int>)
    requires Burst(times) && Recent(ts, times) && |times| > 0
    ensures Recorded(ts, times[0]) == ts + [times[0]]
    ensures Burst(times[1..]) && Recent(ts + [times[0]], times[1..])
  {
    var now := times[0];
    KeptAll(ts, now);
    var ts', times' := ts + [now], times[1..];
    forall i, j | 0 <= i < |ts'| && 0 <= j < |times'|
      ensures 0 <= times'[j] - ts'[i] < WINDOW_SECONDS
    {
      assert times'[j] == times[j + 1];
      if i == |ts| {
        assert ts'[i] == times[0];
      } else {
        assert ts'[i] == ts[i];
      }
    }
    forall i, j | 0 <= i <= j < |times'|
      ensures 0 <= times'[j] - times'[i] < WINDOW_SECONDS
    {
      assert times'[j] == times[j + 1] && times'[i] == times[i + 1];
    }
  }

  lemma ShiftHead(a: seq<int>, b: seq<int>)
    requires |b| > 0
    ensures a + [b[0]] + b[1..] == a + b
  {
  }

  /** A burst on top of recent history stores every call, limited or not. */
  lemma {:induction false} BurstStoresAll(ts: seq<int>, times: seq<int>)
    requires Burst(times) && Recent(ts, times)
    ensures History(ts, times) == ts + times
    decreases |times|
  {
    if times != [] {
      var ts', times' := ts + [times[0]], times[1..];
      BurstStep(ts, times);
      assert History(ts, times) == History(ts', times');
      BurstStoresAll(ts', times');
      ShiftHead(ts, times);
    }
  }

  /** In a burst on top of recent history, the j-th call is limited exactly when it brings the count past the limit. */
  lemma {:induction false} BurstVerdicts(ts: seq<int>, times: seq<int>)
    requires Burst(times) && Recent(ts, times)
    ensures forall j :: 0 <= j < |times| ==> (Verdicts(ts, times)[j] <==> |ts| + j + 1 > MAX_MESSAGES)
    decreases |times|
  {
    if times != [] {
      var ts', times' := ts + [times[0]], times[1..];
      BurstStep(ts, times);
      assert Verdicts(ts, times) == [Limited(ts, times[0])] + Verdicts(ts', times');
      BurstVerdicts(ts', times');
      forall j | 0 < j < |times|
        ensures Verdicts(ts, times)[j] <==> |ts| + j + 1 > MAX_MESSAGES
      {
        assert Verdicts(ts, times)[j] == Verdicts(ts', times')[j - 1];
      }
    }
  }

  /**
    A burst after a quiet spell (all stored timestamps stale at the first call):
    the first MAX_MESSAGES calls pass and every later call in the burst is limited.
   */
  lemma BurstAfterQuiet(ts: seq<int>, times: seq<int>)
    requires Burst(times) && |times| > 0
    requires forall i :: 0 <= i < |ts| ==> !InWindow(ts[i], times[0])
    ensures History(ts, times) == times
    ensures forall j :: 0 <= j < |times| ==> (Verdicts(ts, times)[j] <==> j >= MAX_MESSAGES)
  {
    var now := times[0];
    KeptNone(ts, now);
    assert Recorded(ts, now) == [now];
    BurstStep([], times);
    BurstStoresAll([now], times[1..]);
    BurstVerdicts([now], times[1..]);
    assert [now] + times[1..] == times;
    forall j | 0 < j < |times|
      ensures Verdicts(ts, times)[j] <==> j >= MAX_MESSAGES
    {
      assert Verdicts(ts, times)[j] == Verdicts([now], times[1..])[j - 1];
    }
  }
}
