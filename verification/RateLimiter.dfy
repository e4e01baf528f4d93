/**
 The per-key sliding-window limiter of cmd/mock-llm-api/main.go. The code keeps
 two slices per key and prunes them with two different rules; the reference
 limiter keeps the whole history and never prunes. Times are nanoseconds; each
 reading of the clock is a parameter.
 */
module RateLimiter {
  type Key = string

  const MILLISECOND: int := 1_000_000
  const SECOND: int := 1_000_000_000
  const MINUTE: int := 60_000_000_000

  datatype Entry = Entry(at: int, tokens: nat)

  // ---- the reference limiter: nothing is ever forgotten ----

  /** The admitted requests of `h` in the half-open window `(t - 60s, t]`. */
  function Window60(h: seq<Entry>, t: int): seq<Entry> {
    if h == [] then []
    else
      var e := h[|h| - 1];
      Window60(h[..|h| - 1], t) + if t - MINUTE < e.at <= t then [e] else []
  }

  function Total(h: seq<Entry>): nat {
    if h == [] then 0 else Total(h[..|h| - 1]) + h[|h| - 1].tokens
  }

  datatype Verdict = Admit | RejectRpm(oldest: int) | RejectTpm

  datatype Limits = Limits(rpm: nat, tpm: int)

  function Judge(lim: Limits, h: seq<Entry>, now: int, tokens: nat): Verdict
    requires lim.rpm >= 1
  {
    var w := Window60(h, now);
    if |w| >= lim.rpm then RejectRpm(w[0].at)
    else if lim.tpm > 0 && Total(w) + tokens > lim.tpm then RejectTpm
    else Admit
  }

  function Record(lim: Limits, h: seq<Entry>, now: int, tokens: nat): seq<Entry>
    requires lim.rpm >= 1
  {
    if Judge(lim, h, now, tokens).Admit? then h + [Entry(now, tokens)] else h
  }

  /** One call on the limiter: a completion request, a stats query or the debug endpoint. */
  datatype Op =
    | Check(key: Key, now: int, later: int, tokens: nat)
    | Stats(key: Key, now: int)
    | Debug(now: int, later: int)

  function Start(op: Op): int { op.now }

  function End(op: Op): int { if op.Stats? then op.now else op.later }

  /** The clock never runs backwards, within a call or between calls. */
  predicate Chronological(ops: seq<Op>) {
    && (forall i :: 0 <= i < |ops| ==> Start(ops[i]) <= End(ops[i]))
    && (forall i, j :: 0 <= i < j < |ops| ==> End(ops[i]) <= Start(ops[j]))
  }

  /** Everything admitted for `key` in the course of `ops`. */
  function History(lim: Limits, ops: seq<Op>, key: Key): seq<Entry>
    requires lim.rpm >= 1
  {
    if ops == [] then []
    else
      var h, op := History(lim, ops[..|ops| - 1], key), ops[|ops| - 1];
      if op.Check? && op.key == key then Record(lim, h, op.now, op.tokens) else h
  }

  predicate Sorted(h: seq<Entry>) { forall i, j :: 0 <= i < j < |h| ==> h[i].at <= h[j].at }

  predicate UpTo(h: seq<Entry>, clock: int) { forall i :: 0 <= i < |h| ==> h[i].at <= clock }

  lemma {:induction false} HistorySorted(lim: Limits, ops: seq<Op>, key: Key)
    requires lim.rpm >= 1 && Chronological(ops)
    ensures var h := History(lim, ops, key); Sorted(h) && (ops != [] ==> UpTo(h, End(ops[|ops| - 1]))) && (ops == [] ==> h == [])
  {
    if ops != [] {
      var front := ops[..|ops| - 1];
      HistorySorted(lim, front, key);
      if front != [] { assert End(front[|front| - 1]) <= Start(ops[|ops| - 1]); }
    }
  }

  /** A later window of the same sorted history holds no more requests and no more tokens. */
  lemma {:induction false} LaterWindow(h: seq<Entry>, now: int, t: int)
    requires UpTo(h, now) && now <= t
    ensures |Window60(h, t)| <= |Window60(h, now)| && Total(Window60(h, t)) <= Total(Window60(h, now))
  {
    if h != [] {
      LaterWindow(h[..|h| - 1], now, t);
      TotalSnoc(Window60(h[..|h| - 1], t), h[|h| - 1]);
      TotalSnoc(Window60(h[..|h| - 1], now), h[|h| - 1]);
      assert forall s: seq<Entry> {:trigger s + []} :: s + [] == s;
    }
  }

  lemma TotalSnoc(h: seq<Entry>, e: Entry)
    ensures Total(h + [e]) == Total(h) + e.tokens
  {
    assert (h + [e])[..|h|] == h;
  }

  /** The total adds up over parts. */
  lemma {:induction false} TotalAppend(g: seq<Entry>, h: seq<Entry>)
    ensures Total(g + h) == Total(g) + Total(h)
    ensures |h| == 1 ==> Total(h) == h[0].tokens
    decreases |h|
  {
    if h == [] {
      assert g + h == g;
    } else {
      var front, e := h[..|h| - 1], h[|h| - 1];
      TotalAppend(g, front);
      TotalSnoc(g + front, e);
      assert g + h == g + front + [e];
    }
  }

  /**
   Safety over whole runs: however the calls are interleaved, every window of
   sixty seconds holds at most `rpm` admitted requests of a key and, when a token
   limit is set, at most `tpm` of its tokens.
   */
  lemma {:induction false} SlidingWindowSafety(lim: Limits, ops: seq<Op>, key: Key, t: int)
    requires lim.rpm >= 1 && Chronological(ops)
    ensures var w := Window60(History(lim, ops, key), t);
            |w| <= lim.rpm && (lim.tpm > 0 ==> Total(w) <= lim.tpm)
  {
    if ops != [] {
      var op := ops[|ops| - 1];
      var h := History(lim, ops[..|ops| - 1], key);
      SlidingWindowSafety(lim, ops[..|ops| - 1], key, t);
      if op.Check? && op.key == key && Judge(lim, h, op.now, op.tokens).Admit? {
        var e := Entry(op.now, op.tokens);
        assert (h + [e])[..|h|] == h;
        assert Window60(h, t) + [] == Window60(h, t);
        if op.now <= t {
          HistorySorted(lim, ops, key);
          assert UpTo(h, op.now) by {
            assert forall i :: 0 <= i < |h| ==> (h + [e])[i] == h[i] && (h + [e])[i].at <= (h + [e])[|h|].at;
          }
          LaterWindow(h, op.now, t);
          TotalSnoc(Window60(h, t), e);
        }
      }
    }
  }

  // ---- the retry hint ----

  /** Go's integer division: truncation towards zero. */
  function TruncDiv(a: int, b: int): int
    requires b > 0
  {
    if a >= 0 then a / b else -((-a) / b)
  }

  function MsUntil(deadline: int, later: int): int { TruncDiv(deadline - later, MILLISECOND) }

  /** The Retry-After header computed from the milliseconds `check` returns. */
  function RetrySeconds(ms: int): int { TruncDiv(ms, 1000) + 1 }

  /** `ms` is `d` nanoseconds in whole milliseconds, the rest cut off towards zero. */
  predicate Milliseconds(d: int, ms: int) {
    if d >= 0 then ms * 1_000_000 <= d < (ms + 1) * 1_000_000 else (ms - 1) * 1_000_000 < d <= ms * 1_000_000
  }

  lemma MsUntilIs(deadline: int, later: int)
    ensures Milliseconds(deadline - later, MsUntil(deadline, later))
  {
    var d := deadline - later;
    if d >= 0 {
      assert d == MILLISECOND * (d / MILLISECOND) + d % MILLISECOND;
    } else {
      assert -d == MILLISECOND * (-d / MILLISECOND) + -d % MILLISECOND;
    }
  }

  /**
   Waiting the seconds emitted for `ms` always reaches the deadline and overshoots
   it by a second at most while time remains.
   */
  lemma RetryAfterSuffices(deadline: int, later: int, ms: int)
    requires Milliseconds(deadline - later, ms)
    ensures var wait := RetrySeconds(ms) * 1_000_000_000;
            later + wait >= deadline && (later < deadline ==> later + wait <= deadline + 1_000_000_000)
  {
    if ms >= 0 {
      assert ms == 1000 * (ms / 1000) + ms % 1000;
    } else {
      assert -ms == 1000 * (-ms / 1000) + -ms % 1000;
    }
  }

  lemma {:induction false} WindowUnchanged(h: seq<Entry>, oldest: int, now: int, u: int)
    requires UpTo(h, now) && now <= u < oldest + MINUTE
    requires forall i :: 0 <= i < |Window60(h, now)| ==> oldest <= Window60(h, now)[i].at
    ensures Window60(h, u) == Window60(h, now)
  {
    if h != [] {
      var front, e := h[..|h| - 1], h[|h| - 1];
      if now - MINUTE < e.at { assert Window60(h, now)[|Window60(front, now)|] == e; }
      assert forall i :: 0 <= i < |Window60(front, now)| ==> Window60(front, now)[i] == Window60(h, now)[i];
      WindowUnchanged(front, oldest, now, u);
    }
  }

  lemma {:induction false} WindowSorted(h: seq<Entry>, t: int)
    requires Sorted(h)
    ensures Sorted(Window60(h, t)) && forall i :: 0 <= i < |Window60(h, t)| ==> t - MINUTE < Window60(h, t)[i].at <= t
    ensures h != [] ==> UpTo(Window60(h, t), h[|h| - 1].at)
  {
    if h != [] {
      WindowSorted(h[..|h| - 1], t);
    }
  }

  /** While the window that is full at `now` has not lost its oldest request, nothing is recorded. */
  lemma FullWindowRefuses(lim: Limits, h: seq<Entry>, now: int, u: int, tokens: nat)
    requires lim.rpm >= 1 && Sorted(h) && UpTo(h, now)
    requires var w := Window60(h, now); |w| >= lim.rpm && now <= u < w[0].at + MINUTE
    ensures Record(lim, h, u, tokens) == h
  {
    WindowSorted(h, now);
    WindowUnchanged(h, Window60(h, now)[0].at, now, u);
    hide Window60;
  }

  lemma PrefixOf(before: seq<Op>, more: seq<Op>)
    requires more != [] && Chronological(before + more)
    ensures Chronological(before) && (before + more)[..|before + more| - 1] == before + more[..|more| - 1]
    ensures Chronological(before + more[..|more| - 1])
  {
    var all, front := before + more, before + more[..|more| - 1];
    assert forall i :: 0 <= i < |front| ==> front[i] == all[i];
    assert forall i :: 0 <= i < |before| ==> before[i] == all[i];
    assert all[..|all| - 1] == front;
  }

  /** Until the oldest request of a full window expires, no call for the key is admitted, however many are made. */
  lemma {:induction false} NoEarlyAdmission(lim: Limits, before: seq<Op>, more: seq<Op>, key: Key, now: int)
    requires lim.rpm >= 1 && Chronological(before + more)
    requires before != [] && End(before[|before| - 1]) <= now && (forall i :: 0 <= i < |more| ==> now <= Start(more[i]))
    requires var w := Window60(History(lim, before, key), now);
             |w| >= lim.rpm
             && forall i :: 0 <= i < |more| && more[i].Check? && more[i].key == key ==> Start(more[i]) < w[0].at + MINUTE
    ensures History(lim, before + more, key) == History(lim, before, key)
    decreases |more|
  {
    if more == [] {
      assert before + more == before;
    } else {
      var front, op := more[..|more| - 1], more[|more| - 1];
      PrefixOf(before, more);
      HistorySorted(lim, before, key);
      assert (before + more)[|before + more| - 1] == op;
      hide Window60, Chronological, Sorted, Record;
      NoEarlyAdmission(lim, before, front, key, now);
      if op.Check? && op.key == key { FullWindowRefuses(lim, History(lim, before, key), now, op.now, op.tokens); }
    }
  }

  lemma {:induction false} OldestExpires(h: seq<Entry>, now: int, u: int)
    requires Sorted(h) && UpTo(h, now) && now <= u
    requires Window60(h, now) != [] && Window60(h, now)[0].at + MINUTE <= u
    ensures |Window60(h, u)| < |Window60(h, now)|
  {
    var front, e := h[..|h| - 1], h[|h| - 1];
    if Window60(front, now) == [] {
      LaterWindow(front, now, u);
    } else {
      assert Window60(h, now)[0] == Window60(front, now)[0];
      OldestExpires(front, now, u);
    }
  }

  /** The first attempt at or after the oldest request's expiry passes the request check. */
  lemma RetryPassesRpm(lim: Limits, ops: seq<Op>, key: Key, now: int, u: int, tokens: nat)
    requires lim.rpm >= 1 && Chronological(ops) && ops != [] && End(ops[|ops| - 1]) <= now <= u
    requires var v := Judge(lim, History(lim, ops, key), now, tokens); v.RejectRpm? && v.oldest + MINUTE <= u
    ensures !Judge(lim, History(lim, ops, key), u, tokens).RejectRpm?
  {
    var h := History(lim, ops, key);
    HistorySorted(lim, ops, key);
    SlidingWindowSafety(lim, ops, key, now);
    OldestExpires(h, now, u);
  }

  /**
   The whole hint. After a refusal by the request limit take the next call of the
   key that is not before the oldest request's expiry, or any one before: it
   passes the request check if and only if the expiry has come. Waiting for the
   seconds of the Retry-After header is enough.
   */
  lemma RetryHint(lim: Limits, ops: seq<Op>, key: Key, i: nat, j: nat, ms: int)
    requires lim.rpm >= 1 && Chronological(ops) && i < j < |ops| && ops[i].Check? && ops[i].key == key && ops[j].Check?
    requires VerdictOf(lim, ops, i).RejectRpm? && ops[j].key == key
    requires forall m :: i < m < j && ops[m].Check? && ops[m].key == key ==> Start(ops[m]) < VerdictOf(lim, ops, i).oldest + MINUTE
    requires Milliseconds(VerdictOf(lim, ops, i).oldest + MINUTE - ops[i].later, ms)
    ensures var expiry := VerdictOf(lim, ops, i).oldest + MINUTE;
            && (!VerdictOf(lim, ops, j).RejectRpm? <==> Start(ops[j]) >= expiry)
            && (Start(ops[j]) >= ops[i].later + RetrySeconds(ms) * 1_000_000_000 ==> Start(ops[j]) >= expiry)
  {
    var h, now, u := History(lim, ops[..i], key), ops[i].now, Start(ops[j]);
    var oldest := VerdictOf(lim, ops, i).oldest;
    RetryAfterSuffices(oldest + MINUTE, ops[i].later, ms);
    RefusedMeanwhile(lim, ops, key, i, j);
    WindowOldest(lim, h, now, ops[i].tokens);
    ChronologicalPrefix(ops, i);
    HistorySorted(lim, ops[..i], key);
    assert UpTo(h, now) && now <= u;
    SlidingWindowSafety(lim, ops[..i], key, now);
    hide History, Chronological, VerdictOf;
    WindowSorted(h, now);
    if u < oldest + MINUTE {
      WindowUnchanged(h, oldest, now, u);
    } else {
      OldestExpires(h, now, u);
    }
    assert VerdictOf(lim, ops, j) == Judge(lim, h, u, ops[j].tokens) by { VerdictIs(lim, ops, j); }
  }

  lemma VerdictIs(lim: Limits, ops: seq<Op>, j: nat)
    requires lim.rpm >= 1 && j < |ops| && ops[j].Check?
    ensures VerdictOf(lim, ops, j) == Judge(lim, History(lim, ops[..j], ops[j].key), Start(ops[j]), ops[j].tokens)
  {
  }

  lemma ChronologicalPrefix(ops: seq<Op>, i: nat)
    requires Chronological(ops) && i <= |ops|
    ensures Chronological(ops[..i]) && (0 < i < |ops| ==> End(ops[..i][i - 1]) <= Start(ops[i]))
  {
    assert forall m :: 0 <= m < i ==> ops[..i][m] == ops[m];
  }

  /** Nothing of the key is admitted from the refusal up to the call that is awaited. */
  lemma RefusedMeanwhile(lim: Limits, ops: seq<Op>, key: Key, i: nat, j: nat)
    requires lim.rpm >= 1 && Chronological(ops) && i < j < |ops| && ops[i].Check? && ops[i].key == key
    requires VerdictOf(lim, ops, i).RejectRpm?
    requires forall m :: i < m < j && ops[m].Check? && ops[m].key == key ==> Start(ops[m]) < VerdictOf(lim, ops, i).oldest + MINUTE
    ensures History(lim, ops[..j], key) == History(lim, ops[..i], key) && i > 0 && ops[i].now <= Start(ops[j])
  {
    var before, more, now := ops[..i], ops[i..j], ops[i].now;
    var h := History(lim, before, key);
    WindowOldest(lim, h, now, ops[i].tokens);
    assert before == [] ==> Window60(h, now) == [];
    ChronologicalPrefix(ops, i);
    ChronologicalPrefix(ops, j);
    MoreCalls(ops, i, j);
    HistorySorted(lim, before, key);
    WindowSorted(h, now);
    hide History, Window60, VerdictOf, Judge, Chronological, Sorted, UpTo;
    NoEarlyAdmission(lim, before, more, key, now);
  }

  /** The calls from the `i`-th on start no earlier than it does. */
  lemma MoreCalls(ops: seq<Op>, i: nat, j: nat)
    requires Chronological(ops) && i < j < |ops|
    ensures ops[..i] + ops[i..j] == ops[..j] && Start(ops[i]) <= Start(ops[j])
    ensures forall m :: 0 <= m < |ops[i..j]| ==> Start(ops[i]) <= Start(ops[i..j][m]) && ops[i..j][m] == ops[i + m]
  {
    forall m | 0 <= m < |ops[i..j]| ensures Start(ops[i]) <= Start(ops[i..j][m]) && ops[i..j][m] == ops[i + m] {
      if m > 0 { assert End(ops[i]) <= Start(ops[i + m]); }
    }
    assert End(ops[i]) <= Start(ops[j]);
  }

  /** The verdict on the `i`-th call of a run. */
  function VerdictOf(lim: Limits, ops: seq<Op>, i: nat): Verdict
    requires lim.rpm >= 1 && i < |ops| && ops[i].Check?
  {
    Judge(lim, History(lim, ops[..i], ops[i].key), ops[i].now, ops[i].tokens)
  }

  lemma WindowOldest(lim: Limits, h: seq<Entry>, now: int, tokens: nat)
    requires lim.rpm >= 1 && Judge(lim, h, now, tokens).RejectRpm?
    ensures var w := Window60(h, now); |w| >= lim.rpm && Judge(lim, h, now, tokens).oldest == w[0].at
  {
  }

  /** Four calls of a key: admitted, refused, admitted when the first has expired, and after the time the refused one was told. */
  function Overtaken(key: Key): (ops: seq<Op>)
    ensures |ops| == 4
  {
    [Check(key, 0, 0, 0), Check(key, MINUTE - 1, MINUTE - 1, 0), Check(key, MINUTE, MINUTE, 0),
     Check(key, MINUTE + SECOND, MINUTE + SECOND, 0)]
  }

  /** The entries of the four calls: the first and the third are recorded. */
  lemma OvertakenHistory(key: Key)
    ensures var lim, ops, first, third := Limits(1, 0), Overtaken(key), Entry(0, 0), Entry(MINUTE, 0);
            && History(lim, ops[..1], key) == [] + [first] && History(lim, ops[..2], key) == [] + [first]
            && History(lim, ops[..3], key) == [] + [first] + [third]
  {
    hide History, Window60, Total;
    var lim, ops, first := Limits(1, 0), Overtaken(key), Entry(0, 0);
    EmptyHistory(lim);
    assert ops[..0] == [];
    WindowSnoc([], first, MINUTE - 1);
    WindowSnoc([], first, MINUTE);
    EmptyWindow();
    HistoryStep(lim, ops, 0, key);
    HistoryStep(lim, ops, 1, key);
    HistoryStep(lim, ops, 2, key);
  }

  lemma EmptyWindow()
    ensures forall t :: Window60([], t) == []
  {
  }

  /** A caller that waits as told can still be refused: another call of the key may have taken the free place. */
  lemma RetryCanBeOvertaken(key: Key)
    ensures var lim, ops := Limits(1, 0), Overtaken(key);
            && Chronological(ops) && VerdictOf(lim, ops, 1) == RejectRpm(0) && VerdictOf(lim, ops, 2).Admit?
            && Milliseconds(MINUTE - ops[1].later, 0) && Start(ops[3]) >= ops[1].later + RetrySeconds(0) * 1_000_000_000
            && VerdictOf(lim, ops, 3).RejectRpm?
  {
    hide History, Window60, Total;
    var lim, ops, first, third := Limits(1, 0), Overtaken(key), Entry(0, 0), Entry(MINUTE, 0);
    OvertakenHistory(key);
    EmptyWindow();
    WindowSnoc([], first, MINUTE - 1);
    WindowSnoc([], first, MINUTE);
    WindowSnoc([] + [first], third, MINUTE + SECOND);
  }

  lemma NoTokens()
    ensures Total([]) == 0
  {
  }

  lemma WindowSnoc(h: seq<Entry>, e: Entry, t: int)
    ensures Window60(h + [e], t) == Window60(h, t) + if t - MINUTE < e.at <= t then [e] else []
  {
    assert (h + [e])[..|h|] == h;
  }

  // ---- the limiter as written: two slices, pruned differently ----

  class Window {
    var requests: seq<int>
    var tokens: seq<nat>

    constructor ()
      ensures requests == [] && tokens == []
    {
      requests, tokens := [], [];
    }
  }

  function Times(h: seq<Entry>): seq<int> { seq(|h|, i requires 0 <= i < |h| => h[i].at) }

  function Tokens(h: seq<Entry>): seq<nat> { seq(|h|, i requires 0 <= i < |h| => h[i].tokens) }

  /**
   How the two slices stand for a history: each is a suffix of it, the tokens
   possibly a longer one, and every request that was pruned has expired.
   */
  ghost predicate Tracks(requests: seq<int>, tokens: seq<nat>, h: seq<Entry>, clock: int) {
    && Sorted(h) && UpTo(h, clock)
    && |requests| <= |tokens| <= |h|
    && requests == Times(h[|h| - |requests|..])
    && tokens == Tokens(h[|h| - |tokens|..])
    && forall i :: 0 <= i < |h| - |requests| ==> h[i].at <= clock - MINUTE
  }

  /** The elements of `times` after `cutoff`, in order. */
  function After(times: seq<int>, cutoff: int): seq<int> {
    if times == [] then []
    else After(times[..|times| - 1], cutoff)
         + if times[|times| - 1] > cutoff then [times[|times| - 1]] else []
  }

  /** The filter that reuses the slice it reads: `out` is read at `j` after being written at `i <= j`. */
  method PruneTime(times: seq<int>, cutoff: int) returns (r: seq<int>)
    ensures r == After(times, cutoff)
  {
    var out, i := times, 0;
    for j := 0 to |times|
      invariant 0 <= i <= j && |out| == |times|
      invariant out[..i] == After(times[..j], cutoff)
      invariant out[j..] == times[j..]
    {
      var t := out[j];
      assert t == out[j..][0] == times[j];
      assert times[..j + 1][..j] == times[..j];
      if t > cutoff {
        out := out[i := t];
        i := i + 1;
      }
    }
    r := out[..i];
    assert times[..|times|] == times;
  }

  /** Realigns by length alone: the surplus is dropped from the front. */
  function PruneTokens(requests: seq<int>, tokens: seq<nat>): seq<nat> {
    if |tokens| > |requests| then tokens[|tokens| - |requests|..] else tokens
  }

  lemma {:induction false} AllExpired(h: seq<Entry>, now: int)
    requires forall i :: 0 <= i < |h| ==> h[i].at <= now - MINUTE
    ensures Window60(h, now) == []
  {
    if h != [] { AllExpired(h[..|h| - 1], now); }
  }

  lemma SuffixSnoc(h: seq<Entry>, w: seq<Entry>)
    requires h != [] && |w| < |h| && w == h[..|h| - 1][|h| - 1 - |w|..]
    ensures w + [h[|h| - 1]] == h[|h| - 1 - |w|..]
  {
  }

  /** On a sorted history the window is a suffix. */
  lemma {:induction false} WindowIsSuffix(h: seq<Entry>, now: int)
    requires Sorted(h) && UpTo(h, now)
    ensures var w := Window60(h, now);
            && |w| <= |h| && w == h[|h| - |w|..]
            && forall i :: 0 <= i < |h| - |w| ==> h[i].at <= now - MINUTE
  {
    if h != [] {
      var front, e := h[..|h| - 1], h[|h| - 1];
      if e.at <= now - MINUTE {
        AllExpired(h, now);
      } else {
        WindowIsSuffix(front, now);
        SuffixSnoc(h, Window60(front, now));
        assert Window60(h, now) == Window60(front, now) + [e];
        hide Window60;
        assert forall i :: 0 <= i < |front| ==> front[i] == h[i];
      }
    }
  }

  lemma {:induction false} AfterOfSuffix(h: seq<Entry>, p: nat, q: nat, cutoff: int)
    requires p <= q <= |h|
    requires (forall i :: p <= i < q ==> h[i].at <= cutoff) && (forall i :: q <= i < |h| ==> h[i].at > cutoff)
    ensures After(Times(h[p..]), cutoff) == Times(h[q..])
  {
    if p < |h| {
      var front, e := h[..|h| - 1], h[|h| - 1];
      var s := Times(h[p..]);
      assert s[..|s| - 1] == Times(front[p..]) && s[|s| - 1] == e.at;
      if q == |h| {
        AfterOfSuffix(front, p, q - 1, cutoff);
      } else {
        AfterOfSuffix(front, p, q, cutoff);
        assert Times(h[q..]) == Times(front[q..]) + [e.at];
      }
    }
  }

  lemma PruneTimeIsWindow(h: seq<Entry>, p: nat, now: int)
    requires Sorted(h) && UpTo(h, now) && p <= |h| && forall i :: 0 <= i < p ==> h[i].at <= now - MINUTE
    ensures var w := Window60(h, now);
            p <= |h| - |w| && After(Times(h[p..]), now - MINUTE) == Times(w)
  {
    hide Window60, After, Times;
    var w := Window60(h, now);
    WindowIsSuffix(h, now);
    WindowSorted(h, now);
    var q := |h| - |w|;
    assert q < |h| ==> h[q] == w[0];
    forall i | q <= i < |h| ensures h[i].at > now - MINUTE { assert h[i] == w[i - q]; }
    AfterOfSuffix(h, p, q, now - MINUTE);
  }

  lemma PruneTokensIsWindow(tokens: seq<nat>, h: seq<Entry>, w: seq<Entry>)
    requires |w| <= |tokens| <= |h| && tokens == Tokens(h[|h| - |tokens|..]) && w == h[|h| - |w|..]
    ensures PruneTokens(Times(w), tokens) == Tokens(w)
  {
  }

  lemma TokensLength(w: seq<Entry>)
    ensures |Tokens(w)| == |w|
  {
  }

  lemma SuffixTracks(tokens: seq<nat>, h: seq<Entry>, w: seq<Entry>, now: int)
    requires Sorted(h) && UpTo(h, now) && |w| <= |tokens| <= |h| && w == h[|h| - |w|..]
    requires tokens == Tokens(h[|h| - |tokens|..]) && forall i :: 0 <= i < |h| - |w| ==> h[i].at <= now - MINUTE
    ensures Tracks(Times(w), tokens, h, now)
  {
  }

  /** Pruning both slices leaves exactly the window of the full history, whatever the slices still held. */
  lemma PruneIsWindow(requests: seq<int>, tokens: seq<nat>, h: seq<Entry>, clock: int, now: int)
    requires Tracks(requests, tokens, h, clock) && clock <= now
    ensures var w := Window60(h, now);
            && After(requests, now - MINUTE) == Times(w) && PruneTokens(Times(w), tokens) == Tokens(w)
            && Tracks(Times(w), tokens, h, now) && Tracks(Times(w), Tokens(w), h, now)
  {
    var w := Window60(h, now);
    var p, q := |h| - |requests|, |h| - |tokens|;
    assert q <= p && UpTo(h, now) && requests == Times(h[p..]) && tokens == Tokens(h[q..]);
    hide Tracks, Times, Tokens;
    PruneTimeIsWindow(h, p, now);
    WindowIsSuffix(h, now);
    PruneTokensIsWindow(tokens, h, w);
    SuffixTracks(tokens, h, w, now);
    TokensLength(w);
    SuffixTracks(Tokens(w), h, w, now);
  }

  /** Appending to both pruned slices records an admitted request. */
  lemma TracksAppend(requests: seq<int>, tokens: seq<nat>, h: seq<Entry>, now: int, tk: nat)
    requires Tracks(requests, tokens, h, now) && |requests| == |tokens|
    ensures Tracks(requests + [now], tokens + [tk], h + [Entry(now, tk)], now)
  {
    var h', p := h + [Entry(now, tk)], |h| - |requests|;
    assert h'[p..] == h[p..] + [Entry(now, tk)];
    assert Times(h'[p..]) == Times(h[p..]) + [now];
    assert Tokens(h'[p..]) == Tokens(h[p..]) + [tk];
  }

  lemma TracksEmpty(clock: int)
    ensures Tracks([], [], [], clock)
  {
  }

  lemma TracksLater(requests: seq<int>, tokens: seq<nat>, h: seq<Entry>, clock: int, later: int)
    requires Tracks(requests, tokens, h, clock) && clock <= later
    ensures Tracks(requests, tokens, h, later)
  {
  }

  /** A request admitted now belongs to the window of now. */
  lemma WindowAppend(h: seq<Entry>, now: int, tk: nat)
    ensures Tokens(Window60(h + [Entry(now, tk)], now)) == Tokens(Window60(h, now)) + [tk]
  {
    WindowSnoc(h, Entry(now, tk), now);
    var w := Window60(h, now);
    assert Window60(h + [Entry(now, tk)], now) == w + [Entry(now, tk)];
    hide Window60;
  }

  /** All that a key was admitted, and when it was last checked or asked for its stats. */
  datatype Book = Book(admitted: seq<Entry>, pruned: int)

  /** The slices stand for the history, and the tokens are those of the window of the last time both were pruned. */
  ghost predicate Keeps(requests: seq<int>, tokens: seq<nat>, book: Book, clock: int) {
    Tracks(requests, tokens, book.admitted, clock) && tokens == Tokens(Window60(book.admitted, book.pruned))
  }

  lemma KeepsEmpty(clock: int)
    ensures Keeps([], [], Book([], clock), clock)
  {
    TracksEmpty(clock);
    EmptyWindow();
  }

  lemma KeepsLater(requests: seq<int>, tokens: seq<nat>, book: Book, clock: int, later: int)
    requires Keeps(requests, tokens, book, clock) && clock <= later
    ensures Keeps(requests, tokens, book, later)
  {
    hide Window60;
  }

  /** Pruning both slices, or the requests alone. */
  lemma KeepsPruned(requests: seq<int>, tokens: seq<nat>, book: Book, clock: int, now: int)
    requires Keeps(requests, tokens, book, clock) && clock <= now
    ensures var w := Window60(book.admitted, now);
            && After(requests, now - MINUTE) == Times(w) && PruneTokens(Times(w), tokens) == Tokens(w)
            && Keeps(Times(w), tokens, book, now) && Keeps(Times(w), Tokens(w), book.(pruned := now), now)
  {
    PruneIsWindow(requests, tokens, book.admitted, clock, now);
    hide Window60, Tracks;
  }

  lemma KeepsAppend(requests: seq<int>, tokens: seq<nat>, h: seq<Entry>, now: int, tk: nat)
    requires Keeps(requests, tokens, Book(h, now), now) && |requests| == |tokens|
    ensures Keeps(requests + [now], tokens + [tk], Book(h + [Entry(now, tk)], now), now)
  {
    TracksAppend(requests, tokens, h, now, tk);
    WindowAppend(h, now, tk);
    hide Tracks, Window60;
  }

  lemma KeepsTokens(requests: seq<int>, tokens: seq<nat>, book: Book, clock: int)
    requires Keeps(requests, tokens, book, clock)
    ensures tokens == Tokens(Window60(book.admitted, book.pruned))
  {
  }

  function Sum(s: seq<nat>): nat {
    if s == [] then 0 else Sum(s[..|s| - 1]) + s[|s| - 1]
  }

  lemma {:induction false} SumIsTotal(h: seq<Entry>)
    ensures Sum(Tokens(h)) == Total(h)
  {
    if h != [] {
      SumIsTotal(h[..|h| - 1]);
      assert Tokens(h)[..|h| - 1] == Tokens(h[..|h| - 1]);
    }
  }

  method SumTokens(tokens: seq<nat>) returns (total: nat)
    ensures total == Sum(tokens)
  {
    total := 0;
    for i := 0 to |tokens|
      invariant total == Sum(tokens[..i])
    {
      assert tokens[..i + 1][..i] == tokens[..i];
      total := total + tokens[i];
    }
    assert tokens[..|tokens|] == tokens;
  }

  lemma TimesOf(w: seq<Entry>)
    ensures |Times(w)| == |Tokens(w)| == |w| && (w != [] ==> Times(w)[0] == w[0].at)
  {
  }

  /** What a key has been admitted so far; a key never seen has no history. */
  function HistoryIn(books: map<Key, Book>, key: Key): seq<Entry> {
    if key in books then books[key].admitted else []
  }

  lemma HistoryOf(books: map<Key, Book>, key: Key)
    ensures HistoryIn(books, key) == if key in books then books[key].admitted else []
  {
  }

  /**
   What a caller is told by the time `later`. The request is admitted exactly while
   both limits hold for the admitted requests of the last minute; one refused by the
   request limit is told the milliseconds until the oldest of them is a minute old.
   */
  ghost predicate Told(lim: Limits, h: seq<Entry>, now: int, tokens: nat, later: int, allowed: bool, retryAfterMs: int) {
    var w := Window60(h, now);
    && (allowed <==> |w| < lim.rpm && (lim.tpm > 0 ==> Total(w) + tokens <= lim.tpm))
    && (allowed ==> retryAfterMs == 0)
    && (|w| >= lim.rpm ==> w != [] && Milliseconds(w[0].at + 60_000_000_000 - later, retryAfterMs))
    && (|w| < lim.rpm && !allowed ==> retryAfterMs == 30_000)
  }

  lemma TellsRpm(lim: Limits, h: seq<Entry>, now: int, tokens: nat, later: int)
    requires lim.rpm >= 1 && |Window60(h, now)| >= lim.rpm
    ensures Told(lim, h, now, tokens, later, false, MsUntil(Window60(h, now)[0].at + MINUTE, later))
  {
    MsUntilIs(Window60(h, now)[0].at + MINUTE, later);
  }

  lemma TellsRest(lim: Limits, h: seq<Entry>, now: int, tokens: nat, later: int)
    requires |Window60(h, now)| < lim.rpm
    ensures var allowed := lim.tpm > 0 ==> Total(Window60(h, now)) + tokens <= lim.tpm;
            Told(lim, h, now, tokens, later, allowed, if allowed then 0 else 30_000)
  {
  }

  /** The verdict of the limiter that never forgets is what is told. */
  lemma ToldIsVerdict(lim: Limits, h: seq<Entry>, now: int, tokens: nat, later: int, allowed: bool, retryAfterMs: int)
    requires lim.rpm >= 1 && Told(lim, h, now, tokens, later, allowed, retryAfterMs)
    ensures Record(lim, h, now, tokens) == if allowed then h + [Entry(now, tokens)] else h
    ensures match Judge(lim, h, now, tokens)
            case Admit => allowed
            case RejectRpm(oldest) => !allowed && Milliseconds(oldest + MINUTE - later, retryAfterMs)
            case RejectTpm => !allowed && retryAfterMs == 30_000
  {
    hide Milliseconds, Window60, Total;
  }

  /** A request is admitted exactly when both limits still hold with it. */
  lemma AdmitIff(lim: Limits, h: seq<Entry>, now: int, tokens: nat)
    requires lim.rpm >= 1
    ensures Judge(lim, h, now, tokens).Admit? <==>
              var w := Window60(h + [Entry(now, tokens)], now); |w| <= lim.rpm && (lim.tpm > 0 ==> Total(w) <= lim.tpm)
  {
    WindowSnoc(h, Entry(now, tokens), now);
    TotalSnoc(Window60(h, now), Entry(now, tokens));
    hide Window60, Total;
  }

  /** `lo` and `hi` bound the entries of `h` in the minute before `t`. */
  predicate Bounds(h: seq<Entry>, t: int, lo: nat, hi: nat) {
    lo <= hi <= |h| && forall i :: 0 <= i < |h| ==> (lo <= i < hi <==> t - 60_000_000_000 < h[i].at <= t)
  }

  lemma BoundsSnoc(h: seq<Entry>, e: Entry, t: int, lo: nat, hi: nat) returns (lo': nat, hi': nat)
    requires Bounds(h, t, lo, hi) && Sorted(h) && forall i :: 0 <= i < |h| ==> h[i].at <= e.at
    ensures Bounds(h + [e], t, lo', hi') && (h + [e])[lo'..hi'] == h[lo..hi] + if t - MINUTE < e.at <= t then [e] else []
  {
    lo', hi' := lo, hi;
    assert (h + [e])[lo..hi] == h[lo..hi];
    if t - MINUTE < e.at <= t {
      if lo == hi {
        lo' := |h|;
      } else {
        assert h[lo].at <= h[|h| - 1].at <= e.at;
        assert hi == |h|;
      }
      hi' := |h| + 1;
      assert (h + [e])[lo'..hi'] == h[lo'..|h|] + [e];
    }
  }

  /** The window of a history in order of time: its contiguous part within the last sixty seconds. */
  lemma {:induction false} WindowIs(h: seq<Entry>, t: int) returns (lo: nat, hi: nat)
    requires Sorted(h)
    ensures Bounds(h, t, lo, hi) && Window60(h, t) == h[lo..hi]
  {
    lo, hi := 0, 0;
    if h != [] {
      var front, e := h[..|h| - 1], h[|h| - 1];
      WindowSnoc(front, e, t);
      hide Window60, Bounds;
      lo, hi := WindowIs(front, t);
      lo, hi := BoundsSnoc(front, e, t, lo, hi);
      assert front + [e] == h;
    }
  }

  /** The two checks on the pruned slices of a window. */
  method Decide(lim: Limits, requests: seq<int>, tokens: seq<nat>, ghost h: seq<Entry>, tokensUsed: nat, now: int, later: int)
    returns (allowed: bool, retryAfterMs: int)
    requires lim.rpm >= 1 && requests == Times(Window60(h, now)) && tokens == Tokens(Window60(h, now))
    ensures Told(lim, h, now, tokensUsed, later, allowed, retryAfterMs)
  {
    SumIsTotal(Window60(h, now));
    TimesOf(Window60(h, now));
    hide *;
    if |requests| >= lim.rpm {
      TellsRpm(lim, h, now, tokensUsed, later);
      return false, MsUntil(requests[0] + MINUTE, later);
    }
    var totalTokens := SumTokens(tokens);
    TellsRest(lim, h, now, tokensUsed, later);
    if lim.tpm > 0 && totalTokens + tokensUsed > lim.tpm {
      return false, 30_000;
    }
    return true, 0;
  }

  class Limiter {
    const lim: Limits
    var windows: map<Key, Window>

    ghost var books: map<Key, Book>   // of each key seen so far
    ghost var clock: int              // the latest reading of the clock

    ghost predicate Valid()
      reads this, windows.Values
    {
      && lim.rpm >= 1
      && windows.Keys == books.Keys
      && (forall k, k' :: k in windows && k' in windows && k != k' ==> windows[k] != windows[k'])
      && (forall k :: k in windows ==> Keeps(windows[k].requests, windows[k].tokens, books[k], clock))
    }

    constructor (rpm: nat, tpm: int, ghost now: int)
      requires rpm >= 1
      ensures Valid() && lim == Limits(rpm, tpm) && clock == now && books == map[]
      ensures windows == map[]
    {
      lim := Limits(rpm, tpm);
      windows, books, clock := map[], map[], now;
    }

    /** The window of a key, created empty on first use. */
    method WindowFor(apiKey: Key) returns (w: Window)
      requires Valid()
      modifies this
      ensures Valid() && clock == old(clock) && apiKey in windows && w == windows[apiKey]
      ensures fresh(windows.Values - old(windows.Values))
      ensures books == if apiKey in old(books) then old(books) else old(books)[apiKey := Book([], clock)]
    {
      hide Keeps;
      if apiKey !in windows {
        KeepsEmpty(clock);
        var empty := new Window();
        windows := windows[apiKey := empty];
        books := books[apiKey := Book([], clock)];
      }
      w := windows[apiKey];
    }

    /** Prunes the window of a key and moves the clock; the slices now hold exactly the last minute. */
    method PruneWindow(apiKey: Key, now: int)
      requires Valid() && clock <= now && apiKey in windows
      modifies windows[apiKey], this`clock, this`books
      ensures Valid() && clock == now && books == old(books)[apiKey := old(books)[apiKey].(pruned := now)]
      ensures var w := Window60(books[apiKey].admitted, now);
              windows[apiKey].requests == Times(w) && windows[apiKey].tokens == Tokens(w)
    {
      hide Keeps, Window60, Times, Tokens, After, PruneTokens;
      var w := windows[apiKey];
      KeepsPruned(w.requests, w.tokens, books[apiKey], clock, now);
      forall k | k in windows ensures Keeps(windows[k].requests, windows[k].tokens, books[k], now) {
        KeepsLater(windows[k].requests, windows[k].tokens, books[k], clock, now);
      }
      w.requests := PruneTime(w.requests, now - MINUTE);
      w.tokens := PruneTokens(w.requests, w.tokens);
      books := books[apiKey := books[apiKey].(pruned := now)];
      clock := now;
    }

    /** Appends an admitted request to a pruned window. */
    method RecordRequest(apiKey: Key, now: int, tokensUsed: nat)
      requires Valid() && clock == now && apiKey in windows && books[apiKey].pruned == now
      requires |windows[apiKey].requests| == |windows[apiKey].tokens|
      modifies windows[apiKey], this`books
      ensures Valid() && books == old(books)[apiKey := Book(old(books)[apiKey].admitted + [Entry(now, tokensUsed)], now)]
    {
      hide Keeps, Window60, Times, Tokens;
      var w := windows[apiKey];
      ghost var h := books[apiKey].admitted;
      KeepsAppend(w.requests, w.tokens, h, now, tokensUsed);
      w.requests := w.requests + [now];
      w.tokens := w.tokens + [tokensUsed];
      books := books[apiKey := Book(h + [Entry(now, tokensUsed)], now)];
    }

    lemma LimitIsPositive()
      requires Valid()
      ensures lim.rpm >= 1
    {
    }

    /** Decides by the whole history of the key, and records what it admits. */
    method Check(apiKey: Key, tokensUsed: nat, now: int, later: int) returns (allowed: bool, retryAfterMs: int)
      requires Valid() && clock <= now <= later
      modifies this, windows.Values
      ensures Valid() && now <= clock <= later && fresh(windows.Values - old(windows.Values))
      ensures var h := HistoryIn(old(books), apiKey);
              && Told(lim, h, now, tokensUsed, later, allowed, retryAfterMs)
              && books == old(books)[apiKey := Book(if allowed then h + [Entry(now, tokensUsed)] else h, now)]
    {
      hide *;
      ghost var h := HistoryIn(books, apiKey);
      HistoryOf(books, apiKey);
      LimitIsPositive();
      var w := WindowFor(apiKey);
      TimesOf(Window60(h, now));
      assert books[apiKey].admitted == h;
      PruneWindow(apiKey, now);
      assert books[apiKey] == Book(h, now);
      allowed, retryAfterMs := Decide(lim, w.requests, w.tokens, h, tokensUsed, now, later);
      if allowed {
        RecordRequest(apiKey, now, tokensUsed);
      }
    }

    /** Reports the current window exactly, even after the debug endpoint has pruned only one slice. */
    method Stats(apiKey: Key, now: int) returns (rpm: nat, tpm: nat)
      requires Valid() && clock <= now
      modifies this`clock, this`books, windows.Values
      ensures Valid() && old(clock) <= clock <= now
      ensures books == if apiKey in old(books) then old(books)[apiKey := old(books)[apiKey].(pruned := now)] else old(books)
      ensures rpm == |Window60(HistoryIn(books, apiKey), now)| && tpm == Total(Window60(HistoryIn(books, apiKey), now))
    {
      hide Keeps, Window60, Total, Tokens, Sum;
      EmptyWindow();
      NoTokens();
      if apiKey !in windows {
        return 0, 0;
      }
      PruneWindow(apiKey, now);
      SumIsTotal(Window60(books[apiKey].admitted, now));
      tpm := SumTokens(windows[apiKey].tokens);
      rpm := |windows[apiKey].requests|;
    }

    /** Prunes the requests of one window only; its tokens are still those of its last check or stats. */
    method PruneRequests(key: Key, now: int) returns (rpm: nat, tpm: nat)
      requires Valid() && clock <= now && key in windows
      modifies windows[key], this`clock
      ensures Valid() && clock == now && Shows(books[key], now, rpm, tpm)
    {
      hide Keeps, Window60, Total, Sum, Tokens;
      var w := windows[key];
      ghost var h := books[key].admitted;
      KeepsPruned(w.requests, w.tokens, books[key], clock, now);
      KeepsTokens(w.requests, w.tokens, books[key], clock);
      SumIsTotal(Window60(h, books[key].pruned));
      forall k | k in windows ensures Keeps(windows[k].requests, windows[k].tokens, books[k], now) {
        KeepsLater(windows[k].requests, windows[k].tokens, books[k], clock, now);
      }
      w.requests := PruneTime(w.requests, now - MINUTE);
      rpm := |w.requests|;
      tpm := SumTokens(w.tokens);
      clock := now;
    }

    /**
     The debug endpoint: the request slice of every window is pruned, the token
     slice is left alone. The clock is read anew for each window.
     */
    method DebugUsage(now: int, later: int) returns (usage: map<Key, (nat, nat)>)
      requires Valid() && clock <= now <= later
      modifies this`clock, windows.Values
      ensures Valid() && old(clock) <= clock <= later && books == old(books) && usage.Keys == books.Keys
      ensures forall k :: k in usage ==> ShowsWithin(books[k], now, later, usage[k].0, usage[k].1)
    {
      hide Keeps, Window60, Total, Shows, ShowsWithin;
      usage := map[];
      var last := now;
      var keys := windows.Keys;
      while keys != {}
        invariant Valid() && clock <= last && now <= last <= later && keys <= windows.Keys && usage.Keys == windows.Keys - keys
        invariant old(clock) <= clock
        invariant forall k :: k in usage ==> ShowsWithin(books[k], now, later, usage[k].0, usage[k].1)
        decreases keys
      {
        var key :| key in keys;
        var reading: int :| last <= reading <= later;
        var rpm, tpm := PruneRequests(key, reading);
        ShowsThen(books[key], now, reading, later, rpm, tpm);
        last := reading;
        usage := usage[key := (rpm, tpm)];
        keys := keys - {key};
      }
    }
  }

  /**
   What the debug endpoint shows at time `t`: the requests of the last minute, and
   the tokens of the minute before the key was last checked or asked for its stats.
   */
  ghost predicate Shows(book: Book, t: int, rpm: nat, tpm: nat) {
    rpm == |Window60(book.admitted, t)| && tpm == Total(Window60(book.admitted, book.pruned))
  }

  ghost predicate ShowsWithin(book: Book, from: int, to: int, rpm: nat, tpm: nat) {
    exists t :: from <= t <= to && Shows(book, t, rpm, tpm)
  }

  lemma ShowsThen(book: Book, from: int, t: int, to: int, rpm: nat, tpm: nat)
    requires from <= t <= to && Shows(book, t, rpm, tpm)
    ensures ShowsWithin(book, from, to, rpm, tpm)
  {
  }

  // ---- whole runs of the class ----

  datatype Answer = Decision(allowed: bool, retryAfterMs: int) | Usage(rpm: nat, tpm: nat) | Shown(usage: map<Key, (nat, nat)>)

  /** Some completion request has come for the key. */
  ghost predicate Known(ops: seq<Op>, key: Key) { exists i :: 0 <= i < |ops| && ops[i].Check? && ops[i].key == key }

  /** When the key was last checked or asked for its stats. */
  function LastPrune(ops: seq<Op>, key: Key): int {
    if ops == [] then 0
    else
      var op := ops[|ops| - 1];
      if !op.Debug? && op.key == key then op.now else LastPrune(ops[..|ops| - 1], key)
  }

  /**
   `a` is what the limiter that never forgets answers to the `i`-th call of a run;
   the debug endpoint shows the tokens of the last check or stats of a key.
   */
  ghost predicate Answers(lim: Limits, ops: seq<Op>, i: nat, a: Answer)
    requires lim.rpm >= 1 && i < |ops|
  {
    match ops[i]
    case Check(key, now, later, tokens) =>
      a.Decision? && Told(lim, History(lim, ops[..i], key), now, tokens, later, a.allowed, a.retryAfterMs)
    case Stats(key, now) =>
      var w := Window60(History(lim, ops[..i], key), now); a == Usage(|w|, Total(w))
    case Debug(now, later) =>
      a.Shown? && (forall k :: k in a.usage <==> Known(ops[..i], k))
      && forall k :: k in a.usage ==> ShowsWithin(Book(History(lim, ops[..i], k), LastPrune(ops[..i], k)), now, later, a.usage[k].0, a.usage[k].1)
  }

  lemma KnownStep(ops: seq<Op>, i: nat, key: Key)
    requires i < |ops|
    ensures Known(ops[..i + 1], key) <==> Known(ops[..i], key) || (ops[i].Check? && ops[i].key == key)
  {
    if Known(ops[..i], key) {
      var j :| 0 <= j < i && ops[..i][j].Check? && ops[..i][j].key == key;
      assert ops[..i + 1][j] == ops[..i][j];
    }
    if ops[i].Check? && ops[i].key == key { assert ops[..i + 1][i] == ops[i]; }
    if Known(ops[..i + 1], key) {
      var j :| 0 <= j < i + 1 && ops[..i + 1][j].Check? && ops[..i + 1][j].key == key;
      if j < i { assert ops[..i][j] == ops[..i + 1][j]; }
    }
  }

  lemma EmptyHistory(lim: Limits)
    requires lim.rpm >= 1
    ensures forall k :: History(lim, [], k) == []
  {
  }

  lemma HistoryStep(lim: Limits, ops: seq<Op>, i: nat, key: Key)
    requires lim.rpm >= 1 && i < |ops|
    ensures History(lim, ops[..i + 1], key)
         == if ops[i].Check? && ops[i].key == key
            then Record(lim, History(lim, ops[..i], key), ops[i].now, ops[i].tokens) else History(lim, ops[..i], key)
  {
    assert ops[..i + 1][..i] == ops[..i];
  }

  lemma LastPruneStep(ops: seq<Op>, i: nat, key: Key)
    requires i < |ops|
    ensures LastPrune(ops[..i + 1], key) == if !ops[i].Debug? && ops[i].key == key then ops[i].now else LastPrune(ops[..i], key)
  {
    assert ops[..i + 1][..i] == ops[..i];
  }

  /** The limiter's books are those of the first `i` calls. */
  ghost predicate Kept(lim: Limits, ops: seq<Op>, i: nat, books: map<Key, Book>)
    requires lim.rpm >= 1 && i <= |ops|
  {
    && (forall k :: HistoryIn(books, k) == History(lim, ops[..i], k) && (k in books <==> Known(ops[..i], k)))
    && (forall k :: k in books ==> books[k].pruned == LastPrune(ops[..i], k))
  }

  lemma KeptAtFirst(lim: Limits, ops: seq<Op>)
    requires lim.rpm >= 1
    ensures Kept(lim, ops, 0, map[])
  {
    EmptyHistory(lim);
    assert ops[..0] == [];
  }

  /** The books after one more call. */
  lemma KeptStep(lim: Limits, ops: seq<Op>, i: nat, books: map<Key, Book>)
    requires lim.rpm >= 1 && i < |ops| && Kept(lim, ops, i, books)
    ensures match ops[i]
            case Check(key, now, _, tokens) =>
              Kept(lim, ops, i + 1, books[key := Book(Record(lim, HistoryIn(books, key), now, tokens), now)])
            case Stats(key, now) =>
              Kept(lim, ops, i + 1, if key in books then books[key := books[key].(pruned := now)] else books)
            case Debug(_, _) => Kept(lim, ops, i + 1, books)
  {
    hide History, Known, Record, LastPrune;
    forall k
      ensures History(lim, ops[..i + 1], k)
           == if ops[i].Check? && ops[i].key == k then Record(lim, History(lim, ops[..i], k), ops[i].now, ops[i].tokens)
              else History(lim, ops[..i], k)
      ensures Known(ops[..i + 1], k) <==> Known(ops[..i], k) || (ops[i].Check? && ops[i].key == k)
      ensures LastPrune(ops[..i + 1], k) == if !ops[i].Debug? && ops[i].key == k then ops[i].now else LastPrune(ops[..i], k)
    {
      HistoryStep(lim, ops, i, k);
      KnownStep(ops, i, k);
      LastPruneStep(ops, i, k);
    }
  }

  lemma BookOf(lim: Limits, ops: seq<Op>, i: nat, books: map<Key, Book>, key: Key)
    requires lim.rpm >= 1 && i < |ops| && Kept(lim, ops, i, books)
    ensures HistoryIn(books, key) == History(lim, ops[..i], key)
  {
  }

  lemma DebugAnswers(lim: Limits, ops: seq<Op>, i: nat, books: map<Key, Book>, usage: map<Key, (nat, nat)>)
    requires lim.rpm >= 1 && i < |ops| && Kept(lim, ops, i, books) && ops[i].Debug? && usage.Keys == books.Keys
    requires forall k :: k in usage ==> ShowsWithin(books[k], ops[i].now, ops[i].later, usage[k].0, usage[k].1)
    ensures Answers(lim, ops, i, Shown(usage))
  {
    hide ShowsWithin, Known, History, LastPrune;
    assert forall k :: k in usage ==> books[k] == Book(HistoryIn(books, k), LastPrune(ops[..i], k));
  }

  /** Refinement over every run: the pruned, possibly misaligned slices never change an answer. */
  method Serve(rpm: nat, tpm: int, ops: seq<Op>) returns (answers: seq<Answer>)
    requires rpm >= 1 && Chronological(ops)
    ensures |answers| == |ops| && forall i :: 0 <= i < |ops| ==> Answers(Limits(rpm, tpm), ops, i, answers[i])
  {
    hide Window60, Judge, Total, Told, Keeps, History, Record, Limiter.Valid, Kept, ShowsWithin;
    var limiter := new Limiter(rpm, tpm, if ops == [] then 0 else Start(ops[0]));
    KeptAtFirst(limiter.lim, ops);
    answers := [];
    for i := 0 to |ops|
      invariant limiter.Valid() && limiter.lim == Limits(rpm, tpm) && fresh(limiter) && fresh(limiter.windows.Values)
      invariant i < |ops| ==> limiter.clock <= Start(ops[i])
      invariant Kept(limiter.lim, ops, i, limiter.books)
      invariant |answers| == i && forall j :: 0 <= j < i ==> Answers(limiter.lim, ops, j, answers[j])
    {
      KeptStep(limiter.lim, ops, i, limiter.books);
      assert i + 1 < |ops| ==> End(ops[i]) <= Start(ops[i + 1]);
      ghost var books := limiter.books;
      var answer;
      match ops[i] {
        case Check(key, now, later, tokens) =>
          BookOf(limiter.lim, ops, i, books, key);
          var allowed, ms := limiter.Check(key, tokens, now, later);
          ToldIsVerdict(limiter.lim, HistoryIn(books, key), now, tokens, later, allowed, ms);
          answer := Decision(allowed, ms);
        case Stats(key, now) =>
          BookOf(limiter.lim, ops, i, books, key);
          var r, t := limiter.Stats(key, now);
          answer := Usage(r, t);
        case Debug(now, later) =>
          var usage := limiter.DebugUsage(now, later);
          DebugAnswers(limiter.lim, ops, i, books, usage);
          answer := Shown(usage);
      }
      assert Answers(limiter.lim, ops, i, answer);
      answers := answers + [answer];
    }
  }
}
