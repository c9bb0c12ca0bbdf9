/** The login throttle: a fixed window of failures per key, its entries removed only when they are
    looked at after they expired. */
module Throttle {
  import opened Model

  /** Seconds, and failures within them. */
  const WINDOW: nat := 600
  const MAX_FAILURES: nat := 5

  /** How many failures a window has seen and when its first one was. */
  datatype Window = Window(count: nat, since: nat)

  type Entries = map<string, Window>

  datatype Call = Blocked(key: string, at: nat) | Failure(key: string, at: nat) | Reset(key: string, at: nat)

  predicate Expired(w: Window, now: nat) {
    now >= w.since + WINDOW
  }

  // ---------------- the throttle ----------------

  /** A failure is counted in its window, or opens one. */
  function Counted(w: Option<Window>, now: nat): Window {
    if w.None? || Expired(w.value, now) then Window(1, now) else w.value.(count := w.value.count + 1)
  }

  function EntryOf(m: Entries, key: string): Option<Window> {
    if key in m then Some(m[key]) else None
  }

  function Next(m: Entries, c: Call): (r: Entries) {
    match c
    case Blocked(key, at) => if key in m && Expired(m[key], at) then m - {key} else m
    case Failure(key, at) => m[key := Counted(EntryOf(m, key), at)]
    case Reset(key, _) => m - {key}
  }

  predicate Answer(m: Entries, key: string, now: nat) {
    key in m && !Expired(m[key], now) && m[key].count >= MAX_FAILURES
  }

  function Run(calls: seq<Call>): (m: Entries) {
    if calls == [] then map[] else Next(Run(calls[..|calls| - 1]), calls[|calls| - 1])
  }

  predicate TimeOrdered(calls: seq<Call>) {
    forall i, j | 0 <= i < j < |calls| :: calls[i].at <= calls[j].at
  }

  // ---------------- what it should answer, from the history alone ----------------

  /** The times of the key's failures since its last reset. */
  function Failures(calls: seq<Call>, key: string): (fs: seq<nat>) {
    if calls == [] then []
    else
      var last := calls[|calls| - 1];
      var before := Failures(calls[..|calls| - 1], key);
      if last.key != key || last.Blocked? then before
      else if last.Reset? then [] else before + [last.at]
  }

  /** A failure opens a window if it is the first, or comes when the window that was open is over. */
  ghost predicate Opens(fs: seq<nat>, j: nat)
    requires j < |fs|
  {
    j == 0 || exists i :: 0 <= i < j && Follows(fs, i, j) && Opens(fs, i)
  }

  /** Window `i` took in every failure up to `j`, which came too late for it. */
  ghost predicate Follows(fs: seq<nat>, i: nat, j: nat)
    requires i < j < |fs|
  {
    fs[j] >= fs[i] + WINDOW && forall m | i < m < j :: fs[m] < fs[i] + WINDOW
  }

  /** A window is open at `now` that its first failure opened, less than the window length ago, and
      that has seen the maximum of failures since. */
  ghost predicate ShouldBlock(fs: seq<nat>, now: nat) {
    exists o :: 0 <= o < |fs| && Opens(fs, o) && now < fs[o] + WINDOW && |fs| - o >= MAX_FAILURES
  }

  ghost predicate Ordered(fs: seq<nat>) {
    forall i, j | 0 <= i < j < |fs| :: fs[i] <= fs[j]
  }

  // ---------------- windows ----------------

  /** The window after the failures, of a throttle that never removes an entry. */
  function Standing(fs: seq<nat>): (w: Option<Window>) {
    if fs == [] then None else Some(Counted(Standing(fs[..|fs| - 1]), fs[|fs| - 1]))
  }

  lemma {:induction false} OpensPrefix(fs: seq<nat>, f: nat, j: nat)
    requires j < |fs|
    ensures Opens(fs + [f], j) <==> Opens(fs, j)
    decreases j
  {
    var gs := fs + [f];
    assert gs[j] == fs[j];
    if j > 0 {
      forall i: nat | 0 <= i < j
        ensures Follows(gs, i, j) <==> Follows(fs, i, j)
        ensures Opens(gs, i) <==> Opens(fs, i)
      {
        OpensPrefix(fs, f, i);
        assert forall m | i <= m <= j :: gs[m] == fs[m];
      }
    }
  }

  /** Windows do not overlap. */
  lemma {:induction false} OpenersApart(fs: seq<nat>, i: nat, j: nat)
    requires Ordered(fs) && i < j < |fs| && Opens(fs, i) && Opens(fs, j)
    ensures fs[j] >= fs[i] + WINDOW
    decreases j
  {
    var p :| 0 <= p < j && Follows(fs, p, j) && Opens(fs, p);
    if i < p {
      assert fs[i] <= fs[p];
    } else if p < i {
      OpenersApart(fs, p, i);
    }
  }

  lemma OpensFirst(fs: seq<nat>)
    requires fs != []
    ensures Opens(fs, 0)
  {
  }

  lemma OpensAfter(fs: seq<nat>, i: nat, j: nat)
    requires i < j < |fs| && Opens(fs, i) && Follows(fs, i, j)
    ensures Opens(fs, j)
  {
  }

  /** `w` began at an opening failure and has taken in all failures since. */
  ghost predicate LastOpened(fs: seq<nat>, w: Window) {
    && 1 <= w.count <= |fs|
    && var o := |fs| - w.count;
       fs[o] == w.since && Opens(fs, o) && forall m | o <= m < |fs| :: fs[m] < fs[o] + WINDOW
  }

  lemma LastOpenedNext(front: seq<nat>, f: nat, w: Window)
    requires LastOpened(front, w)
    ensures LastOpened(front + [f], Counted(Some(w), f))
  {
    hide Opens;
    var fs := front + [f];
    var o := |front| - w.count;
    OpensPrefix(front, f, o);
    assert forall m | o <= m < |front| :: fs[m] == front[m];
    if Expired(w, f) {
      assert Follows(fs, o, |front|);
      OpensAfter(fs, o, |front|);
    }
  }

  /** The standing window is the last one opened. */
  lemma {:induction false} StandingOpens(fs: seq<nat>)
    requires fs != []
    ensures LastOpened(fs, Standing(fs).value)
  {
    hide Opens, LastOpened;
    var n := |fs| - 1;
    var front, f := fs[..n], fs[n];
    assert fs == front + [f];
    if n == 0 {
      OneOpened(f);
      assert Standing(front).None?;
    } else {
      StandingOpens(front);
      LastOpenedNext(front, f, Standing(front).value);
    }
  }

  lemma OneOpened(f: nat)
    ensures LastOpened([f], Window(1, f))
  {
    OpensFirst([f]);
  }

  lemma StandingBlocks(fs: seq<nat>, now: nat)
    requires Ordered(fs) && forall i | 0 <= i < |fs| :: fs[i] <= now
    ensures ShouldBlock(fs, now) <==>
            Standing(fs).Some? && !Expired(Standing(fs).value, now) && Standing(fs).value.count >= MAX_FAILURES
  {
    hide Opens, Standing;
    if fs == [] {
      assert Standing(fs).None? by { StandingNone(); }
    } else {
      StandingSome(fs);
      StandingOpens(fs);
      var o := |fs| - Standing(fs).value.count;
      if ShouldBlock(fs, now) {
        var q :| 0 <= q < |fs| && Opens(fs, q) && now < fs[q] + WINDOW && |fs| - q >= MAX_FAILURES;
        if q < o {
          OpenersApart(fs, q, o);
        } else if o < q {
          OpenersApart(fs, o, q);
        }
      }
    }
  }

  lemma StandingNone()
    ensures Standing([]).None?
  {
  }

  lemma StandingSome(fs: seq<nat>)
    requires fs != []
    ensures Standing(fs).Some?
  {
  }

  // ---------------- lazy removal is unobservable ----------------

  /** The stored entry is the standing window, except that an expired one may be gone. */
  ghost predicate Tracks(m: Entries, key: string, fs: seq<nat>, now: nat) {
    if key in m then Standing(fs) == Some(m[key])
    else Standing(fs).None? || Expired(Standing(fs).value, now)
  }

  ghost predicate Past(calls: seq<Call>, now: nat) {
    forall i | 0 <= i < |calls| :: calls[i].at <= now
  }

  lemma {:induction false} FailuresOrdered(calls: seq<Call>, key: string, now: nat)
    requires TimeOrdered(calls) && Past(calls, now)
    ensures Ordered(Failures(calls, key)) && forall i | 0 <= i < |Failures(calls, key)| :: Failures(calls, key)[i] <= now
  {
    if calls != [] {
      FailuresOrdered(calls[..|calls| - 1], key, calls[|calls| - 1].at);
    }
  }

  lemma StandingNext(fs: seq<nat>, f: nat)
    ensures Standing(fs + [f]) == Some(Counted(Standing(fs), f))
  {
    assert (fs + [f])[..|fs|] == fs;
  }

  lemma {:induction false} RunTracks(calls: seq<Call>, key: string, now: nat)
    requires TimeOrdered(calls) && Past(calls, now)
    ensures Tracks(Run(calls), key, Failures(calls, key), now)
  {
    hide Standing;
    if calls == [] {
      StandingNone();
    } else {
      var front, c := calls[..|calls| - 1], calls[|calls| - 1];
      RunTracks(front, key, c.at);
      var fs := Failures(front, key);
      if c.key == key && c.Failure? {
        StandingNext(fs, c.at);
      } else if c.key == key && c.Reset? {
        StandingNone();
      }
    }
  }

  /** For every time-ordered history of calls, of any keys, the throttle answers `blocked` exactly when
      the window the key's failures opened since its last reset is still open and full. When entries
      are removed cannot be told from the answers. */
  lemma BlockedExact(calls: seq<Call>, key: string, now: nat)
    requires TimeOrdered(calls) && Past(calls, now)
    ensures Answer(Run(calls), key, now) <==> ShouldBlock(Failures(calls, key), now)
  {
    hide Standing, ShouldBlock, Run, Failures;
    RunTracks(calls, key, now);
    FailuresOrdered(calls, key, now);
    StandingBlocks(Failures(calls, key), now);
  }

  /** Looking does not matter: leaving out every `blocked` call of the history changes no answer. */
  lemma LookingIsHarmless(calls: seq<Call>, key: string, now: nat)
    requires TimeOrdered(calls) && Past(calls, now)
    ensures Answer(Run(calls), key, now) <==> Answer(Run(Unasked(calls)), key, now)
  {
    hide Run, Answer, ShouldBlock;
    UnaskedFacts(calls, key, now);
    BlockedExact(calls, key, now);
    BlockedExact(Unasked(calls), key, now);
  }

  function Unasked(calls: seq<Call>): (r: seq<Call>) {
    if calls == [] then []
    else
      var last := calls[|calls| - 1];
      Unasked(calls[..|calls| - 1]) + if last.Blocked? then [] else [last]
  }

  lemma {:induction false} UnaskedFacts(calls: seq<Call>, key: string, now: nat)
    requires TimeOrdered(calls) && Past(calls, now)
    ensures TimeOrdered(Unasked(calls)) && Past(Unasked(calls), now)
    ensures Failures(Unasked(calls), key) == Failures(calls, key)
  {
    if calls != [] {
      var front, c := calls[..|calls| - 1], calls[|calls| - 1];
      UnaskedFacts(front, key, c.at);
      assert (Unasked(front) + [c])[..|Unasked(front)|] == Unasked(front);
      assert Unasked(front) + [] == Unasked(front);
    }
  }

  /** What counts: a reset forgets everything before it. */
  lemma {:induction false} ResetForgets(calls: seq<Call>, key: string, at: nat, more: seq<Call>)
    ensures Failures(calls + [Reset(key, at)] + more, key) == Failures(more, key)
  {
    var all := calls + [Reset(key, at)] + more;
    if more == [] {
      assert all[..|all| - 1] == calls;
    } else {
      var front := more[..|more| - 1];
      ResetForgets(calls, key, at, front);
      assert all[..|all| - 1] == calls + [Reset(key, at)] + front;
    }
  }

  /** And without one, the failures recorded of the key, each of them, in order. */
  lemma {:induction false} FailuresCounted(calls: seq<Call>, key: string)
    requires forall i | 0 <= i < |calls| && calls[i].Reset? :: calls[i].key != key
    ensures Failures(calls, key) == Times(calls, key)
  {
    if calls != [] {
      FailuresCounted(calls[..|calls| - 1], key);
    }
  }

  /** The times at which failures of the key were recorded. */
  function Times(calls: seq<Call>, key: string): (ts: seq<nat>) {
    if calls == [] then []
    else
      var last := calls[|calls| - 1];
      Times(calls[..|calls| - 1], key) + if last == Failure(key, last.at) then [last.at] else []
  }

  /** So right after a reset the key is not blocked, whatever happened to it before. */
  lemma ResetUnblocks(calls: seq<Call>, key: string, at: nat, now: nat)
    requires TimeOrdered(calls + [Reset(key, at)]) && Past(calls, at) && at <= now
    ensures !Answer(Run(calls + [Reset(key, at)]), key, now)
  {
    var all := calls + [Reset(key, at)];
    assert all[..|calls|] == calls;
  }

  class LoginThrottle {
    var inner: Entries

    constructor ()
      ensures inner == Run([])
    {
      inner := map[];
    }

    method BlockedNow(key: string, now: nat) returns (r: bool)
      modifies this
      ensures inner == Next(old(inner), Blocked(key, now))
      ensures r == Answer(old(inner), key, now)
      ensures forall calls | old(inner) == Run(calls) && TimeOrdered(calls) && Past(calls, now) ::
                r == ShouldBlock(Failures(calls, key), now)
    {
      forall calls | inner == Run(calls) && TimeOrdered(calls) && Past(calls, now)
        ensures Answer(inner, key, now) == ShouldBlock(Failures(calls, key), now)
      {
        BlockedExact(calls, key, now);
      }
      if key in inner {
        var w := inner[key];
        if now >= w.since + WINDOW {
          inner := inner - {key};
          r := false;
        } else {
          r := w.count >= MAX_FAILURES;
        }
      } else {
        r := false;
      }
    }

    method RecordFailure(key: string, now: nat)
      modifies this
      ensures inner == Next(old(inner), Failure(key, now))
    {
      if key in inner {
        var w := inner[key];
        if now >= w.since + WINDOW {
          inner := inner[key := Window(1, now)];
        } else {
          inner := inner[key := Window(w.count + 1, w.since)];
        }
      } else {
        inner := inner[key := Window(1, now)];
      }
    }

    method ResetKey(key: string, now: nat)
      modifies this
      ensures inner == Next(old(inner), Reset(key, now))
    {
      inner := inner - {key};
    }
  }
}
