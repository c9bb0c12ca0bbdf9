/** From the commands on a branch to what a watching client ends up holding. */
module EndToEnd {
  import opened Model
  import opened Diff
  import opened Wire
  import opened Versions
  import opened Watch
  import opened Stream
  import opened Sse
  import Clients
  import opened BranchMachine

  /** A client that applies the changes of every event above its cursor, and no others. */
  datatype Client = Client(held: SnapshotMap, last: int)

  ghost function Hear(f: Client, ws: seq<WatchEvent>): (g: Client) {
    if ws == [] then f
    else
      var g, w := Hear(f, ws[..|ws| - 1]), ws[|ws| - 1];
      if w.version > g.last then Client(Apply(g.held, w.changes), w.version) else g
  }

  lemma {:induction false} HearConcat(f: Client, a: seq<WatchEvent>, b: seq<WatchEvent>)
    ensures Hear(f, a + b) == Hear(Hear(f, a), b)
  {
    hide Apply;
    if b == [] {
      assert a + b == a;
    } else {
      var front, w := b[..|b| - 1], b[|b| - 1];
      HearConcat(f, a, front);
      assert (a + b)[..|a + b| - 1] == a + front;
    }
  }

  /** Versions that rise from the client's cursor are all applied. */
  lemma {:induction false} HearRising(f: Client, ws: seq<WatchEvent>)
    requires RisingFrom(f.last, ws)
    ensures Hear(f, ws) == Client(ApplyAll(f.held, ChangesOf(ws)), LastOf(f.last, ws))
  {
    hide Apply;
    if ws != [] {
      var front := ws[..|ws| - 1];
      HearRising(f, front);
      assert ChangesOf(ws)[..|ws| - 1] == ChangesOf(front);
      assert front != [] ==> LastOf(f.last, front) == ws[|ws| - 2].version;
    }
  }

  lemma {:induction false} WireAt(es: seq<PublishEvent>, i: nat)
    requires i < |es|
    ensures WireAll(es)[i].version == es[i].version && WireAll(es)[i].changes == es[i].changes
    decreases |es|
  {
    if i > 0 {
      WireAt(es[1..], i - 1);
    }
  }

  lemma {:induction false} WireFront(es: seq<PublishEvent>)
    requires es != []
    ensures WireAll(es)[..|es| - 1] == WireAll(es[..|es| - 1])
    decreases |es|
  {
    hide ToWire;
    if |es| > 1 {
      WireFront(es[1..]);
      assert es[1..][..|es| - 2] == es[..|es| - 1][1..];
    }
  }

  /** Hearing the events as they are sent is following them as they were published. */
  lemma {:induction false} HearIsFollow(held: SnapshotMap, last: nat, es: seq<PublishEvent>)
    ensures var f, g := Hear(Client(held, last), WireAll(es)), Follow(Follower(held, last), es);
            f.held == g.held && f.last == g.last
  {
    hide Apply, WireAll;
    if es == [] {
      NothingSent();
    } else {
      HearIsFollow(held, last, es[..|es| - 1]);
      WireFront(es);
      WireAt(es, |es| - 1);
    }
  }

  lemma NothingSent()
    ensures WireAll([]) == []
  {
  }

  /** What a client may hold when it asks to watch from `after`: below the active version anything whose
      items all occur in the versions it missed, so in particular nothing; at the active version, its
      contents. */
  ghost predicate MayHold(n: Branch, after: int, client: SnapshotMap)
    requires Consist(n)
  {
    var read: Reader := (v: nat) => Read(n.rows, v);
    var recs := Wanted(after, HistoryOf(n));
    && AllReadable(read, recs)
    && if after < n.active then forall g, k | Get(client, g, k).Some? :: Occurs(Chain(read, recs), g, k)
       else after == n.active && Current(n).Ok? && SameItems(client, Current(n).value)
  }

  lemma NewestWanted(n: Branch, after: int)
    requires Consist(n) && n.active > 0 && after <= n.active
    ensures var recs := Wanted(after, HistoryOf(n));
            if after < n.active then recs != [] && recs[|recs| - 1].no == n.active else recs == []
  {
    hide Consist, HistoryOf, Wanted, InOrder;
    var hist := HistoryOf(n);
    HistoryFacts(n);
    WantedFacts(after, hist);
    LastWanted(after, hist);
    var last := hist[|hist| - 1];
    assert last in hist;
    if after < n.active {
      assert last in Wanted(after, hist);
    } else {
      forall rec | rec in hist
        ensures rec.no <= n.active
      {
        InOrderLast(hist, rec);
      }
    }
  }

  lemma InOrderLast(hist: seq<VersionRecord>, rec: VersionRecord)
    requires InOrder(hist) && rec in hist
    ensures rec.no <= hist[|hist| - 1].no
  {
    var i :| 0 <= i < |hist| && hist[i] == rec;
  }

  lemma {:induction false} ChainLast(read: Reader, recs: seq<VersionRecord>)
    requires AllReadable(read, recs) && recs != []
    ensures read(recs[|recs| - 1].no).Ok? && Chain(read, recs)[|recs| - 1] == read(recs[|recs| - 1].no).value
  {
    assert recs[|recs| - 1] in recs;
  }

  lemma ReplayRising(after: int, hist: seq<VersionRecord>, read: Reader)
    requires InOrder(hist) && AllReadable(read, Wanted(after, hist))
    ensures RisingFrom(after, ReplayEvents(read, Wanted(after, hist)))
    ensures LastOf(after, ReplayEvents(read, Wanted(after, hist))) ==
            if Wanted(after, hist) == [] then after else Wanted(after, hist)[|Wanted(after, hist)| - 1].no
  {
    hide ReplayEvents, Wanted, AllReadable;
    var recs := Wanted(after, hist);
    WantedFacts(after, hist);
    forall i | 0 <= i < |recs|
      ensures ReplayEvents(read, recs)[i].version == recs[i].no > after
    {
      Clients.ReplayAt(read, recs, i);
      assert recs[i] in recs;
    }
  }

  /** The replay brings such a client to the active contents and the active version. */
  lemma ReplayCatchesUp(n: Branch, after: int, client: SnapshotMap)
    requires Consist(n) && n.active > 0 && after <= n.active && MayHold(n, after, client)
    ensures var read: Reader := (v: nat) => Read(n.rows, v);
            var f := Hear(Client(client, after), ReplayEvents(read, Wanted(after, HistoryOf(n))));
            f.last == n.active && Current(n).Ok? && SameItems(f.held, Current(n).value)
  {
    hide Consist, HistoryOf, Wanted, ReplayEvents, Chain, ApplyAll, ChangesOf, Read, Hear, Occurs, Get, SameItems;
    var read: Reader := (v: nat) => Read(n.rows, v);
    var hist := HistoryOf(n);
    var recs := Wanted(after, hist);
    HistoryFacts(n);
    NewestWanted(n, after);
    ReplayRising(after, hist, read);
    HearRising(Client(client, after), ReplayEvents(read, recs));
    if after < n.active {
      ReplayExactIff(read, recs, client);
      ChainLast(read, recs);
    } else {
      NothingReplayed(read, client);
    }
  }

  lemma NothingReplayed(read: Reader, client: SnapshotMap)
    ensures AllReadable(read, []) && ApplyAll(client, ChangesOf(ReplayEvents(read, []))) == client
  {
  }

  lemma AllOwed(es: seq<PublishEvent>, floor: int, after: int)
    requires OrdinaryAbove(es, floor) && after <= floor
    ensures Owed(after, es) == es
  {
    OwedSame(after, after, es);
  }

  /** The whole way: on a branch reached by any careful run, whatever careful run follows, a client that
      is not refused and folds the changes of what the watch sends it, replay and live events alike,
      holds the contents of the final active version. */
  lemma WatcherHoldsContents(b: Branch, past: seq<Command>, future: seq<Command>, after: int, client: SnapshotMap)
    requires Consist(b) && Healthy(b) && CarefulRun(b, past) && CarefulRun(Run(b, past), future)
    requires var n := Run(b, past);
             n.active > 0 && 0 < after <= n.active && !Watch.Pruned(after, HistoryOf(n)) && MayHold(n, after, client)
    ensures var n, final := Run(b, past), Run(Run(b, past), future);
            var out := Served(n.project, n.name, after, HistoryOf(n), (v: nat) => Read(n.rows, v), Received(RunEvents(n, future)));
            && out.Ok? && Current(final).Ok?
            && Hear(Client(client, after), out.value).last == final.active
            && SameItems(Hear(Client(client, after), out.value).held, Current(final).value)
  {
    hide Consist, Healthy, Run, HistoryOf, Wanted, ReplayEvents, Read, Hear, Served, Owed, WireAll, RunEvents, CarefulRun,
         Current, SameItems, MayHold, Follow, OrdinaryAbove;
    var n := Run(b, past);
    var read: Reader := (v: nat) => Read(n.rows, v);
    var es := RunEvents(n, future);
    WatchingABranch(b, past, future, after);
    ReplayCatchesUp(n, after, client);
    RunOrderly(n, future);
    AllOwed(es, n.active, after);
    var replay := ReplayEvents(read, Wanted(after, HistoryOf(n)));
    var f := Hear(Client(client, after), replay);
    HearConcat(Client(client, after), replay, WireAll(es));
    HearIsFollow(f.held, n.active, es);
    CurrentAlive(n);
    FollowerTracks(n, future, f.held);
    assert f == Client(f.held, n.active);
  }

  lemma CurrentAlive(n: Branch)
    requires Consist(n) && Current(n).Ok?
    ensures Alive(n)
  {
    hide Read, Consistent;
  }

  /** So a client that starts with nothing, below the active version, ends with everything. */
  lemma EmptyWatcherHoldsContents(b: Branch, past: seq<Command>, future: seq<Command>, after: int)
    requires Consist(b) && Healthy(b) && CarefulRun(b, past) && CarefulRun(Run(b, past), future)
    requires var n := Run(b, past); 0 < after < n.active && !Watch.Pruned(after, HistoryOf(n))
    ensures var n, final := Run(b, past), Run(Run(b, past), future);
            var out := Served(n.project, n.name, after, HistoryOf(n), (v: nat) => Read(n.rows, v), Received(RunEvents(n, future)));
            && out.Ok? && Current(final).Ok?
            && SameItems(Hear(Client(map[], after), out.value).held, Current(final).value)
  {
    hide Consist, Healthy, Run, HistoryOf, Read, Hear, Served, RunEvents, CarefulRun, Current, Wanted, AllReadable;
    WatchingABranch(b, past, [], after);
    WatcherHoldsContents(b, past, future, after, map[]);
  }

  // ---------------- over HTTP ----------------

  lemma {:induction false} HearMasked(f: Client, ws: seq<WatchEvent>)
    ensures Hear(Client(Masked(f.held), f.last), MaskAll(ws)) == Client(Masked(Hear(f, ws).held), Hear(f, ws).last)
  {
    hide Apply, Masked;
    if ws != [] {
      var front, w := ws[..|ws| - 1], ws[|ws| - 1];
      HearMasked(f, front);
      assert MaskAll(ws)[..|ws| - 1] == MaskAll(front);
      var m := Hear(f, front).held;
      MaskingHomomorphism(m, w.changes, m, m);
    }
  }

  lemma MaskedSame(a: SnapshotMap, b: SnapshotMap)
    requires SameItems(a, b)
    ensures SameItems(Masked(a), Masked(b))
  {
    forall g, k
      ensures Get(Masked(a), g, k) == Get(Masked(b), g, k)
    {
      MapGet(MaskedValue, a, g, k);
      MapGet(MaskedValue, b, g, k);
      assert Get(a, g, k) == Get(b, g, k);
    }
  }

  /** A watcher over HTTP, holding masked values, ends with the masked contents of the final version. */
  lemma HttpWatcherHoldsMasked(b: Branch, past: seq<Command>, future: seq<Command>, after: int, client: SnapshotMap)
    requires Consist(b) && Healthy(b) && CarefulRun(b, past) && CarefulRun(Run(b, past), future)
    requires var n := Run(b, past);
             n.active > 0 && 0 < after <= n.active && !Watch.Pruned(after, HistoryOf(n)) && MayHold(n, after, client)
    ensures var n, final := Run(b, past), Run(Run(b, past), future);
            var out := SseOut(n.project, n.name, after, HistoryOf(n), (v: nat) => Read(n.rows, v), Received(RunEvents(n, future)));
            && Current(final).Ok?
            && Hear(Client(Masked(client), after), out).last == final.active
            && SameItems(Hear(Client(Masked(client), after), out).held, Masked(Current(final).value))
  {
    hide Consist, Healthy, Run, HistoryOf, Wanted, Read, Hear, Served, RunEvents, CarefulRun, SseOut, AllReadable, MaskAll,
         Current, SameItems, MayHold, Masked, Orderly, OrdinaryAbove, BranchEvents, EndsLagged, InOrder;
    var n := Run(b, past);
    var read: Reader := (v: nat) => Read(n.rows, v);
    var hist, es := HistoryOf(n), RunEvents(n, future);
    WatchingABranch(b, past, future, after);
    WatcherHoldsContents(b, past, future, after, client);
    var grpc := Served(n.project, n.name, after, hist, read, Received(es));
    RunOrderly(n, future);
    RunEventsBounded(n, future);
    ReceivedEvents(n.project, n.name, es);
    HistoryFacts(n);
    AboveLower(es, n.active, after);
    SseMatchesGrpc(n.project, n.name, after, hist, read, Received(es));
    var out := SseOut(n.project, n.name, after, hist, read, Received(es));
    assert MaskAll(grpc.value)[..|out|] == MaskAll(grpc.value);
    HearMasked(Client(client, after), grpc.value);
    MaskedSame(Hear(Client(client, after), grpc.value).held, Current(Run(n, future)).value);
  }

  // ---------------- a replayed version is told as it was ----------------

  /** The event tells of the version its record is about. */
  ghost predicate Announced(e: PublishEvent, rec: VersionRecord) {
    e.version == rec.no && e.gray == rec.gray && e.structureVersion == rec.structureVersion && rec.eventTy == Some(e.ty)
  }

  ghost predicate AllAnnounced(floor: nat, r: Rows, es: seq<PublishEvent>) {
    forall v | v in r.records && v > floor :: exists e :: e in es && Announced(e, r.records[v])
  }

  lemma NextAnnounced(b: Branch, c: Command)
    requires Consist(b)
    ensures forall v | v in Next(b, c).rows.records ::
              if v in b.rows.records && v != Next(b, c).active then Next(b, c).rows.records[v] == b.rows.records[v]
              else if Next(b, c).active != b.active then
                v == Next(b, c).active && exists e :: e in Emitted(b, c) && Announced(e, Next(b, c).rows.records[v])
              else v in b.rows.records && Next(b, c).rows.records[v] == b.rows.records[v]
  {
    hide Changes, Read, Consistent, Versions.Pruned, Checkpoint;
    var n := Next(b, c);
    if c.Prune? {
      RecordsPositive(b.rows, b.active);
      PrunedKeepsRecords(b.rows, b.active, c.keep);
    } else if n.active != b.active {
      assert Emitted(b, c)[0] in Emitted(b, c);
      assert Announced(Emitted(b, c)[0], n.rows.records[n.active]);
    }
  }

  lemma PrunedKeepsRecords(r: Rows, active: nat, keep: nat)
    requires forall v | v in r.records :: v > 0
    ensures forall v | v in Versions.Pruned(r, active, keep).records ::
              v in r.records && Versions.Pruned(r, active, keep).records[v] == r.records[v]
  {
    hide Base;
  }

  lemma {:induction false} RunAnnounced(b: Branch, cs: seq<Command>)
    requires Consist(b)
    ensures AllAnnounced(b.active, Run(b, cs).rows, RunEvents(b, cs))
  {
    hide Next, Emitted, Announced;
    if cs == [] {
      RecordsUpToActive(b);
    } else {
      var front, c := cs[..|cs| - 1], cs[|cs| - 1];
      RunAnnounced(b, front);
      var m, n := Run(b, front), Run(b, cs);
      NextAnnounced(m, c);
      forall v | v in n.rows.records && v > b.active
        ensures exists e :: e in RunEvents(b, cs) && Announced(e, n.rows.records[v])
      {
        if v in m.rows.records && n.rows.records[v] == m.rows.records[v] {
          var e :| e in RunEvents(b, front) && Announced(e, m.rows.records[v]);
          assert e in RunEvents(b, cs);
        } else {
          var e :| e in Emitted(m, c) && Announced(e, n.rows.records[v]);
          assert e in RunEvents(b, cs);
        }
      }
    }
  }

  /** Every replayed event repeats, of an event published when its version came to be, the version, the
      type, the structure version and whether it was gray. */
  lemma ReplayTellsWhatWas(b: Branch, past: seq<Command>, after: int, w: WatchEvent)
    requires Consist(b) && Healthy(b) && CarefulRun(b, past)
    requires var n := Run(b, past); n.active > 0 && after > 0 && after >= b.active && !Watch.Pruned(after, HistoryOf(n))
    requires var n := Run(b, past);
             var out := Served(n.project, n.name, after, HistoryOf(n), (v: nat) => Read(n.rows, v), []);
             out.Ok? && w in out.value
    ensures exists e :: e in RunEvents(b, past) && e.version == w.version && e.ty == w.ty && e.gray == w.gray
                        && e.structureVersion == w.structureVersion
  {
    hide Consist, Healthy, Run, HistoryOf, Wanted, Read, Served, RunEvents, CarefulRun, ReplayEvents, AllReadable, InOrder;
    var n := Run(b, past);
    var read: Reader := (v: nat) => Read(n.rows, v);
    var recs := Wanted(after, HistoryOf(n));
    WatchingABranch(b, past, [], after);
    NoEvents(n, after);
    HistoryFacts(n);
    WantedFacts(after, HistoryOf(n));
    var i :| 0 <= i < |recs| && ReplayEvents(read, recs)[i] == w;
    assert recs[i] in recs;
    RunAnnounced(b, past);
    var e :| e in RunEvents(b, past) && Announced(e, recs[i]);
    ReplayOf(read, recs, i);
  }

  lemma NoEvents(n: Branch, after: int)
    requires Consist(n)
    ensures Received(RunEvents(n, [])) == [] && WireAll(Owed(after, RunEvents(n, []))) == []
  {
  }

  lemma {:induction false} ReplayOf(read: Reader, recs: seq<VersionRecord>, i: nat)
    requires AllReadable(read, recs) && i < |recs|
    ensures var w, rec := ReplayEvents(read, recs)[i], recs[i];
            w.version == rec.no && w.gray == rec.gray && w.structureVersion == rec.structureVersion && w.comment == rec.comment
            && (rec.eventTy.Some? ==> w.ty == rec.eventTy.value)
    decreases |recs|
  {
    hide Changes, Chain;
    var n := |recs| - 1;
    assert recs == recs[..n] + [recs[n]];
    if i < n {
      ReplayOf(read, recs[..n], i);
    }
    ReplaySnoc(read, recs[..n], recs[n]);
  }
}
