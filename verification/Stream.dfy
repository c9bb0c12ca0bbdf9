/** The stream a watcher receives: the replay, then live events behind a version cursor that gray
    events bypass. */
module Stream {
  import opened Model
  import opened Watch

  function ToWire(e: PublishEvent): WatchEvent {
    WatchEvent(e.version, e.ty, e.structureVersion, e.comment, e.requestId, e.changes, false, e.gray)
  }

  /** The synthetic event that tells the client to fetch the whole snapshot. */
  function Notice(last: int, comment: string): WatchEvent {
    WatchEvent(last, ValuePublish, 0, comment, "", [], true, false)
  }

  predicate ForBranch(e: PublishEvent, project: string, branch: string) {
    e.project == project && e.branch == branch
  }

  function Max(a: int, b: int): int {
    if a < b then b else a
  }

  ghost function Live(project: string, branch: string, last: int, rs: seq<Recv>): (out: seq<WatchEvent>)
    decreases |rs|
  {
    if rs == [] then [] else
    match rs[0]
    case Closed => []
    case Lagged => [Notice(last, "slow consumer: snapshot required")]
    case Event(e) =>
      if ForBranch(e, project, branch) && (e.gray || e.version > last)
      then [ToWire(e)] + Live(project, branch, Max(last, e.version), rs[1..])
      else Live(project, branch, last, rs[1..])
  }

  /** `w` tells of `e` everything there is to tell. */
  ghost predicate Tells(w: WatchEvent, e: PublishEvent) {
    && w.version == e.version && w.ty == e.ty && w.structureVersion == e.structureVersion
    && w.comment == e.comment && w.requestId == e.requestId && w.changes == e.changes
    && !w.snapshotRequired && w.gray == e.gray
  }

  /** Every live event delivered is a received event of the project and the branch asked for, whole. */
  lemma {:induction false} LiveTells(project: string, branch: string, last: int, rs: seq<Recv>, w: WatchEvent)
    requires w in Live(project, branch, last, rs)
    ensures w.snapshotRequired ||
            exists i :: 0 <= i < |rs| && rs[i].Event? && rs[i].e.project == project && rs[i].e.branch == branch && Tells(w, rs[i].e)
    decreases |rs|
  {
    if rs[0].Event? {
      var e := rs[0].e;
      var sent := ForBranch(e, project, branch) && (e.gray || e.version > last);
      if sent && w == ToWire(e) {
        assert Tells(w, rs[0].e);
      } else {
        LiveTells(project, branch, if sent then Max(last, e.version) else last, rs[1..], w);
        if !w.snapshotRequired {
          var i :| 0 <= i < |rs[1..]| && rs[1..][i].Event? && rs[1..][i].e.project == project && rs[1..][i].e.branch == branch
                   && Tells(w, rs[1..][i].e);
          assert rs[i + 1] == rs[1..][i];
        }
      }
    }
  }

  ghost function LastOf(after: int, es: seq<WatchEvent>): int {
    if es == [] then after else es[|es| - 1].version
  }

  ghost function StreamOf(project: string, branch: string, after: int, replay: Replay, rs: seq<Recv>): seq<WatchEvent> {
    if replay.snapshotRequired then [Notice(after, "snapshot required (start pruned)")]
    else replay.events + Live(project, branch, LastOf(after, replay.events), rs)
  }

  /** What one call of `watch` yields, given the history it reads and what its receiver gets. */
  ghost function Served(project: string, branch: string, after: int, hist: seq<VersionRecord>, read: Reader, rs: seq<Recv>)
    : Result<seq<WatchEvent>>
  {
    if after <= 0 then Ok(StreamOf(project, branch, after, Replay(false, []), rs))
    else if !AllReadable(read, Wanted(after, hist)) then Err("snapshot not readable")
    else Ok(StreamOf(project, branch, after, Replay(Pruned(after, hist), ReplayEvents(read, Wanted(after, hist))), rs))
  }

  /** The stream body: replay in order, then receive until lag or close. */
  method Serve(project: string, branch: string, after: int, replay: Replay, rs: seq<Recv>) returns (out: seq<WatchEvent>)
    ensures out == StreamOf(project, branch, after, replay, rs)
  {
    var last := after;
    if replay.snapshotRequired {
      return [Notice(last, "snapshot required (start pruned)")];
    }
    out := [];
    for i := 0 to |replay.events|
      invariant out == replay.events[..i]
      invariant last == LastOf(after, replay.events[..i])
    {
      last := replay.events[i].version;
      out := out + [replay.events[i]];
    }
    assert replay.events[..|replay.events|] == replay.events;
    var i := 0;
    while i < |rs|
      invariant 0 <= i <= |rs|
      invariant out + Live(project, branch, last, rs[i..]) == StreamOf(project, branch, after, replay, rs)
    {
      assert rs[i..][1..] == rs[i + 1..];
      match rs[i] {
        case Closed =>
          return;
        case Lagged =>
          out := out + [Notice(last, "slow consumer: snapshot required")];
          return;
        case Event(e) =>
          if ForBranch(e, project, branch) && (e.gray || e.version > last) {
            if e.version > last {
              last := e.version;
            }
            assert out + ([ToWire(e)] + Live(project, branch, last, rs[i + 1..])) == out + [ToWire(e)] + Live(project, branch, last, rs[i + 1..]);
            out := out + [ToWire(e)];
          }
      }
      i := i + 1;
    }
  }

  method WatchCall(project: string, branch: string, after: int, hist: seq<VersionRecord>, read: Reader, rs: seq<Recv>)
    returns (out: Result<seq<WatchEvent>>)
    ensures out.Ok? <==> Served(project, branch, after, hist, read, rs).Ok?
    ensures out.Ok? ==> out == Served(project, branch, after, hist, read, rs)
  {
    hide StreamOf, ReplayEvents, Wanted, AllReadable;
    var r := BuildReplay(after, hist, read);
    if r.Err? {
      return Err(r.message);
    }
    var es := Serve(project, branch, after, r.value, rs);
    return Ok(es);
  }

  // ---------------- ordinary events ----------------

  predicate IsOrdinary(e: WatchEvent) {
    !e.gray && !e.snapshotRequired
  }

  /** The versions of the events that are neither gray nor notices, in order. */
  ghost function Ordinary(es: seq<WatchEvent>): (vs: seq<int>) {
    if es == [] then [] else (if IsOrdinary(es[0]) then [es[0].version] else []) + Ordinary(es[1..])
  }

  ghost predicate Rising(vs: seq<int>) {
    forall i, j | 0 <= i < j < |vs| :: vs[i] < vs[j]
  }

  ghost predicate AllAbove(vs: seq<int>, floor: int) {
    forall i | 0 <= i < |vs| :: floor < vs[i]
  }

  lemma {:induction false} OrdinaryConcat(a: seq<WatchEvent>, b: seq<WatchEvent>)
    ensures Ordinary(a + b) == Ordinary(a) + Ordinary(b)
  {
    if a == [] {
      assert a + b == b;
    } else {
      hide Ordinary;
      assert (a + b)[1..] == a[1..] + b && (a + b)[0] == a[0];
      OrdinaryConcat(a[1..], b);
      var h := Ordinary([a[0]]);
      OrdinaryFirst(a);
      OrdinaryFirst(a + b);
      assert h + (Ordinary(a[1..]) + Ordinary(b)) == h + Ordinary(a[1..]) + Ordinary(b);
    }
  }

  lemma OrdinaryFirst(a: seq<WatchEvent>)
    requires a != []
    ensures Ordinary(a) == Ordinary([a[0]]) + Ordinary(a[1..])
  {
    assert [a[0]][1..] == [];
  }

  lemma {:induction false} OrdinaryMember(es: seq<WatchEvent>, v: int)
    ensures v in Ordinary(es) <==> exists e :: e in es && IsOrdinary(e) && e.version == v
  {
    if es != [] {
      OrdinaryMember(es[1..], v);
      assert forall e :: e in es <==> e == es[0] || e in es[1..];
    }
  }

  lemma RisingConcat(a: seq<int>, b: seq<int>, floor: int, mid: int)
    requires Rising(a) && Rising(b) && AllAbove(a, floor) && AllAbove(b, mid) && floor <= mid
    requires forall i | 0 <= i < |a| :: a[i] <= mid
    ensures Rising(a + b) && AllAbove(a + b, floor)
  {
  }

  /** Whatever the receiver yields, the live part never repeats or reorders an ordinary version. */
  lemma {:induction false} LiveRising(project: string, branch: string, last: int, rs: seq<Recv>)
    ensures var vs := Ordinary(Live(project, branch, last, rs)); Rising(vs) && AllAbove(vs, last)
    decreases |rs|
  {
    if rs != [] {
      match rs[0]
      case Closed =>
      case Lagged =>
        assert Ordinary([Notice(last, "slow consumer: snapshot required")]) == [];
      case Event(e) =>
        if ForBranch(e, project, branch) && (e.gray || e.version > last) {
          var next := Max(last, e.version);
          var tail := Live(project, branch, next, rs[1..]);
          LiveRising(project, branch, next, rs[1..]);
          OrdinaryConcat([ToWire(e)], tail);
          assert [ToWire(e)][1..] == [];
          RisingConcat(Ordinary([ToWire(e)]), Ordinary(tail), last, next);
        } else {
          LiveRising(project, branch, last, rs[1..]);
        }
    }
  }

  lemma {:induction false} WantedFacts(after: int, hist: seq<VersionRecord>)
    requires InOrder(hist)
    ensures InOrder(Wanted(after, hist))
    ensures forall rec :: rec in Wanted(after, hist) <==> rec in hist && rec.no > after
  {
    if hist != [] {
      var front, last := hist[..|hist| - 1], hist[|hist| - 1];
      assert hist == front + [last];
      WantedFacts(after, front);
      var w := Wanted(after, front);
      forall i | 0 <= i < |w|
        ensures w[i].no < last.no
      {
        assert w[i] in front;
      }
    }
  }

  /** The version numbers of the records that are not gray promotions. */
  ghost function OrdinaryRecords(recs: seq<VersionRecord>): (vs: seq<int>) {
    if recs == [] then [] else
      var rec := recs[|recs| - 1];
      OrdinaryRecords(recs[..|recs| - 1]) + if rec.gray then [] else [rec.no as int]
  }

  lemma {:induction false} OrdinaryRecordsMember(recs: seq<VersionRecord>, v: int)
    ensures v in OrdinaryRecords(recs) <==> exists rec :: rec in recs && !rec.gray && rec.no == v
  {
    if recs != [] {
      var front, last := recs[..|recs| - 1], recs[|recs| - 1];
      assert recs == front + [last];
      OrdinaryRecordsMember(front, v);
    }
  }

  lemma {:induction false} ReplayOrdinary(read: Reader, recs: seq<VersionRecord>, after: int)
    requires AllReadable(read, recs)
    ensures Ordinary(ReplayEvents(read, recs)) == OrdinaryRecords(recs)
    ensures LastOf(after, ReplayEvents(read, recs)) == if recs == [] then after else recs[|recs| - 1].no
  {
    hide Diff.Changes, Chain;
    if recs != [] {
      var n := |recs| - 1;
      var front, rec := recs[..n], recs[n];
      assert recs == front + [rec];
      ReplayOrdinary(read, front, after);
      ReplaySnoc(read, front, rec);
      var es, fs := ReplayEvents(read, recs), ReplayEvents(read, front);
      OrdinaryConcat(fs, [es[n]]);
      assert [es[n]][1..] == [];
    }
  }

  ghost predicate RisingBetween(floor: int, vs: seq<int>, top: int) {
    Rising(vs) && AllAbove(vs, floor) && forall i | 0 <= i < |vs| :: vs[i] <= top
  }

  lemma RisingOn(floor: int, vs: seq<int>, top: int, v: int)
    requires RisingBetween(floor, vs, top) && top < v && floor < v
    ensures RisingBetween(floor, vs + [v], v) && RisingBetween(floor, vs, v)
  {
  }

  lemma {:induction false} RecordsRise(recs: seq<VersionRecord>, after: int)
    requires InOrder(recs) && (forall rec | rec in recs :: rec.no > after) && recs != []
    ensures RisingBetween(after, OrdinaryRecords(recs), recs[|recs| - 1].no)
  {
    hide RisingBetween;
    var front, rec := recs[..|recs| - 1], recs[|recs| - 1];
    assert rec in recs;
    var vs := OrdinaryRecords(front);
    assert OrdinaryRecords(recs) == vs + if rec.gray then [] else [rec.no as int];
    assert vs + [] == vs;
    if front == [] {
      NoneRising(after);
      RisingOn(after, vs, after, rec.no);
    } else {
      RecordsRise(front, after);
      RisingOn(after, vs, front[|front| - 1].no, rec.no);
    }
  }

  lemma NoneRising(floor: int)
    ensures RisingBetween(floor, [], floor) && OrdinaryRecords([]) == []
  {
  }

  lemma RecordsRising(recs: seq<VersionRecord>, after: int)
    requires InOrder(recs) && forall rec | rec in recs :: rec.no > after
    ensures var vs := OrdinaryRecords(recs);
            && Rising(vs) && AllAbove(vs, after)
            && forall i | 0 <= i < |vs| :: recs != [] && vs[i] <= recs[|recs| - 1].no
  {
    if recs != [] {
      hide OrdinaryRecords;
      RecordsRise(recs, after);
    }
  }

  /** For arbitrary received events and any history in order, the ordinary versions of a stream rise
      strictly and are all above the version the client asked from. */
  lemma ServedRising(project: string, branch: string, after: int, hist: seq<VersionRecord>, read: Reader, rs: seq<Recv>)
    requires InOrder(hist)
    ensures var out := Served(project, branch, after, hist, read, rs);
            out.Ok? ==> Rising(Ordinary(out.value)) && AllAbove(Ordinary(out.value), after)
  {
    hide Live, Wanted, ReplayEvents, AllReadable, Watch.Pruned;
    var recs := Wanted(after, hist);
    if after <= 0 {
      LiveRising(project, branch, after, rs);
      assert [] + Live(project, branch, after, rs) == Live(project, branch, after, rs);
    } else if AllReadable(read, recs) {
      WantedFacts(after, hist);
      ReplayOrdinary(read, recs, after);
      RecordsRising(recs, after);
      var es := ReplayEvents(read, recs);
      var last := LastOf(after, es);
      assert recs != [] ==> recs[|recs| - 1] in recs;
      LiveRising(project, branch, last, rs);
      var tail := Live(project, branch, last, rs);
      OrdinaryConcat(es, tail);
      RisingConcat(Ordinary(es), Ordinary(tail), after, last);
      assert Ordinary([Notice(after, "snapshot required (start pruned)")]) == [];
    }
  }

  // ---------------- nothing lost ----------------

  /** The branch's events up to the first lag or close. */
  ghost function BranchEvents(project: string, branch: string, rs: seq<Recv>): (es: seq<PublishEvent>)
    decreases |rs|
  {
    if rs == [] || !rs[0].Event? then [] else
      (if ForBranch(rs[0].e, project, branch) then [rs[0].e] else []) + BranchEvents(project, branch, rs[1..])
  }

  ghost predicate EndsLagged(rs: seq<Recv>)
    decreases |rs|
  {
    rs != [] && (rs[0].Lagged? || (rs[0].Event? && EndsLagged(rs[1..])))
  }

  /** An ordinary version is above the version of every event before it, gray or not. */
  ghost predicate Orderly(es: seq<PublishEvent>) {
    forall i, j | 0 <= i < j < |es| && !es[j].gray :: es[i].version < es[j].version
  }

  ghost predicate OrdinaryAbove(es: seq<PublishEvent>, floor: int) {
    forall i | 0 <= i < |es| && !es[i].gray :: es[i].version > floor
  }

  /** The events a client at `after` is owed: every gray one, and the ordinary ones above it. */
  ghost function Owed(after: int, es: seq<PublishEvent>): (ks: seq<PublishEvent>) {
    if es == [] then [] else
      (if es[0].gray || es[0].version > after then [es[0]] else []) + Owed(after, es[1..])
  }

  ghost function WireAll(es: seq<PublishEvent>): (ws: seq<WatchEvent>)
    ensures |ws| == |es|
  {
    if es == [] then [] else [ToWire(es[0])] + WireAll(es[1..])
  }

  lemma {:induction false} OwedSame(a: int, b: int, es: seq<PublishEvent>)
    requires OrdinaryAbove(es, a) && OrdinaryAbove(es, b)
    ensures Owed(a, es) == Owed(b, es) == es
  {
    if es != [] {
      assert forall i | 0 <= i < |es[1..]| :: es[1..][i] == es[i + 1];
      OwedSame(a, b, es[1..]);
    }
  }

  lemma OrderlyTail(es: seq<PublishEvent>)
    requires Orderly(es) && es != []
    ensures Orderly(es[1..]) && OrdinaryAbove(es[1..], es[0].version)
  {
    assert forall i | 0 <= i < |es[1..]| :: es[1..][i] == es[i + 1];
  }

  /** Everything owed, and after it one notice if the receiver lagged. */
  ghost predicate Delivers(out: seq<WatchEvent>, owed: seq<WatchEvent>, lagged: bool) {
    && |out| == |owed| + (if lagged then 1 else 0)
    && out[..|owed|] == owed
    && (lagged ==> out[|owed|].snapshotRequired)
  }

  lemma DeliversCons(out: seq<WatchEvent>, owed: seq<WatchEvent>, lagged: bool, w: WatchEvent)
    requires Delivers(out, owed, lagged)
    ensures Delivers([w] + out, [w] + owed, lagged)
  {
    assert ([w] + out)[..|owed| + 1] == [w] + out[..|owed|];
  }

  lemma OwedCons(after: int, es: seq<PublishEvent>)
    requires es != []
    ensures WireAll(Owed(after, es)) ==
            if es[0].gray || es[0].version > after then [ToWire(es[0])] + WireAll(Owed(after, es[1..]))
            else WireAll(Owed(after, es[1..]))
  {
    var rest := Owed(after, es[1..]);
    assert ([es[0]] + rest)[1..] == rest;
    assert [] + rest == rest;
  }

  /** On an orderly branch the live cursor drops only ordinary versions at or below its start: the
      live part is exactly the events owed, followed by one notice if the receiver lagged. */
  lemma {:induction false} LiveExact(project: string, branch: string, last: int, rs: seq<Recv>)
    requires Orderly(BranchEvents(project, branch, rs))
    ensures Delivers(Live(project, branch, last, rs), WireAll(Owed(last, BranchEvents(project, branch, rs))), EndsLagged(rs))
    decreases |rs|
  {
    hide Owed, WireAll, Orderly, ToWire, ForBranch;
    var es := BranchEvents(project, branch, rs);
    if rs == [] || !rs[0].Event? {
      NothingOwed(last);
    } else {
      hide Delivers;
      var e := rs[0].e;
      var tail := BranchEvents(project, branch, rs[1..]);
      if ForBranch(e, project, branch) {
        assert es == [e] + tail && es[1..] == tail;
        OrderlyTail(es);
        OwedCons(last, es);
        if e.gray || e.version > last {
          var next := Max(last, e.version);
          LiveExact(project, branch, next, rs[1..]);
          if next != last {
            OwedSameAbove(last, next, tail);
          }
          DeliversCons(Live(project, branch, next, rs[1..]), WireAll(Owed(last, tail)), EndsLagged(rs), ToWire(e));
        } else {
          LiveExact(project, branch, last, rs[1..]);
        }
      } else {
        assert es == tail;
        LiveExact(project, branch, last, rs[1..]);
      }
    }
  }

  lemma NothingOwed(after: int)
    ensures WireAll(Owed(after, [])) == []
  {
  }

  lemma OwedSameAbove(last: int, next: int, es: seq<PublishEvent>)
    requires last <= next && OrdinaryAbove(es, next)
    ensures Owed(last, es) == Owed(next, es)
  {
    OwedSame(last, next, es);
  }

  ghost function OrdinaryVersions(es: seq<PublishEvent>): (vs: seq<int>) {
    if es == [] then [] else (if es[0].gray then [] else [es[0].version as int]) + OrdinaryVersions(es[1..])
  }

  lemma {:induction false} WireOrdinary(es: seq<PublishEvent>)
    ensures Ordinary(WireAll(es)) == OrdinaryVersions(es)
  {
    if es != [] {
      WireOrdinary(es[1..]);
      OrdinaryConcat([ToWire(es[0])], WireAll(es[1..]));
      assert [ToWire(es[0])][1..] == [];
    }
  }

  lemma {:induction false} WantedNone(after: int, hist: seq<VersionRecord>)
    requires forall i | 0 <= i < |hist| :: hist[i].no <= after
    ensures Wanted(after, hist) == []
  {
    if hist != [] {
      WantedNone(after, hist[..|hist| - 1]);
    }
  }

  /** A retained history that starts at or before `after` holds every version above it. */
  lemma {:induction false} WantedAll(after: int, full: seq<VersionRecord>, p: nat)
    requires InOrder(full) && p <= |full| && (forall i | 0 <= i < p :: full[i].no <= after)
    ensures Wanted(after, full[p..]) == Wanted(after, full)
    decreases |full| - p
  {
    if p == |full| {
      assert full[p..] == [];
      WantedNone(after, full);
    } else {
      var n := |full| - 1;
      var front := full[..n];
      assert full[p..][..n - p] == front[p..];
      WantedAll(after, front, p);
    }
  }

  lemma OlderSeen(full: seq<VersionRecord>, p: nat, after: int)
    requires InOrder(full) && p < |full| && !Pruned(after, full[p..]) && after > 0
    ensures forall i | 0 <= i < p :: full[i].no <= after
  {
    var hist := full[p..];
    assert hist[0] == full[p] && hist[|hist| - 1] == full[|full| - 1];
    forall i | 0 <= i < p
      ensures full[i].no <= after
    {
      assert full[i].no < full[p].no <= full[|full| - 1].no;
    }
  }

  /** No ordinary version is lost or repeated. A client at `after`, whose branch has published the
      versions `full` of which the first `p` are pruned, receives, if it is not refused, one event
      for every version above `after` with no gap, then every live event it is owed, in order, and
      one notice at the end if it lagged. */
  lemma ExactlyOnce(project: string, branch: string, after: int, full: seq<VersionRecord>, p: nat, read: Reader, rs: seq<Recv>)
    requires InOrder(full) && p < |full| && after > 0
    requires !Pruned(after, full[p..]) && AllReadable(read, Wanted(after, full))
    requires Orderly(BranchEvents(project, branch, rs))
    requires OrdinaryAbove(BranchEvents(project, branch, rs), full[|full| - 1].no)
    ensures var es := BranchEvents(project, branch, rs);
            var out := Served(project, branch, after, full[p..], read, rs);
            var due := ReplayEvents(read, Wanted(after, full)) + WireAll(Owed(after, es));
            && out.Ok?
            && |out.value| == |due| + (if EndsLagged(rs) then 1 else 0)
            && out.value[..|due|] == due
            && (EndsLagged(rs) ==> out.value[|due|].snapshotRequired)
            && Ordinary(out.value) == OrdinaryRecords(Wanted(after, full)) + OrdinaryVersions(Owed(after, es))
            && Rising(Ordinary(out.value))
  {
    hide Wanted, ReplayEvents, AllReadable, Live, BranchEvents, Owed, WireAll, OrdinaryRecords, OrdinaryVersions;
    var hist := full[p..];
    var es := BranchEvents(project, branch, rs);
    OlderSeen(full, p, after);
    WantedAll(after, full, p);
    var recs := Wanted(after, full);
    var replay := ReplayEvents(read, recs);
    ReplayOrdinary(read, recs, after);
    var last := LastOf(after, replay);
    LastWanted(after, full);
    LiveExact(project, branch, last, rs);
    if recs != [] {
      OwedSame(after, last, es);
    }
    var live, owed := Live(project, branch, last, rs), WireAll(Owed(after, es));
    DeliversOrdinary(live, owed, EndsLagged(rs));
    OrdinaryConcat(replay, live);
    WireOrdinary(Owed(after, es));
    ServedRising(project, branch, after, hist, read, rs);
    AfterReplay(replay, live, owed, EndsLagged(rs));
  }

  lemma AfterReplay(replay: seq<WatchEvent>, live: seq<WatchEvent>, owed: seq<WatchEvent>, lagged: bool)
    requires Delivers(live, owed, lagged)
    ensures Delivers(replay + live, replay + owed, lagged)
  {
    assert (replay + live)[..|replay| + |owed|] == replay + live[..|owed|];
  }

  lemma DeliversOrdinary(out: seq<WatchEvent>, owed: seq<WatchEvent>, lagged: bool)
    requires Delivers(out, owed, lagged)
    ensures Ordinary(out) == Ordinary(owed)
  {
    var tail := out[|owed|..];
    assert out == owed + tail;
    OrdinaryConcat(owed, tail);
    assert lagged ==> tail == [out[|owed|]];
    assert Ordinary(tail) == [];
    assert Ordinary(owed) + [] == Ordinary(owed);
  }

  lemma LastWanted(after: int, full: seq<VersionRecord>)
    requires InOrder(full) && full != []
    ensures Wanted(after, full) != [] ==>
              Wanted(after, full)[|Wanted(after, full)| - 1] == full[|full| - 1] && full[|full| - 1].no > after
  {
    var w, last := Wanted(after, full), full[|full| - 1];
    WantedFacts(after, full);
    if w != [] {
      var x := w[|w| - 1];
      assert x in w && x in full;
      assert last in full;
      assert last.no >= x.no;
      assert last in w;
    }
  }

  /** A refused start gives one notice and nothing else, and a start is refused exactly when the
      oldest retained version is above it. */
  lemma RefusedOnce(project: string, branch: string, after: int, hist: seq<VersionRecord>, read: Reader, rs: seq<Recv>)
    requires InOrder(hist)
    ensures Pruned(after, hist) <==> hist != [] && after < hist[0].no
    ensures after > 0 && Pruned(after, hist) && AllReadable(read, Wanted(after, hist)) ==>
              Served(project, branch, after, hist, read, rs) == Ok([Notice(after, "snapshot required (start pruned)")])
  {
    if hist != [] && |hist| > 1 {
      assert hist[0].no < hist[|hist| - 1].no;
    }
  }

  // ---------------- between history and subscription ----------------

  lemma {:induction false} OwedMember(after: int, es: seq<PublishEvent>, e: PublishEvent)
    ensures e in Owed(after, es) <==> e in es && (e.gray || e.version > after)
  {
    if es != [] {
      OwedMember(after, es[1..], e);
      assert es == [es[0]] + es[1..];
    }
  }

  lemma {:induction false} OrdinaryVersionsMember(es: seq<PublishEvent>, v: int)
    ensures v in OrdinaryVersions(es) <==> exists e :: e in es && !e.gray && e.version == v
  {
    if es != [] {
      OrdinaryVersionsMember(es[1..], v);
      assert es == [es[0]] + es[1..];
    }
  }

  lemma OwedFirst(after: int, es: seq<PublishEvent>)
    requires es != []
    ensures Owed(after, es) == Owed(after, [es[0]]) + Owed(after, es[1..])
  {
    assert [es[0]][1..] == [];
  }

  lemma Regroup<T>(a: seq<T>, b: seq<T>, c: seq<T>)
    ensures a + (b + c) == a + b + c
  {
  }

  lemma {:induction false} OwedConcat(after: int, a: seq<PublishEvent>, b: seq<PublishEvent>)
    ensures Owed(after, a + b) == Owed(after, a) + Owed(after, b)
  {
    if a == [] {
      assert a + b == b;
    } else {
      hide Owed;
      OwedConcat(after, a[1..], b);
      assert (a + b)[1..] == a[1..] + b && (a + b)[0] == a[0];
      OwedFirst(after, a);
      OwedFirst(after, a + b);
      Regroup(Owed(after, [a[0]]), Owed(after, a[1..]), Owed(after, b));
    }
  }

  /** An ordinary version owed is that of an ordinary event above `after`. */
  lemma OwedVersion(after: int, es: seq<PublishEvent>, v: int)
    requires v in OrdinaryVersions(Owed(after, es))
    ensures exists i :: 0 <= i < |es| && !es[i].gray && es[i].version == v > after
  {
    hide OrdinaryVersions, Owed;
    OrdinaryVersionsMember(Owed(after, es), v);
    var e :| e in Owed(after, es) && !e.gray && e.version == v;
    OwedMember(after, es, e);
    var i :| 0 <= i < |es| && es[i] == e;
  }

  lemma RecordedUpTo(after: int, hist: seq<VersionRecord>, v: int)
    requires InOrder(hist) && v in OrdinaryRecords(Wanted(after, hist))
    ensures hist != [] && v <= hist[|hist| - 1].no
  {
    hide OrdinaryRecords, Wanted;
    OrdinaryRecordsMember(Wanted(after, hist), v);
    var rec :| rec in Wanted(after, hist) && !rec.gray && rec.no == v;
    WantedFacts(after, hist);
    var j :| 0 <= j < |hist| && hist[j] == rec;
  }

  /** An ordinary version published between the two is neither among the recorded versions nor among the
      ordinary versions that follow. */
  lemma MissedNowhere(after: int, hist: seq<VersionRecord>, missed: seq<PublishEvent>, es: seq<PublishEvent>, v: int)
    requires InOrder(hist) && hist != [] && Orderly(missed + es) && OrdinaryAbove(missed + es, hist[|hist| - 1].no)
    requires v in OrdinaryVersions(Owed(after, missed))
    ensures v !in OrdinaryRecords(Wanted(after, hist)) && v !in OrdinaryVersions(Owed(after, es))
  {
    hide OrdinaryVersions, OrdinaryRecords, Owed, Wanted, InOrder;
    var all := missed + es;
    OwedVersion(after, missed, v);
    var i :| 0 <= i < |missed| && !missed[i].gray && missed[i].version == v > after;
    assert all[i] == missed[i];
    if v in OrdinaryRecords(Wanted(after, hist)) {
      RecordedUpTo(after, hist, v);
    }
    forall j | 0 <= j < |es| && !es[j].gray
      ensures es[j].version != v
    {
      assert all[|missed| + j] == es[j];
    }
    if v in OrdinaryVersions(Owed(after, es)) {
      OwedVersion(after, es, v);
      assert false;
    }
  }

  /** The window between reading the history and subscribing. Whatever is published in it, an unrefused
      client gets the replay and the events owed of those that follow, and nothing of the window: so the
      stream is complete if and only if nothing it is owed fell into the window, and complete in ordinary
      versions if and only if only gray events and versions it has already did. */
  lemma MissedInBetween(project: string, branch: string, after: int, hist: seq<VersionRecord>, read: Reader,
                        missed: seq<PublishEvent>, rs: seq<Recv>)
    requires InOrder(hist) && hist != [] && after > 0 && !Pruned(after, hist) && AllReadable(read, Wanted(after, hist))
    requires Orderly(missed + BranchEvents(project, branch, rs))
    requires OrdinaryAbove(missed + BranchEvents(project, branch, rs), hist[|hist| - 1].no)
    ensures var es := BranchEvents(project, branch, rs);
            var out := Served(project, branch, after, hist, read, rs);
            var replay := ReplayEvents(read, Wanted(after, hist));
            && out.Ok?
            && Delivers(out.value, replay + WireAll(Owed(after, es)), EndsLagged(rs))
            && Ordinary(out.value) == OrdinaryRecords(Wanted(after, hist)) + OrdinaryVersions(Owed(after, es))
            && (Delivers(out.value, replay + WireAll(Owed(after, missed + es)), EndsLagged(rs)) <==>
                forall i | 0 <= i < |missed| :: !missed[i].gray && missed[i].version <= after)
            && ((forall v | v in OrdinaryVersions(Owed(after, missed)) :: v in Ordinary(out.value)) <==>
                forall i | 0 <= i < |missed| :: missed[i].gray || missed[i].version <= after)
  {
    hide Wanted, ReplayEvents, AllReadable, BranchEvents, Served, Ordinary, EndsLagged, Live, OrdinaryVersions,
         OrdinaryRecords, Owed, WireAll, Delivers, Orderly, OrdinaryAbove;
    var es := BranchEvents(project, branch, rs);
    LaterEvents(missed, es, hist[|hist| - 1].no);
    assert hist[0..] == hist;
    ExactlyOnce(project, branch, after, hist, 0, read, rs);
    var out := Served(project, branch, after, hist, read, rs).value;
    var replay := ReplayEvents(read, Wanted(after, hist));
    var due := replay + WireAll(Owed(after, es));
    DeliversFrom(out, due, EndsLagged(rs));
    OwedConcat(after, missed, es);
    NothingMissedIff(after, missed);
    OnlyOneDelivery(out, replay, Owed(after, missed), Owed(after, es), EndsLagged(rs));
    MissedVersions(after, hist, missed, es, Ordinary(out));
  }

  lemma DeliversFrom(out: seq<WatchEvent>, owed: seq<WatchEvent>, lagged: bool)
    requires |out| == |owed| + (if lagged then 1 else 0) && out[..|owed|] == owed && (lagged ==> out[|owed|].snapshotRequired)
    ensures Delivers(out, owed, lagged)
  {
  }

  lemma OnlyOneDelivery(out: seq<WatchEvent>, replay: seq<WatchEvent>, a: seq<PublishEvent>, b: seq<PublishEvent>, lagged: bool)
    requires Delivers(out, replay + WireAll(b), lagged)
    ensures Delivers(out, replay + WireAll(a + b), lagged) <==> a == []
  {
    hide WireAll;
    if a == [] {
      assert a + b == b;
    } else {
      assert |WireAll(a + b)| == |a + b| > |b|;
    }
  }

  lemma MissedVersions(after: int, hist: seq<VersionRecord>, missed: seq<PublishEvent>, es: seq<PublishEvent>, got: seq<int>)
    requires InOrder(hist) && hist != [] && Orderly(missed + es) && OrdinaryAbove(missed + es, hist[|hist| - 1].no)
    requires got == OrdinaryRecords(Wanted(after, hist)) + OrdinaryVersions(Owed(after, es))
    ensures (forall v | v in OrdinaryVersions(Owed(after, missed)) :: v in got) <==>
            forall i | 0 <= i < |missed| :: missed[i].gray || missed[i].version <= after
  {
    hide Wanted, OrdinaryVersions, OrdinaryRecords, Owed, Orderly, OrdinaryAbove, InOrder;
    var versions := OrdinaryVersions(Owed(after, missed));
    OrdinaryMissedIff(after, missed);
    if versions != [] {
      var v := versions[0];
      assert v in versions;
      MissedNowhere(after, hist, missed, es, v);
      assert v !in got;
    }
  }

  lemma LaterEvents(missed: seq<PublishEvent>, es: seq<PublishEvent>, floor: int)
    requires Orderly(missed + es) && OrdinaryAbove(missed + es, floor)
    ensures Orderly(es) && OrdinaryAbove(es, floor)
  {
    var all := missed + es;
    assert forall i | 0 <= i < |es| :: es[i] == all[|missed| + i];
  }

  lemma NothingMissedIff(after: int, missed: seq<PublishEvent>)
    ensures Owed(after, missed) == [] <==> forall i | 0 <= i < |missed| :: !missed[i].gray && missed[i].version <= after
  {
    hide Owed;
    forall i | 0 <= i < |missed|
      ensures missed[i] in Owed(after, missed) <==> missed[i].gray || missed[i].version > after
    {
      OwedMember(after, missed, missed[i]);
    }
    if Owed(after, missed) != [] {
      var e := Owed(after, missed)[0];
      OwedMember(after, missed, e);
      assert e in Owed(after, missed);
    }
  }

  lemma OrdinaryMissedIff(after: int, missed: seq<PublishEvent>)
    ensures OrdinaryVersions(Owed(after, missed)) == [] <==>
            forall i | 0 <= i < |missed| :: missed[i].gray || missed[i].version <= after
  {
    hide Owed, OrdinaryVersions;
    var owed := Owed(after, missed);
    forall i | 0 <= i < |missed| && !missed[i].gray && missed[i].version > after
      ensures missed[i].version as int in OrdinaryVersions(owed)
    {
      OwedMember(after, missed, missed[i]);
      OrdinaryVersionsMember(owed, missed[i].version);
    }
    if OrdinaryVersions(owed) != [] {
      var v := OrdinaryVersions(owed)[0];
      OrdinaryVersionsMember(owed, v);
      var e :| e in owed && !e.gray && e.version == v;
      OwedMember(after, missed, e);
    }
  }
}
