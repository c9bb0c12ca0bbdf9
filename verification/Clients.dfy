/** The watch loops of the SDKs and the version cursors they keep across reconnects. */
module Clients {
  import opened Model
  import opened Watch
  import opened Stream
  import opened Wire

  /** What a loop sees: a (re)connect, after a snapshot fetch that may fail, or an event. */
  datatype Input = Connect(snapshot: Option<int>) | Arrive(e: WatchEvent)

  function Anchored(last: int, snapshot: Option<int>): int {
    if snapshot.Some? then Max(last, snapshot.value) else last
  }

  // ---------------- the cursors as functions ----------------

  /** One cursor, re-anchored on connect, raised by every event that passes: Go HTTP, Python HTTP,
      and the emit cursor of Python gRPC. */
  ghost function Raising(last: int, ins: seq<Input>): (out: seq<WatchEvent>)
    decreases |ins|
  {
    if ins == [] then [] else
    match ins[0]
    case Connect(s) => Raising(Anchored(last, s), ins[1..])
    case Arrive(e) =>
      if e.version <= last && !e.gray then Raising(last, ins[1..])
      else [e] + Raising(Max(last, e.version), ins[1..])
  }

  /** One cursor that gray events do not raise: TypeScript HTTP, and, without re-anchoring, the emit
      cursor of TypeScript gRPC. */
  ghost function Plain(last: int, ins: seq<Input>, anchors: bool): (out: seq<WatchEvent>)
    decreases |ins|
  {
    if ins == [] then [] else
    match ins[0]
    case Connect(s) => Plain(if anchors then Anchored(last, s) else last, ins[1..], anchors)
    case Arrive(e) =>
      if !e.gray && e.version <= last then Plain(last, ins[1..], anchors)
      else [e] + Plain(if e.gray then last else e.version, ins[1..], anchors)
  }

  /** The highest version met, in a snapshot or an event: what a resume cursor stands at. */
  ghost function Seen(last: int, ins: seq<Input>): int
    decreases |ins|
  {
    if ins == [] then last else
    match ins[0]
    case Connect(s) => Seen(Anchored(last, s), ins[1..])
    case Arrive(e) => Seen(Max(last, e.version), ins[1..])
  }

  // ---------------- the loops ----------------

  /** Go `Client.Watch` and Python `_watch_http`. */
  method HttpWatch(ins: seq<Input>) returns (heard: seq<WatchEvent>)
    ensures heard == Raising(0, ins)
  {
    var lastVersion := 0;
    heard := [];
    for i := 0 to |ins|
      invariant heard + Raising(lastVersion, ins[i..]) == Raising(0, ins)
    {
      assert ins[i..][1..] == ins[i + 1..];
      match ins[i] {
        case Connect(s) =>
          if s.Some? && s.value > lastVersion {
            lastVersion := s.value;
          }
        case Arrive(e) =>
          if !(e.version <= lastVersion && !e.gray) {
            if e.version > lastVersion {
              lastVersion := e.version;
            }
            heard := heard + [e];
          }
      }
    }
  }

  /** Python `_watch_grpc`: a cursor to resume from and a cursor for what was emitted, which never
      part. */
  method PythonGrpcWatch(ins: seq<Input>) returns (heard: seq<WatchEvent>, after: int, lastEmitted: int)
    ensures heard == Raising(0, ins)
    ensures after == lastEmitted == Seen(0, ins)
  {
    after, lastEmitted := 0, 0;
    heard := [];
    for i := 0 to |ins|
      invariant after == lastEmitted && Seen(after, ins[i..]) == Seen(0, ins)
      invariant heard + Raising(lastEmitted, ins[i..]) == Raising(0, ins)
    {
      assert ins[i..][1..] == ins[i + 1..];
      match ins[i] {
        case Connect(s) =>
          if s.Some? {
            if s.value > after {
              after := s.value;
            }
            if s.value > lastEmitted {
              lastEmitted := s.value;
            }
          }
        case Arrive(e) =>
          after := Max(after, e.version);
          if !(e.version <= lastEmitted && !e.gray) {
            if e.version > lastEmitted {
              lastEmitted := e.version;
            }
            heard := heard + [e];
          }
      }
    }
  }

  /** TypeScript `watchHttp`. */
  method TsHttpWatch(ins: seq<Input>) returns (heard: seq<WatchEvent>)
    ensures heard == Plain(0, ins, true)
  {
    var lastVersion := 0;
    heard := [];
    for i := 0 to |ins|
      invariant heard + Plain(lastVersion, ins[i..], true) == Plain(0, ins, true)
    {
      assert ins[i..][1..] == ins[i + 1..];
      match ins[i] {
        case Connect(s) =>
          if s.Some? && s.value > lastVersion {
            lastVersion := s.value;
          }
        case Arrive(e) =>
          if e.gray || e.version > lastVersion {
            if !e.gray {
              lastVersion := e.version;
            }
            heard := heard + [e];
          }
      }
    }
  }

  lemma ArrivedStep(ins: seq<Input>, i: nat)
    requires i < |ins|
    ensures Arrived(ins[i..]) == (if ins[i].Arrive? then [ins[i].e] else []) + Arrived(ins[i + 1..])
    ensures forall c: int ::
              PlainCursor(c, Arrived(ins[i..])) ==
              if ins[i].Arrive? && !ins[i].e.gray && ins[i].e.version > c
              then PlainCursor(ins[i].e.version, Arrived(ins[i + 1..])) else PlainCursor(c, Arrived(ins[i + 1..]))
  {
    assert ins[i..][1..] == ins[i + 1..];
    var rest := Arrived(ins[i + 1..]);
    if ins[i].Arrive? {
      assert ([ins[i].e] + rest)[1..] == rest;
    } else {
      assert [] + rest == rest;
    }
  }

  /** TypeScript gRPC `watch`: only the resume cursor is re-anchored, and raised by gray events. */
  method TsGrpcWatch(ins: seq<Input>) returns (heard: seq<WatchEvent>, after: int, lastEmitted: int)
    ensures heard == Plain(0, ins, false)
    ensures after == Seen(0, ins) && lastEmitted == PlainCursor(0, Arrived(ins)) && lastEmitted <= after
  {
    hide Arrived, PlainCursor, Seen, Plain;
    after, lastEmitted := 0, 0;
    heard := [];
    assert ins[0..] == ins;
    for i := 0 to |ins|
      invariant lastEmitted <= after && Seen(after, ins[i..]) == Seen(0, ins)
      invariant PlainCursor(lastEmitted, Arrived(ins[i..])) == PlainCursor(0, Arrived(ins))
      invariant heard + Plain(lastEmitted, ins[i..], false) == Plain(0, ins, false)
    {
      ArrivedStep(ins, i);
      InputStep(ins, i, after, lastEmitted);
      match ins[i] {
        case Connect(s) =>
          after := Anchored(after, s);
        case Arrive(e) =>
          after := Max(after, e.version);
          if e.gray || e.version > lastEmitted {
            if !e.gray {
              lastEmitted := e.version;
            }
            Regroup(heard, [e], Plain(lastEmitted, ins[i + 1..], false));
            heard := heard + [e];
          }
      }
    }
    assert ins[|ins|..] == [];
    NothingLeft(lastEmitted, after);
  }

  lemma NothingLeft(last: int, after: int)
    ensures Seen(after, []) == after && PlainCursor(last, Arrived([])) == last && Plain(last, [], false) == []
  {
  }

  lemma InputStep(ins: seq<Input>, i: nat, after: int, last: int)
    requires i < |ins|
    ensures Seen(after, ins[i..]) ==
            Seen(if ins[i].Connect? then Anchored(after, ins[i].snapshot) else Max(after, ins[i].e.version), ins[i + 1..])
    ensures Plain(last, ins[i..], false) ==
            if ins[i].Connect? || (!ins[i].e.gray && ins[i].e.version <= last) then Plain(last, ins[i + 1..], false)
            else [ins[i].e] + Plain(if ins[i].e.gray then last else ins[i].e.version, ins[i + 1..], false)
  {
    assert ins[i..][1..] == ins[i + 1..];
  }

  // ---------------- exactly what passes ----------------

  /** The highest version met so far is one that was met, or the start, and none met is above it. */
  lemma {:induction false} SeenExact(last: int, ins: seq<Input>)
    ensures last <= Seen(last, ins)
    ensures forall i | 0 <= i < |ins| :: ins[i].Arrive? ==> ins[i].e.version <= Seen(last, ins)
    ensures forall i | 0 <= i < |ins| :: ins[i].Connect? && ins[i].snapshot.Some? ==> ins[i].snapshot.value <= Seen(last, ins)
    ensures Seen(last, ins) == last
            || (exists i :: 0 <= i < |ins| && ins[i].Arrive? && ins[i].e.version == Seen(last, ins))
            || (exists i :: 0 <= i < |ins| && ins[i].Connect? && ins[i].snapshot == Some(Seen(last, ins)))
    decreases |ins|
  {
    if ins != [] {
      var next := if ins[0].Connect? then Anchored(last, ins[0].snapshot) else Max(last, ins[0].e.version);
      SeenExact(next, ins[1..]);
      assert forall i | 1 <= i < |ins| :: ins[i] == ins[1..][i - 1];
      assert forall i | 0 <= i < |ins[1..]| :: ins[1..][i] == ins[i + 1];
    }
  }

  /** The next event passes a raising loop if and only if it is gray or above every version met so far. */
  lemma {:induction false} RaisingNext(last: int, ins: seq<Input>, e: WatchEvent)
    ensures Raising(last, ins + [Arrive(e)]) == Raising(last, ins) + if e.gray || e.version > Seen(last, ins) then [e] else []
    decreases |ins|
  {
    var more := ins + [Arrive(e)];
    if ins == [] {
      assert more[1..] == [];
    } else {
      assert more[1..] == ins[1..] + [Arrive(e)] && more[0] == ins[0];
      match ins[0]
      case Connect(s) => RaisingNext(Anchored(last, s), ins[1..], e);
      case Arrive(w) =>
        RaisingNext(Max(last, w.version), ins[1..], e);
    }
  }

  /** Where the cursor of a plain loop stands. */
  ghost function PlainSeen(last: int, ins: seq<Input>, anchors: bool): int
    decreases |ins|
  {
    if ins == [] then last else
    match ins[0]
    case Connect(s) => PlainSeen(if anchors then Anchored(last, s) else last, ins[1..], anchors)
    case Arrive(e) => PlainSeen(if e.gray then last else Max(last, e.version), ins[1..], anchors)
  }

  /** It is the highest ordinary version met so far, or, where the loop anchors, snapshot version. */
  lemma {:induction false} PlainSeenExact(last: int, ins: seq<Input>, anchors: bool)
    ensures last <= PlainSeen(last, ins, anchors)
    ensures forall i | 0 <= i < |ins| :: ins[i].Arrive? && !ins[i].e.gray ==> ins[i].e.version <= PlainSeen(last, ins, anchors)
    ensures forall i | 0 <= i < |ins| ::
              anchors && ins[i].Connect? && ins[i].snapshot.Some? ==> ins[i].snapshot.value <= PlainSeen(last, ins, anchors)
    ensures PlainSeen(last, ins, anchors) == last
            || (exists i :: 0 <= i < |ins| && ins[i].Arrive? && !ins[i].e.gray && ins[i].e.version == PlainSeen(last, ins, anchors))
            || (anchors && exists i :: 0 <= i < |ins| && ins[i].Connect? && ins[i].snapshot == Some(PlainSeen(last, ins, anchors)))
    decreases |ins|
  {
    if ins != [] {
      var next := match ins[0]
                  case Connect(s) => if anchors then Anchored(last, s) else last
                  case Arrive(e) => if e.gray then last else Max(last, e.version);
      PlainSeenExact(next, ins[1..], anchors);
      assert forall i | 1 <= i < |ins| :: ins[i] == ins[1..][i - 1];
      assert forall i | 0 <= i < |ins[1..]| :: ins[1..][i] == ins[i + 1];
    }
  }

  /** The next event passes a plain loop if and only if it is gray or above those. */
  lemma {:induction false} PlainNext(last: int, ins: seq<Input>, anchors: bool, e: WatchEvent)
    ensures Plain(last, ins + [Arrive(e)], anchors) ==
            Plain(last, ins, anchors) + if e.gray || e.version > PlainSeen(last, ins, anchors) then [e] else []
    decreases |ins|
  {
    var more := ins + [Arrive(e)];
    if ins == [] {
      assert more[1..] == [];
    } else {
      assert more[1..] == ins[1..] + [Arrive(e)] && more[0] == ins[0];
      match ins[0]
      case Connect(s) => PlainNext(if anchors then Anchored(last, s) else last, ins[1..], anchors, e);
      case Arrive(w) =>
        PlainNext(if w.gray then last else Max(last, w.version), ins[1..], anchors, e);
    }
  }

  // ---------------- what every filtering loop guarantees ----------------

  ghost function Arrived(ins: seq<Input>): (es: seq<WatchEvent>)
    decreases |ins|
  {
    if ins == [] then [] else (if ins[0].Arrive? then [ins[0].e] else []) + Arrived(ins[1..])
  }

  ghost function GrayOnly(es: seq<WatchEvent>): (gs: seq<WatchEvent>) {
    if es == [] then [] else (if es[0].gray then [es[0]] else []) + GrayOnly(es[1..])
  }

  ghost function NonGrayVersions(es: seq<WatchEvent>): (vs: seq<int>) {
    if es == [] then [] else (if es[0].gray then [] else [es[0].version]) + NonGrayVersions(es[1..])
  }

  /** For arbitrary inputs, duplicated and reordered as they may be, a raising loop passes every gray
      event and passes the others with strictly rising versions, all above where it started. */
  lemma {:induction false} RaisingGuarantee(last: int, ins: seq<Input>)
    ensures GrayOnly(Raising(last, ins)) == GrayOnly(Arrived(ins))
    ensures Rising(NonGrayVersions(Raising(last, ins))) && AllAbove(NonGrayVersions(Raising(last, ins)), last)
    decreases |ins|
  {
    if ins != [] {
      match ins[0]
      case Connect(s) =>
        RaisingGuarantee(Anchored(last, s), ins[1..]);
        assert Arrived(ins) == Arrived(ins[1..]);
      case Arrive(e) =>
        assert ([e] + Arrived(ins[1..]))[1..] == Arrived(ins[1..]);
        if e.version <= last && !e.gray {
          RaisingGuarantee(last, ins[1..]);
        } else {
          var tail := Raising(Max(last, e.version), ins[1..]);
          RaisingGuarantee(Max(last, e.version), ins[1..]);
          assert ([e] + tail)[1..] == tail;
        }
    }
  }

  /** The same for the loops that gray events do not raise. */
  lemma {:induction false} PlainGuarantee(last: int, ins: seq<Input>, anchors: bool)
    ensures GrayOnly(Plain(last, ins, anchors)) == GrayOnly(Arrived(ins))
    ensures Rising(NonGrayVersions(Plain(last, ins, anchors))) && AllAbove(NonGrayVersions(Plain(last, ins, anchors)), last)
    decreases |ins|
  {
    if ins != [] {
      match ins[0]
      case Connect(s) =>
        PlainGuarantee(if anchors then Anchored(last, s) else last, ins[1..], anchors);
        assert Arrived(ins) == Arrived(ins[1..]);
      case Arrive(e) =>
        assert ([e] + Arrived(ins[1..]))[1..] == Arrived(ins[1..]);
        if !e.gray && e.version <= last {
          PlainGuarantee(last, ins[1..], anchors);
        } else {
          var next := if e.gray then last else e.version;
          var tail := Plain(next, ins[1..], anchors);
          PlainGuarantee(next, ins[1..], anchors);
          assert ([e] + tail)[1..] == tail;
        }
    }
  }

  // ---------------- the loops compared ----------------

  lemma {:induction false} SubsequenceCons<T>(a: seq<T>, b: seq<T>, x: T)
    requires Subsequence(a, b)
    ensures Subsequence(a, [x] + b) && Subsequence([x] + a, [x] + b)
    decreases |a| + |b|
  {
    if b == [] {
      assert a == [];
      assert ([x] + b)[..0] == [] && ([x] + a)[..0] == [];
    } else {
      assert ([x] + b)[..|b|] == [x] + b[..|b| - 1];
      if a != [] && a[|a| - 1] == b[|b| - 1] && Subsequence(a[..|a| - 1], b[..|b| - 1]) {
        SubsequenceCons(a[..|a| - 1], b[..|b| - 1], x);
        assert ([x] + a)[..|a|] == [x] + a[..|a| - 1];
      } else {
        SubsequenceCons(a, b[..|b| - 1], x);
        assert ([x] + a)[|a|] == if a == [] then x else a[|a| - 1];
      }
    }
  }

  lemma {:induction false} SubsequenceLength<T>(a: seq<T>, b: seq<T>)
    requires Subsequence(a, b)
    ensures |a| <= |b|
  {
    if a != [] {
      if a[|a| - 1] == b[|b| - 1] && Subsequence(a[..|a| - 1], b[..|b| - 1]) {
        SubsequenceLength(a[..|a| - 1], b[..|b| - 1]);
      } else {
        SubsequenceLength(a, b[..|b| - 1]);
      }
    }
  }

  /** With the same inputs, the TypeScript HTTP loop delivers everything the Go and Python HTTP loops
      deliver, in the same order. */
  lemma {:induction false} PlainCoversRaising(r: int, p: int, ins: seq<Input>)
    requires p <= r
    ensures Subsequence(Raising(r, ins), Plain(p, ins, true))
    decreases |ins|
  {
    if ins != [] {
      match ins[0]
      case Connect(s) =>
        PlainCoversRaising(Anchored(r, s), Anchored(p, s), ins[1..]);
      case Arrive(e) =>
        var r' := if e.version <= r && !e.gray then r else Max(r, e.version);
        var p' := if e.gray || e.version <= p then p else e.version;
        PlainCoversRaising(r', p', ins[1..]);
        SubsequenceCons(Raising(r', ins[1..]), Plain(p', ins[1..], true), e);
    }
  }

  /** No gray version reaches or passes a later ordinary version that is new: `p` is the highest
      snapshot or ordinary version so far, `g` the highest gray one. */
  predicate NoOvertaking(p: int, g: int, ins: seq<Input>)
    decreases |ins|
  {
    ins == [] ||
    match ins[0]
    case Connect(s) => NoOvertaking(Anchored(p, s), g, ins[1..])
    case Arrive(e) =>
      if e.gray then NoOvertaking(p, Max(g, e.version), ins[1..])
      else (e.version > p ==> e.version > g) && NoOvertaking(Max(p, e.version), g, ins[1..])
  }

  /** The two kinds of loop deliver the same trace exactly when no gray version overtakes. */
  lemma {:induction false} SameTraceIff(p: int, g: int, ins: seq<Input>)
    ensures Raising(Max(p, g), ins) == Plain(p, ins, true) <==> NoOvertaking(p, g, ins)
    decreases |ins|
  {
    if ins != [] {
      var r, rest := Max(p, g), ins[1..];
      match ins[0]
      case Connect(s) =>
        SameTraceConnect(p, g, s, rest);
        SameTraceIff(Anchored(p, s), g, rest);
      case Arrive(e) =>
        if e.gray {
          SameTraceIff(p, Max(g, e.version), rest);
          ConsSame(e, Raising(Max(r, e.version), rest), Plain(p, rest, true));
        } else if e.version <= p {
          SameTraceIff(p, g, rest);
        } else if e.version <= g {
          PlainCoversRaising(r, e.version, rest);
          SubsequenceLength(Raising(r, rest), Plain(e.version, rest, true));
        } else {
          SameTraceIff(e.version, g, rest);
          ConsSame(e, Raising(e.version, rest), Plain(e.version, rest, true));
        }
    }
  }

  lemma ConsSame<T>(x: T, a: seq<T>, b: seq<T>)
    ensures [x] + a == [x] + b <==> a == b
  {
    assert ([x] + a)[1..] == a && ([x] + b)[1..] == b;
  }

  lemma SameTraceConnect(p: int, g: int, s: Option<int>, rest: seq<Input>)
    ensures Anchored(Max(p, g), s) == Max(Anchored(p, s), g)
  {
  }

  // ---------------- the notice ----------------

  ghost function Arrivals(es: seq<WatchEvent>): (ins: seq<Input>)
    ensures |ins| == |es| && forall i | 0 <= i < |es| :: ins[i] == Arrive(es[i])
  {
    seq(|es|, i requires 0 <= i < |es| => Arrive(es[i]))
  }

  /** A raising loop that resumed from its own cursor hears no `snapshot_required`: the notice carries
      the server's cursor, which the loop's cursor has reached by then. */
  lemma {:induction false} NoticeInLive(project: string, branch: string, last: int, cursor: int, rs: seq<Recv>, e: WatchEvent)
    requires last <= cursor
    requires e in Raising(cursor, Arrivals(Live(project, branch, last, rs)))
    ensures !e.snapshotRequired
    decreases |rs|
  {
    var live := Live(project, branch, last, rs);
    if rs != [] && rs[0].Event? {
      var p := rs[0].e;
      if ForBranch(p, project, branch) && (p.gray || p.version > last) {
        var w, tail := ToWire(p), Live(project, branch, Max(last, p.version), rs[1..]);
        assert Arrivals(live)[1..] == Arrivals(tail);
        var next := if w.version <= cursor && !w.gray then cursor else Max(cursor, w.version);
        if e != w {
          NoticeInLive(project, branch, Max(last, p.version), next, rs[1..], e);
        }
      } else {
        NoticeInLive(project, branch, last, cursor, rs[1..], e);
      }
    } else if rs != [] && rs[0].Lagged? {
      assert Arrivals(live)[1..] == [];
    }
  }

  lemma {:induction false} RaisingThrough(cursor: int, es: seq<WatchEvent>, more: seq<WatchEvent>, e: WatchEvent)
    requires forall i | 0 <= i < |es| :: !es[i].snapshotRequired
    requires e in Raising(cursor, Arrivals(es + more)) && e.snapshotRequired
    ensures exists c :: LastOf(cursor, es) <= c && e in Raising(c, Arrivals(more))
    decreases |es|
  {
    if es == [] {
      assert es + more == more;
    } else {
      var w := es[0];
      assert Arrivals(es + more)[1..] == Arrivals(es[1..] + more);
      var next := if w.version <= cursor && !w.gray then cursor else Max(cursor, w.version);
      RaisingThrough(next, es[1..], more, e);
      assert LastOf(next, es[1..]) >= LastOf(cursor, es);
    }
  }

  /** Composition with the server: whatever the history and the received events, and although a
      pruned start or a lag ends the stream with `snapshot_required`, a raising loop that asked from
      its cursor passes no such event on. */
  lemma NoticeNeverHeard(project: string, branch: string, cursor: int, hist: seq<VersionRecord>, read: Reader, rs: seq<Recv>, e: WatchEvent)
    requires Served(project, branch, cursor, hist, read, rs).Ok?
    requires e in Raising(cursor, Arrivals(Served(project, branch, cursor, hist, read, rs).value))
    ensures !e.snapshotRequired
  {
    hide Live, ReplayEvents, Wanted, AllReadable, Raising;
    if e.snapshotRequired {
      var out := Served(project, branch, cursor, hist, read, rs).value;
      if cursor > 0 && Watch.Pruned(cursor, hist) {
        NoticeAlone(cursor, e);
      } else {
        var replay := if cursor <= 0 then [] else ReplayEvents(read, Wanted(cursor, hist));
        if cursor > 0 {
          ReplayHasNoNotice(read, Wanted(cursor, hist));
        }
        var last := LastOf(cursor, replay);
        var live := Live(project, branch, last, rs);
        RaisingThrough(cursor, replay, live, e);
        var c :| last <= c && e in Raising(c, Arrivals(live));
        NoticeInLive(project, branch, last, c, rs, e);
      }
    }
  }

  lemma {:induction false} ReplayAt(read: Reader, recs: seq<VersionRecord>, i: nat)
    requires AllReadable(read, recs) && i < |recs|
    ensures ReplayEvents(read, recs)[i].version == recs[i].no
    ensures ReplayEvents(read, recs)[i].gray == recs[i].gray
    ensures !ReplayEvents(read, recs)[i].snapshotRequired
    decreases |recs|
  {
    hide Diff.Changes, Chain;
    var n := |recs| - 1;
    assert recs == recs[..n] + [recs[n]];
    if i < n {
      ReplayAt(read, recs[..n], i);
    }
    ReplaySnoc(read, recs[..n], recs[n]);
  }

  /** Where the cursor of a loop that gray events do not raise stands after some events. */
  function PlainCursor(c: int, es: seq<WatchEvent>): int
    decreases |es|
  {
    if es == [] then c
    else PlainCursor(if es[0].gray || es[0].version <= c then c else es[0].version, es[1..])
  }

  lemma {:induction false} PlainThrough(c: int, es: seq<WatchEvent>, n: WatchEvent, anchors: bool)
    requires (forall i | 0 <= i < |es| :: !es[i].snapshotRequired) && n.snapshotRequired && !n.gray
    ensures n in Plain(c, Arrivals(es + [n]), anchors) <==> n.version > PlainCursor(c, es)
    decreases |es|
  {
    if es == [] {
      assert es + [n] == [n] && Arrivals([n])[1..] == [];
    } else {
      assert Arrivals(es + [n])[1..] == Arrivals(es[1..] + [n]);
      PlainThrough(if es[0].gray || es[0].version <= c then c else es[0].version, es[1..], n, anchors);
    }
  }

  /** A version is above that cursor when it is above its start and above every ordinary version. */
  lemma {:induction false} AbovePlainCursor(c: int, es: seq<WatchEvent>, v: int)
    ensures v > PlainCursor(c, es) <==> v > c && forall i | 0 <= i < |es| :: es[i].gray || es[i].version < v
    decreases |es|
  {
    if es != [] {
      AbovePlainCursor(if es[0].gray || es[0].version <= c then c else es[0].version, es[1..], v);
      assert (forall i | 0 <= i < |es| :: es[i].gray || es[i].version < v) <==>
          (es[0].gray || es[0].version < v) && forall i | 0 <= i < |es[1..]| :: es[1..][i].gray || es[1..][i].version < v by {
        assert forall i | 0 <= i < |es[1..]| :: es[1..][i] == es[i + 1];
        assert forall i | 1 <= i < |es| :: es[i] == es[1..][i - 1];
      }
    }
  }

  lemma {:induction false} HighestThrough(c: int, es: seq<WatchEvent>, more: seq<WatchEvent>)
    ensures Highest(c, es + more) == Highest(Highest(c, es), more)
    decreases |es|
  {
    if es == [] {
      assert es + more == more;
    } else {
      HighestThrough(Max(c, es[0].version), es[1..], more);
      assert (es + more)[1..] == es[1..] + more;
    }
  }

  lemma {:induction false} HighestIsLast(c: int, es: seq<WatchEvent>)
    requires (forall i | 0 <= i < |es| :: es[i].version > c) && forall i, j | 0 <= i < j < |es| :: es[i].version < es[j].version
    ensures Highest(c, es) == LastOf(c, es)
    decreases |es|
  {
    if es != [] {
      HighestIsLast(es[0].version, es[1..]);
    }
  }

  ghost predicate OnlyLast(es: seq<WatchEvent>, noticed: bool) {
    forall i | 0 <= i < |es| && es[i].snapshotRequired :: i == |es| - 1 && noticed
  }

  /** A notice as the last event, with the highest version before it. */
  ghost predicate EndsNoticed(from: int, es: seq<WatchEvent>) {
    es != [] && es[|es| - 1] == Notice(Highest(from, es[..|es| - 1]), "slow consumer: snapshot required")
  }

  lemma EndsCons(from: int, w: WatchEvent, tail: seq<WatchEvent>, lagged: bool)
    requires OnlyLast(tail, lagged) && (lagged ==> EndsNoticed(Max(from, w.version), tail)) && !w.snapshotRequired
    ensures OnlyLast([w] + tail, lagged) && (lagged ==> EndsNoticed(from, [w] + tail))
  {
    if lagged {
      var front := tail[..|tail| - 1];
      assert ([w] + tail)[..|tail|] == [w] + front;
      assert ([w] + front)[1..] == front;
    }
  }

  lemma EndsAtNotice(from: int)
    ensures EndsNoticed(from, [Notice(from, "slow consumer: snapshot required")])
    ensures OnlyLast([Notice(from, "slow consumer: snapshot required")], true) && OnlyLast([], false)
  {
    assert [Notice(from, "slow consumer: snapshot required")][..0] == [];
  }

  /** Only the last event can be a notice; it is there after a lag, and carries the highest version. */
  lemma {:induction false} LiveEnds(project: string, branch: string, last: int, rs: seq<Recv>)
    ensures OnlyLast(Live(project, branch, last, rs), EndsLagged(rs))
    ensures EndsLagged(rs) ==> EndsNoticed(last, Live(project, branch, last, rs))
    decreases |rs|
  {
    hide OnlyLast, EndsNoticed;
    EndsAtNotice(last);
    if rs != [] && rs[0].Event? {
      var e := rs[0].e;
      if ForBranch(e, project, branch) && (e.gray || e.version > last) {
        var next := Max(last, e.version);
        LiveEnds(project, branch, next, rs[1..]);
        EndsCons(last, ToWire(e), Live(project, branch, next, rs[1..]), EndsLagged(rs));
      } else {
        LiveEnds(project, branch, last, rs[1..]);
      }
    }
  }

  /** The stream of one call: only its last event can be a notice; it is there exactly after a pruned
      start or a lag, and carries the highest version sent, or asked from. */
  lemma ServedEnds(project: string, branch: string, after: int, hist: seq<VersionRecord>, read: Reader, rs: seq<Recv>)
    requires InOrder(hist) && Served(project, branch, after, hist, read, rs).Ok?
    ensures var out := Served(project, branch, after, hist, read, rs).value;
            var noticed := (after > 0 && Watch.Pruned(after, hist)) || EndsLagged(rs);
            && OnlyLast(out, noticed)
            && (noticed ==>
                  && out != [] && out[|out| - 1].snapshotRequired && !out[|out| - 1].gray
                  && out[|out| - 1].version == Highest(after, out[..|out| - 1]))
  {
    hide Live, ReplayEvents, Wanted, AllReadable, Highest, InOrder;
    var out := Served(project, branch, after, hist, read, rs).value;
    if after > 0 && Watch.Pruned(after, hist) {
      HighestOfNone(after);
      assert out[..0] == [];
    } else {
      var replay := if after <= 0 then [] else ReplayEvents(read, Wanted(after, hist));
      var last := LastOf(after, replay);
      if after > 0 {
        ReplayRises(after, hist, read);
      } else {
        HighestOfNone(after);
      }
      LiveEnds(project, branch, last, rs);
      EndsJoin(after, replay, Live(project, branch, last, rs), last, EndsLagged(rs));
    }
  }

  lemma ReplayRises(after: int, hist: seq<VersionRecord>, read: Reader)
    requires InOrder(hist) && AllReadable(read, Wanted(after, hist))
    ensures var replay := ReplayEvents(read, Wanted(after, hist));
            && (forall i | 0 <= i < |replay| :: !replay[i].snapshotRequired)
            && Highest(after, replay) == LastOf(after, replay)
  {
    hide ReplayEvents, Wanted, AllReadable, Highest;
    var recs := Wanted(after, hist);
    var replay := ReplayEvents(read, recs);
    WantedFacts(after, hist);
    forall i | 0 <= i < |recs|
      ensures replay[i].version == recs[i].no > after && !replay[i].snapshotRequired
    {
      ReplayAt(read, recs, i);
      assert recs[i] in recs;
    }
    HighestIsLast(after, replay);
  }

  lemma EndsJoin(after: int, replay: seq<WatchEvent>, live: seq<WatchEvent>, last: int, lagged: bool)
    requires (forall i | 0 <= i < |replay| :: !replay[i].snapshotRequired) && Highest(after, replay) == last
    requires OnlyLast(live, lagged)
    requires lagged ==> EndsNoticed(last, live)
    ensures var out := replay + live;
            && OnlyLast(out, lagged)
            && (lagged ==>
                  && out != [] && out[|out| - 1].snapshotRequired && !out[|out| - 1].gray
                  && out[|out| - 1].version == Highest(after, out[..|out| - 1]))
  {
    hide Highest;
    var out := replay + live;
    if lagged {
      var front := live[..|live| - 1];
      assert out[..|out| - 1] == replay + front;
      HighestThrough(after, replay, front);
    }
  }

  lemma HighestOfNone(c: int)
    ensures Highest(c, []) == c
  {
  }

  lemma {:induction false} PlainMembers(c: int, es: seq<WatchEvent>, anchors: bool, e: WatchEvent)
    requires e in Plain(c, Arrivals(es), anchors)
    ensures e in es
    decreases |es|
  {
    if es != [] {
      assert Arrivals(es)[1..] == Arrivals(es[1..]);
      if e != es[0] {
        var next := if !es[0].gray && es[0].version <= c then c else if es[0].gray then c else es[0].version;
        PlainMembers(next, es[1..], anchors, e);
      }
    }
  }

  /** The TypeScript gRPC loop, which asks from one cursor and filters by another, passes a notice on if
      and only if the stream ends with one and its version, the highest sent or asked from, is above the
      last emitted version and was not sent as an ordinary event: it is that of a gray event, or of the
      snapshot the loop re-anchored at. */
  lemma TsGrpcHearsNoticeIff(project: string, branch: string, lastEmitted: int, after: int, hist: seq<VersionRecord>,
                             read: Reader, rs: seq<Recv>)
    requires InOrder(hist) && Served(project, branch, after, hist, read, rs).Ok?
    ensures var out := Served(project, branch, after, hist, read, rs).value;
            (exists e :: e in Plain(lastEmitted, Arrivals(out), false) && e.snapshotRequired) <==>
            && ((after > 0 && Watch.Pruned(after, hist)) || EndsLagged(rs))
            && out != []
            && var top := Highest(after, out[..|out| - 1]);
               lastEmitted < top && forall i | 0 <= i < |out| - 1 :: out[i].gray || out[i].version < top
  {
    hide Served, Highest, Plain, Watch.Pruned, EndsLagged;
    var out := Served(project, branch, after, hist, read, rs).value;
    ServedEnds(project, branch, after, hist, read, rs);
    if (after > 0 && Watch.Pruned(after, hist)) || EndsLagged(rs) {
      var front, n := out[..|out| - 1], out[|out| - 1];
      assert out == front + [n];
      PlainThrough(lastEmitted, front, n, false);
      AbovePlainCursor(lastEmitted, front, n.version);
      forall e | e in Plain(lastEmitted, Arrivals(out), false) && e.snapshotRequired
        ensures e == n
      {
        PlainMembers(lastEmitted, out, false, e);
      }
    } else {
      forall e | e in Plain(lastEmitted, Arrivals(out), false)
        ensures !e.snapshotRequired
      {
        PlainMembers(lastEmitted, out, false, e);
      }
    }
  }

  lemma NoticeAlone(cursor: int, e: WatchEvent)
    ensures e !in Raising(cursor, Arrivals([Notice(cursor, "snapshot required (start pruned)")]))
  {
    var ins := Arrivals([Notice(cursor, "snapshot required (start pruned)")]);
    assert ins[1..] == [];
  }

  lemma {:induction false} ReplayHasNoNotice(read: Reader, recs: seq<VersionRecord>)
    requires AllReadable(read, recs)
    ensures forall i | 0 <= i < |recs| :: !ReplayEvents(read, recs)[i].snapshotRequired
  {
    hide Diff.Changes, Chain;
    if recs != [] {
      var n := |recs| - 1;
      assert recs == recs[..n] + [recs[n]];
      ReplayHasNoNotice(read, recs[..n]);
      ReplaySnoc(read, recs[..n], recs[n]);
    }
  }

  // ---------------- the unfiltered Go gRPC loop ----------------

  /** One round of the loop: the snapshot fetch, and the events received before the disconnect. */
  datatype Session = Session(snapshot: Option<int>, events: seq<WatchEvent>)

  ghost function Highest(after: int, es: seq<WatchEvent>): (h: int)
    ensures after <= h
    ensures forall e | e in es :: e.version <= h
    decreases |es|
  {
    if es == [] then after else
      assert forall e | e in es :: e == es[0] || e in es[1..];
      Highest(Max(after, es[0].version), es[1..])
  }

  ghost function GoHeard(ss: seq<Session>): (heard: seq<WatchEvent>) {
    if ss == [] then [] else ss[0].events + GoHeard(ss[1..])
  }

  /** The `after_version` each round asks from. */
  ghost function GoAsked(after: int, ss: seq<Session>): (asked: seq<int>)
    ensures |asked| == |ss|
    decreases |ss|
  {
    if ss == [] then [] else
      var from := Anchored(after, ss[0].snapshot);
      [from] + GoAsked(Highest(from, ss[0].events), ss[1..])
  }

  lemma {:induction false} HighestMet(after: int, es: seq<WatchEvent>)
    ensures Highest(after, es) == after || exists i :: 0 <= i < |es| && es[i].version == Highest(after, es)
    decreases |es|
  {
    if es != [] {
      HighestMet(Max(after, es[0].version), es[1..]);
      assert forall i | 0 <= i < |es[1..]| :: es[1..][i] == es[i + 1];
    }
  }

  /** A version the client knows of before its round `i`: it began with it, fetched it in a snapshot, that
      of the round included, or heard it. */
  ghost predicate Knows(after: int, ss: seq<Session>, i: nat, v: int)
    requires i < |ss|
  {
    || v == after
    || (exists j :: 0 <= j <= i && ss[j].snapshot == Some(v))
    || (exists j, k :: 0 <= j < i && 0 <= k < |ss[j].events| && ss[j].events[k].version == v)
  }

  lemma KnowsLater(after: int, from: int, ss: seq<Session>, i: nat, v: int)
    requires 0 < i < |ss| && Knows(from, ss[1..], i - 1, v)
    requires Knows(after, ss, 0, from) || exists k :: 0 <= k < |ss[0].events| && ss[0].events[k].version == from
    ensures Knows(after, ss, i, v)
  {
    if v == from {
      if k :| 0 <= k < |ss[0].events| && ss[0].events[k].version == from {
        assert ss[0].events[k].version == v;
      }
    } else if j :| 0 <= j <= i - 1 && ss[1..][j].snapshot == Some(v) {
      assert ss[j + 1].snapshot == Some(v);
    } else {
      var j, k :| 0 <= j < i - 1 && 0 <= k < |ss[1..][j].events| && ss[1..][j].events[k].version == v;
      assert ss[j + 1].events[k].version == v;
    }
  }

  /** Each round asks from the highest version the client knows of. */
  lemma {:induction false} GoAskedExact(after: int, ss: seq<Session>, i: nat, v: int)
    requires i < |ss|
    ensures Knows(after, ss, i, GoAsked(after, ss)[i])
    ensures Knows(after, ss, i, v) ==> v <= GoAsked(after, ss)[i]
    decreases i
  {
    var from := Anchored(after, ss[0].snapshot);
    if i > 0 {
      hide Knows;
      var next := Highest(from, ss[0].events);
      HighestMet(from, ss[0].events);
      FirstKnown(after, ss, from);
      GoAskedExact(next, ss[1..], i - 1, v);
      GoAskedExact(next, ss[1..], i - 1, next);
      KnowsStart(next, ss[1..], i - 1);
      KnowsLater(after, next, ss, i, GoAsked(next, ss[1..])[i - 1]);
      if Knows(after, ss, i, v) {
        KnowsSplit(after, ss, i, v, next);
      }
    } else {
      FirstKnown(after, ss, from);
    }
  }

  lemma FirstKnown(after: int, ss: seq<Session>, from: int)
    requires ss != [] && from == Anchored(after, ss[0].snapshot)
    ensures Knows(after, ss, 0, from)
    ensures forall v | Knows(after, ss, 0, v) :: v <= from
  {
  }

  lemma KnowsStart(after: int, ss: seq<Session>, i: nat)
    requires i < |ss|
    ensures Knows(after, ss, i, after)
  {
  }

  lemma KnowsSplit(after: int, ss: seq<Session>, i: nat, v: int, next: int)
    requires 0 < i < |ss| && Knows(after, ss, i, v) && next == Highest(Anchored(after, ss[0].snapshot), ss[0].events)
    ensures v <= next || Knows(next, ss[1..], i - 1, v)
  {
    assert forall k | 0 <= k < |ss[0].events| :: ss[0].events[k] in ss[0].events && ss[0].events[k].version <= next;
    if v > next {
      if j :| 0 <= j <= i && ss[j].snapshot == Some(v) {
        assert j > 0 && ss[1..][j - 1] == ss[j];
      } else if j, k :| 0 <= j < i && 0 <= k < |ss[j].events| && ss[j].events[k].version == v {
        if j > 0 {
          assert ss[1..][j - 1] == ss[j];
        }
      }
    }
  }

  lemma GoRound(ss: seq<Session>, i: nat, after: int)
    requires i < |ss|
    ensures GoHeard(ss[i..]) == ss[i].events + GoHeard(ss[i + 1..])
    ensures var from := Anchored(after, ss[i].snapshot);
            GoAsked(after, ss[i..]) == [from] + GoAsked(Highest(from, ss[i].events), ss[i + 1..])
  {
    assert ss[i..][1..] == ss[i + 1..];
  }

  lemma NoRounds()
    ensures GoHeard([]) == [] && forall after: int :: GoAsked(after, []) == []
  {
  }

  /** `GrpcClient.Watch`: every event goes to the listener; the cursor only moves up. */
  method GoGrpcWatch(afterVersion: int, ss: seq<Session>) returns (heard: seq<WatchEvent>, asked: seq<int>)
    ensures heard == GoHeard(ss) && asked == GoAsked(afterVersion, ss)
  {
    hide Highest, GoHeard, GoAsked;
    NoRounds();
    var after := afterVersion;
    heard, asked := [], [];
    assert ss[0..] == ss;
    for i := 0 to |ss|
      invariant heard + GoHeard(ss[i..]) == GoHeard(ss)
      invariant asked + GoAsked(after, ss[i..]) == GoAsked(afterVersion, ss)
    {
      GoRound(ss, i, after);
      var s := ss[i];
      if s.snapshot.Some? && s.snapshot.value > after {
        after := s.snapshot.value;
      }
      Regroup(asked, [after], GoAsked(Highest(after, s.events), ss[i + 1..]));
      Regroup(heard, s.events, GoHeard(ss[i + 1..]));
      asked := asked + [after];
      after := RaiseCursor(after, s.events);
      heard := heard + s.events;
    }
  }


  /** The inner receive loop. */
  method RaiseCursor(from: int, events: seq<WatchEvent>) returns (after: int)
    ensures after == Highest(from, events)
  {
    after := from;
    for j := 0 to |events|
      invariant Highest(after, events[j..]) == Highest(from, events)
    {
      assert events[j..][1..] == events[j + 1..];
      if events[j].version > after {
        after := events[j].version;
      }
    }
  }

  /** The events of a round are what the server streamed for the version asked from, cut anywhere. */
  ghost predicate FromServer(project: string, branch: string, asked: int, events: seq<WatchEvent>) {
    exists hist, read, rs ::
      && InOrder(hist)
      && Served(project, branch, asked, hist, read, rs).Ok?
      && events <= Served(project, branch, asked, hist, read, rs).value
  }

  lemma {:induction false} OrdinaryPrefix(a: seq<WatchEvent>, b: seq<WatchEvent>)
    requires a <= b
    ensures Ordinary(a) <= Ordinary(b)
  {
    assert b == a + b[|a|..];
    OrdinaryConcat(a, b[|a|..]);
  }

  lemma FromServerRising(project: string, branch: string, asked: int, events: seq<WatchEvent>)
    requires FromServer(project, branch, asked, events)
    ensures Rising(Ordinary(events)) && AllAbove(Ordinary(events), asked)
  {
    hide Served, Ordinary;
    var hist, read, rs :| InOrder(hist) && Served(project, branch, asked, hist, read, rs).Ok?
                          && events <= Served(project, branch, asked, hist, read, rs).value;
    var whole := Served(project, branch, asked, hist, read, rs).value;
    ServedRising(project, branch, asked, hist, read, rs);
    OrdinaryPrefix(events, whole);
    var vs := Ordinary(events);
    assert forall i | 0 <= i < |vs| :: vs[i] == Ordinary(whole)[i];
  }

  /** Composition of the server stream with the client that filters nothing: across any number of
      rounds, disconnects and snapshot anchors, the ordinary events reaching the listener have
      strictly rising versions. */
  lemma {:induction false} GoGrpcRising(project: string, branch: string, after: int, ss: seq<Session>)
    requires forall i | 0 <= i < |ss| :: FromServer(project, branch, GoAsked(after, ss)[i], ss[i].events)
    ensures Rising(Ordinary(GoHeard(ss))) && AllAbove(Ordinary(GoHeard(ss)), after)
    decreases |ss|
  {
    hide FromServer, Ordinary;
    if ss == [] {
      assert Ordinary([]) == [] by { OrdinaryNone(); }
    } else {
      var from := Anchored(after, ss[0].snapshot);
      var next, es := Highest(from, ss[0].events), ss[0].events;
      assert GoAsked(after, ss)[0] == from;
      FromServerRising(project, branch, from, es);
      forall i | 0 <= i < |ss[1..]|
        ensures FromServer(project, branch, GoAsked(next, ss[1..])[i], ss[1..][i].events)
      {
        assert GoAsked(next, ss[1..])[i] == GoAsked(after, ss)[i + 1];
      }
      GoGrpcRising(project, branch, next, ss[1..]);
      OrdinaryConcat(es, GoHeard(ss[1..]));
      var vs := Ordinary(es);
      forall i | 0 <= i < |vs|
        ensures vs[i] <= next
      {
        OrdinaryMember(es, vs[i]);
        assert vs[i] in vs;
      }
      RisingConcat(vs, Ordinary(GoHeard(ss[1..])), from, next);
    }
  }

  lemma OrdinaryNone()
    ensures Ordinary([]) == []
  {
  }
}
