/** The HTTP variant of the server's watch, and the HTTP clients on it. It differs from the gRPC one:
    a version that cannot be read is left out, a pruned start still replays before its notice, the
    live cursor stays where the replay ended, and a lag ends the stream without a notice. */
module Sse {
  import opened Model
  import opened Diff
  import opened Wire
  import opened Watch
  import opened Stream
  import opened Clients

  // ---------------- what the server sends ----------------

  /** The records whose snapshot can be rebuilt. */
  ghost function Readable(read: Reader, recs: seq<VersionRecord>): (r: seq<VersionRecord>) {
    if recs == [] then [] else
      var rec := recs[|recs| - 1];
      Readable(read, recs[..|recs| - 1]) + if read(rec.no).Ok? then [rec] else []
  }

  lemma {:induction false} ReadableMembers(read: Reader, recs: seq<VersionRecord>)
    ensures forall rec :: rec in Readable(read, recs) <==> rec in recs && read(rec.no).Ok?
  {
    if recs != [] {
      var front, rec := recs[..|recs| - 1], recs[|recs| - 1];
      assert recs == front + [rec];
      ReadableMembers(read, front);
    }
  }

  lemma {:induction false} ReadableInOrder(read: Reader, recs: seq<VersionRecord>)
    requires InOrder(recs)
    ensures InOrder(Readable(read, recs))
  {
    if recs != [] {
      var front, rec := recs[..|recs| - 1], recs[|recs| - 1];
      ReadableInOrder(read, front);
      ReadableMembers(read, front);
      var w := Readable(read, front);
      forall i | 0 <= i < |w|
        ensures w[i].no < rec.no
      {
        assert w[i] in front;
        var j :| 0 <= j < |front| && front[j] == w[i];
        assert recs[j].no < rec.no;
      }
    }
  }

  lemma {:induction false} ReadableAll(read: Reader, recs: seq<VersionRecord>)
    requires AllReadable(read, recs)
    ensures Readable(read, recs) == recs
  {
    if recs != [] {
      var front, rec := recs[..|recs| - 1], recs[|recs| - 1];
      assert recs == front + [rec];
      assert rec in recs && forall r | r in front :: r in recs;
      ReadableAll(read, front);
    }
  }

  lemma ReadableFacts(read: Reader, recs: seq<VersionRecord>)
    ensures AllReadable(read, Readable(read, recs))
    ensures forall rec :: rec in Readable(read, recs) <==> rec in recs && read(rec.no).Ok?
    ensures AllReadable(read, recs) ==> Readable(read, recs) == recs
    ensures InOrder(recs) ==> InOrder(Readable(read, recs))
  {
    hide Readable, InOrder;
    ReadableMembers(read, recs);
    if InOrder(recs) {
      ReadableInOrder(read, recs);
    }
    if AllReadable(read, recs) {
      ReadableAll(read, recs);
    }
  }

  ghost function SseReplay(after: int, hist: seq<VersionRecord>, read: Reader): (es: seq<WatchEvent>) {
    ReadableFacts(read, Wanted(after, hist));
    if after > 0 then ReplayEvents(read, Readable(read, Wanted(after, hist))) else []
  }

  function MaxVersion(es: seq<WatchEvent>): int {
    if es == [] then 0 else Max(MaxVersion(es[..|es| - 1]), es[|es| - 1].version)
  }

  /** Live events behind a cursor that does not move. */
  ghost function Frozen(project: string, branch: string, last: int, rs: seq<Recv>): (out: seq<WatchEvent>)
    decreases |rs|
  {
    if rs == [] || !rs[0].Event? then []
    else
      var e := rs[0].e;
      (if ForBranch(e, project, branch) && (e.gray || e.version > last) then [ToWire(e)] else [])
      + Frozen(project, branch, last, rs[1..])
  }

  function MaskOne(w: WatchEvent): WatchEvent {
    w.(changes := MaskDiff(w.changes))
  }

  function MaskAll(ws: seq<WatchEvent>): (r: seq<WatchEvent>)
    ensures |r| == |ws| && forall i | 0 <= i < |ws| :: r[i] == MaskOne(ws[i])
  {
    seq(|ws|, i requires 0 <= i < |ws| => MaskOne(ws[i]))
  }

  ghost function Tail(project: string, branch: string, last: int, force: bool, rs: seq<Recv>): seq<WatchEvent> {
    if force then [Notice(last, "snapshot required")] else Frozen(project, branch, last, rs)
  }

  /** What one HTTP watch yields. */
  ghost function SseOut(project: string, branch: string, after: int, hist: seq<VersionRecord>, read: Reader, rs: seq<Recv>)
    : (out: seq<WatchEvent>)
  {
    var replay := SseReplay(after, hist, read);
    MaskAll(replay + Tail(project, branch, MaxVersion(replay), after > 0 && Pruned(after, hist), rs))
  }

  lemma ReadableStep(after: int, hist: seq<VersionRecord>, read: Reader, i: nat)
    requires i < |hist|
    ensures Readable(read, Wanted(after, hist[..i + 1])) ==
            Readable(read, Wanted(after, hist[..i])) +
            if hist[i].no > after && read(hist[i].no).Ok? then [hist[i]] else []
  {
    WantedStep(after, hist, i);
    var w := Wanted(after, hist[..i]);
    assert (w + [hist[i]])[..|w|] == w;
    assert w + [] == w;
  }

  /** The replay loop of `watch_branch`. */
  method BuildSseReplay(after: int, hist: seq<VersionRecord>, read: Reader) returns (events: seq<WatchEvent>, force: bool)
    ensures events == SseReplay(after, hist, read)
    ensures force <==> after > 0 && Pruned(after, hist)
  {
    hide Changes, Chain, ReplayEvents, Wanted, Readable;
    events, force := [], false;
    if after <= 0 {
      return;
    }
    force := Pruned(after, hist);
    var prev: SnapshotMap := map[];
    ghost var recs: seq<VersionRecord> := [];
    ReplayNone(after, read);
    NoneReadable(read);
    assert hist[..0] == [];
    for i := 0 to |hist|
      invariant recs == Readable(read, Wanted(after, hist[..i]))
      invariant AllReadable(read, recs)
      invariant events == ReplayEvents(read, recs)
      invariant prev == if recs == [] then map[] else Chain(read, recs)[|recs| - 1]
    {
      var rec := hist[i];
      ReadableStep(after, hist, read, i);
      if rec.no <= after {
        continue;
      }
      var cur := read(rec.no);
      if cur.Ok? {
        ReplaySnoc(read, recs, rec);
        var diff := ComputeDiff(prev, cur.value);
        prev := cur.value;
        events := events + [ReplayEvent(rec, diff)];
        recs := recs + [rec];
      }
    }
    assert hist[..|hist|] == hist;
  }

  lemma NoneReadable(read: Reader)
    ensures Readable(read, []) == []
  {
  }

  lemma FrozenStep(project: string, branch: string, last: int, rs: seq<Recv>, i: nat)
    requires i < |rs| && rs[i].Event?
    ensures var e := rs[i].e;
            MaskAll(Frozen(project, branch, last, rs[i..])) ==
            (if ForBranch(e, project, branch) && (e.gray || e.version > last) then [MaskOne(ToWire(e))] else [])
            + MaskAll(Frozen(project, branch, last, rs[i + 1..]))
  {
    assert rs[i..][1..] == rs[i + 1..];
  }

  lemma FrozenEnds(project: string, branch: string, last: int, rs: seq<Recv>)
    requires rs == [] || !rs[0].Event?
    ensures MaskAll(Frozen(project, branch, last, rs)) == []
  {
  }

  /** The live part of `sse_stream`. */
  method SendLive(project: string, branch: string, last: int, rs: seq<Recv>) returns (out: seq<WatchEvent>)
    ensures out == MaskAll(Frozen(project, branch, last, rs))
  {
    hide MaskAll, MaskOne, Frozen, ToWire, ForBranch;
    out := [];
    var i := 0;
    assert rs[0..] == rs;
    while i < |rs| && rs[i].Event?
      invariant 0 <= i <= |rs|
      invariant out + MaskAll(Frozen(project, branch, last, rs[i..])) == MaskAll(Frozen(project, branch, last, rs))
    {
      var e := rs[i].e;
      FrozenStep(project, branch, last, rs, i);
      var sent := if ForBranch(e, project, branch) && (e.gray || e.version > last) then [MaskOne(ToWire(e))] else [];
      Regroup(out, sent, MaskAll(Frozen(project, branch, last, rs[i + 1..])));
      out := out + sent;
      i := i + 1;
    }
    FrozenEnds(project, branch, last, rs[i..]);
  }

  /** `sse_stream`: the replay, then a notice or the live events. */
  method SseStream(project: string, branch: string, replay: seq<WatchEvent>, force: bool, rs: seq<Recv>)
    returns (out: seq<WatchEvent>)
    ensures out == MaskAll(replay + Tail(project, branch, MaxVersion(replay), force, rs))
  {
    hide Frozen, MaskOne;
    var last := 0;
    out := [];
    for i := 0 to |replay|
      invariant out == MaskAll(replay[..i]) && last == MaxVersion(replay[..i])
    {
      assert replay[..i + 1][..i] == replay[..i];
      last := Max(last, replay[i].version);
      out := out + [MaskOne(replay[i])];
    }
    assert replay[..|replay|] == replay;
    MaskAllConcat(replay, Tail(project, branch, last, force, rs));
    if force {
      NoticeMasked(last);
      out := out + [Notice(last, "snapshot required")];
    } else {
      var live := SendLive(project, branch, last, rs);
      out := out + live;
    }
  }

  lemma NoticeMasked(last: int)
    ensures MaskOne(Notice(last, "snapshot required")) == Notice(last, "snapshot required")
  {
    assert MaskDiff([]) == [];
  }

  lemma MaskAllConcat(a: seq<WatchEvent>, b: seq<WatchEvent>)
    ensures MaskAll(a + b) == MaskAll(a) + MaskAll(b)
  {
  }

  // ---------------- against the gRPC stream ----------------

  lemma {:induction false} FrozenOwed(project: string, branch: string, last: int, rs: seq<Recv>)
    ensures Frozen(project, branch, last, rs) == WireAll(Owed(last, BranchEvents(project, branch, rs)))
    decreases |rs|
  {
    hide ToWire, ForBranch, WireAll, Owed;
    if rs == [] || !rs[0].Event? {
      NothingOwed(last);
    } else {
      var es, tail := BranchEvents(project, branch, rs), BranchEvents(project, branch, rs[1..]);
      FrozenOwed(project, branch, last, rs[1..]);
      if ForBranch(rs[0].e, project, branch) {
        assert es == [rs[0].e] + tail && es[1..] == tail;
        OwedCons(last, es);
      } else {
        assert es == tail;
      }
    }
  }

  /** The versions of a list of events rise strictly from above a floor. */
  ghost predicate RisingFrom(floor: int, es: seq<WatchEvent>) {
    && (forall i | 0 <= i < |es| :: es[i].version > floor)
    && forall i, j | 0 <= i < j < |es| :: es[i].version < es[j].version
  }

  lemma {:induction false} MaxIsLast(es: seq<WatchEvent>)
    requires RisingFrom(0, es)
    ensures MaxVersion(es) == LastOf(0, es)
  {
    if es != [] {
      MaxIsLast(es[..|es| - 1]);
    }
  }

  lemma SseReplayShape(after: int, hist: seq<VersionRecord>, read: Reader)
    requires InOrder(hist) && after > 0
    ensures var recs, replay := Readable(read, Wanted(after, hist)), SseReplay(after, hist, read);
            && |replay| == |recs| && RisingFrom(after, replay) && MaxVersion(replay) == LastOf(0, replay)
            && forall i | 0 <= i < |recs| ::
                 replay[i].version == recs[i].no && replay[i].gray == recs[i].gray && !replay[i].snapshotRequired
  {
    hide ReplayEvents, Wanted, Readable;
    WantedFacts(after, hist);
    var recs := Readable(read, Wanted(after, hist));
    ReadableFacts(read, Wanted(after, hist));
    var replay := SseReplay(after, hist, read);
    forall i | 0 <= i < |recs|
      ensures replay[i].version == recs[i].no && replay[i].gray == recs[i].gray && !replay[i].snapshotRequired
      ensures recs[i].no > after
    {
      ReplayAt(read, recs, i);
      assert recs[i] in recs;
    }
    MaxIsLast(replay);
  }

  lemma MaskedDelivers(out: seq<WatchEvent>, owed: seq<WatchEvent>, lagged: bool)
    requires Delivers(out, owed, lagged)
    ensures Delivers(MaskAll(out), MaskAll(owed), lagged)
  {
    assert MaskAll(out)[..|owed|] == MaskAll(out[..|owed|]);
  }

  /** For a client that is not refused, on an orderly branch, the HTTP stream is the gRPC stream with
      secrets masked and without the notice a lag ends the latter with: the frozen cursor, and its
      start at 0 when nothing was replayed, make no difference. */
  lemma SseMatchesGrpc(project: string, branch: string, after: int, hist: seq<VersionRecord>, read: Reader, rs: seq<Recv>)
    requires InOrder(hist) && after > 0 && !Pruned(after, hist) && AllReadable(read, Wanted(after, hist))
    requires Orderly(BranchEvents(project, branch, rs)) && OrdinaryAbove(BranchEvents(project, branch, rs), after)
    requires hist != [] ==> OrdinaryAbove(BranchEvents(project, branch, rs), hist[|hist| - 1].no)
    ensures var grpc := Served(project, branch, after, hist, read, rs);
            && grpc.Ok?
            && Delivers(MaskAll(grpc.value), SseOut(project, branch, after, hist, read, rs), EndsLagged(rs))
  {
    hide ReplayEvents, Wanted, Readable, Live, Frozen, Owed, WireAll, BranchEvents, Orderly, AllReadable, EndsLagged, MaskAll;
    var es := BranchEvents(project, branch, rs);
    var recs := Wanted(after, hist);
    ReadableFacts(read, recs);
    SseReplayShape(after, hist, read);
    var replay := ReplayEvents(read, recs);
    assert SseReplay(after, hist, read) == replay;
    var last, frozen := LastOf(after, replay), MaxVersion(replay);
    LiveExact(project, branch, last, rs);
    FrozenOwed(project, branch, frozen, rs);
    if recs == [] {
      AboveLower(es, after, 0);
      OwedSame(after, 0, es);
    } else {
      assert last == frozen;
    }
    var live, owed := Live(project, branch, last, rs), WireAll(Owed(last, es));
    AfterReplay(replay, live, owed, EndsLagged(rs));
    MaskedDelivers(replay + live, replay + owed, EndsLagged(rs));
  }

  lemma AboveLower(es: seq<PublishEvent>, high: int, low: int)
    requires OrdinaryAbove(es, high) && low <= high
    ensures OrdinaryAbove(es, low)
  {
  }

  /** Over HTTP too every live event is a received event of the project and the branch asked for, whole. */
  lemma {:induction false} FrozenTells(project: string, branch: string, last: int, rs: seq<Recv>, w: WatchEvent)
    requires w in Frozen(project, branch, last, rs)
    ensures exists i :: 0 <= i < |rs| && rs[i].Event? && rs[i].e.project == project && rs[i].e.branch == branch && Tells(w, rs[i].e)
    decreases |rs|
  {
    var e := rs[0].e;
    if ForBranch(e, project, branch) && (e.gray || e.version > last) && w == ToWire(e) {
      assert Tells(w, rs[0].e);
    } else {
      FrozenTells(project, branch, last, rs[1..], w);
      var i :| 0 <= i < |rs[1..]| && rs[1..][i].Event? && rs[1..][i].e.project == project && rs[1..][i].e.branch == branch
               && Tells(w, rs[1..][i].e);
      assert rs[i + 1] == rs[1..][i];
    }
  }

  /** A duplicated live event is filtered by gRPC and repeated over HTTP. */
  lemma FrozenRepeats(project: string, branch: string, last: int, e: PublishEvent)
    requires ForBranch(e, project, branch) && !e.gray && e.version > last
    ensures Frozen(project, branch, last, [Event(e), Event(e)]) == [ToWire(e), ToWire(e)]
    ensures Live(project, branch, last, [Event(e), Event(e)]) == [ToWire(e)]
  {
    var rs := [Event(e), Event(e)];
    assert rs[1..] == [Event(e)] && [Event(e)][1..] == [];
    assert Frozen(project, branch, last, [Event(e)]) == [ToWire(e)] + Frozen(project, branch, last, []);
    assert Live(project, branch, e.version, [Event(e)]) == Live(project, branch, e.version, []);
    assert Live(project, branch, last, rs) == [ToWire(e)] + Live(project, branch, e.version, [Event(e)]);
  }

  // ---------------- masked replay ----------------

  /** Folding masked events over a masked map is masking the fold of the events. */
  lemma {:induction false} MaskedFold(client: SnapshotMap, es: seq<WatchEvent>)
    ensures ApplyAll(Masked(client), ChangesOf(MaskAll(es))) == Masked(ApplyAll(client, ChangesOf(es)))
  {
    hide Apply, Masked;
    if es != [] {
      var n := |es| - 1;
      MaskedFold(client, es[..n]);
      assert MaskAll(es)[..n] == MaskAll(es[..n]);
      var m := ApplyAll(client, ChangesOf(es[..n]));
      MaskingHomomorphism(m, es[n].changes, m, m);
      assert ChangesOf(es)[..n] == ChangesOf(es[..n]);
      assert ChangesOf(MaskAll(es))[..n] == ChangesOf(MaskAll(es[..n]));
    }
  }

  /** So a client that holds masked values ends, after the replay of the versions that can be read, with
      the masked newest value of every item met in them and its own value of every other item. */
  lemma SseReplayExact(after: int, hist: seq<VersionRecord>, read: Reader, client: SnapshotMap, g: string, k: string)
    requires after > 0 && Readable(read, Wanted(after, hist)) != []
    ensures var recs := Readable(read, Wanted(after, hist));
            && AllReadable(read, recs)
            && Get(ApplyAll(Masked(client), ChangesOf(MaskAll(SseReplay(after, hist, read)))), g, k)
               == MapOption(MaskedValue, if Occurs(Chain(read, recs), g, k) then Get(Chain(read, recs)[|recs| - 1], g, k)
                                         else Get(client, g, k))
  {
    hide Wanted, Readable, ReplayEvents, Chain, ApplyAll, ChangesOf, MaskAll, Occurs, Get, MapOption, MapValues;
    var recs := Readable(read, Wanted(after, hist));
    ReadableFacts(read, Wanted(after, hist));
    var replay := ReplayEvents(read, recs);
    MaskedFold(client, replay);
    ReplayExact(read, recs, client, g, k);
    MapGet(MaskedValue, ApplyAll(client, ChangesOf(replay)), g, k);
  }

  // ---------------- the notice over HTTP ----------------

  lemma NoticeBelow(c: int, last: int, e: WatchEvent)
    requires last <= c
    ensures e !in Raising(c, Arrivals([Notice(last, "snapshot required")]))
  {
    var ins := Arrivals([Notice(last, "snapshot required")]);
    assert ins[1..] == [];
  }

  lemma {:induction false} FrozenNoNotice(project: string, branch: string, last: int, rs: seq<Recv>)
    ensures forall i | 0 <= i < |Frozen(project, branch, last, rs)| :: !Frozen(project, branch, last, rs)[i].snapshotRequired
    decreases |rs|
  {
    if rs != [] && rs[0].Event? {
      FrozenNoNotice(project, branch, last, rs[1..]);
    }
  }

  lemma {:induction false} RaisingSubset(c: int, es: seq<WatchEvent>, e: WatchEvent)
    requires e in Raising(c, Arrivals(es))
    ensures e in es
    decreases |es|
  {
    if es != [] {
      assert Arrivals(es)[1..] == Arrivals(es[1..]);
      if e != es[0] {
        RaisingSubset(if es[0].version <= c && !es[0].gray then c else Max(c, es[0].version), es[1..], e);
      }
    }
  }

  /** The Go and Python HTTP loops never pass on the notice of a pruned start, whatever the history and
      the live events: it carries the highest replayed version, which their cursor has reached. */
  lemma SseNoticeNeverHeard(project: string, branch: string, cursor: int, hist: seq<VersionRecord>, read: Reader, rs: seq<Recv>, e: WatchEvent)
    requires InOrder(hist) && cursor >= 0
    requires e in Raising(cursor, Arrivals(SseOut(project, branch, cursor, hist, read, rs)))
    ensures !e.snapshotRequired
  {
    hide Raising, Frozen, Wanted, Readable, ReplayEvents, MaskOne, Pruned;
    var replay := SseReplay(cursor, hist, read);
    var last := MaxVersion(replay);
    var tail := Tail(project, branch, last, cursor > 0 && Pruned(cursor, hist), rs);
    var masked := MaskAll(replay);
    MaskAllConcat(replay, tail);
    if cursor > 0 {
      SseReplayShape(cursor, hist, read);
    }
    assert forall i | 0 <= i < |masked| :: !masked[i].snapshotRequired by { MaskKeeps(replay); }
    MaskKeeps(tail);
    if e.snapshotRequired {
      if cursor > 0 && Pruned(cursor, hist) {
        NoticeMasked(last);
        assert MaskAll(tail) == [Notice(last, "snapshot required")];
        RaisingThrough(cursor, masked, MaskAll(tail), e);
        var c :| LastOf(cursor, masked) <= c && e in Raising(c, Arrivals(MaskAll(tail)));
        MaskKeeps(replay);
        assert last <= LastOf(cursor, masked);
        NoticeBelow(c, last, e);
      } else {
        FrozenNoNotice(project, branch, last, rs);
        RaisingSubset(cursor, masked + MaskAll(tail), e);
        assert false;
      }
    }
  }

  lemma MaskKeeps(ws: seq<WatchEvent>)
    ensures forall i | 0 <= i < |ws| ::
              && MaskAll(ws)[i].version == ws[i].version && MaskAll(ws)[i].gray == ws[i].gray
              && MaskAll(ws)[i].snapshotRequired == ws[i].snapshotRequired
  {
  }

  lemma {:induction false} PlainCursorRising(c: int, es: seq<WatchEvent>)
    requires RisingFrom(c, es)
    ensures c <= PlainCursor(c, es) <= LastOf(c, es)
    ensures es != [] ==> (PlainCursor(c, es) == LastOf(c, es) <==> !es[|es| - 1].gray)
    decreases |es|
  {
    if es != [] {
      PlainCursorRising(if es[0].gray then c else es[0].version, es[1..]);
    }
  }

  /** The TypeScript HTTP loop does pass the notice of a pruned start on, if and only if the newest
      version replayed is a gray promotion. */
  lemma TsHttpHearsNoticeIff(project: string, branch: string, cursor: int, hist: seq<VersionRecord>, read: Reader, rs: seq<Recv>)
    requires InOrder(hist) && cursor > 0 && Pruned(cursor, hist)
    ensures var recs, replay := Readable(read, Wanted(cursor, hist)), SseReplay(cursor, hist, read);
            Notice(MaxVersion(replay), "snapshot required") in Plain(cursor, Arrivals(SseOut(project, branch, cursor, hist, read, rs)), true)
            <==> recs != [] && recs[|recs| - 1].gray
  {
    hide Plain, Wanted, Readable, ReplayEvents, MaskOne, Pruned, MaxVersion;
    var recs, replay := Readable(read, Wanted(cursor, hist)), SseReplay(cursor, hist, read);
    var n := Notice(MaxVersion(replay), "snapshot required");
    SseReplayShape(cursor, hist, read);
    MaskAllConcat(replay, [n]);
    NoticeMasked(MaxVersion(replay));
    assert MaskAll([n]) == [n];
    MaskKeeps(replay);
    PlainThrough(cursor, MaskAll(replay), n, true);
    PlainCursorRising(cursor, MaskAll(replay));
  }
}
