/** The server side of `Watch`: replay synthesised from snapshot diffs, then the live stream. */
module Watch {
  import opened Model
  import opened Diff

  datatype WatchEvent = WatchEvent(
    version: int, ty: EventType, structureVersion: nat, comment: string, requestId: string,
    changes: seq<DiffEntry>, snapshotRequired: bool, gray: bool)

  /** What the broadcast receiver yields. */
  datatype Recv = Event(e: PublishEvent) | Lagged | Closed

  datatype Replay = Replay(snapshotRequired: bool, events: seq<WatchEvent>)

  type Reader = nat -> Result<SnapshotMap>

  // ---------------- replay ----------------

  ghost predicate InOrder(hist: seq<VersionRecord>) {
    forall i, j | 0 <= i < j < |hist| :: hist[i].no < hist[j].no
  }

  /** The records a client at `after` has not seen. */
  ghost function Wanted(after: int, hist: seq<VersionRecord>): (recs: seq<VersionRecord>) {
    if hist == [] then [] else
      var rec := hist[|hist| - 1];
      Wanted(after, hist[..|hist| - 1]) + if rec.no <= after then [] else [rec]
  }

  /** The start was pruned: the oldest retained version and the newest are both above `after`. */
  predicate Pruned(after: int, hist: seq<VersionRecord>) {
    hist != [] && after < hist[0].no && after < hist[|hist| - 1].no
  }

  ghost predicate AllReadable(read: Reader, recs: seq<VersionRecord>) {
    forall rec | rec in recs :: read(rec.no).Ok?
  }

  ghost function Chain(read: Reader, recs: seq<VersionRecord>): (chain: seq<SnapshotMap>)
    requires AllReadable(read, recs)
    ensures |chain| == |recs|
  {
    if recs == [] then [] else
      assert recs[|recs| - 1] in recs;
      Chain(read, recs[..|recs| - 1]) + [read(recs[|recs| - 1].no).value]
  }

  function ReplayType(rec: VersionRecord): EventType {
    if rec.eventTy.Some? then rec.eventTy.value
    else if rec.rollbackOf.Some? then Rollback else ValuePublish
  }

  function ReplayEvent(rec: VersionRecord, changes: seq<DiffEntry>): WatchEvent {
    WatchEvent(rec.no, ReplayType(rec), rec.structureVersion, rec.comment, "", changes, false, rec.gray)
  }

  /** One event per record, carrying the change from the record before it; the first is taken from
      the empty snapshot. */
  ghost function ReplayEvents(read: Reader, recs: seq<VersionRecord>): (es: seq<WatchEvent>)
    requires AllReadable(read, recs)
    ensures |es| == |recs|
  {
    if recs == [] then [] else
      var n := |recs| - 1;
      var chain := Chain(read, recs);
      ReplayEvents(read, recs[..n]) +
      [ReplayEvent(recs[n], Changes(if n == 0 then map[] else chain[n - 1], chain[n]))]
  }

  lemma WantedStep(after: int, hist: seq<VersionRecord>, i: nat)
    requires i < |hist|
    ensures Wanted(after, hist[..i + 1]) == Wanted(after, hist[..i]) + if hist[i].no <= after then [] else [hist[i]]
  {
    assert hist[..i + 1][..i] == hist[..i];
  }

  lemma {:induction false} WantedPrefix(after: int, hist: seq<VersionRecord>, i: nat)
    requires i <= |hist|
    ensures Wanted(after, hist[..i]) <= Wanted(after, hist)
    decreases |hist| - i
  {
    if i == |hist| {
      assert hist[..i] == hist;
    } else {
      WantedStep(after, hist, i);
      WantedPrefix(after, hist, i + 1);
    }
  }

  lemma ReplayNone(after: int, read: Reader)
    ensures Wanted(after, []) == [] && AllReadable(read, []) && ReplayEvents(read, []) == []
  {
  }

  lemma ReplaySnoc(read: Reader, recs: seq<VersionRecord>, rec: VersionRecord)
    requires AllReadable(read, recs) && read(rec.no).Ok?
    ensures AllReadable(read, recs + [rec])
    ensures Chain(read, recs + [rec]) == Chain(read, recs) + [read(rec.no).value]
    ensures ReplayEvents(read, recs + [rec])
            == ReplayEvents(read, recs) +
               [ReplayEvent(rec, Changes(if recs == [] then map[] else Chain(read, recs)[|recs| - 1], read(rec.no).value))]
  {
    hide Changes;
    var more := recs + [rec];
    assert more[..|recs|] == recs;
  }

  /** The first loop of `watch`: rebuild each wanted version and push its event. */
  method BuildReplay(after: int, hist: seq<VersionRecord>, read: Reader) returns (r: Result<Replay>)
    ensures after <= 0 ==> r == Ok(Replay(false, []))
    ensures after > 0 && AllReadable(read, Wanted(after, hist)) ==>
              r == Ok(Replay(Pruned(after, hist), ReplayEvents(read, Wanted(after, hist))))
    ensures after > 0 && !AllReadable(read, Wanted(after, hist)) ==> r.Err?
  {
    hide Changes, Chain, ReplayEvents, Wanted;
    if after <= 0 {
      return Ok(Replay(false, []));
    }
    var prev: SnapshotMap := map[];
    var replay: seq<WatchEvent> := [];
    ghost var recs: seq<VersionRecord> := [];
    ReplayNone(after, read);
    assert hist[..0] == [];
    for i := 0 to |hist|
      invariant recs == Wanted(after, hist[..i])
      invariant AllReadable(read, recs)
      invariant replay == ReplayEvents(read, recs)
      invariant prev == if recs == [] then map[] else Chain(read, recs)[|recs| - 1]
    {
      var rec := hist[i];
      WantedStep(after, hist, i);
      if rec.no > after {
        var cur := read(rec.no);
        if cur.Err? {
          WantedPrefix(after, hist, i + 1);
          assert Wanted(after, hist)[|recs|] == rec;
          assert rec in Wanted(after, hist);
          return Err(cur.message);
        }
        ReplaySnoc(read, recs, rec);
        var diff := ComputeDiff(prev, cur.value);
        replay := replay + [ReplayEvent(rec, diff)];
        prev := cur.value;
        recs := recs + [rec];
      }
    }
    assert hist[..|hist|] == hist;
    return Ok(Replay(Pruned(after, hist), replay));
  }

  ghost function ChangesOf(es: seq<WatchEvent>): (dss: seq<seq<DiffEntry>>)
    ensures |dss| == |es|
  {
    if es == [] then [] else ChangesOf(es[..|es| - 1]) + [es[|es| - 1].changes]
  }

  lemma {:induction false} ChainFront(read: Reader, recs: seq<VersionRecord>, n: nat)
    requires AllReadable(read, recs) && n <= |recs|
    ensures AllReadable(read, recs[..n])
    ensures Chain(read, recs)[..n] == Chain(read, recs[..n])
    decreases |recs| - n
  {
    if n < |recs| {
      var front := recs[..|recs| - 1];
      ChainFront(read, front, n);
      assert front[..n] == recs[..n];
    } else {
      assert recs[..n] == recs;
    }
  }

  lemma {:induction false} ReplayIsSteps(read: Reader, recs: seq<VersionRecord>)
    requires AllReadable(read, recs)
    ensures ChangesOf(ReplayEvents(read, recs)) == Steps(map[], Chain(read, recs))
  {
    hide Changes;
    if recs != [] {
      var n := |recs| - 1;
      ReplayIsSteps(read, recs[..n]);
      ChainFront(read, recs, n);
      assert ReplayEvents(read, recs)[..n] == ReplayEvents(read, recs[..n]);
    }
  }

  /** Exact replay theorem. Folding the replayed changes over any client map gives, for an item that
      occurs in some replayed snapshot, its newest value, and for any other item what the client
      already had. */
  lemma ReplayExact(read: Reader, recs: seq<VersionRecord>, client: SnapshotMap, g: string, k: string)
    requires AllReadable(read, recs) && recs != []
    ensures Get(ApplyAll(client, ChangesOf(ReplayEvents(read, recs))), g, k)
            == if Occurs(Chain(read, recs), g, k) then Get(Chain(read, recs)[|recs| - 1], g, k)
               else Get(client, g, k)
  {
    hide Changes, Apply;
    ReplayIsSteps(read, recs);
    StepsEffect(client, map[], Chain(read, recs), g, k);
  }

  /** So the replay brings a client to the newest snapshot exactly when every item the client holds
      occurs in some replayed snapshot: an item deleted by the first missed version and never set
      again stays behind. */
  lemma ReplayExactIff(read: Reader, recs: seq<VersionRecord>, client: SnapshotMap)
    requires AllReadable(read, recs) && recs != []
    ensures SameItems(ApplyAll(client, ChangesOf(ReplayEvents(read, recs))), Chain(read, recs)[|recs| - 1])
            <==> forall g, k | Get(client, g, k).Some? :: Occurs(Chain(read, recs), g, k)
  {
    hide Changes, Apply, Get, Occurs, Chain, ReplayEvents;
    var chain := Chain(read, recs);
    var newest := chain[|recs| - 1];
    var end := ApplyAll(client, ChangesOf(ReplayEvents(read, recs)));
    forall g, k
      ensures Get(end, g, k) == if Occurs(chain, g, k) then Get(newest, g, k) else Get(client, g, k)
      ensures Get(newest, g, k).Some? ==> Occurs(chain, g, k)
    {
      ReplayExact(read, recs, client, g, k);
      OccursLast(chain, g, k);
    }
  }

  lemma OccursLast(chain: seq<SnapshotMap>, g: string, k: string)
    requires chain != []
    ensures Get(chain[|chain| - 1], g, k).Some? ==> Occurs(chain, g, k)
  {
    assert chain[|chain| - 1] in chain;
  }

  /** A client that starts empty always ends at the newest snapshot. */
  lemma ReplayFromEmpty(read: Reader, recs: seq<VersionRecord>)
    requires AllReadable(read, recs) && recs != []
    ensures SameItems(ApplyAll(map[], ChangesOf(ReplayEvents(read, recs))), Chain(read, recs)[|recs| - 1])
  {
    hide Changes, Apply, Chain, ReplayEvents;
    ReplayExactIff(read, recs, map[]);
  }

  /** Seeding the replay with the snapshot the client holds would make it exact for that client. */
  lemma SeededReplayExact(held: SnapshotMap, chain: seq<SnapshotMap>)
    requires chain != []
    ensures SameItems(ApplyAll(held, Steps(held, chain)), chain[|chain| - 1])
  {
    hide Changes, Apply;
    forall g, k
      ensures Get(ApplyAll(held, Steps(held, chain)), g, k) == Get(chain[|chain| - 1], g, k)
    {
      StepsEffect(held, held, chain, g, k);
      OccursLast(chain, g, k);
    }
  }

  /** A client at version 1 holding one item; version 2 deletes it; the replay leaves it in place. */
  lemma ReplayKeepsDeletedItem(read: Reader)
    requires read(2) == Ok(map[])
    ensures var held := map["g" := map["k" := Str("v")]];
            var recs := [VersionRecord(2, 1, "", None, None, false)];
            && AllReadable(read, recs)
            && Get(ApplyAll(held, ChangesOf(ReplayEvents(read, recs))), "g", "k") == Some(Str("v"))
            && Get(Chain(read, recs)[0], "g", "k") == None
  {
    hide Changes, Apply, ChangesOf, ReplayEvents;
    var held := map["g" := map["k" := Str("v")]];
    var recs := [VersionRecord(2, 1, "", None, None, false)];
    ReplayExact(read, recs, held, "g", "k");
    assert Chain(read, recs) == [map[]];
  }
}
