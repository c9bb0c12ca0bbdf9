/** Master-key rotation in a cluster. The leader wraps the new KEK under its current one and puts
    it on the Raft log; every node runs a hook when it applies the entry: unwrap with any KEK it
    holds, save the ring file, switch memory; the applied position is written afterwards. */
module RingCluster {
  import opened Model
  import opened Crypto
  import opened RingLifecycle

  /** A log entry. A rotation carries a wrapped KEK, or (in old logs) a plain one; `Other` is any
      other command. */
  datatype Entry = Rotation(kek: Bytes, kekEnc: Option<Wrapped>) | Other

  // ---------------- what an entry means ----------------

  /** Try the KEKs from the newest to the oldest. */
  function Resolve(ring: Ring, w: Wrapped): (r: Option<Key>) {
    if ring == [] then None
    else
      var k := UnwrapMasterKey(Current(ring), w);
      if k.Ok? then Some(k.value) else Resolve(ring[..|ring| - 1], w)
  }

  predicate WellWrapped(w: Wrapped) {
    w.Wrapped? && w.box.Sealed? && w.box.nonce == w.nonce && |w.box.plain| == KEY_LENGTH
  }

  /** The search finds the key exactly when the wrapping KEK is on the ring, wherever it stands. */
  lemma {:induction false} ResolveExact(ring: Ring, w: Wrapped)
    ensures Resolve(ring, w) == if WellWrapped(w) && w.box.key in ring then Some(w.box.plain) else None
  {
    if ring != [] {
      var n := |ring| - 1;
      ResolveExact(ring[..n], w);
      assert ring == ring[..n] + [ring[n]];
    }
  }

  function Target(ring: Ring, e: Entry): (k: Option<Key>) {
    match e
    case Other => None
    case Rotation(kek, None) => if |kek| == KEY_LENGTH then Some(kek) else None
    case Rotation(_, Some(w)) => Resolve(ring, w)
  }

  /** The ring after an entry: its KEK appended, unless it cannot be read or is there already. */
  function Pushed(ring: Ring, e: Entry): (r: Ring) {
    var k := Target(ring, e);
    if k.None? || k.value in ring then ring else ring + [k.value]
  }

  function RingAfter(init: Ring, log: seq<Entry>): (r: Ring) {
    if log == [] then init else Pushed(RingAfter(init, log[..|log| - 1]), log[|log| - 1])
  }

  /** A rotation submitted by a node whose ring is part of `ring`. */
  ghost predicate EntryOk(ring: Ring, e: Entry) {
    e.Rotation? && e.kekEnc.Some? ==> WellWrapped(e.kekEnc.value) && e.kekEnc.value.box.key in ring
  }

  ghost predicate LogOk(init: Ring, log: seq<Entry>) {
    forall i | 0 <= i < |log| :: EntryOk(RingAfter(init, log[..i]), log[i])
  }

  lemma PushedProper(file: Key, ring: Ring, e: Entry)
    requires Proper(file, ring)
    ensures Proper(file, Pushed(ring, e)) && ring <= Pushed(ring, e)
  {
    hide Target;
  }

  /** Replaying an entry on a ring that has seen it changes nothing. */
  lemma PushedTwice(ring: Ring, more: Ring, e: Entry)
    requires EntryOk(ring, e) && Pushed(ring, e) <= more && ring <= more
    ensures Pushed(more, e) == more
  {
    if e.Rotation? && e.kekEnc.Some? {
      ResolveExact(ring, e.kekEnc.value);
      ResolveExact(more, e.kekEnc.value);
      InPrefix(ring, more, e.kekEnc.value.box.key);
    }
    if Target(ring, e).Some? {
      assert Target(ring, e).value in Pushed(ring, e);
      InPrefix(Pushed(ring, e), more, Target(ring, e).value);
    }
  }

  lemma InPrefix(ring: Ring, more: Ring, k: Bytes)
    requires ring <= more && k in ring
    ensures k in more
  {
  }

  lemma {:induction false} RingAfterGrows(file: Key, init: Ring, log: seq<Entry>, i: nat)
    requires Proper(file, init) && i <= |log|
    ensures Proper(file, RingAfter(init, log))
    ensures RingAfter(init, log[..i]) <= RingAfter(init, log)
    decreases |log|
  {
    hide Proper, Pushed;
    if log == [] {
      assert log[..i] == log;
    } else {
      var n := |log| - 1;
      RingAfterGrows(file, init, log[..n], if i <= n then i else n);
      PushedProper(file, RingAfter(init, log[..n]), log[n]);
      if i <= n {
        assert log[..n][..i] == log[..i];
      } else {
        assert log[..i] == log;
      }
    }
  }

  lemma RingAfterStep(init: Ring, log: seq<Entry>, i: nat)
    requires i < |log|
    ensures RingAfter(init, log[..i + 1]) == Pushed(RingAfter(init, log[..i]), log[i])
  {
    assert log[..i + 1][..i] == log[..i];
  }

  lemma RingAfterBetween(file: Key, init: Ring, log: seq<Entry>, i: nat, j: nat)
    requires Proper(file, init) && i <= j <= |log|
    ensures RingAfter(init, log[..i]) <= RingAfter(init, log[..j]) && Proper(file, RingAfter(init, log[..j]))
  {
    RingAfterGrows(file, init, log[..j], i);
    assert log[..j][..i] == log[..i];
  }

  // ---------------- one node ----------------

  /** `applied` is the durable position; `reached` counts the entries whose hook has finished or was
      passed over, which after a crash can be one more. */
  datatype Member = Member(file: Key, disk: Option<Ring>, mem: Option<Ring>, applied: nat, reached: nat)

  /** How the application of an entry ends. */
  datatype Ending = Completes | SaveFails | Dies

  datatype Deed = Boot | Apply(ending: Ending) | Replay(i: nat) | Install(position: nat) | Fail

  function Kept(m: Member): Ring {
    if m.disk.Some? then m.disk.value else [m.file]
  }

  function Max(a: nat, b: nat): nat {
    if a < b then b else a
  }

  /** The hook with a working disk: save, then switch. */
  function Hooked(m: Member, e: Entry): (r: Member)
    requires m.mem.Some?
  {
    var ring := Pushed(m.mem.value, e);
    if ring == m.mem.value then m else m.(disk := Some(ring), mem := Some(ring))
  }

  function Act(m: Member, log: seq<Entry>, d: Deed): (r: Member) {
    match d
    case Boot => if m.mem.None? then m.(mem := Some(Rebuild(m.file, m.disk))) else m
    case Fail => m.(mem := None)
    case Replay(i) => if m.mem.Some? && i < m.applied && i < |log| then Hooked(m, log[i]) else m
    case Install(position) =>
      if m.mem.Some? && m.applied <= position <= |log|
      then m.(applied := position, reached := Max(m.reached, position)) else m
    case Apply(ending) =>
      if m.mem.None? || m.applied >= |log| then m
      else
        var reached := Max(m.reached, m.applied + 1);
        match ending
        case Completes => Hooked(m, log[m.applied]).(applied := m.applied + 1, reached := reached)
        case SaveFails => m.(applied := m.applied + 1, reached := reached)
        case Dies => Hooked(m, log[m.applied]).(mem := None, reached := reached)
  }

  /** The node's ring is what the log says up to where it has got. */
  ghost predicate InSync(init: Ring, log: seq<Entry>, m: Member) {
    && m.applied <= m.reached <= |log| && m.reached <= m.applied + 1
    && Kept(m) == RingAfter(init, log[..m.reached])
    && (m.mem.Some? ==> m.mem.value == Kept(m))
  }

  /** The steps that skip no key: a failed save only of an entry that adds none, and a snapshot only
      over entries that add none. */
  ghost predicate Clean(log: seq<Entry>, m: Member, d: Deed) {
    && (d == Apply(SaveFails) && m.mem.Some? && m.applied < |log| ==> Pushed(m.mem.value, log[m.applied]) == m.mem.value)
    && (d.Install? && m.mem.Some? && m.applied <= d.position <= |log| ==>
          forall i | m.reached <= i < d.position :: Pushed(m.mem.value, log[i]) == m.mem.value)
  }

  ghost predicate Setting(file: Key, init: Ring, log: seq<Entry>) {
    Proper(file, init) && LogOk(init, log)
  }

  /** An entry the node has got past is a no-op for it. */
  lemma PastIsNoOp(file: Key, init: Ring, log: seq<Entry>, m: Member, i: nat)
    requires Setting(file, init, log) && InSync(init, log, m) && i < m.reached
    ensures Pushed(Kept(m), log[i]) == Kept(m)
  {
    hide Proper, EntryOk, Pushed;
    RingAfterBetween(file, init, log, i, m.reached);
    RingAfterBetween(file, init, log, i + 1, m.reached);
    RingAfterStep(init, log, i);
    PushedTwice(RingAfter(init, log[..i]), Kept(m), log[i]);
  }

  /** One entry forward from where the node is. */
  lemma HookedInSync(file: Key, init: Ring, log: seq<Entry>, m: Member)
    requires Setting(file, init, log) && InSync(init, log, m) && m.mem.Some? && m.applied < |log|
    ensures var r := Hooked(m, log[m.applied]);
            && r.mem.Some? && r.mem.value == Kept(r)
            && Kept(r) == RingAfter(init, log[..Max(m.reached, m.applied + 1)])
  {
    hide Proper, Pushed, RingAfter, LogOk;
    if m.applied < m.reached {
      PastIsNoOp(file, init, log, m, m.applied);
    } else {
      RingAfterStep(init, log, m.applied);
    }
  }

  /** Entries that add nothing one by one add nothing together, and conversely. */
  lemma {:induction false} SkipExact(file: Key, init: Ring, log: seq<Entry>, i: nat, j: nat)
    requires Proper(file, init) && i <= j <= |log|
    ensures var r := RingAfter(init, log[..i]);
            RingAfter(init, log[..j]) == r <==> forall k | i <= k < j :: Pushed(r, log[k]) == r
    decreases j
  {
    hide Proper, Pushed, RingAfter;
    var r := RingAfter(init, log[..i]);
    if i < j {
      SkipExact(file, init, log, i, j - 1);
      RingAfterStep(init, log, j - 1);
      RingAfterBetween(file, init, log, i, j - 1);
      RingAfterBetween(file, init, log, j - 1, j);
    }
  }

  /** A node stays in step with the log through a deed if and only if the deed skips no key. Boots,
      crashes at any point, replays and completed applications never skip one. */
  lemma ActInSyncIff(file: Key, init: Ring, log: seq<Entry>, m: Member, d: Deed)
    requires Setting(file, init, log) && InSync(init, log, m) && m.file == file
    ensures InSync(init, log, Act(m, log, d)) <==> Clean(log, m, d)
    ensures Act(m, log, d).file == file
  {
    hide Proper, Pushed, RingAfter, LogOk;
    match d
    case Boot =>
      RingAfterBetween(file, init, log, m.reached, m.reached);
      BootRebuilds(m);
    case Fail =>
    case Replay(i) =>
      if m.mem.Some? && i < m.applied {
        PastIsNoOp(file, init, log, m, i);
      }
    case Install(position) =>
      if m.mem.Some? && m.applied <= position <= |log| {
        SkipExact(file, init, log, m.reached, Max(m.reached, position));
      }
    case Apply(ending) =>
      if m.mem.Some? && m.applied < |log| {
        HookedInSync(file, init, log, m);
      }
  }

  lemma BootRebuilds(m: Member)
    requires Proper(m.file, Kept(m))
    ensures Rebuild(m.file, m.disk) == Kept(m)
  {
    if m.disk.Some? {
      RebuildSaved(m.file, m.disk.value);
    }
  }

  // ---------------- the cluster ----------------

  datatype Cluster = Cluster(file: Key, init: Ring, log: seq<Entry>, nodes: seq<Member>)

  /** `Submit` is a rotation request at a node that is up; `Append` any other entry reaching the
      log; `Do` a deed of one node. */
  datatype Move = Submit(node: nat, newKek: Key, nonce: Bytes) | Append(entry: Entry) | Do(node: nat, deed: Deed)

  function Moved(c: Cluster, m: Move): (r: Cluster) {
    match m
    case Submit(i, newKek, nonce) =>
      if i < |c.nodes| && c.nodes[i].mem.Some? && c.nodes[i].mem.value != []
      then
        c.(log := c.log + [Rotation("", Some(WrapMasterKey(Current(c.nodes[i].mem.value), newKek, nonce)))])
      else c
    case Append(e) => if e.Rotation? && e.kekEnc.Some? then c else c.(log := c.log + [e])
    case Do(i, d) => if i < |c.nodes| then c.(nodes := c.nodes[i := Act(c.nodes[i], c.log, d)]) else c
  }

  function After(c: Cluster, moves: seq<Move>): (r: Cluster) {
    if moves == [] then c else Moved(After(c, moves[..|moves| - 1]), moves[|moves| - 1])
  }

  /** Every node with the same key file and the same ring on disk, none up, nothing logged. */
  predicate Founded(c: Cluster) {
    && Proper(c.file, c.init) && c.log == []
    && forall i | 0 <= i < |c.nodes| ::
         c.nodes[i].file == c.file && c.nodes[i].mem.None? && Kept(c.nodes[i]) == c.init
         && c.nodes[i].applied == 0 && c.nodes[i].reached == 0
  }

  ghost predicate AllInSync(c: Cluster) {
    && Setting(c.file, c.init, c.log)
    && forall i | 0 <= i < |c.nodes| :: c.nodes[i].file == c.file && InSync(c.init, c.log, c.nodes[i])
  }

  ghost predicate CleanMove(c: Cluster, m: Move) {
    m.Do? && m.node < |c.nodes| ==> Clean(c.log, c.nodes[m.node], m.deed)
  }

  ghost predicate CleanMoves(c: Cluster, moves: seq<Move>) {
    moves != [] ==>
      var front := moves[..|moves| - 1];
      CleanMoves(c, front) && CleanMove(After(c, front), moves[|moves| - 1])
  }

  lemma LogGrows(c: Cluster, e: Entry)
    requires AllInSync(c) && EntryOk(RingAfter(c.init, c.log), e)
    ensures AllInSync(c.(log := c.log + [e]))
  {
    hide RingAfter, EntryOk, Proper;
    var log := c.log + [e];
    forall i | 0 <= i < |log|
      ensures EntryOk(RingAfter(c.init, log[..i]), log[i])
    {
      if i < |c.log| {
        assert log[..i] == c.log[..i];
      } else {
        assert log[..i] == c.log;
      }
    }
    forall i | 0 <= i < |c.nodes|
      ensures InSync(c.init, log, c.nodes[i])
    {
      var r := c.nodes[i].reached;
      assert log[..r] == c.log[..r];
    }
  }

  lemma SubmitOk(c: Cluster, i: nat)
    requires AllInSync(c) && i < |c.nodes| && c.nodes[i].mem.Some? && c.nodes[i].mem.value != []
    ensures Current(c.nodes[i].mem.value) in RingAfter(c.init, c.log)
  {
    hide RingAfter, LogOk, Proper;
    var m := c.nodes[i];
    RingAfterBetween(c.file, c.init, c.log, m.reached, |c.log|);
    assert c.log[..|c.log|] == c.log;
    InPrefix(m.mem.value, RingAfter(c.init, c.log), Current(m.mem.value));
  }

  /** The cluster stays in step through a move if and only if the move is clean. */
  lemma MovedInSyncIff(c: Cluster, m: Move)
    requires AllInSync(c)
    ensures AllInSync(Moved(c, m)) <==> CleanMove(c, m)
  {
    hide RingAfter, LogOk, Proper, Act, InSync, Clean;
    match m
    case Submit(i, newKek, nonce) =>
      if i < |c.nodes| && c.nodes[i].mem.Some? && c.nodes[i].mem.value != [] {
        SubmitOk(c, i);
        LogGrows(c, Rotation("", Some(WrapMasterKey(Current(c.nodes[i].mem.value), newKek, nonce))));
      }
    case Append(e) =>
      if !(e.Rotation? && e.kekEnc.Some?) {
        LogGrows(c, e);
      }
    case Do(i, d) =>
      if i < |c.nodes| {
        ActInSyncIff(c.file, c.init, c.log, c.nodes[i], d);
        assert Moved(c, m).nodes[i] == Act(c.nodes[i], c.log, d);
      }
  }

  lemma FoundedInSync(c: Cluster)
    requires Founded(c)
    ensures AllInSync(c)
  {
  }

  ghost predicate InSyncThroughout(c: Cluster, moves: seq<Move>) {
    AllInSync(After(c, moves)) && (moves != [] ==> InSyncThroughout(c, moves[..|moves| - 1]))
  }

  /** Every run of the cluster: the nodes are in step with the log at every point of it if and only
      if no failed save and no installed snapshot in it skips a key. */
  lemma {:induction false} ClusterInSyncIff(c: Cluster, moves: seq<Move>)
    requires Founded(c)
    ensures InSyncThroughout(c, moves) <==> CleanMoves(c, moves)
  {
    hide AllInSync, CleanMove, Moved, Founded;
    if moves == [] {
      FoundedInSync(c);
    } else {
      var front := moves[..|moves| - 1];
      ClusterInSyncIff(c, front);
      if InSyncThroughout(c, front) {
        MovedInSyncIff(After(c, front), moves[|moves| - 1]);
      }
    }
  }

  // ---------------- what being in step gives ----------------

  /** Two nodes' rings are equal at equal positions and otherwise one extends the other. */
  lemma RingsAgree(c: Cluster, i: nat, j: nat)
    requires AllInSync(c) && i < |c.nodes| && j < |c.nodes|
    ensures c.nodes[i].reached == c.nodes[j].reached ==> Kept(c.nodes[i]) == Kept(c.nodes[j])
    ensures c.nodes[i].reached <= c.nodes[j].reached ==> Kept(c.nodes[i]) <= Kept(c.nodes[j])
  {
    hide RingAfter, LogOk, Proper;
    if c.nodes[i].reached <= c.nodes[j].reached {
      RingAfterBetween(c.file, c.init, c.log, c.nodes[i].reached, c.nodes[j].reached);
    }
  }

  /** Every wrapped KEK on the log can be unwrapped by every node that has got that far, and is on
      the ring of every node that has got past it. */
  lemma EveryRotationUnwraps(c: Cluster, i: nat, p: nat)
    requires AllInSync(c) && i < |c.nodes| && p < |c.log| && c.log[p].Rotation? && c.log[p].kekEnc.Some?
    ensures p <= c.nodes[i].reached ==>
              Resolve(Kept(c.nodes[i]), c.log[p].kekEnc.value) == Some(c.log[p].kekEnc.value.box.plain)
    ensures p < c.nodes[i].reached ==> c.log[p].kekEnc.value.box.plain in Kept(c.nodes[i])
  {
    hide RingAfter, Proper, Resolve;
    var m, w := c.nodes[i], c.log[p].kekEnc.value;
    if p <= m.reached {
      assert EntryOk(RingAfter(c.init, c.log[..p]), c.log[p]);
      RingAfterBetween(c.file, c.init, c.log, p, m.reached);
      InPrefix(RingAfter(c.init, c.log[..p]), Kept(m), w.box.key);
      ResolveExact(Kept(m), w);
      if p < m.reached {
        PastIsNoOp(c.file, c.init, c.log, m, p);
      }
    }
  }

  /** What is logged stays logged. */
  lemma {:induction false} LogKept(c: Cluster, moves: seq<Move>)
    ensures c.log <= After(c, moves).log
    ensures After(c, moves).init == c.init && After(c, moves).file == c.file && |After(c, moves).nodes| == |c.nodes|
  {
    hide Act, WrapMasterKey;
    if moves != [] {
      LogKept(c, moves[..|moves| - 1]);
    }
  }

  lemma {:induction false} RunInSync(c: Cluster, moves: seq<Move>)
    requires AllInSync(c) && CleanMoves(c, moves)
    ensures AllInSync(After(c, moves))
  {
    hide AllInSync, CleanMove, Moved;
    if moves != [] {
      var front := moves[..|moves| - 1];
      RunInSync(c, front);
      MovedInSyncIff(After(c, front), moves[|moves| - 1]);
    }
  }

  /** A rotation does rotate. Submitted at any node that is up, in a cluster in step, it takes a place on
      the log; and in every clean continuation, each node that has got to that place unwraps it to the new
      KEK, and each that has got past it has the new KEK on its ring: at the next generation, if the ring
      did not have it. */
  lemma SubmittedKeyReaches(c: Cluster, i: nat, newKek: Key, nonce: Bytes, moves: seq<Move>, j: nat)
    requires AllInSync(c) && i < |c.nodes| && c.nodes[i].mem.Some? && j < |c.nodes|
    requires CleanMoves(Moved(c, Submit(i, newKek, nonce)), moves)
    ensures var p, ring := |c.log|, RingAfter(c.init, c.log);
            var n := After(Moved(c, Submit(i, newKek, nonce)), moves);
            && |n.nodes| == |c.nodes| && p < |n.log| && n.log[p].Rotation? && n.log[p].kekEnc.Some?
            && (n.nodes[j].reached >= p ==> Resolve(Kept(n.nodes[j]), n.log[p].kekEnc.value) == Some(newKek))
            && (n.nodes[j].reached > p ==>
                  && newKek in Kept(n.nodes[j])
                  && (newKek !in ring ==> KeyAt(Kept(n.nodes[j]), |ring| + 1) == Some(newKek)))
  {
    hide RingAfter, Resolve, LogOk, InSync, Act, CleanMoves, Proper, After;
    var p := |c.log|;
    var ring := RingAfter(c.init, c.log);
    InSyncNonEmpty(c, i);
    var submitted := Moved(c, Submit(i, newKek, nonce));
    MovedInSyncIff(c, Submit(i, newKek, nonce));
    RunInSync(submitted, moves);
    LogKept(submitted, moves);
    var n := After(submitted, moves);
    assert n.log[p] == submitted.log[p];
    EveryRotationUnwraps(n, j, p);
    if n.nodes[j].reached > p && newKek !in ring {
      assert n.log[..p] == c.log;
      PlaceOnRing(n, j, p, newKek);
    }
  }

  lemma InSyncNonEmpty(c: Cluster, i: nat)
    requires AllInSync(c) && i < |c.nodes| && c.nodes[i].mem.Some?
    ensures c.nodes[i].mem.value != []
  {
    hide RingAfter, LogOk;
    RingAfterBetween(c.file, c.init, c.log, 0, c.nodes[i].reached);
  }

  /** A key that an entry is the first to bring stands right after the ring before that entry. */
  lemma PlaceOnRing(c: Cluster, j: nat, p: nat, k: Key)
    requires AllInSync(c) && j < |c.nodes| && p < c.nodes[j].reached
    requires c.log[p].Rotation? && c.log[p].kekEnc.Some? && c.log[p].kekEnc.value.Wrapped?
    requires c.log[p].kekEnc.value.box.Sealed? && c.log[p].kekEnc.value.box.plain == k
    requires k !in RingAfter(c.init, c.log[..p])
    ensures KeyAt(Kept(c.nodes[j]), |RingAfter(c.init, c.log[..p])| + 1) == Some(k)
  {
    hide RingAfter, Resolve, Proper;
    var ring := RingAfter(c.init, c.log[..p]);
    assert EntryOk(ring, c.log[p]);
    ResolveExact(ring, c.log[p].kekEnc.value);
    RingAfterStep(c.init, c.log, p);
    assert RingAfter(c.init, c.log[..p + 1]) == ring + [k];
    RingAfterBetween(c.file, c.init, c.log, p + 1, c.nodes[j].reached);
    assert Kept(c.nodes[j])[|ring|] == (ring + [k])[|ring|];
  }

  /** An application that completes, or whose save fails, moves the node on by one entry; one during which
      the node dies leaves the position for the entry to be applied again. With a working disk the key the
      entry resolves to is then on the saved ring. */
  lemma ApplyProgress(m: Member, log: seq<Entry>, ending: Ending)
    requires Steady(m) && m.mem.Some? && m.applied < |log|
    ensures var n := Act(m, log, Apply(ending));
            && n.applied == (if ending == Dies then m.applied else m.applied + 1) && n.reached >= m.applied + 1
            && (n.mem.Some? <==> ending != Dies)
            && (ending != SaveFails ==>
                  forall k: Key | Target(Kept(m), log[m.applied]) == Some(k) :: k in Kept(n))
            && (ending == SaveFails ==> Kept(n) == Kept(m))
  {
    hide Target, Proper;
  }

  /** A secret one node can read is readable on another exactly when the other's ring has reached the
      secret's generation. */
  lemma SecretsTravel(c: Cluster, i: nat, j: nat, ct: Ciphertext, plain: Bytes)
    requires AllInSync(c) && i < |c.nodes| && j < |c.nodes| && Holds(Kept(c.nodes[i]), ct, plain)
    ensures Holds(Kept(c.nodes[j]), ct, plain) <==> ct.dekV <= |Kept(c.nodes[j])|
  {
    hide AllInSync;
    RingsAgree(c, i, j);
    RingsAgree(c, j, i);
  }

  // ---------------- a key passed over ----------------

  /** Whatever a node has passed over, its memory is the ring it keeps. */
  ghost predicate Steady(m: Member) {
    Proper(m.file, Kept(m)) && (m.mem.Some? ==> m.mem.value == Kept(m))
  }

  /** A node's further deeds, on a log of which it may at first have seen a part: a deed that finds
      nothing to do changes nothing. */
  function Acts(m: Member, log: seq<Entry>, deeds: seq<Deed>): (r: Member) {
    if deeds == [] then m else Act(Acts(m, log, deeds[..|deeds| - 1]), log, deeds[|deeds| - 1])
  }

  /** The entry a rotation hook gets to carry out in a deed. */
  function Processed(m: Member, log: seq<Entry>, d: Deed): (e: Option<Entry>) {
    match d
    case Replay(i) => if m.mem.Some? && i < m.applied && i < |log| then Some(log[i]) else None
    case Apply(ending) => if m.mem.Some? && m.applied < |log| && ending != SaveFails then Some(log[m.applied]) else None
    case _ => None
  }

  ghost predicate Brings(m: Member, log: seq<Entry>, d: Deed, k: Bytes) {
    var e := Processed(m, log, d);
    e.Some? && Target(Kept(m), e.value).Some? && Target(Kept(m), e.value).value == k
  }

  /** What an entry resolves to: a plain key as it is, a wrapped one only with the wrapping KEK on the
      ring. */
  lemma TargetExact(ring: Ring, e: Entry, k: Bytes)
    ensures Target(ring, e).Some? && Target(ring, e).value == k <==>
            && e.Rotation?
            && (e.kekEnc.None? ==> e.kek == k && |k| == KEY_LENGTH)
            && (e.kekEnc.Some? ==> WellWrapped(e.kekEnc.value) && e.kekEnc.value.box.key in ring && e.kekEnc.value.box.plain == k)
  {
    if e.Rotation? && e.kekEnc.Some? {
      ResolveExact(ring, e.kekEnc.value);
    }
  }

  lemma ActKeeps(m: Member, log: seq<Entry>, d: Deed, k: Bytes)
    requires Steady(m)
    ensures Steady(Act(m, log, d)) && m.applied <= Act(m, log, d).applied
    ensures k in Kept(Act(m, log, d)) <==> k in Kept(m) || Brings(m, log, d, k)
  {
    hide Target;
    if d.Boot? {
      BootRebuilds(m);
    }
    var e := Processed(m, log, d);
    if e.Some? {
      PushedProper(m.file, m.mem.value, e.value);
    }
  }

  /** Some entry processed on the way resolved to the key. */
  ghost predicate Brought(m: Member, log: seq<Entry>, deeds: seq<Deed>, k: Bytes) {
    exists t :: 0 <= t < |deeds| && Brings(Acts(m, log, deeds[..t]), log, deeds[t], k)
  }

  lemma BroughtFront(m: Member, log: seq<Entry>, deeds: seq<Deed>, k: Bytes)
    requires deeds != []
    ensures var front := deeds[..|deeds| - 1];
            Brought(m, log, deeds, k) <==>
            Brought(m, log, front, k) || Brings(Acts(m, log, front), log, deeds[|deeds| - 1], k)
  {
    hide Acts, Brings;
    var n := |deeds| - 1;
    var front := deeds[..n];
    if Brought(m, log, deeds, k) {
      var t :| 0 <= t < |deeds| && Brings(Acts(m, log, deeds[..t]), log, deeds[t], k);
      if t < n {
        assert front[..t] == deeds[..t] && front[t] == deeds[t];
      }
    }
    if Brought(m, log, front, k) {
      var t :| 0 <= t < n && Brings(Acts(m, log, front[..t]), log, front[t], k);
      assert front[..t] == deeds[..t] && front[t] == deeds[t];
    }
  }

  /** Through every further run of boots, crashes, applications, installed snapshots and replays, a key
      that is off a node's ring is on it in the end if and only if some entry processed on the way
      resolved to it. */
  lemma {:induction false} KeyBackIff(m: Member, log: seq<Entry>, deeds: seq<Deed>, k: Bytes)
    requires Steady(m) && k !in Kept(m)
    ensures Steady(Acts(m, log, deeds))
    ensures k in Kept(Acts(m, log, deeds)) <==> Brought(m, log, deeds, k)
  {
    hide Act, Steady, Brings, Kept, Brought;
    if deeds == [] {
      NothingBrought(m, log, k);
    } else {
      var front := deeds[..|deeds| - 1];
      KeyBackIff(m, log, front, k);
      ActKeeps(Acts(m, log, front), log, deeds[|deeds| - 1], k);
      BroughtFront(m, log, deeds, k);
    }
  }

  lemma NothingBrought(m: Member, log: seq<Entry>, k: Bytes)
    ensures !Brought(m, log, [], k)
  {
  }

  /** An entry gives a key of the set only to a ring that has one. */
  ghost predicate Sheltered(e: Entry, lost: set<Bytes>) {
    e.Rotation? ==>
      && (e.kekEnc.None? ==> e.kek !in lost)
      && (e.kekEnc.Some? && WellWrapped(e.kekEnc.value) && e.kekEnc.value.box.plain in lost ==> e.kekEnc.value.box.key in lost)
  }

  /** Keys that are off the ring stay off it for good, together with every key that reaches the log only
      wrapped under one of them, as long as no entry before the node's position is replayed. */
  lemma {:induction false} LostKeysStayLost(m: Member, log: seq<Entry>, deeds: seq<Deed>, lost: set<Bytes>)
    requires Steady(m) && forall k | k in lost :: k !in Kept(m)
    requires forall i | m.applied <= i < |log| :: Sheltered(log[i], lost)
    requires forall t | 0 <= t < |deeds| && deeds[t].Replay? :: deeds[t].i >= m.applied
    ensures var n := Acts(m, log, deeds);
            Steady(n) && m.applied <= n.applied && forall k | k in lost :: k !in Kept(n)
  {
    hide Act, Steady, Kept, Target, Sheltered;
    if deeds != [] {
      var front, d := deeds[..|deeds| - 1], deeds[|deeds| - 1];
      LostKeysStayLost(m, log, front, lost);
      var n := Acts(m, log, front);
      ActKeeps(n, log, d, "");
      forall k | k in lost
        ensures k !in Kept(Act(n, log, d))
      {
        ActKeeps(n, log, d, k);
        var e := Processed(n, log, d);
        if e.Some? {
          assert Sheltered(e.value, lost);
          ShelteredGivesNothing(Kept(n), e.value, lost, k);
        }
      }
    }
  }

  lemma ShelteredGivesNothing(ring: Ring, e: Entry, lost: set<Bytes>, k: Bytes)
    requires Sheltered(e, lost) && k in lost && forall j | j in lost :: j !in ring
    ensures !(Target(ring, e).Some? && Target(ring, e).value == k)
  {
    hide Target;
    TargetExact(ring, e, k);
  }

  /** So a failed save skips its key, and every key later put on the log only under keys so skipped, for
      good, unless the entry itself or another one that carries the key is processed again. */
  lemma FailedSaveSkips(m: Member, log: seq<Entry>, deeds: seq<Deed>, lost: set<Bytes>)
    requires Steady(m) && m.mem.Some? && m.applied < |log|
    requires Target(Kept(m), log[m.applied]).Some? && Target(Kept(m), log[m.applied]).value in lost
    requires forall k | k in lost :: k !in Kept(m)
    requires forall i | m.applied < i < |log| :: Sheltered(log[i], lost)
    requires forall t | 0 <= t < |deeds| && deeds[t].Replay? :: deeds[t].i > m.applied
    ensures var n := Acts(Act(m, log, Apply(SaveFails)), log, deeds);
            n.applied > m.applied && forall k | k in lost :: k !in Kept(n)
  {
    hide Target, Sheltered;
    ActKeeps(m, log, Apply(SaveFails), "");
    LostKeysStayLost(Act(m, log, Apply(SaveFails)), log, deeds, lost);
  }

  // ---------------- the hook's own code ----------------

  class RotationHook {
    var disk: Option<Ring>
    var ring: Ring

    constructor (saved: Option<Ring>, entries: Ring)
      ensures disk == saved && ring == entries
    {
      disk := saved;
      ring := entries;
    }

    /** Run on one log entry. Everything except a successful save of a new key leaves file and memory
        alone. */
    method OnCommand(e: Entry, saveSucceeds: bool)
      modifies this
      ensures ring == if saveSucceeds then Pushed(old(ring), e) else old(ring)
      ensures disk == if ring == old(ring) then old(disk) else Some(ring)
    {
      if e.Other? {
        return;
      }
      var plain := e.kek;
      if e.kekEnc.Some? {
        var w := e.kekEnc.value;
        var resolved: Option<Key> := None;
        var i := |ring|;
        assert ring[..i] == ring;
        while i > 0 && resolved.None?
          invariant 0 <= i <= |ring| && ring == old(ring) && disk == old(disk)
          invariant Resolve(ring, w) == if resolved.Some? then resolved else Resolve(ring[..i], w)
        {
          i := i - 1;
          assert ring[..i + 1][..i] == ring[..i];
          var kk := UnwrapMasterKey(ring[i], w);
          if kk.Ok? {
            resolved := Some(kk.value);
          }
        }
        if resolved.None? {
          return;
        }
        plain := resolved.value;
      }
      if |plain| != KEY_LENGTH || plain in ring {
        return;
      }
      var newRing := ring + [plain];
      if !saveSucceeds {
        return;
      }
      disk := Some(newRing);
      ring := ring + [plain];
    }
  }
}
