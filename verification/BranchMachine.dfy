/** The commands of the state machine that write a branch's version chain, and every run of them. */
module BranchMachine {
  import opened Model
  import opened Order
  import opened Diff
  import opened Versions
  import opened Watch
  import opened Stream

  /** A branch as stored: `grayRule` says whether a gray rule is set, `graySnaps` holds the rows
      under `gray-snap/`. */
  datatype Branch = Branch(
    project: string, name: string, active: nat, structureVersion: nat, lastRequest: Option<string>,
    graySeq: nat, grayRule: bool, rows: Rows, graySnaps: map<nat, SnapshotMap>)

  /** Drafts, the structure and the shared library enter only through what they make of the active
      snapshot, or the refusal they cause. */
  type Materialize = SnapshotMap -> Result<SnapshotMap>

  datatype Command =
    | Publish(requestId: string, draft: Materialize)
    | Rollback(toVersion: nat, requestId: string)
    | Cascade(group: string, key: string, value: Value, requestId: string)
    | PublishStructure(structureVersion: nat, requestId: string)
    | GrayPublish(requestId: string, draft: Materialize)
    | GrayPromote(requestId: string)
    | GrayAbort(requestId: string)
    | Prune(keep: nat)

  datatype Outcome = Done(branch: Branch, events: seq<PublishEvent>) | Refused(message: string)

  function NewBranch(project: string, name: string, structureVersion: nat): Branch {
    Branch(project, name, 0, structureVersion, None, 0, false, Rows(map[], map[], map[]), map[])
  }

  function NextMonotonic(active: nat, gray: nat): nat {
    (if active < gray then gray else active) + 1
  }

  function PutItem(m: SnapshotMap, g: string, k: string, v: Value): SnapshotMap {
    m[g := (if g in m then m[g] else map[])[k := v]]
  }

  function EventOf(b: Branch, version: nat, ty: EventType, sv: nat, requestId: string, changes: seq<DiffEntry>, gray: bool)
    : PublishEvent
  {
    PublishEvent(b.project, b.name, version, ty, sv, "", requestId, changes, gray)
  }

  function RecordOf(vno: nat, sv: nat, ty: EventType, rollbackOf: Option<nat>, gray: bool): VersionRecord {
    VersionRecord(vno, sv, "", rollbackOf, Some(ty), gray)
  }

  // ---------------- the commands as functions ----------------

  ghost function Current(b: Branch): Result<SnapshotMap> {
    if b.active == 0 then Ok(map[]) else Read(b.rows, b.active)
  }

  ghost function Advance(b: Branch, before: SnapshotMap, after: SnapshotMap, rec: VersionRecord): Branch {
    b.(active := rec.no, rows := Write(b.rows, rec.no, before, after, rec))
  }

  ghost predicate Consist(b: Branch) {
    && Consistent(b.rows, b.active)
    && (b.graySeq > 0 <==> b.grayRule)
    && (b.graySeq > 0 ==> b.graySeq in b.graySnaps)
    && 0 !in b.graySnaps
  }

  ghost function Exec(b: Branch, c: Command): Outcome
    requires Consist(b)
  {
    match c
    case Publish(req, draft) =>
      if b.lastRequest == Some(req) then Done(b, []) else
      var cur := Current(b);
      if cur.Err? then Refused(cur.message) else
      var res := draft(cur.value);
      if res.Err? then Refused(res.message) else
      var rec := RecordOf(b.active + 1, b.structureVersion, ValuePublish, None, false);
      Done(Advance(b, cur.value, res.value, rec).(lastRequest := Some(req)),
           [EventOf(b, rec.no, ValuePublish, b.structureVersion, req, Changes(cur.value, res.value), false)])
    case Rollback(to, req) =>
      if b.lastRequest == Some(req) then Done(b, []) else
      if to == 0 || to >= b.active then Refused("to_version out of range") else
      var snap := Read(b.rows, to);
      if snap.Err? then Refused(snap.message) else
      var cur := Current(b);
      if cur.Err? then Refused(cur.message) else
      var rec := RecordOf(b.active + 1, b.structureVersion, EventType.Rollback, Some(to), false);
      Done(Advance(b, cur.value, snap.value, rec).(lastRequest := Some(req)),
           [EventOf(b, rec.no, EventType.Rollback, b.structureVersion, req, Changes(cur.value, snap.value), false)])
    case Cascade(g, k, v, req) =>
      var cur := Current(b);
      if cur.Err? then Refused(cur.message) else
      var after := PutItem(cur.value, g, k, v);
      var rec := RecordOf(b.active + 1, b.structureVersion, SharedCascade, None, false);
      Done(Advance(b, cur.value, after, rec),
           [EventOf(b, rec.no, SharedCascade, b.structureVersion, req, Changes(cur.value, after), false)])
    case PublishStructure(sv, req) =>
      var cur := Current(b);
      if cur.Err? then Refused(cur.message) else
      var rec := RecordOf(NextMonotonic(b.active, b.graySeq), sv, StructurePublish, None, false);
      var moved := Advance(b, cur.value, cur.value, rec).(structureVersion := sv);
      Done(if b.graySeq == 0 then moved else
             moved.(graySnaps := b.graySnaps[rec.no + 1 := b.graySnaps[b.graySeq]] - {b.graySeq}, graySeq := rec.no + 1),
           [EventOf(b, rec.no, StructurePublish, sv, req, [], false)])
    case GrayPublish(req, draft) =>
      if b.lastRequest == Some(req) then Done(b, []) else
      var cur := Current(b);
      if cur.Err? then Refused(cur.message) else
      var res := draft(cur.value);
      if res.Err? then Refused(res.message) else
      Done(b.(graySeq := b.graySeq + 1, grayRule := true, lastRequest := Some(req),
              graySnaps := b.graySnaps[b.graySeq + 1 := res.value] - {b.graySeq}),
           [EventOf(b, b.active, ValuePublish, b.structureVersion, req, Changes(cur.value, res.value), true)])
    case GrayPromote(req) =>
      if b.lastRequest == Some(req) then Done(b, []) else
      if b.graySeq == 0 || !b.grayRule then Refused("no active gray") else
      var cur := Current(b);
      if cur.Err? then Refused(cur.message) else
      var after := b.graySnaps[b.graySeq];
      var rec := RecordOf(NextMonotonic(b.active, b.graySeq), b.structureVersion, ValuePublish, None, true);
      Done(Advance(b, cur.value, after, rec).(
             graySnaps := b.graySnaps - {b.graySeq}, graySeq := 0, grayRule := false, lastRequest := Some(req)),
           [EventOf(b, rec.no, ValuePublish, b.structureVersion, req, Changes(cur.value, after), true)])
    case GrayAbort(req) =>
      if b.lastRequest == Some(req) then Done(b, []) else
      if b.graySeq == 0 || !b.grayRule then Refused("no active gray") else
      Done(b.(graySnaps := b.graySnaps - {b.graySeq}, graySeq := 0, grayRule := false, lastRequest := Some(req)),
           [EventOf(b, b.active, ValuePublish, b.structureVersion, req, [], true)])
    case Prune(keep) =>
      Done(b.(rows := Versions.Pruned(b.rows, b.active, keep)), [])
  }

  ghost function Next(b: Branch, c: Command): Branch
    requires Consist(b)
  {
    var o := Exec(b, c);
    if o.Done? then o.branch else b
  }

  ghost function Emitted(b: Branch, c: Command): seq<PublishEvent>
    requires Consist(b)
  {
    var o := Exec(b, c);
    if o.Done? then o.events else []
  }

  // ---------------- what every command keeps ----------------

  /** The contents a command that writes a version gives it, read off the branch. */
  ghost function Contents(b: Branch, c: Command): SnapshotMap
    requires Consist(b)
  {
    var cur := if Current(b).Ok? then Current(b).value else map[];
    match c
    case Publish(req, draft) => if draft(cur).Ok? then draft(cur).value else map[]
    case Rollback(to, req) => if Read(b.rows, to).Ok? then Read(b.rows, to).value else map[]
    case Cascade(g, k, v, req) => PutItem(cur, g, k, v)
    case PublishStructure(sv, req) => cur
    case GrayPromote(req) => if b.graySeq > 0 then b.graySnaps[b.graySeq] else map[]
    case _ => map[]
  }

  /** Commands that number from the gray sequence may skip numbers. */
  predicate Jumps(c: Command) {
    c.PublishStructure? || c.GrayPromote?
  }

  /** Every command either writes one version on top of the readable active one, or prunes, or
      leaves the version rows alone; its events carry the version it ends at, and an event that is
      not gray carries a new one. */
  lemma NextShape(b: Branch, c: Command)
    requires Consist(b)
    ensures var n, cur := Next(b, c), Current(b);
            && (n.active != b.active ==>
                  && cur.Ok? && b.active < n.active && n.active in n.rows.records
                  && n.rows == Write(b.rows, n.active, cur.value, Contents(b, c), n.rows.records[n.active])
                  && n.rows.records[n.active].no == n.active
                  && n.active == if Jumps(c) then NextMonotonic(b.active, b.graySeq) else b.active + 1)
            && (n.active == b.active ==> n.rows == if c.Prune? then Versions.Pruned(b.rows, b.active, c.keep) else b.rows)
            && n.project == b.project && n.name == b.name
    ensures var n, es := Next(b, c), Emitted(b, c);
            forall e | e in es ::
              && e.version == n.active && e.project == b.project && e.branch == b.name
              && (!e.gray ==> b.active < e.version)
  {
    hide Read, Changes, Versions.Pruned, Consistent, Checkpoint;
  }

  lemma NextConsist(b: Branch, c: Command)
    requires Consist(b)
    ensures Consist(Next(b, c))
  {
    hide Write, Consistent, Read, Changes, Versions.Pruned;
    var n := Next(b, c);
    NextShape(b, c);
    if n.active != b.active {
      WriteConsistent(b.rows, b.active, n.active, Current(b).value, Contents(b, c), n.rows.records[n.active]);
    } else {
      PrunedConsistent(b.rows, b.active, if c.Prune? then c.keep else 0);
    }
  }

  lemma PrunedConsistent(r: Rows, active: nat, keep: nat)
    requires Consistent(r, active)
    ensures Consistent(Versions.Pruned(r, active, keep), active)
    ensures active > 0 ==> Read(Versions.Pruned(r, active, keep), active) == Read(r, active)
  {
    hide Read;
    if |r.records| > keep {
      PruneKeeps(r, active, keep, active);
      PruneCutFacts(r, active, keep);
    }
  }

  // ---------------- runs ----------------

  ghost function Run(b: Branch, cs: seq<Command>): (n: Branch)
    requires Consist(b)
    ensures Consist(n)
  {
    if cs == [] then b else
      var m := Run(b, cs[..|cs| - 1]);
      NextConsist(m, cs[|cs| - 1]);
      Next(m, cs[|cs| - 1])
  }

  /** The events a run publishes, in order. */
  ghost function RunEvents(b: Branch, cs: seq<Command>): (es: seq<PublishEvent>)
    requires Consist(b)
  {
    if cs == [] then [] else
      RunEvents(b, cs[..|cs| - 1]) + Emitted(Run(b, cs[..|cs| - 1]), cs[|cs| - 1])
  }

  /** The active version can be read, or nothing is published yet. */
  ghost predicate Alive(b: Branch) {
    b.active == 0 || Read(b.rows, b.active).Ok?
  }

  /** What a caller can check before a command: a structure publish or a gray promotion takes the
      number after the larger of the active version and the gray sequence, and that number must
      follow the active version directly or be a multiple of the checkpoint interval. */
  predicate Careful(b: Branch, c: Command) {
    (c.PublishStructure? || (c.GrayPromote? && b.lastRequest != Some(c.requestId) && b.graySeq > 0)) ==>
      b.graySeq <= b.active || (b.graySeq + 1) % CHECKPOINT_INTERVAL == 0
  }

  lemma NextAlive(b: Branch, c: Command)
    requires Consist(b) && Alive(b)
    ensures Alive(Next(b, c)) <==> Careful(b, c)
  {
    hide Write, Consistent, Read, Changes, Versions.Pruned;
    var n := Next(b, c);
    NextShape(b, c);
    if n.active != b.active {
      WriteReads(b.rows, b.active, n.active, Current(b).value, Contents(b, c), n.rows.records[n.active]);
      JumpsWhenActive(b, c);
    } else {
      PrunedConsistent(b.rows, b.active, if c.Prune? then c.keep else 0);
      JumpsWhenActive(b, c);
    }
  }

  lemma JumpsWhenActive(b: Branch, c: Command)
    requires Consist(b) && Current(b).Ok?
    ensures Jumps(c) ==> (Next(b, c).active != b.active <==>
              c.PublishStructure? || (b.lastRequest != Some(c.requestId) && b.graySeq > 0))
  {
    hide Write, Consistent, Read, Changes, Versions.Pruned;
  }

  /** Once the active version cannot be read, no command ever moves the branch again. */
  lemma NextWedged(b: Branch, c: Command)
    requires Consist(b) && !Alive(b)
    ensures Next(b, c).active == b.active && !Alive(Next(b, c))
  {
    hide Write, Consistent, Read, Changes, Versions.Pruned;
    NextShape(b, c);
    PrunedConsistent(b.rows, b.active, if c.Prune? then c.keep else 0);
  }

  ghost predicate CarefulRun(b: Branch, cs: seq<Command>)
    requires Consist(b)
  {
    cs == [] || (CarefulRun(b, cs[..|cs| - 1]) && Careful(Run(b, cs[..|cs| - 1]), cs[|cs| - 1]))
  }

  /** In every run from a branch whose active version can be read, it can be read at the end exactly when
      every structure publish and gray promotion along the way was careful. */
  lemma {:induction false} RunAlive(b: Branch, cs: seq<Command>)
    requires Consist(b) && Alive(b)
    ensures Alive(Run(b, cs)) <==> CarefulRun(b, cs)
  {
    hide Next, Alive, Careful;
    if cs != [] {
      var front := cs[..|cs| - 1];
      RunAlive(b, front);
      if Alive(Run(b, front)) {
        NextAlive(Run(b, front), cs[|cs| - 1]);
      } else {
        NextWedged(Run(b, front), cs[|cs| - 1]);
      }
    }
  }

  /** A branch whose active version cannot be read stays at that version through every further run
      of publishes, rollbacks, cascades, structure publishes, gray commands and pruning. */
  lemma {:induction false} WedgedForever(b: Branch, cs: seq<Command>)
    requires Consist(b) && !Alive(b)
    ensures Run(b, cs).active == b.active && !Alive(Run(b, cs))
  {
    hide Next, Alive;
    if cs != [] {
      WedgedForever(b, cs[..|cs| - 1]);
      NextWedged(Run(b, cs[..|cs| - 1]), cs[|cs| - 1]);
    }
  }

  /** A concrete run that ends unreadable: a second gray publish before the promotion. Everything the
      drafts produce succeeds. */
  lemma GrayJumpWedges(b: Branch, one: Materialize, two: Materialize, three: Materialize)
    requires b == NewBranch("p", "dev", 1)
    requires forall m :: one(m).Ok? && two(m).Ok? && three(m).Ok?
    ensures Consist(b)
    ensures var n := Run(b, [Publish("r1", one), GrayPublish("r2", two), GrayPublish("r3", three), GrayPromote("r4")]);
            n.active == 3 && !Alive(n)
  {
    hide Read, Write, Changes, Versions.Pruned, Consistent;
    assert Consistent(b.rows, 0) by { FreshConsistent(b.rows); }
    var cs := [Publish("r1", one), GrayPublish("r2", two), GrayPublish("r3", three), GrayPromote("r4")];
    var b1 := Next(b, cs[0]);
    NextConsist(b, cs[0]);
    NextAlive(b, cs[0]);
    assert b1.active == 1 && b1.graySeq == 0 && b1.lastRequest == Some("r1");
    var b2 := Next(b1, cs[1]);
    NextConsist(b1, cs[1]);
    NextAlive(b1, cs[1]);
    assert b2.active == 1 && b2.graySeq == 1 && b2.grayRule && b2.lastRequest == Some("r2");
    var b3 := Next(b2, cs[2]);
    NextConsist(b2, cs[2]);
    NextAlive(b2, cs[2]);
    assert b3.active == 1 && b3.graySeq == 2 && b3.grayRule && b3.lastRequest == Some("r3");
    NextAlive(b3, cs[3]);
    assert Next(b3, cs[3]).active == 3;
    assert cs[..3][..2] == cs[..2] && cs[..2][..1] == cs[..1] && cs[..1][..0] == [];
    assert Run(b, cs[..1]) == b1;
    assert Run(b, cs[..2]) == b2;
    assert Run(b, cs[..3]) == b3;
  }

  lemma FreshConsistent(r: Rows)
    requires r == Rows(map[], map[], map[])
    ensures Consistent(r, 0)
  {
  }

  /** After a structure publish during a gray release, promoting that release is never careful,
      except where the number it takes happens to be a checkpoint. */
  lemma StructurePublishThenPromote(b: Branch, sv: nat, r1: string, r2: string)
    requires Consist(b) && Current(b).Ok? && b.graySeq > 0 && b.lastRequest != Some(r2)
    ensures var n := Next(b, PublishStructure(sv, r1));
            Careful(n, GrayPromote(r2)) <==> (NextMonotonic(b.active, b.graySeq) + 2) % CHECKPOINT_INTERVAL == 0
  {
    hide Write, Changes, Consistent, Read, Versions.Pruned;
  }

  // ---------------- readers see what was published ----------------

  /** What was published under each version number, and what the gray release under way was made of. */
  datatype Published = Published(versions: map<nat, SnapshotMap>, gray: Option<SnapshotMap>)

  ghost function PublishedAt(h: Published, v: nat): SnapshotMap {
    if v in h.versions then h.versions[v] else map[]
  }

  /** What a command's draft makes of the contents it is applied to. */
  ghost function Drafted(b: Branch, draft: Materialize): SnapshotMap {
    if Current(b).Ok? && draft(Current(b).value).Ok? then draft(Current(b).value).value else map[]
  }

  /** The contents a command means to publish: what its draft makes, or something in terms of what was
      published before; a promotion means what the last gray publish made. */
  ghost function Intent(h: Published, b: Branch, c: Command): SnapshotMap {
    match c
    case Publish(req, draft) => Drafted(b, draft)
    case Rollback(to, req) => PublishedAt(h, to)
    case Cascade(g, k, v, req) => PutItem(PublishedAt(h, b.active), g, k, v)
    case PublishStructure(sv, req) => PublishedAt(h, b.active)
    case GrayPromote(req) => if h.gray.Some? then h.gray.value else map[]
    case _ => map[]
  }

  /** The gray release after a command: begun or replaced by a gray publish, ended by its promotion or an
      abort, and left alone by everything else, a structure publish that renumbers it included. */
  ghost function Graying(h: Published, b: Branch, c: Command): Option<SnapshotMap>
    requires Consist(b)
  {
    if Emitted(b, c) == [] then h.gray
    else
      match c
      case GrayPublish(req, draft) => Some(Drafted(b, draft))
      case GrayPromote(req) => None
      case GrayAbort(req) => None
      case _ => h.gray
  }

  ghost function Publishing(h: Published, b: Branch, c: Command): Published
    requires Consist(b)
  {
    Published(if Next(b, c).active == b.active then h.versions else h.versions[Next(b, c).active := Intent(h, b, c)],
              Graying(h, b, c))
  }

  /** Every retained version that can be read holds what was published under its number, and the gray
      snapshot what the last gray publish made. */
  ghost predicate Faithful(b: Branch, h: Published) {
    FaithfulRows(b.rows, h.versions) && FaithfulGray(b, h.gray)
  }

  ghost predicate FaithfulRows(r: Rows, versions: map<nat, SnapshotMap>) {
    && r.records.Keys <= versions.Keys && 0 !in versions
    && forall v | v in r.records && Read(r, v).Ok? :: SameItems(Read(r, v).value, versions[v])
  }

  ghost predicate FaithfulGray(b: Branch, gray: Option<SnapshotMap>) {
    && (gray.Some? <==> b.graySeq > 0)
    && (gray.Some? ==> b.graySeq in b.graySnaps && b.graySnaps[b.graySeq] == gray.value)
  }

  lemma NewBranchFaithful(project: string, name: string, sv: nat)
    ensures Consist(NewBranch(project, name, sv)) && Faithful(NewBranch(project, name, sv), Published(map[], None))
  {
  }

  lemma ContentsMatchIntent(b: Branch, h: Published, c: Command)
    requires Consist(b) && Faithful(b, h) && Next(b, c).active != b.active
    ensures SameItems(Contents(b, c), Intent(h, b, c))
  {
    hide Write, Changes, Versions.Pruned, Get;
    NextShape(b, c);
    var cur := Current(b).value;
    assert SameItems(cur, PublishedAt(h, b.active));
    if c.Cascade? {
      PutItemSame(cur, PublishedAt(h, b.active), c.group, c.key, c.value);
    } else if c.Rollback? {
      RollbackTargetRecorded(b, c);
    }
  }

  lemma NextFaithfulGray(b: Branch, h: Published, c: Command)
    requires Consist(b) && FaithfulGray(b, h.gray)
    ensures FaithfulGray(Next(b, c), Graying(h, b, c))
  {
    hide Write, Changes, Versions.Pruned, Read, Consistent;
  }

  lemma RollbackTargetRecorded(b: Branch, c: Command)
    requires Consist(b) && c.Rollback? && Next(b, c).active != b.active
    ensures c.toVersion in b.rows.records && Read(b.rows, c.toVersion).Ok?
  {
    hide Write, Changes, Versions.Pruned;
    ReadIff(b.rows, b.active, c.toVersion);
    if c.toVersion > 0 {
      BaseFacts(c.toVersion);
    }
  }

  /** A shared item arriving in a snapshot sets that item and leaves every other as it is. */
  lemma PutItemExact(m: SnapshotMap, g: string, k: string, v: Value)
    ensures forall x, y :: Get(PutItem(m, g, k, v), x, y) == if (x, y) == (g, k) then Some(v) else Get(m, x, y)
    ensures forall x :: EmptyGroup(PutItem(m, g, k, v), x) <==> EmptyGroup(m, x) && x != g
  {
    assert k in PutItem(m, g, k, v)[g];
  }

  /** What a cascade does to the active contents: the item it carries is set, nothing else changes. */
  lemma CascadeExact(b: Branch, g: string, k: string, v: Value, req: string)
    requires Consist(b)
    ensures var n := Next(b, Cascade(g, k, v, req));
            if Current(b).Ok? then
              && n.active == b.active + 1 && Current(n).Ok?
              && forall x, y :: Get(Current(n).value, x, y) == if (x, y) == (g, k) then Some(v) else Get(Current(b).value, x, y)
            else n == b
  {
    hide Write, Changes, Read, Consistent, Get, PutItem;
    if Current(b).Ok? {
      var n := Next(b, Cascade(g, k, v, req));
      var cur := Current(b).value;
      var after := PutItem(cur, g, k, v);
      WriteReads(b.rows, b.active, n.active, cur, after, RecordOf(b.active + 1, b.structureVersion, SharedCascade, None, false));
      PutItemExact(cur, g, k, v);
      forall x, y
        ensures Get(Current(n).value, x, y) == if (x, y) == (g, k) then Some(v) else Get(cur, x, y)
      {
        assert Get(Current(n).value, x, y) == Get(after, x, y);
      }
    }
  }

  // ---------------- repeats and refusals ----------------

  /** The request a command carries, where it is remembered. */
  function RequestOf(c: Command): Option<string> {
    match c
    case Publish(req, _) => Some(req)
    case Rollback(_, req) => Some(req)
    case GrayPublish(req, _) => Some(req)
    case GrayPromote(req) => Some(req)
    case GrayAbort(req) => Some(req)
    case _ => None
  }

  /** A command repeated with the request id remembered changes nothing and publishes nothing; and one
      that published remembers its own. */
  lemma RepeatIsIdle(b: Branch, c: Command)
    requires Consist(b) && RequestOf(c).Some?
    ensures b.lastRequest == RequestOf(c) ==> Next(b, c) == b && Emitted(b, c) == []
    ensures Emitted(b, c) != [] ==>
              && Next(b, c).lastRequest == RequestOf(c) && Consist(Next(b, c))
              && forall d | RequestOf(d) == RequestOf(c) :: Next(Next(b, c), d) == Next(b, c) && Emitted(Next(b, c), d) == []
  {
    hide Write, Changes, Read, Consistent, Versions.Pruned;
    if Emitted(b, c) != [] {
      NextConsist(b, c);
      var n := Next(b, c);
      forall d | RequestOf(d) == RequestOf(c)
        ensures Next(n, d) == n && Emitted(n, d) == []
      {
        RepeatOnce(n, d);
      }
    }
  }

  lemma RepeatOnce(b: Branch, c: Command)
    requires Consist(b) && RequestOf(c).Some? && b.lastRequest == RequestOf(c)
    ensures Next(b, c) == b && Emitted(b, c) == []
  {
    hide Write, Changes, Read, Consistent, Versions.Pruned;
  }

  /** When a command takes effect. */
  lemma TakesEffectIff(b: Branch, c: Command)
    requires Consist(b) && !c.Prune?
    ensures Emitted(b, c) != [] <==>
            && (RequestOf(c).Some? ==> b.lastRequest != RequestOf(c))
            && (c.GrayAbort? || Current(b).Ok?)
            && (c.Publish? ==> c.draft(Current(b).value).Ok?)
            && (c.GrayPublish? ==> c.draft(Current(b).value).Ok?)
            && (c.Rollback? ==> 0 < c.toVersion < b.active && Read(b.rows, c.toVersion).Ok?)
            && (c.GrayPromote? || c.GrayAbort? ==> b.graySeq > 0)
    ensures Emitted(b, c) == [] ==> Next(b, c) == b
  {
    hide Write, Changes, Read, Consistent, Versions.Pruned;
  }

  /** What kind of event a command publishes. */
  function KindOf(c: Command): EventType {
    match c
    case Rollback(_, _) => EventType.Rollback
    case Cascade(_, _, _, _) => SharedCascade
    case PublishStructure(_, _) => StructurePublish
    case _ => ValuePublish
  }

  /** What the event of a command that took effect says, and the record of the version it made. */
  lemma EventAndRecord(b: Branch, c: Command)
    requires Consist(b) && Emitted(b, c) != []
    ensures var e, n := Emitted(b, c)[0], Next(b, c);
            && |Emitted(b, c)| == 1 && e.project == b.project && e.branch == b.name && e.version == n.active
            && e.ty == KindOf(c) && e.structureVersion == n.structureVersion
            && e.gray == (c.GrayPublish? || c.GrayPromote? || c.GrayAbort?)
            && (RequestOf(c).Some? ==> e.requestId == RequestOf(c).value)
            && (c.GrayAbort? ==> e.changes == [])
            && n.structureVersion == (if c.PublishStructure? then c.structureVersion else b.structureVersion)
            && n.active == (match c
                            case GrayPublish(_, _) => b.active
                            case GrayAbort(_) => b.active
                            case PublishStructure(_, _) => (if b.active < b.graySeq then b.graySeq else b.active) + 1
                            case GrayPromote(_) => (if b.active < b.graySeq then b.graySeq else b.active) + 1
                            case _ => b.active + 1)
            && n.graySeq == (match c
                             case GrayPublish(_, _) => b.graySeq + 1
                             case PublishStructure(_, _) => if b.graySeq == 0 then 0 else n.active + 1
                             case GrayPromote(_) => 0
                             case GrayAbort(_) => 0
                             case _ => b.graySeq)
            && (n.active != b.active ==>
                  && n.active in n.rows.records
                  && var rec := n.rows.records[n.active];
                     && rec.no == n.active && rec.structureVersion == n.structureVersion && rec.eventTy == Some(KindOf(c))
                     && rec.gray == c.GrayPromote? && rec.rollbackOf == if c.Rollback? then Some(c.toVersion) else None)
  {
    hide Changes, Read, Consistent, Versions.Pruned, Checkpoint;
  }

  /** A gray publish or abort leaves the stable side of the branch alone. */
  lemma GrayLeavesStable(b: Branch, c: Command)
    requires Consist(b) && (c.GrayPublish? || c.GrayAbort?)
    ensures var n := Next(b, c);
            && n.active == b.active && n.rows == b.rows && n.structureVersion == b.structureVersion
            && Current(n) == Current(b)
            && (c.GrayAbort? && Emitted(b, c) != [] ==> n.graySeq == 0 && !n.grayRule && b.graySeq !in n.graySnaps)
  {
    hide Write, Changes, Read, Consistent, Versions.Pruned;
  }

  lemma PutItemSame(a: SnapshotMap, b: SnapshotMap, g: string, k: string, v: Value)
    requires SameItems(a, b)
    ensures SameItems(PutItem(a, g, k, v), PutItem(b, g, k, v))
  {
    forall x, y
      ensures Get(PutItem(a, g, k, v), x, y) == Get(PutItem(b, g, k, v), x, y)
    {
      assert Get(a, x, y) == Get(b, x, y);
    }
  }

  lemma NextFaithful(b: Branch, h: Published, c: Command)
    requires Consist(b) && Faithful(b, h)
    ensures Faithful(Next(b, c), Publishing(h, b, c))
  {
    NextFaithfulGray(b, h, c);
    NextFaithfulRows(b, h, c);
  }

  lemma NextFaithfulRows(b: Branch, h: Published, c: Command)
    requires Consist(b) && Faithful(b, h)
    ensures FaithfulRows(Next(b, c).rows, Publishing(h, b, c).versions)
  {
    hide Write, Changes, Versions.Pruned, Get, Read, Contents, Intent, Consistent, FaithfulGray, Graying;
    var n := Next(b, c);
    NextShape(b, c);
    if n.active != b.active {
      ContentsMatchIntent(b, h, c);
      var before, after, rec := Current(b).value, Contents(b, c), n.rows.records[n.active];
      WriteReads(b.rows, b.active, n.active, before, after, rec);
      WriteRecords(b.rows, n.active, before, after, rec);
      forall v | v in n.rows.records && v != n.active
        ensures v in b.rows.records && v < n.active && Read(n.rows, v) == Read(b.rows, v)
      {
        RecordsBelow(b.rows, b.active, v);
        WriteKeeps(b.rows, b.active, n.active, before, after, rec, v);
      }
    } else if c.Prune? && |b.rows.records| > c.keep {
      forall v | v in n.rows.records
        ensures v in b.rows.records && Read(n.rows, v) == Read(b.rows, v)
      {
        PruneKeeps(b.rows, b.active, c.keep, v);
      }
    } else {
      PrunedSmall(b.rows, b.active, if c.Prune? then c.keep else |b.rows.records|);
    }
  }

  lemma PrunedSmall(r: Rows, active: nat, keep: nat)
    requires Consistent(r, active) && |r.records| <= keep
    ensures Versions.Pruned(r, active, keep) == r
  {
  }

  lemma WriteRecords(r: Rows, vno: nat, before: SnapshotMap, after: SnapshotMap, rec: VersionRecord)
    ensures Write(r, vno, before, after, rec).records == r.records[vno := rec]
  {
  }

  lemma RecordsBelow(r: Rows, active: nat, v: nat)
    requires Consistent(r, active) && v in r.records
    ensures 0 < v <= active
  {
  }

  ghost function RunPublished(b: Branch, h: Published, cs: seq<Command>): Published
    requires Consist(b)
  {
    if cs == [] then h else
      var front := cs[..|cs| - 1];
      Publishing(RunPublished(b, h, front), Run(b, front), cs[|cs| - 1])
  }

  /** In every run, whatever the gray releases, rollbacks and prunings, no reader is ever given other
      contents than were published under the version it asked for; under a promoted version these are
      what the last gray publish made, whatever structure publishes came between. */
  lemma {:induction false} RunFaithful(b: Branch, h: Published, cs: seq<Command>)
    requires Consist(b) && Faithful(b, h)
    ensures Faithful(Run(b, cs), RunPublished(b, h, cs))
  {
    hide Next, Faithful, Publishing;
    if cs != [] {
      var front := cs[..|cs| - 1];
      RunFaithful(b, h, front);
      NextFaithful(Run(b, front), RunPublished(b, h, front), cs[|cs| - 1]);
    }
  }

  // ---------------- careful runs keep every retained version readable ----------------

  ghost predicate Healthy(b: Branch) {
    forall v | v in b.rows.records :: Read(b.rows, v).Ok?
  }

  lemma NextHealthy(b: Branch, c: Command)
    requires Consist(b) && Healthy(b) && Careful(b, c)
    ensures Healthy(Next(b, c))
  {
    hide Write, Changes, Versions.Pruned, Read, Contents, Consistent, Careful;
    var n := Next(b, c);
    assert Alive(b) by { ActiveRecorded(b); }
    NextAlive(b, c);
    NextShape(b, c);
    if n.active != b.active {
      var before, after, rec := Current(b).value, Contents(b, c), n.rows.records[n.active];
      WriteRecords(b.rows, n.active, before, after, rec);
      forall v | v in n.rows.records && v != n.active
        ensures Read(n.rows, v).Ok?
      {
        RecordsBelow(b.rows, b.active, v);
        WriteKeeps(b.rows, b.active, n.active, before, after, rec, v);
      }
    } else if c.Prune? && |b.rows.records| > c.keep {
      forall v | v in n.rows.records
        ensures Read(n.rows, v).Ok?
      {
        PruneKeeps(b.rows, b.active, c.keep, v);
      }
    } else {
      PrunedSmall(b.rows, b.active, if c.Prune? then c.keep else |b.rows.records|);
    }
  }

  lemma ActiveRecorded(b: Branch)
    requires Consist(b)
    ensures b.active > 0 ==> b.active in b.rows.records
  {
  }

  lemma {:induction false} RunHealthy(b: Branch, cs: seq<Command>)
    requires Consist(b) && Healthy(b) && CarefulRun(b, cs)
    ensures Healthy(Run(b, cs))
  {
    hide Next, Healthy, Careful;
    if cs != [] {
      RunHealthy(b, cs[..|cs| - 1]);
      NextHealthy(Run(b, cs[..|cs| - 1]), cs[|cs| - 1]);
    }
  }

  // ---------------- the events of a run ----------------

  lemma {:induction false} RunEventsBounded(b: Branch, cs: seq<Command>)
    requires Consist(b)
    ensures b.active <= Run(b, cs).active
    ensures Run(b, cs).project == b.project && Run(b, cs).name == b.name
    ensures forall e | e in RunEvents(b, cs) ::
              e.version <= Run(b, cs).active && e.project == b.project && e.branch == b.name
  {
    hide Next, Emitted, Exec;
    if cs != [] {
      var front, c := cs[..|cs| - 1], cs[|cs| - 1];
      RunEventsBounded(b, front);
      NextShape(Run(b, front), c);
    }
  }

  /** In every run, an ordinary event carries a version above that of every event before it, gray or
      not, and above the version the branch started from. */
  lemma {:induction false} RunOrderly(b: Branch, cs: seq<Command>)
    requires Consist(b)
    ensures Orderly(RunEvents(b, cs)) && OrdinaryAbove(RunEvents(b, cs), b.active)
  {
    hide Next, Emitted, Exec;
    if cs != [] {
      var front, c := cs[..|cs| - 1], cs[|cs| - 1];
      var es, fs := RunEvents(b, front), Emitted(Run(b, front), c);
      RunOrderly(b, front);
      RunEventsBounded(b, front);
      NextShape(Run(b, front), c);
      OneEvent(Run(b, front), c);
      forall i | 0 <= i < |es|
        ensures es[i].version <= Run(b, front).active
      {
        assert es[i] in es;
      }
      assert fs != [] ==> fs[0] in fs;
    }
  }

  lemma OneEvent(b: Branch, c: Command)
    requires Consist(b)
    ensures |Emitted(b, c)| <= 1
  {
    hide Write, Changes, Versions.Pruned, Read, Consistent;
  }

  /** A command that moves the branch publishes one event, whose changes take the contents of the
      version before to the contents of the new one. */
  lemma EventCarriesChange(b: Branch, c: Command, m: SnapshotMap)
    requires Consist(b) && Next(b, c).active != b.active
    ensures Current(b).Ok? && |Emitted(b, c)| == 1
    ensures SameItems(m, Current(b).value) ==> SameItems(Apply(m, Emitted(b, c)[0].changes), Contents(b, c))
  {
    hide Write, Changes, Versions.Pruned, Read, Consistent, Get, Apply;
    NextShape(b, c);
    var cur, after, ds := Current(b).value, Contents(b, c), Emitted(b, c)[0].changes;
    if c.PublishStructure? {
      ApplyNone(m);
    } else {
      assert ds == Changes(cur, after);
      forall g, k | SameItems(m, cur)
        ensures Get(Apply(m, ds), g, k) == Get(after, g, k)
      {
        ChangesEffect(m, cur, after, g, k);
      }
    }
  }

  lemma ApplyNone(m: SnapshotMap)
    ensures Apply(m, []) == m
  {
  }

  /** The event of a gray publish takes the stable contents to those of the gray snapshot it stores. */
  lemma GrayEventCarriesChange(b: Branch, c: Command, m: SnapshotMap)
    requires Consist(b) && c.GrayPublish? && Emitted(b, c) != []
    ensures var n := Next(b, c);
            && Current(b).Ok? && n.graySeq in n.graySnaps
            && (SameItems(m, Current(b).value) ==> SameItems(Apply(m, Emitted(b, c)[0].changes), n.graySnaps[n.graySeq]))
  {
    hide Write, Changes, Versions.Pruned, Read, Consistent, Get, Apply;
    var cur := Current(b).value;
    var gray := c.draft(cur).value;
    assert Emitted(b, c)[0].changes == Changes(cur, gray);
    forall g, k | SameItems(m, cur)
      ensures Get(Apply(m, Changes(cur, gray)), g, k) == Get(gray, g, k)
    {
      ChangesEffect(m, cur, gray, g, k);
    }
  }

  /** A live client that applies the changes of every event above its cursor, and no others. */
  datatype Follower = Follower(held: SnapshotMap, last: nat)

  ghost function Follow(f: Follower, es: seq<PublishEvent>): Follower {
    if es == [] then f else
      var g, e := Follow(f, es[..|es| - 1]), es[|es| - 1];
      if e.version > g.last then Follower(Apply(g.held, e.changes), e.version) else g
  }

  /** Through every careful run, a follower that starts with the active contents always holds the
      active contents: gray publishes and aborts, whose changes describe the gray snapshot, are
      exactly the events its cursor rejects. */
  lemma {:induction false} FollowerTracks(b: Branch, cs: seq<Command>, held: SnapshotMap)
    requires Consist(b) && Alive(b) && CarefulRun(b, cs) && SameItems(held, Current(b).value)
    ensures var f, n := Follow(Follower(held, b.active), RunEvents(b, cs)), Run(b, cs);
            f.last == n.active && Current(n).Ok? && SameItems(f.held, Current(n).value)
  {
    hide Next, Emitted, Exec, Careful, Read, Apply, Get;
    RunAlive(b, cs);
    if cs != [] {
      var front, c := cs[..|cs| - 1], cs[|cs| - 1];
      FollowerTracks(b, front, held);
      FollowerStep(Run(b, front), c, Follow(Follower(held, b.active), RunEvents(b, front)));
      var es, fs := RunEvents(b, front), Emitted(Run(b, front), c);
      OneEvent(Run(b, front), c);
      FollowConcat(Follower(held, b.active), es, fs);
    }
  }

  lemma FollowConcat(f: Follower, es: seq<PublishEvent>, fs: seq<PublishEvent>)
    requires |fs| <= 1
    ensures Follow(f, es + fs) == Follow(Follow(f, es), fs)
  {
    hide Apply;
    if fs == [] {
      assert es + fs == es;
    } else {
      assert (es + fs)[..|es|] == es && fs[..0] == [];
    }
  }

  lemma FollowerStep(b: Branch, c: Command, f: Follower)
    requires Consist(b) && Alive(b) && Careful(b, c)
    requires f.last == b.active && SameItems(f.held, Current(b).value)
    ensures var g, n := Follow(f, Emitted(b, c)), Next(b, c);
            g.last == n.active && Current(n).Ok? && SameItems(g.held, Current(n).value)
  {
    hide Write, Changes, Versions.Pruned, Read, Consistent, Get, Apply, Careful, Contents, Exec;
    var n, es := Next(b, c), Emitted(b, c);
    NextShape(b, c);
    NextAlive(b, c);
    OneEvent(b, c);
    if es != [] {
      assert es[0] in es;
      assert es[..0] == [];
    }
    if n.active != b.active {
      EventCarriesChange(b, c, f.held);
      WriteReads(b.rows, b.active, n.active, Current(b).value, Contents(b, c), n.rows.records[n.active]);
    } else {
      PrunedConsistent(b.rows, b.active, if c.Prune? then c.keep else 0);
    }
  }

  // ---------------- watching a branch ----------------

  /** `version_history`: the retained records, ascending. */
  ghost function HistoryOf(b: Branch): (hist: seq<VersionRecord>)
    requires Consist(b)
  {
    var nos := SortedNats(b.rows.records.Keys);
    seq(|nos|, i requires 0 <= i < |nos| => assert nos[i] in nos; b.rows.records[nos[i]])
  }

  lemma HistoryAt(b: Branch, i: nat)
    requires Consist(b) && i < |HistoryOf(b)|
    ensures var nos := SortedNats(b.rows.records.Keys);
            && |HistoryOf(b)| == |nos| && nos[i] in b.rows.records
            && HistoryOf(b)[i] == b.rows.records[nos[i]] && HistoryOf(b)[i].no == nos[i]
  {
    hide Read, Checkpoint;
    var nos := SortedNats(b.rows.records.Keys);
    assert nos[i] in nos;
  }

  lemma RecordsUpToActive(b: Branch)
    requires Consist(b)
    ensures b.active > 0 ==> b.active in b.rows.records
    ensures forall v | v in b.rows.records :: 0 < v <= b.active && b.rows.records[v].no == v
  {
    hide Read, Checkpoint;
  }

  lemma LastIsGreatest(nos: seq<nat>, s: set<nat>, m: nat)
    requires ListsNats(nos, s) && m in s && forall n | n in s :: n <= m
    ensures nos != [] && nos[|nos| - 1] == m
  {
    assert m in nos;
    var i: nat :| i < |nos| && nos[i] == m;
    assert nos[|nos| - 1] in nos;
  }

  lemma Listed(records: map<nat, VersionRecord>, nos: seq<nat>, hist: seq<VersionRecord>)
    requires ListsNats(nos, records.Keys) && |hist| == |nos|
    requires forall i | 0 <= i < |hist| :: nos[i] in records && hist[i] == records[nos[i]] && hist[i].no == nos[i]
    requires forall v | v in records :: records[v].no == v
    ensures InOrder(hist)
    ensures forall rec :: rec in hist <==> rec.no in records && rec == records[rec.no]
  {
    forall v | v in records
      ensures records[v] in hist
    {
      assert v in nos;
      var i: nat :| i < |nos| && nos[i] == v;
      assert hist[i] == records[v];
    }
  }

  lemma HistoryListed(b: Branch)
    requires Consist(b)
    ensures InOrder(HistoryOf(b))
    ensures forall rec :: rec in HistoryOf(b) <==> rec.no in b.rows.records && rec == b.rows.records[rec.no]
  {
    var nos, hist := SortedNats(b.rows.records.Keys), HistoryOf(b);
    assert |hist| == |nos|;
    hide HistoryOf, InOrder, Read, Checkpoint, ListsNats;
    forall i: nat | i < |hist|
      ensures nos[i] in b.rows.records && hist[i] == b.rows.records[nos[i]] && hist[i].no == nos[i]
    {
      HistoryAt(b, i);
    }
    Listed(b.rows.records, nos, hist);
  }

  lemma HistoryEnds(b: Branch)
    requires Consist(b)
    ensures b.active > 0 ==> HistoryOf(b) != []
    ensures HistoryOf(b) != [] ==> HistoryOf(b)[|HistoryOf(b)| - 1].no == b.active
  {
    var nos, hist := SortedNats(b.rows.records.Keys), HistoryOf(b);
    assert |hist| == |nos|;
    RecordsUpToActive(b);
    hide HistoryOf, Consist;
    if b.active > 0 {
      LastIsGreatest(nos, b.rows.records.Keys, b.active);
      HistoryAt(b, |hist| - 1);
    } else {
      assert b.rows.records.Keys == {};
    }
  }

  lemma HistoryFacts(b: Branch)
    requires Consist(b)
    ensures InOrder(HistoryOf(b))
    ensures forall rec :: rec in HistoryOf(b) <==> rec.no in b.rows.records && rec == b.rows.records[rec.no]
    ensures b.active > 0 ==> HistoryOf(b) != []
    ensures HistoryOf(b) != [] ==> HistoryOf(b)[|HistoryOf(b)| - 1].no == b.active
  {
    HistoryListed(b);
    HistoryEnds(b);
  }

  ghost function Received(es: seq<PublishEvent>): (rs: seq<Recv>)
    ensures |rs| == |es| && forall i | 0 <= i < |es| :: rs[i] == Event(es[i])
  {
    seq(|es|, i requires 0 <= i < |es| => Event(es[i]))
  }

  lemma {:induction false} ReceivedEvents(project: string, branch: string, es: seq<PublishEvent>)
    requires forall e | e in es :: ForBranch(e, project, branch)
    ensures BranchEvents(project, branch, Received(es)) == es && !EndsLagged(Received(es))
  {
    if es != [] {
      assert es[0] in es;
      assert forall e | e in es[1..] :: e in es;
      assert Received(es)[1..] == Received(es[1..]);
      ReceivedEvents(project, branch, es[1..]);
    }
  }

  /** End to end: on a branch reached by a careful run, a client that is not refused gets one event
      for each retained version above its own and then each event of every further run it is owed,
      with strictly rising ordinary versions; no assumption about the events is left. */
  lemma WatchingABranch(b: Branch, past: seq<Command>, future: seq<Command>, after: int)
    requires Consist(b) && Healthy(b) && CarefulRun(b, past)
    requires var n := Run(b, past); n.active > 0 && after > 0 && !Watch.Pruned(after, HistoryOf(n))
    ensures var n := Run(b, past);
            var read: Reader := (v: nat) => Read(n.rows, v);
            var hist, es := HistoryOf(n), RunEvents(n, future);
            var out := Served(n.project, n.name, after, hist, read, Received(es));
            && AllReadable(read, Wanted(after, hist))
            && out == Ok(ReplayEvents(read, Wanted(after, hist)) + WireAll(Owed(after, es)))
            && Rising(Ordinary(out.value))
            && Ordinary(out.value) == OrdinaryRecords(Wanted(after, hist)) + OrdinaryVersions(Owed(after, es))
  {
    hide Read, Wanted, HistoryOf, Served, Ordinary, OrdinaryRecords, OrdinaryVersions, Owed, Consist, RunEvents, Run,
         BranchEvents, EndsLagged, Orderly, OrdinaryAbove, CarefulRun, ReplayEvents;
    var n := Run(b, past);
    var read: Reader := (v: nat) => Read(n.rows, v);
    var hist, es := HistoryOf(n), RunEvents(n, future);
    RunHealthy(b, past);
    RunOrderly(n, future);
    RunEventsBounded(n, future);
    ReceivedEvents(n.project, n.name, es);
    HistoryFacts(n);
    WantedFacts(after, hist);
    assert hist[0..] == hist;
    ExactlyOnce(n.project, n.name, after, hist, 0, read, Received(es));
    var out := Served(n.project, n.name, after, hist, read, Received(es));
    var due := ReplayEvents(read, Wanted(after, hist)) + WireAll(Owed(after, es));
    assert out.value[..|due|] == out.value;
  }

  // ---------------- the state machine object ----------------

  /** The stored branch, updated in place by one command at a time. A refused command leaves no
      trace: its buffered writes are dropped. */
  class StateMachine {
    var stored: Branch

    constructor (project: string, name: string, structureVersion: nat)
      ensures stored == NewBranch(project, name, structureVersion) && Consist(stored)
    {
      stored := NewBranch(project, name, structureVersion);
    }

    method CurrentSnapshot() returns (r: Result<SnapshotMap>)
      ensures r == Current(stored)
    {
      if stored.active == 0 {
        r := Ok(map[]);
      } else {
        r := SnapshotOf(stored.rows, stored.active);
      }
    }

    /** `write_version_snapshot` and the new active version. */
    method WriteVersionSnapshot(before: SnapshotMap, after: SnapshotMap, rec: VersionRecord)
      modifies this
      ensures stored == Advance(old(stored), before, after, rec)
    {
      var rows := stored.rows;
      if Checkpoint(rec.no) {
        rows := rows.(fulls := rows.fulls[rec.no := after]);
      } else {
        var diff := ComputeDiff(before, after);
        rows := rows.(diffs := rows.diffs[rec.no := diff]);
      }
      rows := rows.(records := rows.records[rec.no := rec]);
      stored := stored.(active := rec.no, rows := rows);
    }

    method Publish(req: string, draft: Materialize) returns (r: Result<seq<PublishEvent>>)
      requires Consist(stored)
      modifies this
      ensures stored == Next(old(stored), Command.Publish(req, draft))
      ensures r.Ok? <==> Exec(old(stored), Command.Publish(req, draft)).Done?
      ensures r.Ok? ==> r.value == Emitted(old(stored), Command.Publish(req, draft))
    {
      hide Changes, Read, Write;
      if stored.lastRequest == Some(req) {
        return Ok([]);
      }
      var cur := CurrentSnapshot();
      if cur.Err? {
        return Err(cur.message);
      }
      var res := draft(cur.value);
      if res.Err? {
        return Err(res.message);
      }
      var diff := ComputeDiff(cur.value, res.value);
      var rec := RecordOf(stored.active + 1, stored.structureVersion, ValuePublish, None, false);
      var event := EventOf(stored, rec.no, ValuePublish, stored.structureVersion, req, diff, false);
      WriteVersionSnapshot(cur.value, res.value, rec);
      stored := stored.(lastRequest := Some(req));
      return Ok([event]);
    }

    method RollBack(to: nat, req: string) returns (r: Result<seq<PublishEvent>>)
      requires Consist(stored)
      modifies this
      ensures stored == Next(old(stored), Command.Rollback(to, req))
      ensures r.Ok? <==> Exec(old(stored), Command.Rollback(to, req)).Done?
      ensures r.Ok? ==> r.value == Emitted(old(stored), Command.Rollback(to, req))
    {
      hide Changes, Read, Write;
      if stored.lastRequest == Some(req) {
        return Ok([]);
      }
      if to == 0 || to >= stored.active {
        return Err("to_version out of range");
      }
      var snap := SnapshotOf(stored.rows, to);
      if snap.Err? {
        return Err(snap.message);
      }
      var cur := CurrentSnapshot();
      if cur.Err? {
        return Err(cur.message);
      }
      var diff := ComputeDiff(cur.value, snap.value);
      var rec := RecordOf(stored.active + 1, stored.structureVersion, EventType.Rollback, Some(to), false);
      var event := EventOf(stored, rec.no, EventType.Rollback, stored.structureVersion, req, diff, false);
      WriteVersionSnapshot(cur.value, snap.value, rec);
      stored := stored.(lastRequest := Some(req));
      return Ok([event]);
    }

    method CascadeShared(g: string, k: string, v: Value, req: string) returns (r: Result<seq<PublishEvent>>)
      requires Consist(stored)
      modifies this
      ensures stored == Next(old(stored), Cascade(g, k, v, req))
      ensures r.Ok? ==>
                && Current(old(stored)).Ok? && Current(stored).Ok?
                && forall x, y :: Get(Current(stored).value, x, y) ==
                                  if (x, y) == (g, k) then Some(v) else Get(Current(old(stored)).value, x, y)
      ensures r.Ok? <==> Exec(old(stored), Cascade(g, k, v, req)).Done?
      ensures r.Ok? ==> r.value == Emitted(old(stored), Cascade(g, k, v, req))
    {
      hide Changes, Read, Write, PutItem, Get;
      CascadeExact(stored, g, k, v, req);
      var cur := CurrentSnapshot();
      if cur.Err? {
        return Err(cur.message);
      }
      var after := PutItem(cur.value, g, k, v);
      var diff := ComputeDiff(cur.value, after);
      var rec := RecordOf(stored.active + 1, stored.structureVersion, SharedCascade, None, false);
      var event := EventOf(stored, rec.no, SharedCascade, stored.structureVersion, req, diff, false);
      WriteVersionSnapshot(cur.value, after, rec);
      return Ok([event]);
    }

    method PublishNewStructure(sv: nat, req: string) returns (r: Result<seq<PublishEvent>>)
      requires Consist(stored)
      modifies this
      ensures stored == Next(old(stored), PublishStructure(sv, req))
      ensures r.Ok? <==> Exec(old(stored), PublishStructure(sv, req)).Done?
      ensures r.Ok? ==> r.value == Emitted(old(stored), PublishStructure(sv, req))
    {
      hide Changes, Read, Write;
      var vno := NextMonotonic(stored.active, stored.graySeq);
      var cur := CurrentSnapshot();
      if cur.Err? {
        return Err(cur.message);
      }
      var rec := RecordOf(vno, sv, StructurePublish, None, false);
      var event := EventOf(stored, vno, StructurePublish, sv, req, [], false);
      WriteVersionSnapshot(cur.value, cur.value, rec);
      stored := stored.(structureVersion := sv);
      if stored.graySeq > 0 {
        var seqNo := stored.graySeq;
        var snaps := stored.graySnaps[vno + 1 := stored.graySnaps[seqNo]] - {seqNo};
        stored := stored.(graySnaps := snaps, graySeq := vno + 1);
      }
      return Ok([event]);
    }

    method PublishGray(req: string, draft: Materialize) returns (r: Result<seq<PublishEvent>>)
      requires Consist(stored)
      modifies this
      ensures stored == Next(old(stored), GrayPublish(req, draft))
      ensures r.Ok? <==> Exec(old(stored), GrayPublish(req, draft)).Done?
      ensures r.Ok? ==> r.value == Emitted(old(stored), GrayPublish(req, draft))
    {
      hide Changes, Read, Write;
      if stored.lastRequest == Some(req) {
        return Ok([]);
      }
      var cur := CurrentSnapshot();
      if cur.Err? {
        return Err(cur.message);
      }
      var res := draft(cur.value);
      if res.Err? {
        return Err(res.message);
      }
      var diff := ComputeDiff(cur.value, res.value);
      var event := EventOf(stored, stored.active, ValuePublish, stored.structureVersion, req, diff, true);
      var snaps := stored.graySnaps[stored.graySeq + 1 := res.value] - {stored.graySeq};
      stored := stored.(graySeq := stored.graySeq + 1, grayRule := true, lastRequest := Some(req), graySnaps := snaps);
      return Ok([event]);
    }

    method PromoteGray(req: string) returns (r: Result<seq<PublishEvent>>)
      requires Consist(stored)
      modifies this
      ensures stored == Next(old(stored), GrayPromote(req))
      ensures r.Ok? <==> Exec(old(stored), GrayPromote(req)).Done?
      ensures r.Ok? ==> r.value == Emitted(old(stored), GrayPromote(req))
    {
      hide Changes, Read, Write;
      if stored.lastRequest == Some(req) {
        return Ok([]);
      }
      if stored.graySeq == 0 || !stored.grayRule {
        return Err("no active gray");
      }
      var after := stored.graySnaps[stored.graySeq];
      var cur := CurrentSnapshot();
      if cur.Err? {
        return Err(cur.message);
      }
      var diff := ComputeDiff(cur.value, after);
      var vno := NextMonotonic(stored.active, stored.graySeq);
      var rec := RecordOf(vno, stored.structureVersion, ValuePublish, None, true);
      var event := EventOf(stored, vno, ValuePublish, stored.structureVersion, req, diff, true);
      WriteVersionSnapshot(cur.value, after, rec);
      stored := stored.(graySnaps := stored.graySnaps - {stored.graySeq}, graySeq := 0, grayRule := false,
                        lastRequest := Some(req));
      return Ok([event]);
    }

    method AbortGray(req: string) returns (r: Result<seq<PublishEvent>>)
      requires Consist(stored)
      modifies this
      ensures stored == Next(old(stored), GrayAbort(req))
      ensures r.Ok? <==> Exec(old(stored), GrayAbort(req)).Done?
      ensures r.Ok? ==> r.value == Emitted(old(stored), GrayAbort(req))
    {
      if stored.lastRequest == Some(req) {
        return Ok([]);
      }
      if stored.graySeq == 0 || !stored.grayRule {
        return Err("no active gray");
      }
      stored := stored.(graySnaps := stored.graySnaps - {stored.graySeq}, graySeq := 0, grayRule := false,
                        lastRequest := Some(req));
      return Ok([EventOf(stored, stored.active, ValuePublish, stored.structureVersion, req, [], true)]);
    }

    method PruneOld(keep: nat) returns (removed: nat)
      requires Consist(stored)
      modifies this
      ensures stored == Next(old(stored), Prune(keep))
      ensures removed + |stored.rows.records| == |old(stored).rows.records|
      ensures forall v | v in old(stored).rows.records ::
                v in stored.rows.records <==> Survives(old(stored).rows, old(stored).active, keep, v)
    {
      hide Changes, Read, Write, Versions.Pruned;
      var rows;
      rows, removed := PruneVersions(stored.rows, stored.active, keep);
      stored := stored.(rows := rows);
    }
  }
}
