/** From the state machine's commands to the store: the rows a command buffers, and what reaches the
    store when they are flushed. */
module CommandWrites {
  import opened Model
  import opened Text
  import opened Diff
  import opened Versions
  import opened BranchMachine
  import opened Keys
  import opened Store
  import opened WriteBuffer

  /** What is stored in a row of a branch. `drafts` is what the state row holds besides. */
  datatype Content =
    | StateContent(active: nat, structureVersion: nat, lastRequest: Option<string>, graySeq: nat, grayRule: bool, drafts: string)
    | RecordContent(rec: VersionRecord)
    | SnapContent(snap: SnapshotMap)
    | DiffContent(diff: seq<DiffEntry>)

  datatype RowWrite = PutRow(name: Name, content: Content) | DropRow(name: Name)

  // ---------------- the writes of a command ----------------

  ghost function VersionWrites(b: Branch, before: SnapshotMap, after: SnapshotMap, rec: VersionRecord): seq<RowWrite> {
    [if Checkpoint(rec.no) then PutRow(Snapshot(b.project, b.name, rec.no), SnapContent(after))
     else PutRow(VersionDiff(b.project, b.name, rec.no), DiffContent(Changes(before, after))),
     PutRow(Version(b.project, b.name, rec.no), RecordContent(rec))]
  }

  function StateWrite(b: Branch, active: nat, sv: nat, last: Option<string>, gray: nat, rule: bool, drafts: string): RowWrite {
    PutRow(BranchState(b.project, b.name), StateContent(active, sv, last, gray, rule, drafts))
  }

  /** The gray rows of a structure publish: moved to a new number if there is a release, else none. */
  function GrayMove(b: Branch, vno: nat): seq<RowWrite>
    requires b.graySeq > 0 ==> b.graySeq in b.graySnaps
  {
    if b.graySeq == 0 then []
    else [PutRow(GraySnap(b.project, b.name, vno + 1), SnapContent(b.graySnaps[b.graySeq])),
          DropRow(GraySnap(b.project, b.name, b.graySeq))]
  }

  /** In the order they are buffered; a command that is refused, or was carried out before, has none.
      Pruning deletes rows directly and is not buffered. */
  ghost function Writes(b: Branch, c: Command, drafts: string): (ws: seq<RowWrite>)
    requires Consist(b)
  {
    if Emitted(b, c) == [] then []
    else
      var cur := if Current(b).Ok? then Current(b).value else map[];
      match c
      case Publish(req, draft) =>
        VersionWrites(b, cur, draft(cur).value, RecordOf(b.active + 1, b.structureVersion, ValuePublish, None, false))
        + [StateWrite(b, b.active + 1, b.structureVersion, Some(req), b.graySeq, b.grayRule, drafts)]
      case Rollback(to, req) =>
        VersionWrites(b, cur, Read(b.rows, to).value, RecordOf(b.active + 1, b.structureVersion, EventType.Rollback, Some(to), false))
        + [StateWrite(b, b.active + 1, b.structureVersion, Some(req), b.graySeq, b.grayRule, drafts)]
      case Cascade(g, k, v, req) =>
        VersionWrites(b, cur, PutItem(cur, g, k, v), RecordOf(b.active + 1, b.structureVersion, SharedCascade, None, false))
        + [StateWrite(b, b.active + 1, b.structureVersion, b.lastRequest, b.graySeq, b.grayRule, drafts)]
      case PublishStructure(sv, req) =>
        var vno := NextMonotonic(b.active, b.graySeq);
        VersionWrites(b, cur, cur, RecordOf(vno, sv, StructurePublish, None, false))
        + GrayMove(b, vno)
        + [StateWrite(b, vno, sv, b.lastRequest, if b.graySeq == 0 then 0 else vno + 1, b.grayRule, drafts)]
      case GrayPublish(req, draft) =>
        [PutRow(GraySnap(b.project, b.name, b.graySeq + 1), SnapContent(draft(cur).value))]
        + (if b.graySeq == 0 then [] else [DropRow(GraySnap(b.project, b.name, b.graySeq))])
        + [StateWrite(b, b.active, b.structureVersion, Some(req), b.graySeq + 1, true, drafts)]
      case GrayPromote(req) =>
        var vno := NextMonotonic(b.active, b.graySeq);
        VersionWrites(b, cur, b.graySnaps[b.graySeq], RecordOf(vno, b.structureVersion, ValuePublish, None, true))
        + [DropRow(GraySnap(b.project, b.name, b.graySeq)),
           StateWrite(b, vno, b.structureVersion, Some(req), 0, false, drafts)]
      case GrayAbort(req) =>
        [DropRow(GraySnap(b.project, b.name, b.graySeq)),
         StateWrite(b, b.active, b.structureVersion, Some(req), 0, false, drafts)]
      case Prune(_) => []
  }

  // ---------------- rows of a branch ----------------

  predicate Own(b: Branch, n: Name) {
    BranchRow(n) && n.id == b.project && n.branch == b.name
  }

  /** What a branch has stored in a row of its own. */
  function RowOf(b: Branch, drafts: string, n: Name): (r: Option<Content>)
    requires BranchRow(n)
  {
    match n
    case BranchState(_, _) =>
      Some(StateContent(b.active, b.structureVersion, b.lastRequest, b.graySeq, b.grayRule, drafts))
    case Version(_, _, no) => if no in b.rows.records then Some(RecordContent(b.rows.records[no])) else None
    case Snapshot(_, _, no) => if no in b.rows.fulls then Some(SnapContent(b.rows.fulls[no])) else None
    case VersionDiff(_, _, no) => if no in b.rows.diffs then Some(DiffContent(b.rows.diffs[no])) else None
    case GraySnap(_, _, no) => if no in b.graySnaps then Some(SnapContent(b.graySnaps[no])) else None
  }

  /** A row after some writes: the last one on it decides. */
  function Written(ws: seq<RowWrite>, n: Name, was: Option<Content>): (r: Option<Content>) {
    if ws == [] then was
    else
      var last := ws[|ws| - 1];
      if last.name != n then Written(ws[..|ws| - 1], n, was)
      else if last.PutRow? then Some(last.content) else None
  }

  function Over(w: RowWrite, n: Name, was: Option<Content>): Option<Content> {
    if w.name != n then was else if w.PutRow? then Some(w.content) else None
  }

  lemma WrittenSnoc(ws: seq<RowWrite>, w: RowWrite, n: Name, was: Option<Content>)
    ensures Written(ws + [w], n, was) == Over(w, n, Written(ws, n, was))
  {
    assert (ws + [w])[..|ws|] == ws;
  }

  lemma {:induction false} WrittenConcat(a: seq<RowWrite>, b: seq<RowWrite>, n: Name, was: Option<Content>)
    ensures Written(a + b, n, was) == Written(b, n, Written(a, n, was))
  {
    if b == [] {
      assert a + b == a;
    } else {
      var front, last := b[..|b| - 1], b[|b| - 1];
      WrittenConcat(a, front, n, was);
      WrittenSnoc(a + front, last, n, was);
      assert a + b == (a + front) + [last];
    }
  }

  lemma WrittenTwo(v: RowWrite, w: RowWrite, n: Name, was: Option<Content>)
    ensures Written([v], n, was) == Over(v, n, was)
    ensures Written([v, w], n, was) == Over(w, n, Over(v, n, was))
  {
    WrittenSnoc([], v, n, was);
    assert [] + [v] == [v];
    WrittenSnoc([v], w, n, was);
    assert [v] + [w] == [v, w];
  }

  /** Writing a version changes the rows of that version as the branch's own advance does. */
  lemma VersionGives(b: Branch, drafts: string, before: SnapshotMap, after: SnapshotMap, rec: VersionRecord, n: Name)
    requires Own(b, n) && !n.BranchState?
    requires rec.no !in b.rows.fulls && rec.no !in b.rows.diffs
    ensures Written(VersionWrites(b, before, after, rec), n, RowOf(b, drafts, n)) ==
            RowOf(Advance(b, before, after, rec), drafts, n)
  {
    hide Changes, Checkpoint;
    var ws := VersionWrites(b, before, after, rec);
    WrittenTwo(ws[0], ws[1], n, RowOf(b, drafts, n));
  }

  lemma VersionLeavesState(b: Branch, before: SnapshotMap, after: SnapshotMap, rec: VersionRecord, was: Option<Content>)
    ensures Written(VersionWrites(b, before, after, rec), BranchState(b.project, b.name), was) == was
  {
    hide Changes, Checkpoint;
    var ws := VersionWrites(b, before, after, rec);
    WrittenTwo(ws[0], ws[1], BranchState(b.project, b.name), was);
  }

  lemma {:induction false} WrittenElsewhere(ws: seq<RowWrite>, n: Name, was: Option<Content>)
    requires forall w | w in ws :: w.name != n
    ensures Written(ws, n, was) == was
  {
    if ws != [] {
      assert ws[|ws| - 1] in ws;
      WrittenElsewhere(ws[..|ws| - 1], n, was);
    }
  }

  /** A version, gray rows, and the state row: each kind of row sees only its own writes. */
  lemma PartsGive(b: Branch, next: Branch, before: SnapshotMap, after: SnapshotMap, rec: VersionRecord, gray: seq<RowWrite>,
                  drafts: string, later: string, n: Name)
    requires Own(b, n) && next.project == b.project && next.name == b.name
    requires rec.no !in b.rows.fulls && rec.no !in b.rows.diffs && next.rows == Write(b.rows, rec.no, before, after, rec)
    requires forall w | w in gray :: w.name.GraySnap?
    requires n.GraySnap? ==> Written(gray, n, RowOf(b, drafts, n)) == RowOf(next, later, n)
    ensures var state := StateWrite(b, next.active, next.structureVersion, next.lastRequest, next.graySeq, next.grayRule, later);
            Written(VersionWrites(b, before, after, rec) + gray + [state], n, RowOf(b, drafts, n)) == RowOf(next, later, n)
  {
    hide Changes, Checkpoint, Write, VersionWrites, Written;
    var state := StateWrite(b, next.active, next.structureVersion, next.lastRequest, next.graySeq, next.grayRule, later);
    var was, vw := RowOf(b, drafts, n), VersionWrites(b, before, after, rec);
    WrittenSnoc(vw + gray, state, n, was);
    WrittenConcat(vw, gray, n, was);
    if !n.GraySnap? {
      WrittenElsewhere(gray, n, Written(vw, n, was));
    }
    if !n.BranchState? {
      VersionGives(b, drafts, before, after, rec, n);
    }
  }

  lemma NewNumber(b: Branch, v: nat)
    requires Consist(b) && v > b.active
    ensures v !in b.rows.fulls && v !in b.rows.diffs
  {
  }

  /** The writes of a command turn the rows of a branch into those of the branch it leads to. */
  lemma WritesGive(b: Branch, c: Command, drafts: string, later: string, n: Name)
    requires Consist(b) && !c.Prune? && Own(b, n)
    ensures Written(Writes(b, c, later), n, RowOf(b, drafts, n)) ==
            RowOf(Next(b, c), if Emitted(b, c) == [] then drafts else later, n)
  {
    if Emitted(b, c) != [] {
      match c
      case Publish(_, _) => StableGives(b, c, drafts, later, n);
      case Rollback(_, _) => StableGives(b, c, drafts, later, n);
      case Cascade(_, _, _, _) => StableGives(b, c, drafts, later, n);
      case PublishStructure(_, _) => StructureGives(b, c, drafts, later, n);
      case GrayPublish(_, _) => GrayGives(b, c, drafts, later, n);
      case GrayPromote(_) => PromoteGives(b, c, drafts, later, n);
      case GrayAbort(_) => GrayGives(b, c, drafts, later, n);
    }
  }

  lemma StableGives(b: Branch, c: Command, drafts: string, later: string, n: Name)
    requires Consist(b) && Own(b, n) && (c.Publish? || c.Rollback? || c.Cascade?) && Emitted(b, c) != []
    ensures Written(Writes(b, c, later), n, RowOf(b, drafts, n)) == RowOf(Next(b, c), later, n)
  {
    hide Changes, Read, Consistent, Checkpoint, Write, VersionWrites;
    var cur := Current(b).value;
    var after := Contents(b, c);
    var next := Next(b, c);
    var rec := RecordOf(b.active + 1, b.structureVersion,
                        if c.Publish? then ValuePublish else if c.Rollback? then EventType.Rollback else SharedCascade,
                        if c.Rollback? then Some(c.toVersion) else None, false);
    NewNumber(b, b.active + 1);
    assert VersionWrites(b, cur, after, rec) + [] == VersionWrites(b, cur, after, rec);
    PartsGive(b, next, cur, after, rec, [], drafts, later, n);
  }

  lemma GrayMoveGives(b: Branch, next: Branch, vno: nat, drafts: string, later: string, n: Name)
    requires Own(b, n) && n.GraySnap? && (b.graySeq > 0 ==> b.graySeq in b.graySnaps) && vno >= b.graySeq
    requires next.graySnaps == if b.graySeq == 0 then b.graySnaps
                               else b.graySnaps[vno + 1 := b.graySnaps[b.graySeq]] - {b.graySeq}
    ensures Written(GrayMove(b, vno), n, RowOf(b, drafts, n)) == RowOf(next, later, n)
  {
    if b.graySeq > 0 {
      hide Written;
      var gray := GrayMove(b, vno);
      WrittenTwo(gray[0], gray[1], n, RowOf(b, drafts, n));
    }
  }

  lemma StructureGives(b: Branch, c: Command, drafts: string, later: string, n: Name)
    requires Consist(b) && Own(b, n) && c.PublishStructure? && Emitted(b, c) != []
    ensures Written(Writes(b, c, later), n, RowOf(b, drafts, n)) == RowOf(Next(b, c), later, n)
  {
    hide Changes, Read, Consistent, Checkpoint, Write, VersionWrites, Written, RowOf;
    var cur := Current(b).value;
    var vno := NextMonotonic(b.active, b.graySeq);
    var rec := RecordOf(vno, c.structureVersion, StructurePublish, None, false);
    NewNumber(b, vno);
    if n.GraySnap? {
      GrayMoveGives(b, Next(b, c), vno, drafts, later, n);
    }
    PartsGive(b, Next(b, c), cur, cur, rec, GrayMove(b, vno), drafts, later, n);
  }

  lemma PromoteGives(b: Branch, c: Command, drafts: string, later: string, n: Name)
    requires Consist(b) && Own(b, n) && c.GrayPromote? && Emitted(b, c) != []
    ensures Written(Writes(b, c, later), n, RowOf(b, drafts, n)) == RowOf(Next(b, c), later, n)
  {
    hide Changes, Read, Consistent, Checkpoint, Write, VersionWrites;
    var cur := Current(b).value;
    var after := b.graySnaps[b.graySeq];
    var vno := NextMonotonic(b.active, b.graySeq);
    var rec := RecordOf(vno, b.structureVersion, ValuePublish, None, true);
    var drop := DropRow(GraySnap(b.project, b.name, b.graySeq));
    NewNumber(b, vno);
    WrittenTwo(drop, drop, n, RowOf(b, drafts, n));
    var state := StateWrite(b, vno, b.structureVersion, Some(c.requestId), 0, false, later);
    assert VersionWrites(b, cur, after, rec) + [drop, state] == VersionWrites(b, cur, after, rec) + [drop] + [state];
    PartsGive(b, Next(b, c), cur, after, rec, [drop], drafts, later, n);
  }

  lemma GrayGives(b: Branch, c: Command, drafts: string, later: string, n: Name)
    requires Consist(b) && Own(b, n) && (c.GrayPublish? || c.GrayAbort?) && Emitted(b, c) != []
    ensures Written(Writes(b, c, later), n, RowOf(b, drafts, n)) == RowOf(Next(b, c), later, n)
  {
    hide Changes, Read, Consistent, Checkpoint, Written;
    var ws, was := Writes(b, c, later), RowOf(b, drafts, n);
    var front, state := ws[..|ws| - 1], ws[|ws| - 1];
    assert ws == front + [state];
    WrittenSnoc(front, state, n, was);
    var drop := DropRow(GraySnap(b.project, b.name, b.graySeq));
    if c.GrayAbort? {
      assert front == [drop];
      WrittenTwo(drop, drop, n, was);
    } else {
      var put := PutRow(GraySnap(b.project, b.name, b.graySeq + 1), SnapContent(c.draft(Current(b).value).value));
      WrittenTwo(put, drop, n, was);
      assert front == if b.graySeq == 0 then [put] else [put, drop];
    }
  }

  // ---------------- from rows to keys ----------------

  type Coding = Content -> string

  /** The operations a command buffers: each row under its key, its content as a string. */
  function Coded(enc: Coding, ws: seq<RowWrite>): (ops: seq<Op>)
    ensures |ops| == |ws|
    ensures forall i | 0 <= i < |ws| :: ops[i] == CodedOne(enc, ws[i])
  {
    seq(|ws|, i requires 0 <= i < |ws| => CodedOne(enc, ws[i]))
  }

  function CodedOne(enc: Coding, w: RowWrite): Op {
    match w
    case PutRow(n, content) => PutOp(KeyOf(n), enc(content))
    case DropRow(n) => DeleteOp(KeyOf(n))
  }

  function CodedRow(enc: Coding, r: Option<Content>): Option<string> {
    if r.Some? then Some(enc(r.value)) else None
  }

  ghost predicate AllPlain(ws: seq<RowWrite>) {
    forall w | w in ws :: Plain(w.name)
  }

  /** Carrying out the operations under a row's key is writing the row: keys of different rows differ. */
  lemma {:induction false} CodedLookup(enc: Coding, db: Db, ws: seq<RowWrite>, n: Name, was: Option<Content>)
    requires AllPlain(ws) && Plain(n) && Lookup(db, KeyOf(n)) == CodedRow(enc, was)
    ensures Lookup(InTurn(db, Coded(enc, ws)), KeyOf(n)) == CodedRow(enc, Written(ws, n, was))
  {
    hide KeyOf, Plain;
    if ws != [] {
      var front, last := ws[..|ws| - 1], ws[|ws| - 1];
      assert last in ws;
      CodedLookup(enc, db, front, n, was);
      assert Coded(enc, ws)[..|ws| - 1] == Coded(enc, front);
      if KeyOf(last.name) == KeyOf(n) {
        KeysInjective(last.name, n);
      }
    }
  }

  lemma {:induction false} LastPutPuts(enc: Coding, ws: seq<RowWrite>, key: string)
    requires LastPut(Coded(enc, ws), key).Some?
    ensures exists w :: w in ws && w.PutRow? && KeyOf(w.name) == key
  {
    hide KeyOf;
    var front, last := ws[..|ws| - 1], ws[|ws| - 1];
    assert last in ws;
    assert Coded(enc, ws)[..|ws| - 1] == Coded(enc, front);
    if !(last.PutRow? && KeyOf(last.name) == key) {
      LastPutPuts(enc, front, key);
      var w :| w in front && w.PutRow? && KeyOf(w.name) == key;
      assert w in ws;
    }
  }

  lemma {:induction false} ErasedDrops(enc: Coding, ws: seq<RowWrite>, key: string)
    requires FateOf(Coded(enc, ws), key).Erased?
    ensures exists w :: w in ws && w.DropRow? && KeyOf(w.name) == key
  {
    hide KeyOf;
    var front, last := ws[..|ws| - 1], ws[|ws| - 1];
    assert last in ws;
    assert Coded(enc, ws)[..|ws| - 1] == Coded(enc, front);
    if KeyOf(last.name) != key {
      ErasedDrops(enc, front, key);
      var w :| w in front && w.DropRow? && KeyOf(w.name) == key;
      assert w in ws;
    }
  }

  lemma VersionWritesPut(b: Branch, before: SnapshotMap, after: SnapshotMap, rec: VersionRecord, w: RowWrite)
    requires w in VersionWrites(b, before, after, rec)
    ensures w.PutRow? && Own(b, w.name) && !w.name.GraySnap?
  {
    hide Changes, Checkpoint;
  }

  /** A command writes rows of its own branch, and drops at most the gray snapshot that is current, which
      it does not put. */
  lemma WritesShape(b: Branch, c: Command, drafts: string, w: RowWrite)
    requires Consist(b) && w in Writes(b, c, drafts)
    ensures Own(b, w.name)
    ensures if w.DropRow? then w.name == GraySnap(b.project, b.name, b.graySeq)
            else w.name.GraySnap? ==> w.name.no != b.graySeq
  {
    hide Changes, Read, Consistent, Checkpoint, VersionWrites, Contents;
    var cur := if Current(b).Ok? then Current(b).value else map[];
    match c
    case Publish(req, draft) =>
      var rec := RecordOf(b.active + 1, b.structureVersion, ValuePublish, None, false);
      if w in VersionWrites(b, cur, draft(cur).value, rec) {
        VersionWritesPut(b, cur, draft(cur).value, rec, w);
      }
    case Rollback(to, req) =>
      var rec := RecordOf(b.active + 1, b.structureVersion, EventType.Rollback, Some(to), false);
      if w in VersionWrites(b, cur, Read(b.rows, to).value, rec) {
        VersionWritesPut(b, cur, Read(b.rows, to).value, rec, w);
      }
    case Cascade(g, k, v, req) =>
      var rec := RecordOf(b.active + 1, b.structureVersion, SharedCascade, None, false);
      if w in VersionWrites(b, cur, PutItem(cur, g, k, v), rec) {
        VersionWritesPut(b, cur, PutItem(cur, g, k, v), rec, w);
      }
    case PublishStructure(sv, req) =>
      var rec := RecordOf(NextMonotonic(b.active, b.graySeq), sv, StructurePublish, None, false);
      if w in VersionWrites(b, cur, cur, rec) {
        VersionWritesPut(b, cur, cur, rec, w);
      }
    case GrayPublish(req, draft) =>
    case GrayPromote(req) =>
      var rec := RecordOf(NextMonotonic(b.active, b.graySeq), b.structureVersion, ValuePublish, None, true);
      if w in VersionWrites(b, cur, b.graySnaps[b.graySeq], rec) {
        VersionWritesPut(b, cur, b.graySnaps[b.graySeq], rec, w);
      }
    case GrayAbort(req) =>
    case Prune(_) =>
  }

  lemma OwnPlain(b: Branch, n: Name)
    requires Own(b, n) && Lacks(b.project, '/') && Lacks(b.name, '/')
    ensures Plain(n)
  {
    hide Lacks;
  }

  lemma WritesPlain(b: Branch, c: Command, drafts: string)
    requires Consist(b) && Lacks(b.project, '/') && Lacks(b.name, '/')
    ensures AllPlain(Writes(b, c, drafts))
    ensures forall w | w in Writes(b, c, drafts) :: Own(b, w.name)
  {
    hide Writes, Lacks, Own, Plain;
    forall w | w in Writes(b, c, drafts)
      ensures Own(b, w.name) && Plain(w.name)
    {
      WritesShape(b, c, drafts, w);
      OwnPlain(b, w.name);
    }
  }

  /** No command puts a row and drops it. */
  lemma PutsNotDropped(b: Branch, c: Command, drafts: string, v: RowWrite, w: RowWrite)
    requires Consist(b) && v in Writes(b, c, drafts) && w in Writes(b, c, drafts) && v.PutRow? && w.DropRow?
    ensures v.name != w.name
  {
    hide Writes, Own;
    WritesShape(b, c, drafts, v);
    WritesShape(b, c, drafts, w);
  }

  /** So no command of the state machine resurrects a key, and flushing its buffer does what it meant. */
  lemma CommandNeverResurrects(enc: Coding, db: Db, b: Branch, c: Command, drafts: string)
    requires Consist(b) && Lacks(b.project, '/') && Lacks(b.name, '/')
    ensures forall key :: !Resurrected(Coded(enc, Writes(b, c, drafts)), key)
    ensures Flushed(db, Coded(enc, Writes(b, c, drafts))) == InTurn(db, Coded(enc, Writes(b, c, drafts)))
  {
    hide Writes, KeyOf, Plain, Lacks, Consist, InTurn, Flushed;
    var ws := Writes(b, c, drafts);
    WritesPlain(b, c, drafts);
    forall key
      ensures !Resurrected(Coded(enc, ws), key)
    {
      if Resurrected(Coded(enc, ws), key) {
        LastPutPuts(enc, ws, key);
        ErasedDrops(enc, ws, key);
        var v :| v in ws && v.PutRow? && KeyOf(v.name) == key;
        var w :| w in ws && w.DropRow? && KeyOf(w.name) == key;
        KeysInjective(v.name, w.name);
        PutsNotDropped(b, c, drafts, v, w);
        assert false;
      }
    }
    FlushMeansInTurnIff(db, Coded(enc, ws));
  }

  /** The store holds a branch: under the key of each row of its own, what the branch has there. */
  ghost predicate HoldsBranch(enc: Coding, db: Db, b: Branch, drafts: string) {
    forall n | Own(b, n) :: Lookup(db, KeyOf(n)) == CodedRow(enc, RowOf(b, drafts, n))
  }

  /** What a command does to the branch is what reaches the store: flushed over a store that holds the
      branch, its writes leave a store that holds the branch it leads to, and every key that is not of
      a row of this branch as it was. */
  lemma CommandReachesStore(enc: Coding, db: Db, b: Branch, c: Command, drafts: string, later: string)
    requires Consist(b) && !c.Prune? && Lacks(b.project, '/') && Lacks(b.name, '/') && HoldsBranch(enc, db, b, drafts)
    ensures var after := Flushed(db, Coded(enc, Writes(b, c, later)));
            && HoldsBranch(enc, after, Next(b, c), if Emitted(b, c) == [] then drafts else later)
            && forall key | (forall n | Own(b, n) :: KeyOf(n) != key) :: Lookup(after, key) == Lookup(db, key)
  {
    hide Writes, KeyOf, Lacks, Consist, InTurn, Flushed, Next, Emitted, RowOf, CodedRow, Lookup, FateOf;
    var ws := Writes(b, c, later);
    var ops := Coded(enc, ws);
    CommandNeverResurrects(enc, db, b, c, later);
    WritesPlain(b, c, later);
    NextSameBranch(b, c);
    forall n | Own(Next(b, c), n)
      ensures Lookup(InTurn(db, ops), KeyOf(n)) ==
              CodedRow(enc, RowOf(Next(b, c), if Emitted(b, c) == [] then drafts else later, n))
    {
      CodedLookup(enc, db, ws, n, RowOf(b, drafts, n));
      WritesGive(b, c, drafts, later, n);
    }
    forall key | (forall n | Own(b, n) :: KeyOf(n) != key)
      ensures Lookup(InTurn(db, ops), key) == Lookup(db, key)
    {
      InTurnLookup(db, ops, key);
      UntouchedKey(enc, ws, key);
    }
  }

  lemma NextSameBranch(b: Branch, c: Command)
    requires Consist(b)
    ensures Next(b, c).project == b.project && Next(b, c).name == b.name
  {
    hide Changes, Read, Consistent, Checkpoint, Write;
  }

  lemma {:induction false} UntouchedKey(enc: Coding, ws: seq<RowWrite>, key: string)
    requires forall w | w in ws :: KeyOf(w.name) != key
    ensures FateOf(Coded(enc, ws), key) == Untouched
  {
    hide KeyOf;
    if ws != [] {
      assert ws[|ws| - 1] in ws;
      UntouchedKey(enc, ws[..|ws| - 1], key);
      assert Coded(enc, ws)[..|ws| - 1] == Coded(enc, ws[..|ws| - 1]);
    }
  }
}
