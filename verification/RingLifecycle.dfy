/** The master-key ring of a single node through rotations, failed saves, crashes and restarts.
    A rotation handler copies the ring, saves copy and new KEK to the ring file, then pushes the
    new KEK in memory, and holds no lock across the three steps; the steps of several handlers
    and everything else the node does interleave here in any order. */
module RingLifecycle {
  import opened Model
  import opened Crypto

  /** A rotation under way: the ring as it was copied, and whether the file has been written. */
  datatype Handler = Handler(copy: Ring, kek: Key, saved: bool)

  /** A ciphertext the node produced, and what it was produced from. */
  datatype Made = Made(c: Ciphertext, plain: Bytes)

  /** `disk` is the ring file, `mem` the ring in memory while the process is up. */
  datatype Node = Node(file: Key, disk: Option<Ring>, mem: Option<Ring>, open: map<nat, Handler>, made: seq<Made>)

  datatype Action =
    | Start
    | Begin(id: nat, kek: Key)
    | Save(id: nat, ok: bool)
    | Switch(id: nat)
    | Encipher(plain: Bytes, rnd: Fresh)
    | Renew(i: nat, edekNonce: Bytes)
    | Crash

  // ---------------- start-up ----------------

  function Others(file: Key, entries: Ring): (r: Ring) {
    if entries == [] then []
    else
      var rest := Others(file, entries[..|entries| - 1]);
      var last := entries[|entries| - 1];
      if last != file then rest + [last] else rest
  }

  /** The ring at start-up: the file key, then the ring file's entries without it. */
  function Rebuild(file: Key, disk: Option<Ring>): (r: Ring) {
    [file] + Others(file, if disk.Some? then disk.value else [])
  }

  predicate Distinct(ring: Ring) {
    forall i, j | 0 <= i < j < |ring| :: ring[i] != ring[j]
  }

  predicate Proper(file: Key, ring: Ring) {
    ring != [] && ring[0] == file && Distinct(ring)
  }

  lemma {:induction false} OthersAfterHead(file: Key, entries: Ring)
    requires Proper(file, entries)
    ensures Others(file, entries) == entries[1..]
  {
    var n := |entries| - 1;
    if n == 0 {
      assert Others(file, entries[..0]) == [];
    } else {
      OthersAfterHead(file, entries[..n]);
      assert entries[0] != entries[n];
      assert entries[..n][1..] + [entries[n]] == entries[1..];
    }
  }

  /** Start-up gives back a proper saved ring exactly. */
  lemma RebuildSaved(file: Key, ring: Ring)
    requires Proper(file, ring)
    ensures Rebuild(file, Some(ring)) == ring
  {
    OthersAfterHead(file, ring);
  }

  lemma {:induction false} OthersLacks(file: Key, entries: Ring)
    ensures file !in Others(file, entries)
    ensures file !in entries ==> Others(file, entries) == entries
    ensures |Others(file, entries)| <= |entries|
  {
    if entries != [] {
      OthersLacks(file, entries[..|entries| - 1]);
    }
  }

  lemma {:induction false} OthersCons(file: Key, entries: Ring)
    requires entries != []
    ensures Others(file, entries) == (if entries[0] != file then [entries[0]] else []) + Others(file, entries[1..])
  {
    var n := |entries| - 1;
    if n == 0 {
      assert entries[..0] == [] && entries[1..] == [];
    } else {
      OthersCons(file, entries[..n]);
      assert entries[..n][1..] == entries[1..][..n - 1];
    }
  }

  /** The ring files start-up gives back as they are: those headed by the file key and not
      repeating it. */
  lemma RebuildSavedIff(file: Key, ring: Ring)
    ensures Rebuild(file, Some(ring)) == ring <==> ring != [] && ring[0] == file && file !in ring[1..]
  {
    if ring != [] && ring[0] == file {
      OthersCons(file, ring);
      OthersLacks(file, ring[1..]);
    }
  }

  // ---------------- steps ----------------

  function Next(n: Node, a: Action): (m: Node) {
    match a
    case Start =>
      if n.mem.None? then n.(mem := Some(Rebuild(n.file, n.disk)), open := map[]) else n
    case Begin(id, kek) =>
      if n.mem.Some? && id !in n.open && kek !in n.mem.value
      then n.(open := n.open[id := Handler(n.mem.value, kek, false)]) else n
    case Save(id, ok) =>
      if id !in n.open || n.open[id].saved then n
      else
        var h := n.open[id];
        if ok then n.(disk := Some(h.copy + [h.kek]), open := n.open[id := h.(saved := true)])
        else n.(open := n.open - {id})
    case Switch(id) =>
      if n.mem.Some? && id in n.open && n.open[id].saved
      then n.(mem := Some(n.mem.value + [n.open[id].kek]), open := n.open - {id}) else n
    case Encipher(plain, rnd) =>
      if n.mem.Some? && n.mem.value != []
      then n.(made := n.made + [Made(Encrypt(n.mem.value, plain, rnd), plain)]) else n
    case Renew(i, edekNonce) =>
      if n.mem.Some? && i < |n.made| && Rewrap(n.mem.value, n.made[i].c, edekNonce).Ok?
      then n.(made := n.made + [Made(Rewrap(n.mem.value, n.made[i].c, edekNonce).value, n.made[i].plain)]) else n
    case Crash => n.(mem := None, open := map[])
  }

  function Run(n: Node, acts: seq<Action>): (m: Node) {
    if acts == [] then n else Next(Run(n, acts[..|acts| - 1]), acts[|acts| - 1])
  }

  /** A new deployment: a key file, no ring file, the process not yet started. */
  predicate NewDeployment(n: Node) {
    n == Node(n.file, None, None, map[], [])
  }

  /** The ring the next start-up will build. */
  function Durable(n: Node): Ring {
    if n.disk.Some? then n.disk.value else [n.file]
  }

  /** The ring secrets are read with: memory while the node is up, else what a start will load. */
  function Reading(n: Node): Ring {
    if n.mem.Some? then n.mem.value else Durable(n)
  }

  ghost predicate Readable(ring: Ring, made: seq<Made>) {
    forall i | 0 <= i < |made| :: Holds(ring, made[i].c, made[i].plain)
  }

  ghost predicate HandlerOk(n: Node, h: Handler) {
    Proper(n.file, h.copy + [h.kek]) && h.copy <= Reading(n)
  }

  /** The invariant: the durable ring is distinct and headed by the file key, memory is a prefix of
      it, every copy a prefix of memory, and everything ever produced is held. */
  ghost predicate Inv(n: Node) {
    && Proper(n.file, Durable(n))
    && Reading(n) != [] && Reading(n) <= Durable(n)
    && (n.mem.None? ==> n.open == map[])
    && (forall id | id in n.open :: HandlerOk(n, n.open[id]))
    && Readable(Reading(n), n.made)
  }

  /** What keeps a step harmless: memory has not moved past the copy a save writes back, and a switch
      finds its KEK in the file at the place it will have in memory. */
  ghost predicate Harmless(n: Node, a: Action) {
    && (a.Save? && a.ok && a.id in n.open && !n.open[a.id].saved ==>
          Reading(n) <= n.open[a.id].copy + [n.open[a.id].kek])
    && (a.Switch? && n.mem.Some? && a.id in n.open && n.open[a.id].saved ==>
          |n.mem.value| < |Durable(n)| && Durable(n)[|n.mem.value|] == n.open[a.id].kek)
  }

  ghost predicate HarmlessRun(n: Node, acts: seq<Action>) {
    forall i | 0 <= i < |acts| :: Harmless(Run(n, acts[..i]), acts[i])
  }

  /** The KEK at a generation that was ever in use is the one every later start-up will find there. */
  ghost predicate KeysStable(n: Node, acts: seq<Action>) {
    forall i, j | 0 <= i <= j <= |acts| :: Reading(Run(n, acts[..i])) <= Durable(Run(n, acts[..j]))
  }

  lemma ReadableGrows(ring: Ring, more: Ring, made: seq<Made>)
    requires ring <= more && Readable(ring, made)
    ensures Readable(more, made)
  {
    forall i | 0 <= i < |made|
      ensures Holds(more, made[i].c, made[i].plain)
    {
      GrowthKeeps(ring, more, made[i].c, made[i].plain);
    }
  }

  lemma ProperPrefix(file: Key, ring: Ring, more: Ring)
    requires Proper(file, more) && ring <= more && ring != []
    ensures Proper(file, ring)
  {
  }

  lemma MadeKept(n: Node, a: Action)
    requires Inv(n) && (a.Encipher? || a.Renew?)
    ensures Inv(Next(n, a)) && Durable(Next(n, a)) == Durable(n) && Reading(Next(n, a)) == Reading(n)
  {
    hide Proper;
    if a.Encipher? && n.mem.Some? {
      EncryptHolds(n.mem.value, a.plain, a.rnd);
    }
    if a.Renew? && n.mem.Some? && a.i < |n.made| {
      RewrapExact(n.mem.value, n.made[a.i].c, a.edekNonce);
    }
  }

  lemma StartKept(n: Node)
    requires Inv(n)
    ensures Inv(Next(n, Start)) && Durable(Next(n, Start)) == Durable(n) && Reading(Next(n, Start)) == Reading(n)
    ensures n.mem.None? ==> Next(n, Start).mem == Some(Durable(n))
  {
    if n.mem.None? {
      if n.disk.Some? {
        RebuildSaved(n.file, n.disk.value);
      } else {
        assert Rebuild(n.file, None) == [n.file];
      }
    }
  }

  lemma BeginKept(n: Node, a: Action)
    requires Inv(n) && a.Begin?
    ensures Inv(Next(n, a)) && Durable(Next(n, a)) == Durable(n) && Reading(Next(n, a)) == Reading(n)
  {
    if n.mem.Some? && a.kek !in n.mem.value {
      ProperPrefix(n.file, n.mem.value, Durable(n));
      assert HandlerOk(n, Handler(n.mem.value, a.kek, false));
    }
  }

  lemma CrashKept(n: Node)
    requires Inv(n)
    ensures Inv(Next(n, Crash)) && Durable(Next(n, Crash)) == Durable(n) && Reading(Next(n, Crash)) == Durable(n)
  {
    ReadableGrows(Reading(n), Durable(n), n.made);
  }

  lemma SaveKept(n: Node, a: Action)
    requires Inv(n) && a.Save?
    ensures Reading(Next(n, a)) == Reading(n)
    ensures if Harmless(n, a) then Inv(Next(n, a)) else !(Reading(n) <= Durable(Next(n, a)))
  {
    if a.id in n.open && !n.open[a.id].saved && a.ok {
      var h := n.open[a.id];
      assert Durable(Next(n, a)) == h.copy + [h.kek] && HandlerOk(n, h);
      assert HandlerOk(Next(n, a), h.(saved := true));
    }
  }

  lemma SwitchKept(n: Node, a: Action)
    requires Inv(n) && a.Switch?
    ensures Durable(Next(n, a)) == Durable(n) && Reading(n) <= Reading(Next(n, a))
    ensures if Harmless(n, a) then Inv(Next(n, a)) else !(Reading(Next(n, a)) <= Durable(n))
  {
    if n.mem.Some? && a.id in n.open && n.open[a.id].saved {
      var k := n.open[a.id].kek;
      var more := n.mem.value + [k];
      assert more[|n.mem.value|] == k;
      if Harmless(n, a) {
        ReadableGrows(n.mem.value, more, n.made);
      }
    }
  }

  /** Exactly the harmless steps keep the invariant; a harmful one leaves memory out of step with the
      file. The ring in use only ever grows. */
  lemma StepSafeIff(n: Node, a: Action)
    requires Inv(n)
    ensures Harmless(n, a) ==> Inv(Next(n, a))
    ensures !Harmless(n, a) ==> !(Reading(Next(n, a)) <= Durable(Next(n, a)))
    ensures Reading(n) <= Reading(Next(n, a))
  {
    hide Inv, Next;
    InvOrder(n);
    match a
    case Start => StartKept(n);
    case Begin(_, _) => BeginKept(n, a);
    case Save(_, _) => SaveKept(n, a);
    case Switch(_) => SwitchKept(n, a);
    case Encipher(_, _) => MadeKept(n, a);
    case Renew(_, _) => MadeKept(n, a);
    case Crash => CrashKept(n);
  }

  lemma InvOrder(n: Node)
    requires Inv(n)
    ensures Reading(n) <= Durable(n)
  {
  }

  lemma {:induction false} RunSnoc(n: Node, acts: seq<Action>, a: Action)
    ensures Run(n, acts + [a]) == Next(Run(n, acts), a)
  {
    assert (acts + [a])[..|acts|] == acts;
  }

  lemma HarmlessFront(n: Node, acts: seq<Action>)
    requires acts != []
    ensures HarmlessRun(n, acts) <==>
            HarmlessRun(n, acts[..|acts| - 1]) && Harmless(Run(n, acts[..|acts| - 1]), acts[|acts| - 1])
  {
    hide Run, Harmless;
    var front := acts[..|acts| - 1];
    assert forall i | 0 <= i < |front| :: front[..i] == acts[..i] && front[i] == acts[i];
    if HarmlessRun(n, front) && Harmless(Run(n, front), acts[|acts| - 1]) {
      forall i | 0 <= i < |acts|
        ensures Harmless(Run(n, acts[..i]), acts[i])
      {
        if i < |front| {
          assert Harmless(Run(n, front[..i]), front[i]);
        }
      }
    }
    if HarmlessRun(n, acts) {
      forall i | 0 <= i < |front|
        ensures Harmless(Run(n, front[..i]), front[i])
      {
        assert Harmless(Run(n, acts[..i]), acts[i]);
      }
    }
  }

  lemma NoSteps(n: Node)
    ensures HarmlessRun(n, [])
  {
  }

  lemma NewDeploymentInv(n: Node)
    requires NewDeployment(n)
    ensures Inv(n)
  {
  }

  lemma {:induction false} HarmlessInv(n: Node, acts: seq<Action>)
    requires NewDeployment(n) && HarmlessRun(n, acts)
    ensures Inv(Run(n, acts))
  {
    hide Next, Inv, Harmless, HarmlessRun;
    if acts == [] {
      NewDeploymentInv(n);
    } else {
      var front, a := acts[..|acts| - 1], acts[|acts| - 1];
      HarmlessFront(n, acts);
      HarmlessInv(n, front);
      StepSafeIff(Run(n, front), a);
    }
  }

  lemma HarmlessPrefix(n: Node, acts: seq<Action>, i: nat)
    requires HarmlessRun(n, acts) && i <= |acts|
    ensures HarmlessRun(n, acts[..i])
  {
    hide Run, Harmless;
    var front := acts[..i];
    forall k | 0 <= k < i
      ensures Harmless(Run(n, front[..k]), front[k])
    {
      assert front[..k] == acts[..k];
    }
  }

  /** In a harmless run the ring in use only grows, and is never ahead of the file. */
  lemma {:induction false} ReadingGrows(n: Node, acts: seq<Action>, i: nat)
    requires NewDeployment(n) && HarmlessRun(n, acts) && i <= |acts|
    ensures Reading(Run(n, acts[..i])) <= Reading(Run(n, acts)) <= Durable(Run(n, acts))
    decreases |acts|
  {
    hide Next, Inv, Harmless, HarmlessRun, Reading, Durable;
    HarmlessInv(n, acts);
    InvOrder(Run(n, acts));
    if i < |acts| {
      var front, a := acts[..|acts| - 1], acts[|acts| - 1];
      HarmlessFront(n, acts);
      ReadingGrows(n, front, i);
      HarmlessInv(n, front);
      StepSafeIff(Run(n, front), a);
      assert front[..i] == acts[..i];
    } else {
      assert acts[..i] == acts;
    }
  }

  lemma StableFront(n: Node, acts: seq<Action>)
    requires KeysStable(n, acts) && acts != []
    ensures KeysStable(n, acts[..|acts| - 1])
    ensures Reading(Run(n, acts)) <= Durable(Run(n, acts))
  {
    hide Run, Reading, Durable;
    var front := acts[..|acts| - 1];
    assert acts[..|acts|] == acts;
    forall i, j | 0 <= i <= j <= |front|
      ensures Reading(Run(n, front[..i])) <= Durable(Run(n, front[..j]))
    {
      assert front[..i] == acts[..i] && front[..j] == acts[..j];
    }
  }

  lemma {:induction false} StableHarmless(n: Node, acts: seq<Action>)
    requires NewDeployment(n) && KeysStable(n, acts)
    ensures HarmlessRun(n, acts)
  {
    hide Next, Inv, Harmless, HarmlessRun, KeysStable, Reading, Durable;
    if acts == [] {
      NoSteps(n);
    } else {
      var front, a := acts[..|acts| - 1], acts[|acts| - 1];
      StableFront(n, acts);
      StableHarmless(n, front);
      HarmlessInv(n, front);
      StepSafeIff(Run(n, front), a);
      HarmlessFront(n, acts);
    }
  }

  /** The KEK at every generation ever in use never changes, in a run of any interleaving, if and only
      if every save that succeeds is from a copy memory has not moved past and every switch finds its
      KEK in the file at its place. */
  lemma RunSafeIff(n: Node, acts: seq<Action>)
    requires NewDeployment(n)
    ensures KeysStable(n, acts) <==> HarmlessRun(n, acts)
  {
    hide Next, Inv, Harmless, HarmlessRun, Reading, Durable, Run;
    if HarmlessRun(n, acts) {
      forall i, j | 0 <= i <= j <= |acts|
        ensures Reading(Run(n, acts[..i])) <= Durable(Run(n, acts[..j]))
      {
        HarmlessPrefix(n, acts, j);
        ReadingGrows(n, acts[..j], i);
        assert acts[..j][..i] == acts[..i];
      }
    }
    if KeysStable(n, acts) {
      StableHarmless(n, acts);
    }
  }

  /** What was produced stays on record. */
  lemma {:induction false} MadeGrows(n: Node, acts: seq<Action>, i: nat)
    requires i <= |acts|
    ensures Run(n, acts[..i]).made <= Run(n, acts).made && Run(n, acts).file == n.file
    decreases |acts|
  {
    if i < |acts| {
      var front := acts[..|acts| - 1];
      MadeGrows(n, front, i);
      assert front[..i] == acts[..i];
    } else {
      assert acts[..i] == acts;
      if acts != [] {
        MadeGrows(n, acts[..i - 1], i - 1);
      }
    }
  }

  /** Over every such run and from any point of it on: the KEK at a generation in use never changes,
      and each ciphertext produced so far is read back to its plaintext, by the running node and by
      a node restarted at that moment. */
  lemma NothingIsLost(n: Node, acts: seq<Action>, i: nat, j: nat)
    requires NewDeployment(n) && HarmlessRun(n, acts)
    requires i <= |acts| && j < |Run(n, acts[..i]).made|
    ensures var before, now := Run(n, acts[..i]), Run(n, acts);
            && before.made[j] in now.made
            && (forall g | 1 <= g <= |Reading(before)| ::
                  KeyAt(Reading(now), g) == KeyAt(Durable(now), g) == KeyAt(Reading(before), g))
            && (now.mem.Some? ==> Decrypt(now.mem.value, before.made[j].c) == Ok(before.made[j].plain))
            && Decrypt(Rebuild(n.file, now.disk), before.made[j].c) == Ok(before.made[j].plain)
  {
    hide Next, Inv, NewDeployment, Harmless, HarmlessRun, Decrypt, Holds;
    HarmlessInv(n, acts);
    ReadingGrows(n, acts, i);
    MadeGrows(n, acts, i);
    var now := Run(n, acts);
    var m := Run(n, acts[..i]).made[j];
    assert now.made[j] == m;
    ReadBack(now, j);
  }

  lemma ReadBack(n: Node, j: nat)
    requires Inv(n) && j < |n.made|
    ensures n.mem.Some? ==> Decrypt(n.mem.value, n.made[j].c) == Ok(n.made[j].plain)
    ensures Decrypt(Rebuild(n.file, n.disk), n.made[j].c) == Ok(n.made[j].plain)
  {
    hide Decrypt, Holds;
    var m := n.made[j];
    assert Holds(Reading(n), m.c, m.plain);
    HoldsIff(Reading(n), m.c, m.plain);
    GrowthKeeps(Reading(n), Durable(n), m.c, m.plain);
    if n.disk.Some? {
      RebuildSaved(n.file, n.disk.value);
    } else {
      assert Rebuild(n.file, n.disk) == [n.file];
    }
  }

  /** A node that is up records what it produces: a secret encrypted is of the current generation, one
      re-wrapped becomes so, and both read as they should. */
  lemma SecretsRecorded(n: Node, a: Action)
    requires Inv(n) && n.mem.Some?
    requires a.Encipher? || (a.Renew? && a.i < |n.made|)
    ensures var m := Next(n, a);
            && |m.made| == |n.made| + 1 && m.made[..|n.made|] == n.made
            && var last := m.made[|n.made|];
               && last.plain == (if a.Encipher? then a.plain else n.made[a.i].plain)
               && last.c.dekV == |n.mem.value| && Decrypt(n.mem.value, last.c) == Ok(last.plain)
  {
    hide Proper, Decrypt;
    if a.Encipher? {
      EncryptHolds(n.mem.value, a.plain, a.rnd);
      EncryptGeneration(n.mem.value, a.plain, a.rnd);
    } else {
      var m := n.made[a.i];
      assert Holds(n.mem.value, m.c, m.plain);
      RewrapExact(n.mem.value, m.c, a.edekNonce);
      HoldsIff(n.mem.value, m.c, m.plain);
    }
  }

  // ---------------- serialised rotations ----------------

  /** A rotation begins only when none is under way. */
  ghost predicate Serial(n: Node, acts: seq<Action>) {
    forall i | 0 <= i < |acts| && acts[i].Begin? :: Run(n, acts[..i]).open == map[]
  }

  /** With at most one rotation under way, memory is the durable ring up to that rotation's save. */
  ghost predicate Alone(n: Node) {
    && (n.mem.Some? && n.open == map[] ==> n.mem.value == Durable(n))
    && (forall id | id in n.open ::
          && n.mem.Some? && n.open == map[id := n.open[id]] && n.open[id].copy == n.mem.value
          && Durable(n) == n.mem.value + (if n.open[id].saved then [n.open[id].kek] else []))
  }

  lemma AloneStep(n: Node, a: Action)
    requires Inv(n) && Alone(n) && (a.Begin? ==> n.open == map[])
    ensures Harmless(n, a) && Alone(Next(n, a))
  {
    hide Readable, Encrypt, Rewrap, Proper;
    if a.Start? {
      StartKept(n);
    }
    if (a.Save? || a.Switch?) && a.id in n.open {
      var h := n.open[a.id];
      assert n.open - {a.id} == map[];
      assert n.open[a.id := h.(saved := true)] == map[a.id := h.(saved := true)];
    }
  }

  lemma {:induction false} SerialAlone(n: Node, acts: seq<Action>)
    requires NewDeployment(n) && Serial(n, acts)
    ensures HarmlessRun(n, acts) && Inv(Run(n, acts)) && Alone(Run(n, acts))
  {
    hide Next, Inv, Harmless, HarmlessRun;
    if acts == [] {
      NoSteps(n);
      NewDeploymentInv(n);
    } else {
      var front, a := acts[..|acts| - 1], acts[|acts| - 1];
      forall i | 0 <= i < |front| && front[i].Begin?
        ensures Run(n, front[..i]).open == map[]
      {
        assert front[..i] == acts[..i] && acts[i].Begin?;
      }
      SerialAlone(n, front);
      assert acts[|front|] == a;
      AloneStep(Run(n, front), a);
      HarmlessFront(n, acts);
      HarmlessInv(n, acts);
    }
  }

  /** With rotations one at a time nothing is ever lost, whatever saves fail and wherever the
      process crashes; and a node that is up between rotations has exactly the saved ring. */
  lemma SerialisedRotationsLoseNothing(n: Node, acts: seq<Action>, i: nat, j: nat)
    requires NewDeployment(n) && Serial(n, acts)
    requires i <= |acts| && j < |Run(n, acts[..i]).made|
    ensures var m, now := Run(n, acts[..i]).made[j], Run(n, acts);
            && (now.mem.Some? ==> Decrypt(now.mem.value, m.c) == Ok(m.plain))
            && Decrypt(Rebuild(n.file, now.disk), m.c) == Ok(m.plain)
            && (now.mem.Some? && now.open == map[] ==> now.mem.value == Rebuild(n.file, now.disk))
  {
    hide Next, Inv, NewDeployment, Harmless, HarmlessRun, Decrypt, Serial, Others;
    SerialAlone(n, acts);
    NothingIsLost(n, acts, i, j);
    MadeGrows(n, acts, i);
    RebuildIsDurable(Run(n, acts));
  }

  lemma RebuildIsDurable(n: Node)
    requires Inv(n)
    ensures Rebuild(n.file, n.disk) == Durable(n)
  {
    if n.disk.Some? {
      RebuildSaved(n.file, n.disk.value);
    }
  }

  /** What a save from any copy does to a secret, once the node restarts: it stays readable if and only
      if its generation is within the copy, or its KEK is the very one the save puts last. So a save
      from a stale copy takes with it every generation from the copy's end on, bar that KEK's. */
  lemma StaleSaveLosesIff(n: Node, id: nat, c: Ciphertext, plain: Bytes)
    requires Inv(n) && id in n.open && !n.open[id].saved && Holds(Durable(n), c, plain)
    ensures var h := n.open[id];
            var m := Next(Next(Next(n, Save(id, true)), Crash), Start);
            && m.mem == Some(h.copy + [h.kek])
            && (Decrypt(h.copy + [h.kek], c) == Ok(plain) <==>
                c.dekV <= |h.copy| || Durable(n)[c.dekV - 1] == h.kek)
            && (Decrypt(h.copy + [h.kek], c) != Ok(plain) ==> Decrypt(h.copy + [h.kek], c).Err?)
  {
    hide Others, Readable, Decrypt, Holds;
    var h := n.open[id];
    var saved := h.copy + [h.kek];
    var m := Next(Next(n, Save(id, true)), Crash);
    assert HandlerOk(n, h);
    assert m.disk == Some(saved) && m.file == n.file && m.mem.None?;
    RebuildSaved(n.file, saved);
    assert Next(m, Start).mem == Some(saved);
    ReadAfterSave(h.copy, h.kek, Durable(n), c, plain);
  }

  lemma ReadAfterSave(copy: Ring, kek: Key, ring: Ring, c: Ciphertext, plain: Bytes)
    requires copy <= ring && Holds(ring, c, plain)
    ensures Decrypt(copy + [kek], c) == Ok(plain) <==> c.dekV <= |copy| || ring[c.dekV - 1] == kek
    ensures Decrypt(copy + [kek], c) != Ok(plain) ==> Decrypt(copy + [kek], c).Err?
  {
    var saved := copy + [kek];
    if c.dekV <= |copy| {
      assert saved[c.dekV - 1] == copy[c.dekV - 1] == ring[c.dekV - 1];
      assert ReadingKey(saved, c.dekV) == Some(ring[c.dekV - 1]);
    } else {
      assert ReadingKey(saved, c.dekV) == Some(kek);
    }
  }

  /** Such saves happen: two rotations overlapping on a new deployment reach the state above. */
  lemma OverlapReachesStaleSave(file: Key, a: Key, b: Key, plain: Bytes, rnd: Fresh)
    requires a != file && b != file && a != b
    ensures var n := Node(file, None, None, map[], []);
            var m := Run(n, [Start, Begin(1, a), Begin(2, b), Save(1, true), Switch(1), Encipher(plain, rnd)]);
            && Inv(m) && 2 in m.open && m.open[2] == Handler([file], b, false) && Durable(m) == [file, a]
            && |m.made| == 1 && Holds(Durable(m), m.made[0].c, plain) && m.made[0].c.dekV == 2
  {
    hide Holds, Encrypt, Rewrap, Inv;
    var n := Node(file, None, None, map[], []);
    assert Rebuild(file, None) == [file];
    var n1 := Next(n, Start);
    var n2 := Next(n1, Begin(1, a));
    var n3 := Next(n2, Begin(2, b));
    assert n3 == Node(file, None, Some([file]), map[1 := Handler([file], a, false), 2 := Handler([file], b, false)], []);
    assert [file] + [a] == [file, a];
    var n4 := Next(n3, Save(1, true));
    var n5 := Next(n4, Switch(1));
    assert n5 == Node(file, Some([file, a]), Some([file, a]), map[2 := Handler([file], b, false)], []);
    var n6 := Next(n5, Encipher(plain, rnd));
    assert n6.made == [Made(Encrypt([file, a], plain, rnd), plain)];
    EncryptHolds([file, a], plain, rnd);
    NewDeploymentInv(n);
    StepSafeIff(n, Start);
    StepSafeIff(n1, Begin(1, a));
    StepSafeIff(n2, Begin(2, b));
    StepSafeIff(n3, Save(1, true));
    StepSafeIff(n4, Switch(1));
    StepSafeIff(n5, Encipher(plain, rnd));
    RunSix(n, Start, Begin(1, a), Begin(2, b), Save(1, true), Switch(1), Encipher(plain, rnd));
    assert Encrypt([file, a], plain, rnd).dekV == 2 by {
      EncryptGeneration([file, a], plain, rnd);
    }
  }

  lemma EncryptGeneration(ring: Ring, plain: Bytes, rnd: Fresh)
    requires ring != []
    ensures Encrypt(ring, plain, rnd).dekV == |ring|
  {
  }

  lemma RunSix(n: Node, a: Action, b: Action, c: Action, d: Action, e: Action, f: Action)
    ensures Run(n, [a, b, c, d, e, f]) == Next(Next(Next(Next(Next(Next(n, a), b), c), d), e), f)
  {
    hide Next;
    RunSnoc(n, [], a);
    assert [a] == [] + [a];
    RunSnoc(n, [a], b);
    assert [a, b] == [a] + [b];
    RunSnoc(n, [a, b], c);
    assert [a, b, c] == [a, b] + [c];
    RunSnoc(n, [a, b, c], d);
    assert [a, b, c, d] == [a, b, c] + [d];
    RunSnoc(n, [a, b, c, d], e);
    assert [a, b, c, d, e] == [a, b, c, d] + [e];
    RunSnoc(n, [a, b, c, d, e], f);
    assert [a, b, c, d, e, f] == [a, b, c, d, e] + [f];
  }

  // ---------------- the node's own code ----------------

  /** A node with its key file, ring file and cipher; one request at a time. */
  class KeyServer {
    const file: Key
    var disk: Option<Ring>
    var ring: Ring

    /** The node's place in the step system, given what it has produced so far. */
    ghost function State(made: seq<Made>): Node
      reads this
    {
      Node(file, disk, Some(ring), map[], made)
    }

    /** Start-up over the key file and whatever ring file there is. */
    constructor (fileKey: Key, saved: Option<Ring>)
      ensures file == fileKey && disk == saved
      ensures forall made :: State(made) == Next(Node(fileKey, saved, None, map[], made), Start)
    {
      file := fileKey;
      disk := saved;
      var entries := [fileKey];
      var onDisk := if saved.Some? then saved.value else [];
      var i := 0;
      while i < |onDisk|
        invariant 0 <= i <= |onDisk|
        invariant entries == [fileKey] + Others(fileKey, onDisk[..i])
      {
        assert onDisk[..i + 1][..i] == onDisk[..i];
        if onDisk[i] != fileKey {
          entries := entries + [onDisk[i]];
        }
        i := i + 1;
      }
      assert onDisk[..i] == onDisk;
      ring := entries;
    }

    /** The rotation handler run without interruption: it is the three steps in a row. A key already
        on the ring changes nothing, and a failed save leaves file and memory as they were. */
    method RotateMasterKey(kek: Key, saveSucceeds: bool) returns (generation: Result<nat>)
      modifies this
      ensures forall made ::
                State(made) == Next(Next(Next(old(State(made)), Begin(0, kek)), Save(0, saveSucceeds)), Switch(0))
      ensures generation.Ok? <==> kek in old(ring) || saveSucceeds
      ensures generation.Ok? ==> generation.value == |ring| && kek in ring
      ensures generation.Err? ==> ring == old(ring) && disk == old(disk)
      ensures generation.Ok? && kek !in old(ring) ==> ring == old(ring) + [kek] && disk == Some(ring)
    {
      hide Encrypt, Rewrap, Others;
      if kek !in ring {
        var newRing := ring + [kek];
        if !saveSucceeds {
          assert map[0 := Handler(ring, kek, false)] - {0} == map[];
          return Err("save failed");
        }
        disk := Some(newRing);
        assert map[0 := Handler(ring, kek, true)] - {0} == map[];
        assert map[0 := Handler(ring, kek, false)][0 := Handler(ring, kek, true)] == map[0 := Handler(ring, kek, true)];
        ring := ring + [kek];
      }
      generation := Ok(|ring|);
    }
  }
}
