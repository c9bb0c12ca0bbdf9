/** The write buffer of a command: operations are collected while it runs, reads see them at once,
    and they reach the store as one batch when it ends. */
module WriteBuffer {
  import opened Model
  import opened Order
  import opened Store

  datatype Op = PutOp(key: string, value: string) | DeleteOp(key: string)

  function OneOp(db: Db, op: Op): Db {
    match op
    case PutOp(k, v) => db[k := v]
    case DeleteOp(k) => db - {k}
  }

  /** The operations carried out one after another: what the command means. */
  function InTurn(db: Db, ops: seq<Op>): (r: Db) {
    if ops == [] then db else OneOp(InTurn(db, ops[..|ops| - 1]), ops[|ops| - 1])
  }

  /** What becomes of one key. */
  datatype Fate = Untouched | Written(value: string) | Erased

  function FateOf(ops: seq<Op>, key: string): Fate {
    if ops == [] then Untouched
    else
      var last := ops[|ops| - 1];
      if last.key != key then FateOf(ops[..|ops| - 1], key)
      else if last.PutOp? then Written(last.value) else Erased
  }

  function Lookup(db: Db, key: string): Option<string> {
    if key in db then Some(db[key]) else None
  }

  function Outcome(db: Db, key: string, f: Fate): Option<string> {
    match f
    case Untouched => Lookup(db, key)
    case Written(v) => Some(v)
    case Erased => None
  }

  /** The last operation on a key decides. */
  lemma {:induction false} InTurnLookup(db: Db, ops: seq<Op>, key: string)
    ensures Lookup(InTurn(db, ops), key) == Outcome(db, key, FateOf(ops, key))
  {
    if ops != [] {
      InTurnLookup(db, ops[..|ops| - 1], key);
    }
  }

  function Puts(ops: seq<Op>): (r: seq<Pair>) {
    if ops == [] then []
    else
      var last := ops[|ops| - 1];
      Puts(ops[..|ops| - 1]) + if last.PutOp? then [Pair(last.key, last.value)] else []
  }

  function Deletes(ops: seq<Op>): (r: seq<string>) {
    if ops == [] then []
    else
      var last := ops[|ops| - 1];
      Deletes(ops[..|ops| - 1]) + if last.DeleteOp? then [last.key] else []
  }

  /** What reaches the store: all deletes, then all puts. */
  function Flushed(db: Db, ops: seq<Op>): (r: Db) {
    Batched(db, Puts(ops), Deletes(ops))
  }

  /** The last put on a key, deletes disregarded. */
  function LastPut(ops: seq<Op>, key: string): Option<string> {
    if ops == [] then None
    else
      var last := ops[|ops| - 1];
      if last.PutOp? && last.key == key then Some(last.value) else LastPut(ops[..|ops| - 1], key)
  }

  lemma {:induction false} PutsLookup(db: Db, ops: seq<Op>, key: string)
    ensures Lookup(PutAll(db, Puts(ops)), key) ==
            if LastPut(ops, key).Some? then LastPut(ops, key) else Lookup(db, key)
  {
    if ops != [] {
      var front, last := ops[..|ops| - 1], ops[|ops| - 1];
      PutsLookup(db, front, key);
      if last.PutOp? {
        PutAllSnoc(db, Puts(front), Pair(last.key, last.value));
      } else {
        assert Puts(ops) == Puts(front);
      }
    }
  }

  lemma {:induction false} FateFacts(ops: seq<Op>, key: string)
    ensures key in Deletes(ops) || LastPut(ops, key).Some? <==> FateOf(ops, key) != Untouched
    ensures FateOf(ops, key).Written? ==> LastPut(ops, key) == Some(FateOf(ops, key).value)
    ensures FateOf(ops, key).Erased? ==> key in Deletes(ops)
  {
    if ops != [] {
      FateFacts(ops[..|ops| - 1], key);
    }
  }

  /** A key put and later deleted within the command, the delete being its last operation. */
  ghost predicate Resurrected(ops: seq<Op>, key: string) {
    FateOf(ops, key).Erased? && LastPut(ops, key).Some?
  }

  lemma FlushedLookup(db: Db, ops: seq<Op>, key: string)
    ensures Lookup(Flushed(db, ops), key) ==
            if Resurrected(ops, key) then LastPut(ops, key) else Outcome(db, key, FateOf(ops, key))
  {
    PutsLookup(Removed(db, Deletes(ops)), ops, key);
    FateFacts(ops, key);
  }

  /** The batch does what the command meant if and only if no key is deleted after having been put;
      such a key comes back with the value it was put with. */
  lemma FlushMeansInTurnIff(db: Db, ops: seq<Op>)
    ensures Flushed(db, ops) == InTurn(db, ops) <==> forall key :: !Resurrected(ops, key)
  {
    hide Flushed, InTurn, Resurrected, Outcome;
    forall key
      ensures Lookup(Flushed(db, ops), key) == Lookup(InTurn(db, ops), key) <==> !Resurrected(ops, key)
    {
      FlushedLookup(db, ops, key);
      InTurnLookup(db, ops, key);
      if Resurrected(ops, key) {
        ResurrectedDiffers(db, ops, key);
      }
    }
    if forall key :: !Resurrected(ops, key) {
      SameLookups(Flushed(db, ops), InTurn(db, ops));
    }
  }

  lemma ResurrectedDiffers(db: Db, ops: seq<Op>, key: string)
    requires Resurrected(ops, key)
    ensures Outcome(db, key, FateOf(ops, key)).None? && LastPut(ops, key).Some?
  {
  }

  lemma SameLookups(a: Db, b: Db)
    requires forall key :: Lookup(a, key) == Lookup(b, key)
    ensures a == b
  {
    forall key
      ensures key in a <==> key in b
      ensures key in a ==> a[key] == b[key]
    {
      assert Lookup(a, key) == Lookup(b, key);
    }
  }

  /** The smallest such command. */
  lemma PutThenDeleteResurrects(db: Db, key: string, value: string)
    ensures key !in InTurn(db, [PutOp(key, value), DeleteOp(key)])
    ensures Lookup(Flushed(db, [PutOp(key, value), DeleteOp(key)]), key) == Some(value)
  {
    var ops := [PutOp(key, value), DeleteOp(key)];
    assert ops[..1] == [PutOp(key, value)];
    FlushedLookup(db, ops, key);
    InTurnLookup(db, ops, key);
    assert LastPut(ops[..1], key) == Some(value);
  }

  class Buffer {
    var store: Db
    var pending: seq<Op>

    constructor (db: Db)
      ensures store == db && pending == []
    {
      store := db;
      pending := [];
    }

    method PutPending(key: string, value: string)
      modifies this
      ensures store == old(store) && pending == old(pending) + [PutOp(key, value)]
      ensures InTurn(store, pending) == old(InTurn(store, pending))[key := value]
    {
      assert (pending + [PutOp(key, value)])[..|pending|] == pending;
      pending := pending + [PutOp(key, value)];
    }

    method DeletePending(key: string)
      modifies this
      ensures store == old(store) && pending == old(pending) + [DeleteOp(key)]
      ensures InTurn(store, pending) == old(InTurn(store, pending)) - {key}
    {
      assert (pending + [DeleteOp(key)])[..|pending|] == pending;
      pending := pending + [DeleteOp(key)];
    }

    /** Reading one key while the command runs: the newest operation on it, else the store. */
    method GetMerged(key: string) returns (r: Option<string>)
      ensures r == Lookup(InTurn(store, pending), key)
    {
      InTurnLookup(store, pending, key);
      var i := |pending|;
      assert pending[..i] == pending;
      while i > 0
        invariant 0 <= i <= |pending|
        invariant FateOf(pending, key) == FateOf(pending[..i], key)
      {
        i := i - 1;
        assert pending[..i + 1][..i] == pending[..i];
        match pending[i]
        case PutOp(k, v) => if k == key { return Some(v); }
        case DeleteOp(k) => if k == key { return None; }
      }
      r := Lookup(store, key);
    }

    /** Scanning while the command runs. */
    method GetPrefixMerged(prefix: string) returns (ps: seq<Pair>)
      ensures ps == Scan(InTurn(store, pending), prefix)
    {
      hide InTurn, Scan;
      var found := Within(store, prefix);
      var i := 0;
      InTurnNone(store);
      assert pending[..0] == [];
      while i < |pending|
        invariant 0 <= i <= |pending|
        invariant found == Within(InTurn(store, pending[..i]), prefix)
      {
        InTurnNext(store, pending, i);
        WithinOp(InTurn(store, pending[..i]), pending[i], prefix);
        var op := pending[i];
        match op {
          case PutOp(k, v) =>
            if prefix <= k {
              found := found[k := v];
            }
          case DeleteOp(k) =>
            if prefix <= k {
              found := found - {k};
            }
        }
        i := i + 1;
      }
      assert pending[..i] == pending;
      var ks := KeysInOrder(found.Keys);
      ps := PairsOf(found, ks);
      WithinScan(InTurn(store, pending), prefix);
    }

    /** The end of the command: one batch, and an empty buffer. */
    method FlushPending()
      modifies this
      ensures pending == [] && store == Flushed(old(store), old(pending))
    {
      var puts: seq<Pair>, deletes: seq<string> := [], [];
      var i := 0;
      while i < |pending|
        invariant 0 <= i <= |pending|
        invariant puts == Puts(pending[..i]) && deletes == Deletes(pending[..i])
      {
        assert pending[..i + 1][..i] == pending[..i];
        match pending[i] {
          case PutOp(k, v) => puts := puts + [Pair(k, v)];
          case DeleteOp(k) => deletes := deletes + [k];
        }
        i := i + 1;
      }
      assert pending[..i] == pending;
      if pending == [] {
        assert Removed(store, []) == store;
        return;
      }
      store := Batched(store, puts, deletes);
      pending := [];
    }
  }

  /** The part of a store under a prefix. */
  function Within(db: Db, prefix: string): (r: Db) {
    map k | k in db && prefix <= k :: db[k]
  }

  lemma InTurnNone(db: Db)
    ensures InTurn(db, []) == db
  {
  }

  lemma InTurnNext(db: Db, ops: seq<Op>, i: nat)
    requires i < |ops|
    ensures InTurn(db, ops[..i + 1]) == OneOp(InTurn(db, ops[..i]), ops[i])
  {
    assert ops[..i + 1][..i] == ops[..i];
  }

  lemma WithinOp(db: Db, op: Op, prefix: string)
    ensures Within(OneOp(db, op), prefix) ==
            if prefix <= op.key then OneOp(Within(db, prefix), op) else Within(db, prefix)
  {
  }

  lemma WithinScan(db: Db, prefix: string)
    ensures Within(db, prefix).Keys == KeysWith(db, prefix)
    ensures Scan(db, prefix) == PairsOf(Within(db, prefix), Sorted(Within(db, prefix).Keys))
  {
    assert Within(db, prefix).Keys == KeysWith(db, prefix);
    var ks := Sorted(KeysWith(db, prefix));
    assert forall i | 0 <= i < |ks| :: ks[i] in KeysWith(db, prefix);
  }
}
