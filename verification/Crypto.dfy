/** Envelope encryption under a ring of master keys. AES-GCM is symbolic: a box opens under the
    key and nonce it was sealed with and under no other; base64 is the identity. */
module Crypto {
  import opened Model

  const KEY_LENGTH: nat := 32

  type Key = k: Bytes | |k| == KEY_LENGTH witness seq(KEY_LENGTH, _ => '0')

  /** Master keys (KEKs), oldest first; the last is current. */
  type Ring = seq<Key>

  function Generation(ring: Ring): nat {
    |ring|
  }

  /** The KEK of a generation, counted from 1. */
  function KeyAt(ring: Ring, generation: nat): (k: Option<Key>) {
    if 1 <= generation <= |ring| then Some(ring[generation - 1]) else None
  }

  function Current(ring: Ring): Key
    requires ring != []
  {
    ring[|ring| - 1]
  }

  /** Key material of the wrong length is refused before the box is looked at. */
  function Open(key: Bytes, nonce: Bytes, box: Box): (r: Result<Bytes>) {
    if |key| != KEY_LENGTH then Err("key length")
    else if box.Sealed? && box.key == key && box.nonce == nonce then Ok(box.plain)
    else Err("aead")
  }

  // ---------------- secrets ----------------

  /** The randomness of one encryption. */
  datatype Fresh = Fresh(dek: Key, nonce: Bytes, edekNonce: Bytes)

  function Encrypt(ring: Ring, plain: Bytes, rnd: Fresh): (c: Ciphertext)
    requires ring != []
  {
    Ciphertext("aes-256-gcm", 1, Generation(ring), rnd.nonce, Sealed(rnd.dek, rnd.nonce, plain),
               Sealed(Current(ring), rnd.edekNonce, rnd.dek), rnd.edekNonce)
  }

  /** The KEK a ciphertext is read with: its own generation's, else the newest. */
  function ReadingKey(ring: Ring, generation: nat): (k: Option<Key>) {
    if KeyAt(ring, generation).Some? then KeyAt(ring, generation) else KeyAt(ring, |ring|)
  }

  function Decrypt(ring: Ring, c: Ciphertext): (r: Result<Bytes>) {
    match ReadingKey(ring, c.dekV)
    case None => Err("no KEK for generation")
    case Some(kek) =>
      match Open(kek, c.edekNonce, c.edek)
      case Err(e) => Err(e)
      case Ok(dek) => Open(dek, c.nonce, c.ct)
  }

  /** Seal the data key again under the current KEK; the data is not touched. */
  function Rewrap(ring: Ring, c: Ciphertext, edekNonce: Bytes): (r: Result<Ciphertext>) {
    match KeyAt(ring, c.dekV)
    case None => Err("unknown KEK generation")
    case Some(kek) =>
      match Open(kek, c.edekNonce, c.edek)
      case Err(e) => Err(e)
      case Ok(dek) =>
        Ok(c.(dekV := Generation(ring), edek := Sealed(Current(ring), edekNonce, dek), edekNonce := edekNonce))
  }

  /** `c` is a ciphertext of `plain` under the KEK its generation names. */
  ghost predicate Holds(ring: Ring, c: Ciphertext, plain: Bytes) {
    && 1 <= c.dekV <= |ring|
    && c.edek.Sealed? && c.edek.key == ring[c.dekV - 1] && c.edek.nonce == c.edekNonce
    && |c.edek.plain| == KEY_LENGTH
    && c.ct == Sealed(c.edek.plain, c.nonce, plain)
  }

  /** For a known generation, holding a plaintext and decrypting to it are one thing. */
  lemma HoldsIff(ring: Ring, c: Ciphertext, plain: Bytes)
    ensures Holds(ring, c, plain) <==> 1 <= c.dekV <= |ring| && Decrypt(ring, c) == Ok(plain)
  {
    if 1 <= c.dekV <= |ring| && Decrypt(ring, c) == Ok(plain) {
      assert Open(c.edek.plain, c.nonce, c.ct) == Ok(plain);
      assert c.ct == Sealed(c.ct.key, c.ct.nonce, c.ct.plain);
    }
  }

  lemma EncryptHolds(ring: Ring, plain: Bytes, rnd: Fresh)
    requires ring != []
    ensures Holds(ring, Encrypt(ring, plain, rnd), plain)
    ensures Decrypt(ring, Encrypt(ring, plain, rnd)) == Ok(plain)
  {
    HoldsIff(ring, Encrypt(ring, plain, rnd), plain);
  }

  /** A ring that grew still opens everything it opened, as long as the generation was known. */
  lemma GrowthKeeps(ring: Ring, more: Ring, c: Ciphertext, plain: Bytes)
    requires ring <= more && Holds(ring, c, plain)
    ensures Holds(more, c, plain) && Decrypt(more, c) == Ok(plain)
  {
    HoldsIff(more, c, plain);
  }

  /** The fall-back for an unknown generation tries one KEK, the newest: it reads the ciphertext as
      if it were of the current generation. */
  lemma FallbackIsNewest(ring: Ring, c: Ciphertext)
    requires ring != [] && KeyAt(ring, c.dekV).None?
    ensures Decrypt(ring, c) == Decrypt(ring, c.(dekV := |ring|))
  {
  }

  /** What a rotation does to a readable ciphertext: it stays readable exactly when its generation
      was known, or the KEK rotated in is the one already current. */
  lemma RotationKeepsIff(ring: Ring, kek: Key, c: Ciphertext, plain: Bytes)
    requires Decrypt(ring, c) == Ok(plain)
    ensures Decrypt(ring + [kek], c) == Ok(plain) <==> 1 <= c.dekV <= |ring| || kek == Current(ring)
  {
    assert ring != [];
    assert ReadingKey(ring + [kek], c.dekV) == Some(if 1 <= c.dekV <= |ring| then ring[c.dekV - 1] else kek);
  }

  /** Re-wrapping succeeds exactly when the data key can be opened under the named generation; it
      keeps the sealed data and the reading of it, and moves the ciphertext to the current KEK. */
  lemma RewrapExact(ring: Ring, c: Ciphertext, edekNonce: Bytes)
    ensures Rewrap(ring, c, edekNonce).Ok? <==>
            1 <= c.dekV <= |ring| && c.edek.Sealed? && c.edek.key == ring[c.dekV - 1] && c.edek.nonce == c.edekNonce
    ensures Rewrap(ring, c, edekNonce).Ok? ==>
              var d := Rewrap(ring, c, edekNonce).value;
              && d == c.(dekV := |ring|, edek := d.edek, edekNonce := edekNonce)
              && Decrypt(ring, d) == Decrypt(ring, c)
              && forall plain :: Holds(ring, d, plain) <==> Holds(ring, c, plain)
  {
    if Rewrap(ring, c, edekNonce).Ok? {
      var d := Rewrap(ring, c, edekNonce).value;
      forall plain
        ensures Holds(ring, d, plain) <==> Holds(ring, c, plain)
      {
        HoldsIff(ring, c, plain);
        HoldsIff(ring, d, plain);
      }
    }
  }

  /** After re-wrapping, the older KEKs are not needed: any ring with the current KEK in the same
      place reads the result alike. */
  lemma RewrapFreesOldKeys(ring: Ring, other: Ring, c: Ciphertext, edekNonce: Bytes)
    requires Rewrap(ring, c, edekNonce).Ok?
    requires |ring| <= |other| && other[|ring| - 1] == Current(ring)
    ensures Decrypt(other, Rewrap(ring, c, edekNonce).value) == Decrypt(ring, c)
  {
    RewrapExact(ring, c, edekNonce);
  }

  // ---------------- a new master key, wrapped ----------------

  /** The payload of a rotation: nonce and box. `Short` is a payload below 13 bytes. */
  datatype Wrapped = Short | Wrapped(nonce: Bytes, box: Box)

  function WrapMasterKey(kek: Key, newKek: Key, nonce: Bytes): (w: Wrapped) {
    Wrapped(nonce, Sealed(kek, nonce, newKek))
  }

  function UnwrapMasterKey(kek: Key, w: Wrapped): (r: Result<Key>)
    ensures r.Ok? <==>
            w.Wrapped? && w.box.Sealed? && w.box.key == kek && w.box.nonce == w.nonce && |w.box.plain| == KEY_LENGTH
    ensures r.Ok? ==> r.value == w.box.plain
  {
    match w
    case Short => Err("wrap_master_key: payload too short")
    case Wrapped(nonce, box) =>
      match Open(kek, nonce, box)
      case Err(e) => Err(e)
      case Ok(plain) =>
        if |plain| != KEY_LENGTH then Err("wrap_master_key: bad plaintext length") else Ok(plain)
  }

  /** Unwrapping inverts wrapping, under the wrapping KEK and no other. */
  lemma WrapRoundTrip(kek: Key, other: Key, newKek: Key, nonce: Bytes)
    ensures UnwrapMasterKey(kek, WrapMasterKey(kek, newKek, nonce)) == Ok(newKek)
    ensures UnwrapMasterKey(other, WrapMasterKey(kek, newKek, nonce)).Ok? <==> other == kek
  {
  }

  /** The ring behind its lock. */
  class Cipher {
    var ring: Ring

    constructor (entries: Ring)
      ensures ring == entries
    {
      ring := entries;
    }

    /** Append a KEK. Whatever was readable under a known generation still is. */
    method RotateMasterKey(kek: Key)
      modifies this
      ensures ring == old(ring) + [kek]
      ensures forall c, plain | Holds(old(ring), c, plain) :: Holds(ring, c, plain)
    {
      ring := ring + [kek];
    }

    method EncryptSecret(plain: Bytes) returns (c: Ciphertext)
      requires ring != []
      ensures Holds(ring, c, plain) && Decrypt(ring, c) == Ok(plain) && c.dekV == |ring|
      ensures c.enc == "aes-256-gcm" && c.v == 1
    {
      var dek: Key := *;
      var nonce: Bytes := *;
      var edekNonce: Bytes := *;
      c := Encrypt(ring, plain, Fresh(dek, nonce, edekNonce));
      EncryptHolds(ring, plain, Fresh(dek, nonce, edekNonce));
    }

    /** Newest to oldest, the first generation that exists. */
    method DecryptSecret(c: Ciphertext) returns (r: Result<Bytes>)
      ensures r == Decrypt(ring, c)
    {
      var kek := KeyAt(ring, c.dekV);
      var g := |ring|;
      while kek.None? && g >= 1
        invariant g <= |ring|
        invariant kek == KeyAt(ring, c.dekV) || kek == KeyAt(ring, |ring|)
        invariant kek.None? ==> g == |ring| && KeyAt(ring, c.dekV).None?
        invariant kek.Some? && KeyAt(ring, c.dekV).Some? ==> kek == KeyAt(ring, c.dekV)
      {
        kek := KeyAt(ring, g);
        g := g - 1;
      }
      if kek.None? {
        return Err("no KEK for generation");
      }
      var dek := Open(kek.value, c.edekNonce, c.edek);
      if dek.Err? {
        return dek;
      }
      r := Open(dek.value, c.nonce, c.ct);
    }

    method RewrapDek(c: Ciphertext) returns (r: Result<Ciphertext>)
      ensures r.Ok? <==>
              1 <= c.dekV <= |ring| && c.edek.Sealed? && c.edek.key == ring[c.dekV - 1] && c.edek.nonce == c.edekNonce
      ensures r.Ok? ==>
                && r.value == c.(dekV := |ring|, edek := r.value.edek, edekNonce := r.value.edekNonce)
                && Decrypt(ring, r.value) == Decrypt(ring, c)
                && forall plain :: Holds(ring, r.value, plain) <==> Holds(ring, c, plain)
    {
      var edekNonce: Bytes := *;
      r := Rewrap(ring, c, edekNonce);
      RewrapExact(ring, c, edekNonce);
    }
  }
}
