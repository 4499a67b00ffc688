/** The cryptographic primitives the network is built on. They are foreign code, so a Suite
    carries them as arbitrary functions and Lawful states what the callers rely on. */
module Crypto {
  import opened Bytes

  type Prv = nat
  type Pub = Bytes

  const PUB_LEN: nat := 33
  const BLIND_LEN: nat := 4
  const CLOAK_LEN: nat := 8
  const IV_LEN: nat := 16
  const ID_LEN: nat := 8

  datatype Suite = Suite(
    derivePub: Prv -> Pub,
    sharedSecret: (Prv, Pub) -> Bytes,
    keystream: (Bytes, Bytes) -> (nat -> byte),
    sha256: Bytes -> Bytes,
    onCurve: Bytes -> bool)
  {
    ghost predicate Lawful()
    {
      && (forall p: Prv :: |derivePub(p)| == PUB_LEN && onCurve(derivePub(p)))
      && (forall a: Prv, b: Prv :: sharedSecret(a, derivePub(b)) == sharedSecret(b, derivePub(a)))
      && (forall s: Bytes :: |sha256(s)| == 32)
    }

    /** ciph.GetBlock with a nonce: the keystream two key holders share. */
    function Block(prv: Prv, pub: Pub, iv: Bytes): (r: nat -> byte)
    {
      keystream(sharedSecret(prv, pub), iv)
    }

    function Cloak(blinder: Bytes, key: Pub): (c: Bytes)
      requires |blinder| == BLIND_LEN && |sha256(blinder + key)| == 32
      ensures |c| == CLOAK_LEN
    {
      blinder + sha256(blinder + key)[..4]
    }

    predicate Match(cloak: Bytes, key: Pub)
      requires |cloak| == CLOAK_LEN && |sha256(cloak[..BLIND_LEN] + key)| == 32
    {
      cloak == Cloak(cloak[..BLIND_LEN], key)
    }

    /** Two key holders share the keystream of their secret and the nonce. */
    lemma {:induction false} BlockShared(a: Prv, b: Prv, iv: Bytes)
      requires Lawful()
      ensures Block(a, derivePub(b), iv) == Block(b, derivePub(a), iv) == keystream(sharedSecret(a, derivePub(b)), iv)
    {
    }

    /** A cloak is recognised by another key exactly when the two give the same four bytes of hash with its blinder. */
    lemma {:induction false} CloakExact(blinder: Bytes, key: Pub, other: Pub)
      requires |blinder| == BLIND_LEN && |sha256(blinder + key)| == |sha256(blinder + other)| == 32
      ensures Cloak(blinder, key)[..BLIND_LEN] == blinder
      ensures Match(Cloak(blinder, key), other) <==> sha256(blinder + key)[..4] == sha256(blinder + other)[..4]
    {
      var c := Cloak(blinder, key);
      assert c[..BLIND_LEN] == blinder && c[BLIND_LEN..] == sha256(blinder + key)[..4];
      assert Cloak(blinder, other)[BLIND_LEN..] == sha256(blinder + other)[..4];
    }

    /** A cloak is recognised by the key it was made for. */
    lemma {:induction false} CloakMatches(blinder: Bytes, key: Pub)
      requires |blinder| == BLIND_LEN && |sha256(blinder + key)| == 32
      ensures Cloak(blinder, key)[..BLIND_LEN] == blinder
      ensures Match(Cloak(blinder, key), key)
    {
      assert Cloak(blinder, key)[..BLIND_LEN] == blinder;
    }
  }
}
