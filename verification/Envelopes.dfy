// frontend/src/crypto/e2ee.ts with its primitives as parameters: an ideal AEAD, a Diffie-Hellman function that
// commutes (section 6.1 of RFC 7748) and any HMAC (sections 2.2 and 2.3 of RFC 5869).
module Envelopes {
  import opened Wrappers

  type Byte = b: int | 0 <= b < 256
  type Bytes = seq<Byte>

  datatype Suite = Suite(
    publicKey: Bytes -> Bytes,
    scalarMult: (Bytes, Bytes) -> Bytes,
    hmac: (Bytes, Bytes) -> Bytes,
    encrypt: (Bytes, Bytes, Bytes) -> Bytes,
    decrypt: (Bytes, Bytes, Bytes) -> Option<Bytes>)
  {
    // decrypt undoes encrypt, opens nothing else, and a ciphertext has one plaintext.
    ghost predicate Ideal() {
      && (forall a, b :: scalarMult(a, publicKey(b)) == scalarMult(b, publicKey(a)))
      && (forall p, n, k :: decrypt(encrypt(p, n, k), n, k) == Some(p))
      && (forall c, n, k :: decrypt(c, n, k).Some? ==> c == encrypt(decrypt(c, n, k).value, n, k))
      && (forall p, n, k, p', n', k' :: encrypt(p, n, k) == encrypt(p', n', k') ==> p == p')
      && (forall k, m :: |hmac(k, m)| == HASH_LEN)
    }

    // More than the proofs need: no other key opens a ciphertext, and shared secrets differ.
    ghost predicate Discerning() {
      && (forall p, n, k, k' :: k != k' ==> decrypt(encrypt(p, n, k), n, k') == None)
      && (exists a, b, c, d :: scalarMult(a, publicKey(b)) != scalarMult(c, publicKey(d)))
    }
  }

  // The assumptions can be met together with these: here by writing the key in front of the plaintext, since secrecy plays
  // no part in who can read.
  lemma IdealSuiteExists()
    ensures exists suite: Suite :: suite.Ideal() && suite.Discerning()
  {
    KeyedIsIdeal();
    KeyedDiscerns();
    assert Keyed().Ideal() && Keyed().Discerning();
  }

  function Keyed(): Suite {
    Suite(a => a, (a, b) => Zeros(|a| + |b|), (k, m) => Zeros(HASH_LEN), (p, n, k) => Lock(k) + p, (c, n, k) => Unlock(c, k))
  }

  lemma KeyedIsIdeal()
    ensures Keyed().Ideal()
  {
    KeyedOpens();
    KeyedOpensOnlyItsOwn();
    KeyedHasOnePlaintext();
  }

  lemma KeyedOpens()
    ensures forall p, n, k :: Keyed().decrypt(Keyed().encrypt(p, n, k), n, k) == Some(p)
  {
    forall p, n, k ensures Keyed().decrypt(Keyed().encrypt(p, n, k), n, k) == Some(p) {
      LockOpens(k, p);
    }
  }

  lemma KeyedOpensOnlyItsOwn()
    ensures forall c, n, k :: Keyed().decrypt(c, n, k).Some? ==> c == Keyed().encrypt(Keyed().decrypt(c, n, k).value, n, k)
  {
    forall c, n, k | Keyed().decrypt(c, n, k).Some? ensures c == Keyed().encrypt(Keyed().decrypt(c, n, k).value, n, k) {
      Unlocked(c, k);
    }
  }

  lemma KeyedHasOnePlaintext()
    ensures forall p, n, k, p', n', k' :: Keyed().encrypt(p, n, k) == Keyed().encrypt(p', n', k') ==> p == p'
  {
    forall p, n, k, p', n', k' | Keyed().encrypt(p, n, k) == Keyed().encrypt(p', n', k') ensures p == p' {
      OneLock(k, p, k', p');
    }
  }

  lemma KeyedDiscerns()
    ensures Keyed().Discerning()
  {
    var suite := Keyed();
    forall p, n, k, k' | k != k' ensures suite.decrypt(suite.encrypt(p, n, k), n, k') == None {
      OtherKeysFail(k, p, k');
    }
    assert |suite.scalarMult([], suite.publicKey([]))| == 0 && |suite.scalarMult([0], suite.publicKey([]))| == 1;
  }

  lemma LockOpens(k: Bytes, p: Bytes)
    ensures Unlock(Lock(k) + p, k) == Some(p)
  {
    assert (Lock(k) + p)[..|Lock(k)|] == Lock(k);
  }

  lemma Unlocked(c: Bytes, k: Bytes)
    requires Unlock(c, k).Some?
    ensures c == Lock(k) + Unlock(c, k).value
  {
    assert c == c[..|Lock(k)|] + c[|Lock(k)|..];
  }

  lemma OtherKeysFail(k: Bytes, p: Bytes, k': Bytes)
    requires k != k'
    ensures Unlock(Lock(k) + p, k') == None
  {
    if Unlock(Lock(k) + p, k').Some? {
      Unlocked(Lock(k) + p, k');
      OneLock(k, p, k', Unlock(Lock(k) + p, k').value);
    }
  }

  function Zeros(n: nat): Bytes {
    seq(n, i => 0)
  }

  function Lock(k: Bytes): Bytes {
    seq(|k|, i => 1) + [0] + k
  }

  function Unlock(c: Bytes, k: Bytes): Option<Bytes> {
    if |Lock(k)| <= |c| && c[..|Lock(k)|] == Lock(k) then Some(c[|Lock(k)|..]) else None
  }

  lemma OneLock(k: Bytes, p: Bytes, k': Bytes, p': Bytes)
    requires Lock(k) + p == Lock(k') + p'
    ensures k == k' && p == p'
  {
    var c := Lock(k) + p;
    assert c[|k|] == 0 && c[|k'|] == 0 && forall i :: 0 <= i < |k| ==> c[i] == 1;
    assert forall i :: 0 <= i < |k'| ==> c[i] == 1;
    assert |k| == |k'|;
    assert k == c[|k| + 1..2 * |k| + 1] == k';
    assert p == c[2 * |k| + 1..] == p';
  }

  const HASH_LEN := 32

  function Utf8(s: string): (r: Bytes)
    requires forall i :: 0 <= i < |s| ==> s[i] < 128 as char
  {
    seq(|s|, i requires 0 <= i < |s| => s[i] as int)
  }

  const INFO: Bytes := Utf8("synap-e2ee")

  function HkdfExtract(suite: Suite, salt: Bytes, ikm: Bytes): Bytes {
    suite.hmac(salt, ikm)
  }

  // The one-block form the code uses.
  function HkdfExpand(suite: Suite, prk: Bytes, info: Bytes, length: nat): Bytes {
    var out := suite.hmac(prk, info + [1]);
    if length <= |out| then out[..length] else out
  }

  // T(i) and T(1) | T(2) | ... | T(n) of section 2.3 of RFC 5869.
  function Block(suite: Suite, prk: Bytes, info: Bytes, i: nat): Bytes
    requires i < 256
  {
    if i == 0 then [] else suite.hmac(prk, Block(suite, prk, info, i - 1) + info + [i])
  }

  function Blocks(suite: Suite, prk: Bytes, info: Bytes, n: nat): Bytes
    requires n < 256
  {
    if n == 0 then [] else Blocks(suite, prk, info, n - 1) + Block(suite, prk, info, n)
  }

  function Rfc5869Expand(suite: Suite, prk: Bytes, info: Bytes, length: nat): Bytes
    requires length <= 255 * HASH_LEN
  {
    var n := (length + HASH_LEN - 1) / HASH_LEN;
    var t := Blocks(suite, prk, info, n);
    if length <= |t| then t[..length] else t
  }

  // The single block is the standard's output for every length up to one hash, hence for the 32-byte key.
  lemma OneBlockIsEnough(suite: Suite, prk: Bytes, info: Bytes, length: nat)
    requires suite.Ideal() && length <= HASH_LEN
    ensures HkdfExpand(suite, prk, info, length) == Rfc5869Expand(suite, prk, info, length)
    ensures |HkdfExpand(suite, prk, info, length)| == length
  {
    if length > 0 {
      assert (length + HASH_LEN - 1) / HASH_LEN == 1;
      assert Block(suite, prk, info, 0) + info + [1] == info + [1];
      assert Blocks(suite, prk, info, 1) == Blocks(suite, prk, info, 0) + Block(suite, prk, info, 1);
      assert Blocks(suite, prk, info, 1) == Block(suite, prk, info, 1);
    } else {
      assert Rfc5869Expand(suite, prk, info, 0) == [];
    }
  }

  // The key-encryption key: from the sender's side and from the recipient's side.
  function Kek(suite: Suite, ephemeralPublic: Bytes, shared: Bytes): Bytes {
    HkdfExpand(suite, HkdfExtract(suite, ephemeralPublic, shared), INFO, 32)
  }

  // The key-encryption key is HKDF's: extracted with the ephemeral public key as salt, expanded to 32 bytes for "synap-e2ee".
  lemma KekIsHkdf(suite: Suite, ephemeralPublic: Bytes, shared: Bytes)
    requires suite.Ideal()
    ensures Kek(suite, ephemeralPublic, shared)
         == Rfc5869Expand(suite, suite.hmac(ephemeralPublic, shared), [115, 121, 110, 97, 112, 45, 101, 50, 101, 101], 32)
    ensures |Kek(suite, ephemeralPublic, shared)| == 32
  {
    assert INFO == [115, 121, 110, 97, 112, 45, 101, 50, 101, 101];
    OneBlockIsEnough(suite, suite.hmac(ephemeralPublic, shared), INFO, 32);
  }

  // A parsed element of enc_dek; Malformed is text that does not parse or does not decode.
  datatype Envelope = X25519(ephemeralPublic: Bytes, nonce: Bytes, ct: Bytes) | Rsa(ct: Bytes) | OtherAlgorithm | Malformed

  // A registered public key; None is one that does not decode.
  datatype KeyEntry = X25519Key(publicKey: Option<Bytes>) | RsaKey(wrapped: Option<Bytes>) | OtherKey

  datatype Record = Record(ciphertext: Bytes, nonce: Bytes, encDek: seq<Envelope>)

  // What one encryption draws at random.
  datatype Randomness = Randomness(dek: Bytes, nonce: Bytes, ephemeral: nat -> Bytes, nonces: nat -> Bytes)

  function Wrap(suite: Suite, key: Bytes, r: Randomness, i: nat): Envelope {
    var ephemeral := r.ephemeral(i);
    var kek := Kek(suite, suite.publicKey(ephemeral), suite.scalarMult(ephemeral, key));
    X25519(suite.publicKey(ephemeral), r.nonces(i), suite.encrypt(r.dek, r.nonces(i), kek))
  }

  // What a recipient gets out of one envelope, if anything.
  function Unwrap(suite: Suite, priv: Bytes, env: Envelope): Option<Bytes> {
    match env
    case X25519(ephemeralPublic, nonce, ct) =>
      suite.decrypt(ct, nonce, Kek(suite, ephemeralPublic, suite.scalarMult(priv, ephemeralPublic)))
    case _ => None
  }

  // The first envelope that opens decides.
  function FirstOpened(suite: Suite, priv: Bytes, envs: seq<Envelope>): Option<Bytes> {
    if envs == [] then None
    else if Unwrap(suite, priv, envs[0]).Some? then Unwrap(suite, priv, envs[0])
    else FirstOpened(suite, priv, envs[1..])
  }

  // The payload a recipient reads, None where the code throws.
  function Reads(suite: Suite, priv: Bytes, rec: Record): Option<Bytes> {
    match FirstOpened(suite, priv, rec.encDek)
    case None => None
    case Some(dek) => suite.decrypt(rec.ciphertext, rec.nonce, dek)
  }

  // Said of the record alone: somebody reads p exactly if some envelope is the first that opens, and what is in it opens
  // the ciphertext to p.
  lemma ReadsMeans(suite: Suite, priv: Bytes, rec: Record, p: Bytes)
    ensures Reads(suite, priv, rec) == Some(p) <==> exists i: nat :: OpensFirst(suite, priv, rec, i, p)
  {
    var envs := rec.encDek;
    FirstOpenedMeans(suite, priv, envs);
    if FirstOpened(suite, priv, envs).Some? {
      var i: nat :| i < |envs| && Unwrap(suite, priv, envs[i]) == FirstOpened(suite, priv, envs)
                    && forall j :: 0 <= j < i ==> Unwrap(suite, priv, envs[j]).None?;
      assert Reads(suite, priv, rec) == Some(p) <==> OpensFirst(suite, priv, rec, i, p);
      assert forall k: nat :: OpensFirst(suite, priv, rec, k, p) ==> k == i;
    }
  }

  ghost predicate OpensFirst(suite: Suite, priv: Bytes, rec: Record, i: nat, p: Bytes) {
    && i < |rec.encDek| && (forall j :: 0 <= j < i ==> Unwrap(suite, priv, rec.encDek[j]).None?)
    && Unwrap(suite, priv, rec.encDek[i]).Some?
    && suite.decrypt(rec.ciphertext, rec.nonce, Unwrap(suite, priv, rec.encDek[i]).value) == Some(p)
  }

  lemma {:induction false} FirstOpenedMeans(suite: Suite, priv: Bytes, envs: seq<Envelope>)
    ensures FirstOpened(suite, priv, envs).None? ==> forall j :: 0 <= j < |envs| ==> Unwrap(suite, priv, envs[j]).None?
    ensures FirstOpened(suite, priv, envs).Some? ==>
      exists i: nat :: i < |envs| && Unwrap(suite, priv, envs[i]) == FirstOpened(suite, priv, envs)
                       && forall j :: 0 <= j < i ==> Unwrap(suite, priv, envs[j]).None?
  {
    if envs != [] && Unwrap(suite, priv, envs[0]).None? {
      FirstOpenedMeans(suite, priv, envs[1..]);
      assert forall j :: 1 <= j < |envs| ==> envs[j] == envs[1..][j - 1];
      if FirstOpened(suite, priv, envs).Some? {
        var i: nat :| i < |envs[1..]| && Unwrap(suite, priv, envs[1..][i]) == FirstOpened(suite, priv, envs[1..])
                      && forall j :: 0 <= j < i ==> Unwrap(suite, priv, envs[1..][j]).None?;
        assert envs[i + 1] == envs[1..][i];
      }
    }
  }

  method DecryptSingleWithX25519(suite: Suite, priv: Bytes, rec: Record) returns (payload: Option<Bytes>)
    ensures payload == Reads(suite, priv, rec)
  {
    var dek: Option<Bytes> := None;
    var i := 0;
    while i < |rec.encDek|
      invariant i <= |rec.encDek|
      invariant dek.None?
      invariant FirstOpened(suite, priv, rec.encDek) == FirstOpened(suite, priv, rec.encDek[i..])
    {
      var env := rec.encDek[i];
      assert rec.encDek[i..][1..] == rec.encDek[i + 1..];
      i := i + 1;
      if !env.X25519? {
        continue;
      }
      var shared := suite.scalarMult(priv, env.ephemeralPublic);
      var kek := Kek(suite, env.ephemeralPublic, shared);
      dek := suite.decrypt(env.ct, env.nonce, kek);
      if dek.Some? {
        break;
      }
    }
    if dek.None? {
      return None;
    }
    payload := suite.decrypt(rec.ciphertext, rec.nonce, dek.value);
  }

  // The envelopes of the first n keys: one per key that decodes, none for the others.
  function Wrapped(suite: Suite, keys: seq<KeyEntry>, r: Randomness, n: nat): seq<Envelope>
    requires n <= |keys|
  {
    if n == 0 then []
    else
      var before := Wrapped(suite, keys, r, n - 1);
      match keys[n - 1]
      case X25519Key(Some(key)) => before + [Wrap(suite, key, r, n - 1)]
      case RsaKey(Some(wrapped)) => before + [Rsa(wrapped)]
      case _ => before
  }

  // Key by key: used lists the keys that decode, in order, and the j-th envelope wraps the data key for the j-th of them,
  // under an ephemeral key and a nonce drawn for that key alone.
  lemma {:induction false} WrappedPerKey(suite: Suite, keys: seq<KeyEntry>, r: Randomness, n: nat) returns (used: seq<nat>)
    requires n <= |keys|
    ensures |used| == |Wrapped(suite, keys, r, n)|
    ensures forall i, j :: 0 <= i < j < |used| ==> used[i] < used[j]
    ensures forall i: nat :: i in used <==>
      i < n && ((keys[i].X25519Key? && keys[i].publicKey.Some?) || (keys[i].RsaKey? && keys[i].wrapped.Some?))
    ensures forall j :: 0 <= j < |used| ==>
      var i, env := used[j], Wrapped(suite, keys, r, n)[j];
      && i < n
      && (keys[i].RsaKey? ==> keys[i].wrapped.Some? && env == Rsa(keys[i].wrapped.value))
      && (keys[i].X25519Key? ==>
           var e := r.ephemeral(i);
           && keys[i].publicKey.Some? && env.X25519? && env.ephemeralPublic == suite.publicKey(e) && env.nonce == r.nonces(i)
           && env.ct == suite.encrypt(r.dek, r.nonces(i), Kek(suite, suite.publicKey(e), suite.scalarMult(e, keys[i].publicKey.value))))
  {
    used := [];
    if n > 0 {
      used := WrappedPerKey(suite, keys, r, n - 1);
      if |Wrapped(suite, keys, r, n)| > |used| {
        used := used + [n - 1];
      }
    }
  }

  method EncryptForProject(suite: Suite, payload: Bytes, keys: seq<KeyEntry>, r: Randomness) returns (rec: Record)
    ensures rec.ciphertext == suite.encrypt(payload, r.nonce, r.dek) && rec.nonce == r.nonce
    ensures rec.encDek == Wrapped(suite, keys, r, |keys|)
  {
    var ct := suite.encrypt(payload, r.nonce, r.dek);
    var encDek: seq<Envelope> := [];
    for i := 0 to |keys|
      invariant encDek == Wrapped(suite, keys, r, i)
    {
      match keys[i] {
        case X25519Key(Some(publicKey)) =>
          var ephemeral := r.ephemeral(i);
          var shared := suite.scalarMult(ephemeral, publicKey);
          var kek := Kek(suite, suite.publicKey(ephemeral), shared);
          var wrapped := suite.encrypt(r.dek, r.nonces(i), kek);
          encDek := encDek + [X25519(suite.publicKey(ephemeral), r.nonces(i), wrapped)];
        case RsaKey(Some(wrapped)) =>
          encDek := encDek + [Rsa(wrapped)];
        case _ =>
      }
    }
    rec := Record(ct, r.nonce, encDek);
  }

  // Whoever opens an envelope of this encryption gets this encryption's key, and its addressee does open it.
  lemma UnwrapOfWrap(suite: Suite, key: Bytes, r: Randomness, i: nat, priv: Bytes)
    requires suite.Ideal()
    ensures Unwrap(suite, priv, Wrap(suite, key, r, i)).Some? ==> Unwrap(suite, priv, Wrap(suite, key, r, i)) == Some(r.dek)
    ensures key == suite.publicKey(priv) ==> Unwrap(suite, priv, Wrap(suite, key, r, i)) == Some(r.dek)
  {
    var e := r.ephemeral(i);
    var env := Wrap(suite, key, r, i);
    var kek := Kek(suite, suite.publicKey(e), suite.scalarMult(priv, suite.publicKey(e)));
    if Unwrap(suite, priv, env).Some? {
      var p := suite.decrypt(env.ct, env.nonce, kek).value;
      assert env.ct == suite.encrypt(p, env.nonce, kek);
      assert p == r.dek;
    }
    if key == suite.publicKey(priv) {
      assert suite.scalarMult(e, key) == suite.scalarMult(priv, suite.publicKey(e));
    }
  }

  lemma {:induction false} AppendedEnvelopesComeLater(suite: Suite, priv: Bytes, xs: seq<Envelope>, ys: seq<Envelope>)
    ensures FirstOpened(suite, priv, xs + ys) ==
      if FirstOpened(suite, priv, xs).Some? then FirstOpened(suite, priv, xs) else FirstOpened(suite, priv, ys)
  {
    if xs == [] {
      assert xs + ys == ys;
    } else {
      assert (xs + ys)[1..] == xs[1..] + ys;
      AppendedEnvelopesComeLater(suite, priv, xs[1..], ys);
    }
  }

  lemma {:induction false} WrappedOpens(suite: Suite, keys: seq<KeyEntry>, r: Randomness, n: nat, priv: Bytes)
    requires suite.Ideal() && n <= |keys|
    ensures var found := FirstOpened(suite, priv, Wrapped(suite, keys, r, n));
            && (found.Some? ==> found == Some(r.dek))
            && (X25519Key(Some(suite.publicKey(priv))) in keys[..n] ==> found.Some?)
  {
    if n == 0 {
    } else {
      var before, k := Wrapped(suite, keys, r, n - 1), keys[n - 1];
      WrappedOpens(suite, keys, r, n - 1, priv);
      assert keys[..n] == keys[..n - 1] + [k];
      match k {
        case X25519Key(Some(key)) =>
          AppendedEnvelopesComeLater(suite, priv, before, [Wrap(suite, key, r, n - 1)]);
          UnwrapOfWrap(suite, key, r, n - 1, priv);
        case RsaKey(Some(wrapped)) =>
          AppendedEnvelopesComeLater(suite, priv, before, [Rsa(wrapped)]);
        case _ =>
      }
    }
  }

  // Every recipient whose key was registered and decodes reads exactly the payload, whatever the other keys are;
  // and whoever reads anything at all reads the payload.
  lemma EveryRecipientReads(suite: Suite, payload: Bytes, keys: seq<KeyEntry>, r: Randomness, priv: Bytes)
    requires suite.Ideal()
    ensures var rec := Record(suite.encrypt(payload, r.nonce, r.dek), r.nonce, Wrapped(suite, keys, r, |keys|));
            && (X25519Key(Some(suite.publicKey(priv))) in keys ==> Reads(suite, priv, rec) == Some(payload))
            && (Reads(suite, priv, rec).Some? ==> Reads(suite, priv, rec) == Some(payload))
  {
    WrappedOpens(suite, keys, r, |keys|, priv);
    assert keys[..|keys|] == keys;
  }

  // Rewrapping appends, and appending never takes a payload away from anyone.
  lemma GrowthKeepsReaders(suite: Suite, priv: Bytes, rec: Record, more: seq<Envelope>)
    requires Reads(suite, priv, rec).Some?
    ensures Reads(suite, priv, rec.(encDek := rec.encDek + more)) == Reads(suite, priv, rec)
  {
    AppendedEnvelopesComeLater(suite, priv, rec.encDek, more);
  }

  // A rewrap for a new recipient works: an appended envelope that opens to the record's key reads what others read.
  lemma RewrapAddsReader(suite: Suite, payload: Bytes, r: Randomness, rec: Record, priv: Bytes, r': Randomness, i: nat)
    requires suite.Ideal()
    requires rec.ciphertext == suite.encrypt(payload, r.nonce, r.dek) && rec.nonce == r.nonce
    requires FirstOpened(suite, priv, rec.encDek).None?
    requires r'.dek == r.dek
    ensures Reads(suite, priv, rec.(encDek := rec.encDek + [Wrap(suite, suite.publicKey(priv), r', i)])) == Some(payload)
  {
    var env := Wrap(suite, suite.publicKey(priv), r', i);
    AppendedEnvelopesComeLater(suite, priv, rec.encDek, [env]);
    UnwrapOfWrap(suite, suite.publicKey(priv), r', i, priv);
  }
}
