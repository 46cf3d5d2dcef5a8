/** The non-rotating StrongBox: one encryption key, and decryption keys chosen by the key id. */
module StaticStrongBox {
  import opened Basics

  type Key = b: Bytes | |b| == 32 witness Zeros(32)

  type KeyId = b: Bytes | |b| == 16 witness Zeros(16)

  type Nonce = b: Bytes | |b| == 12 witness Zeros(12)

  datatype Error = Decryption

  /** The cryptographic primitives, as functions about which only the stated hypotheses are used. */
  datatype Suite = Suite(
    keyId: Key -> KeyId,
    seal: (Key, Nonce, Bytes, Bytes) -> Bytes,         // key, nonce, associated data, message
    open: (Key, Nonce, Bytes, Bytes) -> Option<Bytes>) // key, nonce, associated data, sealed message
  {
    /** Opening what was sealed with the same key, nonce and associated data gives the message back. */
    ghost predicate Correct() {
      forall k, n, a, m :: open(k, n, a, seal(k, n, a, m)) == Some(m)
    }

    /** Among these associated data, opening with other ones than were sealed fails. */
    ghost predicate Binding(aads: set<Bytes>) {
      forall k, n, a, b, m :: a in aads && b in aads && a != b ==> open(k, n, b, seal(k, n, a, m)) == None
    }
  }

  datatype Ciphertext = Ciphertext(keyId: KeyId, nonce: Nonce, body: Bytes)

  datatype StaticBox = StaticBox(encryptionKey: Key, encryptionKeyId: KeyId, decryptionKeys: map<KeyId, Key>)

  /** The decryption keys by id; of two keys with one id the later stays. */
  function KeyMap(suite: Suite, keys: seq<Key>): map<KeyId, Key> {
    if keys == [] then map[]
    else
      var last := keys[|keys| - 1];
      KeyMap(suite, keys[..|keys| - 1])[suite.keyId(last) := last]
  }

  function Box(suite: Suite, encryptionKey: Key, decryptionKeys: seq<Key>): StaticBox {
    StaticBox(encryptionKey, suite.keyId(encryptionKey), KeyMap(suite, decryptionKeys))
  }

  method New(suite: Suite, encryptionKey: Key, decryptionKeys: seq<Key>) returns (box: StaticBox)
    ensures box == Box(suite, encryptionKey, decryptionKeys)
  {
    var keyMap: map<KeyId, Key> := map[];
    for i := 0 to |decryptionKeys|
      invariant keyMap == KeyMap(suite, decryptionKeys[..i])
    {
      var key := decryptionKeys[i];
      assert decryptionKeys[..i + 1][..i] == decryptionKeys[..i];
      keyMap := keyMap[suite.keyId(key) := key];
    }
    assert decryptionKeys[..|decryptionKeys|] == decryptionKeys;
    box := StaticBox(encryptionKey, suite.keyId(encryptionKey), keyMap);
  }

  /** The associated data binds the caller's context, the key id and the nonce. */
  function Aad(context: Bytes, keyId: KeyId, nonce: Nonce): Bytes {
    context + keyId + nonce
  }

  /** Encryption under a nonce drawn at random by the caller. */
  function Encrypt(suite: Suite, box: StaticBox, nonce: Nonce, plaintext: Bytes, context: Bytes): Ciphertext {
    Ciphertext(
      box.encryptionKeyId,
      nonce,
      suite.seal(box.encryptionKey, nonce, Aad(context, box.encryptionKeyId, nonce), plaintext))
  }

  function Decrypt(suite: Suite, box: StaticBox, c: Ciphertext, context: Bytes): Result<Bytes, Error> {
    if c.keyId in box.decryptionKeys then
      match suite.open(box.decryptionKeys[c.keyId], c.nonce, Aad(context, c.keyId, c.nonce), c.body)
      case Some(m) => Ok(m)
      case None => Err(Decryption)
    else Err(Decryption)
  }

  /** The key map has exactly the ids of the given keys, each with a key of that id. */
  lemma {:induction false} KeyMapExact(suite: Suite, keys: seq<Key>)
    ensures forall id :: id in KeyMap(suite, keys) <==> exists k :: k in keys && suite.keyId(k) == id
    ensures forall id :: id in KeyMap(suite, keys) ==>
                           KeyMap(suite, keys)[id] in keys && suite.keyId(KeyMap(suite, keys)[id]) == id
  {
    if keys != [] {
      var last := keys[|keys| - 1];
      KeyMapExact(suite, keys[..|keys| - 1]);
      assert forall k :: k in keys <==> k in keys[..|keys| - 1] || k == last;
    }
  }

  /** Equal associated data means equal context, key id and nonce, because the last two have fixed sizes. */
  lemma {:induction false} AadInjective(
    context: Bytes, id: KeyId, nonce: Nonce, context': Bytes, id': KeyId, nonce': Nonce)
    requires Aad(context, id, nonce) == Aad(context', id', nonce')
    ensures context == context' && id == id' && nonce == nonce'
  {
    var a, b := Aad(context, id, nonce), Aad(context', id', nonce');
    assert a == context + (id + nonce) && b == context' + (id' + nonce');
    assert a[..|context|] == context && b[..|context'|] == context';
    assert a[|context|..] == id + nonce && b[|context'|..] == id' + nonce';
    assert (id + nonce)[..|id|] == id && (id' + nonce')[..|id'|] == id';
  }

  /**
   Key rotation by hand: a box decrypts what another box encrypted exactly when it has been given
   the encryption key, provided no two of the keys share an id, and never under another context.
   */
  lemma {:induction false} DecryptIff(
    suite: Suite, sender: StaticBox, encryptionKey: Key, senderKeys: seq<Key>,
    receiver: StaticBox, otherKey: Key, receiverKeys: seq<Key>,
    nonce: Nonce, plaintext: Bytes, context: Bytes, context': Bytes)
    requires suite.Correct()
    requires var id := suite.keyId(encryptionKey); suite.Binding({Aad(context, id, nonce), Aad(context', id, nonce)})
    requires sender == Box(suite, encryptionKey, senderKeys)
    requires receiver == Box(suite, otherKey, receiverKeys)
    requires forall k :: k in receiverKeys && suite.keyId(k) == suite.keyId(encryptionKey) ==> k == encryptionKey
    ensures Decrypt(suite, receiver, Encrypt(suite, sender, nonce, plaintext, context), context')
            == if encryptionKey in receiverKeys && context' == context then Ok(plaintext) else Err(Decryption)
  {
    KeyMapExact(suite, receiverKeys);
    var id := suite.keyId(encryptionKey);
    if context != context' {
      if Aad(context, id, nonce) == Aad(context', id, nonce) {
        AadInjective(context, id, nonce, context', id, nonce);
      }
    }
  }

  /** A sealed message is its plaintext with a tag of sixteen bytes, which here only tells `a` from other data. */
  function ToySeal(a: Bytes, aad: Bytes, m: Bytes): Bytes {
    m + ToyTag(a, aad)
  }

  function ToyTag(a: Bytes, aad: Bytes): (tag: Bytes)
    ensures |tag| == 16
  {
    Zeros(15) + [if aad == a then 0 else 1]
  }

  function ToyOpen(a: Bytes, aad: Bytes, sealed: Bytes): Option<Bytes> {
    if |sealed| >= 16 && sealed[|sealed| - 16..] == ToyTag(a, aad) then Some(sealed[..|sealed| - 16]) else None
  }

  lemma {:induction false} ToyOpens(a: Bytes, aad: Bytes, other: Bytes, m: Bytes)
    ensures ToyOpen(a, other, ToySeal(a, aad, m)) == if (aad == a) == (other == a) then Some(m) else None
  {
    var sealed := ToySeal(a, aad, m);
    assert sealed[..|sealed| - 16] == m && sealed[|sealed| - 16..] == ToyTag(a, aad);
    assert ToyTag(a, aad)[15] != ToyTag(a, other)[15] || ToyTag(a, aad) == ToyTag(a, other);
  }

  /** The hypotheses on a suite can be met together with tags of sixteen bytes. */
  lemma {:induction false} SuitePossible(a: Bytes, b: Bytes, keyId: Key -> KeyId) returns (suite: Suite)
    ensures suite.Correct() && suite.Binding({a, b}) && suite.keyId == keyId
    ensures forall k, n, x, m :: |suite.seal(k, n, x, m)| == |m| + 16
  {
    suite := Suite(keyId, (k, n, x, m) => ToySeal(a, x, m), (k, n, x, s) => ToyOpen(a, x, s));
    forall k, n, x, m ensures suite.open(k, n, x, suite.seal(k, n, x, m)) == Some(m) {
      ToyOpens(a, x, x, m);
    }
    forall k, n, x, y, m | x in {a, b} && y in {a, b} && x != y
      ensures suite.open(k, n, y, suite.seal(k, n, x, m)) == None
    {
      ToyOpens(a, x, y, m);
    }
  }
}
