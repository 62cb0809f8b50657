/** Password encryption with one wrapped file key per recipient (encryption.rs). */
module Encryption {
  import opened Results
  import opened Bytes
  import opened Ids

  const HEADER_SIZE := 15
  const MAX_RECIPIENTS := 32
  const NONCE_SIZE := 12
  const TAG_SIZE := 16
  const SLOT_SIZE := 60

  type Key = Id

  type Nonce = s: bytes | |s| == NONCE_SIZE witness seq(NONCE_SIZE, _ => 0)

  type u32 = n: nat | n < 0x1_0000_0000

  datatype Config = Config(algorithm: byte, version: byte, mCost: u32, tCost: u32, pCost: u32)

  const STRONG := Config(2, 19, 19 * 1024, 2, 1)
  const WEAK := Config(2, 19, 4 * 1024, 2, 1)

  /** The primitives as functions: Argon2's parameter check and KDF, and ChaCha20-Poly1305 (tag appended). */
  datatype Primitives = Primitives(
    paramsFit: (u32, u32, u32) -> bool,
    derive: (Config, bytes) -> Option<Key>,
    seal: (Key, Nonce, bytes) -> bytes,
    open: (Key, Nonce, bytes) -> Option<bytes>)

  /** What section 2.8 of RFC 8439 gives: a 16-byte tag, and opening with the sealing key and nonce. */
  ghost predicate Sound(c: Primitives) {
    forall k, n, p :: |c.seal(k, n, p)| == |p| + TAG_SIZE && c.open(k, n, c.seal(k, n, p)) == Some(p)
  }

  // ---------------------------------------------------------------------------------------------
  // The header

  lemma Be4Bound(n: u32)
    ensures n < Pow256(4)
  {
    assert Pow256(4) == 0x1_0000_0000;
  }

  function U32ToBe(n: u32): (s: bytes)
    ensures |s| == 4
  {
    Be4Bound(n);
    BeBytes(n, 4)
  }

  function U32FromBe(s: bytes): u32
    requires |s| == 4
  {
    assert Pow256(4) == 0x1_0000_0000;
    BeValue(s)
  }

  function Header(g: Config): (h: bytes)
    ensures |h| == HEADER_SIZE
  {
    [1, g.algorithm, g.version] + U32ToBe(g.mCost) + U32ToBe(g.tCost) + U32ToBe(g.pCost)
  }

  /** Parameters no larger than the parser accepts. */
  predicate WithinLimits(g: Config) {
    g.mCost <= 256 * 1024 && g.tCost <= 16 && g.pCost <= 4
  }

  function FromHeader(b: bytes): Result<Config> {
    if |b| < HEADER_SIZE || b[0] != 1 then Err
    else
      var g := Config(b[1], b[2], U32FromBe(b[3..7]), U32FromBe(b[7..11]), U32FromBe(b[11..15]));
      if WithinLimits(g) then Ok(g) else Err
  }

  /** The parser inverts the writer on acceptable parameters and refuses all others. */
  lemma HeaderRoundTrip(g: Config, rest: bytes)
    ensures FromHeader(Header(g) + rest) == if WithinLimits(g) then Ok(g) else Err
  {
    var b := Header(g) + rest;
    Be4Bound(g.mCost);
    Be4Bound(g.tCost);
    Be4Bound(g.pCost);
    BeValueOfBeBytes(g.mCost, 4);
    BeValueOfBeBytes(g.tCost, 4);
    BeValueOfBeBytes(g.pCost, 4);
    assert b[3..7] == U32ToBe(g.mCost) && b[7..11] == U32ToBe(g.tCost) && b[11..15] == U32ToBe(g.pCost);
  }

  /** An accepted header is the one the writer makes. */
  lemma HeaderIsCanonical(b: bytes)
    ensures FromHeader(b).Ok? ==> Header(FromHeader(b).value) == b[..HEADER_SIZE]
  {
    if FromHeader(b).Ok? {
      BeBytesOfBeValue(b[3..7]);
      BeBytesOfBeValue(b[7..11]);
      BeBytesOfBeValue(b[11..15]);
    }
  }

  /** `to_argon2`. */
  predicate Supported(c: Primitives, g: Config) {
    g.algorithm <= 2 && (g.version == 16 || g.version == 19) && c.paramsFit(g.mCost, g.tCost, g.pCost)
  }

  /** Which headers are accepted, and where each parameter stands: at most 256 MiB of memory, 16 passes and 4 lanes. */
  lemma HeaderLimits(b: bytes)
    ensures FromHeader(b).Ok? <==>
              |b| >= 15 && b[0] == 1 && BeValue(b[3..7]) <= 262_144 && BeValue(b[7..11]) <= 16 && BeValue(b[11..15]) <= 4
    ensures FromHeader(b).Ok? ==>
              var g := FromHeader(b).value;
              && g.algorithm == b[1] && g.version == b[2] && g.mCost == BeValue(b[3..7]) && g.tCost == BeValue(b[7..11])
              && g.pCost == BeValue(b[11..15])
  {
    hide BeValue;
  }

  /** The two presets: 19 MiB and 4 MiB, two passes, one lane, Argon2id version 0x13. */
  lemma Presets(c: Primitives)
    ensures Header(STRONG) == [1, 2, 19, 0, 0, 76, 0, 0, 0, 0, 2, 0, 0, 0, 1]
    ensures Header(WEAK) == [1, 2, 19, 0, 0, 16, 0, 0, 0, 0, 2, 0, 0, 0, 1]
    ensures (Supported(c, STRONG) <==> c.paramsFit(19_456, 2, 1)) && (Supported(c, WEAK) <==> c.paramsFit(4_096, 2, 1))
  {
    PresetNumbers();
    hide U32ToBe;
  }

  lemma PresetNumbers()
    ensures U32ToBe(19_456) == [0, 0, 76, 0] && U32ToBe(4_096) == [0, 0, 16, 0]
    ensures U32ToBe(2) == [0, 0, 0, 2] && U32ToBe(1) == [0, 0, 0, 1]
  {
    hide U32ToBe;
    SmallBe(0, 0, 76, 0);
    SmallBe(0, 0, 16, 0);
    SmallBe(0, 0, 0, 2);
    SmallBe(0, 0, 0, 1);
  }

  lemma SmallBe(x: byte, y: byte, z: byte, t: byte)
    ensures U32ToBe(0x100_0000 * x + 0x1_0000 * y + 0x100 * z + t) == [x, y, z, t]
  {
    var n := 0x100_0000 * x + 0x1_0000 * y + 0x100 * z + t;
    assert n % 256 == t && n / 256 == 0x1_0000 * x + 0x100 * y + z;
    assert n / 256 % 256 == z && n / 256 / 256 == 0x100 * x + y;
    assert n / 256 / 256 % 256 == y && n / 256 / 256 / 256 == x;
    Be4Bound(n);
    assert BeBytes(n, 4) == BeBytes(n / 256, 3) + [t];
    assert BeBytes(n / 256, 3) == BeBytes(n / 256 / 256, 2) + [z];
    assert BeBytes(n / 256 / 256, 2) == BeBytes(x, 1) + [y];
  }

  // ---------------------------------------------------------------------------------------------
  // Encryption

  /** The random values one encryption draws. */
  datatype Randoms = Randoms(fileKey: Key, wrapNonces: seq<Nonce>, bodyNonce: Nonce)

  function WrappedKey(c: Primitives, wrapKey: Key, nonce: Nonce, fileKey: Key): bytes {
    nonce + c.seal(wrapKey, nonce, fileKey)
  }

  /** The slots of the first n recipients. */
  function Slots(c: Primitives, keys: seq<Key>, r: Randoms): bytes
    requires |keys| <= |r.wrapNonces|
  {
    if keys == [] then []
    else
      var n := |keys| - 1;
      Slots(c, keys[..n], r) + WrappedKey(c, keys[n], r.wrapNonces[n], r.fileKey)
  }

  ghost predicate DerivesAll(c: Primitives, g: Config, passwords: seq<bytes>, keys: seq<Key>) {
    |keys| == |passwords| && forall i :: 0 <= i < |passwords| ==> c.derive(g, passwords[i]) == Some(keys[i])
  }

  function Ciphertext(c: Primitives, g: Config, plaintext: bytes, keys: seq<Key>, r: Randoms): bytes
    requires 0 < |keys| <= |r.wrapNonces| && |keys| <= MAX_RECIPIENTS
  {
    Header(g) + [|keys|] + Slots(c, keys, r) + r.bodyNonce + c.seal(r.fileKey, r.bodyNonce, plaintext)
  }

  method Encrypt(c: Primitives, g: Config, plaintext: bytes, passwords: seq<bytes>, r: Randoms)
    returns (out: Result<bytes>, ghost keys: seq<Key>)
    requires |r.wrapNonces| == |passwords|
    ensures out.Ok? <==> 0 < |passwords| <= 32 && Supported(c, g)
                         && forall i :: 0 <= i < |passwords| ==> c.derive(g, passwords[i]).Some?
    ensures out.Ok? ==> DerivesAll(c, g, passwords, keys) && out.value == Ciphertext(c, g, plaintext, keys, r)
  {
    keys := [];
    if passwords == [] || |passwords| > MAX_RECIPIENTS || !Supported(c, g) {
      return Err, keys;
    }
    var buffer := Header(g);
    buffer := buffer + [|passwords|];
    ghost var head := buffer;
    for i := 0 to |passwords|
      invariant |keys| == i && forall j :: 0 <= j < i ==> c.derive(g, passwords[j]) == Some(keys[j])
      invariant buffer == head + Slots(c, keys, r)
    {
      var wrapKey := c.derive(g, passwords[i]);
      if wrapKey == None {
        return Err, keys;
      }
      assert (keys + [wrapKey.value])[..i] == keys;
      keys := keys + [wrapKey.value];
      buffer := buffer + (r.wrapNonces[i] + c.seal(wrapKey.value, r.wrapNonces[i], r.fileKey));
    }
    buffer := buffer + r.bodyNonce;
    buffer := buffer + c.seal(r.fileKey, r.bodyNonce, plaintext);
    out := Ok(buffer);
  }

  // ---------------------------------------------------------------------------------------------
  // Decryption of arbitrary bytes

  /** Where the body starts, when the ciphertext is long enough for its recipient count. */
  function BodyStart(b: bytes): Option<nat> {
    if |b| <= HEADER_SIZE then None
    else
      var n := b[HEADER_SIZE];
      var end := HEADER_SIZE + 1 + n * 60;
      if n == 0 || n > MAX_RECIPIENTS || |b| < end + NONCE_SIZE + TAG_SIZE then None else Some(end)
  }

  function SlotNonce(b: bytes, i: nat): Nonce
    requires HEADER_SIZE + 1 + (i + 1) * 60 <= |b|
  {
    var start := HEADER_SIZE + 1 + i * 60;
    b[start..start + NONCE_SIZE]
  }

  function SlotKey(b: bytes, i: nat): bytes
    requires HEADER_SIZE + 1 + (i + 1) * 60 <= |b|
  {
    var start := HEADER_SIZE + 1 + i * 60;
    b[start + NONCE_SIZE..start + SLOT_SIZE]
  }

  /** What the first slot that opens under a key holds, of the slots from i on. */
  function FirstOpened(c: Primitives, b: bytes, wrapKey: Key, i: nat, n: nat): Option<bytes>
    requires i <= n && HEADER_SIZE + 1 + n * 60 <= |b|
    decreases n - i
  {
    if i == n then None
    else
      var found := c.open(wrapKey, SlotNonce(b, i), SlotKey(b, i));
      if found.Some? then found else FirstOpened(c, b, wrapKey, i + 1, n)
  }

  function OpenBody(c: Primitives, b: bytes, fileKey: Option<bytes>, start: nat): Result<bytes>
    requires start + NONCE_SIZE <= |b|
  {
    if fileKey == None || |fileKey.value| != 32 then Err
    else
      match c.open(fileKey.value, b[start..start + NONCE_SIZE], b[start + NONCE_SIZE..])
      case None => Err
      case Some(p) => Ok(p)
  }

  function Decrypted(c: Primitives, b: bytes, password: bytes): Result<bytes> {
    var g := FromHeader(b);
    if g == Err || !Supported(c, g.value) || BodyStart(b) == None || c.derive(g.value, password) == None then Err
    else
      var wrapKey := c.derive(g.value, password).value;
      OpenBody(c, b, FirstOpened(c, b, wrapKey, 0, b[HEADER_SIZE]), BodyStart(b).value)
  }

  /** No precondition on the bytes: every slice below is proved to be in range. */
  method Decrypt(c: Primitives, b: bytes, password: bytes) returns (r: Result<bytes>)
    ensures r == Decrypted(c, b, password)
  {
    var g := FromHeader(b);
    if g == Err || !Supported(c, g.value) {
      return Err;
    }
    var pos := HEADER_SIZE;
    if |b| <= pos {
      return Err;
    }
    var n := b[pos];
    pos := pos + 1;
    if n == 0 || n > MAX_RECIPIENTS {
      return Err;
    }
    var end := pos + n * 60;
    if |b| < end + NONCE_SIZE + TAG_SIZE {
      return Err;
    }
    var wrapKey := c.derive(g.value, password);
    if wrapKey == None {
      return Err;
    }
    var fileKey: Option<bytes> := None;
    var i := 0;
    while i < n
      invariant i <= n && fileKey == None
      invariant FirstOpened(c, b, wrapKey.value, i, n) == FirstOpened(c, b, wrapKey.value, 0, n)
    {
      var slot := pos + i * 60;
      var found := c.open(wrapKey.value, b[slot..slot + NONCE_SIZE], b[slot + NONCE_SIZE..slot + SLOT_SIZE]);
      if found.Some? {
        fileKey := found;
        break;
      }
      i := i + 1;
    }
    if fileKey == None || |fileKey.value| != 32 {
      return Err;
    }
    var body := c.open(fileKey.value, b[end..end + NONCE_SIZE], b[end + NONCE_SIZE..]);
    r := if body == None then Err else Ok(body.value);
  }

  // ---------------------------------------------------------------------------------------------
  // Encrypting, then decrypting

  lemma {:induction false} SlotsLayout(c: Primitives, keys: seq<Key>, r: Randoms)
    requires Sound(c) && |keys| <= |r.wrapNonces|
    ensures |Slots(c, keys, r)| == 60 * |keys|
    ensures forall i :: 0 <= i < |keys| ==>
              Slots(c, keys, r)[60 * i..60 * i + 60] == WrappedKey(c, keys[i], r.wrapNonces[i], r.fileKey)
  {
    if keys != [] {
      var n := |keys| - 1;
      var before, last := Slots(c, keys[..n], r), WrappedKey(c, keys[n], r.wrapNonces[n], r.fileKey);
      SlotsLayout(c, keys[..n], r);
      assert |last| == 60;
      forall i | 0 <= i < |keys|
        ensures (before + last)[60 * i..60 * i + 60] == WrappedKey(c, keys[i], r.wrapNonces[i], r.fileKey)
      {
        if i < n {
          assert (before + last)[60 * i..60 * i + 60] == before[60 * i..60 * i + 60];
        } else {
          assert (before + last)[60 * n..60 * n + 60] == last;
        }
      }
    }
  }

  /** The parts of a ciphertext sit where the reader looks for them. */
  lemma CiphertextLayout(c: Primitives, g: Config, plaintext: bytes, keys: seq<Key>, r: Randoms)
    requires Sound(c) && 0 < |keys| <= |r.wrapNonces| && |keys| <= MAX_RECIPIENTS
    ensures var b, n := Ciphertext(c, g, plaintext, keys, r), |keys|;
            && |b| == 15 + 1 + 60 * n + 12 + |plaintext| + 16
            && b[HEADER_SIZE] == n && BodyStart(b) == Some(16 + 60 * n)
            && b[16 + 60 * n..16 + 60 * n + NONCE_SIZE] == r.bodyNonce
            && b[16 + 60 * n + NONCE_SIZE..] == c.seal(r.fileKey, r.bodyNonce, plaintext)
            && forall i :: 0 <= i < n ==>
                 SlotNonce(b, i) == r.wrapNonces[i]
                 && SlotKey(b, i) == c.seal(keys[i], r.wrapNonces[i], r.fileKey)
  {
    hide Header, Slots;
    var b, n := Ciphertext(c, g, plaintext, keys, r), |keys|;
    SlotsLayout(c, keys, r);
    assert b[16..16 + 60 * n] == Slots(c, keys, r);
    forall i | 0 <= i < n
      ensures SlotNonce(b, i) == r.wrapNonces[i] && SlotKey(b, i) == c.seal(keys[i], r.wrapNonces[i], r.fileKey)
    {
      SlotInside(b, Slots(c, keys, r), i);
      var w := WrappedKey(c, keys[i], r.wrapNonces[i], r.fileKey);
      assert w[..12] == r.wrapNonces[i] && w[12..60] == c.seal(keys[i], r.wrapNonces[i], r.fileKey);
    }
  }

  lemma SlotInside(b: bytes, slots: bytes, i: nat)
    requires 16 + |slots| <= |b| && b[16..16 + |slots|] == slots && 60 * (i + 1) <= |slots|
    ensures SlotNonce(b, i) == slots[60 * i..60 * i + 60][..12]
    ensures SlotKey(b, i) == slots[60 * i..60 * i + 60][12..60]
  {
    SliceOfSlice(b, 16, 16 + |slots|, 60 * i, 60 * i + 60);
    SliceOfSlice(b, 16 + 60 * i, 16 + 60 * i + 60, 0, 12);
    SliceOfSlice(b, 16 + 60 * i, 16 + 60 * i + 60, 12, 60);
  }

  lemma SliceOfSlice(b: bytes, from: nat, to: nat, lo: nat, hi: nat)
    requires from <= to <= |b| && lo <= hi <= to - from
    ensures b[from..to][lo..hi] == b[from + lo..from + hi]
  {
    var x, y := b[from..to][lo..hi], b[from + lo..from + hi];
    forall k | 0 <= k < hi - lo ensures x[k] == y[k] {
      assert x[k] == b[from..to][lo + k];
    }
  }

  /**
   * Under this key no slot sealed with another key opens.  Demanded of the slots of one ciphertext only:
   * over all keys and texts it would be unsatisfiable, for there are more of them than ciphertexts.
   */
  ghost predicate OpensOnlyItsOwn(c: Primitives, wrapKey: Key, keys: seq<Key>, r: Randoms) {
    |keys| <= |r.wrapNonces|
    && forall i :: 0 <= i < |keys| && keys[i] != wrapKey ==>
         c.open(wrapKey, r.wrapNonces[i], c.seal(keys[i], r.wrapNonces[i], r.fileKey)) == None
  }

  /** The search finds the file key if the key is among the recipients' keys, and nothing otherwise. */
  lemma {:induction false} SearchSlots(c: Primitives, g: Config, plaintext: bytes, keys: seq<Key>, r: Randoms, k: Key, i: nat)
    requires Sound(c) && 0 < |keys| <= |r.wrapNonces| && |keys| <= MAX_RECIPIENTS && i <= |keys|
    requires OpensOnlyItsOwn(c, k, keys, r)
    ensures |Ciphertext(c, g, plaintext, keys, r)| >= 16 + 60 * |keys|
    ensures FirstOpened(c, Ciphertext(c, g, plaintext, keys, r), k, i, |keys|)
         == if k in keys[i..] then Some(r.fileKey) else None
    decreases |keys| - i
  {
    CiphertextLayout(c, g, plaintext, keys, r);
    if i < |keys| {
      SearchSlots(c, g, plaintext, keys, r, k, i + 1);
      assert keys[i..] == [keys[i]] + keys[i + 1..];
      if keys[i] == k {
        assert c.open(k, r.wrapNonces[i], c.seal(k, r.wrapNonces[i], r.fileKey)) == Some(r.fileKey);
      }
    }
  }

  /** A password is accepted exactly when it derives one of the recipients' keys, and then yields the plaintext. */
  lemma EncryptThenDecrypt(c: Primitives, g: Config, plaintext: bytes, keys: seq<Key>, r: Randoms, password: bytes)
    requires Sound(c) && Supported(c, g) && WithinLimits(g)
    requires 0 < |keys| <= |r.wrapNonces| && |keys| <= MAX_RECIPIENTS
    requires c.derive(g, password).Some? ==> OpensOnlyItsOwn(c, c.derive(g, password).value, keys, r)
    ensures Decrypted(c, Ciphertext(c, g, plaintext, keys, r), password)
         == if c.derive(g, password).Some? && c.derive(g, password).value in keys then Ok(plaintext) else Err
  {
    hide FirstOpened, FromHeader, Header, Slots;
    var b := Ciphertext(c, g, plaintext, keys, r);
    CiphertextLayout(c, g, plaintext, keys, r);
    var rest := [|keys|] + Slots(c, keys, r) + r.bodyNonce + c.seal(r.fileKey, r.bodyNonce, plaintext);
    assert b == Header(g) + rest;
    HeaderRoundTrip(g, rest);
    if c.derive(g, password).Some? {
      SearchSlots(c, g, plaintext, keys, r, c.derive(g, password).value, 0);
      assert keys[0..] == keys;
    }
  }

  /** Every listed password opens what Encrypt returned; one that derives no recipient's key does not. */
  lemma ListedPasswordsDecrypt(c: Primitives, g: Config, plaintext: bytes, passwords: seq<bytes>, keys: seq<Key>,
                               r: Randoms, password: bytes)
    requires Sound(c) && Supported(c, g) && (g == STRONG || g == WEAK)
    requires 0 < |passwords| <= 32 && |passwords| == |r.wrapNonces| && DerivesAll(c, g, passwords, keys)
    requires c.derive(g, password).Some? ==> OpensOnlyItsOwn(c, c.derive(g, password).value, keys, r)
    ensures var b := Ciphertext(c, g, plaintext, keys, r);
            && |b| == 15 + 1 + 60 * |passwords| + 12 + |plaintext| + 16
            && (password in passwords ==> Decrypted(c, b, password) == Ok(plaintext))
            && (c.derive(g, password) == None || c.derive(g, password).value !in keys ==> Decrypted(c, b, password) == Err)
  {
    hide Decrypted, Ciphertext;
    CiphertextLayout(c, g, plaintext, keys, r);
    EncryptThenDecrypt(c, g, plaintext, keys, r, password);
    if password in passwords {
      var i :| 0 <= i < |passwords| && passwords[i] == password;
      assert keys[i] in keys;
    }
  }
  // ---------------------------------------------------------------------------------------------
  // Decrypting what somebody else may have changed

  /** What every accepted ciphertext looks like. */
  lemma OnlyTheseDecrypt(c: Primitives, b: bytes, password: bytes)
    requires Decrypted(c, b, password).Ok?
    ensures |b| >= 16 && 1 <= b[15] <= 32 && 60 * (b[15] as int) <= |b| - 16 - 12 - 16
    ensures b[0] == 1 && b[1] in {0, 1, 2} && b[2] in {16, 19}
    ensures BeValue(b[3..7]) <= 262_144 && BeValue(b[7..11]) <= 16 && BeValue(b[11..15]) <= 4
    ensures c.paramsFit(U32FromBe(b[3..7]), U32FromBe(b[7..11]), U32FromBe(b[11..15]))
  {
    hide FirstOpened, OpenBody;
    HeaderLimits(b);
    hide BeValue;
  }

  /** A slot that wraps the file key for this key. */
  ghost predicate IsOwnSlot(c: Primitives, keys: seq<Key>, r: Randoms, k: Key, slot: bytes) {
    exists j :: 0 <= j < |keys| && j < |r.wrapNonces| && keys[j] == k && slot == WrappedKey(c, k, r.wrapNonces[j], r.fileKey)
  }

  /** Nobody can seal anything else with this key or the file key: all that opens is what this encryption sealed. */
  ghost predicate NothingIsForged(c: Primitives, keys: seq<Key>, r: Randoms, plaintext: bytes, k: Key) {
    && (forall n: Nonce, x: bytes :: c.open(k, n, x).Some? ==> IsOwnSlot(c, keys, r, k, n + x))
    && (forall n: Nonce, x: bytes :: c.open(r.fileKey, n, x).Some? ==>
          n == r.bodyNonce && x == c.seal(r.fileKey, r.bodyNonce, plaintext))
  }

  /** One of the slots of some bytes is a slot for this key. */
  ghost predicate HoldsOwnSlot(c: Primitives, keys: seq<Key>, r: Randoms, k: Key, b: bytes, from: nat, n: nat)
    requires HEADER_SIZE + 1 + n * 60 <= |b|
  {
    exists i :: from <= i < n && IsOwnSlot(c, keys, r, k, SlotNonce(b, i) + SlotKey(b, i))
  }

  lemma OwnSlotOpens(c: Primitives, keys: seq<Key>, r: Randoms, k: Key, n: Nonce, x: bytes)
    requires Sound(c) && IsOwnSlot(c, keys, r, k, n + x)
    ensures c.open(k, n, x) == Some(r.fileKey)
  {
    var j :| 0 <= j < |keys| && j < |r.wrapNonces| && keys[j] == k && n + x == WrappedKey(c, k, r.wrapNonces[j], r.fileKey);
    assert n == (n + x)[..12] == r.wrapNonces[j] && x == (n + x)[12..] == c.seal(k, r.wrapNonces[j], r.fileKey);
  }

  lemma {:induction false} SearchAnySlots(c: Primitives, keys: seq<Key>, r: Randoms, plaintext: bytes, k: Key, b: bytes, i: nat, n: nat)
    requires Sound(c) && NothingIsForged(c, keys, r, plaintext, k) && i <= n && HEADER_SIZE + 1 + n * 60 <= |b|
    ensures FirstOpened(c, b, k, i, n) == if HoldsOwnSlot(c, keys, r, k, b, i, n) then Some(r.fileKey) else None
    decreases n - i
  {
    hide SlotNonce, SlotKey, IsOwnSlot, Sound;
    if i < n {
      SearchAnySlots(c, keys, r, plaintext, k, b, i + 1, n);
      if IsOwnSlot(c, keys, r, k, SlotNonce(b, i) + SlotKey(b, i)) {
        OwnSlotOpens(c, keys, r, k, SlotNonce(b, i), SlotKey(b, i));
      }
    }
  }

  /**
   * Decrypting any bytes that start with the header of an encryption, under one of its passwords: the plaintext comes
   * out if and only if some slot is one for this password and everything after the slots is unchanged, and otherwise
   * nothing does.  So no other text is ever produced, while the slots of other recipients are not protected.
   */
  lemma TamperingIsCaughtExactly(c: Primitives, g: Config, plaintext: bytes, keys: seq<Key>, r: Randoms, password: bytes, b: bytes)
    requires Sound(c) && Supported(c, g) && WithinLimits(g) && c.derive(g, password).Some?
    requires NothingIsForged(c, keys, r, plaintext, c.derive(g, password).value)
    requires |b| >= 15 && b[..15] == Header(g)
    ensures var (k, body) := (c.derive(g, password).value, r.bodyNonce + c.seal(r.fileKey, r.bodyNonce, plaintext));
            Decrypted(c, b, password)
              == if BodyStart(b).Some? && HoldsOwnSlot(c, keys, r, k, b, 0, b[15]) && b[BodyStart(b).value..] == body
                 then Ok(plaintext) else Err
  {
    hide FirstOpened, Header, WithinLimits, FromHeader, SlotNonce, SlotKey, IsOwnSlot;
    var k := c.derive(g, password).value;
    assert b == Header(g) + b[15..];
    HeaderRoundTrip(g, b[15..]);
    if BodyStart(b).Some? {
      var start := BodyStart(b).value;
      SearchAnySlots(c, keys, r, plaintext, k, b, 0, b[15]);
      BodyIsSplit(b, start, r.bodyNonce, c.seal(r.fileKey, r.bodyNonce, plaintext));
    }
  }

  lemma BodyIsSplit(b: bytes, start: nat, nonce: Nonce, sealed: bytes)
    requires start + 12 <= |b|
    ensures b[start..] == nonce + sealed <==> b[start..start + 12] == nonce && b[start + 12..] == sealed
  {
    var rest := b[start..];
    assert b[start..start + 12] == rest[..12] && b[start + 12..] == rest[12..];
    assert rest == rest[..12] + rest[12..];
    assert (nonce + sealed)[..12] == nonce && (nonce + sealed)[12..] == sealed;
  }
  lemma OverwrittenSlot(b: bytes, slot: bytes, i: nat, j: nat)
    requires |slot| == 60 && i != j && 16 + 60 * (i + 1) <= |b| && 16 + 60 * (j + 1) <= |b|
    ensures var c := b[..16 + 60 * j] + slot + b[16 + 60 * j + 60..];
            |c| == |b| && c[..16] == b[..16] && SlotNonce(c, i) == SlotNonce(b, i) && SlotKey(c, i) == SlotKey(b, i)
            && forall k :: 16 + 60 * (j + 1) <= k <= |b| ==> c[k..] == b[k..]
  {
    var c := b[..16 + 60 * j] + slot + b[16 + 60 * j + 60..];
    assert forall k :: 0 <= k < |b| && !(16 + 60 * j <= k < 16 + 60 * j + 60) ==> c[k] == b[k];
  }

  /** The input on which tampering goes unnoticed: any bytes in the slot of another recipient. */
  lemma OtherSlotsMayChange(c: Primitives, g: Config, plaintext: bytes, keys: seq<Key>, r: Randoms, password: bytes,
                            i: nat, j: nat, slot: bytes)
    requires Sound(c) && Supported(c, g) && WithinLimits(g) && c.derive(g, password).Some?
    requires 0 < |keys| <= |r.wrapNonces| && |keys| <= MAX_RECIPIENTS && i < |keys| && j < |keys| && i != j && |slot| == 60
    requires keys[i] == c.derive(g, password).value && NothingIsForged(c, keys, r, plaintext, keys[i])
    ensures var b := Ciphertext(c, g, plaintext, keys, r);
            |b| >= 16 + 60 * |keys|
            && Decrypted(c, b[..16 + 60 * j] + slot + b[16 + 60 * j + 60..], password) == Ok(plaintext)
  {
    hide Header, Slots, FirstOpened, Decrypted, NothingIsForged, Supported;
    var b := Ciphertext(c, g, plaintext, keys, r);
    CiphertextLayout(c, g, plaintext, keys, r);
    assert b[..15] == Header(g);
    OverwrittenSlot(b, slot, i, j);
    var changed := b[..16 + 60 * j] + slot + b[16 + 60 * j + 60..];
    assert changed[..15] == changed[..16][..15] && changed[15] == changed[..16][15] && b[15] == b[..16][15];
    BodyIsSplit(b, 16 + 60 * |keys|, r.bodyNonce, c.seal(r.fileKey, r.bodyNonce, plaintext));
    assert IsOwnSlot(c, keys, r, keys[i], SlotNonce(changed, i) + SlotKey(changed, i));
    TamperingIsCaughtExactly(c, g, plaintext, keys, r, password, changed);
  }
}
