/** Post feedback in the disk store: composite keys, strongest wins, prefix scans, deletion (disk_environment_store.rs). */
module FeedbackStore {
  import opened Results
  import opened Bytes
  import opened Ids
  import opened KeyOrder

  const KEY_SIZE := 65
  const VALUE_SIZE := 9

  datatype Feedback = Feedback(postId: Id, feedbackType: byte, salt: Salt, pow: byte)

  /** The part of a key that remains once the location is fixed. */
  datatype Slot = Slot(postId: Id, feedbackType: byte)

  datatype Proof = Proof(salt: Salt, pow: byte)

  // ---------------------------------------------------------------------------------------------
  // Codecs

  function EncodeKey(location: Id, slot: Slot): (k: bytes)
    ensures |k| == KEY_SIZE
  {
    location + slot.postId + [slot.feedbackType]
  }

  function KeyLocation(k: bytes): Id
    requires |k| == KEY_SIZE
  {
    k[0..32]
  }

  function KeySlot(k: bytes): Slot
    requires |k| == KEY_SIZE
  {
    Slot(k[32..64], k[64])
  }

  function EncodeValue(p: Proof): (v: bytes)
    ensures |v| == VALUE_SIZE
  {
    p.salt + [p.pow]
  }

  function DecodeValue(v: bytes): Proof
    requires |v| == VALUE_SIZE
  {
    Proof(v[0..8], v[8])
  }

  /** Keys and values are in one-to-one correspondence with what they encode. */
  lemma KeyCodecIsBijective(location: Id, slot: Slot, k: bytes)
    requires |k| == KEY_SIZE
    ensures KeyLocation(EncodeKey(location, slot)) == location && KeySlot(EncodeKey(location, slot)) == slot
    ensures EncodeKey(KeyLocation(k), KeySlot(k)) == k
  {
  }

  lemma ValueCodecIsBijective(p: Proof, v: bytes)
    requires |v| == VALUE_SIZE
    ensures DecodeValue(EncodeValue(p)) == p && EncodeValue(DecodeValue(v)) == v
  {
  }

  /** Where the fields are stored: location, post and type in a key, salt and pow in a value. */
  lemma StoredLayout(location: Id, slot: Slot, p: Proof)
    ensures var k := EncodeKey(location, slot);
            |k| == 65 && k[0..32] == location && k[32..64] == slot.postId && k[64] == slot.feedbackType
    ensures var v := EncodeValue(p); |v| == 9 && v[0..8] == p.salt && v[8] == p.pow
  {
  }

  predicate HasPrefix(p: bytes, k: bytes) {
    |p| <= |k| && k[..|p|] == p
  }

  /** A composite key starts with a location exactly when it is one of that location's keys. */
  lemma PrefixIsLocation(location: Id, k: bytes)
    requires |k| == KEY_SIZE
    ensures HasPrefix(location, k) <==> KeyLocation(k) == location
  {
  }

  // ---------------------------------------------------------------------------------------------
  // The feedback list sent to clients: version, post id, type, salt, pow for each entry

  const ENTRY_SIZE := 43

  function EncodeEntry(f: Feedback): (e: bytes)
    ensures |e| == ENTRY_SIZE
  {
    [1] + f.postId + [f.feedbackType] + f.salt + [f.pow]
  }

  /** An entry is 43 bytes: version 1, post, type, salt, pow. */
  lemma EntryLayout(f: Feedback)
    ensures var e := EncodeEntry(f);
            |e| == 43 && e[0] == 1 && e[1..33] == f.postId && e[33] == f.feedbackType && e[34..42] == f.salt && e[42] == f.pow
  {
  }

  function EncodeEntries(fs: seq<Feedback>): bytes {
    if fs == [] then [] else EncodeEntries(fs[..|fs| - 1]) + EncodeEntry(fs[|fs| - 1])
  }

  /** Reads entry after entry; a short entry or another version is an error. */
  function DecodeEntries(b: bytes): Result<seq<Feedback>> {
    if b == [] then Ok([])
    else if |b| < ENTRY_SIZE || b[0] != 1 then Err
    else
      var rest := DecodeEntries(b[43..]);
      if rest == Err then Err else Ok([Feedback(b[1..33], b[33], b[34..42], b[42])] + rest.value)
  }

  lemma DecodeFirst(f: Feedback, rest: bytes)
    ensures DecodeEntries(EncodeEntry(f) + rest)
         == if DecodeEntries(rest) == Err then Err else Ok([f] + DecodeEntries(rest).value)
  {
    hide DecodeEntries;
    var b := EncodeEntry(f) + rest;
    assert b[1..33] == f.postId && b[33] == f.feedbackType && b[34..42] == f.salt && b[42] == f.pow && b[43..] == rest;
    DecodeUnfolds(b);
  }

  lemma DecodeUnfolds(b: bytes)
    requires |b| >= ENTRY_SIZE && b[0] == 1
    ensures DecodeEntries(b) == if DecodeEntries(b[43..]) == Err then Err
                                else Ok([Feedback(b[1..33], b[33], b[34..42], b[42])] + DecodeEntries(b[43..]).value)
  {
  }

  lemma {:induction false} EntriesRoundTrip(fs: seq<Feedback>, rest: bytes, tail: seq<Feedback>)
    requires DecodeEntries(rest) == Ok(tail)
    ensures DecodeEntries(EncodeEntries(fs) + rest) == Ok(fs + tail)
  {
    if fs == [] {
      assert [] + rest == rest && fs + tail == tail;
    } else {
      var n := |fs| - 1;
      DecodeFirst(fs[n], rest);
      EntriesRoundTrip(fs[..n], EncodeEntry(fs[n]) + rest, [fs[n]] + tail);
      assert EncodeEntries(fs[..n]) + (EncodeEntry(fs[n]) + rest) == EncodeEntries(fs) + rest;
      assert fs[..n] + ([fs[n]] + tail) == fs + tail;
    }
  }

  lemma EntryOfBytes(b: bytes)
    requires |b| == ENTRY_SIZE && b[0] == 1
    ensures EncodeEntry(Feedback(b[1..33], b[33], b[34..42], b[42])) == b
  {
  }

  lemma {:induction false} EntriesFromFront(f: Feedback, fs: seq<Feedback>)
    ensures EncodeEntries([f] + fs) == EncodeEntry(f) + EncodeEntries(fs)
  {
    hide EncodeEntry;
    if fs == [] {
      assert [f] + fs == [f] && [f][..0] == [];
      assert EncodeEntries([f]) == EncodeEntries([]) + EncodeEntry(f);
    } else {
      var n := |fs| - 1;
      EntriesFromFront(f, fs[..n]);
      assert ([f] + fs)[..|[f] + fs| - 1] == [f] + fs[..n];
    }
  }

  lemma {:induction false} DecodedIsEncoded(b: bytes)
    ensures DecodeEntries(b).Ok? ==> b == EncodeEntries(DecodeEntries(b).value)
    decreases |b|
  {
    hide EncodeEntry;
    if DecodeEntries(b).Ok? && b != [] {
      var f := Feedback(b[1..33], b[33], b[34..42], b[42]);
      DecodeUnfolds(b);
      DecodedIsEncoded(b[43..]);
      EntryOfBytes(b[..43]);
      assert b[..43][1..33] == b[1..33] && b[..43][34..42] == b[34..42];
      assert b == b[..43] + b[43..];
      EntriesFromFront(f, DecodeEntries(b[43..]).value);
    }
  }

  /** Exactly the encodings are decoded: no other bytes are accepted. */
  lemma {:induction false} EntriesAreExact(b: bytes, fs: seq<Feedback>)
    ensures DecodeEntries(b) == Ok(fs) <==> b == EncodeEntries(fs)
  {
    DecodedIsEncoded(b);
    EntriesRoundTrip(fs, [], []);
    assert EncodeEntries(fs) + [] == EncodeEntries(fs) && fs + [] == fs;
  }

  // ---------------------------------------------------------------------------------------------
  // The store

  function Lookup(keyspace: map<bytes, bytes>, location: Id, slot: Slot): Option<Proof>
    requires forall k :: k in keyspace ==> |k| == KEY_SIZE && |keyspace[k]| == VALUE_SIZE
  {
    var k := EncodeKey(location, slot);
    if k in keyspace then Some(DecodeValue(keyspace[k])) else None
  }

  /** Strictly more work replaces what is stored. */
  function Stronger(stored: Option<Proof>, p: Proof): Proof {
    if stored.Some? && stored.value.pow >= p.pow then stored.value else p
  }

  class Store {
    var feedback: map<bytes, bytes>
    var metadata: map<Id, bytes>
    var lastAccessed: map<Id, bytes>
    var files: map<Id, bytes>

    /** Every feedback key is a composite key, every value a salt and a pow, and every time eight bytes. */
    ghost predicate Valid()
      reads this
    {
      && (forall k :: k in feedback ==> |k| == KEY_SIZE && |feedback[k]| == VALUE_SIZE)
      && (forall k :: k in lastAccessed ==> |lastAccessed[k]| == 8)
    }

    constructor ()
      ensures Valid() && feedback == map[] && metadata == map[] && lastAccessed == map[] && files == map[]
    {
      feedback, metadata, lastAccessed, files := map[], map[], map[], map[];
    }

    method PutIfMorePowerful(location: Id, f: Feedback)
      requires Valid()
      modifies this`feedback
      ensures Valid()
      ensures feedback == PutFeedback(old(feedback), location, f)
    {
      var k := EncodeKey(location, Slot(f.postId, f.feedbackType));
      if k in feedback {
        var stored := DecodeValue(feedback[k]);
        if stored.pow >= f.pow {
          ValueCodecIsBijective(stored, feedback[k]);
          assert feedback == feedback[k := feedback[k]];
          return;
        }
      }
      feedback := feedback[k := EncodeValue(Proof(f.salt, f.pow))];
    }

    /** The keys with a prefix, in key order. */
    method PrefixKeys(prefix: bytes) returns (keys: seq<bytes>)
      ensures IsScan(feedback, prefix, keys)
    {
      keys := SortKeys(set k | k in feedback && HasPrefix(prefix, k));
      forall k ensures k in keys <==> k in feedback && HasPrefix(prefix, k) {
        assert k in keys <==> k in KeySet(keys);
      }
    }

    /** The encoded entries of the location, in the order of the one scan there is. */
    method FeedbackBytes(location: Id) returns (b: bytes)
      requires Valid()
      ensures exists scan :: IsScan(feedback, location, scan)
      ensures forall scan :: IsScan(feedback, location, scan) ==> b == EncodeEntries(EntriesOf(feedback, scan))
    {
      hide EncodeEntry, Ascending, HasPrefix;
      var keys := PrefixKeys(location);
      b := [];
      for i := 0 to |keys|
        invariant forall k :: k in keys ==> k in feedback
        invariant b == EncodeEntries(EntriesOf(feedback, keys[..i]))
      {
        EncodeNext(feedback, keys, i);
        var value := DecodeValue(feedback[keys[i]]);
        var slot := KeySlot(keys[i]);
        b := b + EncodeEntry(Feedback(slot.postId, slot.feedbackType, value.salt, value.pow));
      }
      assert keys[..|keys|] == keys;
      forall scan | IsScan(feedback, location, scan) ensures scan == keys {
        ScanIsUnique(feedback, location, scan, keys);
      }
    }

    method DeletePostBundles(locations: seq<Id>)
      requires Valid()
      modifies this
      ensures Valid()
      ensures feedback == DeleteFeedback(old(feedback), locations)
      ensures metadata == old(metadata) - IdSet(locations)
      ensures lastAccessed == old(lastAccessed) - IdSet(locations)
      ensures files == old(files) - IdSet(locations)
    {
      hide IdSet, DeleteFeedback;
      var doomed := KeysOf(locations);
      RemovedIsDeleted(feedback, locations, doomed);
      NoneGone(metadata, locations);
      NoneGone(lastAccessed, locations);
      NoneGone(files, locations);
      for i := 0 to |locations|
        invariant feedback == old(feedback)
        invariant metadata == old(metadata) - IdSet(locations[..i])
        invariant lastAccessed == old(lastAccessed) - IdSet(locations[..i])
        invariant files == old(files) - IdSet(locations[..i])
      {
        OneMoreGone(old(metadata), locations, i);
        OneMoreGone(old(lastAccessed), locations, i);
        OneMoreGone(old(files), locations, i);
        metadata := metadata - {locations[i]};
        lastAccessed := lastAccessed - {locations[i]};
        files := files - {locations[i]};
      }
      assert locations[..|locations|] == locations;
      feedback := feedback - doomed;
    }

    /** The feedback keys of some locations, collected by prefix scans. */
    method KeysOf(locations: seq<Id>) returns (doomed: set<bytes>)
      requires Valid()
      ensures forall k :: k in doomed <==> k in feedback && KeyLocation(k) in locations
    {
      doomed := {};
      for i := 0 to |locations|
        invariant forall k :: k in doomed <==> k in feedback && KeyLocation(k) in locations[..i]
      {
        var keys := PrefixKeys(locations[i]);
        forall k | k in feedback ensures HasPrefix(locations[i], k) <==> KeyLocation(k) == locations[i] {
          PrefixIsLocation(locations[i], k);
        }
        assert locations[..i + 1] == locations[..i] + [locations[i]];
        doomed := doomed + KeySet(keys);
      }
      assert locations[..|locations|] == locations;
    }

    /** One batch of last-accessed times. */
    method FlushLastAccessed(times: map<Id, i64>)
      requires Valid()
      modifies this`lastAccessed
      ensures Valid()
      ensures lastAccessed == old(lastAccessed) + map k | k in times :: I64ToBe(times[k])
      ensures forall k :: k in times ==> I64FromBe(lastAccessed[k]) == times[k]
    {
      forall k | k in times ensures I64FromBe(I64ToBe(times[k])) == times[k] {
        I64CodecIsBijective(times[k], I64ToBe(times[k]));
      }
      lastAccessed := lastAccessed + map k | k in times :: I64ToBe(times[k]);
    }

    /** Last-accessed entries from a pivot to the end, then from the start to the pivot; the pivot is the id's text. */
    method LastAccessedEntries(location: Id) returns (entries: seq<(Id, bytes)>)
      requires Valid()
      ensures forall k, v :: (k, v) in entries <==> k in lastAccessed && lastAccessed[k] == v
      ensures forall i, j :: 0 <= i < j < |entries| ==> entries[i].0 != entries[j].0
      ensures exists m | 0 <= m <= |entries| :: IsRotation(KeysOfEntries(entries), m, ShortText(location))
      ensures forall e :: e in entries ==> |e.1| == 8
    {
      hide ShortText, IsRotation;
      var keys, m := LastAccessedKeys(ShortText(location));
      entries := EntriesAt(lastAccessed, keys);
      EntriesAtKeys(lastAccessed, keys);
      assert IsRotation(KeysOfEntries(entries), m, ShortText(location));
    }

    method LastAccessedKeys(pivot: bytes) returns (keys: seq<bytes>, m: nat)
      ensures KeySet(keys) == lastAccessed.Keys && IsRotation(keys, m, pivot)
      ensures forall i, j :: 0 <= i < j < |keys| ==> keys[i] != keys[j]
    {
      var upper := SortKeys(set k | k in lastAccessed && !LexLess(k, pivot));
      var lower := SortKeys(set k | k in lastAccessed && LexLess(k, pivot));
      keys, m := upper + lower, |upper|;
      assert keys[..m] == upper && keys[m..] == lower;
      assert KeySet(keys) == KeySet(upper) + KeySet(lower);
      forall k | k in upper ensures !LexLess(k, pivot) {
        assert k in KeySet(upper);
      }
      forall k | k in lower ensures LexLess(k, pivot) {
        assert k in KeySet(lower);
      }
      RotationIsDistinct(upper, lower, pivot);
    }
  }

  function EntriesAt(keyspace: map<Id, bytes>, keys: seq<bytes>): (entries: seq<(Id, bytes)>)
    requires KeySet(keys) <= keyspace.Keys
    ensures |entries| == |keys| && forall i :: 0 <= i < |keys| ==> entries[i].0 == keys[i] && keys[i] in keyspace.Keys
  {
    if keys == [] then []
    else
      assert keys[0] in KeySet(keys);
      var k: Id := keys[0];
      assert KeySet(keys[1..]) <= KeySet(keys);
      [(k, keyspace[k])] + EntriesAt(keyspace, keys[1..])
  }

  lemma {:induction false} EntriesAtHold(keyspace: map<Id, bytes>, keys: seq<bytes>, e: (Id, bytes))
    requires KeySet(keys) <= keyspace.Keys
    ensures e in EntriesAt(keyspace, keys) <==> e.0 in keys && keyspace[e.0] == e.1
  {
    if keys != [] {
      assert keys[0] in KeySet(keys);
      assert KeySet(keys[1..]) <= KeySet(keys);
      EntriesAtHold(keyspace, keys[1..], e);
      assert keys == [keys[0]] + keys[1..];
    }
  }

  lemma EntriesAtKeys(keyspace: map<Id, bytes>, keys: seq<bytes>)
    requires KeySet(keys) == keyspace.Keys
    ensures KeysOfEntries(EntriesAt(keyspace, keys)) == keys
    ensures forall k, v :: (k, v) in EntriesAt(keyspace, keys) <==> k in keyspace && keyspace[k] == v
  {
    forall k: Id, v: bytes ensures (k, v) in EntriesAt(keyspace, keys) <==> k in keyspace && keyspace[k] == v {
      assert k in keys <==> k in KeySet(keys);
      if k in keyspace {
        EntriesAtHold(keyspace, keys, (k, v));
      }
    }
  }

  function KeysOfEntries(entries: seq<(Id, bytes)>): (keys: seq<bytes>)
    ensures |keys| == |entries|
  {
    seq(|entries|, i requires 0 <= i < |entries| => entries[i].0)
  }

  /** The keys not below the pivot in ascending order, then those below it in ascending order. */
  ghost predicate IsRotation(keys: seq<bytes>, m: nat, pivot: bytes) {
    && m <= |keys| && Ascending(keys[..m]) && Ascending(keys[m..])
    && (forall k :: k in keys[..m] ==> !LexLess(k, pivot))
    && (forall k :: k in keys[m..] ==> LexLess(k, pivot))
  }

  /** The character codes of an id's short text: eight hexadecimal digits and three dots. */
  function ShortText(location: Id): bytes {
    var s := Hex(location[..4]) + "...";
    seq(|s|, i requires 0 <= i < |s| => s[i] as int % 256)
  }

  /** The text is the lower-case hexadecimal form of the id's first four bytes, and three dots. */
  lemma ShortTextLayout(location: Id)
    ensures var t := ShortText(location);
            && |t| == 11 && t[8..] == [46, 46, 46]
            && forall i :: 0 <= i < 4 ==> t[2 * i] == HexDigit(location[i] / 16) as int
                                          && t[2 * i + 1] == HexDigit(location[i] % 16) as int
  {
    var s := Hex(location[..4]) + "...";
    forall i | 0 <= i < 4
      ensures s[2 * i] == HexDigit(location[i] / 16) && s[2 * i + 1] == HexDigit(location[i] % 16)
    {
      HexLayout(location[..4], i);
    }
    forall d: nat | d < 16 ensures HexDigit(d) as int < 256 {
      HexDigits(d, '0');
    }
  }

  lemma RotationIsDistinct(upper: seq<bytes>, lower: seq<bytes>, pivot: bytes)
    requires Ascending(upper) && Ascending(lower)
    requires (forall k :: k in upper ==> !LexLess(k, pivot)) && forall k :: k in lower ==> LexLess(k, pivot)
    ensures forall i, j :: 0 <= i < j < |upper + lower| ==> (upper + lower)[i] != (upper + lower)[j]
  {
    var keys := upper + lower;
    AscendingAreDistinct(upper);
    AscendingAreDistinct(lower);
    forall i, j | 0 <= i < |upper| <= j < |keys| ensures keys[i] != keys[j] {
      assert keys[i] in upper && keys[j] in lower;
    }
    assert forall i, j :: 0 <= i < j < |keys| && |upper| <= i ==>
        keys[i] == lower[i - |upper|] && keys[j] == lower[j - |upper|];
  }

  lemma AscendingAreDistinct(keys: seq<bytes>)
    requires Ascending(keys)
    ensures forall i, j :: 0 <= i < j < |keys| ==> keys[i] != keys[j]
  {
    forall i, j | 0 <= i < j < |keys| ensures keys[i] != keys[j] {
      LexTotal(keys[i], keys[j]);
    }
  }

  function IdSet(ids: seq<Id>): set<Id> {
    set i | i in ids
  }

  lemma RemovedIsDeleted(keyspace: map<bytes, bytes>, locations: seq<Id>, doomed: set<bytes>)
    requires Sized(keyspace) && forall k :: k in doomed <==> k in keyspace && KeyLocation(k) in locations
    ensures keyspace - doomed == DeleteFeedback(keyspace, locations)
  {
  }

  lemma OneMoreGone(m: map<Id, bytes>, ids: seq<Id>, i: nat)
    requires i < |ids|
    ensures m - IdSet(ids[..i]) - {ids[i]} == m - IdSet(ids[..i + 1])
  {
    assert ids[..i + 1] == ids[..i] + [ids[i]];
  }

  lemma NoneGone(m: map<Id, bytes>, ids: seq<Id>)
    ensures m - IdSet(ids[..0]) == m
  {
  }

  ghost predicate Sized(keyspace: map<bytes, bytes>) {
    forall k :: k in keyspace ==> |k| == KEY_SIZE && |keyspace[k]| == VALUE_SIZE
  }

  function PutFeedback(keyspace: map<bytes, bytes>, location: Id, f: Feedback): (r: map<bytes, bytes>)
    requires Sized(keyspace)
    ensures Sized(r)
  {
    var slot := Slot(f.postId, f.feedbackType);
    keyspace[EncodeKey(location, slot) :=
      EncodeValue(Stronger(Lookup(keyspace, location, slot), Proof(f.salt, f.pow)))]
  }

  function DeleteFeedback(keyspace: map<bytes, bytes>, locations: seq<Id>): (r: map<bytes, bytes>)
    requires Sized(keyspace)
    ensures Sized(r)
  {
    map k | k in keyspace && KeyLocation(k) !in locations :: keyspace[k]
  }

  /** The result of a prefix scan: exactly the keys with the prefix, in key order. */
  ghost predicate IsScan(keyspace: map<bytes, bytes>, prefix: bytes, keys: seq<bytes>) {
    Ascending(keys) && forall k :: k in keys <==> k in keyspace && HasPrefix(prefix, k)
  }

  lemma ScanIsUnique(keyspace: map<bytes, bytes>, prefix: bytes, a: seq<bytes>, b: seq<bytes>)
    requires IsScan(keyspace, prefix, a) && IsScan(keyspace, prefix, b)
    ensures a == b
  {
    forall k ensures k in KeySet(a) <==> k in KeySet(b) {
      assert k in a <==> k in b;
    }
    AscendingIsUnique(a, b);
  }

  function EntryOf(keyspace: map<bytes, bytes>, k: bytes): Feedback
    requires Sized(keyspace) && k in keyspace
  {
    var (slot, p) := (KeySlot(k), DecodeValue(keyspace[k]));
    Feedback(slot.postId, slot.feedbackType, p.salt, p.pow)
  }

  function EntriesOf(keyspace: map<bytes, bytes>, keys: seq<bytes>): (fs: seq<Feedback>)
    requires Sized(keyspace) && forall k :: k in keys ==> k in keyspace
    ensures |fs| == |keys|
    ensures forall i :: 0 <= i < |keys| ==> fs[i] == EntryOf(keyspace, keys[i])
  {
    seq(|keys|, i requires 0 <= i < |keys| => EntryOf(keyspace, keys[i]))
  }

  lemma EncodeNext(keyspace: map<bytes, bytes>, keys: seq<bytes>, i: nat)
    requires Sized(keyspace) && i < |keys| && forall k :: k in keys ==> k in keyspace
    ensures EncodeEntries(EntriesOf(keyspace, keys[..i + 1]))
         == EncodeEntries(EntriesOf(keyspace, keys[..i])) + EncodeEntry(EntryOf(keyspace, keys[i]))
  {
    assert keys[..i + 1][..i] == keys[..i];
    assert EntriesOf(keyspace, keys[..i + 1]) == EntriesOf(keyspace, keys[..i]) + [EntryOf(keyspace, keys[i])];
  }

  // ---------------------------------------------------------------------------------------------
  // Runs of puts and deletions

  datatype Event = Put(location: Id, f: Feedback) | Delete(locations: seq<Id>)

  function RunStore(events: seq<Event>): (r: map<bytes, bytes>)
    ensures Sized(r)
  {
    if events == [] then map[]
    else
      var before := RunStore(events[..|events| - 1]);
      match events[|events| - 1]
      case Put(location, f) => PutFeedback(before, location, f)
      case Delete(locations) => DeleteFeedback(before, locations)
  }

  /** The proofs put for one slot of one location since that location was last deleted, oldest first. */
  function PutsSince(events: seq<Event>, location: Id, slot: Slot): seq<Proof> {
    if events == [] then []
    else
      var before := PutsSince(events[..|events| - 1], location, slot);
      match events[|events| - 1]
      case Put(l, f) =>
        if l == location && slot == Slot(f.postId, f.feedbackType) then before + [Proof(f.salt, f.pow)] else before
      case Delete(locations) => if location in locations then [] else before
  }

  /** The earliest of the strongest proofs of a list. */
  ghost predicate IsStrongest(p: Proof, puts: seq<Proof>) {
    && (forall i :: 0 <= i < |puts| ==> puts[i].pow <= p.pow)
    && exists i :: 0 <= i < |puts| && puts[i] == p && forall j :: 0 <= j < i ==> puts[j].pow < p.pow
  }

  lemma EncodeKeyInjective(l: Id, s: Slot, m: Id, t: Slot)
    ensures EncodeKey(l, s) == EncodeKey(m, t) <==> l == m && s == t
  {
    KeyCodecIsBijective(l, s, EncodeKey(l, s));
    KeyCodecIsBijective(m, t, EncodeKey(m, t));
  }

  /** After any run a slot holds the strongest proof put since its location was last deleted, and nothing if none was. */
  lemma {:induction false} StoreHoldsStrongest(events: seq<Event>, location: Id, slot: Slot)
    ensures var puts := PutsSince(events, location, slot);
            match Lookup(RunStore(events), location, slot)
            case None => puts == []
            case Some(p) => IsStrongest(p, puts)
  {
    if events != [] {
      var n := |events| - 1;
      var before, puts := RunStore(events[..n]), PutsSince(events[..n], location, slot);
      StoreHoldsStrongest(events[..n], location, slot);
      match events[n] {
        case Put(l, f) =>
          var s, p := Slot(f.postId, f.feedbackType), Proof(f.salt, f.pow);
          EncodeKeyInjective(l, s, location, slot);
          if l == location && s == slot {
            var q := Stronger(Lookup(before, location, slot), p);
            ValueCodecIsBijective(q, EncodeValue(q));
            AppendStrongest(Lookup(before, location, slot), puts, p);
          }
        case Delete(ls) => KeyCodecIsBijective(location, slot, EncodeKey(location, slot));
      }
    }
  }

  lemma AppendStrongest(stored: Option<Proof>, puts: seq<Proof>, p: Proof)
    requires match stored case None => puts == [] case Some(q) => IsStrongest(q, puts)
    ensures IsStrongest(Stronger(stored, p), puts + [p])
  {
    var all := puts + [p];
    if stored.Some? && stored.value.pow >= p.pow {
      var i :| 0 <= i < |puts| && puts[i] == stored.value && forall j :: 0 <= j < i ==> puts[j].pow < stored.value.pow;
      assert all[i] == stored.value;
    } else {
      assert all[|puts|] == p;
    }
  }

  function Pows(puts: seq<Proof>): set<byte> {
    set p | p in puts :: p.pow
  }

  /** The stored pow depends only on which pows were put: not on their order, nor on repetition. */
  lemma {:induction false} PowIgnoresOrder(a: seq<Event>, b: seq<Event>, location: Id, slot: Slot)
    requires Pows(PutsSince(a, location, slot)) == Pows(PutsSince(b, location, slot))
    ensures var x, y := Lookup(RunStore(a), location, slot), Lookup(RunStore(b), location, slot);
            x.Some? == y.Some? && (x.Some? ==> x.value.pow == y.value.pow)
  {
    StoreHoldsStrongest(a, location, slot);
    StoreHoldsStrongest(b, location, slot);
    var p, q := PutsSince(a, location, slot), PutsSince(b, location, slot);
    var x, y := Lookup(RunStore(a), location, slot), Lookup(RunStore(b), location, slot);
    if x.Some? {
      assert x.value.pow in Pows(p);
      PowIsBounded(q, y, x.value.pow);
    }
    if y.Some? {
      assert y.value.pow in Pows(q);
      PowIsBounded(p, x, y.value.pow);
    }
  }

  lemma PowIsBounded(puts: seq<Proof>, stored: Option<Proof>, pow: byte)
    requires match stored case None => puts == [] case Some(p) => IsStrongest(p, puts)
    requires pow in Pows(puts)
    ensures stored.Some? && pow <= stored.value.pow
  {
    var p :| p in puts && p.pow == pow;
  }

  /** A scan of one location lists its slots and their stored proofs, all of them and nothing else. */
  lemma ScanListsLocation(keyspace: map<bytes, bytes>, location: Id, keys: seq<bytes>, f: Feedback)
    requires Sized(keyspace) && IsScan(keyspace, location, keys)
    ensures f in EntriesOf(keyspace, keys)
       <==> Lookup(keyspace, location, Slot(f.postId, f.feedbackType)) == Some(Proof(f.salt, f.pow))
  {
    var slot := Slot(f.postId, f.feedbackType);
    var k := EncodeKey(location, slot);
    KeyCodecIsBijective(location, slot, k);
    PrefixIsLocation(location, k);
    if Lookup(keyspace, location, slot) == Some(Proof(f.salt, f.pow)) {
      assert k in keys;
      var i :| 0 <= i < |keys| && keys[i] == k;
      assert EntriesOf(keyspace, keys)[i] == f;
    }
    if f in EntriesOf(keyspace, keys) {
      var i :| 0 <= i < |keys| && EntriesOf(keyspace, keys)[i] == f;
      assert keys[i] in keys;
      PrefixIsLocation(location, keys[i]);
      KeyCodecIsBijective(location, slot, keys[i]);
    }
  }

  /** The bytes sent for a location decode to its entries. */
  lemma ListingRoundTrips(keyspace: map<bytes, bytes>, location: Id, keys: seq<bytes>)
    requires Sized(keyspace) && IsScan(keyspace, location, keys)
    ensures DecodeEntries(EncodeEntries(EntriesOf(keyspace, keys))) == Ok(EntriesOf(keyspace, keys))
  {
    var fs := EntriesOf(keyspace, keys);
    EntriesRoundTrip(fs, [], []);
    assert EncodeEntries(fs) + [] == EncodeEntries(fs) && fs + [] == fs;
  }

  /** Deleting removes exactly the named locations' entries. */
  lemma DeleteIsExact(keyspace: map<bytes, bytes>, locations: seq<Id>, location: Id, slot: Slot)
    requires Sized(keyspace)
    ensures Lookup(DeleteFeedback(keyspace, locations), location, slot)
         == if location in locations then None else Lookup(keyspace, location, slot)
  {
    KeyCodecIsBijective(location, slot, EncodeKey(location, slot));
  }
}
