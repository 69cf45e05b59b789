/** The part of a Redis server that the session scripts touch: hashes with a
    time to live, and the sorted set DLY_CK. Each function is one command. */
module RedisDb {
  import opened Options

  datatype Expiry = Never | At(stamp: int)

  datatype Hash = Hash(fields: map<string, string>, expiry: Expiry)

  type Hashes = map<string, Hash>

  /** `delays` is the sorted set DLY_CK: member to score. */
  datatype Db = Db(now: int, hashes: Hashes, delays: map<string, int>)

  /** Redis drops a hash together with its last field. */
  ghost predicate NoEmptyHash(hashes: Hashes) {
    forall k :: k in hashes ==> hashes[k].fields != map[]
  }

  function HGet(hashes: Hashes, key: string, field: string): Option<string> {
    if key in hashes && field in hashes[key].fields then Some(hashes[key].fields[field]) else None
  }

  function HSet(hashes: Hashes, key: string, field: string, value: string): Hashes {
    if key in hashes
    then hashes[key := hashes[key].(fields := hashes[key].fields[field := value])]
    else hashes[key := Hash(map[field := value], Never)]
  }

  function HSetNX(hashes: Hashes, key: string, field: string, value: string): Hashes {
    if HGet(hashes, key, field).Some? then hashes else HSet(hashes, key, field, value)
  }

  /** `fields` after writing the pairs in order: a later pair wins. */
  function Put(fields: map<string, string>, pairs: seq<(string, string)>): map<string, string> {
    if pairs == [] then fields
    else Put(fields, pairs[..|pairs| - 1])[pairs[|pairs| - 1].0 := pairs[|pairs| - 1].1]
  }

  function HMSet(hashes: Hashes, key: string, pairs: seq<(string, string)>): Hashes {
    if key in hashes
    then hashes[key := hashes[key].(fields := Put(hashes[key].fields, pairs))]
    else hashes[key := Hash(Put(map[], pairs), Never)]
  }

  function HDel(hashes: Hashes, key: string, field: string): Hashes {
    if key !in hashes then hashes
    else
      var left := hashes[key].fields - {field};
      if left == map[] then hashes - {key} else hashes[key := hashes[key].(fields := left)]
  }

  /** TTL: -2 for a missing key, -1 for a key without expiry. */
  function Ttl(db: Db, key: string): int {
    if key !in db.hashes then -2
    else match db.hashes[key].expiry
      case Never => -1
      case At(stamp) => stamp - db.now
  }

  function Expire(db: Db, key: string, seconds: int): Db {
    if key !in db.hashes then db
    else db.(hashes := db.hashes[key := db.hashes[key].(expiry := At(db.now + seconds))])
  }

  /** Members of DLY_CK with a score of at most `stamp`. */
  function Due(db: Db, stamp: int): set<string> {
    set m | m in db.delays && db.delays[m] <= stamp
  }

  predicate Expired(h: Hash, now: int) {
    h.expiry.At? && h.expiry.stamp <= now
  }

  /** Time passes and every key whose time to live has run out disappears. */
  function Elapse(db: Db, seconds: nat): Db {
    var now := db.now + seconds;
    db.(now := now, hashes := map k | k in db.hashes && !Expired(db.hashes[k], now) :: db.hashes[k])
  }

  // ----- facts about the commands -----

  /** Hashes without an empty one are determined by their fields and expiries. */
  lemma SameHashes(h: Hashes, h': Hashes)
    requires NoEmptyHash(h) && NoEmptyHash(h')
    requires forall k, f :: HGet(h, k, f) == HGet(h', k, f)
    requires forall k :: k in h && k in h' ==> h[k].expiry == h'[k].expiry
    ensures h == h'
  {
    forall k
      ensures k in h ==> k in h' && h[k].fields == h'[k].fields
      ensures k in h' ==> k in h
    {
      if k in h { SameHash(h, h', k); }
      if k in h' { SameHash(h', h, k); }
    }
  }

  lemma SameHash(h: Hashes, h': Hashes, k: string)
    requires k in h && h[k].fields != map[]
    requires forall f :: HGet(h, k, f) == HGet(h', k, f)
    ensures k in h' && h[k].fields == h'[k].fields
  {
    var f :| f in h[k].fields;
    assert HGet(h', k, f).Some?;
    forall f
      ensures f in h[k].fields <==> f in h'[k].fields
      ensures f in h[k].fields ==> h[k].fields[f] == h'[k].fields[f]
    {
      assert HGet(h, k, f) == HGet(h', k, f);
    }
  }

  lemma PutEffect(fields: map<string, string>, pairs: seq<(string, string)>, f: string)
    ensures f in Put(fields, pairs) <==> f in fields || exists i :: 0 <= i < |pairs| && pairs[i].0 == f
    ensures (forall i :: 0 <= i < |pairs| ==> pairs[i].0 != f) && f in fields ==> Put(fields, pairs)[f] == fields[f]
  {
  }

  lemma HDelEffect(h: Hashes, key: string, field: string)
    requires NoEmptyHash(h)
    ensures NoEmptyHash(HDel(h, key, field))
    ensures forall k, f :: HGet(HDel(h, key, field), k, f) == if k == key && f == field then None else HGet(h, k, f)
    ensures forall k :: k in HDel(h, key, field) ==> k in h && HDel(h, key, field)[k].expiry == h[k].expiry
    ensures forall k :: k != key && k in h ==> k in HDel(h, key, field)
  {
    if key in h {
      var left := h[key].fields - {field};
      assert forall f :: f in left <==> f in h[key].fields && f != field;
    }
  }
}
