/**
 * The key-value store of `src/bin/server.rs`: a fixed number of shards, each a map from key to
 * bytes, with a key kept in the shard its hash selects. Each shard's mutex is gone (a shard is a
 * plain map) and `DefaultHasher` is a deterministic function the store is built with.
 */
module Server {
  import opened Common

  /** One shard: `HashMap<String, Vec<u8>>`. */
  type Shard = map<string, seq<Byte>>

  /** `n` empty shards. */
  function EmptyShards(n: nat): seq<Shard>
  {
    seq(n, _ => map[])
  }

  /** The shard `calculate_hash(key) % n` selects; it exists whenever there is a shard at all. */
  function ShardOf(hash: string -> U64, key: string, n: nat): (j: nat)
    requires n > 0
    ensures j < n
  {
    hash(key) % n
  }

  /** Every stored key sits in the shard its hash selects. */
  ghost predicate Placed(shards: seq<Shard>, hash: string -> U64)
  {
    forall j, k :: 0 <= j < |shards| && k in shards[j] ==> ShardOf(hash, k, |shards|) == j
  }

  /** `insert(key, val)`: the selected shard maps `key` to `val`; the shard count stays. */
  function InsertInto(shards: seq<Shard>, hash: string -> U64, key: string, val: seq<Byte>): (r: seq<Shard>)
    requires |shards| > 0
    ensures |r| == |shards|
    ensures Placed(shards, hash) ==> Placed(r, hash)
  {
    var j := ShardOf(hash, key, |shards|);
    shards[j := shards[j][key := val]]
  }

  /** `get(key)`: a copy of what the selected shard holds for `key`, if anything. */
  function LookupIn(shards: seq<Shard>, hash: string -> U64, key: string): (r: Option<seq<Byte>>)
    requires |shards| > 0
    ensures r.Some? ==> Stored(shards, key, r.value)
    ensures r.None? ==> key !in shards[ShardOf(hash, key, |shards|)]
  {
    var j := ShardOf(hash, key, |shards|);
    if key in shards[j] then Some(shards[j][key]) else None
  }

  /** `val` is stored for `key` in some shard, whichever it is. */
  ghost predicate Stored(shards: seq<Shard>, key: string, val: seq<Byte>)
  {
    exists j :: 0 <= j < |shards| && key in shards[j] && shards[j][key] == val
  }

  /** Inserts applied in order, the first one first. */
  function InsertAll(shards: seq<Shard>, hash: string -> U64, ops: seq<(string, seq<Byte>)>): (r: seq<Shard>)
    requires |shards| > 0
    ensures |r| == |shards|
  {
    if ops == [] then shards
    else
      var last := ops[|ops| - 1];
      InsertInto(InsertAll(shards, hash, ops[..|ops| - 1]), hash, last.0, last.1)
  }

  /** The value of the last insert of `key` among `ops`, if there is one. */
  function LastWrite(ops: seq<(string, seq<Byte>)>, key: string): Option<seq<Byte>>
  {
    if ops == [] then None
    else if ops[|ops| - 1].0 == key then Some(ops[|ops| - 1].1)
    else LastWrite(ops[..|ops| - 1], key)
  }

  // ---------------------------------------------------------------------------
  // The store as the server holds it

  class ShardedDict {
    /** `db`, one map per shard. */
    var shards: seq<Shard>
    /** `calculate_hash`. */
    const hash: string -> U64

    /** Every key is in the shard `insert` and `get` look in. */
    ghost predicate Valid()
      reads this
    {
      Placed(shards, hash)
    }

    /** `ShardedDict { db }`: the store over the given shards, valid when they place every key. */
    constructor (db: seq<Shard>, hash: string -> U64)
      ensures shards == db && this.hash == hash
      ensures Placed(db, hash) ==> Valid()
    {
      shards := db;
      this.hash := hash;
    }

    /** `insert`: overwrite `key` in its shard. Panics (here: may not be called) with no shard. */
    method Insert(key: string, val: seq<Byte>)
      requires |shards| > 0
      modifies this`shards
      ensures shards == InsertInto(old(shards), hash, key, val)
      ensures old(Valid()) ==> Valid()
    {
      var j := hash(key) % |shards|;
      shards := shards[j := shards[j][key := val]];
    }

    /** `get`: look `key` up in its shard; the store is not changed. */
    method Get(key: string) returns (r: Option<seq<Byte>>)
      requires |shards| > 0
      ensures r == LookupIn(shards, hash, key)
    {
      var shard := shards[hash(key) % |shards|];
      if key in shard {
        r := Some(shard[key]);
      } else {
        r := None;
      }
    }
  }

  /** `new_sharded_db(n)`: `n` empty shards pushed one by one. */
  method NewShardedDb(numShards: nat, hash: string -> U64) returns (d: ShardedDict)
    ensures fresh(d) && d.hash == hash && d.Valid()
    ensures |d.shards| == numShards && forall j :: 0 <= j < numShards ==> d.shards[j] == map[]
  {
    var db: seq<Shard> := [];
    for i := 0 to numShards
      invariant db == EmptyShards(i)
    {
      db := db + [map[]];
    }
    d := new ShardedDict(db, hash);
  }

  // ---------------------------------------------------------------------------
  // Properties

  /** A fresh store holds nothing, and trivially keeps every key in its shard. */
  lemma EmptyStore(n: nat, hash: string -> U64, key: string)
    requires n > 0
    ensures LookupIn(EmptyShards(n), hash, key) == None
    ensures Placed(EmptyShards(n), hash)
  {
  }

  /** `get` after `insert`: the inserted key gives the new value, every other key what it gave before. */
  lemma LookupAfterInsert(shards: seq<Shard>, hash: string -> U64, key: string, val: seq<Byte>, other: string)
    requires |shards| > 0
    ensures LookupIn(InsertInto(shards, hash, key, val), hash, other) ==
      if other == key then Some(val) else LookupIn(shards, hash, other)
  {
  }

  /** `insert` changes one shard, and in it only the entry for `key`. */
  lemma InsertFrame(shards: seq<Shard>, hash: string -> U64, key: string, val: seq<Byte>)
    requires |shards| > 0
    ensures var r := InsertInto(shards, hash, key, val);
      var j0 := ShardOf(hash, key, |shards|);
      && (forall j :: 0 <= j < |shards| && j != j0 ==> r[j] == shards[j])
      && key in r[j0] && r[j0][key] == val
      && (forall k :: k != key ==> (k in r[j0] <==> k in shards[j0]))
      && (forall k :: k != key && k in shards[j0] ==> r[j0][k] == shards[j0][k])
  {
  }

  /** With every key in its shard, `get` sees exactly what is stored anywhere in the store. */
  lemma LookupFindsStored(shards: seq<Shard>, hash: string -> U64, key: string, val: seq<Byte>)
    requires |shards| > 0 && Placed(shards, hash)
    ensures LookupIn(shards, hash, key) == Some(val) <==> Stored(shards, key, val)
  {
    var j0 := ShardOf(hash, key, |shards|);
    if Stored(shards, key, val) {
      var j :| 0 <= j < |shards| && key in shards[j] && shards[j][key] == val;
      assert j == j0;
    }
    if LookupIn(shards, hash, key) == Some(val) {
      assert key in shards[j0] && shards[j0][key] == val;
    }
  }

  /** The last insert of a key wins; a key never inserted keeps what it had. */
  lemma {:induction false} LookupAfterInserts(shards: seq<Shard>, hash: string -> U64, ops: seq<(string, seq<Byte>)>, key: string)
    requires |shards| > 0
    ensures LookupIn(InsertAll(shards, hash, ops), hash, key) ==
      if LastWrite(ops, key).Some? then LastWrite(ops, key) else LookupIn(shards, hash, key)
  {
    if ops != [] {
      var last := ops[|ops| - 1];
      LookupAfterInserts(shards, hash, ops[..|ops| - 1], key);
      LookupAfterInsert(InsertAll(shards, hash, ops[..|ops| - 1]), hash, last.0, last.1, key);
    }
  }

  /** On a fresh store, `get` returns the value of the last insert of the key, or None. */
  lemma FreshStoreHistory(n: nat, hash: string -> U64, ops: seq<(string, seq<Byte>)>, key: string)
    requires n > 0
    ensures LookupIn(InsertAll(EmptyShards(n), hash, ops), hash, key) == LastWrite(ops, key)
  {
    LookupAfterInserts(EmptyShards(n), hash, ops, key);
  }
}
