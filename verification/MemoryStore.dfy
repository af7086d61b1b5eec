/**
The versioned memory store: rows committed in serializable transactions, and a cache in front of
them.  Compression and sealing are parameters; setting a cache entry may evict any entry.  Agent
ids and record ids are strings of one key space, since the cache is asked by agent id and filled by
record id.
*/
module MemoryStore {
  import opened Optional

  type Key = nat
  type Bytes = seq<bv8>

  /** The compressor and the authenticated cipher, under the adapter's key. */
  datatype Codec = Codec(
    nonceSize: nat,
    compress: Bytes -> Bytes,
    decompress: Bytes -> Option<Bytes>,
    seal: (Bytes, Bytes) -> Bytes,
    open: (Bytes, Bytes) -> Option<Bytes>)

  ghost predicate Inverse(c: Codec) {
    && (forall b :: c.decompress(c.compress(b)) == Some(b))
    && (forall n, b :: |n| == c.nonceSize ==> c.open(n, c.seal(n, b)) == Some(b))
  }

  datatype Record = Record(id: Key, agent: Key, version: int, data: Bytes, createdAt: int)

  /** Rows in commit order, the cache, and for each row the bytes it was made from. */
  datatype World = World(rows: seq<Record>, cache: map<Key, Record>, stored: seq<Bytes>)

  // ---------------------------------------------------------------- encoding

  function Encode(c: Codec, nonce: Bytes, plain: Bytes): Bytes {
    nonce + c.seal(nonce, c.compress(plain))
  }

  /** Lines 202 to 222: split off the nonce, open, decompress; each step may fail. */
  function Decode(c: Codec, data: Bytes): Option<Bytes> {
    if |data| < c.nonceSize then None
    else
      match c.open(data[..c.nonceSize], data[c.nonceSize..])
      case None => None
      case Some(compressed) => c.decompress(compressed)
  }

  lemma DecodeEncode(c: Codec, nonce: Bytes, plain: Bytes)
    requires Inverse(c) && |nonce| == c.nonceSize
    ensures Decode(c, Encode(c, nonce, plain)) == Some(plain)
  {
    var data := Encode(c, nonce, plain);
    assert data[..c.nonceSize] == nonce && data[c.nonceSize..] == c.seal(nonce, c.compress(plain));
  }

  // ---------------------------------------------------------------- versions

  function Count(rows: seq<Record>, agent: Key): nat {
    if rows == [] then 0
    else Count(rows[..|rows| - 1], agent) + if rows[|rows| - 1].agent == agent then 1 else 0
  }

  /** `COALESCE(MAX(version), 0)` over the agent's rows. */
  function MaxVersion(rows: seq<Record>, agent: Key): int {
    if rows == [] then 0
    else
      var before, last := MaxVersion(rows[..|rows| - 1], agent), rows[|rows| - 1];
      if last.agent != agent then before
      else if Count(rows[..|rows| - 1], agent) == 0 || last.version > before then last.version
      else before
  }

  /** The agent's rows carry 1, 2, 3 and so on in commit order. */
  ghost predicate Versioned(rows: seq<Record>) {
    forall i :: 0 <= i < |rows| ==> rows[i].version == Count(rows[..i], rows[i].agent) + 1
  }

  lemma VersionedPrefix(rows: seq<Record>, n: nat)
    requires Versioned(rows) && n <= |rows|
    ensures Versioned(rows[..n])
  {
    forall i | 0 <= i < n ensures rows[..n][i].version == Count(rows[..n][..i], rows[..n][i].agent) + 1 {
      assert rows[..n][..i] == rows[..i];
    }
  }

  lemma {:induction false} MaxIsCount(rows: seq<Record>, agent: Key)
    requires Versioned(rows)
    ensures MaxVersion(rows, agent) == Count(rows, agent)
  {
    if rows != [] {
      VersionedPrefix(rows, |rows| - 1);
      MaxIsCount(rows[..|rows| - 1], agent);
    }
  }

  lemma {:induction false} CountGrows(rows: seq<Record>, agent: Key, i: nat, j: nat)
    requires i <= j <= |rows|
    ensures Count(rows[..i], agent) <= Count(rows[..j], agent)
    ensures i < j && rows[i].agent == agent ==> Count(rows[..i], agent) < Count(rows[..j], agent)
    decreases j - i
  {
    if i < j {
      assert rows[..j][..j - 1] == rows[..j - 1];
      CountGrows(rows, agent, i, j - 1);
    }
  }

  /** No two rows share agent and version. */
  lemma VersionsDistinct(rows: seq<Record>, i: nat, j: nat)
    requires Versioned(rows) && i < |rows| && j < |rows|
    requires rows[i].agent == rows[j].agent && rows[i].version == rows[j].version
    ensures i == j
  {
    CountGrows(rows, rows[i].agent, if i < j then i else j, if i < j then j else i);
  }

  /** Every version from 1 to the number of the agent's rows is there. */
  lemma {:induction false} VersionPresent(rows: seq<Record>, agent: Key, v: int) returns (i: nat)
    requires Versioned(rows) && 1 <= v <= Count(rows, agent)
    ensures i < |rows| && rows[i].agent == agent && rows[i].version == v
  {
    var n := |rows| - 1;
    if rows[n].agent == agent && Count(rows[..n], agent) == v - 1 {
      i := n;
    } else {
      VersionedPrefix(rows, n);
      i := VersionPresent(rows[..n], agent, v);
    }
  }

  /** `ORDER BY created_at DESC LIMIT 1` among the rows of an agent and version. */
  function Query(rows: seq<Record>, agent: Key, version: int): Option<Record> {
    if rows == [] then None
    else
      var before, last := Query(rows[..|rows| - 1], agent, version), rows[|rows| - 1];
      if last.agent == agent && last.version == version && (before.None? || last.createdAt > before.value.createdAt)
      then Some(last) else before
  }

  lemma {:induction false} QueryAnswers(rows: seq<Record>, agent: Key, version: int)
    ensures var q := Query(rows, agent, version);
            && (q.Some? ==> q.value in rows && q.value.agent == agent && q.value.version == version)
            && (q.None? ==> forall r :: r in rows ==> r.agent != agent || r.version != version)
            && (forall r :: q.Some? && r in rows && r.agent == agent && r.version == version ==>
                              r.createdAt <= q.value.createdAt)
  {
    if rows != [] {
      QueryAnswers(rows[..|rows| - 1], agent, version);
      assert rows == rows[..|rows| - 1] + [rows[|rows| - 1]];
    }
  }

  lemma QueryFindsRow(rows: seq<Record>, i: nat)
    requires Versioned(rows) && i < |rows|
    ensures Query(rows, rows[i].agent, rows[i].version) == Some(rows[i])
  {
    QueryAnswers(rows, rows[i].agent, rows[i].version);
    var q := Query(rows, rows[i].agent, rows[i].version);
    assert rows[i] in rows;
    var j :| 0 <= j < |rows| && rows[j] == q.value;
    VersionsDistinct(rows, i, j);
  }

  // ---------------------------------------------------------------- operations

  /** Setting a cache entry may evict others, and with no room even the new one. */
  function Cached(cache: map<Key, Record>, r: Record, keep: set<Key>): map<Key, Record> {
    map k | k in cache[r.id := r] && k in keep :: cache[r.id := r][k]
  }

  predicate IdTaken(rows: seq<Record>, id: Key) {
    exists i :: 0 <= i < |rows| && rows[i].id == id
  }

  /** A committed store; the insertion fails on a duplicate primary key. */
  function Store(c: Codec, w: World, id: Key, agent: Key, nonce: Bytes, plain: Bytes, now: int, keep: set<Key>): World {
    if IdTaken(w.rows, id) then w
    else
      var r := Record(id, agent, MaxVersion(w.rows, agent) + 1, Encode(c, nonce, plain), now);
      World(w.rows + [r], Cached(w.cache, r, keep), w.stored + [plain])
  }

  /** The record that `RetrieveMemory` works on: the cache is looked up by agent id. */
  function Fetched(w: World, agent: Key, version: int): Option<Record> {
    if agent in w.cache then Some(w.cache[agent]) else Query(w.rows, agent, version)
  }

  function Retrieve(c: Codec, w: World, agent: Key, version: int): Option<Bytes> {
    match Fetched(w, agent, version)
    case None => None
    case Some(r) => Decode(c, r.data)
  }

  function AfterRetrieve(w: World, agent: Key, version: int, keep: set<Key>): World {
    if agent in w.cache || Query(w.rows, agent, version).None? then w
    else w.(cache := Cached(w.cache, Query(w.rows, agent, version).value, keep))
  }

  // ---------------------------------------------------------------- invariant

  ghost predicate Good(c: Codec, w: World) {
    && |w.stored| == |w.rows|
    && Versioned(w.rows)
    && (forall i :: 0 <= i < |w.rows| ==> Decode(c, w.rows[i].data) == Some(w.stored[i]))
    && (forall k :: k in w.cache ==> w.cache[k].id == k && w.cache[k] in w.rows)
  }

  lemma StoreGood(c: Codec, w: World, id: Key, agent: Key, nonce: Bytes, plain: Bytes, now: int, keep: set<Key>)
    requires Inverse(c) && |nonce| == c.nonceSize && Good(c, w)
    ensures Good(c, Store(c, w, id, agent, nonce, plain, now, keep))
    ensures w.rows <= Store(c, w, id, agent, nonce, plain, now, keep).rows
    ensures w.stored <= Store(c, w, id, agent, nonce, plain, now, keep).stored
  {
    hide Inverse, Encode, Decode, Versioned, MaxVersion;
    if !IdTaken(w.rows, id) {
      DecodeEncode(c, nonce, plain);
      var rows := Store(c, w, id, agent, nonce, plain, now, keep).rows;
      VersionedAppend(w.rows, rows[|w.rows|]);
      assert rows[|w.rows|] in rows;
    }
  }

  lemma VersionedAppend(rows: seq<Record>, r: Record)
    requires Versioned(rows) && r.version == MaxVersion(rows, r.agent) + 1
    ensures Versioned(rows + [r])
  {
    hide Count, MaxVersion;
    MaxIsCount(rows, r.agent);
    var all := rows + [r];
    forall i | 0 <= i < |all| ensures all[i].version == Count(all[..i], all[i].agent) + 1 {
      assert all[..i] == rows[..i];
      if i == |rows| { assert rows[..i] == rows; }
    }
  }

  lemma RetrieveGood(c: Codec, w: World, agent: Key, version: int, keep: set<Key>)
    requires Good(c, w)
    ensures Good(c, AfterRetrieve(w, agent, version, keep))
  {
    QueryAnswers(w.rows, agent, version);
    hide Decode, Versioned, Query;
  }

  // ---------------------------------------------------------------- runs

  datatype Operation =
    | Storing(id: Key, agent: Key, nonce: Bytes, plain: Bytes, now: int, keep: set<Key>)
    | Retrieving(agent: Key, version: int, keep: set<Key>)

  function Apply(c: Codec, w: World, op: Operation): World {
    match op
    case Storing(id, agent, nonce, plain, now, keep) => Store(c, w, id, agent, nonce, plain, now, keep)
    case Retrieving(agent, version, keep) => AfterRetrieve(w, agent, version, keep)
  }

  function Run(c: Codec, w: World, ops: seq<Operation>): World {
    if ops == [] then w else Apply(c, Run(c, w, ops[..|ops| - 1]), ops[|ops| - 1])
  }

  /** The nonces drawn have the cipher's size. */
  predicate Drawn(c: Codec, ops: seq<Operation>) {
    forall i :: 0 <= i < |ops| && ops[i].Storing? ==> |ops[i].nonce| == c.nonceSize
  }

  /** Runs keep the store good and never touch what is committed. */
  lemma {:induction false} RunGood(c: Codec, w: World, ops: seq<Operation>)
    requires Inverse(c) && Good(c, w) && Drawn(c, ops)
    ensures Good(c, Run(c, w, ops))
    ensures w.rows <= Run(c, w, ops).rows && w.stored <= Run(c, w, ops).stored
  {
    hide Good, Inverse, Store, AfterRetrieve;
    if ops != [] {
      var before := Run(c, w, ops[..|ops| - 1]);
      RunGood(c, w, ops[..|ops| - 1]);
      match ops[|ops| - 1] {
        case Storing(id, agent, nonce, plain, now, keep) => StoreGood(c, before, id, agent, nonce, plain, now, keep);
        case Retrieving(agent, version, keep) =>
          RetrieveGood(c, before, agent, version, keep);
          RetrieveKeepsRows(before, agent, version, keep);
      }
    }
  }

  lemma RetrieveKeepsRows(w: World, agent: Key, version: int, keep: set<Key>)
    ensures AfterRetrieve(w, agent, version, keep).rows == w.rows
    ensures AfterRetrieve(w, agent, version, keep).stored == w.stored
  {}

  /** A committed version reads back, except when the cache answers for its agent with other bytes. */
  lemma RetrieveIff(c: Codec, w: World, i: nat)
    requires Good(c, w) && i < |w.rows|
    ensures Retrieve(c, w, w.rows[i].agent, w.rows[i].version) == Some(w.stored[i]) <==>
            || w.rows[i].agent !in w.cache
            || (exists j :: 0 <= j < |w.rows| && w.rows[j] == w.cache[w.rows[i].agent] && w.stored[j] == w.stored[i])
  {
    QueryFindsRow(w.rows, i);
    hide Query, Versioned;
    var agent := w.rows[i].agent;
    if agent in w.cache {
      var j :| 0 <= j < |w.rows| && w.rows[j] == w.cache[agent];
      assert Decode(c, w.cache[agent].data) == Some(w.stored[j]);
    }
  }

  /** The bytes that a record's data stand for: nonce, sealed text, compressed text, each step without failure. */
  ghost predicate Yields(c: Codec, data: Bytes, plain: Bytes) {
    && |data| >= c.nonceSize
    && exists compressed :: && c.open(data[..c.nonceSize], data[c.nonceSize..]) == Some(compressed)
                            && c.decompress(compressed) == Some(plain)
  }

  lemma DecodeIff(c: Codec, data: Bytes, plain: Bytes)
    ensures Decode(c, data) == Some(plain) <==> Yields(c, data, plain)
  {}

  /** The record an agent and version are answered from: any cached under the agent's id, else the agent's row. */
  ghost predicate AnsweredFrom(w: World, agent: Key, version: int, r: Record) {
    if agent in w.cache then r == w.cache[agent]
    else r in w.rows && r.agent == agent && r.version == version
  }

  /** A retrieval succeeds with exactly the bytes that the answering record yields; it fails without such a record
      and when the data are too short, cannot be opened or cannot be decompressed. */
  lemma RetrieveMeans(c: Codec, w: World, agent: Key, version: int, plain: Bytes)
    requires Versioned(w.rows)
    ensures Retrieve(c, w, agent, version) == Some(plain) <==>
            exists r :: AnsweredFrom(w, agent, version, r) && Yields(c, r.data, plain)
  {
    hide Query, Versioned, Decode, Yields;
    QueryAnswers(w.rows, agent, version);
    var q := Fetched(w, agent, version);
    if q.Some? {
      assert AnsweredFrom(w, agent, version, q.value);
      DecodeIff(c, q.value.data, plain);
    }
    forall r | AnsweredFrom(w, agent, version, r) ensures q == Some(r) {
      if agent !in w.cache {
        var i :| 0 <= i < |w.rows| && w.rows[i] == r;
        QueryFindsRow(w.rows, i);
      }
    }
  }

  ghost function RowsOf(rows: seq<Record>, agent: Key): set<nat> {
    set i: nat | i < |rows| && rows[i].agent == agent
  }

  lemma RowsOfLast(rows: seq<Record>, agent: Key)
    requires rows != []
    ensures var k := |rows| - 1;
            k !in RowsOf(rows[..k], agent) &&
            RowsOf(rows, agent) == RowsOf(rows[..k], agent) + if rows[k].agent == agent then {k} else {}
  {}

  /** `Count` is the number of the agent's rows. */
  lemma {:induction false} CountIsSize(rows: seq<Record>, agent: Key)
    ensures Count(rows, agent) == |RowsOf(rows, agent)|
  {
    if rows == [] {
      assert RowsOf(rows, agent) == {};
    } else {
      RowsOfLast(rows, agent);
      hide RowsOf;
      CountIsSize(rows[..|rows| - 1], agent);
    }
  }

  /** For an agent that is not a key of the cache: exactly the versions from 1 to the number of its rows are
      answered, each with the bytes stored under it. */
  lemma AnsweredIff(c: Codec, w: World, agent: Key, version: int)
    requires Good(c, w) && agent !in w.cache
    ensures Retrieve(c, w, agent, version).Some? <==> 1 <= version <= |RowsOf(w.rows, agent)|
    ensures Retrieve(c, w, agent, version).Some? ==>
              exists i :: 0 <= i < |w.rows| && w.rows[i].agent == agent && w.rows[i].version == version &&
                          Retrieve(c, w, agent, version) == Some(w.stored[i])
  {
    hide Query, Decode, Count, RowsOf;
    CountIsSize(w.rows, agent);
    QueryAnswers(w.rows, agent, version);
    var q := Fetched(w, agent, version);
    if q.Some? {
      var i :| 0 <= i < |w.rows| && w.rows[i] == q.value;
      CountGrows(w.rows, agent, i, |w.rows|);
      assert w.rows[..|w.rows|] == w.rows;
      assert Decode(c, w.rows[i].data) == Some(w.stored[i]);
    }
    if 1 <= version <= Count(w.rows, agent) {
      var i := VersionPresent(w.rows, agent, version);
      assert w.rows[i] in w.rows;
    }
  }

  /** An agent whose id is that of a cached record reads that record, whatever version it asks for. */
  lemma CacheIgnoresVersion(c: Codec, w: World, j: nat, version: int)
    requires Good(c, w) && j < |w.rows| && w.rows[j].id in w.cache && w.cache[w.rows[j].id] == w.rows[j]
    ensures Retrieve(c, w, w.rows[j].id, version) == Some(w.stored[j])
  {}

  /** Nothing is stored under the record id. */
  predicate NothingUnder(ops: seq<Operation>, id: Key) {
    forall k :: 0 <= k < |ops| && ops[k].Storing? ==> ops[k].id != id
  }

  lemma {:induction false} NewRowsElsewhere(c: Codec, w: World, ops: seq<Operation>, id: Key)
    requires NothingUnder(ops, id)
    ensures |w.rows| <= |Run(c, w, ops).rows|
    ensures forall j :: |w.rows| <= j < |Run(c, w, ops).rows| ==> Run(c, w, ops).rows[j].id != id
  {
    hide Encode, MaxVersion, Cached, Query, IdTaken;
    if ops != [] { NewRowsElsewhere(c, w, ops[..|ops| - 1], id); }
  }

  /** Row `i` reads back after every run that stores nothing under its agent's id. */
  ghost predicate AlwaysReadsBack(c: Codec, w: World, i: nat)
    requires i < |w.rows| == |w.stored|
  {
    forall ops :: Drawn(c, ops) && NothingUnder(ops, w.rows[i].agent) ==>
                    Retrieve(c, Run(c, w, ops), w.rows[i].agent, w.rows[i].version) == Some(w.stored[i])
  }

  /** No record with the agent's id was made from other bytes than row `i`. */
  ghost predicate NoOtherBytes(w: World, i: nat)
    requires i < |w.rows| == |w.stored|
  {
    forall j :: 0 <= j < |w.rows| && w.rows[j].id == w.rows[i].agent ==> w.stored[j] == w.stored[i]
  }

  lemma ReadsBackAfter(c: Codec, w: World, i: nat, ops: seq<Operation>)
    requires Inverse(c) && Good(c, w) && i < |w.rows| && NoOtherBytes(w, i)
    requires Drawn(c, ops) && NothingUnder(ops, w.rows[i].agent)
    ensures Retrieve(c, Run(c, w, ops), w.rows[i].agent, w.rows[i].version) == Some(w.stored[i])
  {
    hide Run, Decode, Versioned, Retrieve, Inverse;
    var w', agent := Run(c, w, ops), w.rows[i].agent;
    RunGood(c, w, ops);
    NewRowsElsewhere(c, w, ops, agent);
    RetrieveIff(c, w', i);
    assert w'.rows[i] == w.rows[i] && w'.stored[i] == w.stored[i];
    if agent in w'.cache {
      var j :| 0 <= j < |w'.rows| && w'.rows[j] == w'.cache[agent];
      assert w'.rows[j] == w.rows[j] && w'.stored[j] == w.stored[j];
    }
  }

  lemma {:induction false} FreshId(rows: seq<Record>, other: Key) returns (id: Key)
    ensures id > other && forall j :: 0 <= j < |rows| ==> rows[j].id < id
  {
    id := other + 1;
    if rows != [] {
      var m := FreshId(rows[..|rows| - 1], other);
      id := if m <= rows[|rows| - 1].id then rows[|rows| - 1].id + 1 else m;
    }
  }

  lemma RunTwo(c: Codec, w: World, a: Operation, b: Operation)
    ensures Run(c, w, [a, b]) == Apply(c, Apply(c, w, a), b)
  {
    hide Apply;
    assert [a, b][..1] == [a] && [a][..0] == [];
    assert Run(c, w, [a][..0]) == w;
    assert Run(c, w, [a]) == Apply(c, w, a);
  }

  /** Evicting everything and then retrieving row `j` leaves row `j` alone in the cache. */
  lemma CacheOnly(c: Codec, w: World, j: nat) returns (ops: seq<Operation>)
    requires Inverse(c) && Good(c, w) && j < |w.rows|
    ensures Drawn(c, ops) && NothingUnder(ops, w.rows[j].id)
    ensures Run(c, w, ops).cache == map[w.rows[j].id := w.rows[j]]
  {
    hide Encode, MaxVersion, Query, Versioned, Decode, Inverse;
    var r := w.rows[j];
    var id := FreshId(w.rows, r.id);
    var nonce: Bytes := seq(c.nonceSize, _ => 0);
    var evict := Storing(id, r.agent, nonce, [], 0, {});
    var fetch := Retrieving(r.agent, r.version, {r.id});
    ops := [evict, fetch];
    RunTwo(c, w, evict, fetch);
    var w1 := Apply(c, w, evict);
    StoreGood(c, w, id, r.agent, nonce, [], 0, {});
    assert w1.cache == map[] && w1.rows[j] == r;
    QueryFindsRow(w1.rows, j);
    assert Cached(w1.cache, r, {r.id}) == map[r.id := r];
  }

  /** A committed version is sure to read back exactly if no record under its agent's id holds other bytes. */
  lemma ReadsBackIff(c: Codec, w: World, i: nat)
    requires Inverse(c) && Good(c, w) && i < |w.rows|
    ensures AlwaysReadsBack(c, w, i) <==> NoOtherBytes(w, i)
  {
    hide Inverse, Run, Decode, Versioned, Retrieve;
    if NoOtherBytes(w, i) {
      forall ops | Drawn(c, ops) && NothingUnder(ops, w.rows[i].agent)
        ensures Retrieve(c, Run(c, w, ops), w.rows[i].agent, w.rows[i].version) == Some(w.stored[i])
      {
        ReadsBackAfter(c, w, i, ops);
      }
    } else {
      var j: nat :| j < |w.rows| && w.rows[j].id == w.rows[i].agent && w.stored[j] != w.stored[i];
      var ops := CacheOnly(c, w, j);
      RunGood(c, w, ops);
      CacheIgnoresVersion(c, Run(c, w, ops), j, w.rows[i].version);
    }
  }

  /** From an empty store: a record, then one for the agent that bears its id.  The agent's first version
      reads back as the bytes of the other agent. */
  lemma WrongBytesRead(c: Codec, k: Key, a: Key, k': Key, nonce: Bytes, p: Bytes, q: Bytes, now: int)
    requires Inverse(c) && |nonce| == c.nonceSize && k != k' && a != k && p != q
    ensures var w := Run(c, World([], map[], []), [Storing(k, a, nonce, p, now, {k}), Storing(k', k, nonce, q, now, {k})]);
            && |w.rows| == |w.stored| == 2 && w.rows[1].agent == k && w.rows[1].version == 1 && w.stored[1] == q
            && Retrieve(c, w, k, 1) == Some(p)
  {
    hide Encode, Decode, Inverse, MaxVersion, Store, Cached;
    var w0, first, second :=
      World([], map[], []), Storing(k, a, nonce, p, now, {k}), Storing(k', k, nonce, q, now, {k});
    RunTwo(c, w0, first, second);
    var r, r' := Record(k, a, 1, Encode(c, nonce, p), now), Record(k', k, 1, Encode(c, nonce, q), now);
    StoreFirst(c, k, a, nonce, p, now);
    StoreSecond(c, r, k', k, nonce, q, now, p);
    assert Run(c, w0, [first, second]) == World([r, r'], map[k := r], [p, q]);
    DecodeEncode(c, nonce, p);
  }

  lemma StoreFirst(c: Codec, k: Key, a: Key, nonce: Bytes, p: Bytes, now: int)
    ensures var r := Record(k, a, 1, Encode(c, nonce, p), now);
            Store(c, World([], map[], []), k, a, nonce, p, now, {k}) == World([r], map[k := r], [p])
  {
    hide Encode;
    var r := Record(k, a, 1, Encode(c, nonce, p), now);
    assert MaxVersion([], a) == 0;
    assert Cached(map[], r, {k}) == map[k := r];
  }

  lemma StoreSecond(c: Codec, r: Record, id: Key, agent: Key, nonce: Bytes, q: Bytes, now: int, p: Bytes)
    requires r.id == agent != id && r.agent != agent
    ensures var r' := Record(id, agent, 1, Encode(c, nonce, q), now);
            Store(c, World([r], map[agent := r], [p]), id, agent, nonce, q, now, {agent}) ==
            World([r, r'], map[agent := r], [p, q])
  {
    hide Encode;
    var r' := Record(id, agent, 1, Encode(c, nonce, q), now);
    assert MaxVersion([r][..0], agent) == 0 && MaxVersion([r], agent) == 0;
    assert Cached(map[agent := r], r', {agent}) == map[agent := r];
  }

  // ---------------------------------------------------------------- the adapter object

  class MemoryAdapter {
    const codec: Codec
    var rows: seq<Record>
    var cache: map<Key, Record>
    ghost var stored: seq<Bytes>

    ghost function View(): World
      reads this
    {
      World(rows, cache, stored)
    }

    constructor (codec: Codec)
      ensures this.codec == codec && View() == World([], map[], []) && Good(codec, View())
    {
      this.codec, rows, cache, stored := codec, [], map[], [];
    }

    /** `marshalled`, `drawn` and `commits` are what serialization, the random source and the database
        answer; any failure leaves everything as it was. */
    method StoreMemory(id: Key, agent: Key, marshalled: Option<Bytes>, drawn: Option<Bytes>, now: int,
                       commits: bool, keep: set<Key>)
      returns (result: Option<Key>)
      modifies this
      ensures result.Some? <==> marshalled.Some? && drawn.Some? && commits && !IdTaken(old(rows), id)
      ensures result.Some? ==>
                && result.value == id
                && View() == Store(codec, old(View()), id, agent, drawn.value, marshalled.value, now, keep)
      ensures result.None? ==> View() == old(View())
      ensures Inverse(codec) && old(Good(codec, View())) && (drawn.Some? ==> |drawn.value| == codec.nonceSize) ==>
                Good(codec, View())
    {
      hide Good, Inverse, Encode, MaxVersion, Cached;
      if marshalled.None? || drawn.None? || IdTaken(rows, id) || !commits { return None; }
      if Inverse(codec) && Good(codec, View()) && |drawn.value| == codec.nonceSize {
        StoreGood(codec, View(), id, agent, drawn.value, marshalled.value, now, keep);
      }
      var version := MaxVersion(rows, agent) + 1;
      var record := Record(id, agent, version, Encode(codec, drawn.value, marshalled.value), now);
      rows := rows + [record];
      stored := stored + [marshalled.value];
      cache := Cached(cache, record, keep);
      return Some(id);
    }

    /** `answers` is whether the database answers the query, which is only put on a cache miss. */
    method RetrieveMemory(agent: Key, version: int, answers: bool, keep: set<Key>) returns (result: Option<Bytes>)
      modifies this
      ensures agent !in old(cache) && !answers ==> result.None? && View() == old(View())
      ensures agent in old(cache) || answers ==>
                && result == Retrieve(codec, old(View()), agent, version)
                && View() == AfterRetrieve(old(View()), agent, version, keep)
      ensures old(Good(codec, View())) ==> Good(codec, View())
      ensures old(Good(codec, View())) && agent !in old(cache) && answers ==>
                (result.Some? <==> 1 <= version <= |RowsOf(old(rows), agent)|)
    {
      hide Good, RowsOf, Decode, Query;
      if Good(codec, View()) && agent !in cache { AnsweredIff(codec, View(), agent, version); }
      if Good(codec, View()) { RetrieveGood(codec, View(), agent, version, keep); }
      var record;
      if agent in cache {
        record := cache[agent];
      } else {
        if !answers { return None; }
        var found := Query(rows, agent, version);
        if found.None? { return None; }
        record := found.value;
        cache := Cached(cache, record, keep);
      }
      return Decode(codec, record.data);
    }
  }
}
