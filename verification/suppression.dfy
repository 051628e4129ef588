/**
 * The duplicate-suppression table: HASH_TABLE_SIZE bucket chains of entries
 * keyed by (source address, 16-bit packet id), each carrying the time it was
 * recorded. An entry older than ENTRY_TTL_SECONDS counts as absent when looked
 * up, but nothing ever removes it.
 *
 * The pure functions below describe the table as a sequence of chains; the
 * class SuppressionTable is the mutable global table, whose methods walk a
 * chain step by step and are proved to agree with those functions.
 */
module Suppression {
  import opened Fish
  import opened Options

  const HASH_TABLE_SIZE: nat := 1024

  /** How long, in seconds, a recorded sighting stays valid. */
  const ENTRY_TTL_SECONDS: int := 120

  /** The value get_timestamp returns for "absent or expired". */
  const NOT_FOUND: int := -1

  /** struct HashEntry, without its chain link. */
  datatype Entry = Entry(src: Addr, packetId: u16, timestamp: int)

  /** hash_function: (src XOR packet_id) mod HASH_TABLE_SIZE, always a valid bucket. */
  function Hash(src: Addr, packetId: u32): (b: nat)
    ensures b < HASH_TABLE_SIZE
  {
    (((src as bv32) ^ (packetId as bv32)) as int) % HASH_TABLE_SIZE
  }

  predicate Matches(e: Entry, src: Addr, packetId: u16) {
    e.src == src && e.packetId == packetId
  }

  /** The position of the first entry of the chain with the given key, if any. */
  function Find(chain: seq<Entry>, src: Addr, packetId: u16): (r: Option<nat>)
    ensures r.Some? ==> r.value < |chain| && Matches(chain[r.value], src, packetId)
    ensures r.Some? ==> forall j :: 0 <= j < r.value ==> !Matches(chain[j], src, packetId)
    ensures r.None? <==> forall j :: 0 <= j < |chain| ==> !Matches(chain[j], src, packetId)
  {
    if chain == [] then None
    else if Matches(chain[0], src, packetId) then Some(0)
    else match Find(chain[1..], src, packetId)
      case None => None
      case Some(i) => Some(i + 1)
  }

  /** No two entries of a chain share a key. */
  predicate UniqueKeys(chain: seq<Entry>) {
    forall i, j :: 0 <= i < j < |chain| ==>
      !Matches(chain[j], chain[i].src, chain[i].packetId)
  }

  /** The shape of the table: the bucket count, each entry in its own bucket, keys unique per chain. */
  predicate WellFormed(t: seq<seq<Entry>>) {
    && |t| == HASH_TABLE_SIZE
    && (forall b :: 0 <= b < |t| ==> UniqueKeys(t[b]))
    && (forall b, k :: 0 <= b < |t| && 0 <= k < |t[b]| ==> Hash(t[b][k].src, t[b][k].packetId) == b)
  }

  /** A table with every bucket empty, as the zero-initialised global starts. */
  predicate IsEmpty(t: seq<seq<Entry>>) {
    |t| == HASH_TABLE_SIZE && forall b :: 0 <= b < |t| ==> t[b] == []
  }

  /**
   * What get_timestamp answers: the timestamp of the first entry with the key
   * in its bucket, unless there is none or it is more than ENTRY_TTL_SECONDS
   * older than `now`, in which case NOT_FOUND.
   */
  function Timestamp(t: seq<seq<Entry>>, src: Addr, packetId: u16, now: int): (r: int)
    requires |t| == HASH_TABLE_SIZE
    ensures r != NOT_FOUND ==> now - r <= ENTRY_TTL_SECONDS
    ensures r != NOT_FOUND ==> exists e :: e in t[Hash(src, packetId)] && Matches(e, src, packetId) && e.timestamp == r
    ensures (forall e :: e in t[Hash(src, packetId)] ==> !Matches(e, src, packetId)) ==> r == NOT_FOUND
    ensures var c := t[Hash(src, packetId)];
            Find(c, src, packetId).Some? ==>
              var e := c[Find(c, src, packetId).value];
              r == (if now - e.timestamp > ENTRY_TTL_SECONDS then NOT_FOUND else e.timestamp)
  {
    var chain := t[Hash(src, packetId)];
    match Find(chain, src, packetId)
    case None => NOT_FOUND
    case Some(i) =>
      assert chain[i] in chain;
      if now - chain[i].timestamp > ENTRY_TTL_SECONDS then NOT_FOUND else chain[i].timestamp
  }

  /** insert_entry on one chain: replace the first entry with the key, or else put the new entry first. */
  function ChainInsert(chain: seq<Entry>, e: Entry): (r: seq<Entry>)
    ensures Find(chain, e.src, e.packetId).Some? ==>
      var i := Find(chain, e.src, e.packetId).value;
      |r| == |chain| && r[i] == e && forall j :: 0 <= j < |chain| && j != i ==> r[j] == chain[j]
    ensures Find(chain, e.src, e.packetId).None? ==> |r| == |chain| + 1 && r[0] == e && r[1..] == chain
  {
    match Find(chain, e.src, e.packetId)
    case Some(i) => chain[i := e]
    case None => [e] + chain
  }

  /** The table after insert_entry(src, packetId) at time `now`. */
  function Inserted(t: seq<seq<Entry>>, src: Addr, packetId: u16, now: int): (r: seq<seq<Entry>>)
    requires |t| == HASH_TABLE_SIZE
    ensures |r| == HASH_TABLE_SIZE
    ensures forall b :: 0 <= b < HASH_TABLE_SIZE && b != Hash(src, packetId) ==> r[b] == t[b]
  {
    var b := Hash(src, packetId);
    t[b := ChainInsert(t[b], Entry(src, packetId, now))]
  }

  /** Inserting keeps each chain's keys unique. */
  lemma ChainInsertUnique(chain: seq<Entry>, e: Entry)
    requires UniqueKeys(chain)
    ensures UniqueKeys(ChainInsert(chain, e))
  {
    var r := ChainInsert(chain, e);
    match Find(chain, e.src, e.packetId)
    case Some(i) =>
      forall p, q | 0 <= p < q < |r|
        ensures !Matches(r[q], r[p].src, r[p].packetId)
      {
        if p == i {
          assert !Matches(chain[q], chain[i].src, chain[i].packetId);
        } else if q == i {
          assert !Matches(chain[i], chain[p].src, chain[p].packetId);
        }
      }
    case None =>
      forall p, q | 0 <= p < q < |r|
        ensures !Matches(r[q], r[p].src, r[p].packetId)
      {
        if p > 0 {
          assert r[p] == chain[p - 1] && r[q] == chain[q - 1];
        } else {
          assert r[q] == chain[q - 1];
        }
      }
  }

  /** Inserting keeps the table well formed. */
  lemma InsertedWellFormed(t: seq<seq<Entry>>, src: Addr, packetId: u16, now: int)
    requires WellFormed(t)
    ensures WellFormed(Inserted(t, src, packetId, now))
  {
    var b := Hash(src, packetId);
    var e := Entry(src, packetId, now);
    var r: seq<seq<Entry>> := Inserted(t, src, packetId, now);
    ChainInsertUnique(t[b], e);
    forall k | 0 <= k < |r[b]|
      ensures Hash(r[b][k].src, r[b][k].packetId) == b
    {
      match Find(t[b], src, packetId)
      case Some(i) =>
        if k != i {
          assert r[b][k] == t[b][k];
        }
      case None =>
        if k > 0 {
          assert r[b][k] == t[b][k - 1];
        }
    }
  }

  /**
   * After insert_entry(src, packetId) at `now`, get_timestamp of the same key
   * answers `now` at every time no more than ENTRY_TTL_SECONDS later, and the
   * key is held by exactly one entry of its chain.
   */
  lemma InsertThenLookup(t: seq<seq<Entry>>, src: Addr, packetId: u16, now: int, later: int)
    requires WellFormed(t)
    requires later - now <= ENTRY_TTL_SECONDS
    ensures Timestamp(Inserted(t, src, packetId, now), src, packetId, later) == now
    ensures var chain := Inserted(t, src, packetId, now)[Hash(src, packetId)];
            exists i :: 0 <= i < |chain| && Matches(chain[i], src, packetId) &&
              forall j :: 0 <= j < |chain| && Matches(chain[j], src, packetId) ==> j == i
  {
    var b := Hash(src, packetId);
    var chain := Inserted(t, src, packetId, now)[b];
    InsertedWellFormed(t, src, packetId, now);
    var i: nat := match Find(t[b], src, packetId) case Some(i) => i case None => 0;
    assert Matches(chain[i], src, packetId);
    assert Find(chain, src, packetId) == Some(i);
  }

  /** Find answers the first position holding the key. */
  lemma FindFirstMatch(chain: seq<Entry>, src: Addr, packetId: u16, p: nat)
    requires p < |chain| && Matches(chain[p], src, packetId)
    requires forall j :: 0 <= j < p ==> !Matches(chain[j], src, packetId)
    ensures Find(chain, src, packetId) == Some(p)
  {
    assert Find(chain, src, packetId).Some?;
  }

  /** Inserting into a chain moves no other key's first entry, except by the one place a prepend adds. */
  lemma ChainInsertKeepsOtherKeys(chain: seq<Entry>, e: Entry, src: Addr, packetId: u16)
    requires src != e.src || packetId != e.packetId
    ensures var r := ChainInsert(chain, e);
      match Find(chain, src, packetId)
      case None => Find(r, src, packetId) == None
      case Some(p) => Find(r, src, packetId).Some? && r[Find(r, src, packetId).value] == chain[p]
  {
    var r := ChainInsert(chain, e);
    var inserted := Find(chain, e.src, e.packetId);
    match Find(chain, src, packetId)
    case None =>
      forall j | 0 <= j < |r|
        ensures !Matches(r[j], src, packetId)
      {
        if inserted.None? && j > 0 {
          assert r[j] == chain[j - 1];
        }
      }
    case Some(p) =>
      if inserted.Some? {
        assert p != inserted.value;
        FindFirstMatch(r, src, packetId, p);
      } else {
        assert r[p + 1] == chain[p];
        forall j | 0 <= j < p + 1
          ensures !Matches(r[j], src, packetId)
        {
          if j > 0 {
            assert r[j] == chain[j - 1];
          }
        }
        FindFirstMatch(r, src, packetId, p + 1);
      }
  }

  /** Inserting one key leaves get_timestamp of every other key as it was. */
  lemma InsertKeepsOtherKeys(t: seq<seq<Entry>>, src: Addr, packetId: u16, now: int,
                             src': Addr, packetId': u16, later: int)
    requires |t| == HASH_TABLE_SIZE
    requires src' != src || packetId' != packetId
    ensures Timestamp(Inserted(t, src, packetId, now), src', packetId', later)
         == Timestamp(t, src', packetId', later)
  {
    var b := Hash(src, packetId);
    if b == Hash(src', packetId') {
      ChainInsertKeepsOtherKeys(t[b], Entry(src, packetId, now), src', packetId');
    }
  }

  /** A lookup in an empty table finds nothing. */
  lemma EmptyFindsNothing(t: seq<seq<Entry>>, src: Addr, packetId: u16, now: int)
    requires IsEmpty(t)
    ensures Timestamp(t, src, packetId, now) == NOT_FOUND
  {
  }

  /**
   * The process-wide table `hash_table`: an array of HASH_TABLE_SIZE chains.
   * A chain is held as a sequence of entries, first entry first.
   */
  class SuppressionTable {
    var buckets: array<seq<Entry>>

    ghost predicate Valid()
      reads this, buckets
    {
      buckets.Length == HASH_TABLE_SIZE && WellFormed(buckets[..])
    }

    /** The global starts zero-initialised: every chain empty. */
    constructor ()
      ensures Valid() && fresh(buckets)
      ensures IsEmpty(buckets[..])
    {
      buckets := new seq<Entry>[HASH_TABLE_SIZE](_ => []);
    }

    /** insert_entry: record (src, packetId) as seen at `now`. */
    method Insert(src: Addr, packetId: u16, now: int)
      requires Valid()
      modifies buckets
      ensures Valid()
      ensures buckets[..] == Inserted(old(buckets[..]), src, packetId, now)
    {
      InsertedWellFormed(buckets[..], src, packetId, now);
      var index := Hash(src, packetId);
      var entry := Entry(src, packetId, now);
      var chain := buckets[index];
      if chain == [] {
        assert ChainInsert(chain, entry) == [entry];
        buckets[index] := [entry];
        return;
      }
      var i := 0;
      while i < |chain|
        invariant 0 <= i <= |chain|
        invariant forall j :: 0 <= j < i ==> !Matches(chain[j], src, packetId)
      {
        if Matches(chain[i], src, packetId) {
          assert Find(chain, src, packetId) == Some(i);
          buckets[index] := chain[i := entry];
          return;
        }
        i := i + 1;
      }
      buckets[index] := [entry] + chain;
    }

    /** get_timestamp: when (src, packetId) was recorded, or NOT_FOUND if absent or expired at `now`. */
    method GetTimestamp(src: Addr, packetId: u16, now: int) returns (ts: int)
      requires Valid()
      ensures ts == Timestamp(buckets[..], src, packetId, now)
    {
      var index := Hash(src, packetId);
      var chain := buckets[index];
      var i := 0;
      while i < |chain|
        invariant 0 <= i <= |chain|
        invariant forall j :: 0 <= j < i ==> !Matches(chain[j], src, packetId)
      {
        if Matches(chain[i], src, packetId) {
          assert Find(chain, src, packetId) == Some(i);
          if now - chain[i].timestamp > ENTRY_TTL_SECONDS {
            return NOT_FOUND;
          }
          return chain[i].timestamp;
        }
        i := i + 1;
      }
      return NOT_FOUND;
    }
  }
}
