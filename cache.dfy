/** The in-memory date-to-status cache. In the source it is a hash map behind
    a read-write lock; here it is one object whose only state is the map. */
module Cache {
  import opened Wrappers
  import opened Server

  /** The map after inserting every entry of `batch` into `m`, in order,
      each insertion overwriting what was there. */
  function ApplyBatch(m: map<string, TempoStatus>, batch: Batch): (r: map<string, TempoStatus>)
    ensures m.Keys <= r.Keys
    decreases |batch|
  {
    if batch == [] then m
    else
      var last := batch[|batch| - 1];
      ApplyBatch(m, batch[..|batch| - 1])[last.0 := last.1]
  }

  /** The status carried by the last entry of `batch` for `date`, or None
      when the batch has no entry for it. */
  function LastFor(batch: Batch, date: string): (r: Option<TempoStatus>)
    ensures r.None? <==> forall i :: 0 <= i < |batch| ==> batch[i].0 != date
    ensures r.Some? ==> exists i :: 0 <= i < |batch| && batch[i] == (date, r.value) &&
                          forall j :: i < j < |batch| ==> batch[j].0 != date
    decreases |batch|
  {
    if batch == [] then None
    else if batch[|batch| - 1].0 == date then Some(batch[|batch| - 1].1)
    else
      var init := batch[..|batch| - 1];
      var r := LastFor(init, date);
      assert forall i :: 0 <= i < |init| ==> init[i] == batch[i];
      r
  }

  /** What a batch insert does to one key: a key the batch mentions ends up
      with the status of its last entry, any other key keeps its old value
      (or stays absent). */
  lemma {:induction false} ApplyBatchAt(m: map<string, TempoStatus>, batch: Batch, date: string)
    ensures date in ApplyBatch(m, batch) <==> date in m || LastFor(batch, date).Some?
    ensures LastFor(batch, date).Some? ==> ApplyBatch(m, batch)[date] == LastFor(batch, date).value
    ensures LastFor(batch, date).None? && date in m ==> ApplyBatch(m, batch)[date] == m[date]
    decreases |batch|
  {
    if batch != [] {
      ApplyBatchAt(m, batch[..|batch| - 1], date);
    }
  }

  /** After a batch insert, the entry that is last for its date in the batch
      is what the cache holds for that date. */
  lemma {:induction false} LastOccurrenceWins(m: map<string, TempoStatus>, batch: Batch, i: nat)
    requires i < |batch|
    requires forall j :: i < j < |batch| ==> batch[j].0 != batch[i].0
    ensures batch[i].0 in ApplyBatch(m, batch)
    ensures ApplyBatch(m, batch)[batch[i].0] == batch[i].1
  {
    var date := batch[i].0;
    ApplyBatchAt(m, batch, date);
    var k :| 0 <= k < |batch| && batch[k] == (date, LastFor(batch, date).value) &&
             forall j :: k < j < |batch| ==> batch[j].0 != date;
    assert k == i;
  }

  /** Keys the batch does not mention are untouched: present with the same
      value, or still absent. */
  lemma {:induction false} UnmentionedKeysUnchanged(m: map<string, TempoStatus>, batch: Batch, date: string)
    requires forall i :: 0 <= i < |batch| ==> batch[i].0 != date
    ensures date in ApplyBatch(m, batch) <==> date in m
    ensures date in m ==> ApplyBatch(m, batch)[date] == m[date]
  {
    ApplyBatchAt(m, batch, date);
  }

  /** Every entry is stored, NonDefini ones included: the keys afterwards
      are exactly the old keys and the dates of the batch. */
  lemma {:induction false} EveryEntryIsStored(m: map<string, TempoStatus>, batch: Batch)
    ensures ApplyBatch(m, batch).Keys == m.Keys + set i | 0 <= i < |batch| :: batch[i].0
  {
    forall date | date in ApplyBatch(m, batch)
      ensures date in m.Keys + set i | 0 <= i < |batch| :: batch[i].0
    {
      ApplyBatchAt(m, batch, date);
    }
    forall i | 0 <= i < |batch| ensures batch[i].0 in ApplyBatch(m, batch) {
      ApplyBatchAt(m, batch, batch[i].0);
    }
    forall date | date in m ensures date in ApplyBatch(m, batch) {
      ApplyBatchAt(m, batch, date);
    }
  }

  /** A one-entry NonDefini batch stores NonDefini for its date: the
      undefined status is not filtered out. */
  lemma NonDefiniIsStored(m: map<string, TempoStatus>, date: string)
    ensures ApplyBatch(m, [(date, NonDefini)]) == m[date := NonDefini]
  {
  }

  /** Inserting the same batch twice leaves the cache as inserting it once. */
  lemma ApplyBatchIdempotent(m: map<string, TempoStatus>, batch: Batch)
    ensures ApplyBatch(ApplyBatch(m, batch), batch) == ApplyBatch(m, batch)
  {
    var once := ApplyBatch(m, batch);
    var twice := ApplyBatch(once, batch);
    forall date | date in twice || date in once
      ensures date in twice && date in once && twice[date] == once[date]
    {
      ApplyBatchAt(m, batch, date);
      ApplyBatchAt(once, batch, date);
    }
  }

  /** The cache. `entries` is the hash map; the lock around it only
      serialises access and is not modelled. */
  class TempoCache {
    var entries: map<string, TempoStatus>

    /** `create_cache`: a fresh, empty cache. */
    constructor ()
      ensures entries == map[]
    {
      entries := map[];
    }

    /** `get_from_cache`: the stored status for `date`, or None. */
    method Get(date: string) returns (r: Option<TempoStatus>)
      ensures r.Some? <==> date in entries
      ensures r.Some? ==> r.value == entries[date]
    {
      if date in entries {
        r := Some(entries[date]);
      } else {
        r := None;
      }
    }

    /** `insert_multiple_into_cache`: inserts every entry of `batch`, in
        order, overwriting earlier values. */
    method InsertMultiple(batch: Batch)
      modifies this
      ensures entries == ApplyBatch(old(entries), batch)
      ensures batch == [] ==> entries == old(entries)
    {
      var i := 0;
      while i < |batch|
        invariant 0 <= i <= |batch|
        invariant entries == ApplyBatch(old(entries), batch[..i])
      {
        var (date, status) := batch[i];
        assert batch[..i + 1][..i] == batch[..i];
        entries := entries[date := status];
        i := i + 1;
      }
      assert batch[..|batch|] == batch;
    }
  }

  /** Round trip: a date that occurs once in an inserted batch is then
      found in the cache with the status it was inserted with. */
  method InsertThenGet(cache: TempoCache, batch: Batch, i: nat) returns (found: Option<TempoStatus>)
    requires i < |batch|
    requires forall j :: 0 <= j < |batch| && j != i ==> batch[j].0 != batch[i].0
    modifies cache
    ensures found == Some(batch[i].1)
    ensures cache.entries == ApplyBatch(old(cache.entries), batch)
  {
    cache.InsertMultiple(batch);
    LastOccurrenceWins(old(cache.entries), batch, i);
    found := cache.Get(batch[i].0);
  }
}
