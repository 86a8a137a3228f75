/**
 * `reload_airtables`: the records fetched from the data store are inserted
 * into the store one after the other, each under its own slug. The fetch
 * itself is an input: `Some(records)` when the request succeeded, `None` when
 * it failed and the fetch returned an empty batch.
 */
module AtClient {
  import opened Wrappers
  import opened Models

  /** The store after inserting `batch` in order: the insert loop as a fold from the right. */
  function Merge(m: map<string, President>, batch: seq<President>): map<string, President>
    decreases |batch|
  {
    if batch == [] then m
    else
      var last := batch[|batch| - 1];
      Merge(m, batch[..|batch| - 1])[ShortName(last) := last]
  }

  /** The slugs of the batch, record by record. */
  function Slugs(batch: seq<President>): (r: seq<string>)
    ensures |r| == |batch|
  {
    seq(|batch|, i requires 0 <= i < |batch| => ShortName(batch[i]))
  }

  /** Some record of the batch has slug `k`. */
  predicate Produces(batch: seq<President>, k: string)
  {
    k in Slugs(batch)
  }

  /** The slugs a batch produces are those of its prefix and that of its last record. */
  lemma ProducesLast(batch: seq<President>, k: string)
    requires batch != []
    ensures Produces(batch, k) <==>
      Produces(batch[..|batch| - 1], k) || ShortName(batch[|batch| - 1]) == k
  {
    assert Slugs(batch) == Slugs(batch[..|batch| - 1]) + [ShortName(batch[|batch| - 1])];
  }

  /** The merge only adds keys: a key is present afterwards iff it was before or the batch produces it. */
  lemma {:induction false} MergeKeys(m: map<string, President>, batch: seq<President>, k: string)
    ensures k in Merge(m, batch) <==> k in m || Produces(batch, k)
    decreases |batch|
  {
    if batch != [] {
      MergeKeys(m, batch[..|batch| - 1], k);
      ProducesLast(batch, k);
    }
  }

  /** A key that no fetched record produces keeps its entry, or stays absent. */
  lemma {:induction false} MergeUntouched(m: map<string, President>, batch: seq<President>, k: string)
    requires forall i :: 0 <= i < |batch| ==> ShortName(batch[i]) != k
    ensures k in Merge(m, batch) <==> k in m
    ensures k in m ==> Merge(m, batch)[k] == m[k]
    decreases |batch|
  {
    if batch != [] {
      var prefix := batch[..|batch| - 1];
      assert forall i :: 0 <= i < |prefix| ==> prefix[i] == batch[i];
      MergeUntouched(m, prefix, k);
    }
  }

  /**
   * The record stored under a fetched slug is the last record of the batch
   * with that slug, whole: its counts replace the ones the store held.
   */
  lemma {:induction false} MergeLastWins(m: map<string, President>, batch: seq<President>, j: nat)
    requires j < |batch|
    requires forall i :: j < i < |batch| ==> ShortName(batch[i]) != ShortName(batch[j])
    ensures ShortName(batch[j]) in Merge(m, batch)
    ensures Merge(m, batch)[ShortName(batch[j])] == batch[j]
    decreases |batch|
  {
    var n := |batch| - 1;
    if j < n {
      var prefix := batch[..n];
      assert forall i :: j < i < |prefix| ==> prefix[i] == batch[i];
      MergeLastWins(m, prefix, j);
    }
  }

  /** Merging into a slug-keyed store keeps it slug-keyed. */
  lemma {:induction false} MergeSlugKeyed(m: map<string, President>, batch: seq<President>)
    requires SlugKeyed(m)
    ensures SlugKeyed(Merge(m, batch))
    decreases |batch|
  {
    if batch != [] {
      MergeSlugKeyed(m, batch[..|batch| - 1]);
    }
  }

  /**
   * `reload_airtables`: insert every fetched record under its slug. A failed
   * request (`None`) fetches nothing, so the store is left as it was.
   */
  method ReloadAirtables(store: Presidents, response: Option<seq<President>>)
    modifies store
    ensures response.None? ==> store.entries == old(store.entries)
    ensures response.Some? ==> store.entries == Merge(old(store.entries), response.value)
  {
    var data := if response.Some? then response.value else [];
    var i := 0;
    while i < |data|
      invariant 0 <= i <= |data|
      invariant store.entries == Merge(old(store.entries), data[..i])
    {
      assert data[..i + 1][..i] == data[..i];
      var president := data[i];
      store.entries := store.entries[ShortName(president) := president];
      i := i + 1;
    }
    assert data[..i] == data;
  }

  /** Start-up: an empty store filled by one reload. The result is slug-keyed. */
  method Startup(response: Option<seq<President>>) returns (store: Presidents)
    ensures fresh(store)
    ensures store.entries == Merge(map[], if response.Some? then response.value else [])
    ensures SlugKeyed(store.entries)
  {
    store := new Presidents();
    ReloadAirtables(store, response);
    MergeSlugKeyed(map[], if response.Some? then response.value else []);
  }
}
