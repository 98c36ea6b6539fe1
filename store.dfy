/**
 * The IndexedDB object store `files`, created with `keyPath: 'url'`: a
 * map from a record's `url` to the record. `store.put(item)` inserts or
 * replaces the entry at `item.url`; nothing ever deletes one. `getAll()`
 * lists every stored record; the order it uses is left open here.
 */
module Store {
  import opened Extractor

  /** Every entry sits under its own record's `url`, as `keyPath: 'url'` makes it. */
  ghost predicate Keyed(m: map<string, Record>) {
    forall k :: k in m ==> m[k].url == k
  }

  /** `store.put(item)`. */
  function Put(m: map<string, Record>, item: Record): map<string, Record> {
    m[item.url := item]
  }

  /** The `put` calls of `saveDataToIndexedDB`, one per item, in list order. */
  function PutAll(m: map<string, Record>, items: seq<Record>): map<string, Record>
    decreases |items|
  {
    if items == [] then m else Put(PutAll(m, items[..|items| - 1]), items[|items| - 1])
  }

  /** The index of the last item whose `url` is `key`, or -1 when there is none. */
  function LastWith(items: seq<Record>, key: string): (r: int)
    ensures -1 <= r < |items|
    ensures r >= 0 ==> items[r].url == key
    ensures forall j :: r < j < |items| ==> items[j].url != key
    decreases |items|
  {
    if items == [] then -1
    else if items[|items| - 1].url == key then |items| - 1
    else LastWith(items[..|items| - 1], key)
  }

  /**
   * After the `put` calls, a key some item carries holds the LAST such
   * item (last writer wins); every other key keeps its old entry, or stays
   * absent.
   */
  lemma {:induction false} PutAllAt(m: map<string, Record>, items: seq<Record>, key: string)
    ensures key in PutAll(m, items) <==> key in m || LastWith(items, key) >= 0
    ensures LastWith(items, key) >= 0 ==> PutAll(m, items)[key] == items[LastWith(items, key)]
    ensures LastWith(items, key) < 0 && key in m ==> PutAll(m, items)[key] == m[key]
    decreases |items|
  {
    if items != [] {
      var init := items[..|items| - 1];
      PutAllAt(m, init, key);
      if items[|items| - 1].url != key {
        assert LastWith(items, key) == LastWith(init, key);
        if LastWith(init, key) >= 0 {
          assert items[LastWith(init, key)] == init[LastWith(init, key)];
        }
      }
    }
  }

  /** Saving merges: no key is ever removed. */
  lemma PutAllKeepsKeys(m: map<string, Record>, items: seq<Record>)
    ensures m.Keys <= PutAll(m, items).Keys
  {
    forall key | key in m ensures key in PutAll(m, items) {
      PutAllAt(m, items, key);
    }
  }

  /** Saving keeps every record under its own `url`. */
  lemma {:induction false} PutAllKeyed(m: map<string, Record>, items: seq<Record>)
    requires Keyed(m)
    ensures Keyed(PutAll(m, items))
    decreases |items|
  {
    if items != [] {
      PutAllKeyed(m, items[..|items| - 1]);
    }
  }

  /** Saving the same list twice leaves the store as saving it once. */
  lemma PutAllIdempotent(m: map<string, Record>, items: seq<Record>)
    ensures PutAll(PutAll(m, items), items) == PutAll(m, items)
  {
    var once := PutAll(m, items);
    var twice := PutAll(once, items);
    forall key ensures (key in twice <==> key in once) && (key in twice ==> twice[key] == once[key]) {
      PutAllAt(m, items, key);
      PutAllAt(once, items, key);
    }
  }

  /**
   * A later scan's records take precedence for every key it touched, and
   * a key it did not touch keeps what the earlier scan left.
   */
  lemma LaterSaveWins(m: map<string, Record>, earlier: seq<Record>, later: seq<Record>, key: string)
    ensures LastWith(later, key) >= 0 ==>
      key in PutAll(PutAll(m, earlier), later) && PutAll(PutAll(m, earlier), later)[key] == later[LastWith(later, key)]
    ensures LastWith(later, key) < 0 && key in PutAll(m, earlier) ==>
      key in PutAll(PutAll(m, earlier), later) && PutAll(PutAll(m, earlier), later)[key] == PutAll(m, earlier)[key]
  {
    PutAllAt(PutAll(m, earlier), later, key);
  }

  /**
   * `data` is a listing of the store as `getAll()` returns it: every stored
   * record exactly once, in some order.
   */
  ghost predicate Enumerates(m: map<string, Record>, data: seq<Record>) {
    && (forall i :: 0 <= i < |data| ==> data[i].url in m && m[data[i].url] == data[i])
    && (forall i, j :: 0 <= i < j < |data| ==> data[i].url != data[j].url)
    && (forall k :: k in m ==> exists i :: 0 <= i < |data| && data[i].url == k)
  }
}
