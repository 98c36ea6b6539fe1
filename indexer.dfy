/**
 * The page's global state and the functions that change it: `fileHandles`
 * and `scannedFiles`, the `files` object store, the click handler of the
 * "load folder" button, `loadFiles`, `saveDataToIndexedDB`,
 * `loadDataFromIndexedDB` and `searchFiles`. Every `await` in them is
 * sequential, so each becomes an ordinary method.
 */
module Indexer {
  import opened Wrappers
  import opened Text
  import opened Extractor
  import opened Walker
  import opened Store
  import opened Search

  class Indexer {
    /** The records found by the current scan, in the order found. */
    var fileHandles: seq<Record>
    /** Set once a scan has been walked and saved. */
    var scannedFiles: bool
    /** The `files` object store, keyed by `url`. */
    var store: map<string, Record>
    /** How many times `getAll` has read the store. */
    ghost var storeReads: nat
    /**
     * The `(scannedFiles, store)` states the click handler passes through:
     * one after clearing the globals, one after the walk, one after the
     * save, and one once `scannedFiles` is set.
     */
    ghost var handlerStates: seq<(bool, map<string, Record>)>

    ghost predicate Valid()
      reads this
    {
      Keyed(store)
    }

    /**
     * The script's start: both globals at their initial values, and the
     * object store as it persisted from earlier sessions.
     */
    constructor (persisted: map<string, Record>)
      requires Keyed(persisted)
      ensures Valid()
      ensures fileHandles == [] && !scannedFiles && store == persisted && storeReads == 0 && handlerStates == []
    {
      fileHandles := [];
      scannedFiles := false;
      store := persisted;
      storeReads := 0;
      handlerStates := [];
    }

    /**
     * `loadFiles(directoryHandle, path)`: for each entry in listing order,
     * a page is processed and its record (if any) appended; a directory is
     * walked at once under `path + "/" + name`; any other file is skipped.
     */
    method LoadFiles(entries: seq<Entry>, path: string, fetch: string -> FetchOutcome)
      modifies this`fileHandles
      ensures fileHandles == old(fileHandles) + Extracted(Documents(entries, path), fetch)
      decreases entries
    {
      for i := 0 to |entries|
        invariant fileHandles == old(fileHandles) + Extracted(Documents(entries[..i], path), fetch)
      {
        var entry := entries[i];
        ExtractedStep(entries, i, path, fetch);
        if entry.File? && IsSuffix(PageExtension, entry.name) {
          var fullPath := path + "/" + entry.name;
          var normalizedPath := StripTrailingSlash(fullPath);
          var fileData := ProcessFile(normalizedPath, entry.content, fetch);
          PageExtracted(entry.name, entry.content, path, fetch);
          if fileData.Some? {
            fileHandles := fileHandles + [fileData.value];
          }
        } else if entry.Directory? {
          LoadFiles(entry.entries, path + "/" + entry.name, fetch);
        }
      }
      assert entries[..|entries|] == entries;
    }

    /** `saveDataToIndexedDB`: one `put` per record of `fileHandles`, in order. */
    method SaveDataToIndexedDB()
      requires Valid()
      modifies this`store
      ensures Valid()
      ensures store == PutAll(old(store), fileHandles)
    {
      for i := 0 to |fileHandles|
        invariant store == PutAll(old(store), fileHandles[..i])
      {
        var item := fileHandles[i];
        assert fileHandles[..i + 1][..i] == fileHandles[..i];
        store := store[item.url := item];
      }
      assert fileHandles[..|fileHandles|] == fileHandles;
      PutAllKeyed(old(store), fileHandles);
    }

    /**
     * `loadDataFromIndexedDB`: `getAll()`, every stored record once. The
     * order is not fixed: each step takes any key not yet listed.
     */
    method LoadDataFromIndexedDB() returns (allData: seq<Record>)
      requires Valid()
      modifies this`storeReads
      ensures Enumerates(store, allData)
      ensures storeReads == old(storeReads) + 1
    {
      allData := [];
      var remaining := store.Keys;
      while remaining != {}
        invariant remaining <= store.Keys
        invariant forall i :: 0 <= i < |allData| ==>
          allData[i].url in store && store[allData[i].url] == allData[i] && allData[i].url !in remaining
        invariant forall i, j :: 0 <= i < j < |allData| ==> allData[i].url != allData[j].url
        invariant forall k :: k in store && k !in remaining ==> exists i :: 0 <= i < |allData| && allData[i].url == k
        decreases remaining
      {
        var k :| k in remaining;
        assert store[k].url == k;
        ghost var listed := allData;
        allData := allData + [store[k]];
        remaining := remaining - {k};
        forall key | key in store && key !in remaining
          ensures exists i :: 0 <= i < |allData| && allData[i].url == key
        {
          if key == k {
            assert allData[|listed|].url == key;
          } else {
            var i :| 0 <= i < |listed| && listed[i].url == key;
            assert allData[i] == listed[i];
          }
        }
      }
      storeReads := storeReads + 1;
    }

    /**
     * `searchFiles` with the search bar's text given: nothing at all (and
     * no store read) before a scan has completed or for a blank term;
     * otherwise the de-duplicated matches among the listed records.
     */
    method SearchFiles(searchBarValue: string) returns (results: seq<Record>)
      requires Valid()
      modifies this`storeReads
      ensures !scannedFiles || SearchTerm(searchBarValue) == "" ==> results == [] && storeReads == old(storeReads)
      ensures scannedFiles && SearchTerm(searchBarValue) != "" ==>
        storeReads == old(storeReads) + 1 &&
        exists data :: Enumerates(store, data) && results == Results(data, SearchTerm(searchBarValue))
    {
      var searchTerm := Trim(Lower(searchBarValue));
      if !scannedFiles || searchTerm == "" {
        return [];
      }
      var data := LoadDataFromIndexedDB();
      results := CollectResults(data, searchTerm);
    }

    /**
     * The click handler of the "load folder" button. `picked` is what the
     * directory picker yields: `None` when it is dismissed, whereupon the
     * awaited promise rejects and the handler stops after clearing the
     * globals. Otherwise the picked directory is walked from path `''`, the
     * records are saved, and only then is `scannedFiles` set: through the
     * walk and the save it stays false.
     */
    method LoadFolder(picked: Option<seq<Entry>>, fetch: string -> FetchOutcome)
      requires Valid()
      modifies this`fileHandles, this`scannedFiles, this`store, this`handlerStates
      ensures Valid()
      ensures picked.None? ==>
        && fileHandles == [] && !scannedFiles && store == old(store)
        && handlerStates == old(handlerStates) + [(false, old(store))]
      ensures picked.Some? ==>
        && fileHandles == Extracted(Documents(picked.value, ""), fetch)
        && store == PutAll(old(store), fileHandles)
        && scannedFiles
        && handlerStates == old(handlerStates) + [(false, old(store)), (false, old(store)), (false, store), (true, store)]
    {
      fileHandles := [];
      scannedFiles := false;
      handlerStates := handlerStates + [(scannedFiles, store)];
      if picked.None? {
        return;
      }
      LoadFiles(picked.value, "", fetch);
      handlerStates := handlerStates + [(scannedFiles, store)];
      SaveDataToIndexedDB();
      handlerStates := handlerStates + [(scannedFiles, store)];
      scannedFiles := true;
      handlerStates := handlerStates + [(scannedFiles, store)];
    }
  }
}
