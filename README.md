# Pancake search indexer — a Dafny model

`script.js` indexes a directory of saved pages and searches the index.
The user picks a folder. The walker visits it depth first. Every `.html`
file whose text carries both `<meta property="hnet:title" content="…" />`
and `<meta property="hnet:description" content="…" />` becomes a record
with these fields:

- `title` and `description`: the trimmed marker contents.
- `url`: `hnet://` followed by the page's path. This is the key of the
  `files` object store.
- `httpsUrl`: `https://` followed by the same path.
- `favicon`: an icon fetched from `https://<first path segment>/favicon.ico`,
  or `/default-favicon.png` when that fetch fails.

The records are saved into the store with `put`, so a later scan replaces
the records it touches and keeps the rest. Search lower-cases and trims
the query. It reads every stored record and keeps those whose lower-cased
title or description contains the query. It drops any record whose
`title-url` key was already shown.

Modules, one file each:

- `Wrappers`: `Option`.
- `Text`: the JavaScript string operations the code uses. They are ASCII
  `toLowerCase`, `trim` and `includes`, the two slash-stripping
  `replace` calls, and `split('/')[0]`.
- `Marker`: the marker regular expression `opening([^"]+)" />` with
  JavaScript's leftmost-match semantics.
- `Extractor`: `processFile` and `fetchFavicon`. The network is an
  oracle `fetch: string -> FetchOutcome`.
- `Walker`: the directory tree as a datatype, the depth-first list of
  pages with their paths (`Documents`), and the records extracted from
  them (`Extracted`).
- `Store`: the object store as a `map` from `url` to record. `PutAll` is
  the sequence of `put` calls. `Enumerates` says what any `getAll`
  listing satisfies.
- `Search`: the matching and de-duplication loop (`CollectResults`), its
  specification `Results`, and a reference definition `FirstMatches`.
- `Indexer`: a class holding the page's globals `fileHandles` and
  `scannedFiles` and the store. Its methods are the click handler
  (`LoadFolder`), `loadFiles`, `saveDataToIndexedDB`,
  `loadDataFromIndexedDB` and `searchFiles`. Each method is proved
  against the functions above.

Three behaviours of the code are worth stating, because a reader might
expect otherwise:

- A record plausibly ought to need a non-empty title and description.
  The code never checks after `trim()`, so a marker whose content is only
  whitespace yields a record with an empty title or description
  (`Extractor.ProcessFileFields`).
- Search results are de-duplicated by the single string
  `${title}-${url}` rather than by the pair (title, url). Two records can
  share that string only when a url has an empty path segment (`//`)
  after the scheme (`Search.KeysCanCollide`), and a walk over real
  directory names never builds such a url. On urls without one, the
  string separates records exactly as the pair would
  (`Search.KeysDistinguishRecords`). Since the store lists each url once,
  de-duplication then drops nothing (`Search.SearchShowsEveryStoredMatch`).
- A dismissed directory picker makes the handler stop right after it has
  cleared `fileHandles` and `scannedFiles`. Search then does nothing
  until the next completed scan (`Indexer.Indexer.LoadFolder`).

## Model

| member | source | states |
|---|---|---|
| Text.LowerSpec | script.js:179 | `toLowerCase` keeps the length and maps each character on its own (ASCII A–Z to a–z) |
| Text.IncludesSpec | script.js:179 | `includes(t)` holds exactly when `t` occurs at some index |
| Text.TrimStartSpec | script.js:64-65 | the leading trim keeps a suffix, drops only whitespace, and leaves no leading whitespace |
| Text.TrimEndSpec | script.js:64-65 | the trailing trim keeps a prefix, drops only whitespace, and leaves no trailing whitespace |
| Text.TrimShape | script.js:64-65 | `trim()` is a slice of its input with only whitespace outside it, and it neither starts nor ends with whitespace |
| Text.TrimEmptyIff | script.js:64-65 | a string trims to `''` exactly when it is all whitespace |
| Text.FirstSegmentSpec | script.js:67 | `split('/')[0]` is the longest slash-free prefix, and the next character, if any, is `/` |
| Marker.QuoteFromSpec | script.js:60-61 | the `[^"]+` run ends at the first quote, or at the end of the text, and holds no quote |
| Marker.MatchAtSpec | script.js:60-61 | the match attempt at one index succeeds exactly when a match starts there, and the capture is the unique one |
| Marker.FindFromSpec | script.js:60-61 | the scan from an index finds a match with none before it, or reports that no match starts at or after that index |
| Marker.LeftmostCaptureSpec | script.js:60-61 | `content.match(re)` is null exactly when no match exists, and otherwise gives the capture of the leftmost match |
| Extractor.ProcessFileSpec | script.js:57-81 | `processFile` returns a record exactly when both markers match, with the title and description being the trimmed leftmost captures |
| Extractor.LeftmostCaptureUnique | script.js:60-61 | the leftmost match is unique, and its capture is what the extractor takes |
| Extractor.ProcessFileFields | script.js:63-79 | given both leftmost captures, the record is the trimmed captures with the derived URLs and favicon, and a whitespace-only capture gives an empty field |
| Extractor.ProcessFileUrls | script.js:66-78 | a record's `url` and `httpsUrl` are `hnet://` and `https://` followed by its path less one leading `/` (the whole path when there is none), and `favicon` is the fetched object URL when the response is ok and `/default-favicon.png` otherwise |
| Extractor.UrlDerivation | script.js:66-69 | for a path starting with `/`, both URLs are their scheme followed by the path after that slash, and the domain keeps the whole `https://` scheme, is a prefix of the https URL and ends before its next `/` |
| Extractor.DomainDetermined | script.js:67 | any string meeting the domain clauses of `UrlDerivation` is the domain, so those clauses fix `https://` followed by `urlPath.split('/')[0]` |
| Extractor.HnetUrlInjective | script.js:66-69 | distinct paths starting with `/` give distinct store keys |
| Extractor.FaviconNeverDropsRecord | script.js:83-93 | the favicon fetch decides neither whether a record exists nor any field other than `favicon`, and a rejected or not-ok response gives `/default-favicon.png` |
| Walker.ExtractedStep | script.js:41-54 | handling one more entry of a listing appends exactly the records that entry yields |
| Walker.PageExtracted | script.js:42-48 | a page yields the record `processFile` builds at its normalised path if there is one, and nothing otherwise |
| Walker.PagePathPlain | script.js:43-44 | removing a trailing slash never changes a page's path, because a page's name ends in `.html` |
| Walker.DocumentsAppend | script.js:41-51 | walking a listing in two parts gives the pages of the first part followed by those of the second |
| Walker.ExtractedAppend | script.js:46-47 | the records of two page lists joined are the records of each, in order |
| Walker.SomesExactly | script.js:46-47 | `if (fileData) push` keeps every record built and nothing else, and never more records than pages |
| Walker.EntryDocumentPaths | script.js:42-50 | every page under an entry has a path that starts with `path + "/"` and ends in `.html`, and a non-page file yields nothing |
| Walker.DocumentPaths | script.js:41-51 | every page found in a listing under `path` has a path that starts with `path + "/"` and ends in `.html` |
| Walker.ExtractedFrom | script.js:45-47 | a record is in the scan exactly when `processFile` built it from one of the walked pages |
| Walker.RootRecordUrls | script.js:66-69 | every record of a scan started at `''` has `url` equal to `hnet://` followed by its page path without the leading `/` |
| Walker.ExtractedFaviconIndependent | script.js:83-93 | the favicon oracle changes neither the number of records a scan yields nor any of their fields other than `favicon` |
| Store.LastWith | script.js:99-101 | the index of the last item with a given key, or -1 when no item has it |
| Store.PutAllAt | script.js:99-101 | after the `put`s, a key some item carries holds the last such item, and every other key keeps its old entry or stays absent |
| Store.PutAllKeepsKeys | script.js:99-101 | saving never removes a key |
| Store.PutAllKeyed | script.js:99-101 | saving keeps every record under its own `url` |
| Store.PutAllIdempotent | script.js:99-101 | saving the same records twice leaves the store as saving them once |
| Store.LaterSaveWins | script.js:11-18 | a later scan wins for every key it touched, and keys it did not touch keep what the earlier scan left |
| Search.CollectResults | script.js:170-199 | the loop with its `seenResults` set computes `Results(data, term)` |
| Search.KeysOfSnoc | script.js:196 | adding a result adds exactly its key to `seenResults` |
| Search.ResultsKeys | script.js:179-182 | the result keys are exactly the keys of the matching listed items |
| Search.ResultsMatch | script.js:179 | every result's lower-cased title or description contains the term |
| Search.ResultsDistinctKeys | script.js:180-182 | no two results share a key |
| Search.ResultsSubsequence | script.js:172-195 | the results occur in the listing, in listing order |
| Search.ResultsAreFirstMatches | script.js:172-199 | the results are exactly the first matching item of each key, in listing order |
| Search.ResultKeysFromStore | script.js:169-182 | for any `getAll` order, the result keys are the keys of the stored records that match |
| Search.KeysCanCollide | script.js:180 | two records with different `hnet://` urls, one of them with `//` after the scheme, can have the same de-duplication key |
| Search.KeysDistinguishRecords | script.js:180-182 | two records whose `hnet://` urls have no `//` after the scheme share a key only when their titles and urls are equal |
| Search.ResultsKeepAllMatches | script.js:179-196 | when no two listed items share a key, every matching item is a result |
| Search.SearchShowsEveryStoredMatch | script.js:169-196 | for a store whose urls have no `//` after the scheme, every stored record that matches is a result, whatever the `getAll` order |
| Indexer.Indexer.constructor | script.js:1-9 | at start, `fileHandles` is empty, `scannedFiles` is false, and the store is as persisted |
| Indexer.Indexer.LoadFiles | script.js:32-55 | `fileHandles` becomes its old value followed by the records of the walked pages, in depth-first order |
| Indexer.Indexer.SaveDataToIndexedDB | script.js:95-103 | the store becomes `PutAll(old store, fileHandles)`, and every record stays under its own `url` |
| Indexer.Indexer.LoadDataFromIndexedDB | script.js:105-111 | `getAll` lists every stored record exactly once, in some order |
| Indexer.Indexer.SearchFiles | script.js:154-200 | before a completed scan, or for a blank term, the result is empty and the store is not read; otherwise it is `Results` over a listing of the store, read once |
| Indexer.Indexer.LoadFolder | script.js:11-30 | a dismissed picker leaves `fileHandles` empty, `scannedFiles` false and the store unchanged; otherwise the scan's records are saved, and the logged `(scannedFiles, store)` states show `scannedFiles` false after clearing, after the walk and after the save, and true only after that |

## Left out

- The DOM and the UI are not modelled. This covers the progress bar, showing the search bar, replacing the button, the result HTML, the `setTimeout`, and the ad list with `createRandomAd` and its `Math.random`. Search returns the list of records it would render, in rendering order.
- `fileCount`, `processedFiles` and `progress` in `loadFiles` are not modelled, because they are computed and never used.
- The pages come from the File System Access API: `showDirectoryPicker`, `values()`, `getFile` and `text`. Here they are given as an `Entry` tree holding each file's text. A failed read rejects `processFile`'s promise, which aborts the whole scan; this failure path is not modelled.
- The `idb` library, `dbPromise`, the transactions and `tx.done` are not modelled. The store is a map updated in place. A store failure, which would abort the scan or the search, is not modelled.
- `getAll` returns the records in key order. The model allows any order (`Enumerates`), which is weaker than the real order but covers it.
- The code is `async`, but every `await` is sequential, so the methods run to completion. Overlapping a search with a scan, which the real page allows, is not modelled.
- `fetch`, `response.blob()` and `URL.createObjectURL` are one oracle from URL to `NetworkError` or `Response(ok, objectUrl)`. `console.error` is not modelled.
- Strings are sequences of `char`. `toLowerCase` is modelled for ASCII only. `trim` covers ASCII whitespace only; JavaScript also strips U+00A0, U+FEFF, the Unicode space separators, and the line terminators U+2028 and U+2029. UTF-16 surrogate pairs are not distinguished.
- Extractor.FaviconNeverDropsRecord: says nothing about timing. The source sets no timeout on the favicon fetch, so a hanging request stalls the scan.
- Names within one directory are not required to be distinct in the `Entry` tree. A real directory listing has distinct names, and that is what keeps the walked paths, and so the store keys, apart (`HnetUrlInjective`).
- `Entry` names may be empty or contain `/`, which a real listing never allows. Such names can build paths with `//`, which `Search.KeysDistinguishRecords` and `Search.SearchShowsEveryStoredMatch` exclude by their requirement. That a real walk never builds such a path is not proved.
