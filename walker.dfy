/**
 * The directory tree `loadFiles` walks, and what the walk produces. A
 * directory is the list of its entries in the order `values()` lists
 * them; a file carries its name and its text. `Documents` is the
 * depth-first sequence of pages (files whose name ends in `.html`) with
 * the paths `loadFiles` gives them, and `Extracted` keeps the records
 * `processFile` builds from them, in the same order.
 */
module Walker {
  import opened Wrappers
  import opened Text
  import opened Extractor

  datatype Entry =
    | File(name: string, content: string)
    | Directory(name: string, entries: seq<Entry>)

  /** A page handed to `processFile`: its normalised path and its text. */
  datatype Document = Document(path: string, content: string)

  const PageExtension: string := ".html"

  predicate IsPage(e: Entry) {
    e.File? && IsSuffix(PageExtension, e.name)
  }

  /** `${path}/${entry.name}` with one trailing slash removed, as the source normalises it. */
  function PagePath(path: string, name: string): string {
    StripTrailingSlash(path + "/" + name)
  }

  function EntryDocuments(e: Entry, path: string): seq<Document>
    decreases e
  {
    match e
    case File(name, content) =>
      if IsSuffix(PageExtension, name) then [Document(PagePath(path, name), content)] else []
    case Directory(name, entries) =>
      Documents(entries, path + "/" + name)
  }

  function Documents(entries: seq<Entry>, path: string): seq<Document>
    decreases entries
  {
    if entries == [] then [] else EntryDocuments(entries[0], path) + Documents(entries[1..], path)
  }

  /** `processFile` with the favicon oracle fixed, as a function of the page. */
  function PageExtractor(fetch: string -> FetchOutcome): Document -> Option<Record> {
    (d: Document) => ProcessFile(d.path, d.content, fetch)
  }

  /** What `extract` returns for each page, in order. */
  function Outcomes(docs: seq<Document>, extract: Document -> Option<Record>): (r: seq<Option<Record>>)
    ensures |r| == |docs|
  {
    seq(|docs|, i requires 0 <= i < |docs| => extract(docs[i]))
  }

  lemma OutcomesAppend(a: seq<Document>, b: seq<Document>, extract: Document -> Option<Record>)
    ensures Outcomes(a + b, extract) == Outcomes(a, extract) + Outcomes(b, extract)
  {
  }

  /** The records among the outcomes, in order: `if (fileData) fileHandles.push(fileData)`. */
  function Somes(os: seq<Option<Record>>): seq<Record> {
    if os == [] then [] else (if os[0].Some? then [os[0].value] else []) + Somes(os[1..])
  }

  /** The records `loadFiles` appends for a sequence of pages. */
  function Extracted(docs: seq<Document>, fetch: string -> FetchOutcome): seq<Record> {
    Somes(Outcomes(docs, PageExtractor(fetch)))
  }

  lemma {:induction false} SomesAppend(a: seq<Option<Record>>, b: seq<Option<Record>>)
    ensures Somes(a + b) == Somes(a) + Somes(b)
  {
    if a != [] {
      assert (a + b)[0] == a[0];
      assert (a + b)[1..] == a[1..] + b;
      SomesAppend(a[1..], b);
    } else {
      assert a + b == b;
    }
  }

  /** `Somes` keeps every record of the outcomes and nothing else. */
  lemma {:induction false} SomesExactly(os: seq<Option<Record>>)
    ensures forall r :: r in Somes(os) <==> Some(r) in os
    ensures |Somes(os)| <= |os|
  {
    if os != [] {
      SomesExactly(os[1..]);
      assert os == [os[0]] + os[1..];
    }
  }

  /** Outcomes that agree on everything but the favicon keep records that agree on everything but the favicon. */
  lemma {:induction false} SomesIgnoringFavicon(os: seq<Option<Record>>, other: seq<Option<Record>>)
    requires |os| == |other|
    requires forall i :: 0 <= i < |os| ==> os[i].Some? == other[i].Some?
    requires forall i :: 0 <= i < |os| && os[i].Some? ==> os[i].value.(favicon := "") == other[i].value.(favicon := "")
    ensures |Somes(os)| == |Somes(other)|
    ensures forall i :: 0 <= i < |Somes(os)| ==> Somes(os)[i].(favicon := "") == Somes(other)[i].(favicon := "")
  {
    if os != [] {
      SomesIgnoringFavicon(os[1..], other[1..]);
    }
  }

  /** Walking a listing entry by entry is walking it all at once. */
  lemma {:induction false} DocumentsAppend(a: seq<Entry>, b: seq<Entry>, path: string)
    ensures Documents(a + b, path) == Documents(a, path) + Documents(b, path)
  {
    if a != [] {
      calc {
        Documents(a + b, path);
        { assert (a + b)[0] == a[0]; assert (a + b)[1..] == a[1..] + b; }
        EntryDocuments(a[0], path) + Documents(a[1..] + b, path);
        { DocumentsAppend(a[1..], b, path); }
        EntryDocuments(a[0], path) + (Documents(a[1..], path) + Documents(b, path));
      }
    } else {
      assert a + b == b;
    }
  }

  lemma ExtractedAppend(a: seq<Document>, b: seq<Document>, fetch: string -> FetchOutcome)
    ensures Extracted(a + b, fetch) == Extracted(a, fetch) + Extracted(b, fetch)
  {
    OutcomesAppend(a, b, PageExtractor(fetch));
    SomesAppend(Outcomes(a, PageExtractor(fetch)), Outcomes(b, PageExtractor(fetch)));
  }

  /** Walking one more entry of a listing appends what that entry yields. */
  lemma ExtractedStep(entries: seq<Entry>, i: nat, path: string, fetch: string -> FetchOutcome)
    requires i < |entries|
    ensures Extracted(Documents(entries[..i + 1], path), fetch) ==
      Extracted(Documents(entries[..i], path), fetch) + Extracted(EntryDocuments(entries[i], path), fetch)
  {
    assert entries[..i + 1] == entries[..i] + [entries[i]];
    assert Documents([entries[i]], path) == EntryDocuments(entries[i], path);
    DocumentsAppend(entries[..i], [entries[i]], path);
    ExtractedAppend(Documents(entries[..i], path), EntryDocuments(entries[i], path), fetch);
  }

  /** A page yields the record `processFile` builds from it at its normalised path, if any. */
  lemma PageExtracted(name: string, content: string, path: string, fetch: string -> FetchOutcome)
    requires IsSuffix(PageExtension, name)
    ensures Extracted(EntryDocuments(File(name, content), path), fetch) ==
      Somes([ProcessFile(PagePath(path, name), content, fetch)])
  {
    var doc := Document(PagePath(path, name), content);
    assert Outcomes([doc], PageExtractor(fetch)) == [PageExtractor(fetch)(doc)];
  }

  /** A page's name ends in `.html`, so the trailing-slash removal never changes its path. */
  lemma PagePathPlain(path: string, name: string)
    requires IsSuffix(PageExtension, name)
    ensures PagePath(path, name) == path + "/" + name
  {
    assert name[|name| - 1] == PageExtension[4];
  }

  /**
   * Every page found under `path` has a path that starts with `path + "/"`
   * and ends with `.html`; entries that are neither pages nor directories
   * contribute nothing.
   */
  lemma {:induction false} EntryDocumentPaths(e: Entry, path: string)
    ensures forall d :: d in EntryDocuments(e, path) ==> IsPrefix(path + "/", d.path) && IsSuffix(PageExtension, d.path)
    ensures e.File? && !IsPage(e) ==> EntryDocuments(e, path) == []
    decreases e, 1
  {
    match e
    case File(name, content) =>
      if IsSuffix(PageExtension, name) {
        PagePathPlain(path, name);
        var p := path + "/" + name;
        assert p[..|path + "/"|] == path + "/";
        assert p[|p| - |PageExtension|..] == name[|name| - |PageExtension|..];
      }
    case Directory(name, entries) =>
      var sub := path + "/" + name;
      DocumentPaths(entries, sub);
      forall d | d in Documents(entries, sub) ensures IsPrefix(path + "/", d.path) {
        assert d.path[..|path + "/"|] == d.path[..|sub + "/"|][..|path + "/"|];
      }
  }

  lemma {:induction false} DocumentPaths(entries: seq<Entry>, path: string)
    ensures forall d :: d in Documents(entries, path) ==> IsPrefix(path + "/", d.path) && IsSuffix(PageExtension, d.path)
    decreases entries, 0
  {
    if entries != [] {
      EntryDocumentPaths(entries[0], path);
      DocumentPaths(entries[1..], path);
    }
  }

  /** `Extracted` keeps exactly the records `processFile` builds from the pages, and no more records than pages. */
  lemma ExtractedFrom(docs: seq<Document>, fetch: string -> FetchOutcome)
    ensures forall r :: r in Extracted(docs, fetch) <==>
      exists i :: 0 <= i < |docs| && ProcessFile(docs[i].path, docs[i].content, fetch) == Some(r)
    ensures |Extracted(docs, fetch)| <= |docs|
  {
    var os := Outcomes(docs, PageExtractor(fetch));
    SomesExactly(os);
    forall r ensures Some(r) in os <==> exists i :: 0 <= i < |docs| && ProcessFile(docs[i].path, docs[i].content, fetch) == Some(r) {
      if Some(r) in os {
        var i :| 0 <= i < |os| && os[i] == Some(r);
        assert os[i] == PageExtractor(fetch)(docs[i]);
      }
      if exists i :: 0 <= i < |docs| && ProcessFile(docs[i].path, docs[i].content, fetch) == Some(r) {
        var i :| 0 <= i < |docs| && ProcessFile(docs[i].path, docs[i].content, fetch) == Some(r);
        assert os[i] == PageExtractor(fetch)(docs[i]);
      }
    }
  }

  /**
   * The scan started at the picked directory with path `''`: every record's
   * page path starts with `/`, so its `url` is `hnet://` followed by the
   * rest of that path.
   */
  lemma RootRecordUrls(root: seq<Entry>, fetch: string -> FetchOutcome)
    ensures forall r :: r in Extracted(Documents(root, ""), fetch) ==>
      exists d :: d in Documents(root, "") && IsPrefix("/", d.path) && r.url == HnetScheme + d.path[1..]
  {
    var docs := Documents(root, "");
    DocumentPaths(root, "");
    ExtractedFrom(docs, fetch);
    forall r | r in Extracted(docs, fetch)
      ensures exists d :: d in docs && IsPrefix("/", d.path) && r.url == HnetScheme + d.path[1..]
    {
      var i :| 0 <= i < |docs| && ProcessFile(docs[i].path, docs[i].content, fetch) == Some(r);
      var d := docs[i];
      assert d in docs;
      ProcessFileUrls(d.path, d.content, fetch);
    }
  }

  /** The favicon oracle decides neither how many records a walk yields nor anything in them but the favicon. */
  lemma ExtractedFaviconIndependent(docs: seq<Document>, fetch: string -> FetchOutcome, other: string -> FetchOutcome)
    ensures |Extracted(docs, fetch)| == |Extracted(docs, other)|
    ensures forall i :: 0 <= i < |Extracted(docs, fetch)| ==>
      Extracted(docs, fetch)[i].(favicon := "") == Extracted(docs, other)[i].(favicon := "")
  {
    forall i | 0 <= i < |docs| {
      FaviconNeverDropsRecord(docs[i].path, docs[i].content, fetch, other);
    }
    SomesIgnoringFavicon(Outcomes(docs, PageExtractor(fetch)), Outcomes(docs, PageExtractor(other)));
  }
}
