/**
 * The matching and de-duplication loop of `searchFiles`, with the result
 * list in place of the DOM nodes it appends. A record matches when its
 * lower-cased title or description contains the search term; of the
 * matching records, only the first one with a given key
 * `${title}-${hnetUrl}` is kept.
 */
module Search {
  import opened Text
  import opened Extractor
  import opened Store

  /** `searchBar.value.toLowerCase().trim()`. */
  function SearchTerm(input: string): string {
    Trim(Lower(input))
  }

  /** `uniqueKey`: one concatenated string, not a pair. */
  function ResultKey(r: Record): string {
    r.title + "-" + r.url
  }

  predicate Matches(r: Record, term: string) {
    Includes(Lower(r.title), term) || Includes(Lower(r.description), term)
  }

  /** The set of keys of a result list: the loop's `seenResults`. */
  function KeysOf(rs: seq<Record>): set<string> {
    set i | 0 <= i < |rs| :: ResultKey(rs[i])
  }

  /** What the loop over `data` has appended once it has seen every item. */
  function Results(data: seq<Record>, term: string): seq<Record>
    decreases |data|
  {
    if data == [] then []
    else
      var prev := Results(data[..|data| - 1], term);
      var item := data[|data| - 1];
      if Matches(item, term) && ResultKey(item) !in KeysOf(prev) then prev + [item] else prev
  }

  lemma KeysOfSnoc(rs: seq<Record>, r: Record)
    ensures KeysOf(rs + [r]) == KeysOf(rs) + {ResultKey(r)}
  {
    var both := rs + [r];
    assert ResultKey(both[|rs|]) == ResultKey(r);
    forall k | k in KeysOf(rs) ensures k in KeysOf(both) {
      var i :| 0 <= i < |rs| && ResultKey(rs[i]) == k;
      assert both[i] == rs[i];
    }
  }

  /**
   * The loop of `searchFiles` over the listed records: each matching item
   * whose key is not yet in `seenResults` is appended and its key added.
   */
  method CollectResults(data: seq<Record>, term: string) returns (results: seq<Record>)
    ensures results == Results(data, term)
  {
    results := [];
    var seenResults: set<string> := {};
    for i := 0 to |data|
      invariant results == Results(data[..i], term)
      invariant seenResults == KeysOf(results)
    {
      var item := data[i];
      assert data[..i + 1][..i] == data[..i];
      if Includes(Lower(item.title), term) || Includes(Lower(item.description), term) {
        var uniqueKey := item.title + "-" + item.url;
        if uniqueKey !in seenResults {
          KeysOfSnoc(results, item);
          results := results + [item];
          seenResults := seenResults + {uniqueKey};
        }
      }
    }
    assert data[..|data|] == data;
  }

  /** The keys of the results are exactly the keys of the matching items. */
  lemma {:induction false} ResultsKeys(data: seq<Record>, term: string)
    ensures KeysOf(Results(data, term)) == set i | 0 <= i < |data| && Matches(data[i], term) :: ResultKey(data[i])
    decreases |data|
  {
    if data != [] {
      var init := data[..|data| - 1];
      var item := data[|data| - 1];
      ResultsKeys(init, term);
      var prev := Results(init, term);
      if Matches(item, term) && ResultKey(item) !in KeysOf(prev) {
        KeysOfSnoc(prev, item);
      }
      var want := set i | 0 <= i < |data| && Matches(data[i], term) :: ResultKey(data[i]);
      var had := set i | 0 <= i < |init| && Matches(init[i], term) :: ResultKey(init[i]);
      assert forall i :: 0 <= i < |init| ==> init[i] == data[i];
      assert want == had + (if Matches(item, term) then {ResultKey(item)} else {});
    }
  }

  /** Every result matches the term. */
  lemma {:induction false} ResultsMatch(data: seq<Record>, term: string)
    ensures forall i :: 0 <= i < |Results(data, term)| ==> Matches(Results(data, term)[i], term)
    decreases |data|
  {
    if data != [] {
      ResultsMatch(data[..|data| - 1], term);
    }
  }

  /** No two results share a key. */
  lemma {:induction false} ResultsDistinctKeys(data: seq<Record>, term: string)
    ensures forall i, j :: 0 <= i < j < |Results(data, term)| ==> ResultKey(Results(data, term)[i]) != ResultKey(Results(data, term)[j])
    decreases |data|
  {
    if data != [] {
      var prev := Results(data[..|data| - 1], term);
      ResultsDistinctKeys(data[..|data| - 1], term);
      var item := data[|data| - 1];
      if Matches(item, term) && ResultKey(item) !in KeysOf(prev) {
        var rs := prev + [item];
        forall i | 0 <= i < |prev| ensures ResultKey(rs[i]) != ResultKey(item) {
          assert ResultKey(prev[i]) in KeysOf(prev);
        }
      }
    }
  }

  /** `idx` picks the elements of `sub` out of `s`, in increasing positions. */
  ghost predicate PicksOut(sub: seq<Record>, s: seq<Record>, idx: seq<int>) {
    && |idx| == |sub|
    && (forall k :: 0 <= k < |idx| ==> 0 <= idx[k] < |s| && s[idx[k]] == sub[k])
    && (forall k, l :: 0 <= k < l < |idx| ==> idx[k] < idx[l])
  }

  /** The results are a subsequence of the listed records, in listing order. */
  lemma {:induction false} ResultsSubsequence(data: seq<Record>, term: string) returns (idx: seq<int>)
    ensures PicksOut(Results(data, term), data, idx)
    decreases |data|
  {
    if data == [] {
      idx := [];
    } else {
      var init := data[..|data| - 1];
      var item := data[|data| - 1];
      var prev := Results(init, term);
      idx := ResultsSubsequence(init, term);
      assert forall k :: 0 <= k < |idx| ==> data[idx[k]] == init[idx[k]];
      if Matches(item, term) && ResultKey(item) !in KeysOf(prev) {
        assert Results(data, term) == prev + [item];
        idx := idx + [|data| - 1];
      } else {
        assert Results(data, term) == prev;
      }
    }
  }

  /**
   * `data[i]` is the first matching item with its key: it matches, and no
   * earlier matching item has the same key.
   */
  ghost predicate FirstMatch(data: seq<Record>, i: int, term: string)
    requires 0 <= i < |data|
  {
    Matches(data[i], term) &&
    forall j :: 0 <= j < i && Matches(data[j], term) ==> ResultKey(data[j]) != ResultKey(data[i])
  }

  /** The first matching items among `data[..n]`, in order: a reference definition of the results. */
  ghost function FirstMatches(data: seq<Record>, term: string, n: nat): seq<Record>
    requires n <= |data|
  {
    if n == 0 then []
    else FirstMatches(data, term, n - 1) + (if FirstMatch(data, n - 1, term) then [data[n - 1]] else [])
  }

  /**
   * The loop keeps exactly the first occurrence of every matching key: its
   * result is the list of first matching items. So every matching item's
   * key is represented, by its first occurrence.
   */
  lemma ResultsAreFirstMatches(data: seq<Record>, term: string)
    ensures Results(data, term) == FirstMatches(data, term, |data|)
  {
    for n := 0 to |data|
      invariant Results(data[..n], term) == FirstMatches(data, term, n)
    {
      var init := data[..n];
      var item := data[n];
      var prev := Results(init, term);
      assert data[..n + 1][..n] == init;
      assert data[..n + 1][n] == item;
      assert Results(data[..n + 1], term) ==
        if Matches(item, term) && ResultKey(item) !in KeysOf(prev) then prev + [item] else prev;
      ResultsKeys(init, term);
      assert forall j :: 0 <= j < n ==> init[j] == data[j];
      assert ResultKey(item) in KeysOf(prev) <==>
        exists j :: 0 <= j < n && Matches(data[j], term) && ResultKey(data[j]) == ResultKey(item);
      assert FirstMatch(data, n, term) <==> Matches(item, term) && ResultKey(item) !in KeysOf(prev);
    }
    assert data[..|data|] == data;
  }

  /**
   * However `getAll` orders the store, the keys of the results are the
   * keys of the stored records that match: the listing order decides
   * only which of several records with one key is shown, and where.
   */
  lemma ResultKeysFromStore(store: map<string, Record>, data: seq<Record>, term: string)
    requires Enumerates(store, data)
    ensures KeysOf(Results(data, term)) == set k | k in store && Matches(store[k], term) :: ResultKey(store[k])
  {
    ResultsKeys(data, term);
    var fromData := set i | 0 <= i < |data| && Matches(data[i], term) :: ResultKey(data[i]);
    var fromStore := set k | k in store && Matches(store[k], term) :: ResultKey(store[k]);
    forall x | x in fromData ensures x in fromStore {
      var i :| 0 <= i < |data| && Matches(data[i], term) && ResultKey(data[i]) == x;
      assert store[data[i].url] == data[i];
    }
    forall x | x in fromStore ensures x in fromData {
      var k :| k in store && Matches(store[k], term) && ResultKey(store[k]) == x;
      var i :| 0 <= i < |data| && data[i].url == k;
    }
  }

  /**
   * The key is one concatenated string, so two records under different
   * store keys can still share it, and the second of them is then not
   * shown.
   */
  lemma KeysCanCollide()
    ensures exists r1: Record, r2: Record ::
      IsPrefix(HnetScheme, r1.url) && IsPrefix(HnetScheme, r2.url) && r1.url != r2.url && ResultKey(r1) == ResultKey(r2)
  {
    var u2 := HnetScheme + "c";
    var u1 := HnetScheme + "b" + "-" + u2;
    var r1 := Record("a", u1, "", "", "");
    var r2 := Record("a" + "-" + HnetScheme + "b", u2, "", "", "");
    assert ResultKey(r1) == ResultKey(r2);
    assert |u1| != |u2|;
    assert u1[..|HnetScheme|] == HnetScheme && u2[..|HnetScheme|] == HnetScheme;
  }

  /** `p` has no empty `/`-separated segment inside it: no `//`. */
  predicate NoEmptySegment(p: string) {
    forall i :: 0 <= i < |p| - 1 ==> !(p[i] == '/' && p[i + 1] == '/')
  }

  /** When the second title is at least eight longer, the second key's `-hnet://` falls inside the first path. */
  lemma SeparatorInPath(t1: string, p1: string, t2: string, p2: string)
    requires |t1| + 8 <= |t2|
    requires t1 + "-" + (HnetScheme + p1) == t2 + "-" + (HnetScheme + p2)
    ensures |t2| - |t1| - 1 < |p1|
    ensures p1[|t2| - |t1| - 2] == '/' && p1[|t2| - |t1| - 1] == '/'
  {
    var k := t1 + "-" + (HnetScheme + p1);
    var a, b := |t1|, |t2|;
    assert k[a + 8..] == p1;
    assert k[b + 6] == '/' && k[b + 7] == '/';
    assert p1[b - a - 2] == k[b + 6] && p1[b - a - 1] == k[b + 7];
  }

  /** Within a key's `-hnet://` separator, only its first character is `-`. */
  lemma SeparatorInside(t: string, p: string, i: int)
    requires |t| < i < |t| + 8
    ensures (t + "-" + (HnetScheme + p))[i] != '-'
  {
    assert (t + "-" + (HnetScheme + p))[i] == HnetScheme[i - |t| - 1];
  }

  /** A key has `-` right after its title. */
  lemma SeparatorAfterTitle(t: string, p: string)
    ensures (t + "-" + (HnetScheme + p))[|t|] == '-'
  {
  }

  /** One direction of `KeysDistinguishRecords`: the record with the shorter title. */
  lemma KeySplit(t1: string, p1: string, t2: string, p2: string)
    requires |t1| <= |t2|
    requires NoEmptySegment(p1)
    requires t1 + "-" + (HnetScheme + p1) == t2 + "-" + (HnetScheme + p2)
    ensures t1 == t2 && p1 == p2
  {
    var k := t1 + "-" + (HnetScheme + p1);
    var a, b := |t1|, |t2|;
    var sep := "-" + HnetScheme;
    assert k == t1 + sep + p1 && k == t2 + sep + p2;
    if a < b {
      if b < a + 8 {
        SeparatorInside(t1, p1, b);
        SeparatorAfterTitle(t2, p2);
        assert false;
      } else {
        SeparatorInPath(t1, p1, t2, p2);
        assert false;
      }
    }
    assert t1 == k[..a] && t2 == k[..b];
    assert p1 == k[a + 8..] && p2 == k[b + 8..];
  }

  /**
   * The string key `${title}-${url}` separates every two records whose
   * `hnet://` urls have no empty path segment: on such records it is as
   * good as the pair (title, url). Only a url with a `//` after the scheme
   * lets two records share a key, as in `KeysCanCollide`.
   */
  lemma KeysDistinguishRecords(r1: Record, r2: Record)
    requires IsPrefix(HnetScheme, r1.url) && NoEmptySegment(r1.url[|HnetScheme|..])
    requires IsPrefix(HnetScheme, r2.url) && NoEmptySegment(r2.url[|HnetScheme|..])
    requires ResultKey(r1) == ResultKey(r2)
    ensures r1.title == r2.title && r1.url == r2.url
  {
    var p1 := r1.url[|HnetScheme|..];
    var p2 := r2.url[|HnetScheme|..];
    assert r1.url == HnetScheme + p1 && r2.url == HnetScheme + p2;
    if |r1.title| <= |r2.title| {
      KeySplit(r1.title, p1, r2.title, p2);
    } else {
      KeySplit(r2.title, p2, r1.title, p1);
    }
  }

  /** When no two listed items share a key, every matching item is a result. */
  lemma ResultsKeepAllMatches(data: seq<Record>, term: string)
    requires forall i, j :: 0 <= i < j < |data| ==> ResultKey(data[i]) != ResultKey(data[j])
    ensures forall i :: 0 <= i < |data| && Matches(data[i], term) ==> data[i] in Results(data, term)
  {
    var rs := Results(data, term);
    ResultsKeys(data, term);
    var idx := ResultsSubsequence(data, term);
    forall i | 0 <= i < |data| && Matches(data[i], term) ensures data[i] in rs {
      assert ResultKey(data[i]) in KeysOf(rs);
      var m :| 0 <= m < |rs| && ResultKey(rs[m]) == ResultKey(data[i]);
      assert data[idx[m]] == rs[m];
    }
  }

  /**
   * On a store whose urls all have no empty path segment, de-duplication
   * drops nothing: whatever order `getAll` lists the store in, every stored
   * record that matches is shown.
   */
  lemma SearchShowsEveryStoredMatch(store: map<string, Record>, data: seq<Record>, term: string)
    requires Enumerates(store, data)
    requires forall k :: k in store ==> IsPrefix(HnetScheme, k) && NoEmptySegment(k[|HnetScheme|..])
    ensures forall k :: k in store && Matches(store[k], term) ==> store[k] in Results(data, term)
  {
    forall i, j | 0 <= i < j < |data| ensures ResultKey(data[i]) != ResultKey(data[j]) {
      if ResultKey(data[i]) == ResultKey(data[j]) {
        KeysDistinguishRecords(data[i], data[j]);
      }
    }
    ResultsKeepAllMatches(data, term);
    forall k | k in store && Matches(store[k], term) ensures store[k] in Results(data, term) {
      var i :| 0 <= i < |data| && data[i].url == k;
    }
  }
}
