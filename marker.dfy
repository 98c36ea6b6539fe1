/**
 * The two metadata markers of a page, matched as the source's regular
 * expressions `/<meta property="hnet:title" content="([^"]+)" \/>/` and
 * `/<meta property="hnet:description" content="([^"]+)" \/>/` match them:
 * a fixed opening text, a non-empty run of characters other than `"`
 * (the capture), then exactly `" />`. `String.prototype.match` without the
 * global flag reports the leftmost match; its group 1 is the capture.
 */
module Marker {
  import opened Wrappers
  import opened Text

  const TitleOpening: string := "<meta property=\"hnet:title\" content=\""
  const DescriptionOpening: string := "<meta property=\"hnet:description\" content=\""
  const Closing: string := "\" />"

  predicate NoQuote(v: string) {
    forall k :: 0 <= k < |v| ==> v[k] != '"'
  }

  /**
   * The pattern `opening ([^"]+)" />` matches `s` starting at index `i`,
   * with capture `v`. This is the declarative reading of the regular
   * expression; `MatchAt` and `LeftmostCapture` compute it.
   */
  predicate MatchesAt(s: string, opening: string, i: int, v: string) {
    && OccursAt(s, opening, i)
    && v != [] && NoQuote(v)
    && OccursAt(s, v, i + |opening|)
    && OccursAt(s, Closing, i + |opening| + |v|)
  }

  /** No match of the pattern starts at an index in `[lo, hi)`. */
  ghost predicate NoMatchIn(s: string, opening: string, lo: int, hi: int) {
    forall p, v :: lo <= p < hi ==> !MatchesAt(s, opening, p, v)
  }

  /** The index of the first `"` at or after `j`, or `|s|` when there is none. */
  function QuoteFrom(s: string, j: nat): nat
    decreases |s| - j
  {
    if j >= |s| || s[j] == '"' then j else QuoteFrom(s, j + 1)
  }

  lemma {:induction false} QuoteFromSpec(s: string, j: nat)
    requires j <= |s|
    ensures j <= QuoteFrom(s, j) <= |s|
    ensures NoQuote(s[j..QuoteFrom(s, j)])
    ensures QuoteFrom(s, j) < |s| ==> s[QuoteFrom(s, j)] == '"'
    decreases |s| - j
  {
    if j < |s| && s[j] != '"' {
      QuoteFromSpec(s, j + 1);
      assert s[j..QuoteFrom(s, j)] == [s[j]] + s[j + 1..QuoteFrom(s, j + 1)];
    }
  }

  /**
   * The regular expression tried at one start index `i`: the opening, then
   * every character up to the next `"`, which must begin the closing.
   */
  function MatchAt(s: string, opening: string, i: nat): Option<string> {
    var j := i + |opening|;
    if OccursAt(s, opening, i) then
      var k := QuoteFrom(s, j);
      if j < k && OccursAt(s, Closing, k) then Some(s[j..k]) else None
    else
      None
  }

  /**
   * `MatchAt` finds the match at `i` whenever there is one, and then
   * there is only one: the greedy `[^"]+` takes every character up to the
   * next `"`, and backtracking cannot help, because a shorter run is
   * followed by a character other than `"`.
   */
  lemma MatchAtSpec(s: string, opening: string, i: nat)
    ensures MatchAt(s, opening, i).Some? ==> MatchesAt(s, opening, i, MatchAt(s, opening, i).value)
    ensures forall v :: MatchesAt(s, opening, i, v) ==> MatchAt(s, opening, i) == Some(v)
  {
    var j := i + |opening|;
    if OccursAt(s, opening, i) {
      QuoteFromSpec(s, j);
      var k := QuoteFrom(s, j);
      forall v | MatchesAt(s, opening, i, v) ensures v == s[j..k] {
        assert s[j + |v|] == Closing[0];
      }
      if j < k && OccursAt(s, Closing, k) {
        assert OccursAt(s, s[j..k], j);
      }
    }
  }

  /** The leftmost match starting at or after index `i`. */
  function FindFrom(s: string, opening: string, i: nat): Option<string>
    decreases |s| + 1 - i
  {
    if i > |s| then
      None
    else if MatchAt(s, opening, i).Some? then
      MatchAt(s, opening, i)
    else
      FindFrom(s, opening, i + 1)
  }

  lemma {:induction false} FindFromSpec(s: string, opening: string, i: nat)
    ensures FindFrom(s, opening, i).Some? ==>
      exists p :: i <= p && MatchesAt(s, opening, p, FindFrom(s, opening, i).value) && NoMatchIn(s, opening, i, p)
    ensures FindFrom(s, opening, i).None? ==> NoMatchIn(s, opening, i, |s| + 1)
    decreases |s| + 1 - i
  {
    if i <= |s| {
      MatchAtSpec(s, opening, i);
      if MatchAt(s, opening, i).Some? {
        assert NoMatchIn(s, opening, i, i);
      } else {
        FindFromSpec(s, opening, i + 1);
      }
    }
  }

  /**
   * `s.match(re)` followed by `[1]`: the capture of the leftmost match of
   * the marker pattern, or `None` when there is no match.
   */
  function LeftmostCapture(s: string, opening: string): Option<string> {
    FindFrom(s, opening, 0)
  }

  /**
   * `LeftmostCapture` is `None` exactly when the pattern matches nowhere,
   * and otherwise the capture of a match that no match starts before.
   */
  lemma LeftmostCaptureSpec(s: string, opening: string)
    ensures LeftmostCapture(s, opening).None? <==> forall p, v :: !MatchesAt(s, opening, p, v)
    ensures LeftmostCapture(s, opening).Some? ==>
      exists p :: MatchesAt(s, opening, p, LeftmostCapture(s, opening).value) && NoMatchIn(s, opening, 0, p)
  {
    FindFromSpec(s, opening, 0);
    assert forall p, v :: MatchesAt(s, opening, p, v) ==> 0 <= p <= |s|;
  }
}
