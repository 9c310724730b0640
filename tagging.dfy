/** The search-and-tag scan of `CodeText.markup_one`: the buffer is a flat
    string, a pattern is a literal string, and `tag_add` over a range adds
    its offsets to a set. */
module Tagging {
  import opened Chars
  import opened Wrappers

  /** Tk's regular-expression search for `p + '(\n|\W)'` matches at offset
      `i`: the pattern, then one character that is not a word character
      (a newline is one such). The match is `|p| + 1` characters long. */
  predicate MatchAt(text: string, p: string, i: int) {
    0 <= i && i + |p| < |text| && text[i..i + |p|] == p && !IsWordChar(text[i + |p|])
  }

  /** `self.search(pattern, from, 'end', count=count)`: the first match at
      or after `from`, if any. */
  function Search(text: string, p: string, from: nat): (r: Option<nat>)
    decreases |text| - from
    ensures r.Some? ==> from <= r.value && r.value + |p| < |text|
  {
    if from >= |text| then None
    else if MatchAt(text, p, from) then Some(from)
    else Search(text, p, from + 1)
  }

  /** The search finds the first match at or after `from`, and finds
      nothing only when there is no such match. */
  lemma {:induction false} SearchSpec(text: string, p: string, from: nat)
    ensures var r := Search(text, p, from);
      (r.Some? ==> from <= r.value && MatchAt(text, p, r.value)) &&
      (r.Some? ==> forall j :: from <= j < r.value ==> !MatchAt(text, p, j)) &&
      (r.None? ==> forall j :: from <= j ==> !MatchAt(text, p, j))
    decreases |text| - from
  {
    if from < |text| && !MatchAt(text, p, from) {
      SearchSpec(text, p, from + 1);
    }
  }

  /** `self.get('{start}-1c', start)`: the character before offset `i`, or
      the empty string at the start of the buffer. */
  function Preceding(text: string, i: nat): string
    requires i <= |text|
  {
    if i == 0 then "" else text[i - 1..i]
  }

  /** The acceptance test of line 119, as written: the preceding text is
      not "in" `string.ascii_letters`, or the match is at the buffer start. */
  predicate AcceptedAsWritten(text: string, i: nat)
    requires i <= |text|
  {
    !PyIn(Preceding(text, i), AsciiLetters()) || i == 0
  }

  /** A match is kept when it starts the buffer or follows a character that
      is not an ASCII letter (a digit or `_` does not block it). */
  predicate Accepted(text: string, i: nat)
    requires i <= |text|
  {
    i == 0 || !IsAsciiLetter(text[i - 1])
  }

  /** The empty string is "in" every string, so without the `start == '1.0'`
      clause a match at the buffer start would never be tagged. */
  lemma StartNeedsOwnClause(text: string)
    ensures PyIn(Preceding(text, 0), AsciiLetters())
  {
    PyInLetters("");
  }

  /** The test as written is the acceptance rule. */
  lemma AcceptanceRule(text: string, i: nat)
    requires i <= |text|
    ensures AcceptedAsWritten(text, i) <==> Accepted(text, i)
  {
    if i > 0 {
      PyInLetters(Preceding(text, i));
    }
  }

  /** The offsets `tag_add(tag, a, b)` covers. */
  function Range(a: nat, b: nat): (r: set<nat>)
    ensures forall k :: k in r <==> a <= k < b
    decreases b - a
  {
    if b <= a then {} else {a} + Range(a + 1, b)
  }

  /** One turn of the loop of lines 114-118 as written: from offset `end`,
      the next value of `end`, or None when the loop returns. */
  function StepAsWritten(text: string, p: string, end: nat): Option<nat> {
    match Search(text, p, end)
    case None => None
    case Some(start) => if |p| + 1 == 0 then None else Some(start + (|p| + 1) - 1)
  }

  /** The loop as written returns only when the search fails. */
  lemma AsWrittenStopsOnlyAtEnd(text: string, p: string, end: nat)
    ensures StepAsWritten(text, p, end).None? <==> Search(text, p, end).None?
  {
  }

  /** The guard `count.get() == 0` never fires, because the appended
      `(\n|\W)` always consumes one character: with the empty pattern the
      scan finds the same match again and again and never returns. */
  lemma EmptyPatternStalls()
    ensures Search(" \n", "", 0) == Some(0)
    ensures StepAsWritten(" \n", "", 0) == Some(0)
  {
    assert MatchAt(" \n", "", 0);
  }

  /** The loop turn with the guard the scan needs: it returns when the match
      is only the boundary character (`count.get() <= 1`). */
  function Step(text: string, p: string, end: nat): (r: Option<nat>)
    ensures r.Some? ==> end < r.value < |text|
  {
    match Search(text, p, end)
    case None => None
    case Some(start) => if |p| + 1 <= 1 then None else Some(start + (|p| + 1) - 1)
  }

  /** With the corrected guard the two loops agree on every non-empty pattern. */
  lemma StepAgrees(text: string, p: string, end: nat)
    requires |p| > 0
    ensures Step(text, p, end) == StepAsWritten(text, p, end)
  {
  }

  /** The offsets `markup_one` tags when its scan starts at `from`: the
      accepted matches, each without its trailing boundary character, with
      the next search starting at that boundary character. */
  function ScanTags(text: string, p: string, from: nat): set<nat>
    requires from <= |text|
    decreases |text| - from
  {
    match Search(text, p, from)
    case None => {}
    case Some(start) =>
      if |p| == 0 then {}
      else
        (if Accepted(text, start) then Range(start, start + |p|) else {})
        + ScanTags(text, p, start + |p|)
  }

  /** One turn of the scan: the search from `from` found `start`. */
  lemma ScanTagsStep(text: string, p: string, from: nat, start: nat)
    requires from <= |text| && |p| > 0 && Search(text, p, from) == Some(start)
    ensures start + |p| <= |text|
    ensures ScanTags(text, p, from) ==
              (if Accepted(text, start) then Range(start, start + |p|) else {}) + ScanTags(text, p, start + |p|)
  {
  }

  /** One turn of the loop of `markup_one` keeps `added + ScanTags(text, p, end)`
      constant: the offsets of an accepted match move from the second part
      to the first, and the next search starts further on. */
  lemma ScanAdvance(text: string, p: string, end: nat, start: nat, keep: bool,
                    tagged: set<nat>, next: set<nat>, nextEnd: nat, total: set<nat>)
    requires end <= |text| && |p| > 0 && Search(text, p, end) == Some(start)
    requires tagged + ScanTags(text, p, end) == total
    requires keep == Accepted(text, start) && nextEnd == start + |p|
    requires next == if keep then tagged + Range(start, nextEnd) else tagged
    ensures nextEnd <= |text|
    ensures next + ScanTags(text, p, nextEnd) == total
  {
    ScanTagsStep(text, p, end, start);
  }

  /** The scan tags nothing once the search fails, or for the empty pattern. */
  lemma ScanTagsDone(text: string, p: string, from: nat)
    requires from <= |text| && (|p| == 0 || Search(text, p, from).None?)
    ensures ScanTags(text, p, from) == {}
  {
  }

  /** A pattern made of word characters only, like every keyword. */
  predicate WordPattern(p: string) {
    |p| > 0 && forall i :: 0 <= i < |p| ==> IsWordChar(p[i])
  }

  /** Offset `k` lies inside an accepted match that starts at or after `from`. */
  ghost predicate TaggedFrom(text: string, p: string, from: nat, k: nat) {
    exists i: nat :: from <= i && MatchAt(text, p, i) && Accepted(text, i) && i <= k < i + |p|
  }

  /** Matches of a word pattern never overlap: the boundary character of
      one would have to be a character of the other. */
  lemma MatchesDisjoint(text: string, p: string, i: nat, j: nat)
    requires WordPattern(p) && MatchAt(text, p, i) && MatchAt(text, p, j) && i < j
    ensures i + |p| <= j
  {
  }

  /** The accepted matches from `from` are the first one followed by those
      from its boundary character on. */
  lemma TaggedSplit(text: string, p: string, from: nat, start: nat, k: nat)
    requires WordPattern(p) && Search(text, p, from) == Some(start)
    ensures TaggedFrom(text, p, from, k) <==>
              (Accepted(text, start) && start <= k < start + |p|) || TaggedFrom(text, p, start + |p|, k)
  {
    SearchSpec(text, p, from);
    if TaggedFrom(text, p, from, k) {
      var i: nat :| from <= i && MatchAt(text, p, i) && Accepted(text, i) && i <= k < i + |p|;
      if i != start {
        MatchesDisjoint(text, p, start, i);
      }
    }
  }

  /** For a word pattern the scan tags exactly the accepted matches: no
      match is skipped by restarting the search at a boundary character. */
  lemma {:induction false} ScanTagsExact(text: string, p: string, from: nat, k: nat)
    requires WordPattern(p) && from <= |text|
    ensures k in ScanTags(text, p, from) <==> TaggedFrom(text, p, from, k)
    decreases |text| - from
  {
    var found := Search(text, p, from);
    if found.None? {
      ScanTagsDone(text, p, from);
      NoMatchNoTag(text, p, from, k);
    } else {
      var start := found.value;
      ScanTagsMember(text, p, from, start, k);
      ScanTagsExact(text, p, start + |p|, k);
      TaggedSplit(text, p, from, start, k);
    }
  }

  /** An offset is tagged from `from` when it lies in the first accepted
      match or is tagged from that match's boundary character on. */
  lemma ScanTagsMember(text: string, p: string, from: nat, start: nat, k: nat)
    requires from <= |text| && |p| > 0 && Search(text, p, from) == Some(start)
    ensures start + |p| <= |text|
    ensures k in ScanTags(text, p, from) <==>
              (Accepted(text, start) && start <= k < start + |p|) || k in ScanTags(text, p, start + |p|)
  {
    ScanTagsStep(text, p, from, start);
  }

  /** Nothing is tagged where the search finds nothing. */
  lemma NoMatchNoTag(text: string, p: string, from: nat, k: nat)
    requires Search(text, p, from).None?
    ensures !TaggedFrom(text, p, from, k)
  {
    SearchSpec(text, p, from);
  }

  /** The offsets tagged for one category: the union over its patterns. */
  function PatternsTags(text: string, ps: seq<string>): set<nat> {
    if ps == [] then {}
    else PatternsTags(text, ps[..|ps| - 1]) + ScanTags(text, ps[|ps| - 1], 0)
  }

  /** A category's tag holds exactly the offsets one of its patterns' scans tags. */
  lemma {:induction false} PatternsTagsMember(text: string, ps: seq<string>, k: nat)
    ensures k in PatternsTags(text, ps) <==> exists p :: p in ps && k in ScanTags(text, p, 0)
  {
    if ps != [] {
      var init, last := ps[..|ps| - 1], ps[|ps| - 1];
      PatternsTagsMember(text, init, k);
      assert ps == init + [last];
      if k in PatternsTags(text, ps) && k !in ScanTags(text, last, 0) {
        var p :| p in init && k in ScanTags(text, p, 0);
        assert p in ps;
      }
      if exists p :: p in ps && k in ScanTags(text, p, 0) {
        var p :| p in ps && k in ScanTags(text, p, 0);
        assert p in init || p == last;
      }
    }
  }

  /** Every accepted match of a word pattern of a category is tagged with
      that category, whatever the category's other patterns are. */
  lemma PatternTagged(text: string, ps: seq<string>, p: string, k: nat)
    requires p in ps && WordPattern(p) && TaggedFrom(text, p, 0, k)
    ensures k in PatternsTags(text, ps)
  {
    ScanTagsExact(text, p, 0, k);
    PatternsTagsMember(text, ps, k);
  }

  /** When every pattern of a category is a word pattern, an offset is
      tagged exactly when it lies inside an accepted match of one of them. */
  lemma {:induction false} PatternsTagsExact(text: string, ps: seq<string>, k: nat)
    requires forall i :: 0 <= i < |ps| ==> WordPattern(ps[i])
    ensures k in PatternsTags(text, ps) <==> exists p :: p in ps && TaggedFrom(text, p, 0, k)
  {
    if ps != [] {
      var init, last := ps[..|ps| - 1], ps[|ps| - 1];
      PatternsTagsExact(text, init, k);
      ScanTagsExact(text, last, 0, k);
      assert forall p :: p in ps <==> p in init || p == last;
    }
  }
}
