/** The Tk text buffer as a flat string with offsets: inserting and deleting
    text, and how the tags on it and the `insert` mark follow such edits. */
module Buffer {
  import opened Patterns
  import Tagging

  /** The offsets each tag covers. */
  type Tags = map<Category, set<nat>>

  /** `widget.insert(at, x)` on the characters of the buffer. */
  function InsertAt(s: string, at: nat, x: string): (r: string)
    requires at <= |s|
    ensures |r| == |s| + |x|
  {
    s[..at] + x + s[at..]
  }

  /** Where each character of the buffer is after an insertion. */
  lemma InsertAtChars(s: string, at: nat, x: string)
    requires at <= |s|
    ensures var r := InsertAt(s, at, x);
      forall i :: 0 <= i < |r| ==>
        r[i] == if i < at then s[i] else if i < at + |x| then x[i - at] else s[i - |x|]
  {
  }

  /** `widget.delete(from, to)` on the characters of the buffer. */
  function DeleteAt(s: string, from: nat, to: nat): (r: string)
    requires from <= to <= |s|
    ensures |r| == |s| - (to - from)
  {
    s[..from] + s[to..]
  }

  /** Where each remaining character of the buffer is after a deletion. */
  lemma DeleteAtChars(s: string, from: nat, to: nat)
    requires from <= to <= |s|
    ensures var r := DeleteAt(s, from, to);
      forall i :: 0 <= i < |r| ==> r[i] == if i < from then s[i] else s[i + (to - from)]
  {
  }

  /** Deleting what was just inserted restores the buffer. */
  lemma DeleteInserted(s: string, at: nat, x: string)
    requires at <= |s|
    ensures DeleteAt(InsertAt(s, at, x), at, at + |x|) == s
  {
    var r := DeleteAt(InsertAt(s, at, x), at, at + |x|);
    InsertAtChars(s, at, x);
    DeleteAtChars(InsertAt(s, at, x), at, at + |x|);
    assert forall i | 0 <= i < |s| :: r[i] == s[i];
  }

  /** Two insertions, the second right after the first, are one insertion. */
  lemma InsertTwice(s: string, at: nat, x: string, y: string)
    requires at <= |s|
    ensures InsertAt(InsertAt(s, at, x), at + |x|, y) == InsertAt(s, at, x + y)
  {
    var l, r := InsertAt(InsertAt(s, at, x), at + |x|, y), InsertAt(s, at, x + y);
    InsertAtChars(s, at, x);
    InsertAtChars(InsertAt(s, at, x), at + |x|, y);
    InsertAtChars(s, at, x + y);
    assert forall i | 0 <= i < |r| :: l[i] == r[i];
  }

  /** How one tag's offsets follow an insertion of `n` characters at `at`:
      later offsets move up by `n`, and the new characters carry the tag
      only when the characters on both sides of the insertion point do
      (Tk's rule for an insertion without a tag list). */
  function ShiftInsert(t: set<nat>, at: nat, n: nat): set<nat> {
    MovedUp(t, at, n) + if 0 < at && at - 1 in t && at in t then Tagging.Range(at, at + n) else {}
  }

  lemma ShiftInsertMembers(t: set<nat>, at: nat, n: nat)
    ensures forall k: nat {:trigger k in ShiftInsert(t, at, n)} :: k in ShiftInsert(t, at, n) <==>
              (k < at && k in t) || (at + n <= k && k - n in t) ||
              (at <= k < at + n && 0 < at && at - 1 in t && at in t)
  {
    MovedUpAll(t, at, n);
  }

  /** The old offsets, renumbered for an insertion. */
  function MovedUp(t: set<nat>, at: nat, n: nat): set<nat> {
    set j | j in t :: if j < at then j else j + n
  }

  lemma MovedUpMember(t: set<nat>, at: nat, n: nat, k: nat)
    ensures k in MovedUp(t, at, n) <==> (k < at && k in t) || (at + n <= k && k - n in t)
  {
    if k < at && k in t {
      assert (if k < at then k else k + n) == k;
    }
    if at + n <= k && k - n in t {
      var j: nat := k - n;
      assert (if j < at then j else j + n) == k;
    }
    if k in MovedUp(t, at, n) {
      var j :| j in t && (if j < at then j else j + n) == k;
      if j < at { assert k == j; } else { assert k - n == j; }
    }
  }

  lemma MovedUpAll(t: set<nat>, at: nat, n: nat)
    ensures forall k: nat {:trigger k in MovedUp(t, at, n)} :: k in MovedUp(t, at, n) <==> (k < at && k in t) || (at + n <= k && k - n in t)
  {
    forall k: nat
      ensures k in MovedUp(t, at, n) <==> (k < at && k in t) || (at + n <= k && k - n in t)
    {
      MovedUpMember(t, at, n, k);
    }
  }

  /** How one tag's offsets follow the deletion of `[from, to)`: the deleted
      offsets lose the tag and later ones move down. */
  function ShiftDelete(t: set<nat>, from: nat, to: nat): set<nat>
    requires from <= to
  {
    MovedDown(t, from, to)
  }

  lemma ShiftDeleteMembers(t: set<nat>, from: nat, to: nat)
    requires from <= to
    ensures forall k: nat {:trigger k in ShiftDelete(t, from, to)} :: k in ShiftDelete(t, from, to) <==>
              (k < from && k in t) || (from <= k && k + (to - from) in t)
  {
    MovedDownAll(t, from, to);
  }

  /** The offsets outside `[from, to)`, renumbered for the deletion. */
  function MovedDown(t: set<nat>, from: nat, to: nat): set<nat>
    requires from <= to
  {
    set j | j in t && (j < from || to <= j) :: if j < from then j else j - (to - from)
  }

  lemma MovedDownMember(t: set<nat>, from: nat, to: nat, k: nat)
    requires from <= to
    ensures k in MovedDown(t, from, to) <==> (k < from && k in t) || (from <= k && k + (to - from) in t)
  {
    if k < from && k in t {
      assert (if k < from then k else k - (to - from)) == k;
    }
    if from <= k && k + (to - from) in t {
      var j: nat := k + (to - from);
      assert to <= j && j - (to - from) == k;
    }
    if k in MovedDown(t, from, to) {
      var j :| j in t && (j < from || to <= j) && (if j < from then j else j - (to - from)) == k;
      if j < from { assert k == j; } else { assert k + (to - from) == j; }
    }
  }

  lemma MovedDownAll(t: set<nat>, from: nat, to: nat)
    requires from <= to
    ensures forall k: nat {:trigger k in MovedDown(t, from, to)} :: k in MovedDown(t, from, to) <==> (k < from && k in t) || (from <= k && k + (to - from) in t)
  {
    forall k: nat
      ensures k in MovedDown(t, from, to) <==> (k < from && k in t) || (from <= k && k + (to - from) in t)
    {
      MovedDownMember(t, from, to, k);
    }
  }

  /** Deleting the characters just inserted gives every tag its old offsets back. */
  lemma ShiftRoundTrip(t: set<nat>, at: nat, n: nat)
    ensures ShiftDelete(ShiftInsert(t, at, n), at, at + n) == t
  {
    var r := ShiftDelete(ShiftInsert(t, at, n), at, at + n);
    ShiftInsertMembers(t, at, n);
    ShiftDeleteMembers(ShiftInsert(t, at, n), at, at + n);
    forall k: nat ensures k in r <==> k in t {
      if at <= k {
        assert k + n in ShiftInsert(t, at, n) <==> k in t;
      } else {
        assert k in ShiftInsert(t, at, n) <==> k in t;
      }
    }
  }

  function InsertTags(tags: Tags, at: nat, n: nat): (r: Tags)
    ensures r.Keys == tags.Keys
  {
    map c | c in tags :: ShiftInsert(tags[c], at, n)
  }

  function DeleteTags(tags: Tags, from: nat, to: nat): (r: Tags)
    requires from <= to
    ensures r.Keys == tags.Keys
  {
    map c | c in tags :: ShiftDelete(tags[c], from, to)
  }

  /** Deleting the characters just inserted gives the tags back. */
  lemma TagsRoundTrip(tags: Tags, at: nat, n: nat)
    ensures DeleteTags(InsertTags(tags, at, n), at, at + n) == tags
  {
    var r := DeleteTags(InsertTags(tags, at, n), at, at + n);
    forall c | c in tags ensures r[c] == tags[c] {
      ShiftRoundTrip(tags[c], at, n);
    }
  }

  /** Where the `insert` mark goes when `[from, to)` is deleted: a mark in
      the range moves to its start, a later one moves down. */
  function MarkAfterDelete(m: nat, from: nat, to: nat): (r: nat)
    requires from <= to
    ensures m <= from ==> r == m
    ensures from <= m <= to ==> r == from
    ensures to <= m ==> r + (to - from) == m
  {
    if m < from then m else if m < to then from else m - (to - from)
  }

  /** `widget.get(f'insert-{n}c', 'insert')`: the `n` characters before
      `at`, or fewer when the start of the buffer is nearer. */
  function TextBefore(s: string, at: nat, n: nat): (r: string)
    requires at <= |s|
    ensures |r| == if at < n then at else n
    ensures r == s[at - |r|..at]
  {
    if at < n then s[..at] else s[at - n..at]
  }

  /** The text just inserted is what lies before the position after it. */
  lemma InsertedIsBefore(s: string, at: nat, x: string)
    requires at <= |s|
    ensures TextBefore(InsertAt(s, at, x), at + |x|, |x|) == x
  {
    var r := TextBefore(InsertAt(s, at, x), at + |x|, |x|);
    InsertAtChars(s, at, x);
    assert forall i | 0 <= i < |x| :: r[i] == x[i];
  }
}
