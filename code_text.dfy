/** The editor widget `CodeText` of editor.py with the module state it
    works on (the open `file` and the window title): highlighting, the
    Tab / Shift-Tab / Return helpers, the dirty flag and the title. */
module Editor {
  import opened Chars
  import opened Wrappers
  import opened Patterns
  import opened Tagging
  import opened Buffer

  /** `CodeText.TAB`. */
  const TAB: string := "    "

  /** The keysyms other than single letters that trigger highlighting. */
  const OTHER_KEYS: seq<string> := ["tab", "backspace", "\"", ")", "(", "space"]

  /** Each character of `s` as a one-character string (`list(s)`). */
  function Characters(s: string): (r: seq<string>)
    ensures |r| == |s|
    ensures forall i :: 0 <= i < |s| ==> r[i] == [s[i]]
  {
    if s == [] then [] else Characters(s[..|s| - 1]) + [[s[|s| - 1]]]
  }

  /** `list(string.ascii_letters) + 'tab backspace " ) ( space'.split()`. */
  const KEY_NAMES: seq<string> := Characters(AsciiLetters()) + OTHER_KEYS

  /** The guard of `keypress` as written: no event, or a keysym whose lower
      case is in `KEY_NAMES`. */
  predicate Listed(event: Option<string>) {
    event.None? || Lower(event.value) in KEY_NAMES
  }

  /** The keys that trigger highlighting: none at all, a single letter of
      either case, or one of the other names in any case. */
  predicate Qualifies(event: Option<string>) {
    match event
    case None => true
    case Some(k) => (|k| == 1 && IsAsciiLetter(k[0])) || Lower(k) in OTHER_KEYS
  }

  /** The guard as written accepts exactly the qualifying keys. */
  lemma QualifyingKeys(event: Option<string>)
    ensures Listed(event) <==> Qualifies(event)
  {
    if event.Some? {
      LetterKey(event.value);
    }
  }

  /** The lower case of `k` is one of the letter names exactly when `k` is
      a single letter. */
  lemma LetterKey(k: string)
    ensures Lower(k) in Characters(AsciiLetters()) <==> |k| == 1 && IsAsciiLetter(k[0])
  {
    CharactersMember(AsciiLetters(), Lower(k));
    if |k| == 1 {
      AsciiLettersExact(LowerChar(k[0]));
    }
  }

  /** The one-character strings of `t` are those of its characters. */
  lemma CharactersMember(t: string, l: string)
    ensures l in Characters(t) <==> |l| == 1 && l[0] in t
  {
    var cs := Characters(t);
    if |l| == 1 && l[0] in t {
      var i :| 0 <= i < |t| && t[i] == l[0];
      assert cs[i] == l;
    }
  }

  /** The text after the last `sep` in `s`: `s.split(sep)[-1]`, and also
      `os.path.split(s)[-1]` for the separator `'/'`. */
  function AfterLast(s: string, sep: char): (r: string)
    ensures |r| <= |s|
  {
    if s == [] || s[|s| - 1] == sep then [] else AfterLast(s[..|s| - 1], sep) + [s[|s| - 1]]
  }

  /** The part after the last `sep` is a suffix free of `sep` that is the
      whole string or follows a `sep`. */
  lemma {:induction false} AfterLastSpec(s: string, sep: char)
    ensures var r := AfterLast(s, sep);
      sep !in r && s[|s| - |r|..] == r && (|r| == |s| || s[|s| - |r| - 1] == sep)
  {
    if s != [] && s[|s| - 1] != sep {
      var init := s[..|s| - 1];
      AfterLastSpec(init, sep);
      var r0 := AfterLast(init, sep);
      assert s[|s| - |r0| - 1..] == init[|init| - |r0|..] + [s[|s| - 1]];
    }
  }

  /** `len(line) - len(line.lstrip())`: the number of leading whitespace characters. */
  function IndentWidth(line: string): (r: nat)
    ensures r <= |line|
  {
    if line == [] || !IsSpace(line[0]) then 0 else 1 + IndentWidth(line[1..])
  }

  /** The leading run of whitespace is all whitespace and cannot be longer. */
  lemma {:induction false} IndentWidthSpec(line: string)
    ensures var r := IndentWidth(line);
      (forall i :: 0 <= i < r ==> IsSpace(line[i])) && (r == |line| || !IsSpace(line[r]))
  {
    if line != [] && IsSpace(line[0]) {
      IndentWidthSpec(line[1..]);
      assert forall i :: 1 <= i < IndentWidth(line) ==> line[i] == line[1..][i - 1];
    }
  }

  /** A no-break space is whitespace to `str.lstrip()`, so it counts as
      indentation. */
  lemma NoBreakSpaceIndent()
    ensures IndentWidth("\U{00A0}if:") == 1
    ensures AutoIndent("\U{00A0}if:") == "\n" + " " + TAB
  {
    assert "\U{00A0}if:"[1..] == "if:";
    assert IndentWidth("if:") == 0;
    assert Spaces(1) == " ";
  }

  /** `' ' * n`. */
  function Spaces(n: nat): (r: string)
    ensures |r| == n
  {
    if n == 0 then [] else Spaces(n - 1) + " "
  }

  /** `' ' * n` is made of spaces only. */
  lemma {:induction false} SpacesSpec(n: nat)
    ensures forall i :: 0 <= i < n ==> Spaces(n)[i] == ' '
  {
    if n > 0 {
      SpacesSpec(n - 1);
    }
  }

  predicate EndsWithColon(line: string) {
    |line| > 0 && line[|line| - 1] == ':'
  }

  /** `self.get('1.0', 'insert').split('\n')[-1]`: the text of the cursor's
      line before the cursor. */
  function CurrentLine(text: string, cursor: nat): string
    requires cursor <= |text|
  {
    AfterLast(text[..cursor], '\n')
  }

  /** What `_enter` inserts itself: a newline and as many spaces as `line`
      has leading whitespace. */
  function Indentation(line: string): string {
    "\n" + Spaces(IndentWidth(line))
  }

  /** All that `_enter` inserts after the line text `line`: its indentation,
      and a `TAB` more when `line` ends with a colon. */
  function AutoIndent(line: string): string {
    Indentation(line) + if EndsWithColon(line) then TAB else ""
  }

  /** The insertion of `_enter` starts a new line and holds only spaces
      after it: the indentation of `line`, plus four after a colon. */
  lemma AutoIndentShape(line: string)
    ensures var a := AutoIndent(line);
      |a| == 1 + IndentWidth(line) + (if EndsWithColon(line) then 4 else 0) &&
      a[0] == '\n' && forall i :: 1 <= i < |a| ==> a[i] == ' '
  {
    var a := AutoIndent(line);
    var spaces := Spaces(IndentWidth(line)) + if EndsWithColon(line) then TAB else "";
    SpacesSpec(IndentWidth(line));
    assert a == "\n" + spaces;
    assert forall i :: 0 <= i < |spaces| ==> spaces[i] == ' ';
  }

  /** The tags after `_enter` at `cursor`: the buffer is highlighted, the
      indentation goes in, and after a colon the buffer is highlighted
      again before the `TAB` goes in. */
  function EnterTags(text: string, cursor: nat, table: Table): Tags
    requires cursor <= |text|
  {
    var line := CurrentLine(text, cursor);
    var first := Indentation(line);
    if EndsWithColon(line)
    then InsertTags(AllTags(InsertAt(text, cursor, first), table), cursor + |first|, 4)
    else InsertTags(AllTags(text, table), cursor, |first|)
  }

  /** The tags after `_enter` after a colon: those of the second highlighting, moved by the `TAB`. */
  lemma EnterColonTags(text: string, cursor: nat, table: Table, text1: string, cursor1: nat, t: Tags)
    requires cursor <= |text| && EndsWithColon(CurrentLine(text, cursor))
    requires text1 == InsertAt(text, cursor, Indentation(CurrentLine(text, cursor)))
    requires cursor1 == cursor + |Indentation(CurrentLine(text, cursor))|
    requires t == InsertTags(AllTags(text1, table), cursor1, 4)
    ensures t == EnterTags(text, cursor, table)
  {
  }

  /** The tags after `_enter` elsewhere: those of the highlighting, moved by the indentation. */
  lemma EnterPlainTags(text: string, cursor: nat, table: Table, marked: Tags, t: Tags)
    requires cursor <= |text| && !EndsWithColon(CurrentLine(text, cursor))
    requires marked == AllTags(text, table)
    requires t == InsertTags(marked, cursor, |Indentation(CurrentLine(text, cursor))|)
    ensures t == EnterTags(text, cursor, table)
  {
  }

  /** The window title `set_title` gives. */
  function Title(file: Option<string>, hadEdit: bool): string {
    match file
    case None => "New File"
    case Some(f) => (if hadEdit then "* " else "") + AfterLast(f, '/') + " - " + f
  }

  /** With a file open the title is the file name, then `' - '` and the
      path, and an edit puts `'* '` in front; a new file's title never
      shows the edit. */
  lemma TitleMarksEdit(f: string, hadEdit: bool)
    ensures Title(Some(f), true) == "* " + Title(Some(f), false)
    ensures var t := Title(Some(f), hadEdit);
      |t| >= |f| + 3 && t[|t| - |f| - 3..] == " - " + f
    ensures Title(None, hadEdit) == "New File"
  {
    var t := Title(Some(f), hadEdit);
    var head := (if hadEdit then "* " else "") + AfterLast(f, '/');
    assert t == head + (" - " + f);
  }

  /** The tags that `markup` leaves on `text`: each category gets the
      accepted matches of all of its patterns. */
  function AllTags(text: string, table: Table): (r: Tags)
    ensures r.Keys == table.Keys
  {
    map c | c in table :: PatternsTags(text, table[c])
  }

  /** Each category of the table gets the tags of its own patterns. */
  lemma AllTagsValues(text: string, table: Table, c: Category)
    requires c in table
    ensures AllTags(text, table)[c] == PatternsTags(text, table[c])
  {
  }

  /** An accepted match of a word pattern of a category is highlighted with
      that category's tag. */
  lemma WordTagged(text: string, table: Table, c: Category, p: string, i: nat, k: nat)
    requires c in table && p in table[c] && WordPattern(p)
    requires MatchAt(text, p, i) && Accepted(text, i) && i <= k < i + |p|
    ensures k in AllTags(text, table)[c]
  {
    assert TaggedFrom(text, p, 0, k);
    AllTagsValues(text, table, c);
    PatternTagged(text, table[c], p, k);
  }

  lemma DefIsWord()
    ensures WordPattern("DEF")
  {
    assert "DEF"[0] == 'D' && "DEF"[1] == 'E' && "DEF"[2] == 'F';
  }

  /** Whatever the configuration, an accepted `DEF` in the buffer is
      highlighted as a header: line 62 always adds `DEF` to that list. */
  lemma UpperDefTagged(text: string, add: Config, i: nat, k: nat)
    requires MatchAt(text, "DEF", i) && Accepted(text, i) && i <= k < i + 3
    ensures k in AllTags(text, StartupTable(add))[Header]
  {
    HeaderHasUpperDef(add);
    DefIsWord();
    WordTagged(text, StartupTable(add), Header, "DEF", i, k);
  }

  /** Updating one tag twice is updating it once to the second value. */
  lemma UpdateTwice(tags: Tags, tag: Category, a: set<nat>, b: set<nat>)
    ensures tags[tag := a][tag := b] == tags[tag := b]
  {
  }

  /** The Tk text widget of the editor, with the global file name and the
      window title that the editor's functions read and write. */
  class CodeText {
    /** `MARKUP` as it stands after start-up. */
    const table: Table
    /** The buffer: its last character is Tk's own final newline. */
    var text: string
    /** The `insert` mark. */
    var cursor: nat
    var tags: Tags
    var hadEdit: bool
    /** The global `file`. */
    var file: Option<string>
    /** The title of the root window. */
    var title: string

    /** The buffer ends in its final newline, the cursor is on it or
      before it, and every category has its tag. */
    ghost predicate BufferValid()
      reads this
    {
      Total(table) && (forall c: Category :: c in tags) &&
      |text| > 0 && text[|text| - 1] == '\n' && cursor < |text|
    }

    /** The title is always the one `set_title` would show now. */
    ghost predicate Valid()
      reads this
    {
      BufferValid() && title == Title(file, hadEdit)
    }

    /** An empty editor and the start-up title of lines 257-258. */
    constructor (table: Table)
      requires Total(table)
      ensures Valid()
      ensures this.table == table && text == "\n" && cursor == 0
      ensures forall c :: tags[c] == {}
      ensures !hadEdit && file == None && title == "New File"
    {
      this.table := table;
      text := "\n";
      cursor := 0;
      tags := map c | c in CATEGORIES :: {};
      hadEdit := false;
      file := None;
      title := "New File";
      new;
      forall c: Category ensures c in tags {
        CategoriesComplete(c);
      }
    }

    /** `set_title`. */
    method SetTitle()
      modifies this`title
      ensures title == Title(file, hadEdit)
    {
      title := Title(file, hadEdit);
    }

    /** `markup_one`, with the loop guard it needs to return on an empty
      pattern (`count.get() <= 1`): searches `p` followed by a boundary
      character again and again, from the boundary character of the last
      match, and tags every accepted match without its boundary character. */
    method MarkupOne(p: string, tag: Category)
      requires tag in tags
      modifies this`tags
      ensures tags == old(tags)[tag := old(tags)[tag] + ScanTags(text, p, 0)]
    {
      var buffer := text;
      var tagged := tags[tag];
      var end: nat := 0;
      while true
        invariant end <= |buffer|
        invariant tags == old(tags)[tag := tagged]
        invariant tagged + ScanTags(buffer, p, end) == old(tags)[tag] + ScanTags(buffer, p, 0)
        decreases |buffer| - end
      {
        var found := Search(buffer, p, end);
        if found.None? {
          ScanTagsDone(buffer, p, end);
          assert tagged == old(tags)[tag] + ScanTags(buffer, p, 0);
          return;
        }
        var start := found.value;
        var count := |p| + 1;
        if count <= 1 {
          ScanTagsDone(buffer, p, end);
          assert tagged == old(tags)[tag] + ScanTags(buffer, p, 0);
          return;
        }
        var keep := AcceptedAsWritten(buffer, start);
        AcceptanceRule(buffer, start);
        ghost var before, from := tagged, end;
        end := start + count - 1;
        if keep {
          UpdateTwice(old(tags), tag, tagged, tagged + Range(start, end));
          tagged := tagged + Range(start, end);
          tags := tags[tag := tagged];
        }
        ScanAdvance(buffer, p, from, start, keep, before, tagged, end, old(tags)[tag] + ScanTags(buffer, p, 0));
      }
    }

    /** `markup`: every category loses all its tags and then gets those of
      each of its patterns. The scans run one after the other. */
    method Markup()
      requires Total(table) && forall c: Category :: c in tags
      modifies this`tags
      ensures tags == AllTags(text, table)
    {
      for i := 0 to |CATEGORIES|
        invariant forall c: Category :: c in tags
        invariant forall j :: 0 <= j < i ==> tags[CATEGORIES[j]] == PatternsTags(text, table[CATEGORIES[j]])
      {
        var tag := CATEGORIES[i];
        tags := tags[tag := {}];
        var patterns := table[tag];
        ghost var cleared := tags;
        for j := 0 to |patterns|
          invariant tags == cleared[tag := PatternsTags(text, patterns[..j])]
        {
          assert patterns[..j + 1][..j] == patterns[..j];
          MarkupOne(patterns[j], tag);
        }
        assert patterns[..|patterns|] == patterns;
      }
      forall c: Category ensures tags[c] == PatternsTags(text, table[c]) {
        CategoriesComplete(c);
        AllTagsValues(text, table, c);
      }
    }

    /** `keypress`: a qualifying key, or none, marks the buffer edited
      (refreshing the title only when it was not yet marked) and
      re-highlights it; any other key changes nothing. */
    method Keypress(event: Option<string>)
      requires Valid()
      modifies this`hadEdit, this`title, this`tags
      ensures Valid()
      ensures Qualifies(event) ==> hadEdit && tags == AllTags(text, table)
      ensures !Qualifies(event) ==> hadEdit == old(hadEdit) && tags == old(tags)
      ensures old(hadEdit) ==> title == old(title)
    {
      QualifyingKeys(event);
      if Listed(event) {
        if !hadEdit {
          hadEdit := true;
          SetTitle();
        }
        Markup();
      }
    }

    /** `self.insert('insert', s)`: the text goes in before the cursor,
      which moves past it. */
    method InsertAtCursor(s: string)
      requires BufferValid()
      modifies this`text, this`cursor, this`tags
      ensures BufferValid()
      ensures text == InsertAt(old(text), old(cursor), s) && cursor == old(cursor) + |s|
      ensures tags == InsertTags(old(tags), old(cursor), |s|)
    {
      InsertAtChars(text, cursor, s);
      text := InsertAt(text, cursor, s);
      cursor := cursor + |s|;
      tags := InsertTags(tags, cursor - |s|, |s|);
    }

    /** `self.delete(from, to)`, which never removes the final newline. */
    method Delete(from: nat, to: nat)
      requires BufferValid() && from <= to < |text|
      modifies this`text, this`cursor, this`tags
      ensures BufferValid()
      ensures text == DeleteAt(old(text), from, to) && cursor == MarkAfterDelete(old(cursor), from, to)
      ensures tags == DeleteTags(old(tags), from, to)
    {
      DeleteAtChars(text, from, to);
      text := DeleteAt(text, from, to);
      cursor := MarkAfterDelete(cursor, from, to);
      tags := DeleteTags(tags, from, to);
    }

    /** `_tab`: highlight, then insert four spaces at the cursor. */
    method Tab()
      requires Valid()
      modifies this`text, this`cursor, this`tags, this`hadEdit, this`title
      ensures Valid()
      ensures text == InsertAt(old(text), old(cursor), TAB) && cursor == old(cursor) + 4
      ensures tags == InsertTags(AllTags(old(text), table), old(cursor), 4)
      ensures hadEdit
    {
      Keypress(None);
      InsertAtCursor(TAB);
    }

    /** `_enter`: highlight, then start a new line indented like the text
      of the current line before the cursor, and one `_tab` more when that
      text ends with a colon. Scrolling the cursor into view is not part
      of this model. */
    method Enter()
      requires Valid()
      modifies this`text, this`cursor, this`tags, this`hadEdit, this`title
      ensures Valid()
      ensures var line := CurrentLine(old(text), old(cursor));
        text == InsertAt(old(text), old(cursor), AutoIndent(line)) &&
        cursor == old(cursor) + |AutoIndent(line)|
      ensures tags == EnterTags(old(text), old(cursor), table)
      ensures hadEdit
    {
      Keypress(None);
      var buffer, at := text, cursor;
      ghost var marked := tags;
      var line := CurrentLine(buffer, at);
      var newline := Indentation(line);
      InsertAtCursor(newline);
      if EndsWithColon(line) {
        ghost var text1, cursor1 := text, cursor;
        Tab();
        InsertTwice(buffer, at, newline, TAB);
        assert AutoIndent(line) == newline + TAB;
        EnterColonTags(buffer, at, table, text1, cursor1, tags);
      } else {
        assert AutoIndent(line) == newline;
        EnterPlainTags(buffer, at, table, marked, tags);
      }
    }

    /** `_undo_tab`: when the four characters before the cursor are four
      spaces, highlight and delete them; otherwise nothing changes. */
    method UndoTab()
      requires Valid()
      modifies this`text, this`cursor, this`tags, this`hadEdit, this`title
      ensures Valid()
      ensures old(TextBefore(text, cursor, 4)) == TAB ==>
                old(cursor) >= 4 && text == DeleteAt(old(text), old(cursor) - 4, old(cursor)) &&
                cursor == old(cursor) - 4 && hadEdit &&
                tags == DeleteTags(AllTags(old(text), table), old(cursor) - 4, old(cursor))
      ensures old(TextBefore(text, cursor, 4)) != TAB ==>
                text == old(text) && cursor == old(cursor) && tags == old(tags) &&
                hadEdit == old(hadEdit) && title == old(title)
    {
      if TextBefore(text, cursor, 4) == TAB {
        Keypress(None);
        Delete(cursor - 4, cursor);
      }
    }

    /** `reset`: not edited, an empty buffer (only the final newline is
      left), and the title refreshed. */
    method Reset()
      requires BufferValid()
      modifies this`text, this`cursor, this`tags, this`hadEdit, this`title
      ensures Valid()
      ensures text == "\n" && cursor == 0 && !hadEdit
      ensures tags == DeleteTags(old(tags), 0, |old(text)| - 1)
    {
      hadEdit := false;
      Delete(0, |text| - 1);
      SetTitle();
      assert text == [old(text)[|old(text)| - 1]];
    }

    /** `save_file`: with a file open, the whole buffer is what gets
      written, the edit mark is cleared and the title refreshed; without
      one nothing changes (the warning box is not modelled). */
    method SaveFile() returns (written: Option<string>)
      requires BufferValid()
      modifies this`hadEdit, this`title
      ensures BufferValid()
      ensures file.Some? ==> written == Some(text) && !hadEdit && title == Title(file, false)
      ensures file.None? ==> written == None && hadEdit == old(hadEdit) && title == old(title)
    {
      if file.Some? {
        written := Some(text);
        hadEdit := false;
        SetTitle();
      } else {
        written := None;
      }
    }

    /** `save_file_as` with the name the dialog returned: an empty name
      changes nothing, any other becomes the file and is saved. */
    method SaveFileAs(path: string) returns (written: Option<string>)
      requires Valid()
      modifies this`file, this`hadEdit, this`title
      ensures Valid()
      ensures path == "" ==> written == None && file == old(file) && hadEdit == old(hadEdit) && title == old(title)
      ensures path != "" ==> file == Some(path) && written == Some(text) && !hadEdit
    {
      if path == "" {
        return None;
      }
      file := Some(path);
      written := SaveFile();
    }

    /** `new_file`: no file, and the editor reset. */
    method NewFile()
      requires Valid()
      modifies this`file, this`text, this`cursor, this`tags, this`hadEdit, this`title
      ensures Valid()
      ensures file == None && text == "\n" && cursor == 0 && !hadEdit && title == "New File"
      ensures tags == DeleteTags(old(tags), 0, |old(text)| - 1)
    {
      file := None;
      Reset();
    }
  }

  /** Shift-Tab right after Tab undoes it: the four spaces are the text
      before the moved cursor, and deleting them restores buffer and cursor. */
  lemma TabRoundTrip(text: string, cursor: nat)
    requires cursor <= |text|
    ensures TextBefore(InsertAt(text, cursor, TAB), cursor + 4, 4) == TAB
    ensures DeleteAt(InsertAt(text, cursor, TAB), cursor, cursor + 4) == text
  {
    InsertedIsBefore(text, cursor, TAB);
    DeleteInserted(text, cursor, TAB);
  }
}
