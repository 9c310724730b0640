/** `to_html` of editor.py: the buffer is wrapped in NUL sentinels and
    escaped, and then, category by category and pattern by pattern, each
    occurrence of the pattern between two non-word characters in the raw
    text has its escaped form spliced into a coloured `<span>` at the first
    place it occurs in the output built so far. Patterns are literal
    strings here, as in the tagging scan. */
module HtmlExport {
  import opened Chars
  import opened Patterns

  /** `html.escape(c)` for one character (`quote=True`). */
  function EscapeChar(c: char): string {
    if c == '&' then "&amp;"
    else if c == '<' then "&lt;"
    else if c == '>' then "&gt;"
    else if c == '"' then "&quot;"
    else if c == '\'' then "&#x27;"
    else [c]
  }

  /** `html.escape(s)`. Python replaces `&` first and then the other four
      characters; since no replacement introduces one of the later four,
      that is the same as escaping character by character. */
  function Escape(s: string): (r: string)
    ensures |r| >= |s|
  {
    if s == [] then [] else EscapeChar(s[0]) + Escape(s[1..])
  }

  /** The inverse of `Escape`: the five entities it writes are read back,
      every other character stands for itself. */
  function Unescape(s: string): string
    decreases |s|
  {
    if s == [] then []
    else if s[0] != '&' then [s[0]] + Unescape(s[1..])
    else if SliceAt(s, 0, "&amp;") then "&" + Unescape(s[5..])
    else if SliceAt(s, 0, "&lt;") then "<" + Unescape(s[4..])
    else if SliceAt(s, 0, "&gt;") then ">" + Unescape(s[4..])
    else if SliceAt(s, 0, "&quot;") then "\"" + Unescape(s[6..])
    else if SliceAt(s, 0, "&#x27;") then "'" + Unescape(s[6..])
    else [s[0]] + Unescape(s[1..])
  }

  /** Unescaping reads an entity that `Escape` wrote as the character it
      stands for. */
  lemma UnescapeEntity(c: char, rest: string)
    requires EscapeChar(c) != [c]
    ensures Unescape(EscapeChar(c) + rest) == [c] + Unescape(rest)
  {
    var s := EscapeChar(c) + rest;
    if c == '&' {
      assert SliceAt(s, 0, "&amp;") && s[5..] == rest;
    } else if c == '<' {
      assert !SliceAt(s, 0, "&amp;") by { assert s[1] == 'l'; }
      assert SliceAt(s, 0, "&lt;") && s[4..] == rest;
    } else if c == '>' {
      assert !SliceAt(s, 0, "&amp;") && !SliceAt(s, 0, "&lt;") by { assert s[1] == 'g'; }
      assert SliceAt(s, 0, "&gt;") && s[4..] == rest;
    } else if c == '"' {
      assert !SliceAt(s, 0, "&amp;") && !SliceAt(s, 0, "&lt;") && !SliceAt(s, 0, "&gt;") by { assert s[1] == 'q'; }
      assert SliceAt(s, 0, "&quot;") && s[6..] == rest;
    } else {
      assert !SliceAt(s, 0, "&amp;") && !SliceAt(s, 0, "&lt;") && !SliceAt(s, 0, "&gt;") && !SliceAt(s, 0, "&quot;") by {
        assert s[1] == '#';
      }
      assert SliceAt(s, 0, "&#x27;") && s[6..] == rest;
    }
  }

  /** Every other character is read back as itself. */
  lemma UnescapePlain(c: char, rest: string)
    requires c != '&'
    ensures Unescape([c] + rest) == [c] + Unescape(rest)
  {
    var s := [c] + rest;
    assert s[0] == c && s[1..] == rest;
  }

  lemma UnescapeChar(c: char, rest: string)
    ensures Unescape(EscapeChar(c) + rest) == [c] + Unescape(rest)
  {
    if EscapeChar(c) == [c] {
      UnescapePlain(c, rest);
    } else {
      UnescapeEntity(c, rest);
    }
  }

  /** Escaping loses nothing. */
  lemma {:induction false} EscapeRoundTrip(s: string)
    ensures Unescape(Escape(s)) == s
  {
    if s != [] {
      UnescapeChar(s[0], Escape(s[1..]));
      EscapeRoundTrip(s[1..]);
    }
  }

  /** Escaped text holds none of the characters that delimit markup. */
  lemma {:induction false} EscapeNoMarkup(s: string)
    ensures forall i :: 0 <= i < |Escape(s)| ==> Escape(s)[i] !in "<>\"'"
  {
    if s != [] {
      EscapeNoMarkup(s[1..]);
      var e := EscapeChar(s[0]);
      assert forall i :: 0 <= i < |e| ==> e[i] !in "<>\"'";
    }
  }

  lemma {:induction false} EscapeConcat(a: string, b: string)
    ensures Escape(a + b) == Escape(a) + Escape(b)
  {
    if a != [] {
      assert (a + b)[0] == a[0] && (a + b)[1..] == a[1..] + b;
      EscapeConcat(a[1..], b);
      calc {
        Escape(a + b);
        EscapeChar(a[0]) + Escape(a[1..] + b);
        EscapeChar(a[0]) + (Escape(a[1..]) + Escape(b));
        (EscapeChar(a[0]) + Escape(a[1..])) + Escape(b);
      }
    } else {
      assert a + b == b;
    }
  }

  /** `text.join(['\0'] * 2)`. */
  function Sentinel(text: string): string {
    "\0" + text + "\0"
  }

  /** The sentinels survive escaping. */
  lemma EscapeSentinel(text: string)
    ensures Escape(Sentinel(text)) == "\0" + Escape(text) + "\0"
  {
    EscapeConcat("\0" + text, "\0");
    EscapeConcat("\0", text);
  }

  /** `s.find(t, i)`: the first offset at or after `i` where `t` occurs, or -1. */
  function FindFrom(s: string, t: string, i: nat): (r: int)
    decreases |s| - i
    ensures r == -1 || (i <= r && SliceAt(s, r, t))
  {
    if i + |t| > |s| then -1
    else if s[i..i + |t|] == t then i
    else FindFrom(s, t, i + 1)
  }

  /** The offset found is the first occurrence, and -1 means there is none. */
  lemma {:induction false} FindFromFirst(s: string, t: string, i: nat)
    decreases |s| - i
    ensures var r := FindFrom(s, t, i);
      (r == -1 <==> forall j :: i <= j ==> !SliceAt(s, j, t)) &&
      (r != -1 ==> forall j :: i <= j < r ==> !SliceAt(s, j, t))
  {
    if i + |t| <= |s| && s[i..i + |t|] != t {
      FindFromFirst(s, t, i + 1);
    } else if i + |t| <= |s| {
      assert SliceAt(s, i, t);
    }
  }

  /** `s.find(t)`. */
  function Find(s: string, t: string): int {
    FindFrom(s, t, 0)
  }

  /** A one-character string holds no longer string: this is why the
      `while` loop of line 137 splices at most once per match. */
  lemma SingleCharFind(c: char, t: string)
    requires |t| >= 2
    ensures Find([c], t) == -1
  {
  }

  /** The regular expression `\Wp\W` matches at offset `i`. */
  predicate BoundedAt(text: string, p: string, i: nat) {
    i + |p| + 2 <= |text| && !IsWordChar(text[i]) &&
    text[i + 1..i + 1 + |p|] == p && !IsWordChar(text[i + |p| + 1])
  }

  /** `re.findall(r'\W%s\W' % p, text)` from offset `from`: the
      non-overlapping matches, left to right, each search resuming after
      the previous match. */
  function FindAll(text: string, p: string, from: nat): (r: seq<string>)
    decreases |text| - from
    ensures forall m | m in r :: |m| == |p| + 2
  {
    if from + |p| + 2 > |text| then []
    else if BoundedAt(text, p, from) then [text[from..from + |p| + 2]] + FindAll(text, p, from + |p| + 2)
    else FindAll(text, p, from + 1)
  }

  /** The inside of a slice, without its first and last character. */
  lemma InnerSlice(s: string, a: nat, b: nat)
    requires a + 2 <= b <= |s|
    ensures s[a..b][1..b - a - 1] == s[a + 1..b - 1]
  {
    var l, r := s[a..b][1..b - a - 1], s[a + 1..b - 1];
    assert forall k | 0 <= k < |r| :: l[k] == s[a + 1 + k] == r[k];
  }

  /** A match of `\W%s\W`: the pattern between two non-word characters. */
  predicate Bracketed(m: string, p: string) {
    |m| == |p| + 2 && !IsWordChar(m[0]) && m[1..|m| - 1] == p && !IsWordChar(m[|m| - 1])
  }

  predicate AllBracketed(ms: seq<string>, p: string) {
    forall i | 0 <= i < |ms| :: Bracketed(ms[i], p)
  }

  /** Every match found is the pattern between two non-word characters. */
  lemma {:induction false} FindAllShape(text: string, p: string, from: nat)
    decreases |text| - from
    ensures AllBracketed(FindAll(text, p, from), p)
  {
    if from + |p| + 2 <= |text| {
      if BoundedAt(text, p, from) {
        FindAllShape(text, p, from + |p| + 2);
        BoundedIsBracketed(text, p, from);
        AllBracketedCons(text[from..from + |p| + 2], FindAll(text, p, from + |p| + 2), p);
      } else {
        FindAllShape(text, p, from + 1);
      }
    }
  }

  /** The text of a bounded occurrence is a match of the pattern. */
  lemma BoundedIsBracketed(text: string, p: string, from: nat)
    requires BoundedAt(text, p, from)
    ensures Bracketed(text[from..from + |p| + 2], p)
  {
    InnerSlice(text, from, from + |p| + 2);
  }

  lemma AllBracketedCons(m: string, rest: seq<string>, p: string)
    requires Bracketed(m, p) && AllBracketed(rest, p)
    ensures AllBracketed([m] + rest, p)
  {
    var r := [m] + rest;
    forall i | 0 <= i < |r| ensures Bracketed(r[i], p) {
      if i > 0 {
        assert r[i] == rest[i - 1];
      }
    }
  }

  /** Nothing is found exactly when the pattern has no bounded occurrence. */
  lemma {:induction false} FindAllNone(text: string, p: string, from: nat)
    decreases |text| - from
    ensures FindAll(text, p, from) == [] <==> forall j :: from <= j ==> !BoundedAt(text, p, j)
  {
    if from + |p| + 2 <= |text| && !BoundedAt(text, p, from) {
      FindAllNone(text, p, from + 1);
    }
  }

  function SpanOpen(color: string): string {
    "<span style=\"color: " + color + ";\">"
  }

  const SPAN_CLOSE: string := "</span>"

  /** The reassignment of line 137: the occurrence of `repl` at `start`
      becomes its first character, a span holding its inner characters,
      and its last character. */
  function Splice(out: string, start: nat, repl: string, color: string): string
    requires start + |repl| <= |out| && |repl| >= 2
  {
    out[..start] + [repl[0]] + SpanOpen(color) + repl[1..|repl| - 1] + SPAN_CLOSE + [repl[|repl| - 1]] + out[start + |repl|..]
  }

  /** A splice keeps what precedes and what follows the occurrence and
      grows the output by the span's markup alone. */
  lemma SpliceFrame(out: string, start: nat, repl: string, color: string)
    requires start + |repl| <= |out| && |repl| >= 2
    ensures var r := Splice(out, start, repl, color);
      |r| == |out| + |SpanOpen(color)| + |SPAN_CLOSE| &&
      r[..start] == out[..start] &&
      r[|r| - (|out| - start - |repl|)..] == out[start + |repl|..] &&
      r[start] == repl[0] && r[start + 1..start + 1 + |SpanOpen(color)|] == SpanOpen(color) &&
      r[|r| - (|out| - start - |repl|) - 1] == repl[|repl| - 1]
  {
    var r := Splice(out, start, repl, color);
    var back := out[start + |repl|..];
    assert r == (out[..start] + [repl[0]] + SpanOpen(color) + repl[1..|repl| - 1] + SPAN_CLOSE + [repl[|repl| - 1]]) + back;
  }

  /** A match whose first character `html.escape` turns into an entity has
      its span opened right after that entity's `&`: the entity is split,
      the rest of it lies inside the span. */
  lemma EntitySplit(out: string, start: nat, m: string, color: string)
    requires |m| >= 2 && m[0] in "&<>\"'" && SliceAt(out, start, Escape(m))
    ensures |Escape(m)| >= 2 && |EscapeChar(m[0])| >= 4 && EscapeChar(m[0])[0] == '&'
    ensures Splice(out, start, Escape(m), color)[start..start + 1 + |SpanOpen(color)|] == "&" + SpanOpen(color)
    ensures Splice(out, start, Escape(m), color)[start + 1 + |SpanOpen(color)|..start + |SpanOpen(color)| + |EscapeChar(m[0])|]
            == EscapeChar(m[0])[1..]
  {
    var e, repl := EscapeChar(m[0]), Escape(m);
    EscapeEntityHead(m);
    SplicePrefix(out, start, repl, color, |e| - 1);
    assert repl[1..|e|] == e[1..] by { assert repl[..|e|] == e; }
  }

  /** The escaped form of a match starting with a special character starts
      with that character's entity and has at least one more character. */
  lemma EscapeEntityHead(m: string)
    requires |m| >= 2 && m[0] in "&<>\"'"
    ensures Escape(m) == EscapeChar(m[0]) + Escape(m[1..]) && |Escape(m[1..])| >= 1
    ensures |EscapeChar(m[0])| >= 4 && EscapeChar(m[0])[0] == '&'
  {
    assert Escape(m[1..]) == EscapeChar(m[1]) + Escape(m[2..]);
  }

  /** Right after a splice point come the first character of `repl`, the
      span's opening tag, and then the inner characters of `repl`. */
  lemma SplicePrefix(out: string, start: nat, repl: string, color: string, n: nat)
    requires start + |repl| <= |out| && |repl| >= 2 && n <= |repl| - 2
    ensures var r, o := Splice(out, start, repl, color), |SpanOpen(color)|;
      |r| >= start + 1 + o + n &&
      r[start..start + 1 + o] == [repl[0]] + SpanOpen(color) &&
      r[start + 1 + o..start + 1 + o + n] == repl[1..1 + n]
  {
    var open, inner := SpanOpen(color), repl[1..|repl| - 1];
    var first := [repl[0]] + open;
    var r := Splice(out, start, repl, color);
    var rest := SPAN_CLOSE + [repl[|repl| - 1]] + out[start + |repl|..];
    assert r == out[..start] + first + inner + rest;
    PrefixSlices(out[..start], first, inner, rest, n);
    assert inner[..n] == repl[1..1 + n];
  }

  lemma PrefixSlices(a: string, b: string, c: string, d: string, n: nat)
    requires n <= |c|
    ensures var s := a + b + c + d;
      s[|a|..|a| + |b|] == b && s[|a| + |b|..|a| + |b| + n] == c[..n]
  {
    var s := a + b + c + d;
    assert s[|a|..|a| + |b|] == b;
    assert s[|a| + |b|..|a| + |b| + n] == c[..n];
  }

  /** One turn of the loop over `finds`: splice the first occurrence of the
      escaped match, or leave the output as it is when there is none. */
  function SpliceOnce(out: string, repl: string, color: string): string
    requires |repl| >= 2
  {
    var start := Find(out, repl);
    if start == -1 then out else Splice(out, start, repl, color)
  }

  /** A splice at an occurrence keeps the first and the last character of
      the output: they are either outside the occurrence or its own first
      and last characters. */
  lemma SpliceEnds(out: string, start: nat, repl: string, color: string)
    requires |repl| >= 2 && SliceAt(out, start, repl)
    ensures var r := Splice(out, start, repl, color);
      |r| > |out| && r[0] == out[0] && r[|r| - 1] == out[|out| - 1]
  {
    SpliceFrame(out, start, repl, color);
    var r := Splice(out, start, repl, color);
    assert out[start] == repl[0] && out[start + |repl| - 1] == repl[|repl| - 1] by {
      assert out[start..start + |repl|] == repl;
    }
    if start > 0 {
      assert r[..start][0] == out[..start][0];
    }
    var n := |out| - start - |repl|;
    if n > 0 {
      assert r[|r| - n..][n - 1] == out[start + |repl|..][n - 1];
    }
  }

  lemma SpliceOnceEnds(out: string, repl: string, color: string)
    requires |repl| >= 2 && |out| > 0
    ensures var r := SpliceOnce(out, repl, color);
      |r| >= |out| && r[0] == out[0] && r[|r| - 1] == out[|out| - 1]
  {
    var start := Find(out, repl);
    if start != -1 {
      SpliceEnds(out, start, repl, color);
    }
  }

  predicate LongEnough(finds: seq<string>) {
    forall m | m in finds :: |m| >= 2
  }

  /** The loop over the matches of one pattern, lines 134-141. */
  function ExportFinds(out: string, finds: seq<string>, color: string): string
    requires LongEnough(finds)
  {
    if finds == [] then out
    else SpliceOnce(ExportFinds(out, finds[..|finds| - 1], color), Escape(finds[|finds| - 1]), color)
  }

  /** The loop over the patterns of one category, lines 132-141. */
  function ExportPatterns(out: string, text: string, ps: seq<string>, color: string): string {
    if ps == [] then out
    else
      var p := ps[|ps| - 1];
      ExportFinds(ExportPatterns(out, text, ps[..|ps| - 1], color), FindAll(text, p, 0), color)
  }

  /** The loop over the categories, lines 131-141. */
  function ExportCategories(out: string, text: string, table: Table, cs: seq<Category>): string
    requires forall c | c in cs :: c in table
  {
    if cs == [] then out
    else
      var c := cs[|cs| - 1];
      ExportPatterns(ExportCategories(out, text, table, cs[..|cs| - 1]), text, table[c], Color(c))
  }

  const CODE_OPEN: string := "<pre><code style=\"font-weight: bold;\">"
  const CODE_CLOSE: string := "</code></pre>"

  /** What `to_html(text)` returns. */
  function Document(text: string, table: Table): string
    requires Total(table)
  {
    var wrapped := Sentinel(text);
    CODE_OPEN + ExportCategories(Escape(wrapped), wrapped, table, CATEGORIES) + CODE_CLOSE
  }

  /** `to_html`: the escaped, wrapped text and then the loop over the
      categories, whose body is `ExportCategory`. */
  method ToHtml(text: string, table: Table) returns (html: string)
    requires Total(table)
    ensures html == Document(text, table)
  {
    var wrapped := Sentinel(text);
    var out := Escape(wrapped);
    for i := 0 to |CATEGORIES|
      invariant out == ExportCategories(Escape(wrapped), wrapped, table, CATEGORIES[..i])
    {
      var k := CATEGORIES[i];
      var color := Color(k);
      var patterns := table[k];
      out := ExportCategory(out, wrapped, patterns, color);
      CategoriesStep(Escape(wrapped), wrapped, table, CATEGORIES, i);
    }
    assert CATEGORIES[..|CATEGORIES|] == CATEGORIES;
    html := CODE_OPEN + out + CODE_CLOSE;
  }

  /** One turn of the loop over `COLORS.items()`, lines 132-141: every
      pattern of the category, every match of it. */
  method ExportCategory(out0: string, wrapped: string, patterns: seq<string>, color: string) returns (out: string)
    ensures out == ExportPatterns(out0, wrapped, patterns, color)
  {
    out := out0;
    for j := 0 to |patterns|
      invariant out == ExportPatterns(out0, wrapped, patterns[..j], color)
    {
      var finds := FindAll(wrapped, patterns[j], 0);
      assert LongEnough(finds);
      out := ExportMatches(out, finds, color);
      PatternsStep(out0, wrapped, patterns, j, color);
    }
    assert patterns[..|patterns|] == patterns;
  }

  /** The loop over the matches of one pattern, lines 134-141. */
  method ExportMatches(out0: string, finds: seq<string>, color: string) returns (out: string)
    requires LongEnough(finds)
    ensures out == ExportFinds(out0, finds, color)
  {
    out := out0;
    for m := 0 to |finds|
      invariant LongEnough(finds[..m]) && out == ExportFinds(out0, finds[..m], color)
    {
      var repl := Escape(finds[m]);
      assert |repl| >= 2 by { assert finds[m] in finds; }
      out := SpliceMatch(out, repl, color);
      FindsStep(out0, finds, m, color);
    }
    assert finds[..|finds|] == finds;
  }

  /** Lines 138-141: the loop that splices the first occurrence of `repl`
      and then searches again only the single character after the span. */
  method SpliceMatch(current: string, repl: string, color: string) returns (out: string)
    requires |repl| >= 2
    ensures out == SpliceOnce(current, repl, color)
  {
    out := current;
    var start := Find(out, repl);
    while start != -1
      invariant start == -1 ==> out == SpliceOnce(current, repl, color)
      invariant start != -1 ==> out == current && start == Find(current, repl)
      decreases if start == -1 then 0 else 1
    {
      out := Splice(out, start, repl, color);
      assert start + |repl| < |out| && Find([out[start + |repl|]], repl) == -1 by {
        SpliceFrame(current, start, repl, color);
        SingleCharFind(out[start + |repl|], repl);
      }
      start := Find([out[start + |repl|]], repl);
    }
  }

  lemma FindsStep(out: string, finds: seq<string>, m: nat, color: string)
    requires LongEnough(finds) && m < |finds|
    ensures LongEnough(finds[..m]) && LongEnough(finds[..m + 1])
    ensures ExportFinds(out, finds[..m + 1], color) ==
            SpliceOnce(ExportFinds(out, finds[..m], color), Escape(finds[m]), color)
  {
    var init, next := finds[..m], finds[..m + 1];
    assert LongEnough(init) && LongEnough(next) by {
      forall x | x in next ensures |x| >= 2 { assert x in finds; }
      forall x | x in init ensures |x| >= 2 { assert x in finds; }
    }
    assert next[..|next| - 1] == init && next[|next| - 1] == finds[m];
  }

  lemma PatternsStep(out: string, text: string, ps: seq<string>, j: nat, color: string)
    requires j < |ps|
    ensures ExportPatterns(out, text, ps[..j + 1], color) ==
            ExportFinds(ExportPatterns(out, text, ps[..j], color), FindAll(text, ps[j], 0), color)
  {
    assert ps[..j + 1][..j] == ps[..j];
  }

  lemma CategoriesStep(out: string, text: string, table: Table, cs: seq<Category>, i: nat)
    requires Total(table) && i < |cs|
    ensures ExportCategories(out, text, table, cs[..i + 1]) ==
            ExportPatterns(ExportCategories(out, text, table, cs[..i]), text, table[cs[i]], Color(cs[i]))
  {
    assert cs[..i + 1][..i] == cs[..i];
  }

  /** Whether some pattern of some category has a `\Wp\W` match in `text`. */
  predicate NoMatches(text: string, table: Table)
    requires Total(table)
  {
    forall c: Category, p | p in table[c] :: FindAll(text, p, 0) == []
  }

  lemma {:induction false} PatternsUnmatched(out: string, text: string, ps: seq<string>, color: string)
    requires forall p | p in ps :: FindAll(text, p, 0) == []
    ensures ExportPatterns(out, text, ps, color) == out
  {
    if ps != [] {
      assert forall p | p in ps[..|ps| - 1] :: p in ps;
      PatternsUnmatched(out, text, ps[..|ps| - 1], color);
      assert ps[|ps| - 1] in ps;
    }
  }

  lemma {:induction false} CategoriesUnmatched(out: string, text: string, table: Table, cs: seq<Category>)
    requires Total(table) && NoMatches(text, table)
    ensures ExportCategories(out, text, table, cs) == out
  {
    if cs != [] {
      CategoriesUnmatched(out, text, table, cs[..|cs| - 1]);
      var c := cs[|cs| - 1];
      PatternsUnmatched(out, text, table[c], Color(c));
    }
  }

  /** With no match anywhere, the export is the escaped text between its
      two sentinels, inside the `<pre><code>` wrapper. */
  lemma NoMatchExport(text: string, table: Table)
    requires Total(table) && NoMatches(Sentinel(text), table)
    ensures Document(text, table) == CODE_OPEN + ("\0" + Escape(text) + "\0") + CODE_CLOSE
  {
    var wrapped := Sentinel(text);
    var start := Escape(wrapped);
    assert ExportCategories(start, wrapped, table, CATEGORIES) == start by {
      CategoriesUnmatched(start, wrapped, table, CATEGORIES);
    }
    assert start == "\0" + Escape(text) + "\0" by { EscapeSentinel(text); }
  }

  /** Output whose first and last characters are both NUL. */
  predicate Framed(out: string) {
    |out| >= 2 && out[0] == '\0' && out[|out| - 1] == '\0'
  }

  lemma {:induction false} FindsKeepFrame(out: string, finds: seq<string>, color: string)
    requires LongEnough(finds) && Framed(out)
    ensures Framed(ExportFinds(out, finds, color))
  {
    if finds != [] {
      var init, last := finds[..|finds| - 1], finds[|finds| - 1];
      var prev, repl := ExportFinds(out, init, color), Escape(last);
      assert Framed(prev) by {
        assert LongEnough(init) by {
          forall m | m in init ensures |m| >= 2 { assert m in finds; }
        }
        FindsKeepFrame(out, init, color);
      }
      assert |repl| >= 2 by { assert last in finds; }
      SpliceOnceFramed(prev, repl, color);
    }
  }

  lemma SpliceOnceFramed(out: string, repl: string, color: string)
    requires |repl| >= 2 && Framed(out)
    ensures Framed(SpliceOnce(out, repl, color))
  {
    SpliceOnceEnds(out, repl, color);
  }

  lemma {:induction false} PatternsKeepFrame(out: string, text: string, ps: seq<string>, color: string)
    requires Framed(out)
    ensures Framed(ExportPatterns(out, text, ps, color))
  {
    if ps != [] {
      PatternsKeepFrame(out, text, ps[..|ps| - 1], color);
      FindsKeepFrame(ExportPatterns(out, text, ps[..|ps| - 1], color), FindAll(text, ps[|ps| - 1], 0), color);
    }
  }

  lemma {:induction false} CategoriesKeepFrame(out: string, text: string, table: Table, cs: seq<Category>)
    requires Total(table) && Framed(out)
    ensures Framed(ExportCategories(out, text, table, cs))
  {
    if cs != [] {
      CategoriesKeepFrame(out, text, table, cs[..|cs| - 1]);
      var c := cs[|cs| - 1];
      PatternsKeepFrame(ExportCategories(out, text, table, cs[..|cs| - 1]), text, table[c], Color(c));
    }
  }

  /** The sentinels are never stripped: the exported code begins and ends
      with a NUL character, whatever was spliced in between. */
  lemma SentinelsKept(text: string, table: Table)
    requires Total(table)
    ensures var d := Document(text, table);
      |d| >= |CODE_OPEN| + 2 + |CODE_CLOSE| &&
      d[..|CODE_OPEN|] == CODE_OPEN && d[|CODE_OPEN|] == '\0' &&
      d[|d| - |CODE_CLOSE| - 1] == '\0' && d[|d| - |CODE_CLOSE|..] == CODE_CLOSE
  {
    var wrapped := Sentinel(text);
    EscapeSentinel(text);
    var start := Escape(wrapped);
    assert Framed(start);
    CategoriesKeepFrame(start, wrapped, table, CATEGORIES);
    var out := ExportCategories(start, wrapped, table, CATEGORIES);
    Enclosed(CODE_OPEN, out, CODE_CLOSE);
  }

  lemma Enclosed(a: string, out: string, b: string)
    requires |out| >= 2
    ensures var d := a + out + b;
      |d| == |a| + |out| + |b| && d[..|a|] == a && d[|a|] == out[0] &&
      d[|d| - |b| - 1] == out[|out| - 1] && d[|d| - |b|..] == b
  {
  }
}
