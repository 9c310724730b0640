/** The pattern table `MARKUP` of editor.py: six categories of patterns, each
    shown in one colour, extended from the parsed `editor_markup.json` and then
    doubled with an upper-cased copy of every pattern. */
module Patterns {
  import opened Chars
  import opened Wrappers

  datatype Category = Keyword | Type | Header | Builtin | String | Comment

  /** The categories in the order of the `MARKUP` and `COLORS` dictionaries. */
  const CATEGORIES: seq<Category> := [Keyword, Type, Header, Builtin, String, Comment]

  /** The dictionary key of a category. */
  function Name(c: Category): string {
    match c
    case Keyword => "keyword"
    case Type => "type"
    case Header => "header"
    case Builtin => "builtin"
    case String => "string"
    case Comment => "comment"
  }

  /** The category whose key is `k` (the test `k in MARKUP`). */
  function CategoryNamed(k: string): (r: Option<Category>)
    ensures forall c :: r == Some(c) <==> Name(c) == k
  {
    if k == "keyword" then Some(Keyword)
    else if k == "type" then Some(Type)
    else if k == "header" then Some(Header)
    else if k == "builtin" then Some(Builtin)
    else if k == "string" then Some(String)
    else if k == "comment" then Some(Comment)
    else None
  }

  /** `COLORS[c]`. */
  function Color(c: Category): string {
    match c
    case Keyword => "orange"
    case Type => "purple"
    case Header => "red"
    case Builtin => "green"
    case String => "lime"
    case Comment => "grey"
  }

  /** What `package` entries are suffixed with before they join `builtin` (`r'\.\w+'`). */
  const PACKAGE_SUFFIX: string := "\\.\\w+"

  /** One pattern list per category. */
  type Table = map<Category, seq<string>>

  /** The parsed configuration file: a JSON object from keys to lists of strings. */
  type Config = map<string, seq<string>>

  predicate Total(t: Table) {
    forall c: Category :: c in t
  }

  /** The table as written in the source, before any configuration. */
  const BASE_MARKUP: Table := map[
    Keyword := ["if", "while", "and", "or", "return", "else", "not", "for", "to", "from", "step"],
    Type := ["int", "float", "real", "bool", "str"],
    Header := ["def", "vars", "@[a-z]+"],
    Builtin := ["write", "read", "true", "false", "random"],
    String := ["\"(.*?[^\\\\])*?\""],
    Comment := ["//.*?\n"]
  ]

  lemma CategoriesComplete(c: Category)
    ensures c in CATEGORIES
  {
    match c
    case Keyword => assert CATEGORIES[0] == c;
    case Type => assert CATEGORIES[1] == c;
    case Header => assert CATEGORIES[2] == c;
    case Builtin => assert CATEGORIES[3] == c;
    case String => assert CATEGORIES[4] == c;
    case Comment => assert CATEGORIES[5] == c;
  }

  /** The patterns that a list of package names contributes to `builtin`. */
  function PackagePatterns(packages: seq<string>): (r: seq<string>)
    ensures |r| == |packages|
    ensures forall i :: 0 <= i < |packages| ==> r[i] == packages[i] + PACKAGE_SUFFIX
  {
    if packages == [] then []
    else PackagePatterns(packages[..|packages| - 1]) + [packages[|packages| - 1] + PACKAGE_SUFFIX]
  }

  /** The entry of a category in the configuration (empty when absent). */
  function Own(add: Config, c: Category): seq<string> {
    if Name(c) in add then add[Name(c)] else []
  }

  /** The `package` list of the configuration (empty when absent). */
  function Packages(add: Config): seq<string> {
    if "package" in add then add["package"] else []
  }

  /** `t` with the lists of `done` merged in and the patterns of `packages`
      appended to `builtin`. */
  function Extended(t: Table, done: Config, packages: seq<string>): Table {
    map c | c in t :: t[c] + Own(done, c) + (if c == Builtin then PackagePatterns(packages) else [])
  }

  /** The table after the configuration has been merged in (lines 53-58). */
  function Merged(t: Table, add: Config): (r: Table)
    ensures r.Keys == t.Keys
  {
    Extended(t, add, Packages(add))
  }

  /** Every list keeps its original entries at the front. */
  lemma MergeKeepsOriginal(t: Table, add: Config, c: Category)
    requires c in t
    ensures t[c] <= Merged(t, add)[c]
  {
    var r := Merged(t, add)[c];
    assert r == t[c] + Own(add, c) + (if c == Builtin then PackagePatterns(Packages(add)) else []);
    assert r[..|t[c]|] == t[c];
  }

  /** A category the configuration does not name keeps its list, except
      that `builtin` also receives the packages. */
  lemma MergeUntouched(t: Table, add: Config, c: Category)
    requires c in t && Name(c) !in add && (c != Builtin || "package" !in add)
    ensures Merged(t, add)[c] == t[c]
  {
    assert Own(add, c) == [];
    assert PackagePatterns([]) == [];
  }

  /** A category the configuration names is extended by exactly that list,
      directly after its original entries. */
  lemma MergeAppendsOwnList(t: Table, add: Config, c: Category)
    requires c in t && Name(c) in add
    ensures t[c] + add[Name(c)] <= Merged(t, add)[c]
  {
    assert Merged(t, add)[c] == (t[c] + add[Name(c)])
      + (if c == Builtin then PackagePatterns(Packages(add)) else []);
  }

  /** Every `package` entry `v` adds `v + r'\.\w+'` to `builtin`, after
      `builtin`'s own configured list, and nothing else is added. */
  lemma MergePackage(t: Table, add: Config, v: string)
    requires Builtin in t && "package" in add && v in add["package"]
    ensures v + PACKAGE_SUFFIX in Merged(t, add)[Builtin]
    ensures |Merged(t, add)[Builtin]| == |t[Builtin]| + |Own(add, Builtin)| + |add["package"]|
  {
    var pkg := PackagePatterns(add["package"]);
    assert Merged(t, add)[Builtin] == t[Builtin] + Own(add, Builtin) + pkg;
    var i :| 0 <= i < |add["package"]| && add["package"][i] == v;
    assert Merged(t, add)[Builtin][|t[Builtin]| + |Own(add, Builtin)| + i] == pkg[i];
  }

  /** Keys of the configuration that are neither a category nor `package`
      contribute nothing. */
  lemma {:induction false} MergeIgnoresUnknown(t: Table, add: Config, k: string, v: seq<string>)
    requires CategoryNamed(k).None? && k != "package"
    ensures Merged(t, add[k := v]) == Merged(t, add)
  {
    assert Packages(add[k := v]) == Packages(add);
    forall c | c in t ensures Merged(t, add[k := v])[c] == Merged(t, add)[c] {
      assert Name(c) != k;
      assert Own(add[k := v], c) == Own(add, c);
    }
  }

  /** Merging an empty configuration (no file, or a file that did not parse)
      leaves the table as it was. */
  lemma MergeEmpty(t: Table)
    ensures Merged(t, map[]) == t
  {
    ExtendedNone(t);
  }

  lemma ExtendedNone(t: Table)
    ensures Extended(t, map[], []) == t
  {
    forall c | c in t ensures Extended(t, map[], [])[c] == t[c] {
      assert PackagePatterns([]) == [];
    }
  }

  lemma OwnStep(done: Config, k: string, v: seq<string>, c: Category)
    ensures Own(done[k := v], c) == if Name(c) == k then v else Own(done, c)
  {
  }

  lemma ExtendedStep(t: Table, done: Config, k: string, v: seq<string>)
    requires Total(t) && k !in done
    ensures Extended(t, done[k := v], []) ==
      if CategoryNamed(k).Some? then Extended(t, done, [])[CategoryNamed(k).value :=
        Extended(t, done, [])[CategoryNamed(k).value] + v]
      else Extended(t, done, [])
  {
    var before := Extended(t, done, []);
    var after := Extended(t, done[k := v], []);
    var expected := if CategoryNamed(k).Some? then before[CategoryNamed(k).value :=
      before[CategoryNamed(k).value] + v] else before;
    forall c | c in t ensures after[c] == expected[c] {
      ExtendedAt(t, done, k, v, c);
    }
  }

  lemma WithoutPackages(t: Table, done: Config, c: Category)
    requires c in t
    ensures Extended(t, done, [])[c] == t[c] + Own(done, c)
  {
    assert PackagePatterns([]) == [];
    assert Extended(t, done, [])[c] == t[c] + Own(done, c) + [];
  }

  /** What merging the list `v` under the key `k` does to one category. */
  lemma ExtendedAt(t: Table, done: Config, k: string, v: seq<string>, c: Category)
    requires c in t && k !in done
    ensures Extended(t, done[k := v], [])[c] ==
      if Name(c) == k then Extended(t, done, [])[c] + v else Extended(t, done, [])[c]
  {
    OwnStep(done, k, v, c);
    WithoutPackages(t, done, c);
    WithoutPackages(t, done[k := v], c);
    if Name(c) == k {
      assert Own(done, c) == [];
    }
  }

  lemma PackageStep(t: Table, add: Config, packages: seq<string>, i: nat)
    requires Total(t) && i < |packages|
    ensures Extended(t, add, packages[..i + 1]) == Extended(t, add, packages[..i])[Builtin :=
      Extended(t, add, packages[..i])[Builtin] + [packages[i] + PACKAGE_SUFFIX]]
  {
    var before := Extended(t, add, packages[..i]);
    var after := Extended(t, add, packages[..i + 1]);
    assert packages[..i + 1][..i] == packages[..i];
    forall c | c in t ensures after[c] == before[Builtin := before[Builtin] + [packages[i] + PACKAGE_SUFFIX]][c] {
    }
  }

  /** The upper-cased copy of a pattern list, in the same order. */
  function UpperAll(ps: seq<string>): (r: seq<string>)
    ensures |r| == |ps|
    ensures forall i :: 0 <= i < |ps| ==> r[i] == Upper(ps[i])
  {
    if ps == [] then [] else UpperAll(ps[..|ps| - 1]) + [Upper(ps[|ps| - 1])]
  }

  /** The table after every list has been extended with its upper-cased
      copy (lines 61-62). */
  function Duplicated(t: Table): (r: Table)
    ensures r.Keys == t.Keys
  {
    map c | c in t :: t[c] + UpperAll(t[c])
  }

  /** Each duplicated list is the list as it was, followed by its
      upper-cased image in the same order. */
  lemma DuplicatedShape(t: Table, c: Category)
    requires c in t
    ensures var r := Duplicated(t)[c];
      |r| == 2 * |t[c]| && r[..|t[c]|] == t[c] &&
      forall i :: 0 <= i < |t[c]| ==> r[|t[c]| + i] == Upper(t[c][i])
  {
    var r := Duplicated(t)[c];
    assert r == t[c] + UpperAll(t[c]);
  }

  /** Every pattern of a duplicated list has its upper-cased form in the
      same list, so case-insensitive recognition rests on two entries. */
  lemma UpperCopyPresent(t: Table, c: Category, x: string)
    requires c in t && x in t[c]
    ensures x in Duplicated(t)[c] && Upper(x) in Duplicated(t)[c]
  {
    var i :| 0 <= i < |t[c]| && t[c][i] == x;
    DuplicatedShape(t, c);
    assert Duplicated(t)[c][i] == x;
    assert Duplicated(t)[c][|t[c]| + i] == Upper(x);
  }

  lemma BaseTotal()
    ensures Total(BASE_MARKUP)
  {
    forall c: Category ensures c in BASE_MARKUP {
      CategoriesComplete(c);
    }
  }

  /** The table the editor runs with, given the parsed configuration. */
  function StartupTable(add: Config): (r: Table)
    ensures Total(r)
  {
    BaseTotal();
    Duplicated(Merged(BASE_MARKUP, add))
  }

  /** Whatever the configuration holds, `header` recognises `DEF`. */
  lemma HeaderHasUpperDef(add: Config)
    ensures "DEF" in StartupTable(add)[Header]
  {
    var merged := Merged(BASE_MARKUP, add);
    assert merged[Header][0] == "def";
    assert Upper("def") == "DEF";
    UpperCopyPresent(merged, Header, "def");
  }

  /** The table part-way through duplication: the lists in `done` have
      received their upper-cased copies. */
  ghost function HalfDuplicated(t: Table, done: set<Category>): Table {
    map c | c in t :: if c in done then t[c] + UpperAll(t[c]) else t[c]
  }

  lemma HalfDuplicatedNone(t: Table)
    ensures HalfDuplicated(t, {}) == t
  {
    var r := HalfDuplicated(t, {});
    forall c | c in t ensures r[c] == t[c] {}
  }

  lemma HalfDuplicatedStep(t: Table, done: set<Category>, c: Category)
    requires c in t && c !in done
    ensures HalfDuplicated(t, done + {c}) == HalfDuplicated(t, done)[c := t[c] + UpperAll(t[c])]
  {
    var before := HalfDuplicated(t, done);
    var after := HalfDuplicated(t, done + {c});
    forall d | d in t ensures after[d] == before[c := t[c] + UpperAll(t[c])][d] {}
  }

  /** One turn of the loop of lines 60-62 keeps its invariant. */
  lemma DuplicateStep(t: Table, c: Category, v: seq<string>, before: Table, after: Table,
                      keys: set<Category>, keys': set<Category>, done: set<Category>, done': set<Category>)
    requires keys + done == t.Keys && keys !! done && before == HalfDuplicated(t, done)
    requires c in keys && v == before[c] && after == before[c := v + UpperAll(v)]
    requires keys' == keys - {c} && done' == done + {c}
    ensures keys' + done' == t.Keys && keys' !! done' && after == HalfDuplicated(t, done')
  {
    HalfDuplicatedStep(t, done, c);
  }

  lemma HalfDuplicatedAll(t: Table)
    ensures HalfDuplicated(t, t.Keys) == Duplicated(t)
  {
    var r := HalfDuplicated(t, t.Keys);
    forall c | c in t ensures r[c] == Duplicated(t)[c] {}
  }

  /** The pattern table, updated in place while the editor starts. */
  class PatternTable {
    var lists: Table

    constructor ()
      ensures lists == BASE_MARKUP
    {
      lists := BASE_MARKUP;
    }

    /** Lines 53-58: extend each known category by the list under its key,
        then append every `package` entry, suffixed, to `builtin`. The keys
        are visited in an arbitrary order, which does not affect the outcome
        since distinct keys name distinct categories. */
    method Load(add: Config)
      requires Total(lists)
      modifies this
      ensures lists == Merged(old(lists), add)
    {
      var keys := add.Keys;
      ghost var done: Config := map[];
      ExtendedNone(old(lists));
      while keys != {}
        invariant keys + done.Keys == add.Keys && keys !! done.Keys
        invariant forall k :: k in done ==> done[k] == add[k]
        invariant lists == Extended(old(lists), done, [])
        decreases keys
      {
        var k :| k in keys;
        ExtendedStep(old(lists), done, k, add[k]);
        var named := CategoryNamed(k);
        if named.Some? {
          var c := named.value;
          lists := lists[c := lists[c] + add[k]];
        }
        keys := keys - {k};
        done := done[k := add[k]];
      }
      assert done == add;
      if "package" in add {
        var packages := add["package"];
        for i := 0 to |packages|
          invariant lists == Extended(old(lists), add, packages[..i])
        {
          PackageStep(old(lists), add, packages, i);
          lists := lists[Builtin := lists[Builtin] + [packages[i] + PACKAGE_SUFFIX]];
        }
        assert packages[..|packages|] == packages;
      }
    }

    /** Lines 61-62: extend every list with the upper-cased image of a copy
        of itself (one `extend` call per list). The lists are visited in an
        arbitrary order, which does not affect the outcome since each visit
        touches one list only. */
    method DuplicateUpper()
      modifies this
      ensures lists == Duplicated(old(lists))
    {
      var keys := lists.Keys;
      ghost var done: set<Category> := {};
      HalfDuplicatedNone(old(lists));
      while keys != {}
        invariant keys + done == old(lists).Keys && keys !! done
        invariant lists == HalfDuplicated(old(lists), done)
        decreases keys
      {
        var c :| c in keys;
        var v := lists[c];
        ghost var (before, keys0, done0) := (lists, keys, done);
        lists := lists[c := v + UpperAll(v)];
        keys := keys - {c};
        done := done + {c};
        DuplicateStep(old(lists), c, v, before, lists, keys0, keys, done0, done);
      }
      HalfDuplicatedAll(old(lists));
    }
  }
}
