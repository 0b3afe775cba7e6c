/**
 * The mod registry that `mods()` builds from an exported preset: the list
 * `A3Modnames`, which keeps every row, and the dictionary `A3Modlist`, which
 * maps each `@name` to a workshop id and keeps insertion order.
 */
module Registry {
  import opened Base
  import opened Text

  /** One `ModContainer` row of the preset: the DisplayName cell's text and the Link's href. */
  datatype Row = Row(display: string, href: string)

  /** One item of `A3Modlist`: an `@name` and the workshop id it maps to. */
  datatype Entry = Entry(name: string, id: string)

  /** The characters `mods()` deletes from a display name: !#$%^&*()[]{};:,./<>?\|`~='+- */
  predicate IsSpecial(c: char) {
    || c == '!' || c == '#' || c == '$' || c == '%' || c == '^' || c == '&' || c == '*'
    || c == '(' || c == ')' || c == '[' || c == ']' || c == '{' || c == '}' || c == ';'
    || c == ':' || c == ',' || c == '.' || c == '/' || c == '<' || c == '>' || c == '?'
    || c == '\\' || c == '|' || c == '`' || c == '~' || c == '=' || c == '\'' || c == '+'
    || c == '-'
  }

  /** `s.translate(...)` with the table above: deletes every special character. */
  function DropSpecials(s: string): (r: string)
    ensures forall i :: 0 <= i < |r| ==> !IsSpecial(r[i])
  {
    if s == [] then []
    else (if IsSpecial(s[0]) then [] else [s[0]]) + DropSpecials(s[1..])
  }

  /** `s.replace(" ", "_")`. */
  function SpacesToUnderscores(s: string): (r: string)
    ensures |r| == |s|
  {
    if s == [] then []
    else [if s[0] == ' ' then '_' else s[0]] + SpacesToUnderscores(s[1..])
  }

  /** Every space becomes an underscore and every other character stays in place. */
  lemma {:induction false} SpacesToUnderscoresChars(s: string)
    ensures forall i :: 0 <= i < |s| ==>
      SpacesToUnderscores(s)[i] == if s[i] == ' ' then '_' else s[i]
    decreases |s|
  {
    if s != [] {
      SpacesToUnderscoresChars(s[1..]);
    }
  }

  /** Deleting specials from two pieces of text in a row deletes them from each piece. */
  lemma {:induction false} DropSpecialsAppend(a: string, b: string)
    ensures DropSpecials(a + b) == DropSpecials(a) + DropSpecials(b)
    decreases |a|
  {
    if a == [] {
      assert a + b == b;
    } else {
      assert (a + b)[1..] == a[1..] + b;
      DropSpecialsAppend(a[1..], b);
    }
  }

  /** One character survives exactly when it is not special. */
  lemma DropSpecialsChar(c: char)
    ensures DropSpecials([c]) == if IsSpecial(c) then [] else [c]
  {
    assert [c][1..] == [];
  }

  /** Text without a special character passes through unchanged. */
  lemma {:induction false} DropSpecialsKeeps(s: string)
    requires forall i :: 0 <= i < |s| ==> !IsSpecial(s[i])
    ensures DropSpecials(s) == s
    decreases |s|
  {
    if s != [] {
      DropSpecialsKeeps(s[1..]);
    }
  }

  /** `s.replace("__", "_")`: one left-to-right pass over non-overlapping pairs. */
  function CollapseDoubles(s: string): (r: string)
    ensures |r| <= |s|
  {
    if |s| >= 2 && s[0] == '_' && s[1] == '_' then "_" + CollapseDoubles(s[2..])
    else if s == [] then []
    else [s[0]] + CollapseDoubles(s[1..])
  }

  /**
   * The `@name` that `mods()` derives from a DisplayName cell's text: `@`,
   * then the stripped text without specials, each character normalised
   * on its own (a space to `_`, an ASCII capital to its small letter), and
   * each non-overlapping `__` collapsed to `_`.
   */
  function ModName(display: string): (r: string)
    ensures |r| >= 1 && r[0] == '@'
    ensures r[1..] == CollapseDoubles(Normalized(DropSpecials(Strip(display))))
  {
    var t := DropSpecials(Strip(display));
    NormalizedIsLowerThenUnderscores(t);
    "@" + CollapseDoubles(SpacesToUnderscores(AsciiLower(t)))
  }

  /** How one character of a name is normalised: a space becomes `_`, an ASCII capital its small letter. */
  function NameChar(c: char): char {
    if c == ' ' then '_'
    else if IsAsciiUpper(c) then (c as int - 'A' as int + 'a' as int) as char
    else c
  }

  /** Every character normalised on its own. */
  function Normalized(t: string): (r: string)
    ensures |r| == |t|
  {
    seq(|t|, i requires 0 <= i < |t| => NameChar(t[i]))
  }

  /** `lower()` followed by `replace(" ", "_")` normalises each character on its own. */
  lemma NormalizedIsLowerThenUnderscores(t: string)
    ensures SpacesToUnderscores(AsciiLower(t)) == Normalized(t)
  {
    AsciiLowerChars(t);
    SpacesToUnderscoresChars(AsciiLower(t));
  }

  /** `href.split("=")[-1]`: the text after the last `=`, or the whole href when it has none. */
  function ModId(href: string): (r: string)
    ensures '=' !in r && |r| <= |href|
  {
    if href == [] then []
    else if href[|href| - 1] == '=' then []
    else ModId(href[..|href| - 1]) + [href[|href| - 1]]
  }

  /**
   * The id is the longest suffix of the href without `=`: it ends the href,
   * and it is either the whole href or preceded by a `=`.
   */
  lemma {:induction false} ModIdIsLastField(href: string)
    ensures ModId(href) == href[|href| - |ModId(href)|..]
    ensures |ModId(href)| < |href| ==> href[|href| - |ModId(href)| - 1] == '='
    decreases |href|
  {
    if href != [] && href[|href| - 1] != '=' {
      var init := href[..|href| - 1];
      ModIdIsLastField(init);
      var r := ModId(init);
      assert init[|init| - |r|..] + [href[|href| - 1]] == href[|href| - |r| - 1..];
    }
  }

  /** Collapsing introduces no character that was not already there. */
  lemma {:induction false} CollapseDoublesChars(s: string)
    ensures forall i :: 0 <= i < |CollapseDoubles(s)| ==> CollapseDoubles(s)[i] in s
    decreases |s|
  {
    if |s| >= 2 && s[0] == '_' && s[1] == '_' {
      CollapseDoublesChars(s[2..]);
    } else if s != [] {
      CollapseDoublesChars(s[1..]);
    }
  }

  /**
   * Collapsing two pieces of text in a row collapses each piece on its
   * own when the first does not end in an underscore, so no pair spans
   * the seam.
   */
  lemma {:induction false} CollapseDoublesAppend(a: string, b: string)
    requires a == [] || a[|a| - 1] != '_'
    ensures CollapseDoubles(a + b) == CollapseDoubles(a) + CollapseDoubles(b)
    decreases |a|
  {
    if a == [] {
      assert a + b == b;
    } else if |a| >= 2 && a[0] == '_' && a[1] == '_' {
      CollapseDoublesAppend(a[2..], b);
      CollapsePairSeam(a, b);
    } else {
      CollapseDoublesAppend(a[1..], b);
      CollapseOtherSeam(a, b);
    }
  }

  /** The seam step when the first piece opens with a pair of underscores. */
  lemma CollapsePairSeam(a: string, b: string)
    requires |a| >= 2 && a[0] == '_' && a[1] == '_' && a[|a| - 1] != '_'
    requires CollapseDoubles(a[2..] + b) == CollapseDoubles(a[2..]) + CollapseDoubles(b)
    ensures CollapseDoubles(a + b) == CollapseDoubles(a) + CollapseDoubles(b)
  {
    var ab := a + b;
    AppendTail(a, b, 2);
    assert ab[0] == '_' && ab[1] == '_';
    assert CollapseDoubles(ab) == "_" + CollapseDoubles(a[2..] + b);
    assert CollapseDoubles(a) == "_" + CollapseDoubles(a[2..]);
    assert "_" + (CollapseDoubles(a[2..]) + CollapseDoubles(b)) == ("_" + CollapseDoubles(a[2..])) + CollapseDoubles(b);
  }

  /** Dropping a prefix of the first piece drops it from the whole. */
  lemma AppendTail(a: string, b: string, k: nat)
    requires k <= |a|
    ensures (a + b)[k..] == a[k..] + b
    ensures forall i :: 0 <= i < k ==> (a + b)[i] == a[i]
  {
  }

  /** The seam step when the first piece opens with anything but a pair of underscores. */
  lemma CollapseOtherSeam(a: string, b: string)
    requires a != [] && !(|a| >= 2 && a[0] == '_' && a[1] == '_') && a[|a| - 1] != '_'
    requires CollapseDoubles(a[1..] + b) == CollapseDoubles(a[1..]) + CollapseDoubles(b)
    ensures CollapseDoubles(a + b) == CollapseDoubles(a) + CollapseDoubles(b)
  {
    var ab := a + b;
    AppendTail(a, b, 1);
    assert ab[0] == a[0];
    assert !(|ab| >= 2 && ab[0] == '_' && ab[1] == '_') by {
      if a[0] == '_' {
        assert |a| >= 2 && ab[1] == a[1];
      }
    }
    assert CollapseDoubles(ab) == [a[0]] + CollapseDoubles(a[1..] + b);
    assert CollapseDoubles(a) == [a[0]] + CollapseDoubles(a[1..]);
  }

  /** Text without two underscores in a row is left as it is. */
  lemma {:induction false} CollapseDoublesKeeps(s: string)
    requires forall i :: 0 <= i < |s| - 1 ==> !(s[i] == '_' && s[i + 1] == '_')
    ensures CollapseDoubles(s) == s
    decreases |s|
  {
    if s != [] {
      assert !(|s| >= 2 && s[0] == '_' && s[1] == '_');
      CollapseDoublesKeeps(s[1..]);
    }
  }

  /** The characters of `s` other than spaces and underscores, in order. */
  function Letters(s: string): string {
    if s == [] then []
    else (if s[0] == ' ' || s[0] == '_' then [] else [s[0]]) + Letters(s[1..])
  }

  lemma {:induction false} LettersAppend(a: string, b: string)
    ensures Letters(a + b) == Letters(a) + Letters(b)
    decreases |a|
  {
    if a != [] {
      assert (a + b)[1..] == a[1..] + b;
      LettersAppend(a[1..], b);
    } else {
      assert a + b == b;
    }
  }

  lemma {:induction false} LettersOfSpacesToUnderscores(s: string)
    ensures Letters(SpacesToUnderscores(s)) == Letters(s)
    decreases |s|
  {
    if s != [] {
      LettersOfSpacesToUnderscores(s[1..]);
    }
  }

  lemma {:induction false} LettersOfCollapseDoubles(s: string)
    ensures Letters(CollapseDoubles(s)) == Letters(s)
    decreases |s|
  {
    if |s| >= 2 && s[0] == '_' && s[1] == '_' {
      LettersOfCollapseDoubles(s[2..]);
      assert Letters(s) == Letters(s[1..]);
      assert Letters(s[1..]) == Letters(s[2..]);
    } else if s != [] {
      LettersOfCollapseDoubles(s[1..]);
    }
  }

  /** No special character and no upper-case ASCII letter. */
  predicate Clean(s: string) {
    forall i :: 0 <= i < |s| ==> !IsSpecial(s[i]) && !IsAsciiUpper(s[i])
  }

  /** Clean, and no space either: the characters an `@name` may hold after its `@`. */
  predicate NameChars(s: string) {
    Clean(s) && forall i :: 0 <= i < |s| ==> s[i] != ' '
  }

  lemma LetterNotSpecial(c: char)
    requires 'a' <= c <= 'z'
    ensures !IsSpecial(c)
  {
  }

  lemma LowerIsClean(a: string)
    requires forall i :: 0 <= i < |a| ==> !IsSpecial(a[i])
    ensures Clean(AsciiLower(a))
  {
    AsciiLowerChars(a);
    var b := AsciiLower(a);
    forall i | 0 <= i < |b|
      ensures !IsSpecial(b[i])
    {
      if b[i] != a[i] {
        LetterNotSpecial(b[i]);
      }
    }
  }

  lemma UnderscoredHasNameChars(b: string)
    requires Clean(b)
    ensures NameChars(SpacesToUnderscores(b))
  {
    SpacesToUnderscoresChars(b);
  }

  lemma CollapsedHasNameChars(c: string)
    requires NameChars(c)
    ensures NameChars(CollapseDoubles(c))
  {
    CollapseDoublesChars(c);
    var d := CollapseDoubles(c);
    forall i | 0 <= i < |d|
      ensures !IsSpecial(d[i]) && !IsAsciiUpper(d[i]) && d[i] != ' '
    {
      var j :| 0 <= j < |c| && c[j] == d[i];
    }
  }

  /**
   * The shape of an `@name`: after the `@` there is no special character,
   * no upper-case ASCII letter and no space, and the characters other than
   * spaces and underscores are exactly those of the stripped, filtered and
   * lower-cased display text, in order.
   */
  lemma ModNameShape(display: string)
    ensures NameChars(ModName(display)[1..])
    ensures Letters(ModName(display)[1..]) == Letters(AsciiLower(DropSpecials(Strip(display))))
  {
    var a := DropSpecials(Strip(display));
    var b := AsciiLower(a);
    var c := SpacesToUnderscores(b);
    var d := CollapseDoubles(c);
    assert ModName(display)[1..] == d;
    LowerIsClean(a);
    UnderscoredHasNameChars(b);
    CollapsedHasNameChars(c);
    LettersOfCollapseDoubles(c);
    LettersOfSpacesToUnderscores(b);
  }

  function Underscores(n: nat): (r: string)
    ensures |r| == n
  {
    if n == 0 then [] else "_" + Underscores(n - 1)
  }

  /**
   * A run of n underscores shrinks to ceil(n/2) of them, since the pass does
   * not rescan what it wrote; the text after the run, when it does not
   * start with an underscore, is collapsed on its own.
   */
  lemma {:induction false} CollapseRun(n: nat, rest: string)
    requires rest == [] || rest[0] != '_'
    ensures CollapseDoubles(Underscores(n) + rest) == Underscores((n + 1) / 2) + CollapseDoubles(rest)
  {
    if n >= 2 {
      CollapseRun(n - 2, rest);
      CollapseRunStep(n - 2, (n - 1) / 2, rest);
      assert (n + 1) / 2 == (n - 1) / 2 + 1;
    } else if n == 1 {
      var u := Underscores(1) + rest;
      assert Underscores(1) == "_";
      assert u[0] == '_' && u[1..] == rest;
      assert !(|u| >= 2 && u[1] == '_');
    } else {
      assert Underscores(0) + rest == rest;
    }
  }

  /** Two more underscores in front of a run give one more underscore after collapsing. */
  lemma CollapseRunStep(k: nat, m: nat, rest: string)
    requires CollapseDoubles(Underscores(k) + rest) == Underscores(m) + CollapseDoubles(rest)
    ensures CollapseDoubles(Underscores(k + 2) + rest) == Underscores(m + 1) + CollapseDoubles(rest)
  {
    var u := Underscores(k + 2) + rest;
    UnderscoresPair(k + 2, rest);
    assert CollapseDoubles(u) == "_" + CollapseDoubles(u[2..]);
    assert Underscores(m + 1) == "_" + Underscores(m);
    assert "_" + (Underscores(m) + CollapseDoubles(rest)) == ("_" + Underscores(m)) + CollapseDoubles(rest);
  }

  /** A run of at least two underscores opens with a pair, followed by the shorter run. */
  lemma UnderscoresPair(n: nat, rest: string)
    requires n >= 2
    ensures |Underscores(n) + rest| >= 2
    ensures (Underscores(n) + rest)[0] == '_' && (Underscores(n) + rest)[1] == '_'
    ensures (Underscores(n) + rest)[2..] == Underscores(n - 2) + rest
  {
    assert Underscores(n) == "_" + ("_" + Underscores(n - 2));
  }

  /** The names of `A3Modlist`, in insertion order. */
  function Keys(d: seq<Entry>): seq<string> {
    seq(|d|, i requires 0 <= i < |d| => d[i].name)
  }

  /** No name occurs twice: what a dictionary's keys always satisfy. */
  predicate DistinctNames(d: seq<Entry>) {
    forall i, j :: 0 <= i < j < |d| ==> d[i].name != d[j].name
  }

  /**
   * `A3Modlist[e.name] = e.id`: an existing name keeps its place and takes
   * the new id; a new name goes last.
   */
  function Put(d: seq<Entry>, e: Entry): seq<Entry> {
    if d == [] then [e]
    else if d[0].name == e.name then [e] + d[1..]
    else [d[0]] + Put(d[1..], e)
  }

  /** Assigning a name adds it at the end of the keys exactly when it is new. */
  lemma {:induction false} PutKeys(d: seq<Entry>, e: Entry)
    ensures Keys(Put(d, e)) == if e.name in Keys(d) then Keys(d) else Keys(d) + [e.name]
  {
    if d != [] && d[0].name != e.name {
      PutKeys(d[1..], e);
      assert Keys(d) == [d[0].name] + Keys(d[1..]);
      assert Keys(Put(d, e)) == [d[0].name] + Keys(Put(d[1..], e));
    } else if d != [] {
      assert Keys(d)[0] == e.name;
      assert Keys(Put(d, e)) == Keys(d);
    }
  }

  /** Assignment keeps the names distinct. */
  lemma PutDistinct(d: seq<Entry>, e: Entry)
    requires DistinctNames(d)
    ensures DistinctNames(Put(d, e))
  {
    PutKeys(d, e);
    var r := Put(d, e);
    forall i, j | 0 <= i < j < |r|
      ensures r[i].name != r[j].name
    {
      assert Keys(r)[i] == r[i].name && Keys(r)[j] == r[j].name;
      if j < |d| {
        assert Keys(d)[i] == d[i].name && Keys(d)[j] == d[j].name;
      } else {
        assert Keys(d)[i] == d[i].name;
      }
    }
  }

  /** Assigning `e` replaces the pair with its name and leaves every other pair alone. */
  lemma {:induction false} PutAt(d: seq<Entry>, e: Entry)
    requires DistinctNames(d)
    ensures |Put(d, e)| >= |d|
    ensures forall i :: 0 <= i < |d| ==> Put(d, e)[i] == (if d[i].name == e.name then e else d[i])
    ensures |Put(d, e)| > |d| ==> Put(d, e)[|d|] == e
  {
    PutKeys(d, e);
    if d != [] && d[0].name != e.name {
      PutAt(d[1..], e);
      forall i | 0 < i < |d|
        ensures Put(d, e)[i] == (if d[i].name == e.name then e else d[i])
      {
        assert Put(d, e)[i] == Put(d[1..], e)[i - 1];
        assert d[i] == d[1..][i - 1];
      }
    }
  }

  /** The pair that one row contributes: its `@name` and its id. */
  function RowEntry(row: Row): Entry {
    Entry(ModName(row.display), ModId(row.href))
  }

  /** One pair per row, duplicates kept: `A3Modnames` is their names. */
  function Entries(rows: seq<Row>): (r: seq<Entry>)
    ensures |r| == |rows|
  {
    if rows == [] then []
    else Entries(rows[..|rows| - 1]) + [RowEntry(rows[|rows| - 1])]
  }

  /** A dictionary filled by assigning `es` in order. */
  function Dict(es: seq<Entry>): (r: seq<Entry>)
    ensures DistinctNames(r)
  {
    if es == [] then []
    else
      var d := Dict(es[..|es| - 1]);
      PutDistinct(d, es[|es| - 1]);
      Put(d, es[|es| - 1])
  }

  /** `A3Modnames` after `mods()` has read `rows`. */
  function Names(rows: seq<Row>): seq<string> {
    Keys(Entries(rows))
  }

  /** `A3Modlist` after `mods()` has read `rows`. */
  function Modlist(rows: seq<Row>): seq<Entry> {
    Dict(Entries(rows))
  }

  /** The names of `s` in order of first appearance. */
  function FirstOccurrences(s: seq<string>): seq<string> {
    if s == [] then []
    else
      var init := FirstOccurrences(s[..|s| - 1]);
      if s[|s| - 1] in s[..|s| - 1] then init else init + [s[|s| - 1]]
  }

  /** The id of the last pair named `name`. */
  function LastId(es: seq<Entry>, name: string): Option<string> {
    if es == [] then None
    else if es[|es| - 1].name == name then Some(es[|es| - 1].id)
    else LastId(es[..|es| - 1], name)
  }

  lemma {:induction false} FirstOccurrencesMembers(s: seq<string>)
    ensures forall x :: x in FirstOccurrences(s) <==> x in s
  {
    if s != [] {
      FirstOccurrencesMembers(s[..|s| - 1]);
      assert s == s[..|s| - 1] + [s[|s| - 1]];
    }
  }

  /** `A3Modnames` keeps one `@name` per row, in row order, duplicates included. */
  lemma {:induction false} NamesPerRow(rows: seq<Row>)
    ensures |Names(rows)| == |rows|
    ensures forall i :: 0 <= i < |rows| ==> Names(rows)[i] == ModName(rows[i].display)
  {
    EntriesPerRow(rows);
  }

  lemma {:induction false} EntriesPerRow(rows: seq<Row>)
    ensures forall i :: 0 <= i < |rows| ==> Entries(rows)[i] == RowEntry(rows[i])
  {
    if rows != [] {
      var init := rows[..|rows| - 1];
      EntriesPerRow(init);
      forall i | 0 <= i < |rows| - 1
        ensures Entries(rows)[i] == RowEntry(rows[i])
      {
        assert rows[i] == init[i];
        assert Entries(rows)[i] == Entries(init)[i];
      }
    }
  }

  /** A dictionary filled by assignments lists each distinct name once, in order of first assignment. */
  lemma {:induction false} DictKeys(es: seq<Entry>)
    ensures Keys(Dict(es)) == FirstOccurrences(Keys(es))
  {
    if es != [] {
      var init := es[..|es| - 1];
      var e := es[|es| - 1];
      DictKeys(init);
      PutKeys(Dict(init), e);
      assert Keys(es) == Keys(init) + [e.name];
      assert Keys(es)[..|es| - 1] == Keys(init);
      FirstOccurrencesMembers(Keys(init));
    }
  }

  /** Each name of a dictionary filled by assignments holds the id of its last assignment. */
  lemma {:induction false} DictValues(es: seq<Entry>)
    ensures forall i :: 0 <= i < |Dict(es)| ==> LastId(es, Dict(es)[i].name) == Some(Dict(es)[i].id)
  {
    if es != [] {
      var init := es[..|es| - 1];
      var e := es[|es| - 1];
      var d := Dict(init);
      DictValues(init);
      PutAt(d, e);
      PutKeys(d, e);
      var r := Dict(es);
      assert r == Put(d, e);
      forall i | 0 <= i < |r|
        ensures LastId(es, r[i].name) == Some(r[i].id)
      {
        if i < |d| && d[i].name != e.name {
          assert r[i] == d[i];
          assert LastId(es, r[i].name) == LastId(init, d[i].name);
        } else if i >= |d| {
          assert r[i] == e;
        } else {
          assert r[i] == e;
        }
      }
    }
  }

  /**
   * `A3Modlist` holds each distinct `@name` once, at the place of its first
   * row, with the id of its last row.
   */
  lemma ModlistSpec(rows: seq<Row>)
    ensures DistinctNames(Modlist(rows))
    ensures Keys(Modlist(rows)) == FirstOccurrences(Names(rows))
    ensures forall i :: 0 <= i < |Modlist(rows)| ==>
      LastId(Entries(rows), Modlist(rows)[i].name) == Some(Modlist(rows)[i].id)
  {
    DictKeys(Entries(rows));
    DictValues(Entries(rows));
  }

  /** Assigning a pair at the end of a sequence of pairs appends its name. */
  lemma KeysSnoc(es: seq<Entry>, e: Entry)
    ensures Keys(es + [e]) == Keys(es) + [e.name]
  {
  }

  /** One more row appends its name to `A3Modnames` and assigns its pair in `A3Modlist`. */
  lemma RowsSnoc(rows: seq<Row>, i: int)
    requires 0 <= i < |rows|
    ensures Names(rows[..i + 1]) == Names(rows[..i]) + [ModName(rows[i].display)]
    ensures Modlist(rows[..i + 1]) == Put(Modlist(rows[..i]), Entry(ModName(rows[i].display), ModId(rows[i].href)))
  {
    var pre := rows[..i + 1];
    assert pre[..i] == rows[..i] && pre[i] == rows[i];
    var es := Entries(rows[..i]);
    var e := RowEntry(rows[i]);
    assert Entries(pre) == es + [e];
    KeysSnoc(es, e);
    DictSnoc(es, e);
  }

  lemma DictSnoc(es: seq<Entry>, e: Entry)
    ensures Dict(es + [e]) == Put(Dict(es), e)
  {
    assert (es + [e])[..|es|] == es;
  }

  /** The globals `A3Modlist` and `A3Modnames`. */
  class Registry {
    var modlist: seq<Entry>
    var modnames: seq<string>

    constructor ()
      ensures modlist == [] && modnames == []
    {
      modlist := [];
      modnames := [];
    }

    /**
     * `mods(html_path)`: clears both globals and refills them from the
     * preset's rows (an absent or empty preset gives no rows).
     */
    method Load(rows: seq<Row>)
      modifies this
      ensures modnames == Names(rows) && modlist == Modlist(rows)
    {
      modlist := [];
      modnames := [];
      for i := 0 to |rows|
        invariant modnames == Names(rows[..i]) && modlist == Modlist(rows[..i])
      {
        RowsSnoc(rows, i);
        var name := ModName(rows[i].display);
        modnames := modnames + [name];
        modlist := Put(modlist, Entry(name, ModId(rows[i].href)));
      }
      assert rows[..|rows|] == rows;
    }
  }
}
