// quote_column_name and quote_table_name of the ActiveRecord adapter.

module IdentifierQuoting {
  import opened Options
  import opened Sequences
  import opened Splitting

  /** String#gsub for one character. */
  function Gsub(s: string, c: char, with: string): string {
    if s == [] then "" else (if s[0] == c then with else [s[0]]) + Gsub(s[1..], c, with)
  }

  function QuoteColumn(name: string): string { "`" + Gsub(name, '`', "``") + "`" }

  function QuoteTable(name: string): string { Gsub(QuoteColumn(name), '.', "`.`") }

  function QuoteParts(parts: seq<string>): seq<string> {
    if parts == [] then [] else [QuoteColumn(parts[0])] + QuoteParts(parts[1..])
  }

  // ---- Quoting a table name quotes its parts --------------------------------------------------------------

  lemma {:induction false} GsubConcat(a: string, b: string, c: char, with: string)
    ensures Gsub(a + b, c, with) == Gsub(a, c, with) + Gsub(b, c, with)
  {
    if a == [] { assert a + b == b; } else {
      assert (a + b)[1..] == a[1..] + b;
      GsubConcat(a[1..], b, c, with);
      Assoc(if a[0] == c then with else [a[0]], Gsub(a[1..], c, with), Gsub(b, c, with));
    }
  }

  /** The text between the outer backticks of a quoted table name. */
  function Inner(name: string): string { Gsub(Gsub(name, '`', "``"), '.', "`.`") }

  lemma TableIsInner(name: string)
    ensures QuoteTable(name) == "`" + Inner(name) + "`"
  {
    var g := Gsub(name, '`', "``");
    GsubConcat("`" + g, "`", '.', "`.`");
    GsubConcat("`", g, '.', "`.`");
    Backtick();
  }

  lemma Backtick()
    ensures Gsub("`", '.', "`.`") == "`"
    ensures Gsub("``", '.', "`.`") == "``"
    ensures Gsub(".", '.', "`.`") == "`.`"
  {
    assert "`"[1..] == "" && "``"[1..] == "`" && "."[1..] == "";
  }

  lemma InnerCons(name: string)
    requires name != []
    ensures Inner(name) == (if name[0] == '.' then "`.`" else if name[0] == '`' then "``" else [name[0]]) + Inner(name[1..])
  {
    var first := if name[0] == '`' then "``" else [name[0]];
    GsubConcat(first, Gsub(name[1..], '`', "``"), '.', "`.`");
    Backtick();
    assert [name[0]][1..] == "";
    if name[0] != '`' && name[0] != '.' { assert Gsub([name[0]], '.', "`.`") == [name[0]] + ""; }
  }

  lemma GsubCons(c: char, name: string)
    ensures Gsub([c] + name, '`', "``") == (if c == '`' then "``" else [c]) + Gsub(name, '`', "``")
  {
    assert ([c] + name)[1..] == name;
  }

  /** Quoted parts joined: the outer backticks and what is between them. */
  lemma {:induction false} InnerIsJoined(name: string)
    ensures "`" + Inner(name) + "`" == Join(QuoteParts(Split(name, '.')), '.')
  {
    if name == [] {
      EmptyPart();
      assert QuoteParts([""]) == ["``"] + QuoteParts([]) by { assert [""][1..] == []; }
    } else {
      InnerIsJoined(name[1..]);
      InnerCons(name);
      var r := Split(name[1..], '.');
      var x := Inner(name[1..]);
      if name[0] == '.' {
        EmptyPart();
        assert ([""] + r)[1..] == r;
        JoinCons("``", QuoteParts(r), '.');
        DotInner(x);
      } else {
        var p := if name[0] == '`' then "``" else [name[0]];
        var q := [[name[0]] + r[0]] + r[1..];
        assert q[1..] == r[1..];
        GsubCons(name[0], r[0]);
        JoinGrowsInFront(p, Gsub(r[0], '`', "``"), QuoteParts(r[1..]));
        FrontInner(p, x, Join(QuoteParts(r), '.'));
      }
    }
  }

  lemma EmptyPart()
    ensures QuoteColumn("") == "``"
  {
    assert Gsub("", '`', "``") == "";
  }

  lemma DotInner(x: string)
    ensures "`" + ("`.`" + x) + "`" == "``" + "." + ("`" + x + "`")
  {}

  lemma FrontInner(p: string, x: string, j: string)
    requires "`" + x + "`" == j
    ensures "`" + (p + x) + "`" == "`" + p + j[1..]
  {
    assert j[1..] == x + "`";
  }

  lemma JoinGrowsInFront(p: string, g: string, rest: seq<string>)
    ensures Join(["`" + (p + g) + "`"] + rest, '.') == "`" + p + Join(["`" + g + "`"] + rest, '.')[1..]
  {
    assert (["`" + (p + g) + "`"] + rest)[1..] == rest && (["`" + g + "`"] + rest)[1..] == rest;
    var a, b := "`" + (p + g) + "`", "`" + g + "`";
    assert a == "`" + p + b[1..];
    if rest != [] {
      assert (b + "." + Join(rest, '.'))[1..] == b[1..] + "." + Join(rest, '.');
    }
  }

  /** quote_table_name distributes over the dots. */
  lemma TableQuotesItsParts(name: string)
    ensures QuoteTable(name) == Join(QuoteParts(Split(name, '.')), '.')
  {
    TableIsInner(name);
    InnerIsJoined(name);
  }

  // ---- Reading a quoted table name back ------------------------------------------------------------------

  /** The parts of a dotted sequence of backtick identifiers. */
  function ReadTable(q: string): Option<seq<string>> {
    if q == [] || q[0] != '`' then None else ReadPart(q[1..], "")
  }

  /** The rest of a part, of which `read` is known, and the parts behind it. */
  function ReadPart(q: string, read: string): Option<seq<string>>
    decreases |q|
  {
    if q == [] then None
    else if q[0] != '`' then ReadPart(q[1..], read + [q[0]])
    else if |q| == 1 then Some([read])
    else if q[1] == '`' then ReadPart(q[2..], read + "`")
    else if q[1] == '.' && |q| > 2 && q[2] == '`' then
      var rest := ReadPart(q[3..], "");
      if rest.None? then None else Some([read] + rest.value)
    else None
  }

  lemma NothingInFront(r: seq<string>)
    requires r != []
    ensures ["" + r[0]] + r[1..] == r
  {
    assert "" + r[0] == r[0];
  }

  lemma {:induction false} ReadsInner(name: string, read: string)
    ensures var r := Split(name, '.');
            ReadPart(Inner(name) + "`", read) == Some([read + r[0]] + r[1..])
    decreases |name|
  {
    if name == [] {
      assert Inner(name) + "`" == "`" && read + "" == read && [""][1..] == [];
      assert [read + ""] + [] == [read];
    } else {
      InnerCons(name);
      var rest := Inner(name[1..]) + "`";
      var r := Split(name[1..], '.');
      if name[0] == '.' {
        ReadsInner(name[1..], "");
        Assoc("`.`", Inner(name[1..]), "`");
        assert ("`.`" + rest)[3..] == rest;
        NothingInFront(r);
        assert read + "" == read && ([""] + r)[1..] == r;
      } else if name[0] == '`' {
        ReadsInner(name[1..], read + "`");
        Assoc("``", Inner(name[1..]), "`");
        assert ("``" + rest)[2..] == rest;
        Assoc(read, "`", r[0]);
      } else {
        ReadsInner(name[1..], read + [name[0]]);
        Assoc([name[0]], Inner(name[1..]), "`");
        assert ([name[0]] + rest)[1..] == rest;
        Assoc(read, [name[0]], r[0]);
      }
    }
  }

  /** Quoting can be undone for every name, backticks, dots and empty parts included. */
  lemma QuotedTableReadsBack(name: string)
    ensures ReadTable(QuoteTable(name)) == Some(Split(name, '.')) && Join(Split(name, '.'), '.') == name
  {
    TableIsInner(name);
    var q := "`" + Inner(name) + "`";
    assert q[1..] == Inner(name) + "`";
    ReadsInner(name, "");
    NothingInFront(Split(name, '.'));
    JoinOfSplit(name, '.');
  }

  lemma {:induction false} ReadsColumn(name: string, read: string)
    ensures ReadPart(Gsub(name, '`', "``") + "`", read) == Some([read + name])
    decreases |name|
  {
    if name == [] {
      assert Gsub(name, '`', "``") + "`" == "`" && read + "" == read;
    } else {
      var first := if name[0] == '`' then "``" else [name[0]];
      var rest := Gsub(name[1..], '`', "``") + "`";
      ReadsColumn(name[1..], read + [name[0]]);
      Assoc(first, Gsub(name[1..], '`', "``"), "`");
      assert (first + rest)[|first|..] == rest;
      Assoc(read, [name[0]], name[1..]);
      assert [name[0]] + name[1..] == name;
    }
  }

  /** A quoted column name is one part, whatever dots and backticks it has. */
  lemma QuotedColumnReadsBack(name: string)
    ensures ReadTable(QuoteColumn(name)) == Some([name])
  {
    var g := Gsub(name, '`', "``");
    assert QuoteColumn(name)[1..] == g + "`";
    ReadsColumn(name, "");
    assert "" + name == name;
  }

  lemma QuotingIsInjective(a: string, b: string)
    requires QuoteTable(a) == QuoteTable(b)
    ensures a == b
  {
    QuotedTableReadsBack(a);
    QuotedTableReadsBack(b);
  }

  // ---- The memo tables -------------------------------------------------------------------------------------

  /** A name arrives as a string or as a symbol; the two are different hash keys. */
  datatype Name = Str(s: string) | Sym(s: string)

  class QuoteCache {
    var columns: map<Name, string>
    var tables: map<Name, string>

    /** Both tables agree with direct computation. */
    ghost predicate Valid()
      reads this
    {
      && (forall n :: n in columns ==> columns[n] == QuoteColumn(n.s))
      && (forall n :: n in tables ==> tables[n] == QuoteTable(n.s))
    }

    /** Connecting starts with empty tables. */
    constructor ()
      ensures Valid() && columns == map[] && tables == map[]
    {
      columns, tables := map[], map[];
    }

    method QuoteColumnName(name: Name) returns (r: string)
      requires Valid()
      modifies this`columns
      ensures Valid() && r == QuoteColumn(name.s) && columns == old(columns)[name := r]
    {
      if name !in columns {
        columns := columns[name := "`" + Gsub(name.s, '`', "``") + "`"];
      }
      r := columns[name];
    }

    method QuoteTableName(name: Name) returns (r: string)
      requires Valid()
      modifies this
      ensures Valid() && r == QuoteTable(name.s) && tables == old(tables)[name := r]
      ensures columns == old(columns) || columns == old(columns)[name := QuoteColumn(name.s)]
    {
      if name !in tables {
        var c := QuoteColumnName(name);
        tables := tables[name := Gsub(c, '.', "`.`")];
      }
      r := tables[name];
    }
  }
}
