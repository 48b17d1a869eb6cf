// NuoDbConnection's connection string: the parser, and the printer it undoes.

module ConnectionString {
  import opened Options
  import opened Splitting

  /** Char.IsWhiteSpace */
  predicate IsWhiteSpace(c: char) {
    '\U{9}' <= c <= '\U{D}' || c == ' ' || c == '\U{85}' || c == '\U{A0}' || c == '\U{1680}'
    || '\U{2000}' <= c <= '\U{200A}' || c == '\U{2028}' || c == '\U{2029}' || c == '\U{202F}'
    || c == '\U{205F}' || c == '\U{3000}'
  }

  function TrimStart(s: string): string {
    if s != [] && IsWhiteSpace(s[0]) then TrimStart(s[1..]) else s
  }

  function TrimEnd(s: string): string {
    if s != [] && IsWhiteSpace(s[|s| - 1]) then TrimEnd(s[..|s| - 1]) else s
  }

  function Trim(s: string): string { TrimEnd(TrimStart(s)) }

  datatype Key = Database | Schema | User | Password

  function KeyName(k: Key): string {
    match k
    case Database => "Database"
    case Schema => "Schema"
    case User => "User"
    case Password => "Password"
  }

  function KeyOf(s: string): Option<Key> {
    if s == "Database" then Some(Database)
    else if s == "Schema" then Some(Schema)
    else if s == "User" then Some(User)
    else if s == "Password" then Some(Password)
    else None
  }

  datatype Settings = Settings(database: string, schema: string, user: string, password: string)
  {
    function Get(k: Key): string {
      match k
      case Database => database
      case Schema => schema
      case User => user
      case Password => password
    }

    function With(k: Key, v: string): Settings {
      match k
      case Database => this.(database := v)
      case Schema => this.(schema := v)
      case User => this.(user := v)
      case Password => this.(password := v)
    }
  }

  const BLANK := Settings("", "", "", "")

  datatype Error = Missing | Malformed | UnknownKey(key: string)

  datatype Item = Good(key: Key, value: string) | Bad(error: Error)

  /** One segment between semicolons. */
  function ReadItem(item: string): Item {
    var parts := Split(item, '=');
    if |parts| != 2 then Bad(Malformed)
    else
      var k, v := Trim(parts[0]), Trim(parts[1]);
      if k == "" || v == "" then Bad(Malformed)
      else if KeyOf(k).None? then Bad(UnknownKey(k))
      else Good(KeyOf(k).value, v)
  }

  /** The settings after the segments up to the first bad one. */
  function Assigned(items: seq<string>, s: Settings): Settings {
    if items == [] || ReadItem(items[0]).Bad? then s
    else Assigned(items[1..], s.With(ReadItem(items[0]).key, ReadItem(items[0]).value))
  }

  function FirstError(items: seq<string>): Option<Error> {
    if items == [] then None
    else if ReadItem(items[0]).Bad? then Some(ReadItem(items[0]).error)
    else FirstError(items[1..])
  }

  // ---- What parsing means ------------------------------------------------------------------------------------

  /** The two sides of a segment around its only equals sign. */
  predicate Sides(item: string, a: string, b: string) {
    item == a + "=" + b && '=' !in a && '=' !in b
  }

  lemma SidesAreParts(item: string, a: string, b: string)
    ensures Sides(item, a, b) <==> Split(item, '=') == [a, b]
  {
    if Sides(item, a, b) {
      SplitFirst(a, '=', b);
      SplitPlain(b, '=');
    }
    if Split(item, '=') == [a, b] {
      JoinOfSplit(item, '=');
      SplitPieces(item, '=');
      assert [a, b][0] == a && [a, b][1] == b && [a, b][1..] == [b];
    }
  }

  /** A segment is one known key, one equals sign and one value that is not blank. */
  lemma GoodItems(item: string, k: Key, v: string)
    ensures ReadItem(item) == Good(k, v) <==>
              exists a, b :: Sides(item, a, b) && Trim(a) == KeyName(k) && Trim(b) == v && v != ""
  {
    KeyNameIsKey(k);
    var parts := Split(item, '=');
    if |parts| == 2 {
      assert parts == [parts[0], parts[1]];
      SidesAreParts(item, parts[0], parts[1]);
    }
    if a, b :| Sides(item, a, b) && Trim(a) == KeyName(k) && Trim(b) == v && v != "" {
      SidesAreParts(item, a, b);
    }
  }

  lemma KeyNameIsKey(k: Key)
    ensures forall s :: KeyOf(s) == Some(k) <==> s == KeyName(k)
    ensures KeyName(k) != ""
  {}

  lemma {:induction false} SplitPieces(s: string, c: char)
    ensures forall i :: 0 <= i < |Split(s, c)| ==> c !in Split(s, c)[i]
  {
    if s != [] {
      SplitPieces(s[1..], c);
      var r := Split(s[1..], c);
      if s[0] != c {
        assert c !in [s[0]] + r[0];
      }
    }
  }

  lemma {:induction false} NoErrorMeansAllGood(items: seq<string>)
    ensures FirstError(items).None? <==> forall i :: 0 <= i < |items| ==> ReadItem(items[i]).Good?
  {
    if items != [] {
      NoErrorMeansAllGood(items[1..]);
      if FirstError(items).None? {
        forall i | 0 <= i < |items| ensures ReadItem(items[i]).Good? {
          if i > 0 { assert items[i] == items[1..][i - 1]; }
        }
      } else if ReadItem(items[0]).Good? {
        var i :| 0 <= i < |items[1..]| && !ReadItem(items[1..][i]).Good?;
        assert items[1..][i] == items[i + 1];
      }
    }
  }

  /** The i-th segment is the first bad one. */
  ghost predicate FirstBadAt(items: seq<string>, i: nat) {
    i < |items| && ReadItem(items[i]).Bad? && forall j :: 0 <= j < i ==> ReadItem(items[j]).Good?
  }

  /** The first bad segment gives the error, and only the segments in front of it are assigned. */
  lemma {:induction false} FirstBadDecides(items: seq<string>, s: Settings, i: nat)
    requires FirstBadAt(items, i)
    ensures FirstError(items) == Some(ReadItem(items[i]).error)
    ensures Assigned(items, s) == Assigned(items[..i], s)
  {
    if i == 0 {
      assert items[..0] == [];
    } else {
      assert ReadItem(items[0]).Good?;
      FirstBadDecides(items[1..], s.With(ReadItem(items[0]).key, ReadItem(items[0]).value), i - 1);
      assert items[..i][0] == items[0] && items[..i][1..] == items[1..][..i - 1];
    }
  }

  ghost predicate LastWith(items: seq<string>, k: Key, i: nat) {
    i < |items| && ReadItem(items[i]).Good? && ReadItem(items[i]).key == k &&
    forall j :: i < j < |items| ==> !(ReadItem(items[j]).Good? && ReadItem(items[j]).key == k)
  }

  lemma WithGet(s: Settings, k: Key, v: string, j: Key)
    ensures s.With(k, v).Get(j) == if j == k then v else s.Get(j)
  {}

  lemma {:induction false} Unmentioned(items: seq<string>, s: Settings, k: Key)
    requires forall i :: 0 <= i < |items| ==> !(ReadItem(items[i]).Good? && ReadItem(items[i]).key == k)
    ensures Assigned(items, s).Get(k) == s.Get(k)
  {
    if items != [] && ReadItem(items[0]).Good? {
      var g := ReadItem(items[0]);
      WithGet(s, g.key, g.value, k);
      Unmentioned(items[1..], s.With(g.key, g.value), k);
    }
  }

  /** In a string without errors the last segment of a key decides. */
  lemma {:induction false} LastOccurrenceWins(items: seq<string>, s: Settings, k: Key, i: nat)
    requires FirstError(items).None? && LastWith(items, k, i)
    ensures Assigned(items, s).Get(k) == ReadItem(items[i]).value
  {
    var g := ReadItem(items[0]);
    var rest, s' := items[1..], s.With(g.key, g.value);
    if i > 0 {
      LastOccurrenceWins(rest, s', k, i - 1);
    } else {
      WithGet(s, g.key, g.value, k);
      Unmentioned(rest, s', k);
    }
  }

  // ---- Blanks -------------------------------------------------------------------------------------------------

  /** The white space of Unicode, by number. */
  predicate UnicodeSpace(c: char) {
    var n := c as int;
    || n == 9 || n == 10 || n == 11 || n == 12 || n == 13 || n == 32 || n == 133 || n == 160 || n == 5760
    || (8192 <= n && n <= 8202) || n == 8232 || n == 8233 || n == 8239 || n == 8287 || n == 12288
  }

  predicate SpacesOnly(s: string) { forall i :: 0 <= i < |s| ==> UnicodeSpace(s[i]) }

  /** Not empty, and no white space at the ends. */
  predicate Bare(s: string) { s != "" && !UnicodeSpace(s[0]) && !UnicodeSpace(s[|s| - 1]) }

  lemma {:induction false} TrimStartDropsSpaces(a: string, s: string)
    requires SpacesOnly(a) && s != "" && !UnicodeSpace(s[0])
    ensures TrimStart(a + s) == s
  {
    if a == "" { assert a + s == s; } else {
      assert (a + s)[1..] == a[1..] + s;
      TrimStartDropsSpaces(a[1..], s);
    }
  }

  lemma {:induction false} TrimEndDropsSpaces(s: string, d: string)
    requires SpacesOnly(d) && s != "" && !UnicodeSpace(s[|s| - 1])
    ensures TrimEnd(s + d) == s
    decreases |d|
  {
    if d == "" { assert s + d == s; } else {
      assert (s + d)[..|s + d| - 1] == s + d[..|d| - 1];
      TrimEndDropsSpaces(s, d[..|d| - 1]);
    }
  }

  /** Trimming drops the white space at both ends and nothing else. */
  lemma TrimDropsSpaces(a: string, s: string, d: string)
    requires SpacesOnly(a) && SpacesOnly(d) && Bare(s)
    ensures Trim(a + s + d) == s
  {
    assert a + s + d == a + (s + d);
    TrimStartDropsSpaces(a, s + d);
    TrimEndDropsSpaces(s, d);
  }

  lemma NoEquals(a: string, s: string, d: string)
    requires SpacesOnly(a) && SpacesOnly(d) && '=' !in s
    ensures '=' !in a + s + d
  {}

  lemma PaddedItem(a: string, k: Key, b: string, c: string, v: string, d: string)
    requires SpacesOnly(a) && SpacesOnly(b) && SpacesOnly(c) && SpacesOnly(d) && Bare(v) && '=' !in v
    ensures ReadItem((a + KeyName(k) + b) + "=" + (c + v + d)) == Good(k, v)
  {
    KeyNamesAreBare(k);
    KeyNameIsKey(k);
    NoEquals(a, KeyName(k), b);
    NoEquals(c, v, d);
    ItemOfSides(a + KeyName(k) + b, c + v + d);
    TrimDropsSpaces(a, KeyName(k), b);
    TrimDropsSpaces(c, v, d);
  }

  /** White space around the key and around the value does not matter: `Database = x` is read like
      `Database=x`. */
  lemma SpacesAroundAreIgnored(a: string, k: Key, b: string, c: string, v: string, d: string)
    requires SpacesOnly(a) && SpacesOnly(b) && SpacesOnly(c) && SpacesOnly(d) && Bare(v) && '=' !in v
    ensures ReadItem((a + KeyName(k) + b) + "=" + (c + v + d)) == Good(k, v) == ReadItem(KeyName(k) + "=" + v)
  {
    PaddedItem(a, k, b, c, v, d);
    PaddedItem("", k, "", "", v, "");
    assert "" + KeyName(k) + "" == KeyName(k) && "" + v + "" == v;
  }

  lemma KeyNamesAreBare(k: Key)
    ensures Bare(KeyName(k)) && '=' !in KeyName(k)
  {}

  lemma ItemOfSides(a: string, b: string)
    requires '=' !in a && '=' !in b
    ensures Split(a + "=" + b, '=') == [a, b]
  {
    SidesAreParts(a + "=" + b, a, b);
  }

  /** Segments that are read alike give the same settings and the same error. */
  lemma {:induction false} ReadAlike(items: seq<string>, others: seq<string>, s: Settings)
    requires |items| == |others| && forall i :: 0 <= i < |items| ==> ReadItem(items[i]) == ReadItem(others[i])
    ensures Assigned(items, s) == Assigned(others, s) && FirstError(items) == FirstError(others)
  {
    if items != [] {
      assert ReadItem(items[0]) == ReadItem(others[0]);
      if ReadItem(items[0]).Good? {
        ReadAlike(items[1..], others[1..], s.With(ReadItem(items[0]).key, ReadItem(items[0]).value));
      }
    }
  }

  /** The error of a segment: the key is named exactly when both sides are there and not blank but the
      key is none of the four; every other bad segment is malformed. */
  lemma ErrorsExactly(item: string, x: string)
    ensures ReadItem(item) == Bad(UnknownKey(x)) <==>
              x != "" && x != "Database" && x != "Schema" && x != "User" && x != "Password" &&
              exists a, b :: Sides(item, a, b) && Trim(a) == x && Trim(b) != ""
    ensures ReadItem(item).Bad? ==> ReadItem(item).error.UnknownKey? || ReadItem(item).error.Malformed?
  {
    var parts := Split(item, '=');
    if |parts| == 2 {
      assert parts == [parts[0], parts[1]];
      SidesAreParts(item, parts[0], parts[1]);
    }
    if a, b :| Sides(item, a, b) && Trim(a) == x && Trim(b) != "" {
      SidesAreParts(item, a, b);
    }
  }

  // ---- Round trip -----------------------------------------------------------------------------------------------

  /** Values that survive: not blank, without blanks at the ends, without separators. */
  predicate Clean(v: string) { v != "" && Trim(v) == v && ';' !in v && '=' !in v }

  function ShowItem(k: Key, v: string): string { KeyName(k) + "=" + v }

  /** The settings in the given order of keys. */
  function ShowItems(s: Settings, order: seq<Key>): seq<string> {
    if order == [] then [] else [ShowItem(order[0], s.Get(order[0]))] + ShowItems(s, order[1..])
  }

  function Show(s: Settings, order: seq<Key>): string { Join(ShowItems(s, order), ';') }

  lemma KeyNamesAreClean(k: Key)
    ensures Clean(KeyName(k)) && KeyOf(KeyName(k)) == Some(k)
  {
    TrimKeepsWord(KeyName(k));
  }

  lemma TrimKeepsWord(s: string)
    requires s != [] && !IsWhiteSpace(s[0]) && !IsWhiteSpace(s[|s| - 1])
    ensures Trim(s) == s
  {}

  lemma ItemReadsBack(k: Key, v: string)
    requires Clean(v)
    ensures ReadItem(ShowItem(k, v)) == Good(k, v) && ';' !in ShowItem(k, v)
  {
    KeyNamesAreClean(k);
    SplitFirst(KeyName(k), '=', v);
    SplitPlain(v, '=');
  }

  lemma {:induction false} ItemsReadBack(s: Settings, order: seq<Key>, acc: Settings, k: Key)
    requires forall k :: Clean(s.Get(k))
    ensures FirstError(ShowItems(s, order)).None? && |ShowItems(s, order)| == |order|
    ensures forall i :: 0 <= i < |order| ==> ';' !in ShowItems(s, order)[i]
    ensures Assigned(ShowItems(s, order), acc).Get(k) == if k in order then s.Get(k) else acc.Get(k)
  {
    if order != [] {
      var o := order[0];
      ItemReadsBack(o, s.Get(o));
      WithGet(acc, o, s.Get(o), k);
      ItemsReadBack(s, order[1..], acc.With(o, s.Get(o)), k);
      assert ShowItems(s, order)[1..] == ShowItems(s, order[1..]);
    }
  }

  lemma SameSettings(s: Settings, t: Settings)
    requires forall k :: s.Get(k) == t.Get(k)
    ensures s == t
  {
    assert s.Get(Database) == t.Get(Database) && s.Get(Schema) == t.Get(Schema);
    assert s.Get(User) == t.Get(User) && s.Get(Password) == t.Get(Password);
  }

  /** Printing clean settings in any order that names every key, and parsing, gives them back. */
  lemma SettingsRoundTrip(s: Settings, order: seq<Key>)
    requires (forall k :: Clean(s.Get(k))) && (forall k: Key :: k in order)
    ensures Show(s, order) != ""
    ensures FirstError(Split(Show(s, order), ';')).None?
    ensures Assigned(Split(Show(s, order), ';'), BLANK) == s
  {
    assert Database in order;
    forall k ensures Assigned(ShowItems(s, order), BLANK).Get(k) == s.Get(k) {
      ItemsReadBack(s, order, BLANK, k);
    }
    ItemsReadBack(s, order, BLANK, Database);
    SplitOfJoin(ShowItems(s, order), ';');
    SameSettings(Assigned(ShowItems(s, order), BLANK), s);
    var first := ShowItems(s, order)[0];
    assert first != "" by { KeyNamesAreClean(order[0]); }
  }
}
