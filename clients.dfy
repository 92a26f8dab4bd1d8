/**
 * The clients table (clientes.csv) as the server reads it: a header line, then one
 * client per non-blank line, fields separated by a tab or a comma, and ids given by
 * position (1 for the first data line).
 */
module Clients {
  import opened Wrappers
  import opened Seqs
  import opened Text

  /** One entry of the client list: `{ id, NombreCliente, EmailCliente, Telefono }`. */
  datatype Client = Client(id: nat, nombre: string, email: string, telefono: string)

  /** The separators of `split(/\t|,/)`. */
  const FieldSeps: set<char> := {'\t', ','}

  /** The record one data line stands for: its first three fields, trimmed. */
  function ClientOfLine(line: string, id: nat): Client {
    var parts := Split(line, FieldSeps);
    Client(id, Trim(Field(parts, 0)), Trim(Field(parts, 1)), Trim(Field(parts, 2)))
  }

  /** The records of the data lines, numbered from 1 in file order. */
  function Numbered(d: seq<string>): (r: seq<Client>)
    ensures |r| == |d|
    decreases |d|
  {
    if d == [] then [] else Numbered(d[..|d| - 1]) + [ClientOfLine(d[|d| - 1], |d|)]
  }

  /** Numbering one more line appends its record. */
  lemma NumberedSnoc(d: seq<string>, i: nat)
    requires i < |d|
    ensures Numbered(d[..i + 1]) == Numbered(d[..i]) + [ClientOfLine(d[i], i + 1)]
  {
    assert d[..i + 1][..i] == d[..i];
  }

  /** What `/clientes-todos` returns for the file (an empty list when it is missing). */
  function ClientList(file: Option<string>): seq<Client> {
    match file
    case None => []
    case Some(text) => Numbered(DataLines(text))
  }

  /** The list has one record per data line, in file order, numbered from 1. */
  lemma {:induction false} NumberedAt(d: seq<string>, i: nat)
    requires i < |d|
    ensures Numbered(d)[i] == ClientOfLine(d[i], i + 1)
    decreases |d|
  {
    if i < |d| - 1 {
      NumberedAt(d[..|d| - 1], i);
    }
  }

  /** Ids in the list are distinct: each is the 1-based position of its record. */
  lemma ClientIdsDistinct(file: Option<string>, i: nat, j: nat)
    requires i < j < |ClientList(file)|
    ensures ClientList(file)[i].id == i + 1 && ClientList(file)[j].id == j + 1
  {
    if file.Some? {
      NumberedAt(DataLines(file.value), i);
      NumberedAt(DataLines(file.value), j);
    }
  }

  // ---------------------------------------------------------------- search

  /**
   * Whether `/buscar-clientes` returns client `c` for the query values (the empty
   * string when absent): an email query is an exact match and takes precedence; a
   * name query is a case-insensitive substring of a non-empty name.
   */
  predicate Matches(c: Client, name: string, email: string) {
    if email != "" then c.email == email
    else name != "" && c.nombre != "" && Contains(ToLower(c.nombre), ToLower(name))
  }

  /** The query as a filter. */
  function Query(name: string, email: string): Client -> bool {
    c => Matches(c, name, email)
  }

  /** What `/buscar-clientes` returns. */
  function SearchResults(file: Option<string>, name: string, email: string): seq<Client> {
    Filter(ClientList(file), Query(name, email))
  }

  /** Every search result is a client of the list, with the same id. */
  lemma SearchInList(file: Option<string>, name: string, email: string, c: Client)
    ensures c in SearchResults(file, name, email) <==> c in ClientList(file) && Matches(c, name, email)
  {
  }

  /** With neither query value, nothing is found. */
  lemma SearchNoQuery(file: Option<string>)
    ensures SearchResults(file, "", "") == []
  {
    FilterNone(ClientList(file), Query("", ""));
  }

  /** An email query decides alone: the name query is then irrelevant. */
  lemma SearchEmailFirst(file: Option<string>, name: string, name': string, email: string)
    requires email != ""
    ensures SearchResults(file, name, email) == SearchResults(file, name', email)
  {
    FilterSame(ClientList(file), Query(name, email), Query(name', email));
  }

  lemma {:induction false} FilterSame(s: seq<Client>, p: Client -> bool, q: Client -> bool)
    requires forall i :: 0 <= i < |s| ==> p(s[i]) == q(s[i])
    ensures Filter(s, p) == Filter(s, q)
    decreases |s|
  {
    if s != [] {
      FilterSame(s[..|s| - 1], p, q);
    }
  }

  // ---------------------------------------------------------------- surnames

  /** The longest suffix of `s` without white space. */
  function TrailingWord(s: string): string
    decreases |s|
  {
    if s == [] || IsSpace(s[|s| - 1]) then [] else TrailingWord(s[..|s| - 1]) + [s[|s| - 1]]
  }

  /** The last token of `s.split(/\s+/).filter(Boolean)`, or the empty string when there is none. */
  function LastWord(s: string): string {
    TrailingWord(TrimEnd(s))
  }

  /** A name has a last word exactly when it is not blank. */
  lemma LastWordEmpty(s: string)
    ensures LastWord(s) == [] <==> Blank(s)
  {
    var t := TrimEnd(s);
    if t == [] {
      assert Blank(s);
    } else {
      assert !Blank(s) by {
        TrimEndPrefix(s);
        assert !IsSpace(s[|t| - 1]);
      }
    }
  }

  /** No white space inside the last word. */
  lemma {:induction false} TrailingWordSolid(s: string)
    ensures forall i :: 0 <= i < |TrailingWord(s)| ==> !IsSpace(TrailingWord(s)[i])
    decreases |s|
  {
    if s != [] && !IsSpace(s[|s| - 1]) {
      TrailingWordSolid(s[..|s| - 1]);
    }
  }

  /** Whether a client's last word is the (already trimmed and lower-cased) surname. */
  predicate HasSurname(c: Client, apellido: string) {
    c.nombre != "" && ToLower(LastWord(c.nombre)) == apellido
  }

  /** The surname test as a filter. */
  function Surname(apellido: string): Client -> bool {
    c => HasSurname(c, apellido)
  }

  /** The `count` of `/contar-por-apellido`. */
  function SurnameCount(file: Option<string>, query: string): nat {
    var apellido := ToLower(Trim(query));
    if apellido == [] then 0 else |Filter(ClientList(file), Surname(apellido))|
  }

  /** The count never exceeds the number of clients, and is 0 for a blank query. */
  lemma SurnameCountBounds(file: Option<string>, query: string)
    ensures SurnameCount(file, query) <= |ClientList(file)|
    ensures Blank(query) ==> SurnameCount(file, query) == 0
  {
    TrimEmpty(query);
  }

  // ---------------------------------------------------------------- creation

  /**
   * The id `/crear-cliente` hands out: the number of non-blank pieces of
   * `split('\n')`, header included, or 1 when the file is missing.
   */
  function NextClientId(file: Option<string>): nat {
    match file
    case None => 1
    case Some(text) => |Filter(RawLines(text), NonBlank)|
  }

  /** The line `${nombre},${email},${telefono || ''}`. */
  function ClientRow(nombre: string, email: string, telefono: string): string {
    nombre + "," + email + "," + telefono
  }

  /**
   * After appending a row to a file that has a header and ends with a newline, the
   * list gains exactly one record at the end, and its id is the id that was handed out.
   */
  lemma CreatedClientListed(text: string, row: string)
    requires |text| > 0 && text[|text| - 1] == '\n'
    requires Filter(Lines(text), NonBlank) != []
    requires Free(row, {'\n'}) && NonBlank(row)
    ensures var before := ClientList(Some(text));
      var after := ClientList(Some(text + row + "\n"));
      |after| == NextClientId(Some(text)) == |before| + 1 &&
      after[..|before|] == before &&
      after[|before|] == ClientOfLine(DropCR(row), NextClientId(Some(text)))
  {
    DataLinesAppend(text, row);
    NonBlankCount(text);
    var d := DataLines(text);
    assert (d + [DropCR(row)])[..|d|] == d;
  }

  /** A row of clean fields reads back as those fields, trimmed. */
  lemma ClientRowFields(nombre: string, email: string, telefono: string, id: nat)
    requires forall s :: s in [nombre, email, telefono] ==> Free(s, {'\t', ',', '\n', '\r'})
    ensures ClientOfLine(DropCR(ClientRow(nombre, email, telefono)), id)
      == Client(id, Trim(nombre), Trim(email), Trim(telefono))
  {
    var row := ClientRow(nombre, email, telefono);
    assert DropCR(row) == row by {
      if telefono == [] {
        assert row[|row| - 1] == ',';
      } else {
        assert telefono in [nombre, email, telefono];
        assert row[|row| - 1] == telefono[|telefono| - 1] != '\r';
      }
    }
    var ps := [nombre, email, telefono];
    forall i | 0 <= i < 3 ensures Free(ps[i], FieldSeps) {
      assert ps[i] in ps;
      FreeSubset(ps[i], {'\t', ',', '\n', '\r'}, FieldSeps);
    }
    Join3(nombre, email, telefono, [',']);
    SplitJoin(ps, ',', FieldSeps);
  }
}
