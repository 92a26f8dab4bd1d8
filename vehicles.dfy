/**
 * The vehicles table (Vehiculos/vehiculos.csv): the id the server hands out for a new
 * vehicle, the header repair done before each creation, the row it appends, and the
 * start-up migration of files written under the two older headers.
 */
module Vehicles {
  import opened Wrappers
  import opened Seqs
  import opened Text

  /** The columns of the current schema. */
  const VehColumns: seq<string> := ["Idauto", "Patente", "Marca", "Modelo", "Kilometraje", "TipoAceite", "Fecha"]
  /** The current header, `Idauto,Patente,Marca,Modelo,Kilometraje,TipoAceite,Fecha`. */
  const VehHeader: string := Join(VehColumns, ",")
  /** The header of the oldest schema, whose rows hold six columns in another order. */
  const OldIdHeader: string := "VehiculoId,Marca,Modelo,Patente,TipoAceite,Kilometraje"
  /** The header of the schema that only named four columns. */
  const OldSimpleHeader: string := "Idauto, Patente, Marca, Modelo"

  /** The current header is one line, without surrounding white space. */
  lemma VehHeaderClean()
    ensures Free(VehHeader, {'\n'}) && DropCR(VehHeader) == VehHeader
    ensures Trimmed(VehHeader) && NonBlank(VehHeader)
  {
    var cs := {'\n', '\r'};
    ColumnsClean();
    JoinFree(VehColumns, ",", cs);
    FreeSubset(VehHeader, cs, {'\n'});
    JoinCons(VehColumns[0], VehColumns[1..], ",");
    assert [VehColumns[0]] + VehColumns[1..] == VehColumns;
    assert VehHeader[0] == 'I';
    assert VehHeader[|VehHeader| - 1] == 'a';
  }

  lemma ColumnsClean()
    ensures forall i :: 0 <= i < |VehColumns| ==> Free(VehColumns[i], {'\n', '\r'})
    ensures VehColumns[0][0] == 'I' && VehColumns[6][4] == 'a'
  {
    var cs := {'\n', '\r'};
    assert Free("Idauto", cs);
    assert Free("Patente", cs);
    assert Free("Marca", cs);
    assert Free("Modelo", cs);
    assert Free("Kilometraje", cs);
    assert Free("TipoAceite", cs);
    assert Free("Fecha", cs);
  }

  // ---------------------------------------------------------------- next id

  /** `parseInt` of the trimmed first comma-separated field of a row. */
  function RowId(line: string): Option<int> {
    ParseInt(Trim(Split(line, {','})[0]))
  }

  /** The ids read from the data rows of a file, `None` where `parseInt` gives `NaN`. */
  function RowIds(text: string): seq<Option<int>> {
    Map(RowId, DataLines(text))
  }

  /**
   * The value of `nextId` after the loop over the parsed ids: starting from 1, every
   * id at least as large as the current value moves it one past that id.
   */
  function NextIdOf(ids: seq<Option<int>>): (r: int)
    ensures r >= 1
    ensures forall i :: 0 <= i < |ids| && ids[i].Some? ==> ids[i].value < r
    decreases |ids|
  {
    if ids == [] then 1
    else
      var m := NextIdOf(ids[..|ids| - 1]);
      var id := ids[|ids| - 1];
      if id.Some? && id.value >= m then id.value + 1 else m
  }

  /** The next id is 1 or one past an id that is present. */
  lemma {:induction false} NextIdAttained(ids: seq<Option<int>>)
    ensures var r := NextIdOf(ids); r == 1 || Some(r - 1) in ids
    decreases |ids|
  {
    if ids != [] {
      var init := ids[..|ids| - 1];
      NextIdAttained(init);
      assert forall x :: x in init ==> x in ids;
    }
  }

  /** What `/vehiculos/next-id` answers: 1 when the file is missing. */
  function NextId(file: Option<string>): int {
    match file
    case None => 1
    case Some(text) => NextIdOf(RowIds(text))
  }

  /** The next id is the least value that is at least 1 and exceeds every parsed id. */
  lemma NextIdLeast(ids: seq<Option<int>>, k: int)
    requires k >= 1
    requires forall i :: 0 <= i < |ids| && ids[i].Some? ==> ids[i].value < k
    ensures NextIdOf(ids) <= k
  {
    NextIdAttained(ids);
  }

  /** An id at least the current next id moves it to one past that id. */
  lemma NextIdOfSnoc(ids: seq<Option<int>>, n: int)
    requires n >= NextIdOf(ids)
    ensures NextIdOf(ids + [Some(n)]) == n + 1
  {
    assert (ids + [Some(n)])[..|ids|] == ids;
  }

  /** One more id: the loop's step on a prefix of the ids. */
  lemma NextIdOfStep(ids: seq<Option<int>>, i: int)
    requires 0 <= i < |ids|
    ensures NextIdOf(ids[..i + 1])
         == (if ids[i].Some? && ids[i].value >= NextIdOf(ids[..i]) then ids[i].value + 1 else NextIdOf(ids[..i]))
  {
    assert ids[..i + 1][..i] == ids[..i];
  }

  // ---------------------------------------------------------------- creation

  /**
   * The text of the file after the header check of `/vehiculos/crear`: a missing file
   * becomes the header alone; a file whose first line is not the header (ignoring
   * case and surrounding white space) is rewritten as the header followed by its
   * other non-blank lines.
   */
  function FixHeader(file: Option<string>): string {
    match file
    case None => VehHeader + "\n"
    case Some(txt) =>
      var ls := Lines(txt);
      if ToLower(Trim(ls[0])) == ToLower(VehHeader) then txt
      else
        var cuerpo := Join(Filter(ls[1..], NonBlank), "\n");
        VehHeader + "\n" + (if cuerpo != [] then cuerpo + "\n" else [])
  }

  /** After the check, the first line is the header, up to case and white space. */
  lemma FixHeaderFirstLine(file: Option<string>)
    ensures ToLower(Trim(Lines(FixHeader(file))[0])) == ToLower(VehHeader)
  {
    var t := FixHeader(file);
    if file.None? || ToLower(Trim(Lines(file.value)[0])) != ToLower(VehHeader) {
      VehHeaderClean();
      FirstLine(VehHeader, t[|VehHeader| + 1..]);
      assert t == VehHeader + "\n" + t[|VehHeader| + 1..];
      TrimNoop(VehHeader);
    }
  }

  /**
   * The id `/vehiculos/crear` stores: the given `idauto` when it parses to a positive
   * number, otherwise the next id of the (already repaired) file.
   */
  function ChosenId(idauto: string, fixed: string): (r: int)
    ensures r >= 1
    ensures ParseInt(idauto).Some? && ParseInt(idauto).value > 0 ==> r == ParseInt(idauto).value
    ensures !(ParseInt(idauto).Some? && ParseInt(idauto).value > 0) ==> r == NextId(Some(fixed))
  {
    var n := ParseInt(idauto);
    if n.Some? && n.value > 0 then n.value else NextIdOf(RowIds(fixed))
  }

  /** The seven fields of a new row, in the order of the current header. */
  function VehicleFields(id: nat, patente: string, marca: string, modelo: string,
                         kilometraje: string, tipoAceite: string, fecha: string): seq<string> {
    [NatToString(id), Trim(patente), Trim(marca), Trim(modelo), Trim(kilometraje), Trim(tipoAceite), Trim(fecha)]
  }

  /** The appended line, without its newline. */
  function VehicleLine(id: nat, patente: string, marca: string, modelo: string,
                       kilometraje: string, tipoAceite: string, fecha: string): string {
    Join(VehicleFields(id, patente, marca, modelo, kilometraje, tipoAceite, fecha), ",")
  }

  /** The id written at the head of a new row is the one its first column reads back. */
  lemma VehicleLineId(id: nat, patente: string, marca: string, modelo: string,
                      kilometraje: string, tipoAceite: string, fecha: string)
    ensures RowId(VehicleLine(id, patente, marca, modelo, kilometraje, tipoAceite, fecha)) == Some(id)
  {
    var fs := VehicleFields(id, patente, marca, modelo, kilometraje, tipoAceite, fecha);
    var ds := NatToString(id);
    assert fs == [ds] + fs[1..];
    JoinCons(ds, fs[1..], ",");
    DigitsFirstField(ds, Join(fs[1..], ","));
    ParseIntOfNat(id, []);
    assert ds + [] == ds;
  }

  lemma DigitsFirstField(ds: string, rest: string)
    requires AllDigits(ds) && ds != []
    ensures Trim(Split(ds + "," + rest, {','})[0]) == ds
  {
    assert Free(ds, {','});
    SplitFirst(ds, ',', rest, {','});
    assert Trimmed(ds);
    TrimNoop(ds);
  }

  // ---------------------------------------------------------------- migration

  /**
   * A data line of the oldest schema in the current order: of a trimmed, non-empty
   * line with at least six fields, the columns 0, 3, 1, 2, 5, 4 trimmed and an empty
   * date; nothing for any other line.
   */
  function MigrateRow(line: string): Option<string> {
    var l := Trim(line);
    if l == [] then None
    else
      var p := Split(l, {','});
      if |p| >= 6 then Some(Join([Trim(p[0]), Trim(p[3]), Trim(p[1]), Trim(p[2]), Trim(p[5]), Trim(p[4]), ""], ","))
      else None
  }

  /** The rows the migration loop collects from `lines`, in order. */
  function MigratedRows(lines: seq<string>): seq<string>
    decreases |lines|
  {
    if lines == [] then []
    else
      var r := MigrateRow(lines[|lines| - 1]);
      MigratedRows(lines[..|lines| - 1]) + (if r.Some? then [r.value] else [])
  }

  /** One more line of the file's body adds its migrated row, if any. */
  lemma MigratedRowsSnoc(lines: seq<string>, i: nat)
    requires 1 <= i < |lines|
    ensures MigratedRows(lines[1..i + 1]) == MigratedRows(lines[1..i])
      + (if MigrateRow(lines[i]).Some? then [MigrateRow(lines[i]).value] else [])
  {
    assert lines[1..i + 1][..i - 1] == lines[1..i];
    assert lines[1..i + 1][i - 1] == lines[i];
  }

  /** A line is kept exactly when it is non-blank with six fields or more. */
  lemma MigrateRowKept(line: string)
    ensures MigrateRow(line).Some? <==> |Split(Trim(line), {','})| >= 6
  {
    if Trim(line) == [] {
      assert Split([], {','}) == [[]];
    }
  }

  /** A migrated row splits into the six old columns, reordered, and an empty date. */
  lemma MigrateRowFields(line: string)
    requires MigrateRow(line).Some?
    ensures var p := Split(Trim(line), {','});
      Split(MigrateRow(line).value, {','})
        == [Trim(p[0]), Trim(p[3]), Trim(p[1]), Trim(p[2]), Trim(p[5]), Trim(p[4]), ""]
  {
    var p := Split(Trim(line), {','});
    var q := [Trim(p[0]), Trim(p[3]), Trim(p[1]), Trim(p[2]), Trim(p[5]), Trim(p[4]), ""];
    SplitFree(Trim(line), {','});
    forall i | 0 <= i < 6 ensures Free(Trim(p[i]), {','}) {
      TrimChars(p[i], {','});
    }
    assert forall i :: 0 <= i < |q| ==> Free(q[i], {','});
    SplitJoin(q, ',', {','});
  }

  /** Whether the migration keeps a line. */
  predicate Kept(line: string) {
    MigrateRow(line).Some?
  }

  /** The migrated form of a kept line. */
  function Migrated(line: string): string {
    MigrateRow(line).GetOr([])
  }

  /** The migration keeps exactly the lines `MigrateRow` keeps, each rewritten, in order. */
  lemma {:induction false} MigratedRowsSpec(lines: seq<string>)
    ensures MigratedRows(lines) == Map(Migrated, Filter(lines, Kept))
    decreases |lines|
  {
    if lines != [] {
      var init := lines[..|lines| - 1];
      var last := lines[|lines| - 1];
      MigratedRowsSpec(init);
      var tail := if Kept(last) then [last] else [];
      assert Filter(lines, Kept) == Filter(init, Kept) + tail;
      MapConcat(Migrated, Filter(init, Kept), tail);
    }
  }

  /** A truthy string, for `filter(Boolean)`. */
  predicate NonEmpty(s: string) {
    s != []
  }

  /**
   * The file after the start-up check: a missing file, or one whose first line is
   * blank, becomes the header alone; a file under the current header (ignoring case)
   * or an unrecognised header is left as it is; a file under the oldest header is
   * rewritten with its rows migrated; a file under the four-column header gets the
   * current header over its other non-empty lines.
   */
  function Migrate(file: Option<string>): string {
    match file
    case None => VehHeader + "\n"
    case Some(c) =>
      var ls := Lines(c);
      if Blank(ls[0]) then VehHeader + "\n"
      else
        var h := Trim(ls[0]);
        if ToLower(h) == ToLower(VehHeader) then c
        else if ToLower(h) == ToLower(OldIdHeader) then Join([VehHeader] + MigratedRows(ls[1..]), "\n") + "\n"
        else if h == OldSimpleHeader then
          VehHeader + "\n" + (Join(Filter(ls[1..], NonEmpty), "\n") + (if |ls| > 1 then "\n" else []))
        else c
  }

  /** Text that starts with the header line has it as its first line. */
  lemma HeaderFirstLine(rest: string)
    ensures Lines(VehHeader + "\n" + rest)[0] == VehHeader
  {
    VehHeaderClean();
    FirstLine(VehHeader, rest);
  }

  lemma HeaderAloneFirstLine()
    ensures Lines(VehHeader + "\n")[0] == VehHeader
  {
    HeaderFirstLine([]);
    assert VehHeader + "\n" + [] == VehHeader + "\n";
  }

  /** Whether the start-up check rewrites the file (rather than leave it as it is). */
  predicate Rewrites(file: Option<string>) {
    match file
    case None => true
    case Some(c) =>
      var ls := Lines(c);
      var h := Trim(ls[0]);
      Blank(ls[0]) || (ToLower(h) != ToLower(VehHeader) && (ToLower(h) == ToLower(OldIdHeader) || h == OldSimpleHeader))
  }

  /** A file the check does not rewrite is left exactly as it is. */
  lemma MigrateKeeps(file: Option<string>)
    requires !Rewrites(file)
    ensures file.Some? && Migrate(file) == file.value
  {
  }

  /** Whatever the check rewrites starts with the current header line. */
  lemma MigrateFirstLine(file: Option<string>)
    requires Rewrites(file)
    ensures Lines(Migrate(file))[0] == VehHeader
  {
    match file
    case None =>
      assert Migrate(file) == VehHeader + "\n";
      HeaderAloneFirstLine();
    case Some(c) =>
      var ls := Lines(c);
      if Blank(ls[0]) {
        assert Migrate(file) == VehHeader + "\n";
        HeaderAloneFirstLine();
      } else if ToLower(Trim(ls[0])) == ToLower(OldIdHeader) {
        OldIdFirstLine(c);
      } else {
        OldSimpleFirstLine(c);
      }
  }

  lemma OldIdFirstLine(c: string)
    requires !Blank(Lines(c)[0]) && ToLower(Trim(Lines(c)[0])) != ToLower(VehHeader)
    requires ToLower(Trim(Lines(c)[0])) == ToLower(OldIdHeader)
    ensures Lines(Migrate(Some(c)))[0] == VehHeader
  {
    var rows := MigratedRows(Lines(c)[1..]);
    assert Migrate(Some(c)) == Join([VehHeader] + rows, "\n") + "\n";
    HeaderRowsFirstLine(rows);
  }

  /** The header followed by any rows, one per line, has the header as its first line. */
  lemma HeaderRowsFirstLine(rows: seq<string>)
    ensures Lines(Join([VehHeader] + rows, "\n") + "\n")[0] == VehHeader
  {
    if rows == [] {
      assert [VehHeader] + rows == [VehHeader];
      assert Join([VehHeader], "\n") == VehHeader;
      HeaderAloneFirstLine();
    } else {
      JoinCons(VehHeader, rows, "\n");
      assert Join([VehHeader] + rows, "\n") + "\n" == VehHeader + "\n" + (Join(rows, "\n") + "\n");
      HeaderFirstLine(Join(rows, "\n") + "\n");
    }
  }

  lemma OldSimpleFirstLine(c: string)
    requires !Blank(Lines(c)[0]) && ToLower(Trim(Lines(c)[0])) != ToLower(VehHeader)
    requires ToLower(Trim(Lines(c)[0])) != ToLower(OldIdHeader) && Trim(Lines(c)[0]) == OldSimpleHeader
    ensures Lines(Migrate(Some(c)))[0] == VehHeader
  {
    var ls := Lines(c);
    var rest := Join(Filter(ls[1..], NonEmpty), "\n") + (if |ls| > 1 then "\n" else []);
    assert Migrate(Some(c)) == VehHeader + "\n" + rest;
    HeaderFirstLine(rest);
  }

  /** Running the start-up check a second time changes nothing. */
  lemma MigrateIdempotent(file: Option<string>)
    ensures Migrate(Some(Migrate(file))) == Migrate(file)
  {
    if Rewrites(file) {
      MigrateFirstLine(file);
      VehHeaderClean();
      TrimNoop(VehHeader);
    } else {
      MigrateKeeps(file);
    }
  }
}
