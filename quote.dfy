/**
 * The service quote page: the catalogue rows of bdato.csv as lists of fields, three
 * cascading dropdowns over columns 0, 1 and 2, the labels of the matching vehicle, the
 * fixed price tables, and the total of the ticked price lines.
 */
module Quote {
  import opened Wrappers
  import opened Seqs
  import opened Text

  const Semi: set<char> := {';'}

  // ---------------------------------------------------------------- prices

  /** `s.replace(/[^\d]/g, '')`: the decimal digits of `s`, in order. */
  function Digits(s: string): (ds: string)
    ensures AllDigits(ds)
    decreases |s|
  {
    if s == [] then [] else Digits(s[..|s| - 1]) + (if IsDigit(s[|s| - 1]) then [s[|s| - 1]] else [])
  }

  /** Removing every non-digit is filtering for the digits. */
  lemma {:induction false} DigitsFilter(s: string)
    ensures Digits(s) == Filter(s, IsDigit)
    decreases |s|
  {
    if s != [] {
      DigitsFilter(s[..|s| - 1]);
    }
  }

  lemma DigitsSnoc(s: string, c: char)
    ensures Digits(s + [c]) == Digits(s) + (if IsDigit(c) then [c] else [])
  {
    assert (s + [c])[..|s|] == s;
  }

  /** `Number(precioStr.replace(/[^\d]/g, '')) || 0`: the digits of the text read as one number. */
  function ParsePrecio(s: string): nat {
    DecimalValue(Digits(s))
  }

  /** Text without a digit is worth 0. */
  lemma ParsePrecioNoDigits(s: string)
    requires forall i :: 0 <= i < |s| ==> !IsDigit(s[i])
    ensures ParsePrecio(s) == 0
  {
    DigitsFilter(s);
    FilterNone(s, IsDigit);
  }

  /** Non-digits are ignored wherever they stand: only the digit sequence matters. */
  lemma ParsePrecioDigits(a: string, b: string)
    requires Filter(a, IsDigit) == Filter(b, IsDigit)
    ensures ParsePrecio(a) == ParsePrecio(b)
  {
    DigitsFilter(a);
    DigitsFilter(b);
  }

  /** A run of digits reads as its decimal value. */
  lemma ParsePrecioOfDigits(ds: string)
    requires AllDigits(ds)
    ensures ParsePrecio(ds) == DecimalValue(ds)
  {
    DigitsFilter(ds);
    FilterAll(ds, IsDigit);
  }

  /** The air filter price by filter code. */
  function AirFilterPrice(code: string): string {
    if code == "C18 003" then "$8.000"
    else if code == "C1589/3" then "$7.500"
    else "$6.000"
  }

  /** The oil price by viscosity. */
  function OilPrice(viscosity: string): string {
    if viscosity == "5W-40" then "$60.000"
    else if viscosity == "0W-30" || viscosity == "5W-30" then "$80.000"
    else "$10.000"
  }

  /** The labour price, the same for every vehicle. */
  const LabourPrice := "$15.000"

  /** The price tables in numbers. */
  lemma PriceTables(code: string, viscosity: string)
    ensures ParsePrecio(AirFilterPrice(code)) ==
      if code == "C18 003" then 8000 else if code == "C1589/3" then 7500 else 6000
    ensures ParsePrecio(OilPrice(viscosity)) ==
      if viscosity == "5W-40" then 60000
      else if viscosity == "0W-30" || viscosity == "5W-30" then 80000
      else 10000
    ensures ParsePrecio(LabourPrice) == 15000
  {
    AirFilterPrices();
    OilPrices();
    LabourPriceValue();
  }

  lemma AirFilterPrices()
    ensures ParsePrecio("$8.000") == 8000 && ParsePrecio("$7.500") == 7500 && ParsePrecio("$6.000") == 6000
  {
    assert "$8.000" == ['$', '8', '.', '0', '0', '0'];
    Price4('8', '0', '0', '0');
    assert "$7.500" == ['$', '7', '.', '5', '0', '0'];
    Price4('7', '5', '0', '0');
    assert "$6.000" == ['$', '6', '.', '0', '0', '0'];
    Price4('6', '0', '0', '0');
  }

  lemma OilPrices()
    ensures ParsePrecio("$60.000") == 60000 && ParsePrecio("$80.000") == 80000 && ParsePrecio("$10.000") == 10000
  {
    assert "$60.000" == ['$', '6', '0', '.', '0', '0', '0'];
    Price5('6', '0', '0', '0', '0');
    assert "$80.000" == ['$', '8', '0', '.', '0', '0', '0'];
    Price5('8', '0', '0', '0', '0');
    assert "$10.000" == ['$', '1', '0', '.', '0', '0', '0'];
    Price5('1', '0', '0', '0', '0');
  }

  lemma LabourPriceValue()
    ensures ParsePrecio(LabourPrice) == 15000
  {
    assert LabourPrice == ['$', '1', '5', '.', '0', '0', '0'];
    Price5('1', '5', '0', '0', '0');
  }

  /** The value of one decimal digit. */
  function DigitValue(c: char): int {
    c as int - '0' as int
  }

  lemma DecimalSnoc(ds: string, c: char)
    requires AllDigits(ds) && IsDigit(c)
    ensures DecimalValue(ds + [c]) == 10 * DecimalValue(ds) + DigitValue(c)
  {
    assert (ds + [c])[..|ds|] == ds;
  }

  /** The digits of `$a.bcd`. */
  lemma PriceDigits4(a: char, b: char, c: char, d: char)
    ensures Digits(['$', a, '.', b, c, d]) == Digits([a, b, c, d])
  {
    var s0: string := ['$'];
    DigitsSnoc([], '$');
    DigitsSnoc([], a);
    DigitsSnoc(s0, a);
    var s1, t1 := s0 + [a], [a];
    DigitsSnoc(s1, '.');
    var s2 := s1 + ['.'];
    DigitsSnoc(s2, b);
    DigitsSnoc(t1, b);
    var s3, t3 := s2 + [b], t1 + [b];
    DigitsSnoc(s3, c);
    DigitsSnoc(t3, c);
    var s4, t4 := s3 + [c], t3 + [c];
    DigitsSnoc(s4, d);
    DigitsSnoc(t4, d);
    assert s4 + [d] == ['$', a, '.', b, c, d] && t4 + [d] == [a, b, c, d];
  }

  /** The digits of `$ab.cde`. */
  lemma PriceDigits5(a: char, b: char, c: char, d: char, e: char)
    ensures Digits(['$', a, b, '.', c, d, e]) == Digits([a, b, c, d, e])
  {
    var s0: string := ['$'];
    DigitsSnoc([], '$');
    DigitsSnoc([], a);
    DigitsSnoc(s0, a);
    var s1, t1 := s0 + [a], [a];
    DigitsSnoc(s1, b);
    DigitsSnoc(t1, b);
    var s2, t2 := s1 + [b], t1 + [b];
    DigitsSnoc(s2, '.');
    var s3 := s2 + ['.'];
    DigitsSnoc(s3, c);
    DigitsSnoc(t2, c);
    var s4, t4 := s3 + [c], t2 + [c];
    DigitsSnoc(s4, d);
    DigitsSnoc(t4, d);
    var s5, t5 := s4 + [d], t4 + [d];
    DigitsSnoc(s5, e);
    DigitsSnoc(t5, e);
    assert s5 + [e] == ['$', a, b, '.', c, d, e] && t5 + [e] == [a, b, c, d, e];
  }

  lemma Price4(a: char, b: char, c: char, d: char)
    requires IsDigit(a) && IsDigit(b) && IsDigit(c) && IsDigit(d)
    ensures ParsePrecio(['$', a, '.', b, c, d]) ==
      1000 * DigitValue(a) + 100 * DigitValue(b) + 10 * DigitValue(c) + DigitValue(d)
  {
    PriceDigits4(a, b, c, d);
    ParsePrecioOfDigits([a, b, c, d]);
    var e: string := [];
    DecimalSnoc(e, a);
    DecimalSnoc(e + [a], b);
    DecimalSnoc(e + [a] + [b], c);
    DecimalSnoc(e + [a] + [b] + [c], d);
    assert e + [a] + [b] + [c] + [d] == [a, b, c, d];
  }

  lemma Price5(a: char, b: char, c: char, d: char, e: char)
    requires IsDigit(a) && IsDigit(b) && IsDigit(c) && IsDigit(d) && IsDigit(e)
    ensures ParsePrecio(['$', a, b, '.', c, d, e]) ==
      10000 * DigitValue(a) + 1000 * DigitValue(b) + 100 * DigitValue(c) + 10 * DigitValue(d) + DigitValue(e)
  {
    PriceDigits5(a, b, c, d, e);
    ParsePrecioOfDigits([a, b, c, d, e]);
    var z: string := [];
    DecimalSnoc(z, a);
    DecimalSnoc(z + [a], b);
    DecimalSnoc(z + [a] + [b], c);
    DecimalSnoc(z + [a] + [b] + [c], d);
    DecimalSnoc(z + [a] + [b] + [c] + [d], e);
    assert z + [a] + [b] + [c] + [d] + [e] == [a, b, c, d, e];
  }

  // ---------------------------------------------------------------- catalogue rows

  /** `line.trim().split(';')` */
  function SplitRow(line: string): seq<string> {
    Split(Trim(line), Semi)
  }

  /** Whether a row has more than one field. */
  predicate Several(fields: seq<string>) {
    |fields| > 1
  }

  /** `allCsvData`: the lines after the first, trimmed and split, with more than one field. */
  function CatalogueRows(data: string): seq<seq<string>> {
    Filter(Map(SplitRow, RawLines(data)[1..]), Several)
  }

  /** A row is kept exactly when it comes from a line after the first and has several fields. */
  lemma CatalogueRowsSpec(data: string, fields: seq<string>)
    ensures fields in CatalogueRows(data) <==>
      |fields| > 1 && exists line :: line in RawLines(data)[1..] && SplitRow(line) == fields
  {
    MapMember(SplitRow, RawLines(data)[1..], fields);
  }

  /** `fields[i]`, with a missing field read as the empty string. */
  function Column(fields: seq<string>, i: nat): string {
    Field(fields, i)
  }

  /** The extraction of one column. */
  function ColumnOf(i: nat): seq<string> -> string {
    fields => Column(fields, i)
  }

  predicate Filled(v: string) {
    v != ""
  }

  /** `populateDropdown(select, [...new Set(values)])`: the distinct non-empty values, first occurrence first. */
  function Options(values: seq<string>): seq<string> {
    Filter(Dedup(values), Filled)
  }

  /** An option is listed once, and exactly when some value is it. */
  lemma OptionsSpec(values: seq<string>)
    ensures forall v :: v in Options(values) <==> v != "" && v in values
    ensures forall i, j :: 0 <= i < j < |Options(values)| ==> Options(values)[i] != Options(values)[j]
  {
    FilterDistinct(Dedup(values), Filled);
  }

  lemma {:induction false} FilterDistinct(s: seq<string>, p: string -> bool)
    requires forall i, j :: 0 <= i < j < |s| ==> s[i] != s[j]
    ensures forall i, j :: 0 <= i < j < |Filter(s, p)| ==> Filter(s, p)[i] != Filter(s, p)[j]
    decreases |s|
  {
    if s != [] {
      var init, x := s[..|s| - 1], s[|s| - 1];
      assert s == init + [x];
      FilterDistinct(init, p);
      if p(x) {
        assert x !in init by {
          forall k | 0 <= k < |init| ensures init[k] != x {
            assert init[k] == s[k];
          }
        }
        FilterSnocKeep(init, x, p);
      }
    }
  }

  /** The first dropdown: the brands in column 0. */
  function FirstOptions(rows: seq<seq<string>>): seq<string> {
    Options(Map(ColumnOf(0), rows))
  }

  /** Whether a row's column 0 is `v1`. */
  function InBrand(v1: string): seq<string> -> bool {
    fields => Column(fields, 0) == v1
  }

  /** The second dropdown: column 1 of the rows whose column 0 is the first choice. */
  function SecondOptions(rows: seq<seq<string>>, v1: string): seq<string> {
    Options(Map(ColumnOf(1), Filter(rows, InBrand(v1))))
  }

  function InModel(v1: string, v2: string): seq<string> -> bool {
    fields => Column(fields, 0) == v1 && Column(fields, 1) == v2
  }

  /** The third dropdown: column 2 of the rows matching the first two choices. */
  function ThirdOptions(rows: seq<seq<string>>, v1: string, v2: string): seq<string> {
    Options(Map(ColumnOf(2), Filter(rows, InModel(v1, v2))))
  }

  /** A column value scoped by a filter is offered exactly when some row passing the filter has it. */
  lemma ScopedOptions(rows: seq<seq<string>>, p: seq<string> -> bool, i: nat, v: string)
    ensures v in Options(Map(ColumnOf(i), Filter(rows, p))) <==>
      v != "" && exists r :: r in rows && p(r) && Column(r, i) == v
  {
    OptionsSpec(Map(ColumnOf(i), Filter(rows, p)));
    MapMember(ColumnOf(i), Filter(rows, p), v);
  }

  /** The second and third dropdowns offer exactly the values of the matching rows. */
  lemma CascadeSpec(rows: seq<seq<string>>, v1: string, v2: string, v: string)
    ensures v in SecondOptions(rows, v1) <==>
      v != "" && exists r :: r in rows && Column(r, 0) == v1 && Column(r, 1) == v
    ensures v in ThirdOptions(rows, v1, v2) <==>
      v != "" && exists r :: r in rows && Column(r, 0) == v1 && Column(r, 1) == v2 && Column(r, 2) == v
  {
    ScopedOptions(rows, InBrand(v1), 1, v);
    ScopedOptions(rows, InModel(v1, v2), 2, v);
  }

  // ---------------------------------------------------------------- lookup

  predicate Fits(fields: seq<string>, v1: string, v2: string, v3: string) {
    Column(fields, 0) == v1 && Column(fields, 1) == v2 && Column(fields, 2) == v3
  }

  /** `allCsvData.find(...)`: the first row matching all three choices. */
  function Find(rows: seq<seq<string>>, v1: string, v2: string, v3: string): (r: Option<seq<string>>)
    ensures r.Some? ==> r.value in rows && Fits(r.value, v1, v2, v3)
    ensures r.None? ==> forall f :: f in rows ==> !Fits(f, v1, v2, v3)
    decreases |rows|
  {
    if rows == [] then None
    else if Fits(rows[0], v1, v2, v3) then Some(rows[0])
    else Find(rows[1..], v1, v2, v3)
  }

  /** The row found is the first that fits. */
  lemma {:induction false} FindFirst(rows: seq<seq<string>>, v1: string, v2: string, v3: string, k: nat)
    requires k < |rows| && Fits(rows[k], v1, v2, v3)
    requires forall j :: 0 <= j < k ==> !Fits(rows[j], v1, v2, v3)
    ensures Find(rows, v1, v2, v3) == Some(rows[k])
    decreases k
  {
    if k > 0 {
      var tail := rows[1..];
      assert forall j :: 0 <= j < k - 1 ==> tail[j] == rows[j + 1];
      FindFirst(tail, v1, v2, v3, k - 1);
    }
  }

  // ---------------------------------------------------------------- labels and total

  /** The texts of the nine labels. */
  datatype Labels = Labels(aceite: string, tipo: string, filtroAire: string, filtroAceite: string,
                           filtroNafta: string, filtroHabitaculo: string,
                           valorFiltroAire: string, precioAceite: string, manoObra: string)

  /** `clearLabels()` */
  const Cleared := Labels("", "", "", "", "", "", "", "", "")

  /** The labels after a failed lookup. */
  const NotFound := Cleared.(aceite := "No se encontraron datos")

  /** The labels of a found row: columns 7, 6, 9, 11, 12, 14 and the three prices. */
  function LabelsFor(row: seq<string>): Labels {
    Labels(Column(row, 7), Column(row, 6), Column(row, 9), Column(row, 11), Column(row, 12),
           Column(row, 14), AirFilterPrice(Column(row, 9)), OilPrice(Column(row, 7)), LabourPrice)
  }

  /** The total computed when a row is found (before the check boxes are read). */
  function LineTotal(row: seq<string>): nat {
    ParsePrecio(AirFilterPrice(Column(row, 9))) + ParsePrecio(OilPrice(Column(row, 7))) + 15000
  }

  /** Which price lines are ticked. */
  datatype Checks = Checks(aire: bool, aceite: bool, manoObra: bool)

  const NoneTicked := Checks(false, false, false)
  const AllTicked := Checks(true, true, true)

  /** The sum of the parsed prices of the ticked lines. */
  function TickedTotal(c: Checks, l: Labels): nat {
    (if c.aire then ParsePrecio(l.valorFiltroAire) else 0) +
    (if c.aceite then ParsePrecio(l.precioAceite) else 0) +
    (if c.manoObra then ParsePrecio(l.manoObra) else 0)
  }

  /** Nothing ticked, or nothing priced, totals 0. */
  lemma TickedNothing(c: Checks, l: Labels)
    ensures TickedTotal(NoneTicked, l) == 0
    ensures TickedTotal(c, Cleared) == 0 && TickedTotal(c, NotFound) == 0
  {
    ParsePrecioNoDigits("");
  }

  /** With every line ticked, the total is the one computed for the found row. */
  lemma TickedAll(row: seq<string>)
    ensures TickedTotal(AllTicked, LabelsFor(row)) == LineTotal(row)
  {
    PriceTables(Column(row, 9), Column(row, 7));
  }

  /** The found row's total lies between the cheapest and the dearest combination. */
  lemma LineTotalRange(row: seq<string>)
    ensures 6000 + 10000 + 15000 <= LineTotal(row) <= 8000 + 80000 + 15000
  {
    PriceTables(Column(row, 9), Column(row, 7));
  }

  /** The quote page: the catalogue, the three dropdowns, the labels, the check boxes and the total. */
  class Presupuestador {
    var rows: seq<seq<string>>
    var options1: seq<string>
    var options2: seq<string>
    var options3: seq<string>
    var value1: string
    var value2: string
    var value3: string
    var labels: Labels
    var checks: Checks
    var total: nat

    constructor()
      ensures rows == [] && options1 == [] && options2 == [] && options3 == []
      ensures value1 == "" && value2 == "" && value3 == ""
      ensures labels == Cleared && checks == NoneTicked && total == 0
    {
      rows, options1, options2, options3 := [], [], [], [];
      value1, value2, value3 := "", "", "";
      labels, checks, total := Cleared, NoneTicked, 0;
    }

    /** `calcularTotal()` */
    method CalcularTotal()
      modifies this
      ensures total == TickedTotal(checks, labels)
      ensures rows == old(rows) && labels == old(labels) && checks == old(checks)
      ensures options1 == old(options1) && options2 == old(options2) && options3 == old(options3)
      ensures value1 == old(value1) && value2 == old(value2) && value3 == old(value3)
    {
      var t := 0;
      if checks.aire {
        t := t + ParsePrecio(labels.valorFiltroAire);
      }
      if checks.aceite {
        t := t + ParsePrecio(labels.precioAceite);
      }
      if checks.manoObra {
        t := t + ParsePrecio(labels.manoObra);
      }
      total := t;
    }

    /** A check box changed. */
    method Tick(c: Checks)
      modifies this
      ensures checks == c && total == TickedTotal(c, labels)
      ensures rows == old(rows) && labels == old(labels)
      ensures options1 == old(options1) && options2 == old(options2) && options3 == old(options3)
      ensures value1 == old(value1) && value2 == old(value2) && value3 == old(value3)
    {
      checks := c;
      CalcularTotal();
    }

    /** The third dropdown changed. */
    method Select3Change(v: string)
      modifies this
      ensures value3 == v
      ensures v == "" ==> labels == Cleared && checks == NoneTicked && total == 0
      ensures v != "" ==> (checks == AllTicked &&
        match Find(rows, value1, value2, v)
        case Some(row) => labels == LabelsFor(row) && total == LineTotal(row)
        case None => labels == NotFound && total == 0)
      ensures rows == old(rows) && options1 == old(options1) && options2 == old(options2)
      ensures options3 == old(options3) && value1 == old(value1) && value2 == old(value2)
    {
      value3 := v;
      if v == "" {
        labels := Cleared;
        checks := NoneTicked;
        CalcularTotal();
        TickedNothing(checks, labels);
        return;
      }
      var found := Find(rows, value1, value2, v);
      if found.Some? {
        labels := LabelsFor(found.value);
        TickedAll(found.value);
      } else {
        labels := NotFound;
      }
      checks := AllTicked;
      CalcularTotal();
      TickedNothing(checks, labels);
    }

    /** The second dropdown changed: offer the engines, or clear everything below it. */
    method Select2Change(v: string)
      modifies this
      ensures value2 == v && value3 == "" && labels == Cleared && total == 0
      ensures options3 == (if v == "" then [] else ThirdOptions(rows, value1, v))
      ensures v == "" ==> checks == old(checks)
      ensures v != "" ==> checks == NoneTicked
      ensures rows == old(rows) && options1 == old(options1) && options2 == old(options2)
      ensures value1 == old(value1)
    {
      value2 := v;
      if v == "" {
        options3, value3 := [], "";
        labels, total := Cleared, 0;
        return;
      }
      options3, value3 := ThirdOptions(rows, value1, v), "";
      Select3Change("");
    }

    /** The first dropdown changed: offer the models, and clear everything below it. */
    method Select1Change(v: string)
      modifies this
      ensures value1 == v && value2 == "" && value3 == "" && options3 == []
      ensures options2 == (if v == "" then [] else SecondOptions(rows, v))
      ensures labels == Cleared && total == 0 && checks == old(checks)
      ensures rows == old(rows) && options1 == old(options1)
    {
      value1 := v;
      if v == "" {
        options2, options3, value2, value3 := [], [], "", "";
        labels, total := Cleared, 0;
        return;
      }
      options2, value2 := SecondOptions(rows, v), "";
      Select2Change("");
    }

    /** The catalogue arrived: offer the brands, and start with nothing chosen. */
    method Load(data: string)
      modifies this
      ensures rows == CatalogueRows(data) && options1 == FirstOptions(rows)
      ensures options2 == [] && options3 == [] && value1 == "" && value2 == "" && value3 == ""
      ensures labels == Cleared && total == 0 && checks == old(checks)
    {
      rows := CatalogueRows(data);
      options1 := FirstOptions(rows);
      Select1Change("");
    }
  }
}
