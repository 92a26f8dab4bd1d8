/**
 * The vehicle filter catalogue of the quote page (bdato.csv): rows of `;`-separated
 * fields under a header line, the cascading brand / model / engine choices, and the
 * split of a vehicle's filter rows into one principal code pair and its extras.
 */
module Catalogue {
  import opened Wrappers
  import opened Seqs
  import opened Text
  import opened Order

  /** One record: header name to trimmed field. */
  type Row = map<string, string>

  /** `fila[clave] || ''`: a missing field reads as the empty string. */
  function Get(r: Row, k: string): string {
    if k in r then r[k] else ""
  }

  const Semi: set<char> := {';'}

  // ---------------------------------------------------------------- parseCSV

  /** The header names: the first line split at `;`, each trimmed. */
  function Headers(first: string): seq<string> {
    Map(Trim, Split(first, Semi))
  }

  /** The record of one line's fields: each header in turn, a later repeat overriding. */
  function RowOf(hs: seq<string>, ps: seq<string>): Row
    decreases |hs|
  {
    if hs == [] then map[]
    else RowOf(hs[..|hs| - 1], ps)[hs[|hs| - 1] := Trim(Field(ps, |hs| - 1))]
  }

  /** The records of the data lines; a line with fewer fields than headers is skipped. */
  function RecordsOf(hs: seq<string>, ls: seq<string>): seq<Row>
    decreases |ls|
  {
    if ls == [] then []
    else
      var ps := Split(ls[|ls| - 1], Semi);
      RecordsOf(hs, ls[..|ls| - 1]) + (if |ps| < |hs| then [] else [RowOf(hs, ps)])
  }

  /** `parseCSV(texto)`: the non-blank lines, the first of which names the fields. */
  function Records(texto: string): seq<Row> {
    var ls := Filter(Lines(texto), NonBlank);
    if ls == [] then [] else RecordsOf(Headers(ls[0]), ls[1..])
  }

  /** Whether a line has a field for every header. */
  function Complete(hs: seq<string>): string -> bool {
    line => |Split(line, Semi)| >= |hs|
  }

  /** The record of a line. */
  function RecordOf(hs: seq<string>): string -> Row {
    line => RowOf(hs, Split(line, Semi))
  }

  /** The records are the complete lines' records, in line order. */
  lemma {:induction false} RecordsOfSpec(hs: seq<string>, ls: seq<string>)
    ensures RecordsOf(hs, ls) == Map(RecordOf(hs), Filter(ls, Complete(hs)))
    decreases |ls|
  {
    if ls != [] {
      var init, x := ls[..|ls| - 1], ls[|ls| - 1];
      assert ls == init + [x];
      RecordsOfSpec(hs, init);
      if Complete(hs)(x) {
        FilterSnocKeep(init, x, Complete(hs));
        MapSnoc(RecordOf(hs), Filter(init, Complete(hs)), x);
      } else {
        FilterSnocSkip(init, x, Complete(hs));
      }
    }
  }

  /** A record has exactly the header names as its fields. */
  lemma {:induction false} RowOfKeys(hs: seq<string>, ps: seq<string>)
    ensures forall k :: k in RowOf(hs, ps) <==> k in hs
    decreases |hs|
  {
    if hs != [] {
      RowOfKeys(hs[..|hs| - 1], ps);
      assert hs == hs[..|hs| - 1] + [hs[|hs| - 1]];
    }
  }

  /** A field holds the trimmed part at the last column carrying its name. */
  lemma {:induction false} RowOfValue(hs: seq<string>, ps: seq<string>, j: nat)
    requires j < |hs|
    requires forall k :: j < k < |hs| ==> hs[k] != hs[j]
    ensures hs[j] in RowOf(hs, ps) && RowOf(hs, ps)[hs[j]] == Trim(Field(ps, j))
    decreases |hs|
  {
    if j < |hs| - 1 {
      var init := hs[..|hs| - 1];
      assert init[j] == hs[j];
      RowOfValue(init, ps, j);
    }
  }

  /** One more line adds its record when it is complete. */
  lemma RecordsOfAppend(hs: seq<string>, w: seq<string>, l: string)
    ensures RecordsOf(hs, w + [l]) == RecordsOf(hs, w)
      + (if |Split(l, Semi)| < |hs| then [] else [RowOf(hs, Split(l, Semi))])
  {
    assert (w + [l])[..|w|] == w;
  }

  /** The loop of `encabezados.forEach`. */
  method FillRow(hs: seq<string>, partes: seq<string>) returns (fila: Row)
    ensures fila == RowOf(hs, partes)
  {
    fila := map[];
    for idx := 0 to |hs|
      invariant fila == RowOf(hs[..idx], partes)
    {
      assert hs[..idx + 1][..idx] == hs[..idx];
      fila := fila[hs[idx] := Trim(Field(partes, idx))];
    }
    assert hs[..|hs|] == hs;
  }

  method ParseCSV(texto: string) returns (registros: seq<Row>)
    ensures registros == Records(texto)
  {
    var lineas := Filter(Lines(texto), NonBlank);
    if |lineas| == 0 {
      return [];
    }
    var encabezados := Headers(lineas[0]);
    registros := [];
    for i := 1 to |lineas|
      invariant registros == RecordsOf(encabezados, lineas[1..i])
    {
      SliceSnoc(lineas, 1, i);
      RecordsOfAppend(encabezados, lineas[1..i], lineas[i]);
      var partes := Split(lineas[i], Semi);
      if |partes| >= |encabezados| {
        var fila := FillRow(encabezados, partes);
        registros := registros + [fila];
      }
    }
    assert lineas[1..|lineas|] == lineas[1..];
  }

  /** Every record of a file has exactly that file's header names as fields. */
  lemma RecordsKeys(texto: string, r: Row)
    requires r in Records(texto)
    ensures var ls := Filter(Lines(texto), NonBlank);
      ls != [] && forall k :: k in r <==> k in Headers(ls[0])
  {
    var ls := Filter(Lines(texto), NonBlank);
    var hs := Headers(ls[0]);
    RecordsOfSpec(hs, ls[1..]);
    var i :| 0 <= i < |Filter(ls[1..], Complete(hs))| && r == RecordOf(hs)(Filter(ls[1..], Complete(hs))[i]);
    RowOfKeys(hs, Split(Filter(ls[1..], Complete(hs))[i], Semi));
  }

  // ---------------------------------------------------------------- valoresUnicos

  /** The non-empty values `fila[clave]`, in row order. */
  function Values(lista: seq<Row>, clave: string): seq<string>
    decreases |lista|
  {
    if lista == [] then []
    else
      var v := Get(lista[|lista| - 1], clave);
      Values(lista[..|lista| - 1], clave) + (if v != "" then [v] else [])
  }

  lemma ValuesSnoc(lista: seq<Row>, clave: string, i: nat)
    requires i < |lista|
    ensures Values(lista[..i + 1], clave) == Values(lista[..i], clave)
      + (if Get(lista[i], clave) != "" then [Get(lista[i], clave)] else [])
  {
    assert lista[..i + 1][..i] == lista[..i];
  }

  lemma {:induction false} ValuesIn(lista: seq<Row>, clave: string, v: string)
    ensures v in Values(lista, clave) <==> v != "" && exists r :: r in lista && Get(r, clave) == v
    decreases |lista|
  {
    if lista != [] {
      var init, x := lista[..|lista| - 1], lista[|lista| - 1];
      assert lista == init + [x];
      ValuesIn(init, clave, v);
      if v != "" && exists r :: r in lista && Get(r, clave) == v {
        var r :| r in lista && Get(r, clave) == v;
        if r != x {
          assert r in init;
        }
      }
      if v in Values(init, clave) {
        var r :| r in init && Get(r, clave) == v;
        assert r in lista;
      }
    }
  }

  /** `valoresUnicos(lista, clave)`: the distinct non-empty values, sorted. */
  function UniqueValues(lista: seq<Row>, clave: string): seq<string> {
    Sort(Dedup(Values(lista, clave)))
  }

  method ValoresUnicos(lista: seq<Row>, clave: string) returns (r: seq<string>)
    ensures r == UniqueValues(lista, clave)
  {
    var vistos: seq<string> := [];
    for i := 0 to |lista|
      invariant vistos == Dedup(Values(lista[..i], clave))
    {
      ValuesSnoc(lista, clave, i);
      var v := Get(lista[i], clave);
      if v != "" {
        DedupSnoc(Values(lista[..i], clave), v);
        if v !in vistos {
          vistos := vistos + [v];
        }
      } else {
        assert Values(lista[..i + 1], clave) == Values(lista[..i], clave);
      }
    }
    assert lista[..|lista|] == lista;
    r := Sort(vistos);
  }

  /** The values come sorted without repeats, and are exactly the non-empty values present. */
  lemma UniqueValuesSpec(lista: seq<Row>, clave: string)
    ensures StrictlySorted(UniqueValues(lista, clave))
    ensures forall v :: v in UniqueValues(lista, clave) <==>
      v != "" && exists r :: r in lista && Get(r, clave) == v
  {
    var d := Dedup(Values(lista, clave));
    assert Distinct(d);
    SortDistinct(d);
    forall v ensures v in UniqueValues(lista, clave) <==> v != "" && exists r :: r in lista && Get(r, clave) == v {
      ValuesIn(lista, clave, v);
    }
  }

  /** Any sorted, repeat-free list of exactly those values is the result. */
  lemma UniqueValuesCanonical(lista: seq<Row>, clave: string, r: seq<string>)
    requires StrictlySorted(r)
    requires forall v :: v in r <==> v != "" && exists x :: x in lista && Get(x, clave) == v
    ensures r == UniqueValues(lista, clave)
  {
    UniqueValuesSpec(lista, clave);
    SortedUnique(r, UniqueValues(lista, clave));
  }

  // ---------------------------------------------------------------- separarPorElemento

  const ManKey := "Codigo Man"
  const WixKey := "Codigo Wix"
  const NotAvailable := "#N/A"

  /** A code that is absent: empty or `#N/A`. */
  predicate Missing(code: string) {
    code == "" || code == NotAvailable
  }

  predicate NoCodes(r: Row) {
    Missing(Get(r, ManKey)) && Missing(Get(r, WixKey))
  }

  predicate BothCodes(r: Row) {
    !Missing(Get(r, ManKey)) && !Missing(Get(r, WixKey))
  }

  /** The key `${codigoMan}|${codigoWix}` under which a code pair is seen. */
  function Key(r: Row): string {
    Get(r, ManKey) + "|" + Get(r, WixKey)
  }

  function KeysOf(u: seq<Row>): set<string> {
    set r | r in u :: Key(r)
  }

  /** A row whose `Elemento` is one of the names asked for. */
  function Candidate(nombres: seq<string>): Row -> bool {
    r => "Elemento" in r && r["Elemento"] in nombres
  }

  /** The candidates with some code, each code pair kept at its first row only. */
  function Unique(s: seq<Row>): (u: seq<Row>)
    ensures forall x :: x in u ==> x in s && !NoCodes(x)
    decreases |s|
  {
    if s == [] then []
    else
      var u := Unique(s[..|s| - 1]);
      var x := s[|s| - 1];
      if NoCodes(x) || Key(x) in KeysOf(u) then u else u + [x]
  }

  lemma UniqueSnoc(s: seq<Row>, i: nat)
    requires i < |s|
    ensures Unique(s[..i + 1]) ==
      if NoCodes(s[i]) || Key(s[i]) in KeysOf(Unique(s[..i])) then Unique(s[..i])
      else Unique(s[..i]) + [s[i]]
  {
    assert s[..i + 1][..i] == s[..i];
  }

  /** No two kept rows share a code pair (so no two kept rows are equal). */
  lemma {:induction false} UniqueKeys(s: seq<Row>)
    ensures forall i, j :: 0 <= i < j < |Unique(s)| ==> Key(Unique(s)[i]) != Key(Unique(s)[j])
    decreases |s|
  {
    if s != [] {
      var init := s[..|s| - 1];
      UniqueKeys(init);
      var u := Unique(init);
      forall i | 0 <= i < |u| ensures Key(u[i]) in KeysOf(u) {
        assert u[i] in u;
      }
    }
  }

  /** Every code pair that occurs among the coded rows is represented. */
  lemma {:induction false} UniqueCovers(s: seq<Row>, x: Row)
    requires x in s && !NoCodes(x)
    ensures Key(x) in KeysOf(Unique(s))
    decreases |s|
  {
    var init := s[..|s| - 1];
    assert s == init + [s[|s| - 1]];
    if x in init {
      UniqueCovers(init, x);
      var y :| y in Unique(init) && Key(y) == Key(x);
      assert y in Unique(s);
    } else if Key(x) !in KeysOf(Unique(init)) {
      assert x in Unique(s);
    } else {
      var y :| y in Unique(init) && Key(y) == Key(x);
      assert y in Unique(s);
    }
  }

  /** A coded row whose pair no earlier coded row has is kept. */
  lemma {:induction false} UniqueFirst(s: seq<Row>, i: nat)
    requires i < |s| && !NoCodes(s[i])
    requires forall j :: 0 <= j < i ==> NoCodes(s[j]) || Key(s[j]) != Key(s[i])
    ensures s[i] in Unique(s)
    decreases |s|
  {
    var init := s[..|s| - 1];
    if i < |s| - 1 {
      assert init[i] == s[i];
      UniqueFirst(init, i);
    }
  }

  /** The principal row: the first with both codes, otherwise the first. */
  function Principal(u: seq<Row>): (p: Row)
    requires u != []
    ensures p in u
    ensures BothCodes(p) || forall x :: x in u ==> !BothCodes(x)
  {
    var c := Filter(u, BothCodes);
    if c != [] then c[0] else u[0]
  }

  lemma PrincipalFirst(u: seq<Row>, k: nat)
    requires k < |u| && BothCodes(u[k])
    requires forall j :: 0 <= j < k ==> !BothCodes(u[j])
    ensures Principal(u) == u[k]
  {
    FilterFirst(u, BothCodes, k);
  }

  lemma PrincipalFallback(u: seq<Row>)
    requires u != [] && forall x :: x in u ==> !BothCodes(x)
    ensures Principal(u) == u[0]
  {
    if Filter(u, BothCodes) != [] {
      assert Filter(u, BothCodes)[0] in Filter(u, BothCodes);
    }
  }

  /** Every row except `p`. */
  function Other(p: Row): Row -> bool {
    r => r != p
  }

  /** `{ principal, extras }`; an absent principal is `null`. */
  datatype Choice = Choice(principal: Option<Row>, extras: seq<Row>)

  function Separate(registros: seq<Row>, nombres: seq<string>): Choice {
    var u := Unique(Filter(registros, Candidate(nombres)));
    if u == [] then Choice(None, [])
    else
      var p := Principal(u);
      Choice(Some(p), Filter(u, Other(p)))
  }

  method SepararPorElemento(registros: seq<Row>, nombres: seq<string>) returns (c: Choice)
    ensures c == Separate(registros, nombres)
  {
    var candidatos := Filter(registros, Candidate(nombres));
    if |candidatos| == 0 {
      return Choice(None, []);
    }
    var unicos := KeepUnique(candidatos);
    if |unicos| == 0 {
      return Choice(None, []);
    }
    var conCodigos := Filter(unicos, BothCodes);
    var principal := if |conCodigos| > 0 then conCodigos[0] else unicos[0];
    c := Choice(Some(principal), Filter(unicos, Other(principal)));
  }

  /** The loop of `separarPorElemento` over the candidates, with its set of seen code pairs. */
  method KeepUnique(candidatos: seq<Row>) returns (unicos: seq<Row>)
    ensures unicos == Unique(candidatos)
  {
    var vistos: set<string> := {};
    unicos := [];
    for i := 0 to |candidatos|
      invariant unicos == Unique(candidatos[..i]) && vistos == KeysOf(unicos)
    {
      UniqueSnoc(candidatos, i);
      var r := candidatos[i];
      var man := Get(r, ManKey);
      var wix := Get(r, WixKey);
      var clave := man + "|" + wix;
      if (man == "" || man == NotAvailable) && (wix == "" || wix == NotAvailable) {
      } else if clave in vistos {
      } else {
        vistos := vistos + {clave};
        unicos := unicos + [r];
      }
    }
    assert candidatos[..|candidatos|] == candidatos;
  }

  lemma {:induction false} DropOne(s: seq<Row>, p: Row)
    requires p in s
    requires forall i, j :: 0 <= i < j < |s| ==> s[i] != s[j]
    ensures |Filter(s, Other(p))| == |s| - 1
    decreases |s|
  {
    var init, x := s[..|s| - 1], s[|s| - 1];
    assert s == init + [x];
    FilterSnocSkip(init, p, Other(p));
    if x == p {
      forall k | 0 <= k < |init| ensures Other(p)(init[k]) {
        assert init[k] == s[k];
      }
      FilterAll(init, Other(p));
    } else {
      FilterSnocKeep(init, x, Other(p));
      assert p in init;
      DropOne(init, p);
    }
  }

  /**
   * Nothing is chosen exactly when no candidate has a code; otherwise the principal
   * is a kept candidate, and the extras are the other kept candidates, one fewer.
   */
  lemma SeparateSpec(registros: seq<Row>, nombres: seq<string>)
    ensures var c := Separate(registros, nombres);
      var cands := Filter(registros, Candidate(nombres));
      (c.principal.None? <==> forall x :: x in cands ==> NoCodes(x)) &&
      (c.principal.Some? ==>
        var u := Unique(cands);
        c.principal.value in u && c.principal.value !in c.extras &&
        |c.extras| == |u| - 1 &&
        forall x :: x in c.extras <==> x in u && x != c.principal.value)
  {
    var cands := Filter(registros, Candidate(nombres));
    var u := Unique(cands);
    forall x | x in cands && !NoCodes(x) ensures u != [] {
      UniqueCovers(cands, x);
    }
    if u != [] {
      UniqueKeys(cands);
      DropOne(u, Principal(u));
    }
  }

  /** The chosen rows come from the rows given and name one of the elements asked for. */
  lemma SeparateFrom(registros: seq<Row>, nombres: seq<string>)
    ensures var c := Separate(registros, nombres);
      (c.principal.Some? ==> c.principal.value in registros && Candidate(nombres)(c.principal.value)) &&
      forall x :: x in c.extras ==> x in registros && Candidate(nombres)(x)
  {
  }

  // ---------------------------------------------------------------- selection

  /** What the table shows for a selected vehicle. */
  datatype Selection = Selection(combustible: string, aceite: Choice, aire: Choice,
                                 combustibleFiltro: Choice, habitaculo: Choice)

  /** The rows of exactly that brand, model and engine. */
  function ForVehicle(marca: string, modelo: string, motor: string): Row -> bool {
    r => Get(r, "Marca") == marca && Get(r, "Modelo") == modelo && Get(r, "Motor") == motor
  }

  /** `actualizarFiltrosParaSeleccion`: nothing until all three are chosen and some row fits. */
  function Lookup(datos: seq<Row>, marca: string, modelo: string, motor: string): Option<Selection> {
    if marca == "" || modelo == "" || motor == "" then None
    else
      var filtrados := Filter(datos, ForVehicle(marca, modelo, motor));
      if filtrados == [] then None
      else Some(Selection(Get(filtrados[0], "Combustible"),
                          Separate(filtrados, ["Filtro de aceite"]),
                          Separate(filtrados, ["Filtro de aire"]),
                          Separate(filtrados, ["Filtro de combustible"]),
                          Separate(filtrados, ["Filtro de aire de cabina"])))
  }

  /** A selection is shown exactly when all three values are chosen and some row has them. */
  lemma LookupSpec(datos: seq<Row>, marca: string, modelo: string, motor: string)
    ensures Lookup(datos, marca, modelo, motor).Some? <==>
      marca != "" && modelo != "" && motor != "" &&
      exists r :: r in datos && ForVehicle(marca, modelo, motor)(r)
  {
    if exists r :: r in datos && ForVehicle(marca, modelo, motor)(r) {
      var r :| r in datos && ForVehicle(marca, modelo, motor)(r);
      assert r in Filter(datos, ForVehicle(marca, modelo, motor));
    }
  }

  /** Every row a choice shows is a row of the catalogue for the vehicle, of that element. */
  predicate Shown(c: Choice, datos: seq<Row>, vehicle: Row -> bool, nombre: string) {
    (c.principal.Some? ==>
      c.principal.value in datos && vehicle(c.principal.value) && Candidate([nombre])(c.principal.value)) &&
    forall x :: x in c.extras ==> x in datos && vehicle(x) && Candidate([nombre])(x)
  }

  /** Each of the four filter groups shows only rows of the selected vehicle and that group. */
  lemma SelectionRows(datos: seq<Row>, marca: string, modelo: string, motor: string)
    requires Lookup(datos, marca, modelo, motor).Some?
    ensures var s := Lookup(datos, marca, modelo, motor).value;
      var v := ForVehicle(marca, modelo, motor);
      Shown(s.aceite, datos, v, "Filtro de aceite") &&
      Shown(s.aire, datos, v, "Filtro de aire") &&
      Shown(s.combustibleFiltro, datos, v, "Filtro de combustible") &&
      Shown(s.habitaculo, datos, v, "Filtro de aire de cabina")
  {
    var filtrados := Filter(datos, ForVehicle(marca, modelo, motor));
    SeparateFrom(filtrados, ["Filtro de aceite"]);
    SeparateFrom(filtrados, ["Filtro de aire"]);
    SeparateFrom(filtrados, ["Filtro de combustible"]);
    SeparateFrom(filtrados, ["Filtro de aire de cabina"]);
  }

  /** The brand filter of a brand change: every row when no brand is chosen. */
  function ByBrand(marca: string): Row -> bool {
    r => marca == "" || Get(r, "Marca") == marca
  }

  /** The models offered once `marca` is chosen. */
  function ModelOptions(datos: seq<Row>, marca: string): seq<string> {
    UniqueValues(Filter(datos, ByBrand(marca)), "Modelo")
  }

  /** The brand and model filter of a model change. */
  function ByBrandModel(marca: string, modelo: string): Row -> bool {
    r => (marca == "" || Get(r, "Marca") == marca) && (modelo == "" || Get(r, "Modelo") == modelo)
  }

  /** The engines offered once `marca` and `modelo` are chosen. */
  function EngineOptions(datos: seq<Row>, marca: string, modelo: string): seq<string> {
    UniqueValues(Filter(datos, ByBrandModel(marca, modelo)), "Motor")
  }

  /** A model is offered exactly when some row of the brand has it. */
  lemma ModelOptionsSpec(datos: seq<Row>, marca: string)
    ensures StrictlySorted(ModelOptions(datos, marca))
    ensures forall v :: v in ModelOptions(datos, marca) <==> (v != "" &&
      exists r :: r in datos && (marca == "" || Get(r, "Marca") == marca) && Get(r, "Modelo") == v)
  {
    UniqueValuesSpec(Filter(datos, ByBrand(marca)), "Modelo");
  }

  /** An engine is offered exactly when some row of the brand and model has it. */
  lemma EngineOptionsSpec(datos: seq<Row>, marca: string, modelo: string)
    ensures StrictlySorted(EngineOptions(datos, marca, modelo))
    ensures forall v :: v in EngineOptions(datos, marca, modelo) <==> (v != "" &&
      exists r :: r in datos && (marca == "" || Get(r, "Marca") == marca) &&
        (modelo == "" || Get(r, "Modelo") == modelo) && Get(r, "Motor") == v)
  {
    UniqueValuesSpec(Filter(datos, ByBrandModel(marca, modelo)), "Motor");
  }

  // ---------------------------------------------------------------- searchable select

  /** An option matches the typed text case-insensitively. */
  function Shows(filter: string): string -> bool {
    o => Contains(ToLower(o), ToLower(filter))
  }

  /** The options `renderDropdown(filter)` lists, in order. */
  function Dropdown(options: seq<string>, filter: string): seq<string> {
    Filter(options, Shows(filter))
  }

  /** The list shows exactly the matching options, and all of them before anything is typed. */
  lemma DropdownSpec(options: seq<string>, filter: string)
    ensures forall o :: o in Dropdown(options, filter) <==> o in options && Contains(ToLower(o), ToLower(filter))
    ensures filter == "" ==> Dropdown(options, filter) == options
    ensures Dropdown(Dropdown(options, filter), filter) == Dropdown(options, filter)
  {
    if filter == "" {
      forall i | 0 <= i < |options| ensures Shows(filter)(options[i]) {
        assert ToLower(filter) <= ToLower(options[i]);
      }
      FilterAll(options, Shows(filter));
    }
    var d := Dropdown(options, filter);
    FilterAll(d, Shows(filter));
  }

  /** A `SelectWithSearch` widget: its option list and its chosen value. */
  class Selector {
    var options: seq<string>
    var value: string

    constructor(options: seq<string>)
      ensures this.options == options && value == ""
    {
      this.options := options;
      value := "";
    }

    method RenderDropdown(filter: string) returns (shown: seq<string>)
      ensures shown == Dropdown(options, filter)
    {
      shown := Filter(options, Shows(filter));
    }

    /** A click on a listed option. */
    method Pick(option: string)
      modifies this
      ensures value == option && options == old(options)
    {
      value := option;
    }

    method SetOptions(options: seq<string>)
      modifies this
      ensures this.options == options && value == old(value)
    {
      this.options := options;
    }

    method Clear()
      modifies this
      ensures value == "" && options == old(options)
    {
      value := "";
    }
  }

  /** The page: the catalogue and the three cascading selectors. */
  class Page {
    var datos: seq<Row>
    const marca: Selector
    const modelo: Selector
    const motor: Selector

    predicate Valid()
      reads this
    {
      marca != modelo && modelo != motor && marca != motor
    }

    constructor()
      ensures Valid() && fresh(marca) && fresh(modelo) && fresh(motor)
      ensures datos == [] && marca.options == [] && modelo.options == [] && motor.options == []
      ensures marca.value == "" && modelo.value == "" && motor.value == ""
    {
      datos := [];
      marca := new Selector([]);
      modelo := new Selector([]);
      motor := new Selector([]);
    }

    /** `inicializar`: load the catalogue and offer its brands. */
    method Inicializar(texto: string)
      requires Valid()
      modifies this, marca
      ensures datos == Records(texto) && marca.options == UniqueValues(datos, "Marca")
      ensures marca.value == old(marca.value)
    {
      var d := ParseCSV(texto);
      var marcas := ValoresUnicos(d, "Marca");
      datos := d;
      marca.SetOptions(marcas);
    }

    /** A brand was picked: offer its models, and clear the model and engine. */
    method MarcaChange(elegida: string)
      requires Valid()
      modifies modelo, motor
      ensures modelo.options == ModelOptions(datos, elegida) && modelo.value == ""
      ensures motor.options == [] && motor.value == ""
    {
      var modelos := ValoresUnicos(Filter(datos, ByBrand(elegida)), "Modelo");
      modelo.SetOptions(modelos);
      motor.SetOptions([]);
      modelo.Clear();
      motor.Clear();
    }

    /** A model was picked: offer the engines of the brand and model, and clear the engine. */
    method ModeloChange(elegido: string)
      requires Valid()
      modifies motor
      ensures motor.options == EngineOptions(datos, marca.value, elegido) && motor.value == ""
    {
      var motores := ValoresUnicos(Filter(datos, ByBrandModel(marca.value, elegido)), "Motor");
      motor.SetOptions(motores);
      motor.Clear();
    }

    /** An engine was picked: look up the vehicle's filters. */
    method MotorChange() returns (sel: Option<Selection>)
      ensures sel == Lookup(datos, marca.value, modelo.value, motor.value)
    {
      var ma, mo, mt := marca.value, modelo.value, motor.value;
      if ma == "" || mo == "" || mt == "" {
        return None;
      }
      var filtrados := Filter(datos, ForVehicle(ma, mo, mt));
      if |filtrados| == 0 {
        return None;
      }
      var aceite := SepararPorElemento(filtrados, ["Filtro de aceite"]);
      var aire := SepararPorElemento(filtrados, ["Filtro de aire"]);
      var fcomb := SepararPorElemento(filtrados, ["Filtro de combustible"]);
      var habit := SepararPorElemento(filtrados, ["Filtro de aire de cabina"]);
      sel := Some(Selection(Get(filtrados[0], "Combustible"), aceite, aire, fcomb, habit));
    }
  }
}
