/**
 * The client form as one CSV record: nine fields in a fixed order, each enclosed in
 * double quotes with every embedded double quote doubled (section 2, rules 5 to 7, of
 * RFC 4180), joined by commas; and a reader for such records.
 */
module CsvQuote {
  import opened Wrappers
  import opened Seqs
  import opened Text

  /** The values of the client form. */
  datatype ClientForm = ClientForm(nombre: string, telefono: string, correo: string, direccion: string,
                                   marca: string, modelo: string, anio: string, patente: string,
                                   kilometraje: string)

  /** The columns, in the order of the record. */
  function Fields(d: ClientForm): seq<string> {
    [d.nombre, d.telefono, d.correo, d.direccion, d.marca, d.modelo, d.anio, d.patente, d.kilometraje]
  }

  const Dq: char := '"'

  /** `s.replace(/"/g, '""')` */
  function Escape(s: string): string
    decreases |s|
  {
    if s == [] then []
    else Escape(s[..|s| - 1]) + (if s[|s| - 1] == Dq then [Dq, Dq] else [s[|s| - 1]])
  }

  /** A field enclosed in double quotes. */
  function Quote(s: string): string {
    [Dq] + Escape(s) + [Dq]
  }

  /** `convertirADisposicionCSV(datos)` */
  function ToCsv(d: ClientForm): string {
    Join(Map(Quote, Fields(d)), ",")
  }

  /** Doubling each quote is replacing every quote by two: splitting at quotes and joining with `""`. */
  lemma {:induction false} EscapeReplace(s: string)
    ensures Escape(s) == Join(Split(s, {Dq}), [Dq, Dq])
    decreases |s|
  {
    if s != [] {
      var s', c := s[..|s| - 1], s[|s| - 1];
      EscapeReplace(s');
      JoinStep(Split(s', {Dq}), c, {Dq}, [Dq, Dq]);
      assert s' + [c] == s;
    }
  }

  /** Escaping works character by character. */
  lemma {:induction false} EscapeConcat(a: string, b: string)
    ensures Escape(a + b) == Escape(a) + Escape(b)
    decreases |b|
  {
    if b == [] {
      assert a + b == a;
    } else {
      var b', c := b[..|b| - 1], b[|b| - 1];
      assert (a + b)[..|a + b| - 1] == a + b';
      EscapeConcat(a, b');
    }
  }

  lemma EscapeCons(c: char, s: string)
    ensures Escape([c] + s) == (if c == Dq then [Dq, Dq] else [c]) + Escape(s)
  {
    var one: string := [c];
    assert one[..0] == [];
    assert Escape(one) == (if c == Dq then [Dq, Dq] else [c]);
    EscapeConcat(one, s);
  }

  // ---------------------------------------------------------------- reading

  /**
   * The rest of an escaped field after its opening quote: the content, with `""` read
   * as one quote, and what follows the closing quote; `None` when it is not closed.
   */
  function ParseQuoted(s: string): Option<(string, string)>
    decreases |s|
  {
    if s == [] then None
    else if s[0] == Dq then
      if |s| >= 2 && s[1] == Dq then
        match ParseQuoted(s[2..])
        case None => None
        case Some(p) => Some(([Dq] + p.0, p.1))
      else Some(([], s[1..]))
    else
      match ParseQuoted(s[1..])
      case None => None
      case Some(p) => Some(([s[0]] + p.0, p.1))
  }

  /** The characters a non-escaped field may hold. */
  predicate TextData(c: char) {
    c != ',' && c != Dq && c != '\r' && c != '\n'
  }

  /** The longest prefix of characters a non-escaped field may hold. */
  function Plain(s: string): (r: string)
    ensures r <= s
    decreases |s|
  {
    if s != [] && TextData(s[0]) then [s[0]] + Plain(s[1..]) else []
  }

  /** One field and what follows it: escaped when it opens with a quote, else plain. */
  function ParseField(s: string): (r: Option<(string, string)>)
    ensures r.Some? ==> |r.value.1| <= |s|
  {
    if s != [] && s[0] == Dq then
      ParseQuotedShorter(s[1..]);
      ParseQuoted(s[1..])
    else
      var f := Plain(s);
      Some((f, s[|f|..]))
  }

  lemma {:induction false} ParseQuotedShorter(s: string)
    ensures ParseQuoted(s).Some? ==> |ParseQuoted(s).value.1| < |s|
    decreases |s|
  {
    if s != [] && s[0] == Dq && |s| >= 2 && s[1] == Dq {
      ParseQuotedShorter(s[2..]);
    } else if s != [] && s[0] != Dq {
      ParseQuotedShorter(s[1..]);
    }
  }

  /** The fields of one record: fields separated by single commas, up to the end of the text. */
  function ParseRecord(s: string): Option<seq<string>>
    decreases |s|
  {
    match ParseField(s)
    case None => None
    case Some(p) =>
      if p.1 == [] then Some([p.0])
      else if p.1[0] != ',' then None
      else
        match ParseRecord(p.1[1..])
        case None => None
        case Some(fs) => Some([p.0] + fs)
  }

  lemma ParseQuotedPair(u: string)
    ensures ParseQuoted([Dq, Dq] + u)
         == (match ParseQuoted(u) case None => None case Some(p) => Some(([Dq] + p.0, p.1)))
  {
    assert ([Dq, Dq] + u)[2..] == u;
  }

  lemma ParseQuotedChar(c: char, u: string)
    requires c != Dq
    ensures ParseQuoted([c] + u)
         == (match ParseQuoted(u) case None => None case Some(p) => Some(([c] + p.0, p.1)))
  {
    assert ([c] + u)[1..] == u;
  }

  /** One step of reading back: the escaped first character, then the rest as before. */
  lemma ParseQuotedEscapeStep(c: char, t: string, rest: string)
    requires ParseQuoted(Escape(t) + [Dq] + rest) == Some((t, rest))
    ensures ParseQuoted(Escape([c] + t) + [Dq] + rest) == Some(([c] + t, rest))
  {
    EscapeCons(c, t);
    var u := Escape(t) + [Dq] + rest;
    if c == Dq {
      assert Escape([c] + t) + [Dq] + rest == [Dq, Dq] + u;
      ParseQuotedPair(u);
    } else {
      assert Escape([c] + t) + [Dq] + rest == [c] + u;
      ParseQuotedChar(c, u);
    }
  }

  /** The content of an escaped field reads back, when what follows it does not start with a quote. */
  lemma {:induction false} ParseQuotedEscape(s: string, rest: string)
    requires rest == [] || rest[0] != Dq
    ensures ParseQuoted(Escape(s) + [Dq] + rest) == Some((s, rest))
    decreases |s|
  {
    if s == [] {
      assert Escape(s) + [Dq] + rest == [Dq] + rest;
      assert ([Dq] + rest)[1..] == rest;
    } else {
      ParseQuotedEscape(s[1..], rest);
      ParseQuotedEscapeStep(s[0], s[1..], rest);
      assert s == [s[0]] + s[1..];
    }
  }

  /** A quoted field reads back as its content. */
  lemma ParseFieldQuote(s: string, rest: string)
    requires rest == [] || rest[0] != Dq
    ensures ParseField(Quote(s) + rest) == Some((s, rest))
  {
    assert Quote(s) + rest == [Dq] + (Escape(s) + [Dq] + rest);
    ParseQuotedEscape(s, rest);
  }

  /** A quoted field followed by a comma reads as that field, then the record after the comma. */
  lemma ParseRecordCons(f: string, r: string)
    ensures ParseRecord(Quote(f) + "," + r)
         == (match ParseRecord(r) case None => None case Some(fs) => Some([f] + fs))
  {
    var rest := "," + r;
    assert Quote(f) + "," + r == Quote(f) + rest;
    ParseFieldQuote(f, rest);
    assert rest[1..] == r;
  }

  /** Quoted fields joined by commas read back as the same fields, whatever characters they hold. */
  lemma {:induction false} RecordRoundTrip(fs: seq<string>)
    requires fs != []
    ensures ParseRecord(Join(Map(Quote, fs), ",")) == Some(fs)
    decreases |fs|
  {
    if |fs| == 1 {
      assert Map(Quote, fs) == [Quote(fs[0])];
      assert Join(Map(Quote, fs), ",") == Quote(fs[0]) + [];
      ParseFieldQuote(fs[0], []);
      assert fs == [fs[0]];
    } else {
      var t := fs[1..];
      assert Map(Quote, fs) == [Quote(fs[0])] + Map(Quote, t);
      JoinCons(Quote(fs[0]), Map(Quote, t), ",");
      RecordRoundTrip(t);
      ParseRecordCons(fs[0], Join(Map(Quote, t), ","));
      assert fs == [fs[0]] + t;
    }
  }

  /**
   * The record reads back as exactly the nine form values in order, so a comma, quote
   * or line break inside a value does not change the field count.
   */
  lemma ToCsvRoundTrip(d: ClientForm)
    ensures ParseRecord(ToCsv(d)) == Some(Fields(d))
    ensures |ParseRecord(ToCsv(d)).value| == 9
  {
    RecordRoundTrip(Fields(d));
  }

  /** The record is the nine quoted fields separated by commas. */
  lemma ToCsvShape(d: ClientForm)
    ensures ToCsv(d) == Quote(d.nombre) + "," + Join(Map(Quote, Fields(d)[1..]), ",")
    ensures ToCsv(d)[0] == Dq && ToCsv(d)[|ToCsv(d)| - 1] == Dq
  {
    var qs := Map(Quote, Fields(d));
    assert qs == [Quote(d.nombre)] + Map(Quote, Fields(d)[1..]);
    JoinCons(Quote(d.nombre), Map(Quote, Fields(d)[1..]), ",");
    var init := qs[..8];
    assert Join(qs, ",") == Join(init, ",") + "," + qs[8];
    assert qs[8] == Quote(d.kilometraje);
  }

  // ---------------------------------------------------------------- one field

  /** Read `""` as one quote. */
  function Undouble(s: string): string
    decreases |s|
  {
    if s == [] then []
    else if |s| >= 2 && s[0] == Dq && s[1] == Dq then [Dq] + Undouble(s[2..])
    else [s[0]] + Undouble(s[1..])
  }

  /** Strip the enclosing quotes, then undouble the inner ones. */
  function Unquote(q: string): Option<string> {
    if |q| >= 2 && q[0] == Dq && q[|q| - 1] == Dq then Some(Undouble(q[1..|q| - 1])) else None
  }

  lemma {:induction false} UndoubleEscape(s: string)
    ensures Undouble(Escape(s)) == s
    decreases |s|
  {
    if s != [] {
      var c, t := s[0], s[1..];
      assert s == [c] + t;
      EscapeCons(c, t);
      UndoubleEscape(t);
      if c == Dq {
        assert (Escape(s))[2..] == Escape(t);
      } else {
        assert (Escape(s))[1..] == Escape(t);
      }
    }
  }

  /** Decoding a quoted field gives back the original value. */
  lemma UnquoteQuote(s: string)
    ensures Unquote(Quote(s)) == Some(s)
  {
    var q := Quote(s);
    assert q[1..|q| - 1] == Escape(s);
    UndoubleEscape(s);
  }
}
