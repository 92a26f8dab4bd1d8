/**
 * The JavaScript string built-ins the application leans on: `trim`, `toLowerCase`,
 * `includes`, `startsWith`, `split`, `join`, `split(/\r?\n/)` and `parseInt(s, 10)`.
 */
module Text {
  import opened Wrappers
  import opened Seqs

  /** ECMAScript WhiteSpace and LineTerminator: what `trim()` strips and `\s` matches. */
  predicate IsSpace(c: char) {
    || ('\t' <= c <= '\r') || c == ' ' || c == '\U{00A0}' || c == '\U{1680}'
    || ('\U{2000}' <= c <= '\U{200A}') || c == '\U{2028}' || c == '\U{2029}'
    || c == '\U{202F}' || c == '\U{205F}' || c == '\U{3000}' || c == '\U{FEFF}'
  }

  /** Every character of `s` is white space (so `s.trim()` is empty). */
  predicate Blank(s: string) {
    forall i :: 0 <= i < |s| ==> IsSpace(s[i])
  }

  /** `s` contains none of the characters in `cs`. */
  predicate Free(s: string, cs: set<char>) {
    forall i :: 0 <= i < |s| ==> s[i] !in cs
  }

  lemma FreeSubset(s: string, cs: set<char>, ds: set<char>)
    requires Free(s, cs) && ds <= cs
    ensures Free(s, ds)
  {
  }

  // ---------------------------------------------------------------- trim

  function TrimStart(s: string): (r: string)
    ensures |r| <= |s|
    ensures forall i :: 0 <= i < |s| - |r| ==> IsSpace(s[i])
    ensures r == [] || (!IsSpace(r[0]) && r[|r| - 1] == s[|s| - 1])
    decreases |s|
  {
    if s != [] && IsSpace(s[0]) then TrimStart(s[1..]) else s
  }

  function TrimEnd(s: string): (r: string)
    ensures |r| <= |s|
    ensures forall i :: |r| <= i < |s| ==> IsSpace(s[i])
    ensures r == [] || (!IsSpace(r[|r| - 1]) && r[0] == s[0])
    decreases |s|
  {
    if s != [] && IsSpace(s[|s| - 1]) then TrimEnd(s[..|s| - 1]) else s
  }

  /** What `TrimStart` keeps is a suffix of the string. */
  lemma {:induction false} TrimStartSuffix(s: string)
    ensures TrimStart(s) == s[|s| - |TrimStart(s)|..]
    decreases |s|
  {
    if s != [] && IsSpace(s[0]) {
      TrimStartSuffix(s[1..]);
    }
  }

  /** What `TrimEnd` keeps is a prefix of the string. */
  lemma {:induction false} TrimEndPrefix(s: string)
    ensures TrimEnd(s) == s[..|TrimEnd(s)|]
    decreases |s|
  {
    if s != [] && IsSpace(s[|s| - 1]) {
      TrimEndPrefix(s[..|s| - 1]);
    }
  }

  /** No white space at either end. */
  predicate Trimmed(s: string) {
    s == [] || (!IsSpace(s[0]) && !IsSpace(s[|s| - 1]))
  }

  /** `s.trim()`: `s` without its leading and trailing white space. */
  function Trim(s: string): (r: string)
    ensures Trimmed(r) && |r| <= |s|
  {
    TrimEnd(TrimStart(s))
  }

  /** A trimmed string is empty exactly when the original is all white space. */
  lemma TrimEmpty(s: string)
    ensures Trim(s) == [] <==> Blank(s)
  {
    if Trim(s) == [] {
      assert TrimStart(s) == [];
    }
    if Blank(s) {
      BlankTrimStart(s);
    }
  }

  lemma {:induction false} BlankTrimStart(s: string)
    requires Blank(s)
    ensures TrimStart(s) == []
    decreases |s|
  {
    if s != [] {
      BlankTrimStart(s[1..]);
    }
  }

  /** A string without surrounding white space is its own trim. */
  lemma TrimNoop(s: string)
    requires Trimmed(s)
    ensures Trim(s) == s
  {
  }

  lemma TrimTwice(s: string)
    ensures Trim(Trim(s)) == Trim(s)
  {
    TrimNoop(Trim(s));
  }

  /** Trimming only removes characters. */
  lemma TrimChars(s: string, cs: set<char>)
    requires Free(s, cs)
    ensures Free(Trim(s), cs)
  {
    var t := TrimStart(s);
    TrimStartSuffix(s);
    forall i | 0 <= i < |t| ensures t[i] !in cs {
      assert t[i] == s[|s| - |t| + i];
    }
    var r := TrimEnd(t);
    TrimEndPrefix(t);
    forall i | 0 <= i < |r| ensures r[i] !in cs {
      assert r[i] == t[i];
    }
  }

  // ---------------------------------------------------------------- case

  /** `toLowerCase` on one character; covers ASCII and the Latin-1 capitals. */
  function LowerChar(c: char): char {
    if 'A' <= c <= 'Z' || ('\U{00C0}' <= c <= '\U{00DE}' && c != '\U{00D7}')
    then (c as int + 32) as char
    else c
  }

  /** `s.toLowerCase()` */
  function ToLower(s: string): (r: string)
    ensures |r| == |s| && forall i :: 0 <= i < |s| ==> r[i] == LowerChar(s[i])
  {
    seq(|s|, i requires 0 <= i < |s| => LowerChar(s[i]))
  }

  lemma ToLowerConcat(a: string, b: string)
    ensures ToLower(a + b) == ToLower(a) + ToLower(b)
  {
  }

  // ---------------------------------------------------------------- search

  /** `s.includes(sub)` */
  predicate Contains(s: string, sub: string)
    decreases |s|
  {
    sub <= s || (s != [] && Contains(s[1..], sub))
  }

  /** `s.startsWith(p)` */
  predicate StartsWith(s: string, p: string) {
    p <= s
  }

  // ---------------------------------------------------------------- split and join

  /**
   * `s.split(sep)` for a separator that is one character, or a character class such
   * as `/\t|,/`: the pieces between separator characters, always at least one.
   */
  function Split(s: string, seps: set<char>): (r: seq<string>)
    ensures |r| >= 1
    decreases |s|
  {
    if s == [] then [[]] else SplitStep(Split(s[..|s| - 1], seps), s[|s| - 1], seps)
  }

  /** One more character: a separator starts a new piece, anything else extends the last. */
  function SplitStep(r: seq<string>, c: char, seps: set<char>): (r': seq<string>)
    requires |r| >= 1
    ensures |r'| >= 1
  {
    if c in seps then r + [[]] else r[..|r| - 1] + [r[|r| - 1] + [c]]
  }

  lemma SplitStepAppend(x: seq<string>, y: seq<string>, c: char, seps: set<char>)
    requires |y| >= 1
    ensures SplitStep(x + y, c, seps) == x + SplitStep(y, c, seps)
  {
    if c !in seps {
      assert (x + y)[..|x + y| - 1] == x + y[..|y| - 1];
    }
  }

  /** `ps.join(sep)` */
  function Join(ps: seq<string>, sep: string): string
    decreases |ps|
  {
    if ps == [] then []
    else if |ps| == 1 then ps[0]
    else Join(ps[..|ps| - 1], sep) + sep + ps[|ps| - 1]
  }

  lemma Join3(a: string, b: string, c: string, sep: string)
    ensures Join([a, b, c], sep) == a + sep + b + sep + c
  {
    assert [a, b, c][..2] == [a, b];
    assert [a, b][..1] == [a];
    assert Join([a, b], sep) == a + sep + b;
  }

  /** `parts[i]`, or the empty string where JavaScript would give `undefined`. */
  function Field(parts: seq<string>, i: nat): string {
    if i < |parts| then parts[i] else ""
  }

  /** A string without separators splits into itself. */
  lemma {:induction false} SplitWhole(s: string, seps: set<char>)
    requires Free(s, seps)
    ensures Split(s, seps) == [s]
    decreases |s|
  {
    if s != [] {
      SplitWhole(s[..|s| - 1], seps);
      assert s[..|s| - 1] + [s[|s| - 1]] == s;
    }
  }

  /** No piece of a split holds a separator. */
  lemma {:induction false} SplitFree(s: string, seps: set<char>)
    ensures forall i :: 0 <= i < |Split(s, seps)| ==> Free(Split(s, seps)[i], seps)
    decreases |s|
  {
    if s != [] {
      SplitFree(s[..|s| - 1], seps);
    }
  }

  /** The pieces of a split hold only characters of the string. */
  lemma {:induction false} SplitKeepsFree(s: string, seps: set<char>, cs: set<char>)
    requires Free(s, cs)
    ensures forall i :: 0 <= i < |Split(s, seps)| ==> Free(Split(s, seps)[i], cs)
    decreases |s|
  {
    if s != [] {
      SplitKeepsFree(s[..|s| - 1], seps, cs);
    }
  }

  /** Splitting distributes over a separator. */
  lemma {:induction false} SplitAt(a: string, c: char, b: string, seps: set<char>)
    requires c in seps
    ensures Split(a + [c] + b, seps) == Split(a, seps) + Split(b, seps)
    decreases |b|
  {
    if b == [] {
      assert (a + [c] + b)[..|a + [c] + b| - 1] == a;
    } else {
      var b' := b[..|b| - 1];
      assert (a + [c] + b)[..|a + [c] + b| - 1] == a + [c] + b';
      SplitAt(a, c, b', seps);
      SplitStepAppend(Split(a, seps), Split(b', seps), b[|b| - 1], seps);
    }
  }

  /** Joining pieces that hold no separator, then splitting, gives the pieces back. */
  lemma {:induction false} SplitJoin(ps: seq<string>, c: char, seps: set<char>)
    requires c in seps && |ps| >= 1
    requires forall i :: 0 <= i < |ps| ==> Free(ps[i], seps)
    ensures Split(Join(ps, [c]), seps) == ps
    decreases |ps|
  {
    var last := ps[|ps| - 1];
    SplitWhole(last, seps);
    if |ps| > 1 {
      var init := ps[..|ps| - 1];
      SplitJoin(init, c, seps);
      assert Join(ps, [c]) == Join(init, [c]) + [c] + last;
      SplitAt(Join(init, [c]), c, last, seps);
      assert init + [last] == ps;
    }
  }

  lemma {:induction false} JoinExtendLast(ps: seq<string>, d: char, sep: string)
    requires |ps| >= 1
    ensures Join(ps[..|ps| - 1] + [ps[|ps| - 1] + [d]], sep) == Join(ps, sep) + [d]
  {
    var qs := ps[..|ps| - 1] + [ps[|ps| - 1] + [d]];
    if |ps| > 1 {
      assert qs[..|qs| - 1] == ps[..|ps| - 1];
    }
  }

  lemma {:induction false} JoinSnoc(ps: seq<string>, p: string, sep: string)
    requires |ps| >= 1
    ensures Join(ps + [p], sep) == Join(ps, sep) + sep + p
  {
    assert (ps + [p])[..|ps + [p]| - 1] == ps;
  }

  /** Joining a first piece ahead of others puts one separator after it. */
  lemma {:induction false} JoinCons(h: string, ps: seq<string>, sep: string)
    requires ps != []
    ensures Join([h] + ps, sep) == h + sep + Join(ps, sep)
    decreases |ps|
  {
    var qs := [h] + ps;
    assert qs[..|qs| - 1] == [h] + ps[..|ps| - 1];
    if |ps| > 1 {
      JoinCons(h, ps[..|ps| - 1], sep);
    }
  }

  /** Pieces and a separator free of some characters join into a string free of them. */
  lemma {:induction false} JoinFree(ps: seq<string>, sep: string, cs: set<char>)
    requires forall i :: 0 <= i < |ps| ==> Free(ps[i], cs)
    requires Free(sep, cs)
    ensures Free(Join(ps, sep), cs)
    decreases |ps|
  {
    if |ps| > 1 {
      JoinFree(ps[..|ps| - 1], sep, cs);
      var a := Join(ps[..|ps| - 1], sep);
      var b := ps[|ps| - 1];
      forall i | 0 <= i < |a + sep + b| ensures (a + sep + b)[i] !in cs {
        if i < |a| {
          assert (a + sep + b)[i] == a[i];
        } else if i < |a| + |sep| {
          assert (a + sep + b)[i] == sep[i - |a|];
        } else {
          assert (a + sep + b)[i] == b[i - |a| - |sep|];
        }
      }
    }
  }

  /** The first piece of a split is everything before the first separator. */
  lemma SplitFirst(a: string, c: char, b: string, seps: set<char>)
    requires c in seps && Free(a, seps)
    ensures Split(a + [c] + b, seps)[0] == a
  {
    SplitAt(a, c, b, seps);
    SplitWhole(a, seps);
  }

  /** Splitting at one separator character and joining with it gives the string back. */
  /** One more character of the split adds either the separator or that character to the join. */
  lemma JoinStep(r: seq<string>, d: char, seps: set<char>, sep: string)
    requires |r| >= 1
    ensures Join(SplitStep(r, d, seps), sep) == Join(r, sep) + (if d in seps then sep else [d])
  {
    if d in seps {
      JoinSnoc(r, [], sep);
    } else {
      JoinExtendLast(r, d, sep);
    }
  }

  lemma {:induction false} JoinSplit(s: string, c: char)
    ensures Join(Split(s, {c}), [c]) == s
    decreases |s|
  {
    if s != [] {
      var s' := s[..|s| - 1];
      var d := s[|s| - 1];
      JoinSplit(s', c);
      JoinStep(Split(s', {c}), d, {c}, [c]);
      assert s' + [d] == s;
    }
  }

  // ---------------------------------------------------------------- lines

  /** A piece of `split(/\r?\n/)` loses the carriage return that preceded its newline. */
  function DropCR(p: string): string {
    if p != [] && p[|p| - 1] == '\r' then p[..|p| - 1] else p
  }

  /** `text.split('\n')` */
  function RawLines(text: string): seq<string> {
    Split(text, {'\n'})
  }

  /** `text.split(/\r?\n/)` */
  function Lines(text: string): (r: seq<string>)
    ensures |r| == |RawLines(text)| >= 1
  {
    var raw := RawLines(text);
    seq(|raw|, i requires 0 <= i < |raw| => if i < |raw| - 1 then DropCR(raw[i]) else raw[i])
  }

  /** No line holds a newline. */
  lemma LinesFree(text: string)
    ensures forall i :: 0 <= i < |Lines(text)| ==> Free(Lines(text)[i], {'\n'})
  {
    SplitFree(text, {'\n'});
    var raw := RawLines(text);
    forall i | 0 <= i < |raw| ensures Free(Lines(text)[i], {'\n'}) {
      assert Free(raw[i], {'\n'});
      assert forall j :: 0 <= j < |DropCR(raw[i])| ==> DropCR(raw[i])[j] == raw[i][j];
    }
  }

  /** The first line of text that starts with a line and a newline is that line. */
  lemma FirstLine(h: string, rest: string)
    requires Free(h, {'\n'}) && DropCR(h) == h
    ensures Lines(h + "\n" + rest)[0] == h
  {
    SplitAt(h, '\n', rest, {'\n'});
    SplitWhole(h, {'\n'});
  }

  /** Some non-space character: `line.trim()` is truthy (see `TrimEmpty`). */
  predicate NonBlank(s: string) {
    !Blank(s)
  }

  lemma DropCRBlank(p: string)
    ensures NonBlank(DropCR(p)) <==> NonBlank(p)
  {
    if p != [] && p[|p| - 1] == '\r' {
      assert IsSpace(p[|p| - 1]);
      assert forall i :: 0 <= i < |p| - 1 ==> DropCR(p)[i] == p[i];
    }
  }

  /**
   * The non-blank lines without the first of them (the header of a CSV file); none
   * when there is at most one: `split(/\r?\n/).filter(l => l.trim())` read from index 1.
   */
  function DataLines(text: string): seq<string> {
    var ls := Filter(Lines(text), NonBlank);
    if |ls| <= 1 then [] else ls[1..]
  }

  /**
   * Text written as lines joined by newlines with a final newline reads back as
   * those lines and one empty piece.
   */
  lemma LinesOfRaw(text: string)
    requires forall i :: 0 <= i < |RawLines(text)| - 1 ==> DropCR(RawLines(text)[i]) == RawLines(text)[i]
    ensures Lines(text) == RawLines(text)
  {
  }

  lemma RawLinesOfJoin(ls: seq<string>)
    requires |ls| >= 1
    requires forall i :: 0 <= i < |ls| ==> Free(ls[i], {'\n'})
    ensures RawLines(Join(ls, "\n") + "\n") == ls + [""]
  {
    var all := ls + [""];
    JoinSnoc(ls, "", "\n");
    assert Join(ls, "\n") + "\n" + "" == Join(ls, "\n") + "\n";
    assert forall i :: 0 <= i < |all| ==> Free(all[i], {'\n'});
    SplitJoin(all, '\n', {'\n'});
  }

  lemma LinesOfJoin(ls: seq<string>)
    requires |ls| >= 1
    requires forall i :: 0 <= i < |ls| ==> Free(ls[i], {'\n'}) && DropCR(ls[i]) == ls[i]
    ensures Lines(Join(ls, "\n") + "\n") == ls + [""]
  {
    RawLinesOfJoin(ls);
    LinesOfRaw(Join(ls, "\n") + "\n");
  }

  /**
   * Appending one line and a newline to text that ends with a newline replaces
   * the empty last piece by that line and adds a new empty piece.
   */
  lemma LinesAppend(text: string, line: string)
    requires |text| > 0 && text[|text| - 1] == '\n'
    requires Free(line, {'\n'})
    ensures var old_ := Lines(text);
      Lines(text + line + "\n") == old_[..|old_| - 1] + [DropCR(line), ""]
  {
    var a := text[..|text| - 1];
    assert text == a + ['\n'] + [];
    SplitAt(a, '\n', [], {'\n'});
    assert text + line + "\n" == a + ['\n'] + (line + ['\n'] + []);
    SplitAt(a, '\n', line + ['\n'] + [], {'\n'});
    SplitAt(line, '\n', [], {'\n'});
    SplitWhole(line, {'\n'});
  }

  /** Text that ends with a newline has at least two lines, the last one empty. */
  lemma LinesEndEmpty(text: string)
    requires |text| > 0 && text[|text| - 1] == '\n'
    ensures |Lines(text)| >= 2 && Lines(text)[|Lines(text)| - 1] == ""
  {
    var a := text[..|text| - 1];
    assert text == a + ['\n'] + [];
    SplitAt(a, '\n', [], {'\n'});
  }

  /** An appended line becomes the last data line of a file that has a header line. */
  lemma DataLinesAppend(text: string, row: string)
    requires |text| > 0 && text[|text| - 1] == '\n'
    requires Filter(Lines(text), NonBlank) != []
    requires Free(row, {'\n'}) && NonBlank(row)
    ensures DataLines(text + row + "\n") == DataLines(text) + [DropCR(row)]
  {
    NonBlankAppend(text, row);
    var f := Filter(Lines(text), NonBlank);
    assert (f + [DropCR(row)])[1..] == f[1..] + [DropCR(row)];
  }

  /** An appended non-blank line is the one new non-blank line. */
  lemma NonBlankAppend(text: string, row: string)
    requires |text| > 0 && text[|text| - 1] == '\n'
    requires Free(row, {'\n'}) && NonBlank(row)
    ensures Filter(Lines(text + row + "\n"), NonBlank) == Filter(Lines(text), NonBlank) + [DropCR(row)]
  {
    var old_ := Lines(text);
    LinesAppend(text, row);
    LinesEndEmpty(text);
    var p := old_[..|old_| - 1];
    assert old_ == p + [""];
    assert Lines(text + row + "\n") == p + [DropCR(row)] + [""];
    DropCRBlank(row);
    assert !NonBlank("") by {
      assert Blank("");
    }
    FilterSnocSkip(p, "", NonBlank);
    FilterSnocSkip(p + [DropCR(row)], "", NonBlank);
    FilterSnocKeep(p, DropCR(row), NonBlank);
  }

  /** `split('\n')` and `split(/\r?\n/)` find the same number of non-blank lines. */
  lemma NonBlankCount(text: string)
    ensures |Filter(RawLines(text), NonBlank)| == |Filter(Lines(text), NonBlank)|
  {
    PointwiseCount(RawLines(text), Lines(text));
  }

  lemma {:induction false} PointwiseCount(a: seq<string>, b: seq<string>)
    requires |a| == |b|
    requires forall i :: 0 <= i < |a| ==> (b[i] == a[i] || b[i] == DropCR(a[i]))
    ensures |Filter(a, NonBlank)| == |Filter(b, NonBlank)|
    decreases |a|
  {
    if a != [] {
      PointwiseCount(a[..|a| - 1], b[..|b| - 1]);
      DropCRBlank(a[|a| - 1]);
    }
  }

  // ---------------------------------------------------------------- numbers

  predicate IsDigit(c: char) {
    '0' <= c <= '9'
  }

  predicate AllDigits(s: string) {
    forall i :: 0 <= i < |s| ==> IsDigit(s[i])
  }

  /** The number a run of decimal digits denotes. */
  function DecimalValue(ds: string): nat
    requires AllDigits(ds)
    decreases |ds|
  {
    if ds == [] then 0
    else 10 * DecimalValue(ds[..|ds| - 1]) + (ds[|ds| - 1] as int - '0' as int)
  }

  /** The longest prefix of `s` made of digits. */
  function DigitPrefix(s: string): (r: string)
    ensures r <= s && AllDigits(r)
    ensures |r| == |s| || !IsDigit(s[|r|])
    decreases |s|
  {
    if s != [] && IsDigit(s[0]) then [s[0]] + DigitPrefix(s[1..]) else []
  }

  /**
   * `parseInt(s, 10)`: leading white space, an optional sign, then the leading run of
   * digits; `None` is `NaN` (no digit where one was expected).
   */
  function ParseInt(s: string): Option<int> {
    var t := TrimStart(s);
    var signed := t != [] && (t[0] == '-' || t[0] == '+');
    var ds := DigitPrefix(if signed then t[1..] else t);
    var v: int := if ds == [] then 0 else DecimalValue(ds);
    if ds == [] then None
    else if signed && t[0] == '-' then Some(-v)
    else Some(v)
  }

  /** `String(n)` for a natural number. */
  function NatToString(n: nat): (r: string)
    ensures |r| >= 1 && AllDigits(r)
    decreases n
  {
    (if n < 10 then [] else NatToString(n / 10)) + [('0' as int + n % 10) as char]
  }

  lemma DigitOf(k: nat)
    requires k < 10
    ensures var c := ('0' as int + k) as char; IsDigit(c) && c as int - '0' as int == k
  {
  }

  lemma {:induction false} NatToStringValue(n: nat)
    ensures DecimalValue(NatToString(n)) == n
    decreases n
  {
    var r := NatToString(n);
    var d := ('0' as int + n % 10) as char;
    DigitOf(n % 10);
    if n >= 10 {
      var p := NatToString(n / 10);
      NatToStringValue(n / 10);
      assert r == p + [d];
      assert r[..|r| - 1] == p;
    } else {
      assert r == [d];
      assert r[..|r| - 1] == [];
    }
  }

  lemma {:induction false} DigitPrefixOf(ds: string, rest: string)
    requires AllDigits(ds)
    requires rest == [] || !IsDigit(rest[0])
    ensures DigitPrefix(ds + rest) == ds
    decreases |ds|
  {
    if ds != [] {
      assert (ds + rest)[1..] == ds[1..] + rest;
      DigitPrefixOf(ds[1..], rest);
    }
  }

  /** A rendered number is read back by `parseInt`, whatever non-digit text follows it. */
  lemma ParseIntOfNat(n: nat, rest: string)
    requires rest == [] || !IsDigit(rest[0])
    ensures ParseInt(NatToString(n) + rest) == Some(n)
  {
    var ds := NatToString(n);
    var s := ds + rest;
    assert s[0] == ds[0] && IsDigit(s[0]);
    assert TrimStart(s) == s;
    assert !(s[0] == '-' || s[0] == '+');
    DigitPrefixOf(ds, rest);
    assert DigitPrefix(s) == ds;
    NatToStringValue(n);
    assert DecimalValue(ds) == n;
  }
}
