/**
 * The users table behind the server (usuarios.csv): how the text of the file becomes
 * the in-memory users object, how that object is written back, and what the
 * object operations (`users[name] = ...`, `delete users[name]`) do to it.
 */
module Users {
  import opened Wrappers
  import opened Seqs
  import opened Text

  /** The value stored under a username: `{ password, suspended }`. */
  datatype Account = Account(password: string, suspended: bool)

  /** One key of the users object together with its value. */
  datatype User = User(name: string, password: string, suspended: bool) {
    function Info(): Account {
      Account(password, suspended)
    }
  }

  /**
   * The users object, in the order its keys were added. `Object.keys` lists them in
   * another order, `KeyOrder` below.
   */
  type Table = seq<User>

  /** No username occurs twice: an object has each key once. */
  predicate Keyed(t: Table) {
    forall i, j :: 0 <= i < j < |t| ==> t[i].name != t[j].name
  }

  /** Index of the entry for `name`, if any. */
  function IndexOf(t: Table, name: string): (r: Option<nat>)
    ensures r.Some? ==> r.value < |t| && t[r.value].name == name
    ensures r.None? <==> forall k :: 0 <= k < |t| ==> t[k].name != name
    decreases |t|
  {
    if t == [] then None
    else
      var r := IndexOf(t[..|t| - 1], name);
      if r.Some? then r
      else if t[|t| - 1].name == name then Some(|t| - 1)
      else None
  }

  /** The users object seen as a dictionary. */
  function AsMap(t: Table): map<string, Account>
    decreases |t|
  {
    if t == [] then map[]
    else AsMap(t[..|t| - 1])[t[|t| - 1].name := t[|t| - 1].Info()]
  }

  /** `users[u.name] = { ... }`: overwrite in place, or add a new key at the end. */
  function Put(t: Table, u: User): Table {
    match IndexOf(t, u.name)
    case Some(k) => t[k := u]
    case None => t + [u]
  }

  /** `users[name]`: the value stored under the name, if any. */
  function Get(t: Table, name: string): Option<Account> {
    match IndexOf(t, name)
    case Some(k) => Some(t[k].Info())
    case None => None
  }

  /** `delete users[name]` */
  function Remove(t: Table, name: string): Table {
    match IndexOf(t, name)
    case Some(k) => t[..k] + t[k + 1..]
    case None => t
  }

  // ---------------------------------------------------------------- object laws

  /** The dictionary has a key exactly for the names in the table. */
  lemma {:induction false} AsMapKeys(t: Table, name: string)
    ensures name in AsMap(t) <==> IndexOf(t, name).Some?
    decreases |t|
  {
    if t != [] {
      AsMapKeys(t[..|t| - 1], name);
    }
  }

  /** In a keyed table the dictionary holds each entry's own value. */
  lemma {:induction false} AsMapAt(t: Table, k: nat)
    requires Keyed(t) && k < |t|
    ensures t[k].name in AsMap(t) && AsMap(t)[t[k].name] == t[k].Info()
    decreases |t|
  {
    if k < |t| - 1 {
      AsMapAt(t[..|t| - 1], k);
    }
  }

  /** Looking a name up in the table is looking it up in the dictionary. */
  lemma GetMap(t: Table, name: string)
    requires Keyed(t)
    ensures Get(t, name) == if name in AsMap(t) then Some(AsMap(t)[name]) else None
  {
    AsMapKeys(t, name);
    if IndexOf(t, name).Some? {
      AsMapAt(t, IndexOf(t, name).value);
    }
  }

  lemma PutKeyed(t: Table, u: User)
    requires Keyed(t)
    ensures Keyed(Put(t, u))
  {
  }

  /** Setting a key changes that key of the dictionary and no other. */
  lemma {:induction false} PutMap(t: Table, u: User)
    requires Keyed(t)
    ensures AsMap(Put(t, u)) == AsMap(t)[u.name := u.Info()]
  {
    match IndexOf(t, u.name)
    case None =>
      assert (t + [u])[..|t|] == t;
    case Some(k) =>
      ReplaceMap(t, k, u);
  }

  lemma {:induction false} ReplaceMap(t: Table, k: nat, u: User)
    requires Keyed(t) && k < |t| && t[k].name == u.name
    ensures AsMap(t[k := u]) == AsMap(t)[u.name := u.Info()]
    decreases |t|
  {
    var init, last := t[..|t| - 1], t[|t| - 1];
    if k == |t| - 1 {
      assert t[k := u][..|t| - 1] == init;
    } else {
      assert t[k := u][..|t| - 1] == init[k := u];
      ReplaceMap(init, k, u);
      assert last.name != u.name;
    }
  }

  lemma RemoveKeyed(t: Table, name: string)
    requires Keyed(t)
    ensures Keyed(Remove(t, name))
  {
    match IndexOf(t, name)
    case None =>
    case Some(k) =>
      var r := t[..k] + t[k + 1..];
      forall i, j | 0 <= i < j < |r| ensures r[i].name != r[j].name {
        var i' := if i < k then i else i + 1;
        var j' := if j < k then j else j + 1;
        assert r[i] == t[i'] && r[j] == t[j'];
      }
  }

  /** Deleting a key removes it from the dictionary and changes nothing else. */
  lemma RemoveMap(t: Table, name: string)
    requires Keyed(t)
    ensures AsMap(Remove(t, name)) == AsMap(t) - {name}
  {
    AsMapKeys(t, name);
    match IndexOf(t, name)
    case None =>
      assert name !in AsMap(t);
    case Some(k) =>
      RemoveAt(t, k);
  }

  lemma {:induction false} RemoveAt(t: Table, k: nat)
    requires Keyed(t) && k < |t|
    ensures AsMap(t[..k] + t[k + 1..]) == AsMap(t) - {t[k].name}
    decreases |t|
  {
    var init, last, n := t[..|t| - 1], t[|t| - 1], t[k].name;
    if k == |t| - 1 {
      assert t[..k] + t[k + 1..] == init;
      AsMapKeys(init, n);
      assert n !in AsMap(init);
    } else {
      var r := init[..k] + init[k + 1..];
      RemoveAt(init, k);
      assert t[..k] + t[k + 1..] == r + [last];
      assert (r + [last])[..|r|] == r;
      assert last.name != n;
      assert (AsMap(init) - {n})[last.name := last.Info()] == AsMap(init)[last.name := last.Info()] - {n};
    }
  }

  // ---------------------------------------------------------------- key order

  /**
   * An array index in the sense of ECMA-262: the canonical decimal numeral of an
   * integer below 2^32 - 1, as `"0"`, `"7"` or `"42"`, but not `"07"` or `"4294967295"`.
   */
  predicate IsIndexKey(name: string) {
    name != [] && AllDigits(name) && (name[0] != '0' || |name| == 1) && DecimalValue(name) < 0xFFFF_FFFF
  }

  /** The entries whose key is an array index, and the others. */
  const IndexEntry: User -> bool := (u: User) => IsIndexKey(u.name)
  const OtherEntry: User -> bool := (u: User) => !IsIndexKey(u.name)

  /** The number an array-index key stands for; 0 for any other key. */
  function IndexValue(u: User): nat {
    if AllDigits(u.name) then DecimalValue(u.name) else 0
  }

  predicate IndexSorted(s: Table) {
    forall i, j :: 0 <= i < j < |s| ==> IndexValue(s[i]) <= IndexValue(s[j])
  }

  /** `u` placed before the first entry whose number is at least its own. */
  function InsertByIndex(u: User, s: Table): (r: Table)
    ensures |r| == |s| + 1
    ensures forall x :: x in r <==> x == u || x in s
    decreases |s|
  {
    if s == [] || IndexValue(u) <= IndexValue(s[0]) then [u] + s
    else [s[0]] + InsertByIndex(u, s[1..])
  }

  /** Insertion sort on the key's number. */
  function SortByIndex(s: Table): (r: Table)
    ensures |r| == |s|
    ensures forall x :: x in r <==> x in s
    decreases |s|
  {
    if s == [] then [] else InsertByIndex(s[0], SortByIndex(s[1..]))
  }

  /**
   * The order in which `Object.keys` lists the keys of the users object
   * (OrdinaryOwnPropertyKeys, section 10.1.11.1 of ECMA-262, 2023 edition): the
   * array-index keys in ascending numeric order, then every other key in the order
   * it was added.
   */
  function KeyOrder(t: Table): Table {
    SortByIndex(Filter(t, IndexEntry)) + Filter(t, OtherEntry)
  }

  lemma IndexSortedCons(h: User, t: Table)
    ensures IndexSorted([h] + t) <==> IndexSorted(t) && forall x :: x in t ==> IndexValue(h) <= IndexValue(x)
  {
    var s := [h] + t;
    if IndexSorted(t) && forall x :: x in t ==> IndexValue(h) <= IndexValue(x) {
      forall i, j | 0 <= i < j < |s| ensures IndexValue(s[i]) <= IndexValue(s[j]) {
        assert s[j] == t[j - 1] && s[j] in t;
        if i > 0 {
          assert s[i] == t[i - 1];
        }
      }
    }
    if IndexSorted(s) {
      forall i, j | 0 <= i < j < |t| ensures IndexValue(t[i]) <= IndexValue(t[j]) {
        assert t[i] == s[i + 1] && t[j] == s[j + 1];
      }
      forall x | x in t ensures IndexValue(h) <= IndexValue(x) {
        var k :| 0 <= k < |t| && t[k] == x;
        assert s[0] == h && s[k + 1] == x;
      }
    }
  }

  lemma {:induction false} InsertByIndexSorted(u: User, s: Table)
    requires IndexSorted(s)
    ensures IndexSorted(InsertByIndex(u, s))
    decreases |s|
  {
    if s == [] {
      IndexSortedCons(u, s);
    } else {
      assert s == [s[0]] + s[1..];
      IndexSortedCons(s[0], s[1..]);
      if IndexValue(u) <= IndexValue(s[0]) {
        IndexSortedCons(u, s);
      } else {
        InsertByIndexSorted(u, s[1..]);
        IndexSortedCons(s[0], InsertByIndex(u, s[1..]));
      }
    }
  }

  /** Sorting leaves the numbers in ascending order. */
  lemma {:induction false} SortByIndexSorted(s: Table)
    ensures IndexSorted(SortByIndex(s))
    decreases |s|
  {
    if s != [] {
      SortByIndexSorted(s[1..]);
      InsertByIndexSorted(s[0], SortByIndex(s[1..]));
    }
  }

  /** Sorting what is already sorted changes nothing. */
  lemma {:induction false} SortByIndexOfSorted(s: Table)
    requires IndexSorted(s)
    ensures SortByIndex(s) == s
    decreases |s|
  {
    if s != [] {
      assert s == [s[0]] + s[1..];
      IndexSortedCons(s[0], s[1..]);
      SortByIndexOfSorted(s[1..]);
      if s[1..] != [] {
        assert s[1..][0] in s[1..];
      }
    }
  }

  lemma KeyedCons(h: User, t: Table)
    ensures Keyed([h] + t) <==> Keyed(t) && forall x :: x in t ==> x.name != h.name
  {
    var s := [h] + t;
    if Keyed(t) && forall x :: x in t ==> x.name != h.name {
      forall i, j | 0 <= i < j < |s| ensures s[i].name != s[j].name {
        assert s[j] == t[j - 1] && s[j] in t;
        if i > 0 {
          assert s[i] == t[i - 1];
        }
      }
    }
    if Keyed(s) {
      forall i, j | 0 <= i < j < |t| ensures t[i].name != t[j].name {
        assert t[i] == s[i + 1] && t[j] == s[j + 1];
      }
      forall x | x in t ensures x.name != h.name {
        var k :| 0 <= k < |t| && t[k] == x;
        assert s[0] == h && s[k + 1] == x;
      }
    }
  }

  lemma {:induction false} InsertByIndexKeyed(u: User, s: Table)
    requires Keyed(s) && forall x :: x in s ==> x.name != u.name
    ensures Keyed(InsertByIndex(u, s))
    decreases |s|
  {
    if s == [] || IndexValue(u) <= IndexValue(s[0]) {
      KeyedCons(u, s);
    } else {
      assert s == [s[0]] + s[1..];
      KeyedCons(s[0], s[1..]);
      InsertByIndexKeyed(u, s[1..]);
      KeyedCons(s[0], InsertByIndex(u, s[1..]));
    }
  }

  /** Sorting keeps the names distinct. */
  lemma {:induction false} SortByIndexKeyed(s: Table)
    requires Keyed(s)
    ensures Keyed(SortByIndex(s))
    decreases |s|
  {
    if s != [] {
      assert s == [s[0]] + s[1..];
      KeyedCons(s[0], s[1..]);
      SortByIndexKeyed(s[1..]);
      InsertByIndexKeyed(s[0], SortByIndex(s[1..]));
    }
  }

  /** Filtering an object keeps its keys distinct. */
  lemma {:induction false} FilterKeyed(t: Table, p: User -> bool)
    requires Keyed(t)
    ensures Keyed(Filter(t, p))
    decreases |t|
  {
    if t != [] {
      var init, x := t[..|t| - 1], t[|t| - 1];
      FilterKeyed(init, p);
      var fi := Filter(init, p);
      forall k | 0 <= k < |fi| ensures fi[k].name != x.name {
        assert fi[k] in init;
      }
      if p(x) {
        FilterSnocKeep(init, x, p);
      } else {
        FilterSnocSkip(init, x, p);
      }
      assert init + [x] == t;
    }
  }

  lemma KeyedAppend(a: Table, b: Table)
    requires Keyed(a) && Keyed(b)
    requires forall x, y :: x in a && y in b ==> x.name != y.name
    ensures Keyed(a + b)
  {
    var s := a + b;
    forall i, j | 0 <= i < j < |s| ensures s[i].name != s[j].name {
      if j < |a| {
        assert s[i] == a[i] && s[j] == a[j];
      } else if i < |a| {
        assert s[i] == a[i] && s[i] in a && s[j] == b[j - |a|] && s[j] in b;
      } else {
        assert s[i] == b[i - |a|] && s[j] == b[j - |a|];
      }
    }
  }

  /** `Object.keys` lists each key once, and lists every key. */
  lemma KeyOrderMembers(t: Table)
    ensures forall x :: x in KeyOrder(t) <==> x in t
  {
    forall x | x in t ensures x in KeyOrder(t) {
      if IsIndexKey(x.name) {
        assert x in Filter(t, IndexEntry);
      } else {
        assert x in Filter(t, OtherEntry);
      }
    }
  }

  lemma KeyOrderKeyed(t: Table)
    requires Keyed(t)
    ensures Keyed(KeyOrder(t))
  {
    var a, b := SortByIndex(Filter(t, IndexEntry)), Filter(t, OtherEntry);
    FilterKeyed(t, IndexEntry);
    SortByIndexKeyed(Filter(t, IndexEntry));
    FilterKeyed(t, OtherEntry);
    KeyedAppend(a, b);
  }

  /** Two keyed tables with the same entries are the same object. */
  lemma SameEntriesMap(a: Table, b: Table)
    requires Keyed(a) && Keyed(b)
    requires forall x :: x in a <==> x in b
    ensures AsMap(a) == AsMap(b)
  {
    forall n ensures n in AsMap(a) ==> n in AsMap(b) && AsMap(a)[n] == AsMap(b)[n] {
      AsMapKeys(a, n);
      if n in AsMap(a) {
        var k := IndexOf(a, n).value;
        AsMapAt(a, k);
        assert a[k] in b;
        var j :| 0 <= j < |b| && b[j] == a[k];
        AsMapAt(b, j);
      }
    }
    forall n | n in AsMap(b) ensures n in AsMap(a) {
      AsMapKeys(b, n);
      var k := IndexOf(b, n).value;
      AsMapAt(b, k);
      assert b[k] in a;
      var j :| 0 <= j < |a| && a[j] == b[k];
      AsMapAt(a, j);
    }
  }

  /** Listing the keys in `Object.keys` order is listing the same object. */
  lemma KeyOrderMap(t: Table)
    requires Keyed(t)
    ensures AsMap(KeyOrder(t)) == AsMap(t)
  {
    KeyOrderKeyed(t);
    KeyOrderMembers(t);
    SameEntriesMap(KeyOrder(t), t);
  }

  lemma KeyOrderClean(t: Table)
    requires Clean(t)
    ensures Clean(KeyOrder(t))
  {
    KeyOrderKeyed(t);
    KeyOrderMembers(t);
    var o := KeyOrder(t);
    forall i | 0 <= i < |o| ensures CleanUser(o[i]) {
      assert o[i] in t;
      var k :| 0 <= k < |t| && t[k] == o[i];
    }
  }

  /** The first part of `KeyOrder` holds only array-index keys. */
  lemma KeyOrderIndexPart(t: Table)
    ensures var a := SortByIndex(Filter(t, IndexEntry)); forall i :: 0 <= i < |a| ==> IndexEntry(a[i])
  {
    var a := SortByIndex(Filter(t, IndexEntry));
    forall i | 0 <= i < |a| ensures IndexEntry(a[i]) {
      assert a[i] in a;
    }
  }

  /**
   * The shape of `Object.keys` order: the same entries; every array-index key comes
   * before every other key, and the index keys ascend; the other keys keep the order
   * of the table.
   */
  lemma KeyOrderSpec(t: Table)
    ensures var k := KeyOrder(t);
      (forall x :: x in k <==> x in t) &&
      (forall i, j :: 0 <= i < j < |k| && IsIndexKey(k[j].name) ==>
         IsIndexKey(k[i].name) && IndexValue(k[i]) <= IndexValue(k[j])) &&
      Filter(k, OtherEntry) == Filter(t, OtherEntry)
  {
    KeyOrderMembers(t);
    KeyOrderIndexFirst(t);
    KeyOrderOthers(t);
  }

  lemma KeyOrderIndexFirst(t: Table)
    ensures var k := KeyOrder(t);
      forall i, j :: 0 <= i < j < |k| && IsIndexKey(k[j].name) ==>
        IsIndexKey(k[i].name) && IndexValue(k[i]) <= IndexValue(k[j])
  {
    var a, b := SortByIndex(Filter(t, IndexEntry)), Filter(t, OtherEntry);
    var k := a + b;
    KeyOrderIndexPart(t);
    SortByIndexSorted(Filter(t, IndexEntry));
    assert forall m :: |a| <= m < |k| ==> k[m] == b[m - |a|] && OtherEntry(b[m - |a|]);
    forall i, j | 0 <= i < j < |k| && IsIndexKey(k[j].name)
      ensures IsIndexKey(k[i].name) && IndexValue(k[i]) <= IndexValue(k[j])
    {
      assert k[i] == a[i] && k[j] == a[j] && IndexEntry(a[i]);
    }
  }

  lemma KeyOrderOthers(t: Table)
    ensures Filter(KeyOrder(t), OtherEntry) == Filter(t, OtherEntry)
  {
    var a, b := SortByIndex(Filter(t, IndexEntry)), Filter(t, OtherEntry);
    KeyOrderIndexPart(t);
    FilterConcat(a, b, OtherEntry);
    FilterNone(a, OtherEntry);
    FilterAll(b, OtherEntry);
    assert [] + b == b;
  }

  /** When no username is an array index, `Object.keys` order is insertion order. */
  lemma KeyOrderPlain(t: Table)
    requires forall i :: 0 <= i < |t| ==> !IsIndexKey(t[i].name)
    ensures KeyOrder(t) == t
  {
    FilterNone(t, IndexEntry);
    FilterAll(t, OtherEntry);
    assert [] + t == t;
  }

  /** A numeric username added after `admin` is still listed and written first. */
  lemma KeyOrderNumericFirst()
    ensures KeyOrder([User("admin", "h1", false), User("7", "h2", false)])
      == [User("7", "h2", false), User("admin", "h1", false)]
  {
    var admin, seven := User("admin", "h1", false), User("7", "h2", false);
    assert !IsDigit('a');
    assert !IsIndexKey(admin.name);
    assert DecimalValue("7") == 7 by {
      assert "7"[..0] == [];
    }
    assert IsIndexKey(seven.name);
    assert [admin, seven][..1] == [admin];
    assert [admin][..0] == [];
    assert Filter([admin, seven], IndexEntry) == [seven];
    assert Filter([admin, seven], OtherEntry) == [admin];
  }

  /** Listing the keys of a listing in `Object.keys` order changes nothing. */
  lemma KeyOrderTwice(t: Table)
    ensures KeyOrder(KeyOrder(t)) == KeyOrder(t)
  {
    var a, b := SortByIndex(Filter(t, IndexEntry)), Filter(t, OtherEntry);
    KeyOrderIndexPart(t);
    FilterConcat(a, b, IndexEntry);
    FilterConcat(a, b, OtherEntry);
    FilterAll(a, IndexEntry);
    FilterNone(b, IndexEntry);
    FilterNone(a, OtherEntry);
    FilterAll(b, OtherEntry);
    SortByIndexSorted(Filter(t, IndexEntry));
    SortByIndexOfSorted(a);
    assert a + [] == a;
    assert [] + b == b;
  }

  // ---------------------------------------------------------------- reading the file

  /** The header written by the server. */
  const Header := "username,password,suspended"

  /** The first line is a header when, trimmed and lower-cased, it starts with "username". */
  predicate IsHeader(line: string) {
    StartsWith(ToLower(Trim(line)), "username")
  }

  /**
   * The user a non-blank line describes: comma-separated, trimmed; suspended only
   * for exactly `true`. `None` when the username field is empty.
   */
  function UserOfLine(line: string): Option<User> {
    var parts := Split(Trim(line), {','});
    var name := Trim(parts[0]);
    if name == [] then None
    else Some(User(name, Trim(Field(parts, 1)), Trim(Field(parts, 2)) == "true"))
  }

  /** What one line of the file does to the users object; `first` marks line 0. */
  function Step(t: Table, line: string, first: bool): Table {
    if !NonBlank(line) || (first && IsHeader(line)) then t
    else match UserOfLine(line)
      case None => t
      case Some(u) => Put(t, u)
  }

  /** The users object after the first `n` lines. */
  function ParsePrefix(lines: seq<string>, n: nat): Table
    requires n <= |lines|
  {
    if n == 0 then [] else Step(ParsePrefix(lines, n - 1), lines[n - 1], n == 1)
  }

  function ParseUsers(lines: seq<string>): Table {
    ParsePrefix(lines, |lines|)
  }

  /** What `loadUsersFromCsv` returns for the file (empty when it is missing). */
  function UsersOf(file: Option<string>): Table {
    match file
    case None => []
    case Some(text) => ParseUsers(Lines(text))
  }

  /** A field that survives being written into a line and read back. */
  predicate CleanField(s: string) {
    Free(s, {',', '\n'}) && Trimmed(s)
  }

  predicate CleanUser(u: User) {
    u.name != [] && CleanField(u.name) && CleanField(u.password)
  }

  /** A users object that the file format can hold exactly. */
  predicate Clean(t: Table) {
    Keyed(t) && forall i :: 0 <= i < |t| ==> CleanUser(t[i])
  }

  lemma CleanPut(t: Table, u: User)
    requires Clean(t) && CleanUser(u)
    ensures Clean(Put(t, u))
  {
    PutKeyed(t, u);
    var r := Put(t, u);
    forall i | 0 <= i < |r| ensures CleanUser(r[i]) {
      PutAt(t, u, i);
    }
  }

  /** Every entry after a put is the new user or an entry from before. */
  lemma PutAt(t: Table, u: User, i: nat)
    requires i < |Put(t, u)|
    ensures Put(t, u)[i] == u || (i < |t| && Put(t, u)[i] == t[i])
  {
  }

  lemma TrimClean(f: string)
    requires Free(f, {','}) && Free(f, {'\n'})
    ensures CleanField(Trim(f))
  {
    forall j | 0 <= j < |f| ensures f[j] !in {',', '\n'} {
      assert f[j] !in {','} && f[j] !in {'\n'};
    }
    TrimChars(f, {',', '\n'});
  }

  /** A line without a newline describes a clean user, if any. */
  lemma UserOfLineClean(line: string)
    requires Free(line, {'\n'})
    ensures UserOfLine(line).Some? ==> CleanUser(UserOfLine(line).value)
  {
    var l := Trim(line);
    TrimChars(line, {'\n'});
    var parts := Split(l, {','});
    SplitFree(l, {','});
    SplitKeepsFree(l, {','}, {'\n'});
    TrimClean(parts[0]);
    if |parts| > 1 {
      TrimClean(parts[1]);
    } else {
      assert Field(parts, 1) == "";
    }
  }

  lemma StepClean(t: Table, line: string, first: bool)
    requires Clean(t) && Free(line, {'\n'})
    ensures Clean(Step(t, line, first))
  {
    UserOfLineClean(line);
    var u := UserOfLine(line);
    if u.Some? {
      CleanPut(t, u.value);
    }
  }

  /** Whatever the file holds, loading it gives a clean table: non-empty, trimmed, unique names. */
  lemma {:induction false} ParsedClean(lines: seq<string>, n: nat)
    requires n <= |lines|
    requires forall i :: 0 <= i < |lines| ==> Free(lines[i], {'\n'})
    ensures Clean(ParsePrefix(lines, n))
  {
    if n > 0 {
      ParsedClean(lines, n - 1);
      StepClean(ParsePrefix(lines, n - 1), lines[n - 1], n == 1);
    }
  }

  lemma UsersOfClean(file: Option<string>)
    ensures Clean(UsersOf(file))
  {
    if file.Some? {
      LinesFree(file.value);
      ParsedClean(Lines(file.value), |Lines(file.value)|);
    }
  }

  /** Parsing looks at the first `n` lines only. */
  lemma {:induction false} ParsePrefixLocal(a: seq<string>, b: seq<string>, n: nat)
    requires n <= |a| && n <= |b| && a[..n] == b[..n]
    ensures ParsePrefix(a, n) == ParsePrefix(b, n)
  {
    if n > 0 {
      assert a[n - 1] == a[..n][n - 1] == b[n - 1];
      ParsePrefixLocal(a, b, n - 1);
    }
  }

  // ---------------------------------------------------------------- writing the file

  function Flag(b: bool): string {
    if b then "true" else "false"
  }

  /** The line `${u},${item.password},${item.suspended ? 'true' : 'false'}`. */
  function UserLine(u: User): string {
    u.name + "," + u.password + "," + Flag(u.suspended)
  }

  /** The header, then one line per entry of `t`, in the order of `t`. */
  function WrittenLines(t: Table): seq<string> {
    [Header] + Map(UserLine, t)
  }

  /**
   * The text `writeAllUsersToCsv` writes: the lines of the keys in `Object.keys`
   * order, with a final newline.
   */
  function UsersText(t: Table): string {
    Join(WrittenLines(KeyOrder(t)), "\n") + "\n"
  }

  lemma FlagClean(b: bool)
    ensures CleanField(Flag(b)) && Flag(b) != []
  {
  }

  /** Three clean fields joined by commas split back into themselves. */
  lemma SplitFields(a: string, b: string, c: string)
    requires CleanField(a) && CleanField(b) && CleanField(c)
    ensures Split(a + "," + b + "," + c, {','}) == [a, b, c]
  {
    Join3(a, b, c, [',']);
    var ps := [a, b, c];
    forall i | 0 <= i < 3 ensures Free(ps[i], {','}) {
      FreeSubset(ps[i], {',', '\n'}, {','});
    }
    SplitJoin(ps, ',', {','});
  }

  lemma UserLineSplits(u: User)
    requires CleanUser(u)
    ensures Trim(UserLine(u)) == UserLine(u)
    ensures Split(Trim(UserLine(u)), {','}) == [u.name, u.password, Flag(u.suspended)]
  {
    var line := UserLine(u);
    var f := Flag(u.suspended);
    FlagClean(u.suspended);
    assert Trimmed(line) by {
      assert line[0] == u.name[0];
      assert line[|line| - 1] == f[|f| - 1];
    }
    TrimNoop(line);
    SplitFields(u.name, u.password, f);
  }

  /** A clean user's line reads back as that user. */
  lemma UserLineParses(u: User)
    requires CleanUser(u)
    ensures Trim(UserLine(u)) == UserLine(u)
    ensures UserOfLine(UserLine(u)) == Some(u)
  {
    UserLineSplits(u);
    var f := Flag(u.suspended);
    FlagClean(u.suspended);
    TrimNoop(u.name);
    TrimNoop(u.password);
    TrimNoop(f);
    assert (f == "true") == u.suspended by {
      assert |"false"| != |"true"|;
    }
  }

  /** The line of a clean user not yet in the table adds that user at the end. */
  lemma StepUserLine(t: Table, u: User)
    requires CleanUser(u) && IndexOf(t, u.name).None?
    ensures Step(t, UserLine(u), false) == t + [u]
  {
    UserLineParses(u);
    TrimEmpty(UserLine(u));
  }

  /** The header line is recognised as a header. */
  lemma HeaderIsHeader()
    ensures IsHeader(Header)
  {
    HeaderTrimmed();
    HeaderLower();
  }

  lemma HeaderTrimmed()
    ensures Trim(Header) == Header
  {
    TrimNoop(Header);
  }

  lemma HeaderLower()
    ensures StartsWith(ToLower(Header), "username")
  {
    var l := ToLower(Header);
    assert l[0] == 'u' && l[1] == 's' && l[2] == 'e' && l[3] == 'r';
    assert l[4] == 'n' && l[5] == 'a' && l[6] == 'm' && l[7] == 'e';
  }

  /** A line added after the first is one more step. */
  lemma ParseSnoc(lines: seq<string>, line: string)
    requires |lines| >= 1
    ensures ParseUsers(lines + [line]) == Step(ParseUsers(lines), line, false)
  {
    var all := lines + [line];
    assert all[..|lines|] == lines;
    ParsePrefixLocal(all, lines, |lines|);
  }

  lemma WrittenSnoc(t: Table, u: User)
    ensures WrittenLines(t + [u]) == WrittenLines(t) + [UserLine(u)]
  {
  }

  /** The entries before the last of a clean table are clean and do not hold the last one's name. */
  lemma CleanInit(init: Table, u: User)
    requires Clean(init + [u])
    ensures Clean(init) && CleanUser(u) && IndexOf(init, u.name).None?
  {
    var t := init + [u];
    assert t[|init|] == u;
    forall i, j | 0 <= i < j < |init| ensures init[i].name != init[j].name {
      assert t[i] == init[i] && t[j] == init[j];
    }
    forall k | 0 <= k < |init| ensures CleanUser(init[k]) && init[k].name != u.name {
      assert t[k] == init[k];
    }
  }

  /** The written lines of a clean table parse back to that table. */
  lemma {:induction false} ParseWritten(t: Table)
    requires Clean(t)
    ensures ParseUsers(WrittenLines(t)) == t
    decreases |t|
  {
    if t == [] {
      assert WrittenLines(t) == [Header];
      assert ParsePrefix([Header], 0) == [];
      HeaderIsHeader();
    } else {
      var init, u := t[..|t| - 1], t[|t| - 1];
      assert init + [u] == t;
      CleanInit(init, u);
      WrittenSnoc(init, u);
      ParseSnoc(WrittenLines(init), UserLine(u));
      ParseWritten(init);
      StepUserLine(init, u);
    }
  }

  lemma UserLineShape(u: User)
    requires CleanUser(u)
    ensures Free(UserLine(u), {'\n'}) && DropCR(UserLine(u)) == UserLine(u)
  {
    var f := Flag(u.suspended);
    assert UserLine(u) == u.name + ("," + u.password + "," + f);
    assert f[|f| - 1] == 'e';
  }

  /** Loading the lines written for a clean table, in that table's order, gives it back. */
  lemma LoadWritten(o: Table)
    requires Clean(o)
    ensures UsersOf(Some(Join(WrittenLines(o), "\n") + "\n")) == o
  {
    var w := WrittenLines(o);
    forall i | 0 <= i < |w| ensures Free(w[i], {'\n'}) && DropCR(w[i]) == w[i] {
      if i > 0 {
        UserLineShape(o[i - 1]);
      }
    }
    LinesOfJoin(w);
    ParseSnoc(w, "");
    ParseWritten(o);
    assert !NonBlank("");
  }

  /**
   * Writing a clean table and loading the file again gives the same object back,
   * its keys now added in `Object.keys` order.
   */
  lemma WriteThenLoad(t: Table)
    requires Clean(t)
    ensures UsersOf(Some(UsersText(t))) == KeyOrder(t)
    ensures AsMap(UsersOf(Some(UsersText(t)))) == AsMap(t)
  {
    KeyOrderClean(t);
    KeyOrderMap(t);
    LoadWritten(KeyOrder(t));
  }

  /**
   * Loading, writing back and loading again loses nothing, and a second rewrite
   * writes the same text as the first.
   */
  lemma LoadWriteLoad(file: Option<string>)
    ensures UsersOf(Some(UsersText(UsersOf(file)))) == KeyOrder(UsersOf(file))
    ensures AsMap(UsersOf(Some(UsersText(UsersOf(file))))) == AsMap(UsersOf(file))
    ensures UsersText(UsersOf(Some(UsersText(UsersOf(file))))) == UsersText(UsersOf(file))
  {
    UsersOfClean(file);
    WriteThenLoad(UsersOf(file));
    KeyOrderTwice(UsersOf(file));
  }

  /**
   * Appending one line to a file that ends with a newline acts on the loaded
   * table as that line alone would (the line is never taken for the header).
   */
  lemma AppendLine(text: string, line: string)
    requires |text| > 0 && text[|text| - 1] == '\n'
    requires Free(line, {'\n'})
    ensures UsersOf(Some(text + line + "\n")) == Step(UsersOf(Some(text)), DropCR(line), false)
  {
    var before := Lines(text);
    LinesAppend(text, line);
    LinesEndEmpty(text);
    var p := before[..|before| - 1];
    assert before == p + [""];
    assert Lines(text + line + "\n") == p + [DropCR(line)] + [""];
    assert !NonBlank("");
    ParseSnoc(p, "");
    ParseSnoc(p, DropCR(line));
    ParseSnoc(p + [DropCR(line)], "");
  }

  /** Every table the loader builds is keyed: `Put` keeps each name once. */
  lemma {:induction false} ParsedKeyed(lines: seq<string>, n: nat)
    requires n <= |lines|
    ensures Keyed(ParsePrefix(lines, n))
  {
    if n > 0 {
      ParsedKeyed(lines, n - 1);
      var t := ParsePrefix(lines, n - 1);
      match UserOfLine(lines[n - 1])
      case None =>
      case Some(u) => PutKeyed(t, u);
    }
  }

  /**
   * A line after the first sets the key of the user it describes, overwriting an
   * earlier line for the same name; a line without a username (blank lines among
   * them) changes nothing.
   */
  lemma ParseLaterLine(lines: seq<string>, line: string)
    requires |lines| >= 1
    ensures var before := AsMap(ParseUsers(lines));
      AsMap(ParseUsers(lines + [line])) ==
        match UserOfLine(line)
        case None => before
        case Some(u) => before[u.name := u.Info()]
  {
    ParseSnoc(lines, line);
    ParsedKeyed(lines, |lines|);
    if !NonBlank(line) {
      TrimEmpty(line);
      assert Split([], {','}) == [[]];
    } else if UserOfLine(line).Some? {
      PutMap(ParseUsers(lines), UserOfLine(line).value);
    }
  }

  /** The first line is skipped when it is a header, and read as a user otherwise. */
  lemma ParseFirstLine(line: string)
    ensures ParseUsers([line]) == if IsHeader(line) then [] else Step([], line, false)
  {
    assert ParsePrefix([line], 0) == [];
  }

  /** Appending a new user's line to a file that ends with a newline adds exactly that user. */
  lemma AppendUser(text: string, u: User)
    requires |text| > 0 && text[|text| - 1] == '\n'
    requires CleanUser(u) && u.name !in AsMap(UsersOf(Some(text)))
    ensures UsersOf(Some(text + UserLine(u) + "\n")) == UsersOf(Some(text)) + [u]
  {
    UserLineShape(u);
    AppendLine(text, UserLine(u));
    AsMapKeys(UsersOf(Some(text)), u.name);
    StepUserLine(UsersOf(Some(text)), u);
  }

  /** No two of the users share a name, and none is a key of `m`. */
  predicate NewNames(us: seq<User>, m: map<string, Account>) {
    (forall i :: 0 <= i < |us| ==> us[i].name !in m) &&
    (forall i, j :: 0 <= i < j < |us| ==> us[i].name != us[j].name)
  }

  /**
   * Appending the lines of several new users, joined by newlines and with a final
   * newline, adds exactly those users, in order.
   */
  lemma {:induction false} AppendUsers(text: string, us: seq<User>)
    requires |text| > 0 && text[|text| - 1] == '\n' && us != []
    requires forall i :: 0 <= i < |us| ==> CleanUser(us[i])
    requires NewNames(us, AsMap(UsersOf(Some(text))))
    ensures UsersOf(Some(text + Join(Map(UserLine, us), "\n") + "\n")) == UsersOf(Some(text)) + us
    decreases |us|
  {
    var init, u := us[..|us| - 1], us[|us| - 1];
    assert init + [u] == us;
    if init == [] {
      assert Map(UserLine, us) == [UserLine(u)];
      AppendUser(text, u);
    } else {
      AppendUsers(text, init);
      AppendUsersSnoc(text, init, u);
    }
  }

  lemma AppendUsersSnoc(text: string, init: seq<User>, u: User)
    requires |text| > 0 && text[|text| - 1] == '\n' && init != []
    requires CleanUser(u) && NewNames(init + [u], AsMap(UsersOf(Some(text))))
    requires UsersOf(Some(text + Join(Map(UserLine, init), "\n") + "\n")) == UsersOf(Some(text)) + init
    ensures UsersOf(Some(text + Join(Map(UserLine, init + [u]), "\n") + "\n")) == UsersOf(Some(text)) + (init + [u])
  {
    var t := UsersOf(Some(text));
    var us := init + [u];
    var ls := Map(UserLine, init);
    var mid := text + Join(ls, "\n") + "\n";
    MapConcat(UserLine, init, [u]);
    assert Map(UserLine, us) == ls + [UserLine(u)];
    JoinSnoc(ls, UserLine(u), "\n");
    var whole := text + Join(Map(UserLine, us), "\n") + "\n";
    var j := Join(ls, "\n");
    assert Join(Map(UserLine, us), "\n") == j + "\n" + UserLine(u);
    Assoc(text, j + "\n", UserLine(u));
    Assoc(text, j, "\n");
    assert whole == mid + UserLine(u) + "\n";
    assert forall i :: 0 <= i < |init| ==> init[i].name != u.name by {
      forall i | 0 <= i < |init| ensures init[i].name != u.name {
        assert us[i] == init[i] && us[|init|] == u;
      }
    }
    assert u.name !in AsMap(t) by {
      assert us[|init|] == u;
    }
    NewUserAfter(t, init, u);
    AppendUser(mid, u);
    assert UsersOf(Some(whole)) == (t + init) + [u];
    Assoc(t, init, [u]);
  }

  lemma NewUserAfter(t: Table, init: seq<User>, u: User)
    requires u.name !in AsMap(t) && forall i :: 0 <= i < |init| ==> init[i].name != u.name
    ensures u.name !in AsMap(t + init)
  {
    AsMapKeys(t, u.name);
    AsMapKeys(t + init, u.name);
    assert forall k :: 0 <= k < |t + init| ==> (t + init)[k] == if k < |t| then t[k] else init[k - |t|];
  }

  /**
   * As written, `/admin/create` rejects a username only when it is a key of the
   * users object verbatim, but the loader trims what it reads back: a request whose
   * username is an existing key preceded by a space is accepted, and the appended
   * line then overwrites that existing user.
   */
  lemma PaddedNameOverwrites(text: string, u: User)
    requires |text| > 0 && text[|text| - 1] == '\n'
    requires CleanUser(u) && u.name in AsMap(UsersOf(Some(text)))
    ensures " " + u.name !in AsMap(UsersOf(Some(text)))
    ensures var line := (" " + u.name) + "," + u.password + "," + Flag(u.suspended);
      AsMap(UsersOf(Some(text + line + "\n"))) == AsMap(UsersOf(Some(text)))[u.name := u.Info()]
  {
    var t := UsersOf(Some(text));
    var line := (" " + u.name) + "," + u.password + "," + Flag(u.suspended);
    assert line == " " + UserLine(u);
    UsersOfClean(Some(text));
    KeysClean(t, " " + u.name);
    UserLineShape(u);
    assert Free(line, {'\n'});
    AppendLine(text, line);
    assert DropCR(line) == line;
    PaddedLine(u);
    TrimEmpty(line);
    ParsedKeyed(Lines(text), |Lines(text)|);
    PutMap(t, u);
  }

  /** A loaded table without one of its keys is still one the file format holds exactly. */
  lemma RemoveClean(t: Table, name: string)
    requires Clean(t)
    ensures Clean(Remove(t, name))
  {
    RemoveKeyed(t, name);
    match IndexOf(t, name)
    case None =>
    case Some(k) =>
      var r := t[..k] + t[k + 1..];
      forall i | 0 <= i < k ensures CleanUser(r[i]) {
        assert r[i] == t[i];
      }
      forall i | k <= i < |r| ensures CleanUser(r[i]) {
        assert r[i] == t[i + 1];
      }
  }

  /** A key of a loaded table is trimmed, so a name with a leading space is never one. */
  lemma KeysClean(t: Table, name: string)
    requires Clean(t) && name != [] && IsSpace(name[0])
    ensures name !in AsMap(t)
  {
    AsMapKeys(t, name);
  }

  lemma PaddedLine(u: User)
    requires CleanUser(u)
    ensures UserOfLine(" " + UserLine(u)) == Some(u)
  {
    UserLineParses(u);
    var l := UserLine(u);
    assert (" " + l)[1..] == l;
    assert TrimStart(" " + l) == TrimStart(l);
  }
}
