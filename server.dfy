/**
 * The Express server of the client-management application (Clientes/server.js) with
 * its three flat files as the state of one object: the users file usuarios.csv, the
 * clients file clientes.csv and the vehicles file vehiculos.csv, each `None` while it
 * does not exist. Every handler is a method; the status code it answers with is its
 * result. bcrypt's `compareSync` and `hashSync` are the functions `compare` and `hash`.
 */
module Server {
  import opened Wrappers
  import opened Seqs
  import opened Text
  import opened Users
  import opened Clients
  import opened Vehicles

  /** One entry of the `/admin/list` answer. */
  datatype ListEntry = ListEntry(username: string, suspended: bool)

  function EntryOf(u: User): ListEntry {
    ListEntry(u.name, u.suspended)
  }

  /** `Object.keys(users).map(u => ({ username: u, suspended: users[u].suspended }))` */
  function Listing(t: Table): seq<ListEntry> {
    Map(EntryOf, KeyOrder(t))
  }

  /** The listing names every user once, with that user's suspended flag, and no one else. */
  lemma ListingSpec(t: Table)
    requires Keyed(t)
    ensures var l := Listing(t);
      (forall i, j :: 0 <= i < j < |l| ==> l[i].username != l[j].username) &&
      (forall i :: 0 <= i < |l| ==> l[i].username in AsMap(t) && l[i].suspended == AsMap(t)[l[i].username].suspended) &&
      (forall n :: n in AsMap(t) ==> exists i :: 0 <= i < |l| && l[i].username == n)
  {
    var l, o := Listing(t), KeyOrder(t);
    KeyOrderKeyed(t);
    KeyOrderMap(t);
    forall i | 0 <= i < |l|
      ensures l[i].username in AsMap(t) && l[i].suspended == AsMap(t)[l[i].username].suspended
    {
      AsMapAt(o, i);
    }
    forall n | n in AsMap(t) ensures exists i :: 0 <= i < |l| && l[i].username == n {
      AsMapKeys(o, n);
      var k := IndexOf(o, n).value;
      assert l[k].username == n;
    }
  }

  // ---------------------------------------------------------------- default users

  const AdminDefault: User := User("admin", "Admin123", false)
  /** The pairs `Martin,Martin`, `Mateo,Mateo` and `Dario,Dario`, each added with `,false`. */
  const DefaultUsers: seq<User> := [User("Martin", "Martin", false), User("Mateo", "Mateo", false), User("Dario", "Dario", false)]
  /** What a missing users file is created with. */
  const NewUsersFile: string := "username,password\n"

  /** Whether a default user is still missing from the users object. */
  function Absent(m: map<string, Account>): User -> bool {
    (u: User) => u.name !in m
  }

  /** The users `ensureUsersCsv` adds: the admin when none of its spellings exists, then every missing default. */
  function ToAdd(m: map<string, Account>): seq<User> {
    AdminPart(m) + Filter(DefaultUsers, Absent(m))
  }

  /** The admin, when none of its spellings is a key. */
  function AdminPart(m: map<string, Account>): seq<User> {
    if "admin" !in m && "Admmin" !in m && "Admin" !in m then [AdminDefault] else []
  }

  /** The lines to add are the admin's line, if any, then the missing defaults' lines. */
  lemma ToAddLines(m: map<string, Account>)
    ensures Map(UserLine, ToAdd(m)) == Map(UserLine, AdminPart(m)) + Map(UserLine, Filter(DefaultUsers, Absent(m)))
  {
    MapConcat(UserLine, AdminPart(m), Filter(DefaultUsers, Absent(m)));
  }

  /** The users file after `ensureUsersCsv`. */
  function EnsuredUsers(file: Option<string>): string {
    var base := file.GetOr(NewUsersFile);
    var add := ToAdd(AsMap(UsersOf(Some(base))));
    if add == [] then base else base + Join(Map(UserLine, add), "\n") + "\n"
  }

  lemma DefaultsClean()
    ensures CleanUser(AdminDefault)
    ensures forall u :: u in DefaultUsers ==> CleanUser(u)
  {
    var cs := {',', '\n'};
    assert Free("admin", cs) && Free("Admin123", cs) && Free("Martin", cs) && Free("Mateo", cs) && Free("Dario", cs);
    assert Trimmed("admin") && Trimmed("Admin123") && Trimmed("Martin") && Trimmed("Mateo") && Trimmed("Dario");
  }

  /** The default names are distinct from each other and from the admin's. */
  lemma DefaultNames()
    ensures forall i, j :: 0 <= i < j < |DefaultUsers| ==> DefaultUsers[i].name != DefaultUsers[j].name
    ensures forall u :: u in DefaultUsers ==> u.name != AdminDefault.name
  {
    var d := DefaultUsers;
    assert d[0].name[0] != d[2].name[0] && d[1].name[0] != d[2].name[0];
    assert d[0].name[2] != d[1].name[2];
    assert d[0].name[0] != 'a' && d[1].name[0] != 'a' && d[2].name[0] != 'a';
  }

  lemma NewNamesCons(u: User, us: seq<User>, m: map<string, Account>)
    requires NewNames(us, m) && u.name !in m
    requires forall x :: x in us ==> x.name != u.name
    ensures NewNames([u] + us, m)
  {
    var r := [u] + us;
    forall i | 1 <= i < |r| ensures r[i] == us[i - 1] && r[i] in us { }
  }

  /** The added users have fresh, distinct names. */
  lemma ToAddNew(m: map<string, Account>)
    ensures NewNames(ToAdd(m), m)
  {
    var f := Filter(DefaultUsers, Absent(m));
    DefaultNames();
    FilterKeyed(DefaultUsers, Absent(m));
    assert NewNames(f, m);
    if "admin" !in m && "Admmin" !in m && "Admin" !in m {
      NewNamesCons(AdminDefault, f, m);
    } else {
      assert ToAdd(m) == f;
    }
  }

  lemma ToAddClean(m: map<string, Account>)
    ensures forall u :: u in ToAdd(m) ==> CleanUser(u)
  {
    DefaultsClean();
    forall u | u in ToAdd(m) ensures CleanUser(u) {
      if u != AdminDefault {
        assert u in Filter(DefaultUsers, Absent(m));
      }
    }
  }

  /**
   * On a file that ends with a newline, or a missing one, `ensureUsersCsv` appends
   * exactly the missing defaults and overwrites no one.
   */
  lemma EnsuredUsersLoad(file: Option<string>)
    requires file.Some? ==> |file.value| > 0 && file.value[|file.value| - 1] == '\n'
    ensures var base := file.GetOr(NewUsersFile); var t := UsersOf(Some(base));
      UsersOf(Some(EnsuredUsers(file))) == t + ToAdd(AsMap(t))
  {
    var base := file.GetOr(NewUsersFile);
    var m := AsMap(UsersOf(Some(base)));
    var add := ToAdd(m);
    if add != [] {
      ToAddClean(m);
      ToAddNew(m);
      forall i | 0 <= i < |add| ensures CleanUser(add[i]) {
        assert add[i] in add;
      }
      AppendUsers(base, add);
    }
  }

  /** Appending users with new names keeps every old key and adds every new one. */
  lemma {:induction false} AppendKeeps(t: Table, add: seq<User>)
    requires NewNames(add, AsMap(t))
    ensures forall n :: n in AsMap(t) ==> n in AsMap(t + add) && AsMap(t + add)[n] == AsMap(t)[n]
    ensures forall u :: u in add ==> u.name in AsMap(t + add)
    decreases |add|
  {
    if add == [] {
      assert t + add == t;
    } else {
      var init, u := add[..|add| - 1], add[|add| - 1];
      assert NewNames(init, AsMap(t)) by {
        forall i | 0 <= i < |init| ensures init[i] == add[i] { }
      }
      AppendKeeps(t, init);
      assert (t + add)[..|t + add| - 1] == t + init;
      assert AsMap(t + add) == AsMap(t + init)[u.name := u.Info()];
      forall n | n in AsMap(t) ensures n != u.name { }
      forall x | x in add ensures x.name in AsMap(t + add) {
        if x != u {
          assert x in init;
        }
      }
    }
  }

  /** After `ensureUsersCsv`, the defaults exist and every user that existed is unchanged. */
  lemma EnsuredUsersPresent(file: Option<string>)
    requires file.Some? ==> |file.value| > 0 && file.value[|file.value| - 1] == '\n'
    ensures var before := AsMap(UsersOf(Some(file.GetOr(NewUsersFile))));
      var after := AsMap(UsersOf(Some(EnsuredUsers(file))));
      (forall n :: n in before ==> n in after && after[n] == before[n]) &&
      ("admin" in after || "Admmin" in after || "Admin" in after) &&
      (forall u :: u in DefaultUsers ==> u.name in after)
  {
    var t := UsersOf(Some(file.GetOr(NewUsersFile)));
    var m := AsMap(t);
    var add := ToAdd(m);
    EnsuredUsersLoad(file);
    ToAddNew(m);
    AppendKeeps(t, add);
    forall u | u in DefaultUsers && u.name !in m ensures u in add {
      assert u in Filter(DefaultUsers, Absent(m));
    }
    if "admin" !in m && "Admmin" !in m && "Admin" !in m {
      assert AdminDefault in add;
    }
  }

  // ---------------------------------------------------------------- admin operations

  /** `users[username]` after `/admin/update`: a new password only if one is given, a new flag only if a boolean is. */
  function Updated(a: Account, username: string, hashed: Option<string>, suspended: Option<bool>): User {
    User(username, hashed.GetOr(a.password), suspended.GetOr(a.suspended))
  }

  /**
   * After a successful update, the file loads as the old users with only that
   * user's value changed, provided a new hash is a clean field.
   */
  lemma UpdateSpec(file: Option<string>, username: string, hashed: Option<string>, suspended: Option<bool>)
    requires username in AsMap(UsersOf(file))
    requires hashed.Some? ==> CleanField(hashed.value)
    ensures var m := AsMap(UsersOf(file)); var u := Updated(m[username], username, hashed, suspended);
      AsMap(UsersOf(Some(UsersText(Put(UsersOf(file), u))))) == m[username := u.Info()]
  {
    var t := UsersOf(file);
    var m := AsMap(t);
    UsersOfClean(file);
    AsMapKeys(t, username);
    var k := IndexOf(t, username).value;
    AsMapAt(t, k);
    assert CleanUser(t[k]);
    var u := Updated(m[username], username, hashed, suspended);
    CleanPut(t, u);
    WriteThenLoad(Put(t, u));
    PutMap(t, u);
  }

  /** After a successful delete, the file loads as the old users without exactly that key. */
  lemma DeleteSpec(file: Option<string>, username: string)
    ensures AsMap(UsersOf(Some(UsersText(Remove(UsersOf(file), username))))) == AsMap(UsersOf(file)) - {username}
  {
    var t := UsersOf(file);
    UsersOfClean(file);
    RemoveClean(t, username);
    WriteThenLoad(Remove(t, username));
    RemoveMap(t, username);
  }

  /**
   * After a successful create with a clean username, on a file that ends with a
   * newline, the file loads as the old users plus the new one, each other user unchanged.
   */
  lemma CreateSpec(text: string, username: string, hashed: string)
    requires |text| > 0 && text[|text| - 1] == '\n'
    requires username != [] && CleanField(username) && CleanField(hashed)
    requires username !in AsMap(UsersOf(Some(text)))
    ensures AsMap(UsersOf(Some(text + UserLine(User(username, hashed, false)) + "\n")))
      == AsMap(UsersOf(Some(text)))[username := Account(hashed, false)]
  {
    var u := User(username, hashed, false);
    AppendUser(text, u);
    var t := UsersOf(Some(text));
    assert (t + [u])[..|t|] == t;
  }

  // ---------------------------------------------------------------- the loops of the handlers

  /** The loop of `loadUsersFromCsv` over the lines of the file. */
  method ParseLines(lines: seq<string>) returns (users: Table)
    ensures users == ParseUsers(lines)
  {
    users := [];
    var i := 0;
    while i < |lines|
      invariant 0 <= i <= |lines|
      invariant users == ParsePrefix(lines, i)
    {
      users := ReadUserLine(users, lines[i], i == 0);
      i := i + 1;
    }
  }

  /** One pass of the loop of `loadUsersFromCsv`; `first` marks line 0. */
  method ReadUserLine(users: Table, raw: string, first: bool) returns (next: Table)
    ensures next == Step(users, raw, first)
  {
    next := users;
    var line := Trim(raw);
    TrimEmpty(raw);
    if line == [] {
    } else if first && StartsWith(ToLower(line), "username") {
    } else {
      var parts := Split(line, {','});
      var username := Trim(parts[0]);
      var password := Trim(Field(parts, 1));
      var suspended := Trim(Field(parts, 2)) == "true";
      if username != [] {
        next := Put(users, User(username, password, suspended));
      }
    }
  }

  /**
   * The loop of `writeAllUsersToCsv` over `Object.keys(usersObj)`, joined: the
   * header, then one line per key in that order.
   */
  method RenderUsers(users: Table) returns (text: string)
    ensures text == UsersText(users)
  {
    var keys := KeyOrder(users);
    var lines := [Header];
    var i := 0;
    while i < |keys|
      invariant 0 <= i <= |keys|
      invariant lines == WrittenLines(keys[..i])
    {
      RenderStep(keys, i, lines);
      lines := lines + [UserLine(keys[i])];
      i := i + 1;
    }
    assert keys[..i] == keys;
    text := Join(lines, "\n") + "\n";
  }

  /** One more key adds its line. */
  lemma RenderStep(keys: Table, i: nat, lines: seq<string>)
    requires i < |keys| && lines == WrittenLines(keys[..i])
    ensures lines + [UserLine(keys[i])] == WrittenLines(keys[..i + 1])
  {
    assert keys[..i + 1] == keys[..i] + [keys[i]];
    WrittenSnoc(keys[..i], keys[i]);
  }

  /** The `forEach` of `ensureUsersCsv`: a line for each of `pairs` whose name is not a key of `m`. */
  method MissingLines(m: map<string, Account>, pairs: seq<User>) returns (lines: seq<string>)
    ensures lines == Map(UserLine, Filter(pairs, Absent(m)))
  {
    lines := [];
    var i := 0;
    while i < |pairs|
      invariant 0 <= i <= |pairs|
      invariant lines == Map(UserLine, Filter(pairs[..i], Absent(m)))
    {
      var u := pairs[i];
      MissingStep(m, pairs, i, lines);
      if u.name !in m {
        lines := lines + [UserLine(u)];
      }
      i := i + 1;
    }
    assert pairs[..i] == pairs;
  }

  /** One more pair adds its line exactly when its name is not a key. */
  lemma MissingStep(m: map<string, Account>, pairs: seq<User>, i: nat, lines: seq<string>)
    requires i < |pairs| && lines == Map(UserLine, Filter(pairs[..i], Absent(m)))
    ensures (if pairs[i].name !in m then lines + [UserLine(pairs[i])] else lines)
      == Map(UserLine, Filter(pairs[..i + 1], Absent(m)))
  {
    var u := pairs[i];
    assert pairs[..i + 1] == pairs[..i] + [u];
    if u.name !in m {
      FilterSnocKeep(pairs[..i], u, Absent(m));
      MapSnoc(UserLine, Filter(pairs[..i], Absent(m)), u);
    } else {
      FilterSnocSkip(pairs[..i], u, Absent(m));
    }
  }

  /** The lines `ensureUsersCsv` collects for the users object `m`. */
  method MissingDefaults(m: map<string, Account>) returns (toAdd: seq<string>)
    ensures toAdd == Map(UserLine, ToAdd(m))
  {
    toAdd := [];
    if "admin" !in m && "Admmin" !in m && "Admin" !in m {
      toAdd := [UserLine(AdminDefault)];
    }
    assert toAdd == Map(UserLine, AdminPart(m));
    var rest := MissingLines(m, DefaultUsers);
    ToAddLines(m);
    toAdd := toAdd + rest;
  }

  /** The rows of an id-first vehicles file, migrated one by one (lines 52-66). */
  method MigrateOldRows(lineas: seq<string>) returns (nuevas: seq<string>)
    requires |lineas| >= 1
    ensures nuevas == [VehHeader] + MigratedRows(lineas[1..])
  {
    nuevas := [VehHeader];
    var i := 1;
    while i < |lineas|
      invariant 1 <= i <= |lineas|
      invariant nuevas == [VehHeader] + MigratedRows(lineas[1..i])
    {
      var fila := MigrateRow(lineas[i]);
      ghost var rows := MigratedRows(lineas[1..i]);
      MigratedRowsSnoc(lineas, i);
      if fila.Some? {
        Assoc([VehHeader], rows, [fila.value]);
        nuevas := nuevas + [fila.value];
      }
      i := i + 1;
    }
    assert lineas[1..i] == lineas[1..];
  }

  /** The loop of `/vehiculos/next-id` (and of `/vehiculos/crear`) over the file's text. */
  method ScanNextId(content: string) returns (nextId: int)
    ensures nextId == NextIdOf(RowIds(content))
  {
    nextId := 1;
    var lines := Filter(Lines(content), NonBlank);
    if |lines| > 1 {
      ghost var ids := RowIds(content);
      assert |ids| == |lines| - 1;
      var i := 1;
      while i < |lines|
        invariant 1 <= i <= |lines|
        invariant nextId == NextIdOf(ids[..i - 1])
      {
        var idStr := Trim(Split(lines[i], {','})[0]);
        var n := ParseInt(idStr);
        assert n == ids[i - 1] by {
          assert DataLines(content)[i - 1] == lines[i];
        }
        NextIdOfStep(ids, i - 1);
        if n.Some? && n.value >= nextId {
          nextId := n.value + 1;
        }
        i := i + 1;
      }
      assert ids[..i - 1] == ids;
    }
  }

  // ---------------------------------------------------------------- the server state

  class Store {
    var usersCsv: Option<string>
    var clientesCsv: Option<string>
    var vehiculosCsv: Option<string>
    /** `process.env.ADMIN_USERNAME || 'admin'` */
    const adminUsername: string
    /** `bcrypt.compareSync(plain, hash)` */
    const compare: (string, string) -> bool
    /** `bcrypt.hashSync(plain, 10)` */
    const hash: string -> string

    constructor(adminEnv: string, compare: (string, string) -> bool, hash: string -> string,
                users: Option<string>, clientes: Option<string>, vehiculos: Option<string>)
      ensures adminUsername == (if adminEnv == [] then "admin" else adminEnv)
      ensures this.compare == compare && this.hash == hash
      ensures usersCsv == users && clientesCsv == clientes && vehiculosCsv == vehiculos
    {
      adminUsername := if adminEnv == [] then "admin" else adminEnv;
      this.compare := compare;
      this.hash := hash;
      usersCsv := users;
      clientesCsv := clientes;
      vehiculosCsv := vehiculos;
    }

    // -------------------------------------------------------------- the users file

    /** `loadUsersFromCsv` */
    method LoadUsersFromCsv() returns (users: Table)
      ensures users == UsersOf(usersCsv)
    {
      users := [];
      if usersCsv.None? {
        return;
      }
      var lines := Lines(usersCsv.value);
      users := ParseLines(lines);
    }

    /** `writeAllUsersToCsv`: the header and one line per key, in key order. */
    method WriteAllUsersToCsv(users: Table)
      modifies this
      ensures usersCsv == Some(UsersText(users))
      ensures clientesCsv == old(clientesCsv) && vehiculosCsv == old(vehiculosCsv)
    {
      var text := RenderUsers(users);
      usersCsv := Some(text);
    }

    /** `appendUserToCsv`: one line at the end of the file (created if missing). */
    method AppendUserToCsv(username: string, password: string, suspended: bool)
      modifies this
      ensures usersCsv == Some(old(usersCsv).GetOr([]) + UserLine(User(username, password, suspended)) + "\n")
      ensures clientesCsv == old(clientesCsv) && vehiculosCsv == old(vehiculosCsv)
    {
      usersCsv := Some(usersCsv.GetOr([]) + UserLine(User(username, password, suspended)) + "\n");
    }

    /** `ensureUsersCsv` */
    method EnsureUsersCsv()
      modifies this
      ensures usersCsv == Some(EnsuredUsers(old(usersCsv)))
      ensures clientesCsv == old(clientesCsv) && vehiculosCsv == old(vehiculosCsv)
    {
      if usersCsv.None? {
        usersCsv := Some(NewUsersFile);
      }
      var existing := LoadUsersFromCsv();
      var toAdd := MissingDefaults(AsMap(existing));
      if toAdd != [] {
        usersCsv := Some(usersCsv.value + Join(toAdd, "\n") + "\n");
      }
    }

    // -------------------------------------------------------------- decisions over the users file

    /** The names allowed to act as administrator. */
    function AdminNames(): set<string> {
      {adminUsername, "admin", "Admmin", "Admin"}
    }

    /** `checkAdminCredentials`: both values given, an allowed name, an existing user, a matching password. */
    predicate AdminOk(adminUser: string, adminPass: string)
      reads this
    {
      var m := AsMap(UsersOf(usersCsv));
      adminUser != [] && adminPass != [] && adminUser in AdminNames() && adminUser in m
        && compare(adminPass, m[adminUser].password)
    }

    method CheckAdminCredentials(adminUser: string, adminPass: string) returns (ok: bool)
      ensures ok == AdminOk(adminUser, adminPass)
    {
      var users := LoadUsersFromCsv();
      UsersOfClean(usersCsv);
      GetMap(users, adminUser);
      if adminUser == [] || adminPass == [] {
        return false;
      }
      if adminUser !in AdminNames() {
        return false;
      }
      var entry := Get(users, adminUser);
      if entry.None? {
        return false;
      }
      ok := compare(adminPass, entry.value.password);
    }

    /** `/login` */
    method Login(username: string, password: string) returns (status: int)
      ensures var m := AsMap(UsersOf(usersCsv));
        && (status == 400 <==> username == [] || password == [])
        && (status == 200 <==> username != [] && password != [] && username in m
                               && compare(password, m[username].password) && !m[username].suspended)
        && (status == 403 <==> username != [] && password != [] && username in m
                               && compare(password, m[username].password) && m[username].suspended)
        && (status == 401 <==> username != [] && password != []
                               && !(username in m && compare(password, m[username].password)))
    {
      if username == [] || password == [] {
        return 400;
      }
      var users := LoadUsersFromCsv();
      UsersOfClean(usersCsv);
      GetMap(users, username);
      var entry := Get(users, username);
      if entry.Some? && compare(password, entry.value.password) {
        if entry.value.suspended {
          return 403;
        }
        return 200;
      }
      return 401;
    }

    /** `/admin/authenticate` */
    method AdminAuthenticate(adminUser: string, adminPass: string) returns (status: int)
      ensures status == 200 || status == 401
      ensures status == 200 <==> AdminOk(adminUser, adminPass)
    {
      var ok := CheckAdminCredentials(adminUser, adminPass);
      status := if ok then 200 else 401;
    }

    /** `/admin/list` */
    method AdminList(adminUser: string, adminPass: string) returns (status: int, list: seq<ListEntry>)
      ensures status == 200 || status == 401
      ensures status == 200 <==> AdminOk(adminUser, adminPass)
      ensures list == if status == 200 then Listing(UsersOf(usersCsv)) else []
    {
      var ok := CheckAdminCredentials(adminUser, adminPass);
      if !ok {
        return 401, [];
      }
      var users := LoadUsersFromCsv();
      return 200, Listing(users);
    }

    /**
     * `/admin/create` as written: 401 without valid credentials, 400 without a
     * username or password, 409 when the username is a key already, otherwise the
     * line `username,hash,false` is appended and the answer is 201.
     */
    method AdminCreate(adminUser: string, adminPass: string, username: string, password: string)
      returns (status: int)
      modifies this
      ensures var m := AsMap(UsersOf(old(usersCsv)));
        var ok := old(AdminOk(adminUser, adminPass));
        && (status == 401 <==> !ok)
        && (status == 400 <==> ok && (username == [] || password == []))
        && (status == 409 <==> ok && username != [] && password != [] && username in m)
        && (status == 201 <==> ok && username != [] && password != [] && username !in m)
      ensures status != 201 ==> usersCsv == old(usersCsv)
      ensures status == 201 ==> usersCsv == Some(old(usersCsv).GetOr([]) + UserLine(User(username, hash(password), false)) + "\n")
      ensures clientesCsv == old(clientesCsv) && vehiculosCsv == old(vehiculosCsv)
    {
      var ok := CheckAdminCredentials(adminUser, adminPass);
      if !ok {
        return 401;
      }
      if username == [] || password == [] {
        return 400;
      }
      var users := LoadUsersFromCsv();
      UsersOfClean(usersCsv);
      GetMap(users, username);
      if Get(users, username).Some? {
        return 409;
      }
      var hashed := hash(password);
      AppendUserToCsv(username, hashed, false);
      return 201;
    }

    /**
     * `/admin/create` with the username checked against what the file can hold: a
     * username that is not trimmed or holds a comma or a line break is refused with
     * 400, so a 201 adds exactly one new user and leaves every other user unchanged.
     */
    method AdminCreateChecked(adminUser: string, adminPass: string, username: string, password: string)
      returns (status: int)
      modifies this
      ensures var m := AsMap(UsersOf(old(usersCsv)));
        var ok := old(AdminOk(adminUser, adminPass));
        && (status == 401 <==> !ok)
        && (status == 400 <==> ok && (username == [] || password == [] || !CleanField(username)))
        && (status == 409 <==> ok && username != [] && password != [] && CleanField(username) && username in m)
        && (status == 201 <==> ok && username != [] && password != [] && CleanField(username) && username !in m)
      ensures status != 201 ==> usersCsv == old(usersCsv)
      ensures status == 201 ==> usersCsv == Some(old(usersCsv).GetOr([]) + UserLine(User(username, hash(password), false)) + "\n")
      ensures status == 201 && old(usersCsv).Some? && |old(usersCsv).value| > 0
              && old(usersCsv).value[|old(usersCsv).value| - 1] == '\n' && CleanField(hash(password))
              ==> AsMap(UsersOf(usersCsv)) == AsMap(UsersOf(old(usersCsv)))[username := Account(hash(password), false)]
      ensures clientesCsv == old(clientesCsv) && vehiculosCsv == old(vehiculosCsv)
    {
      var ok := CheckAdminCredentials(adminUser, adminPass);
      if !ok {
        return 401;
      }
      if username == [] || password == [] || !CleanField(username) {
        return 400;
      }
      var users := LoadUsersFromCsv();
      UsersOfClean(usersCsv);
      GetMap(users, username);
      if Get(users, username).Some? {
        return 409;
      }
      var hashed := hash(password);
      var before := usersCsv;
      AppendUserToCsv(username, hashed, false);
      if before.Some? && |before.value| > 0 && before.value[|before.value| - 1] == '\n' && CleanField(hashed) {
        CreateSpec(before.value, username, hashed);
      }
      return 201;
    }

    /**
     * `/admin/update`: 401, 400 without a username, 404 for an unknown user, otherwise
     * the users object with that user's value updated is written back and the answer is 200.
     */
    method AdminUpdate(adminUser: string, adminPass: string, username: string, password: string,
                       suspended: Option<bool>) returns (status: int)
      modifies this
      ensures var m := AsMap(UsersOf(old(usersCsv)));
        var ok := old(AdminOk(adminUser, adminPass));
        && (status == 401 <==> !ok)
        && (status == 400 <==> ok && username == [])
        && (status == 404 <==> ok && username != [] && username !in m)
        && (status == 200 <==> ok && username != [] && username in m)
      ensures status != 200 ==> usersCsv == old(usersCsv)
      ensures status == 200 ==>
        var t := UsersOf(old(usersCsv));
        var hashed := if password != [] then Some(hash(password)) else None;
        usersCsv == Some(UsersText(Put(t, Updated(AsMap(t)[username], username, hashed, suspended))))
      ensures clientesCsv == old(clientesCsv) && vehiculosCsv == old(vehiculosCsv)
    {
      var ok := CheckAdminCredentials(adminUser, adminPass);
      if !ok {
        return 401;
      }
      if username == [] {
        return 400;
      }
      var users := LoadUsersFromCsv();
      UsersOfClean(usersCsv);
      GetMap(users, username);
      var entry := Get(users, username);
      if entry.None? {
        return 404;
      }
      var a := entry.value;
      if password != [] {
        a := a.(password := hash(password));
      }
      if suspended.Some? {
        a := a.(suspended := suspended.value);
      }
      users := Put(users, User(username, a.password, a.suspended));
      WriteAllUsersToCsv(users);
      return 200;
    }

    /**
     * `/admin/delete`: 401, 400 without a username, 404 for an unknown user, otherwise
     * the users object without that key is written back and the answer is 200.
     */
    method AdminDelete(adminUser: string, adminPass: string, username: string) returns (status: int)
      modifies this
      ensures var m := AsMap(UsersOf(old(usersCsv)));
        var ok := old(AdminOk(adminUser, adminPass));
        && (status == 401 <==> !ok)
        && (status == 400 <==> ok && username == [])
        && (status == 404 <==> ok && username != [] && username !in m)
        && (status == 200 <==> ok && username != [] && username in m)
      ensures status != 200 ==> usersCsv == old(usersCsv)
      ensures status == 200 ==> usersCsv == Some(UsersText(Remove(UsersOf(old(usersCsv)), username)))
      ensures clientesCsv == old(clientesCsv) && vehiculosCsv == old(vehiculosCsv)
    {
      var ok := CheckAdminCredentials(adminUser, adminPass);
      if !ok {
        return 401;
      }
      if username == [] {
        return 400;
      }
      var users := LoadUsersFromCsv();
      UsersOfClean(usersCsv);
      GetMap(users, username);
      if Get(users, username).None? {
        return 404;
      }
      users := Remove(users, username);
      WriteAllUsersToCsv(users);
      return 200;
    }

    // -------------------------------------------------------------- the clients file

    /** The data lines of the clients file: its non-blank lines after the first. */
    method ClientLines() returns (data: seq<string>)
      ensures data == (if clientesCsv.None? then [] else DataLines(clientesCsv.value))
    {
      if clientesCsv.None? {
        return [];
      }
      var lines := Filter(Lines(clientesCsv.value), NonBlank);
      if |lines| <= 1 {
        return [];
      }
      return lines[1..];
    }

    /** `/clientes-todos` */
    method ClientesTodos() returns (out: seq<Client>)
      ensures out == ClientList(clientesCsv)
    {
      var data := ClientLines();
      out := [];
      var i := 0;
      while i < |data|
        invariant 0 <= i <= |data|
        invariant out == Numbered(data[..i])
      {
        NumberedSnoc(data, i);
        out := out + [ClientOfLine(data[i], i + 1)];
        i := i + 1;
      }
      assert data[..i] == data;
    }

    /** `/buscar-clientes` */
    method BuscarClientes(name: string, email: string) returns (results: seq<Client>)
      ensures results == SearchResults(clientesCsv, name, email)
    {
      var data := ClientLines();
      results := [];
      var i := 0;
      while i < |data|
        invariant 0 <= i <= |data|
        invariant results == Filter(Numbered(data[..i]), Query(name, email))
      {
        var c := ClientOfLine(data[i], i + 1);
        NumberedSnoc(data, i);
        var hit := false;
        if email != [] {
          hit := c.email == email;
        } else if name != [] {
          hit := c.nombre != [] && Contains(ToLower(c.nombre), ToLower(name));
        }
        if hit {
          FilterSnocKeep(Numbered(data[..i]), c, Query(name, email));
          results := results + [c];
        } else {
          FilterSnocSkip(Numbered(data[..i]), c, Query(name, email));
        }
        i := i + 1;
      }
      assert data[..i] == data;
    }

    /** `/contar-por-apellido` */
    method ContarPorApellido(query: string) returns (count: nat)
      ensures count == SurnameCount(clientesCsv, query)
    {
      var apellido := ToLower(Trim(query));
      if apellido == [] {
        return 0;
      }
      var data := ClientLines();
      count := 0;
      var i := 0;
      while i < |data|
        invariant 0 <= i <= |data|
        invariant count == |Filter(Numbered(data[..i]), Surname(apellido))|
      {
        var c := ClientOfLine(data[i], i + 1);
        NumberedSnoc(data, i);
        var hit := false;
        if c.nombre != [] {
          var last := ToLower(LastWord(c.nombre));
          hit := last == apellido;
        }
        if hit {
          FilterSnocKeep(Numbered(data[..i]), c, Surname(apellido));
          count := count + 1;
        } else {
          FilterSnocSkip(Numbered(data[..i]), c, Surname(apellido));
        }
        i := i + 1;
      }
      assert data[..i] == data;
    }

    /**
     * `/crear-cliente`: 400 without a name or email; otherwise the row is appended and
     * the answer is 201 with the id computed before the append.
     */
    method CrearCliente(nombre: string, email: string, telefono: string) returns (status: int, id: nat)
      modifies this
      ensures status == 400 <==> nombre == [] || email == []
      ensures status == 400 || status == 201
      ensures status == 400 ==> clientesCsv == old(clientesCsv)
      ensures status == 201 ==>
        id == NextClientId(old(clientesCsv)) &&
        clientesCsv == Some(old(clientesCsv).GetOr([]) + ClientRow(nombre, email, telefono) + "\n")
      ensures usersCsv == old(usersCsv) && vehiculosCsv == old(vehiculosCsv)
    {
      if nombre == [] || email == [] {
        return 400, 0;
      }
      id := 1;
      if clientesCsv.Some? {
        id := |Filter(RawLines(clientesCsv.value), NonBlank)|;
      }
      clientesCsv := Some(clientesCsv.GetOr([]) + ClientRow(nombre, email, telefono) + "\n");
      status := 201;
    }

    // -------------------------------------------------------------- the vehicles file

    /** `/vehiculos/next-id` */
    method VehiculosNextId() returns (nextId: int)
      ensures nextId == NextId(vehiculosCsv)
    {
      nextId := 1;
      if vehiculosCsv.Some? {
        nextId := ScanNextId(vehiculosCsv.value);
      }
    }

    /**
     * `/vehiculos/crear`: 400 unless patente, marca and modelo are given; otherwise the
     * header is repaired, the id chosen, the row appended, and the answer is 201 with the id.
     */
    method VehiculosCrear(idauto: string, patente: string, marca: string, modelo: string,
                          kilometraje: string, tipoAceite: string, fecha: string) returns (status: int, id: int)
      modifies this
      ensures status == 400 <==> patente == [] || marca == [] || modelo == []
      ensures status == 400 || status == 201
      ensures status == 400 ==> vehiculosCsv == old(vehiculosCsv)
      ensures status == 201 ==>
        var fixed := FixHeader(old(vehiculosCsv));
        id == ChosenId(idauto, fixed) &&
        vehiculosCsv == Some(fixed + VehicleLine(id, patente, marca, modelo, kilometraje, tipoAceite, fecha) + "\n")
      ensures usersCsv == old(usersCsv) && clientesCsv == old(clientesCsv)
    {
      if patente == [] || marca == [] || modelo == [] {
        return 400, 0;
      }
      if vehiculosCsv.None? {
        vehiculosCsv := Some(VehHeader + "\n");
      } else {
        var txt := vehiculosCsv.value;
        var first := Trim(Lines(txt)[0]);
        if ToLower(first) != ToLower(VehHeader) {
          var cuerpo := Join(Filter(Lines(txt)[1..], NonBlank), "\n");
          vehiculosCsv := Some(VehHeader + "\n" + (if cuerpo != [] then cuerpo + "\n" else []));
        }
      }
      var fixed := vehiculosCsv.value;
      var n := ParseInt(idauto);
      if n.Some? && n.value > 0 {
        id := n.value;
      } else {
        id := ScanNextId(fixed);
      }
      vehiculosCsv := Some(fixed + VehicleLine(id, patente, marca, modelo, kilometraje, tipoAceite, fecha) + "\n");
      status := 201;
    }

    /** The start-up check of the vehicles file (lines 36-82). */
    method EnsureVehiculosCsv()
      modifies this
      ensures vehiculosCsv == Some(Migrate(old(vehiculosCsv)))
      ensures usersCsv == old(usersCsv) && clientesCsv == old(clientesCsv)
    {
      if vehiculosCsv.None? {
        vehiculosCsv := Some(VehHeader + "\n");
        return;
      }
      var contenido := vehiculosCsv.value;
      var lineas := Lines(contenido);
      if Blank(lineas[0]) {
        vehiculosCsv := Some(VehHeader + "\n");
        return;
      }
      var headerActual := Trim(lineas[0]);
      if ToLower(headerActual) == ToLower(VehHeader) {
      } else if ToLower(headerActual) == ToLower(OldIdHeader) {
        var nuevas := MigrateOldRows(lineas);
        vehiculosCsv := Some(Join(nuevas, "\n") + "\n");
      } else if headerActual == OldSimpleHeader {
        vehiculosCsv := Some(VehHeader + "\n" + (Join(Filter(lineas[1..], NonEmpty), "\n") + (if |lineas| > 1 then "\n" else [])));
      }
    }

    /** The start-up check of the clients file (lines 84-86). */
    method EnsureClientesCsv()
      modifies this
      ensures clientesCsv == Some(old(clientesCsv).GetOr("NombreCliente,EmailCliente,Telefono\n"))
      ensures usersCsv == old(usersCsv) && vehiculosCsv == old(vehiculosCsv)
    {
      if clientesCsv.None? {
        clientesCsv := Some("NombreCliente,EmailCliente,Telefono\n");
      }
    }

    /** What the server does to its files when it starts, in order. */
    method Startup()
      modifies this
      ensures vehiculosCsv == Some(Migrate(old(vehiculosCsv)))
      ensures clientesCsv == Some(old(clientesCsv).GetOr("NombreCliente,EmailCliente,Telefono\n"))
      ensures usersCsv == Some(EnsuredUsers(old(usersCsv)))
    {
      EnsureVehiculosCsv();
      EnsureClientesCsv();
      EnsureUsersCsv();
    }
  }
}
