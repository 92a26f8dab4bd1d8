# Gestion M&M — a verified model of the workshop's data core

Gestion M&M is the management application of a car-service workshop. This project
models its core in Dafny and proves properties of the model:

- **The Express server** (`Clientes/server.js`) keeps its state in three CSV files:
  users, clients and vehicles. The project models:
  - the users file: reading it into the users object, appending a user, rewriting the
    whole file, and seeding the default accounts at start-up;
  - `/login` and the administrator endpoints (authenticate, list, create, update,
    delete);
  - the client endpoints: list, search, count by surname, create;
  - the vehicle endpoints: next id, create;
  - the start-up migration of the vehicles file to its current header.
- **The parts catalogue page** (`Presupuesto/index.js`): the `;`-separated catalogue
  is parsed into rows; the sorted unique values of a column feed three cascading
  searchable dropdowns (brand, model, engine); and a principal part is chosen, with
  its alternatives, for each element of the service.
- **The quote page** (`Presupuestador/index.js`): three cascading selects over the
  catalogue rows, the fixed price tables for air filter, oil and labour, digit-only
  price parsing, and the total of the ticked lines.
- **The internal messaging** (`mensajes.js`): a class holding the message list.
  Messages can be sent, opened (marked read), listed per box (newest first, with a
  search and an unread/read filter), counted as unread for the badge, and trimmed
  for display.
- **The client form export** (`Clientes/clientes.js`): nine form values serialised
  as one quoted CSV record.

State that the source changes in place is modelled by classes:

- `Server.Store` holds the three files as `Option<string>`, where `None` means the
  file does not exist. Its methods rewrite what the request would.
- `Catalogue.Selector` and `Catalogue.Page` hold the dropdown widget and the page.
- `Quote.Presupuestador` holds the quote page.
- `Inbox.Mensajeria` holds the messaging.

Each method is proved against a specification function of the old state. The
properties the application relies on are lemmas about those functions, for example:

- what the loader reads back from what the writer wrote, and the order in which
  the writer and the listing visit the users (`Object.keys` order);
- the status codes of every endpoint, as if-and-only-if conditions;
- vehicle ids that are fresh;
- the migration's header, and that running it twice changes nothing;
- dropdown options that are exactly the values present, sorted and without
  duplicates;
- lists that are newest first;
- a CSV record that reads back as its fields.

Modules:

- `Wrappers`, `Seqs`, `Text` and `Order`: JavaScript's string and array primitives
  (`trim`, `split`, `join`, `toLowerCase`, `filter`, `map`, the default string
  ordering of `sort`) and their laws.
- `Users`: the users object, the order in which `Object.keys` lists its keys, and
  the users file reader and writer.
- `Clients` and `Vehicles`: the clients file and the vehicles file.
- `Server`: the `Store` class and the request handlers.
- `Catalogue`: `Presupuesto/index.js`.
- `Quote`: `Presupuestador/index.js`.
- `Inbox`: `mensajes.js`.
- `CsvQuote`: `Clientes/clientes.js`.

Parameters stand in for what the model cannot see:

- the bcrypt functions (`compare`, `hash`);
- the `ADMIN_USERNAME` environment value;
- the current time (`now`);
- the session and local-storage user name;
- the content of the files as read.

## Model

| member | source | states |
|---|---|---|
| Users.IndexOf | Clientes/server.js:178 | the position of a key in the users object, or none exactly when no entry carries that name |
| Users.PutMap | Clientes/server.js:178 | `users[username] = {…}` sets that key and leaves every other key as it was |
| Users.RemoveMap | Clientes/server.js:679-681 | deleting a key removes exactly that key from the object |
| Users.UserLineParses | Clientes/server.js:171-178 | a line written for a clean user is read back by one loader step as the same user (name, password, `suspended` only for `true`) |
| Users.ParseFirstLine | Clientes/server.js:173 | line 0 is skipped when, trimmed and lower-cased, it starts with `username`; any other line is read as a user |
| Users.ParseLaterLine | Clientes/server.js:171-178 | a later line sets the key of the user it describes, overwriting an earlier entry for that name; a blank line or one with an empty name changes nothing |
| Users.ParsedKeyed | Clientes/server.js:165-181 | the loaded users object has each name at most once |
| Users.UsersOfClean | Clientes/server.js:164-182 | every loaded name and password is trimmed and free of commas and line breaks, and names are non-empty |
| Users.ParseWritten | Clientes/server.js:196-209 | reading the header plus one line per user gives back exactly those users in order |
| Users.WriteThenLoad | Clientes/server.js:196-209 | `loadUsersFromCsv` after `writeAllUsersToCsv(t)` gives the same object for every table the format can hold, its keys now added in `Object.keys` order |
| Users.LoadWriteLoad | Clientes/server.js:164-209 | rewriting the file from what was loaded loses nothing: loading again gives the same object, keyed in `Object.keys` order, and a second rewrite writes the same text |
| Users.LoadWritten | Clientes/server.js:164-209 | loading the header plus one line per user of a clean table, in that table's order, gives the table back |
| Users.KeyOrderSpec | Clientes/server.js:199 | `Object.keys` lists the same entries; every array-index key comes before every other, the index keys ascend, and the other keys keep their insertion order |
| Users.KeyOrderMembers | Clientes/server.js:199 | `Object.keys` lists every entry of the object and nothing else |
| Users.KeyOrderMap | Clientes/server.js:199 | the keys listed in `Object.keys` order make up the same object |
| Users.KeyOrderTwice | Clientes/server.js:199 | putting a listing in `Object.keys` order again changes nothing |
| Users.KeyOrderPlain | Clientes/server.js:199 | when no username is an array index, the order is insertion order |
| Users.KeyOrderNumericFirst | Clientes/server.js:646 | a user `7` added after `admin` is listed and written before it |
| Users.AppendLine | Clientes/server.js:184-194 | appending a line to a newline-terminated file adds one loader step for that line |
| Users.AppendUser | Clientes/server.js:184-194 | appending a clean, new user to a newline-terminated file extends the loaded object by that user |
| Users.AppendUsers | Clientes/server.js:157-159 | appending several new clean users joined by newlines extends the loaded object by them, in order |
| Users.PaddedNameOverwrites | Clientes/server.js:650-660 | as written: a new name equal to an existing key preceded by a space passes the 409 check, and the appended line overwrites that existing user |
| Users.KeysClean | Clientes/server.js:175 | no loaded key starts with white space |
| Server.ListingSpec | Clientes/server.js:642-648 | the listing has one entry per key, no name twice, each with that user's suspended flag, and no password |
| Server.ToAddNew | Clientes/server.js:147-156 | the seeding adds only names that are not already keys and never the same name twice |
| Server.ToAddClean | Clientes/server.js:149-156 | every seeded account is a clean user |
| Server.DefaultNames | Clientes/server.js:150-153 | the three default names are distinct from each other and from `admin` |
| Server.EnsuredUsersLoad | Clientes/server.js:139-162 | for a users file that is missing or ends with a newline: after seeding, the loaded object is the one before plus the missing defaults, in order |
| Server.EnsuredUsersPresent | Clientes/server.js:139-162 | for a users file that is missing or ends with a newline: seeding keeps every account unchanged, leaves one of `admin`/`Admmin`/`Admin` present, and leaves Martin, Mateo and Dario present |
| Server.CreateSpec | Clientes/server.js:650-660 | a created user with a clean, new name is one new key with the hashed password, not suspended; nothing else changes |
| Server.UpdateSpec | Clientes/server.js:662-673 | an update changes only that key: the password when one is given, the suspended flag when one is given |
| Server.DeleteSpec | Clientes/server.js:675-686 | a delete leaves exactly the old keys minus that name, each as it was |
| Server.ParseLines | Clientes/server.js:169-179 | the loop over the lines computes the loader's result |
| Server.ReadUserLine | Clientes/server.js:171-178 | one iteration of the loop is one loader step |
| Server.RenderUsers | Clientes/server.js:197-202 | the text built is the header then one `name,password,flag` line per key in `Object.keys` order, joined and newline-terminated |
| Server.MissingLines | Clientes/server.js:153-156 | the default lines pushed are exactly those whose name is not a key, in order |
| Server.MissingDefaults | Clientes/server.js:147-156 | the lines pushed are the admin line when none of the three admin names exists, then the missing defaults |
| Server.MigrateOldRows | Clientes/server.js:51-70 | the migration loop gives the new header followed by every old row with at least six fields, reordered |
| Server.ScanNextId | Clientes/server.js:471-482 | the scan returns one more than the largest numeric id, or 1 when there is none |
| Server.Store.constructor | Clientes/server.js:628 | the administrator name is `ADMIN_USERNAME` or `admin`; the files start as given |
| Server.Store.LoadUsersFromCsv | Clientes/server.js:164-182 | returns the users object read from the users file, empty when the file is missing |
| Server.Store.WriteAllUsersToCsv | Clientes/server.js:196-209 | the users file becomes the header plus one line per user, in `Object.keys` order; the other files are unchanged |
| Server.Store.AppendUserToCsv | Clientes/server.js:184-194 | the users file gains exactly the user's line at the end, created when missing |
| Server.Store.EnsureUsersCsv | Clientes/server.js:139-162 | the users file becomes `username,password` when missing, then gains the missing admin and default lines |
| Server.Store.CheckAdminCredentials | Clientes/server.js:626-634 | true exactly when both values are given, the name is one of the four admin names, it is a key, and the password compares equal |
| Server.Store.Login | Clientes/server.js:237-254 | 400 exactly when a value is missing, 401 on an unknown name or wrong password, 403 exactly when the user is suspended, and 200 otherwise |
| Server.Store.AdminAuthenticate | Clientes/server.js:636-640 | 200 exactly when the credentials check passes, else 401 |
| Server.Store.AdminList | Clientes/server.js:642-648 | 401 without credentials; otherwise 200 and the listing of the users object, in `Object.keys` order |
| Server.Store.AdminCreate | Clientes/server.js:650-660 | as written: 401, 400 on a missing value, 409 when the name is a key, and otherwise 201 with the user's line appended; no other case changes the file |
| Server.Store.AdminCreateChecked | Clientes/server.js:650-660 | corrected: also 400 for a name the file cannot hold as given, so a 201 adds exactly one key and changes no other |
| Server.Store.AdminUpdate | Clientes/server.js:662-673 | 401, 400 without a name, 404 for an unknown name, and otherwise 200 with the whole file rewritten, in `Object.keys` order, from the updated object |
| Server.Store.AdminDelete | Clientes/server.js:675-686 | 401, 400 without a name, 404 for an unknown name, and otherwise 200 with the file rewritten, in `Object.keys` order, without that key |
| Server.Store.ClientLines | Clientes/server.js:394-398 | the non-blank lines after the header, carriage returns dropped, or none when the file is missing |
| Server.Store.ClientesTodos | Clientes/server.js:392-412 | the client list: one client per data line with id = position + 1 and trimmed fields |
| Server.Store.BuscarClientes | Clientes/server.js:348-389 | the clients matching the e-mail (when one is given) or else the name, as the search function defines |
| Server.Store.ContarPorApellido | Clientes/server.js:415-438 | the number of clients whose name's last word equals the query, ignoring case |
| Server.Store.CrearCliente | Clientes/server.js:441-464 | 400 exactly when name or e-mail is missing; otherwise 201, the row is appended and the id is the count of non-blank lines |
| Server.Store.VehiculosNextId | Clientes/server.js:467-487 | the next id computed from the vehicles file |
| Server.Store.VehiculosCrear | Clientes/server.js:490-540 | 400 exactly when plate, brand or model is missing; otherwise the header is fixed first, the given positive id or else the next one is used, and the line is appended |
| Server.Store.EnsureVehiculosCsv | Clientes/server.js:36-82 | the vehicles file becomes its migrated form |
| Server.Store.EnsureClientesCsv | Clientes/server.js:84-86 | the clients file is created with its header when missing and kept otherwise |
| Server.Store.Startup | Clientes/server.js:36-162 | start-up migrates the vehicles file, creates the clients file and seeds the users file |
| Clients.NumberedAt | Clientes/server.js:400-406 | the i-th listed client is the i-th data line, numbered i + 1 |
| Clients.ClientIdsDistinct | Clientes/server.js:400-406 | listed clients carry the ids 1, 2, … in order, so no two share one |
| Clients.SearchInList | Clientes/server.js:348-389 | a client is a search result exactly when it is listed and matches the query |
| Clients.SearchNoQuery | Clientes/server.js:364-383 | with neither name nor e-mail the search returns nothing |
| Clients.SearchEmailFirst | Clientes/server.js:364-372 | when an e-mail is given, the name does not affect the result |
| Clients.LastWordEmpty | Clientes/server.js:428-429 | the last word of a name is empty exactly when the name is blank |
| Clients.TrailingWordSolid | Clientes/server.js:428-429 | the last word holds no white space |
| Clients.SurnameCountBounds | Clientes/server.js:415-438 | the count is at most the number of clients, and zero for a blank query |
| Clients.CreatedClientListed | Clientes/server.js:441-464 | after `/crear-cliente`, the list has the old clients then one more, whose id is the id returned |
| Clients.ClientRowFields | Clientes/server.js:452 | a row of fields without separators reads back as those fields, trimmed |
| Vehicles.NextIdOf | Clientes/server.js:471-482 | the next id is at least 1 and larger than every numeric id in the file |
| Vehicles.NextIdAttained | Clientes/server.js:471-482 | the next id is 1 or one more than an id in the file |
| Vehicles.NextIdLeast | Clientes/server.js:471-482 | no smaller id above all existing ones exists: the next id is the least such |
| Vehicles.FixHeaderFirstLine | Clientes/server.js:496-506 | after the header fix the first line is the current header, ignoring case and spaces |
| Vehicles.ChosenId | Clientes/server.js:508-524 | the id used is the given one when it parses to a positive integer, and the next id otherwise |
| Vehicles.VehicleLineId | Clientes/server.js:525-534 | the appended line's first field reads back as the id used |
| Vehicles.MigrateRowKept | Clientes/server.js:55-57 | an old row is migrated exactly when it has at least six fields |
| Vehicles.MigrateRowFields | Clientes/server.js:58-66 | a migrated row is id, plate, brand, model, mileage, oil type and an empty date taken from the old positions |
| Vehicles.MigratedRowsSpec | Clientes/server.js:53-68 | the migrated rows are the kept old rows, in order, each reordered |
| Vehicles.MigrateKeeps | Clientes/server.js:36-82 | a file already carrying the current header is left byte for byte as it was |
| Vehicles.MigrateFirstLine | Clientes/server.js:36-82 | whenever the migration rewrites the file, the first line is the current header |
| Vehicles.OldIdFirstLine | Clientes/server.js:46-70 | a file with the old `VehiculoId` header is migrated to the current header |
| Vehicles.OldSimpleFirstLine | Clientes/server.js:71-73 | a file with the old four-column header gets the current header |
| Vehicles.MigrateIdempotent | Clientes/server.js:36-82 | running the migration on its own output changes nothing |
| Catalogue.RowOfKeys | Presupuesto/index.js:121-124 | a parsed record has exactly the header names as keys |
| Catalogue.RowOfValue | Presupuesto/index.js:121-124 | each key maps to the trimmed field in its column (the last column for a repeated header) |
| Catalogue.RecordsOfSpec | Presupuesto/index.js:114-129 | the records are the data lines with at least as many fields as headers, each turned into a record, in order |
| Catalogue.RecordsKeys | Presupuesto/index.js:114-129 | every record's keys are the header names of the first non-blank line |
| Catalogue.FillRow | Presupuesto/index.js:121-124 | the loop over the headers builds the record the specification defines |
| Catalogue.ParseCSV | Presupuesto/index.js:114-129 | `parseCSV` computes the records of the text |
| Catalogue.ValoresUnicos | Presupuesto/index.js:131-138 | the loop computes the unique values of the column |
| Catalogue.ValuesIn | Presupuesto/index.js:131-136 | a value is collected exactly when it is non-empty and some row carries it in that column |
| Catalogue.UniqueValuesSpec | Presupuesto/index.js:131-138 | the unique values are strictly sorted and are exactly the non-empty values of the column |
| Catalogue.UniqueValuesCanonical | Presupuesto/index.js:131-138 | any strictly sorted list with those members is the result, so the result is determined by the set of values |
| Catalogue.Unique | Presupuesto/index.js:291-305 | the kept candidates come from the input and each has a part code |
| Catalogue.UniqueKeys | Presupuesto/index.js:291-305 | no two kept candidates share the key of their two codes |
| Catalogue.UniqueCovers | Presupuesto/index.js:291-305 | every candidate with a code has its key among the kept ones |
| Catalogue.UniqueFirst | Presupuesto/index.js:291-305 | the first candidate with a given key is the one kept |
| Catalogue.Principal | Presupuesto/index.js:309-312 | the principal is a kept candidate, and it has both codes unless none has |
| Catalogue.PrincipalFirst | Presupuesto/index.js:309-312 | the principal is the first kept candidate with both codes |
| Catalogue.PrincipalFallback | Presupuesto/index.js:309-312 | without a candidate with both codes, the principal is the first kept one |
| Catalogue.SepararPorElemento | Presupuesto/index.js:287-317 | the loop computes the principal and the alternatives the specification defines |
| Catalogue.KeepUnique | Presupuesto/index.js:291-305 | the de-duplication loop keeps the first candidate of each key |
| Catalogue.DropOne | Presupuesto/index.js:313 | leaving out the principal from distinct candidates leaves one fewer |
| Catalogue.SeparateSpec | Presupuesto/index.js:287-317 | there is no principal exactly when no candidate has a code; otherwise the principal is not among the alternatives, and principal plus alternatives are the kept candidates |
| Catalogue.SeparateFrom | Presupuesto/index.js:287-317 | the principal and the alternatives are rows of the input that name the element |
| Catalogue.LookupSpec | Presupuesto/index.js:361-403 | a selection is shown exactly when brand, model and engine are chosen and some row matches all three |
| Catalogue.SelectionRows | Presupuesto/index.js:361-403 | each of the four filter groups (oil, air, fuel, cabin) shows only rows of the selected vehicle that name that group |
| Catalogue.ModelOptionsSpec | Presupuesto/index.js:406-415 | the model options are sorted, distinct and exactly the non-empty models of the chosen brand (of all rows without one) |
| Catalogue.EngineOptionsSpec | Presupuesto/index.js:417-425 | the engine options are sorted, distinct and exactly the engines of rows matching brand and model |
| Catalogue.DropdownSpec | Presupuesto/index.js:36-52 | an option is shown exactly when it contains the filter, ignoring case; the empty filter shows all; filtering twice is filtering once |
| Catalogue.Selector.constructor | Presupuesto/index.js:2-34 | a new widget holds the options and no value |
| Catalogue.Selector.RenderDropdown | Presupuesto/index.js:36-52 | the rendered items are the filtered options |
| Catalogue.Selector.Pick | Presupuesto/index.js:44-49 | clicking an item sets the value and keeps the options |
| Catalogue.Selector.SetOptions | Presupuesto/index.js:54-57 | the options are replaced and the value kept |
| Catalogue.Selector.Clear | Presupuesto/index.js:59-62 | the value is emptied and the options kept |
| Catalogue.Page.constructor | Presupuesto/index.js:69-71 | a new page holds three empty, distinct widgets and no data |
| Catalogue.Page.Inicializar | Presupuesto/index.js:488-501 | the data are the parsed catalogue and the brand options its unique brands |
| Catalogue.Page.MarcaChange | Presupuesto/index.js:406-415 | choosing a brand sets the model options for it and clears model and engine |
| Catalogue.Page.ModeloChange | Presupuesto/index.js:417-425 | choosing a model sets the engine options for brand and model and clears the engine |
| Catalogue.Page.MotorChange | Presupuesto/index.js:427-429 | choosing an engine shows the lookup for the three current values |
| Order.LessTransitive | Presupuesto/index.js:137 | the string order used by `sort()` is transitive |
| Order.LessTotal | Presupuesto/index.js:137 | any two different strings are ordered one way or the other |
| Order.Sort | Presupuesto/index.js:137 | sorting keeps the length and the members and is a permutation |
| Order.SortDistinct | Presupuesto/index.js:137 | sorting distinct strings gives a strictly increasing list |
| Order.SortedUnique | Presupuesto/index.js:137 | two strictly sorted lists with the same members are equal |
| Quote.Digits | Presupuestador/index.js:219-221 | the kept characters are all digits |
| Quote.DigitsFilter | Presupuestador/index.js:219-221 | stripping non-digits is filtering the digits, in order |
| Quote.ParsePrecioNoDigits | Presupuestador/index.js:219-221 | a text without digits parses to 0 |
| Quote.ParsePrecioDigits | Presupuestador/index.js:219-221 | two texts with the same digits parse to the same price, so `$` and `.` do not matter |
| Quote.ParsePrecioOfDigits | Presupuestador/index.js:219-221 | a string of digits parses to its decimal value |
| Quote.Price4 | Presupuestador/index.js:219-221 | a price written `$d.ddd` parses to its four-digit value |
| Quote.Price5 | Presupuestador/index.js:219-221 | a price written `$dd.ddd` parses to its five-digit value |
| Quote.AirFilterPrices | Presupuestador/index.js:161-171 | the air filter prices parse to 8000, 7500 and 6000 |
| Quote.OilPrices | Presupuestador/index.js:173-184 | the oil prices parse to 60000, 80000 and 10000 |
| Quote.LabourPriceValue | Presupuestador/index.js:187 | the labour price parses to 15000 |
| Quote.PriceTables | Presupuestador/index.js:158-187 | the air filter price is 8000 for `C18 003`, 7500 for `C1589/3`, 6000 otherwise; the oil price is 60000 for `5W-40`, 80000 for `0W-30` or `5W-30`, 10000 otherwise; labour is 15000 |
| Quote.CatalogueRowsSpec | Presupuestador/index.js:85-86 | the rows are the lines after the first, trimmed and split on `;`, that have more than one field |
| Quote.OptionsSpec | Presupuestador/index.js:38-48 | the options are exactly the non-empty values, without duplicates |
| Quote.ScopedOptions | Presupuestador/index.js:89-121 | a column's options within a filter are the non-empty values of that column in the rows passing it |
| Quote.CascadeSpec | Presupuestador/index.js:92-121 | the second select offers the models of the chosen brand, the third the engines of brand and model |
| Quote.Find | Presupuestador/index.js:145-147 | the found row matches the three values, and none exists when nothing is found |
| Quote.FindFirst | Presupuestador/index.js:145-147 | the found row is the first matching one |
| Quote.TickedNothing | Presupuestador/index.js:223-240 | nothing ticked, cleared labels or the not-found labels total 0 |
| Quote.TickedAll | Presupuestador/index.js:193-205 | with every line ticked the total is the sum of the three prices of the row |
| Quote.LineTotalRange | Presupuestador/index.js:158-193 | a found row's total is between 31000 and 103000 |
| Quote.Presupuestador.constructor | Presupuestador/index.js:18 | the page starts with no rows, no options, no values, cleared labels, nothing ticked and total 0 |
| Quote.Presupuestador.Load | Presupuestador/index.js:84-89 | the rows are the parsed catalogue and the first select offers its brands; the other selects, the labels and the total are cleared, and the ticks are kept |
| Quote.Presupuestador.Select1Change | Presupuestador/index.js:92-105 | a brand sets the model options (none for the empty choice) and clears the later selects and the labels |
| Quote.Presupuestador.Select2Change | Presupuestador/index.js:107-121 | a model sets the engine options (none for the empty choice) and clears the engine and the labels; unticks for a real choice |
| Quote.Presupuestador.Select3Change | Presupuestador/index.js:124-206 | an engine fills the labels from the first matching row and ticks everything, or shows the not-found message; the empty choice clears |
| Quote.Presupuestador.CalcularTotal | Presupuestador/index.js:223-240 | the total is the sum of the parsed prices of the ticked lines, and nothing else changes |
| Quote.Presupuestador.Tick | Presupuestador/index.js:243-248 | a checkbox change updates the ticks and recomputes the total |
| Inbox.CurrentUser | mensajes.js:12-31 | the session user when there is one; the result is never empty |
| Inbox.Insert | mensajes.js:140-146 | inserting adds exactly the one message |
| Inbox.SortByDate | mensajes.js:140-146 | sorting is a permutation |
| Inbox.InsertNewestFirst | mensajes.js:140-146 | inserting into a newest-first list keeps it newest first |
| Inbox.SortByDateSpec | mensajes.js:140-146 | the sorted list is newest first and a permutation of the input |
| Inbox.FilterNewestFirst | mensajes.js:160-171 | filtering a newest-first list keeps it newest first |
| Inbox.BoxListCounts | mensajes.js:138-147 | the box is newest first and holds exactly the user's received (or sent) messages, each as often as it occurs |
| Inbox.ListedSpec | mensajes.js:134-171 | a listed message is exactly one in the user's box that contains the search text, ignoring case, and passes the read filter; the list is newest first |
| Inbox.ListedAll | mensajes.js:149-171 | with a blank search and `todos`, the list is the whole box |
| Inbox.BadgeSpec | mensajes.js:322-346 | no badge for 0, the digit for 1 to 9, `9+` above |
| Inbox.SentSpec | mensajes.js:86-132 | a missing recipient or a blank subject or body sends nothing; otherwise exactly one unread message from the current user is added at the end |
| Inbox.FindId | mensajes.js:215 | the index found is the first message with that id, or none exists |
| Inbox.OpenedSpec | mensajes.js:214-222 | opening changes only the target message, and marks it read only when the current user is its recipient |
| Inbox.OpenedTwice | mensajes.js:214-222 | opening the same message twice is opening it once |
| Inbox.OpenedUnread | mensajes.js:214-222 | opening an unread message addressed to the user lowers the unread count by one, and otherwise leaves it |
| Inbox.Mensajeria.constructor | mensajes.js:4-10 | the messages are the stored ones; the badge shows the user's unread count |
| Inbox.Mensajeria.EnviarMensaje | mensajes.js:86-132 | the list becomes the sent list; the result says whether it changed; the badge is refreshed after a send |
| Inbox.Mensajeria.VerMensaje | mensajes.js:214-273 | the list becomes the opened list and the opened message is returned (none for an unknown id) |
| Inbox.Mensajeria.MostrarMensajes | mensajes.js:134-212 | the shown messages are the listed ones |
| Inbox.Mensajeria.ActualizarContadores | mensajes.js:322-346 | the badge becomes that of the unread count; the messages are unchanged |
| Inbox.Recortar | mensajes.js:354-357 | text up to the length is kept; longer text is its first `longitud` characters followed by `...` |
| Inbox.RecortarTwice | mensajes.js:354-357 | trimming a trimmed text changes nothing |
| CsvQuote.EscapeReplace | Clientes/clientes.js:153 | doubling quotes is replacing every `"` by `""` |
| CsvQuote.EscapeConcat | Clientes/clientes.js:153 | escaping works character by character |
| CsvQuote.ParseQuotedEscape | Clientes/clientes.js:153 | the escaped content, then the closing quote, reads back as the content |
| CsvQuote.RecordRoundTrip | Clientes/clientes.js:153 | quoted fields joined by commas read back as the same fields, whatever characters they hold |
| CsvQuote.ToCsvRoundTrip | Clientes/clientes.js:136-153 | the record reads back as exactly the nine form values, in order |
| CsvQuote.ToCsvShape | Clientes/clientes.js:136-153 | the record opens and closes with a quote, and its first field is the quoted name |
| CsvQuote.UnquoteQuote | Clientes/clientes.js:153 | stripping the enclosing quotes and undoubling gives back each value |

## Left out

- File system errors and the 500 responses they lead to (a failing `appendFileSync`
  or `writeFileSync`, a `try`/`catch` that logs): every file operation is modelled
  as succeeding.
- `log` and `console` output. Access to the files is modelled by field updates, not
  by concurrent requests.
- The bcrypt password rehash at start-up (`Clientes/server.js:212-232`) changes
  nothing, so the model has no step for it. The loader stores each user as a
  `{ password, suspended }` record (line 178), so `usersInitial[u] || ''` is an object
  and `pw.startsWith('$2')` throws a `TypeError` on the first key. The `catch` at line
  232 swallows it before anything is written. The users file always holds a user after
  seeding, so plaintext passwords, the seeded `admin,Admin123,false` among them, are
  never hashed. The model takes `compare` and `hash` as opaque parameters.
- The endpoints outside the users, clients and vehicles core: the static pages (`/`,
  `/clientes`, `/home`, `GET /login`), `/health`, `/register-user`,
  `/vehiculos-cliente`, `/guardar-vehiculo`, `/asignar-vehiculo`,
  `/historial-vehiculo` and `/vehiculos-todos`. `login.js`, `admin.js`, `home.js`,
  `auth-utils.js`, `backend.py`, `Vehiculos/vehiculos.js` and the two other
  `Presupuesto` scripts are not part of this model.
- JavaScript object prototype keys (`users['constructor']`, say): the users object is
  modelled as a table of plain keys in insertion order, which `Users.KeyOrder` puts
  in `Object.keys` order.
- Server.EnsuredUsersLoad: stated only for a users file that is missing or ends with
  a newline. The source appends the default lines without checking: on a file whose
  last line has no final newline the first added line is glued onto it (`bob,h`
  becomes `bob,hadmin,Admin123,false`, so bob's password changes and no admin is
  added). The server itself always writes files that end with a newline.
- Server.EnsuredUsersPresent: stated under the same condition as
  Server.EnsuredUsersLoad, for the same reason.
- Order.Less: strings are sequences of Unicode code points, so the order compares code
  points. JavaScript's `sort()` compares UTF-16 code units, and the two orders differ
  beyond the Basic Multilingual Plane: `["Ａ", "😀"]` (U+FF21, U+1F600) sorts with
  `"😀"` first in JavaScript and last here.
- Catalogue.ValoresUnicos: sorts with Order.Less, so it has the same difference on
  characters beyond the Basic Multilingual Plane.
- Inbox.Recortar: `length` and `substring` count code points here, not UTF-16 code
  units, so an emoji counts as one character and a cut never splits a surrogate
  pair, as it can in the source.
- Server.Store.AdminUpdate: the optional `suspended` value is modelled as
  `Option<bool>`; the source's `typeof suspended === 'boolean'` check on arbitrary
  JSON is not modelled.
- Server.Store.VehiculosCrear: the request fields are strings. `String(x)` of a
  number, `undefined` or `null` is not modelled, and neither is the `kilometraje`
  test for `undefined`/`null`: a missing value is the empty string.
- Server.Store.Login, Server.Store.CrearCliente, Server.Store.AdminCreate,
  Server.Store.AdminCreateChecked, Server.Store.AdminUpdate (its `username`),
  Server.Store.AdminDelete and Server.Store.CheckAdminCredentials: the request body
  fields are strings too, and a missing field is the empty string. A JSON number,
  object, `null` or missing body, and the truthiness tests on such values, are not
  modelled.
- Vehicles.ChosenId: `parseInt` is modelled as leading white space, an optional sign
  and the longest digit prefix. Integers are unbounded, so the loss of precision of
  a JavaScript number beyond 2^53 is not modelled.
- Everything about the DOM: rendering HTML, event listeners, CSS classes, focus,
  `fetch`, `localStorage` and `sessionStorage`. The model keeps the state those
  feed: the options, the values, the labels and the message list.
- Catalogue: `resetDetalleFiltros`, the rendering of the oil and complement
  tables, and the other helpers of `Presupuesto/index.js` outside the parser and the
  filter cascade.
- Quote: `actualizarPrecioDesdeBackend`, `parsePrecioFromSpan`, the extra rows, and
  the `toLocaleString` formatting of the total. The total is kept as a number.
- Quote: a column beyond the row's length is `undefined` in the source. The model
  reads it as the empty string, which gives the same empty label and the same
  default price.
- Inbox: `cargarUsuarios`, `responderMensaje`, `mostrarNotificacion`, the event
  wiring (`inicializarEventos`, `configurarEventosPestanas`) and the display of
  dates. Dates are integers (milliseconds) and `now` is a parameter. The id and the
  date of a new message both come from one `now`, while the source reads the clock
  twice (`Date.now()` and `new Date()`), so the two can differ by a millisecond.
  Message identity is by value; the source's object references are not modelled.
- Inbox.SortByDate: `Array.prototype.sort` is not guaranteed stable by the model.
  The proved properties are newest first and permutation; the relative order of
  messages with equal dates is not stated.
- Inbox.CurrentUser: the session user and the stored user are parameters. The JSON
  parsing of the stored value is not modelled. The fallback is `Invitado`, as in the
  source.
- CsvQuote: `String(campo)` of `undefined` or `null` is not modelled. Every form
  value is a string.
- Text: `trim` and `\s` use the white space of the ECMAScript standard (section
  12.2 and 12.3 of ECMA-262: tab to carriage return, space, no-break space and the
  Unicode space separators). `toLowerCase` is modelled on ASCII and Latin-1 capital
  letters only; other scripts' case mappings are not modelled.

## Findings

| source | as written | input that shows it | evidently intended | confidence | as-written member | corrected member |
|---|---|---|---|---|---|---|
| Clientes/server.js:650-660 | `/admin/create` checks `users[username]` with the name as given, but the loader trims names when reading | creating ` Martin` (leading space) while `Martin` exists: no 409, the line ` Martin,<hash>,false` is appended, and on the next load Martin's password is replaced | a name that would collide after trimming, or that holds a comma or line break, is refused | not executed | Users.PaddedNameOverwrites | Server.Store.AdminCreateChecked |
