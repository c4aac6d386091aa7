# Customer controller of RestfulApi, modelled in Dafny

RestfulApi is a small ASP.NET service over one table of `Customer` records.
Each record has an integer key `Id` and eight text attributes: Name, Address,
DNI, Email, Phone, Mobile, State and City. All of its logic lives in
`CustomerController`. That controller has eleven actions:

- `GetAll` lists every record.
- `GetByID` finds one record by key.
- Seven exact-match lookups: by DNI, Name, State, City, Email, Address, and
  by phone number (the number may match either Phone or Mobile).
- `CreateEdit` is an upsert. An `Id` of 0 inserts the payload. Any other `Id`
  overwrites all eight attributes of the record stored under it. A non-zero
  `Id` that no record has is rejected as not found.
- `Delete` removes a record by key.

The model has five modules:

- `CustomerModel` (customer.dfy) defines the `Customer` datatype and the
  `Response` envelope (`Found`, `FoundMany`, `NotFound`, `NoContent`). It also
  defines the table `Table = map<int, Customer>` and the invariant `Keyed`,
  which says every record is stored under its own `Id`.
- `KeyOrder` (key_order.dfy) lists the keys of a table in ascending order. This
  is how a map becomes a result list. It also proves that a positive key not in
  use always exists.
- `CustomerQueries` (queries.dfy) holds the nine read actions as functions of
  the table. The LINQ `Where` filters are modelled by a `Criterion` datatype and
  the predicate `Satisfies`.
- `CustomerCommands` (commands.dfy) holds the functions `Inserted`, `Edited` and
  `Removed`, which describe the table after each write. It also holds the class
  `CustomerController`, with the table as its field `customers` and the
  methods `CreateEdit` and `Delete`, which update that field in place.
- `CustomerProperties` (properties.dfy) holds the lemmas that relate several
  actions, such as reading a record back after a create, an update or a delete.

The read actions are functions, so no read can change the store. The
controller's read actions are those functions applied to the controller's
`customers` field.

What the write actions return, as the code does it:

- `CreateEdit` picks the insert branch by the sentinel `Id == 0`
  (RestfulApi/Controllers/CustomerController.cs:147); any other `Id` is taken
  as the key of an existing record.
- `CreateEdit` returns the payload it was given (CustomerController.cs:172), not
  a fresh read of the stored row. On insert the store has written the new key
  into that payload, so the result is the payload carrying its new `Id`, which
  is also the record now stored. On update the payload is returned unchanged;
  on a consistent table it equals the stored record (`customers[c.Id] == c`).

## Model

| member | source | states |
|---|---|---|
| `CustomerQueries.GetAll` | RestfulApi/Controllers/CustomerController.cs:23-28 | always a success, never not found; lists exactly the stored records, one entry per key, none twice; an empty table gives an empty list |
| `CustomerQueries.GetByID` | RestfulApi/Controllers/CustomerController.cs:32-42 | found exactly when the key is stored, and then the record stored under it, whose `Id` is that key; otherwise not found, whether or not the table is empty |
| `CustomerQueries.GetByDNI` | RestfulApi/Controllers/CustomerController.cs:47-57 | not found exactly when no stored record has that DNI; otherwise lists exactly the stored records whose DNI equals the argument, none twice |
| `CustomerQueries.GetByName` | RestfulApi/Controllers/CustomerController.cs:61-71 | not found exactly when no stored record has that name; otherwise lists exactly the records with that exact name, none twice |
| `CustomerQueries.GetByState` | RestfulApi/Controllers/CustomerController.cs:75-85 | not found exactly when no stored record is in that state; otherwise lists exactly the records with that state, none twice |
| `CustomerQueries.GetByCity` | RestfulApi/Controllers/CustomerController.cs:89-99 | not found exactly when no stored record is in that city; otherwise lists exactly the records with that city, none twice |
| `CustomerQueries.GetByEmail` | RestfulApi/Controllers/CustomerController.cs:103-113 | not found exactly when no stored record has that email; otherwise lists exactly the records with that email, none twice (uniqueness of email is not assumed) |
| `CustomerQueries.GetByPhoneNumber` | RestfulApi/Controllers/CustomerController.cs:117-127 | not found exactly when no record has the number as phone or as mobile; otherwise lists exactly the records whose phone or mobile equals it, none twice |
| `CustomerQueries.GetByAddress` | RestfulApi/Controllers/CustomerController.cs:131-141 | not found exactly when no stored record has that address; otherwise lists exactly the records with that address, none twice |
| `CustomerCommands.Overwrite` | RestfulApi/Controllers/CustomerController.cs:160-168 | an update keeps the stored key and takes all eight attributes from the payload: full replacement, nothing of the old attributes survives |
| `CustomerCommands.Inserted` | RestfulApi/Controllers/CustomerController.cs:147-150 | an insert adds exactly one key, holding the payload's attributes under the new key; every earlier record is unchanged; keys stay consistent |
| `CustomerCommands.Edited` | RestfulApi/Controllers/CustomerController.cs:153-169 | an update keeps the key set, gives the edited record the payload's attributes and its old key, and leaves every other record unchanged; on a consistent table the stored record then equals the payload |
| `CustomerCommands.Removed` | RestfulApi/Controllers/CustomerController.cs:186-188 | a delete removes exactly the given key and keeps every other record unchanged |
| `CustomerCommands.CustomerController.constructor` | RestfulApi/Controllers/CustomerController.cs:16-19 | the controller starts on the given table, with the keys consistent |
| `CustomerCommands.CustomerController.CreateEdit` | RestfulApi/Controllers/CustomerController.cs:145-173 | `Id` 0: inserts under a positive key not used before and returns the payload carrying that key, which is what is stored; existing `Id`: the table becomes `Edited`, the result is the payload itself; other `Id`: not found, table unchanged, nothing created |
| `CustomerCommands.CustomerController.Delete` | RestfulApi/Controllers/CustomerController.cs:177-191 | a stored key: the table becomes `Removed` and the result is no content; an absent key: not found and the table unchanged |
| `KeyOrder.FreshKeyExists` | RestfulApi.Tests/CustomerControllerTests.cs:1229-1230 | for any set of keys in use there is a positive key not among them, so an insert can always be given a fresh positive key |
| `CustomerProperties.EmptyStorePolicy` | RestfulApi.Tests/CustomerControllerTests.cs:72-93 | on an empty table GetAll is an empty success while GetByID and all seven lookups are not found |
| `CustomerProperties.CreateThenGetByID` | RestfulApi.Tests/CustomerControllerTests.cs:1229-1251 | after an insert, GetByID on the new key finds a record equal to the payload in every attribute, with the new key; every other key reads as before |
| `CustomerProperties.CreatedRecordIsListed` | RestfulApi/Controllers/CustomerController.cs:147-150 | a created record appears in GetAll and in every lookup whose criterion the payload satisfies |
| `CustomerProperties.EditThenGetByID` | RestfulApi.Tests/CustomerControllerTests.cs:1304-1328 | after an update, GetByID on that key finds exactly the payload; every other key reads as before |
| `CustomerProperties.EditIdempotent` | RestfulApi/Controllers/CustomerController.cs:153-170 | applying the same update twice leaves the same table as applying it once |
| `CustomerProperties.DeleteIsolation` | RestfulApi.Tests/CustomerControllerTests.cs:1416-1426 | after deleting key a, GetByID(a) is not found and every other key reads as before |
| `CustomerProperties.DeletedRecordVanishes` | RestfulApi/Controllers/CustomerController.cs:179-190 | on a consistent table, a deleted record is listed by neither GetAll nor any lookup |
| `CustomerProperties.PhoneOrMobileFindsRecord` | RestfulApi/Controllers/CustomerController.cs:119 | every stored record is found both by its phone number and by its mobile number |
| `CustomerProperties.PhoneLookupOnSingleRecord` | RestfulApi.Tests/CustomerControllerTests.cs:931-1064 | with one stored record, its phone and its mobile each find exactly that one record, and a number matching neither is not found |

## Left out

- HTTP routing, `ControllerBase` and the `JsonResult`/`OkObjectResult`
  wrapping: the `Response` datatype stands in for them.
- The database context: change tracking and the `SaveChanges` commit. Each
  write is one atomic update of the map.
- Lazy `IQueryable` evaluation. `Count()` and the serialised list are taken
  from one snapshot of the table.
- The order in which the store returns rows. The model lists rows by
  ascending key. The contracts speak only of membership and of no record
  appearing twice.
- The store's key-generation algorithm. The model picks any positive key not
  in use. The tests promise only that the key is positive.
- C# `null` strings. Attributes are non-null `seq<char>`, compared by exact,
  case-sensitive equality.
- 32-bit overflow of `Id`. Keys are unbounded integers.
- Concurrent requests and last-writer-wins races between them. They belong to
  the backing store.
- The seed rows of RestfulApi/Data/ApiContext.cs. They are a one-time
  bootstrap; the controller's constructor accepts any consistent table.
- RestfulApi/Interfaces/ICustomerController.cs. It has signatures only.
