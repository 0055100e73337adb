# Database blocks: schema, rows and storage

This project models the server-side engine behind the embedded "database
block" of a collaborative notes application, and proves properties of that
model. The engine has three layers.

- **Property types** (`PropertyTypes`): the twelve column types, the
  options record, column definitions, row property values and the select
  colour palette.
- **Storage** (`RowStore`, `DatabaseStore`): the row and database tables.
  Each is a class holding its table as a sequence of records in insertion
  order, with a `deletedAt` tombstone. Lookups skip tombstoned records. Ids
  and slugs are unique; each repository's `Valid()` states this and every
  mutation preserves it. Rows are listed per database in ascending
  byte-order of their `position` key. The last position is the maximum live
  position. The soft and hard deletes are separate operations, and the
  hard delete of a database cascades to its rows.
- **Services**:
  - `DatabaseServices` is the schema service. It reads a database's column
    list, changes it and writes it back. Its invariant is that every
    database keeps at least one column and no two columns of a database
    share an id.
  - `RowServices` is the row service. It creates rows at the end of their
    database and fills in "Created" date columns. It merges property
    updates, replaces content, moves rows between anchors and
    soft-deletes them.

Supporting modules:
- `Common`: optional values, results and the error kinds. NotFound, and
  InvalidState for the refused last-column delete, are exceptions in the
  program. Conflict is a unique-constraint violation.
- `Json`: stored JSON values with JavaScript truthiness.
- `Keys`: byte-order keys and the ordering-key generator.
- `Pagination`: page slices.

Each operation that changes state is a method, with `modifies` naming what
it changes. Its `ensures` state the new state as a function of the old one.
The meaning of those functions is proved in the lemmas beside them.

The ordering-key generator is an external library. It is modelled as the
nondeterministic method `Keys.KeyBetween`, which has a contract and no
algorithm. Bounds it accepts must be well-formed: non-empty and not ending
in the character `\0`. Every key the library produces is of that kind.
Without this condition no key lies between `"a"` and `"a\0"`, and the
contract could not be met. Two lemmas record what the contract does not
give:
- A move after an anchor may also land after the anchor's successor.
- The code comment on a move without an anchor says "move to the
  beginning". The key generated there may land after any existing row, so
  no "moves to the head" property is claimed.

Fresh ids, slugs, the clock (`now`) and today's date (`today`) are method
parameters. Request bodies arrive as already parsed and validated values.

## Model

| member | source | states |
|---|---|---|
| PropertyTypes.TypeFromName | apps/server/src/core/database/types/property-types.ts:1-14 | A string is accepted as a column type only if it is the stored name of that type. |
| PropertyTypes.TypeNameRoundTrip | apps/server/src/core/database/types/property-types.ts:1-14 | Decoding the stored name of any type gives that type back. |
| PropertyTypes.TypeNamesDistinct | apps/server/src/core/database/types/property-types.ts:1-14 | The type set is closed with exactly twelve members, and their stored names are pairwise distinct. |
| PropertyTypes.SelectColorsFixed | apps/server/src/core/database/types/property-types.ts:80-90 | The select colour palette has nine colours, all distinct. |
| Keys.LessIrreflexive | apps/server/src/database/repos/database/database-row.repo.ts:97 | Byte-order comparison of positions is irreflexive. |
| Keys.LessTransitive | apps/server/src/database/repos/database/database-row.repo.ts:97 | Byte-order comparison is transitive. |
| Keys.LessTotal | apps/server/src/database/repos/database/database-row.repo.ts:97 | Any two distinct positions are ordered one way or the other. |
| Keys.LessAsymmetric | apps/server/src/database/repos/database/database-row.repo.ts:97 | No two positions are each below the other. |
| Keys.LessEqTransitive | apps/server/src/database/repos/database/database-row.repo.ts:97 | The non-strict order is transitive. |
| Keys.PrefixLess | apps/server/src/database/repos/database/database-row.repo.ts:97 | A proper prefix sorts before its extensions. |
| Keys.LessAtDifference | apps/server/src/database/repos/database/database-row.repo.ts:97 | Two keys with a common prefix are ordered by the first character where they differ. |
| Keys.LessCases | apps/server/src/database/repos/database/database-row.repo.ts:97 | A strict inequality holds either because of a proper prefix or because of a first differing character. |
| Keys.KeyBelow | apps/server/src/core/database/services/database-row.service.ts:156 | Below every well-formed key there is a well-formed key. |
| Keys.BetweenExists | apps/server/src/core/database/services/database-row.service.ts:40 | Between well-formed bounds in order (either side possibly open) some well-formed key exists, so the generator's contract can be met. |
| Keys.KeyBetween | apps/server/src/core/database/services/database-row.service.ts:40 | On well-formed bounds in order, the generated key is well-formed and lies strictly between them; an open side imposes nothing. |
| Keys.AfterAnchorMayOvershoot | apps/server/src/core/database/services/database-row.service.ts:149-152 | A key generated after an anchor, with no upper bound, may also land after the anchor's successor: `move` is not promised to land next to its anchor. |
| Keys.UnboundedMayLandAfter | apps/server/src/core/database/services/database-row.service.ts:157-159 | A key generated with both sides open may land after any existing key: a move without an anchor is not promised to reach the head of the list. |
| Pagination.Paginate | apps/server/src/database/repos/database/database-row.repo.ts:103-106 | Page p of size l holds the l rows from index (p-1)*l onward, in order, and never more than l rows (an assumption about the pagination helper). |
| Pagination.PagesPrefix | apps/server/src/database/repos/database/database-row.repo.ts:103-106 | Pages 1 to n together are exactly the first n*l rows: no overlap, no gap. |
| Pagination.LastPageEndsWalk | apps/client/src/features/database/queries/database-query.ts:143-146 | A page without a next page ends the walk, and by then every row has been seen exactly once, in order. |
| Pagination.NextPageNonEmpty | apps/client/src/features/database/queries/database-query.ts:143-146 | When a page reports a next page, that page is not empty. |
| Pagination.PrevPageFull | apps/client/src/features/database/queries/database-query.ts:143-146 | When a non-empty page reports a previous page, that page is full. |
| RowStore.FirstLive | apps/server/src/database/repos/database/database-row.repo.ts:48-50 | The first record that matches the lookup and is not tombstoned, or -1 when there is none. |
| RowStore.FindRow | apps/server/src/database/repos/database/database-row.repo.ts:37-53 | A lookup finds nothing exactly when every matching record is tombstoned or there is none; a found row matches, is live, and comes with its content exactly when content was asked for. |
| RowStore.FindRowUnique | apps/server/src/database/repos/database/database-row.repo.ts:55-71 | With unique ids and slugs, looking up a record's id or slug returns that very record when it is live, and nothing when it is tombstoned. |
| RowStore.LiveRows | apps/server/src/database/repos/database/database-row.repo.ts:95-96 | The live rows of a database are exactly the non-tombstoned records of that database. |
| RowStore.CountIsListingLength | apps/server/src/database/repos/database/database-row.repo.ts:176-185 | The row count equals the number of live rows of the database, which is the length of the unpaged listing. |
| RowStore.InsertByPosition | apps/server/src/database/repos/database/database-row.repo.ts:97 | Inserting a row into a sorted listing keeps it sorted and adds exactly that row. |
| RowStore.SortByPosition | apps/server/src/database/repos/database/database-row.repo.ts:97 | The listing sort returns a permutation of its input in ascending byte order of position. |
| RowStore.ListLiveSpec | apps/server/src/database/repos/database/database-row.repo.ts:73-97 | The listing of a database is sorted ascending by position and is a permutation of its live rows, so it holds exactly the live rows of that database. |
| RowStore.LastPosition | apps/server/src/database/repos/database/database-row.repo.ts:109-120 | The last position is None exactly when the database has no live row; otherwise it is the position of a live row and no live row of the database is above it. |
| RowStore.ApplyPatchSpec | apps/server/src/database/repos/database/database-row.repo.ts:134-148 | An update of a record sets exactly the supplied columns and `updatedAt`, and every other column keeps its value. |
| RowStore.WithoutRow | apps/server/src/database/repos/database/database-row.repo.ts:159-165 | A hard delete keeps exactly the records with another id, tombstoned or not. |
| RowStore.WithoutDatabaseRows | apps/server/src/database/migrations/20260105T100100-database_rows.ts:17-19 | The cascade keeps exactly the records of other databases. |
| RowStore.WithoutRowUnique | apps/server/src/database/repos/database/database-row.repo.ts:159-165 | A hard delete keeps ids and slugs unique. |
| RowStore.WithoutDatabaseRowsUnique | apps/server/src/database/migrations/20260105T100100-database_rows.ts:17-19 | The cascade keeps ids and slugs unique. |
| RowStore.WithoutAbsentRow | apps/server/src/database/repos/database/database-row.repo.ts:159-165 | A hard delete of an id that is not stored leaves the table as it is. |
| RowStore.WithoutRowIdempotent | apps/server/src/database/repos/database/database-row.repo.ts:159-165 | Deleting the same id twice is the same as deleting it once. |
| RowStore.TombstoneRowSpec | apps/server/src/database/repos/database/database-row.repo.ts:150-157 | A soft delete keeps every record, sets only the target's `deletedAt`, and hides the target from both lookups. |
| RowStore.LiveRowsOfTombstoned | apps/server/src/database/repos/database/database-row.repo.ts:167-174 | After a database's rows are soft-deleted, that database has no live rows and every other database keeps its live rows. |
| RowStore.TombstoneDatabaseRowsSpec | apps/server/src/database/repos/database/database-row.repo.ts:167-174 | After a database's rows are soft-deleted, its listing and count are empty and every other database's listing is unchanged. |
| RowStore.PatchRowsSpec | apps/server/src/database/repos/database/database-row.repo.ts:134-148 | After an update of a stored record, ids and slugs stay unique, the target is the patched record, a lookup by its id returns it if live, and every other record is unchanged. |
| RowStore.DatabaseRowRepo.FindById | apps/server/src/database/repos/database/database-row.repo.ts:37-53 | Nothing exactly when no live record has the id. Otherwise a live stored record with that id, carrying its content exactly when asked for. |
| RowStore.DatabaseRowRepo.FindBySlugId | apps/server/src/database/repos/database/database-row.repo.ts:55-71 | Nothing exactly when no live record has the slug. Otherwise a live stored record with that slug, carrying its content exactly when asked for. |
| RowStore.DatabaseRowRepo.FindByDatabaseId | apps/server/src/database/repos/database/database-row.repo.ts:73-107 | The page has the requested page number and limit and at most `limit` rows. Each row is a live stored row of the database, in ascending position order. |
| RowStore.PageOfListing | apps/server/src/database/repos/database/database-row.repo.ts:94-106 | A page of a database's listing is sorted and holds only live rows of that database. |
| RowStore.DatabaseRowRepo.GetLastRowPosition | apps/server/src/database/repos/database/database-row.repo.ts:109-120 | Nothing exactly when the database has no live row. Otherwise a position held by one of its live rows and at or above every live row's position. |
| RowStore.DatabaseRowRepo.CountRows | apps/server/src/database/repos/database/database-row.repo.ts:176-185 | The count is the length of the database's unpaged listing. |
| RowStore.DatabaseRowRepo.InsertRow | apps/server/src/database/repos/database/database-row.repo.ts:122-132 | An insert adds exactly one record, with a null content and the store-assigned id and timestamps, after the others. It reports Conflict, changing nothing, exactly when the slug or the id is already stored. |
| RowStore.DatabaseRowRepo.UpdateRow | apps/server/src/database/repos/database/database-row.repo.ts:134-148 | The table becomes the old table with the patch and the new `updatedAt` applied to the records with that id. |
| RowStore.DatabaseRowRepo.DeleteRow | apps/server/src/database/repos/database/database-row.repo.ts:150-157 | The table becomes the old table with `deletedAt` set on the records with that id. |
| RowStore.DatabaseRowRepo.PermanentlyDeleteRow | apps/server/src/database/repos/database/database-row.repo.ts:159-165 | The table becomes the old table without the records with that id. |
| RowStore.DatabaseRowRepo.DeleteRowsByDatabaseId | apps/server/src/database/repos/database/database-row.repo.ts:167-174 | The table becomes the old table with `deletedAt` set on every record of that database. |
| RowStore.DatabaseRowRepo.CascadeDatabaseDelete | apps/server/src/database/migrations/20260105T100100-database_rows.ts:17-19 | The table becomes the old table without the records of that database. |
| DatabaseStore.FirstLive | apps/server/src/database/repos/database/database.repo.ts:26-28 | The first database that matches the lookup and is not tombstoned, or -1 when there is none. |
| DatabaseStore.FindDatabase | apps/server/src/database/repos/database/database.repo.ts:18-44 | A lookup finds nothing exactly when every matching database is tombstoned or there is none; a found database matches, is live and is stored. |
| DatabaseStore.FindDatabaseUnique | apps/server/src/database/repos/database/database.repo.ts:18-44 | With unique ids and slugs, looking up a database's id or slug returns that database when it is live, and nothing when it is tombstoned. |
| DatabaseStore.OnPageDatabases | apps/server/src/database/repos/database/database.repo.ts:46-58 | The databases of a page are exactly the live databases with that page id and workspace id. |
| DatabaseStore.ApplyPatchSpec | apps/server/src/database/repos/database/database.repo.ts:73-87 | An update of a database sets exactly the supplied columns and `updatedAt`. |
| DatabaseStore.WithoutDatabase | apps/server/src/database/repos/database/database.repo.ts:98-104 | A hard delete keeps exactly the databases with another id. |
| DatabaseStore.WithoutDatabaseUnique | apps/server/src/database/repos/database/database.repo.ts:98-104 | A hard delete keeps ids and slugs unique. |
| DatabaseStore.WithoutAbsentDatabase | apps/server/src/database/repos/database/database.repo.ts:98-104 | A hard delete of an id that is not stored changes nothing. |
| DatabaseStore.WithoutDatabaseIdempotent | apps/server/src/database/repos/database/database.repo.ts:98-104 | Deleting the same database twice is the same as deleting it once. |
| DatabaseStore.TombstoneDatabaseSpec | apps/server/src/database/repos/database/database.repo.ts:89-96 | A soft delete keeps every record, sets only that database's `deletedAt`, and hides it from both lookups. |
| DatabaseStore.PatchDatabasesSpec | apps/server/src/database/repos/database/database.repo.ts:73-87 | After an update of a stored database, ids and slugs stay unique, the target is patched, a lookup by its id returns it if live, and every other record is unchanged. |
| DatabaseStore.DatabaseRepo.FindById | apps/server/src/database/repos/database/database.repo.ts:18-30 | Nothing exactly when no live database has the id. Otherwise a live stored database with that id. |
| DatabaseStore.DatabaseRepo.FindBySlugId | apps/server/src/database/repos/database/database.repo.ts:32-44 | Nothing exactly when no live database has the slug. Otherwise a live stored database with that slug. |
| DatabaseStore.DatabaseRepo.FindByPageId | apps/server/src/database/repos/database/database.repo.ts:46-58 | Exactly the live stored databases with that page id and workspace id. |
| DatabaseStore.DatabaseRepo.InsertDatabase | apps/server/src/database/repos/database/database.repo.ts:60-71 | An insert adds exactly one record, with an empty view configuration and the store-assigned id and timestamps. It reports Conflict, changing nothing, exactly when the slug or the id is taken. |
| DatabaseStore.DatabaseRepo.UpdateDatabase | apps/server/src/database/repos/database/database.repo.ts:73-87 | The table becomes the old table with the patch and the new `updatedAt` applied to the record with that id. |
| DatabaseStore.DatabaseRepo.DeleteDatabase | apps/server/src/database/repos/database/database.repo.ts:89-96 | The table becomes the old table with `deletedAt` set on that database; the rows table is outside its frame. |
| DatabaseStore.DatabaseRepo.PermanentlyDeleteDatabase | apps/server/src/database/repos/database/database.repo.ts:98-104 | The database record goes, and the foreign-key cascade removes every row of that database from the rows table. |
| DatabaseServices.FindIndex | apps/server/src/core/database/services/database.service.ts:107 | The first position holding the column id, or -1 exactly when no column has it. |
| DatabaseServices.FilterOut | apps/server/src/core/database/services/database.service.ts:133 | The filtered list holds exactly the columns with another id, and has the old length exactly when no column had the id. |
| DatabaseServices.FilterOutSplice | apps/server/src/core/database/services/database.service.ts:133 | With unique ids, filtering out a present id removes just its entry and keeps the other columns in order. |
| DatabaseServices.FilterOutAbsent | apps/server/src/core/database/services/database.service.ts:135-137 | Filtering out an id that no column has leaves the list as it is. |
| DatabaseServices.FilterOutAll | apps/server/src/core/database/services/database.service.ts:139-142 | Filtering out an id that every column has leaves nothing. |
| DatabaseServices.FilterOutUnique | apps/server/src/core/database/services/database.service.ts:133 | Filtering keeps column ids unique. |
| DatabaseServices.AddedSchemaSpec | apps/server/src/core/database/services/database.service.ts:86-93 | Adding a column appends one entry with the fresh id and the given name, type and options. Earlier entries are unchanged, and ids stay unique when the fresh id is new. |
| DatabaseServices.UpdatedSchemaSpec | apps/server/src/core/database/services/database.service.ts:107-119 | Updating a column fails with NotFound exactly when no entry has the id. Otherwise length, ids and the target's place are kept. Supplied fields replace the target's, omitted ones are kept, and options are replaced only when supplied. Every other entry is unchanged. |
| DatabaseServices.DeletedSchemaSpec | apps/server/src/core/database/services/database.service.ts:133-142 | Deleting a column fails with NotFound when no entry has the id, and with InvalidState exactly when every entry has it. Otherwise the result is non-empty and holds exactly the other entries. With unique ids, which every stored schema has, it is the old list with the one entry cut out, order kept. |
| DatabaseServices.SchemaNeverEmpty | apps/server/src/core/database/services/database.service.ts:139-142 | From a non-empty column list, any sequence of add, update and delete calls, failed calls included, leaves at least one column. |
| DatabaseServices.CreatedSchemaNeverEmpty | apps/server/src/core/database/services/database.service.ts:24-30 | A database created with its single title column has at least one column after any sequence of schema calls. |
| DatabaseServices.DatabaseService.FindById | apps/server/src/core/database/services/database.service.ts:46-52 | NotFound exactly when no live database has the id. Otherwise a live stored database with that id. |
| DatabaseServices.DatabaseService.FindBySlugId | apps/server/src/core/database/services/database.service.ts:54-60 | NotFound exactly when no live database has the slug. Otherwise a live stored database with that slug. |
| DatabaseServices.DatabaseService.Create | apps/server/src/core/database/services/database.service.ts:18-44 | The new database has exactly one column, a text column named Title with the fresh id. Its title is the given one, or "Untitled Database" when none or an empty one is given. It reports Conflict, changing nothing, when the slug or id is taken. |
| DatabaseServices.DatabaseService.Update | apps/server/src/core/database/services/database.service.ts:62-75 | NotFound changes nothing. Otherwise title, icon and view configuration keep their previous values when not supplied, the column list is untouched, and the re-read record is returned. |
| DatabaseServices.DatabaseService.Delete | apps/server/src/core/database/services/database.service.ts:77-80 | NotFound comes before any write. Otherwise only the database record is tombstoned; rows are outside the service's frame. |
| DatabaseServices.DatabaseService.AddProperty | apps/server/src/core/database/services/database.service.ts:82-101 | NotFound for a missing or tombstoned database changes nothing. Otherwise the stored column list becomes the added schema, and the updated record is returned. The fresh column id is new to the database, so column ids stay unique. |
| DatabaseServices.DatabaseService.UpdateProperty | apps/server/src/core/database/services/database.service.ts:103-127 | NotFound for a missing database or column changes nothing. Otherwise the stored column list becomes the updated schema, and the updated record is returned. |
| DatabaseServices.DatabaseService.DeleteProperty | apps/server/src/core/database/services/database.service.ts:129-150 | NotFound or InvalidState changes nothing. Otherwise the stored column list becomes the filtered schema, which is never empty and is the old list with the one target entry cut out, order kept. |
| RowServices.LowerIsCreated | apps/server/src/core/database/services/database-row.service.ts:48 | A column name lower-cases to "created" exactly when it has seven characters, each the small or the capital letter of "created" at its place. |
| RowServices.AutoFilledSpec | apps/server/src/core/database/services/database-row.service.ts:43-51 | The fill adds exactly the ids of date columns named "created" in any case. It sets each of them to today's date unless the supplied value is truthy, and keeps every other supplied value. |
| RowServices.FillCreatedColumns | apps/server/src/core/database/services/database-row.service.ts:46-51 | The loop over the database's columns computes the fill. |
| RowServices.MergeSpec | apps/server/src/core/database/services/database-row.service.ts:115-123 | A merge keeps every existing key and adds every new key, the new value wins on shared keys, and a stored value that is not an object counts as empty. |
| RowServices.MergeEmpty | apps/server/src/core/database/services/database-row.service.ts:117-122 | Merging an empty object keeps the stored object. |
| RowServices.SortedOrder | apps/server/src/database/repos/database/database-row.repo.ts:97 | In a listing sorted by position, a strictly smaller position sits at a strictly smaller index. |
| RowServices.ListedLast | apps/server/src/core/database/services/database-row.service.ts:39-40 | A live row placed above every other live row of its database is the last row of the database's listing. |
| RowServices.AboveLast | apps/server/src/core/database/services/database-row.service.ts:39-40 | A key above the last live position of a database is above the position of every live row of that database. |
| RowServices.AppendedListedLast | apps/server/src/core/database/services/database-row.service.ts:53-63 | A live row appended above every live row of its database is the last row of that database's listing. |
| RowStore.SliceSorted | apps/server/src/database/repos/database/database-row.repo.ts:97 | A slice of a sorted listing is sorted. |
| RowStore.PageOfSorted | apps/server/src/database/repos/database/database-row.repo.ts:103-106 | A page of a sorted listing is sorted and holds only listed rows. |
| RowServices.DatabaseRowService.FindById | apps/server/src/core/database/services/database-row.service.ts:76-82 | NotFound exactly when no live row has the id. Otherwise a live stored row with that id, with its content exactly when asked for. |
| RowServices.DatabaseRowService.FindBySlugId | apps/server/src/core/database/services/database-row.service.ts:84-90 | NotFound exactly when no live row has the slug. Otherwise a live stored row with that slug, with its content exactly when asked for. |
| RowServices.DatabaseRowService.List | apps/server/src/core/database/services/database-row.service.ts:92-98 | Page and limit default to 1 and 50 when missing or zero. The page holds at most that many rows, all live rows of the database, in ascending position order. |
| RowServices.DatabaseRowService.CountRows | apps/server/src/core/database/services/database-row.service.ts:172-174 | The count is the length of the database's full listing. |
| RowServices.DatabaseRowService.Create | apps/server/src/core/database/services/database-row.service.ts:27-66 | NotFound for a missing database and Conflict for a taken slug or id change nothing. Otherwise one row is appended with the given title and icon and the filled properties. Its position is well-formed and above every live row of the database, so it is the last row of the listing. |
| RowServices.DatabaseRowService.PositionAtEnd | apps/server/src/core/database/services/database-row.service.ts:39-40 | The key generated after the last live position is well-formed and above the position of every live row of the database. |
| RowServices.DatabaseRowService.InsertLast | apps/server/src/core/database/services/database-row.service.ts:53-63 | Inserting a row positioned above every live row of its database reports Conflict exactly when the slug or id is taken, and otherwise appends exactly that row, which becomes the last of the listing. |
| RowServices.DatabaseRowService.Update | apps/server/src/core/database/services/database-row.service.ts:100-128 | NotFound changes nothing. Otherwise title and icon change only when supplied (null included), supplied properties are merged over the stored object, the updater is always recorded, and position and content are untouched. |
| RowServices.DatabaseRowService.UpdateContent | apps/server/src/core/database/services/database-row.service.ts:130-142 | NotFound changes nothing. Otherwise the content is replaced (null when none is given) and the updater recorded, nothing else changes, and the row comes back with its content. |
| RowServices.DatabaseRowService.Move | apps/server/src/core/database/services/database-row.service.ts:144-165 | NotFound for a missing row or chosen anchor changes nothing; a non-empty afterRowId takes precedence over beforeRowId. The new position is well-formed and strictly after the after-anchor or strictly before the before-anchor. Only position and `updatedAt` change. |
| RowServices.DatabaseRowService.Delete | apps/server/src/core/database/services/database-row.service.ts:167-170 | NotFound comes before any write. Otherwise the row is tombstoned and kept. |

## Left out

- Keys.KeyBetween: the contract covers only well-formed bounds in order. On other bounds it promises nothing. The library's own algorithm, its random jitter, key lengths and alphabet are not modelled.
- Pagination.Paginate: the pagination helper is not part of this model. Its slice, `hasNextPage` and `hasPrevPage` are stated as an assumption.
- RowServices.Lower: only ASCII letters are lower-cased. JavaScript's `toLowerCase` also maps other capitals, so a column named with non-ASCII capitals is outside the model.
- Row positions: the `position` column is nullable in the store, but the model types it as a key and `Valid()` requires every stored position to be well-formed. Every modelled write stores a generated key. A NULL position, which a descending sort lists first, so that `getLastRowPosition` returns null, is not modelled.
- JSON parsing and serialisation: the `properties`, `content`, `viewConfig` and `options` strings arrive parsed. Parse errors and a parsed row-properties payload that is not an object are not modelled.
- `parseProperties` in both services: the stored column list is a typed sequence. A null or string-encoded list in a record is not modelled.
- Id, slug and clock sources (`uuidv4`, `generateSlugId`, `new Date()`, the database's default ids and timestamps): they are parameters.
- Request validation: the services are modelled on validated input. Validation rejects a page below 1 and a limit outside 1..100; the service itself only replaces a missing or zero page or limit.
- `ReorderPropertiesDto`: no service operation implements it.
- Row property values are not type-checked by the program. `PropertyTypes.WellTypedProperties` describes the declared shapes but is not enforced.
- Store errors other than the unique constraints are not modelled, for example a foreign-key violation for an unknown space.
- The `ydoc` and `textContent` columns, the `includeCreator` join, and the numeric conversion of the count query.
- Transactions and concurrency: reads and writes are separate calls, so the last writer wins. The model is sequential.
- HTTP controllers, authentication and authorisation: callers are assumed to have passed them.
- Client code and editor extensions.
