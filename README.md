# MySQLTable: a model of an active-record table mapper

`MySQLTable` is the abstract base class of a small PHP object-relational mapper.
Each concrete table (for example `Demo`) extends it and may set a table name, an
identifier column (`id` by default), per-operation column blacklists and a list
of search columns. An instance of the class is one record. It has two pieces of
state:

- the **column set**: an ordered map from column name to value. The constructor
  fills it from the table's column list, and every column starts as null.
  `get`, `set`, `hydrate` and `getColumns` read or write it.
- the **pending query** (`find_request`): a WHERE text, a map of bound
  parameters, and GROUP BY, ORDER BY and LIMIT texts.
  - `findAll`, `findWhere` and `search` reset it and start a new query.
  - `bindParam`, `groupBy`, `orderBy` and `limit` add to it.
  - `fetch` turns it into a `SELECT` and clears it.

`save` builds an INSERT or UPDATE from the column set. `remove` builds a DELETE.

The model has four modules:

- `Php` (php.dfy): the parts of PHP the class relies on. This covers scalar
  values, `isset` and `empty()`, `implode` (with a one-character `explode` to
  read a join back), `trim` with a character list,
  ASCII `strtolower`, and the decimal rendering of integers in string
  interpolation.
- `PhpArray` (php_array.dfy): PHP's ordered arrays, and the property table of
  a `stdClass`, as sequences of key/value entries. It provides lookup,
  assignment (a key keeps its position, or a new key is appended) and `unset`.
- `MySQLTable` (mysql_table.dfy): the class itself, as a Dafny `class Table`.
  - The fields `columns` and `findRequest` are updated in place.
  - Every method is proved against a specification function over plain values:
    `Hydrated`, `SearchRequest`, `WhereOf`, `GroupByClause`, `OrderClause`,
    `LimitClause`, `SelectSql`, `SaveStatement` and `RemoveStatement`.
  - Lemmas state what those functions mean.
  - Execution is abstract. `fetch`, `save` and `remove` return the statement
    they would prepare: its SQL text and its parameter bindings in binding
    order.
- `Demo` (demo.dfy): the `Demo` table's configuration and the repository's
  usage walk-through, stated as a client of the class's contracts.

The model follows the code wherever the code and the class's documented
intent disagree:

- `get`, `set` and `hydrate` use `isset`, which is false for a null value.
  Every column starts as null, so on a fresh record `set` and `hydrate` store
  nothing and `get` answers `false`. `Demo.Walkthrough` proves this for the
  walk-through's `set`/`get` pair.
- There is no query-builder state machine in the code. `bindParam`, `groupBy`,
  `orderBy` and `limit` write into the pending query whether or not a query was
  started. `fetch` reads whatever is there and then clears it.
- `findWhere` with an empty or non-list argument leaves the WHERE text null.
  Any parameters bound before the call are discarded.
- `save` tests the identifier with `empty()`. A record whose identifier is `0`,
  `"0"`, `""`, `false` or null is inserted, not updated.
- `search` removes the trailing `" OR "` with `trim(..., 'OR ')`, which strips a
  set of characters from both ends, not a suffix. The model applies that
  character-set trim literally. `MySQLTable.SearchWhereTrimmed` proves that it
  leaves exactly the intended disjunction.
- The UPDATE built by `save` is keyed by the placeholder `:id`, and `id` is bound
  first to the identifier's value. Each assigned column `c` is bound as `:c`.
  The binding names differ as strings. The driver, however, binds `id` as `:id`.
  So when the identifier column is not `id` and the table also has a column named
  `id` that is not in the update blacklist, the two values go to the same
  placeholder.
  - `MySQLTable.UpdateIdClash` exhibits the clash for identifier `uuid` with
    columns `uuid` and `id`.
  - `MySQLTable.UpdateIdBoundOnce` proves that `:id` is bound once whenever the
    identifier is `id`, no column is named `id`, or `id` is in the update
    blacklist.

## Model

| member | source | states |
|---|---|---|
| `Php.IsSet` | classes/MySQLTable.class.php:65 | `isset` holds of exactly the non-null values |
| `Php.EmptyString` | classes/MySQLTable.class.php:270-273 | the empty string is `empty()`, and an `empty()` string has at most one character, so any longer clause text counts as present |
| `Php.Empty` | classes/MySQLTable.class.php:314 | `empty()` holds of exactly null, `false`, 0, "" and "0"; a value that is not empty is `isset`, so `remove` only deletes records whose identifier is set (:375) |
| `Php.Join` | classes/MySQLTable.class.php:223 | `implode` of no parts is "", of one part is that part, and starts with the first part |
| `Php.JoinSnoc` | classes/MySQLTable.class.php:191 | appending a part to a non-empty list appends the separator and the part, which is how the `findWhere` loop builds its AND-list |
| `Php.JoinEndsWithLast` | classes/MySQLTable.class.php:156 | a non-empty `implode` ends with its last part |
| `Php.ExplodeJoin` | classes/MySQLTable.class.php:223 | splitting a comma-join of comma-free parts on commas gives the parts back, so `implode` loses nothing |
| `Php.TrimLeft` | classes/MySQLTable.class.php:161 | the result is a suffix of the input, everything dropped is in the character list, and the result does not start with a list character |
| `Php.TrimRight` | classes/MySQLTable.class.php:161 | the result is a prefix of the input, everything dropped is in the character list, and the result does not end with a list character |
| `Php.Trim` | classes/MySQLTable.class.php:161 | the result is a substring of the input; everything dropped before and after it is a list character, and the result's first and last characters are not |
| `Php.TrimRightSuffix` | classes/MySQLTable.class.php:161 | stripping a tail made only of list characters from a text that does not end in one gives back exactly that text |
| `Php.TrimLeftNoop` | classes/MySQLTable.class.php:161 | a text that does not start with a list character loses nothing on the left |
| `Php.LowerChar` | classes/MySQLTable.class.php:30 | 'A'..'Z' become the matching letter of 'a'..'z'; every other character is kept; the result is never upper-case |
| `Php.ToLower` | classes/MySQLTable.class.php:30 | `strtolower` keeps the length, turns each upper-case ASCII letter into its lower-case letter, and keeps every other character |
| `Php.DigitChar` | classes/MySQLTable.class.php:257 | the digit character of `d` is a decimal digit whose value is `d` |
| `Php.NatToString` | classes/MySQLTable.class.php:257 | the decimal rendering is non-empty and made of digits only (no leading zero: `NatToStringCanonical`; parses back: `NatToStringRoundTrip`) |
| `Php.IntToString` | classes/MySQLTable.class.php:257 | the rendering of an interpolated integer is never empty (no leading zero: `IntToStringCanonical`; parses back: `IntToStringRoundTrip`) |
| `Php.NatToStringCanonical` | classes/MySQLTable.class.php:257 | the decimal rendering of a positive number does not start with '0' |
| `Php.IntToStringCanonical` | classes/MySQLTable.class.php:257 | an interpolated non-zero integer has no leading zero after its optional '-' sign |
| `Php.NatToStringRoundTrip` | classes/MySQLTable.class.php:257 | parsing the decimal rendering of `n` gives back `n` |
| `Php.IntToStringRoundTrip` | classes/MySQLTable.class.php:257 | an interpolated integer starts with '-' exactly when it is negative, has only digits after that, and parses back to itself |
| `PhpArray.Keys` | classes/MySQLTable.class.php:324-325 | `array_keys` gives one key per entry |
| `PhpArray.KeysAppend` | classes/MySQLTable.class.php:324-325 | the keys of two arrays one after the other are the keys of the first followed by those of the second, so the key order is the entry order |
| `PhpArray.Lookup` | classes/MySQLTable.class.php:65 | a key is found exactly when it is one of the keys, and what is found is stored under that key |
| `PhpArray.LookupAt` | classes/MySQLTable.class.php:89 | with distinct keys, looking up the key at position `i` finds the value at position `i` |
| `PhpArray.Put` | classes/MySQLTable.class.php:42 | assigning to a key keeps the key order (or appends a new key), makes the key hold the value, and changes no other key |
| `PhpArray.PutPresent` | classes/MySQLTable.class.php:90 | assigning to a present key replaces that one entry in place |
| `PhpArray.Without` | classes/MySQLTable.class.php:318-321 | removing keys never lengthens the array (the order kept is stated by `WithoutAppend`) |
| `PhpArray.WithoutLookup` | classes/MySQLTable.class.php:318-321 | after the removal, exactly the unlisted keys remain, each with its value, and distinct keys stay distinct |
| `PhpArray.WithoutNone` | classes/MySQLTable.class.php:318 | an empty blacklist removes nothing |
| `PhpArray.WithoutWithout` | classes/MySQLTable.class.php:338-345 | removing the identifier and then the update blacklist is one removal of both |
| `PhpArray.WithoutAppend` | classes/MySQLTable.class.php:319-325 | removal keeps the original order: the last entry stays last unless its key is removed |
| `PhpArray.Unset` | classes/MySQLTable.class.php:320 | `unset` removes the key and never lengthens the array |
| `PhpArray.UnsetLookup` | classes/MySQLTable.class.php:320 | after `unset`, the key is gone and every other key keeps its value |
| `MySQLTable.TableName` | classes/MySQLTable.class.php:29-31 | a configured name that is not `empty()` is kept; otherwise the name is `ToLower` of the class name: same length, no capital letters |
| `MySQLTable.Dedup` | classes/MySQLTable.class.php:40-43 | the column names appear once each and are exactly the reported ones; a report without repeats is kept in its order |
| `MySQLTable.ColumnValue` | classes/MySQLTable.class.php:65 | reading a column gives its stored value, and null for a column the record does not have |
| `MySQLTable.HasValue` | classes/MySQLTable.class.php:65 | `isset` on a column holds exactly when the column exists and its value is not null |
| `MySQLTable.Table.constructor` | classes/MySQLTable.class.php:24-45 | the column set holds exactly the reported columns, once each, all null; the table name comes from `TableName`; no query is pending |
| `MySQLTable.Table.GetColumns` | classes/MySQLTable.class.php:52-55 | the result holds exactly the introspected columns, once each, with their current values |
| `MySQLTable.Table.Get` | classes/MySQLTable.class.php:63-66 | the result is never null; it is the stored value when the column is set, and `false` otherwise |
| `MySQLTable.Table.Set` | classes/MySQLTable.class.php:75-78 | on a set column it stores the value and returns it; otherwise it returns `false` and the column set is unchanged; no other column changes; a later `get` reads the new value back |
| `MySQLTable.Hydrated` | classes/MySQLTable.class.php:85-94 | hydrating never adds or removes a column and keeps the column order |
| `MySQLTable.HydratedLookup` | classes/MySQLTable.class.php:88-92 | a column takes the data's value exactly when it is a key of the data and is currently set; every other column keeps its value |
| `MySQLTable.HydratedEmpty` | classes/MySQLTable.class.php:87 | hydrating with empty data changes nothing |
| `MySQLTable.HydratedStep` | classes/MySQLTable.class.php:88-92 | one pass of the loop performs the guarded assignment for the next data entry |
| `MySQLTable.LookupAppend` | classes/MySQLTable.class.php:88 | appending an entry with a new key leaves the lookup of every other key unchanged |
| `MySQLTable.Table.Hydrate` | classes/MySQLTable.class.php:85-94 | the loop produces `Hydrated` of the old column set: columns that are set and are keys of the data get the data's values; all others are unchanged |
| `MySQLTable.LikeTerms` | classes/MySQLTable.class.php:155-157 | one `<column> LIKE :term` predicate per search column, in order |
| `MySQLTable.SearchPrefixJoin` | classes/MySQLTable.class.php:153-157 | the text the loop builds is "WHERE " and the OR-joined predicates, followed by one dangling " OR " |
| `MySQLTable.LikeTermsSnoc` | classes/MySQLTable.class.php:155-157 | one more search column adds one more predicate at the end |
| `MySQLTable.SearchPrefix` | classes/MySQLTable.class.php:153-157 | the untrimmed text starts with "WHERE " and, with a search column, ends with " LIKE :term OR ": the two facts the character-set trim depends on |
| `MySQLTable.SearchWhereTrimmed` | classes/MySQLTable.class.php:161 | the character-set trim of the built text equals "WHERE " + the predicates joined by " OR " |
| `MySQLTable.SearchRequest` | classes/MySQLTable.class.php:148-165 | with no search columns, nothing is pending; otherwise the only parameter is `term` bound to "%term%", and there is no GROUP BY, ORDER BY or LIMIT |
| `MySQLTable.Table.Search` | classes/MySQLTable.class.php:148-165 | the pending query becomes `SearchRequest`, so the WHERE is the OR of all search columns |
| `MySQLTable.Table.FindAll` | classes/MySQLTable.class.php:172-177 | nothing is pending, so the next SELECT is over the whole table |
| `MySQLTable.WhereOf` | classes/MySQLTable.class.php:189-195 | a WHERE is set exactly when the criteria are a non-empty list |
| `MySQLTable.Table.FindWhere` | classes/MySQLTable.class.php:185-198 | earlier clauses and parameters are discarded, and the WHERE is "WHERE " + the criteria joined by " AND " (none for an empty or non-list argument) |
| `MySQLTable.Table.BindParam` | classes/MySQLTable.class.php:207-212 | the key now holds the value (last write wins), every other parameter and every clause is unchanged |
| `MySQLTable.GroupByClause` | classes/MySQLTable.class.php:222-227 | a list is comma-joined after "GROUP BY "; a string is used as given |
| `MySQLTable.GroupByReadBack` | classes/MySQLTable.class.php:222-227 | after "GROUP BY " comes the single column as given, or text that splits on commas back into the list of comma-free columns |
| `MySQLTable.Table.GroupBy` | classes/MySQLTable.class.php:220-230 | only the GROUP BY clause changes, and it becomes `GroupByClause` |
| `MySQLTable.OrderClause` | classes/MySQLTable.class.php:241 | " DESC" is appended exactly when the direction is the integer -1; otherwise the clause is "ORDER BY " + column |
| `MySQLTable.Table.OrderBy` | classes/MySQLTable.class.php:239-244 | only the ORDER BY clause changes, and it becomes `OrderClause` |
| `MySQLTable.LimitClause` | classes/MySQLTable.class.php:255-257 | the offset is (page - 1) * perPage and the count is perPage |
| `MySQLTable.LimitFirstPage` | classes/MySQLTable.class.php:255-257 | page 1 starts at offset 0 |
| `MySQLTable.LimitReadBack` | classes/MySQLTable.class.php:257 | the offset and the count are comma-free and can be parsed back from the clause |
| `MySQLTable.Table.Limit` | classes/MySQLTable.class.php:253-260 | only the LIMIT clause changes, and it becomes `LimitClause` |
| `MySQLTable.Clause` | classes/MySQLTable.class.php:270-273 | an absent clause, or one that is "" or "0", contributes nothing; any other clause contributes one space and its text |
| `MySQLTable.SelectSql` | classes/MySQLTable.class.php:269-273 | with nothing pending, the SELECT is over the whole table |
| `MySQLTable.SelectSqlFull` | classes/MySQLTable.class.php:269-273 | when all four clauses are set, they appear in the fixed order WHERE, GROUP BY, ORDER BY, LIMIT, each after one space |
| `MySQLTable.Table.Fetch` | classes/MySQLTable.class.php:267-283 | it prepares `SelectSql` of the pending query and binds every pending parameter in order; it then clears the builder, so an immediate second fetch selects the whole table |
| `MySQLTable.Placeholders` | classes/MySQLTable.class.php:325 | every column name, prefixed with ':' |
| `MySQLTable.Assignments` | classes/MySQLTable.class.php:347-349 | one `name=:name` per column, in column order |
| `MySQLTable.PlaceholderBindings` | classes/MySQLTable.class.php:329-331 | the bound names are exactly the placeholders of the columns, in order |
| `MySQLTable.PlaceholdersDistinct` | classes/MySQLTable.class.php:325 | distinct column names give distinct placeholders |
| `MySQLTable.InsertStatement` | classes/MySQLTable.class.php:324-331 | an INSERT whose bound names are exactly the VALUES placeholders of the columns, in column order, none bound twice (the SQL text itself: `InsertValuesBound`) |
| `MySQLTable.UpdateStatement` | classes/MySQLTable.class.php:347-360 | an UPDATE keyed by `=:id`: `id` is bound first to the identifier's value, then each assigned column's placeholder in column order; with distinct columns the binding names are pairwise distinct strings (the driver's reading of `id` as `:id` is in `UpdateIdClash`; the SQL text itself: `UpdateSetBound`) |
| `MySQLTable.InsertValuesBound` | classes/MySQLTable.class.php:324-331 | the INSERT text lists the column names and then, in the same order, exactly the names the statement binds, as its VALUES |
| `MySQLTable.UpdateSetBound` | classes/MySQLTable.class.php:347-360 | the UPDATE text is `UPDATE table SET` the assignments `WHERE identifier=:id`; it binds one name more than the columns, and the i-th assignment sets the i-th column to the name bound right after `id` at position i |
| `MySQLTable.DeleteStatement` | classes/MySQLTable.class.php:376-377 | a DELETE keyed by `=:id`, with only `id` bound, to the identifier's value |
| `MySQLTable.SaveStatement` | classes/MySQLTable.class.php:310-364 | an INSERT when the identifier is `empty()`, otherwise an UPDATE with `id` bound first to the identifier's value; with distinct columns the binding names are pairwise distinct strings |
| `MySQLTable.PdoName` | classes/MySQLTable.class.php:356 | the name a parameter is bound under always starts with ':'; a name that already does is kept, any other gets the colon in front |
| `MySQLTable.UpdateIdBoundOnce` | classes/MySQLTable.class.php:347-360 | when the identifier is `id`, no column is named `id`, or `id` is update-blacklisted, `:id` is bound only by the identifier binding |
| `MySQLTable.AllNullStaysNull` | classes/MySQLTable.class.php:42-94 | on a column set whose values are all null (as the constructor leaves it), no column has a value, `hydrate` changes nothing, `save` builds an INSERT and `remove` builds no statement |
| `MySQLTable.UpdateIdClash` | classes/MySQLTable.class.php:348-359 | with identifier `uuid` and columns `uuid` and `id`, the UPDATE sets `id=:id` and is keyed by `uuid=:id`, and both bindings go to `:id` |
| `MySQLTable.PlaceholderLookup` | classes/MySQLTable.class.php:329-331 | every column's placeholder is bound to that column's value, and nothing else is bound |
| `MySQLTable.RemoveStatement` | classes/MySQLTable.class.php:371-383 | no DELETE is prepared exactly when the identifier is `empty()` |
| `MySQLTable.SaveColumns` | classes/MySQLTable.class.php:310-364 | INSERT: exactly the columns outside the insert blacklist are written, each bound to its value. UPDATE: `id` is bound first to the identifier's value, and exactly the columns other than the identifier and the update blacklist are assigned, each bound to its value |
| `MySQLTable.SaveRemoveAgree` | classes/MySQLTable.class.php:314-383 | `remove` prepares a DELETE exactly when `save` would prepare an UPDATE, and both bind `id` to the same value |
| `MySQLTable.RemoveColumns` | classes/MySQLTable.class.php:318-321 | unsetting the blacklisted columns one at a time leaves `Without(columns, blacklist)` |
| `MySQLTable.BindColumns` | classes/MySQLTable.class.php:329-331 | the binding loop binds every column under its placeholder, in column order |
| `MySQLTable.Table.Save` | classes/MySQLTable.class.php:310-364 | the statement prepared is `SaveStatement`: an INSERT when the identifier is `empty()`, otherwise an UPDATE (see `SaveColumns`) |
| `MySQLTable.Table.Remove` | classes/MySQLTable.class.php:371-383 | the statement prepared is `RemoveStatement`: a DELETE keyed by the identifier, or nothing when it is `empty()` |
| `Demo.DemoSave` | Demo.class.php:2-9 | saving a `Demo` record keyed by the default `id` (classes/MySQLTable.class.php:14): an INSERT binds every column; an UPDATE binds `id` first, binds `:id` only once, never assigns `id` or `field_name`, and binds every other column to its value |
| `Demo.FirstPageOfTen` | index.php:23 | `limit(1, 10)` gives "LIMIT 0,10" |
| `Demo.CriteriaClauses` | index.php:19-22 | the walk-through's criteria give "WHERE field_name=:field_name", "GROUP BY field_name" and "ORDER BY field_name DESC" |
| `Demo.CriteriaSql` | index.php:19-24 | a query with all four clauses set selects from `demo` with each clause in order |
| `Demo.SearchClause` | index.php:27 | `search('hello world')` on `Demo` gives "WHERE field1 LIKE :term OR field2 LIKE :term" with `term` bound to "%hello world%" |
| `Demo.SearchSql` | index.php:27-29 | the search query followed by a LIMIT selects from `demo` with that WHERE and LIMIT |
| `Demo.Walkthrough` | index.php:4-29 | on a fresh `Demo` record, `set` stores nothing, `get` gives `false` and every column stays null; the criteria query and the search query prepare the SELECTs and bindings shown |

## Left out

- The database connection (`classes/MySQL.class.php`) and `config.php` are not
  part of this model. The PDO handle is not modelled, and no statement is
  executed. `fetch`, `save` and `remove` return the statement they would
  prepare. They do not return the driver's result, a row count or hydrated
  result records.
- The `SHOW COLUMNS` query (classes/MySQLTable.class.php:33-44): the
  constructor takes the reported field names as a parameter.
- `MySQLTable.Table.GetColumns`: for a table with no columns, PHP never creates
  the column object (classes/MySQLTable.class.php:35-38), so `getColumns`
  returns null. The model returns an empty column set instead. `get`, `set`,
  `hydrate`, `save` and `remove` behave the same either way.
- `findOne` (classes/MySQLTable.class.php:123-139), `getRecordsNb` and
  `getLastId` (classes/MySQLTable.class.php:101-115) are left out. They are
  database round-trips.
- `return $this` chaining: the builder methods return nothing, and the caller
  calls them one after another on the same object.
- `getColumns` returns the record's own `stdClass` object in PHP, so a caller
  can change the record through it. The model returns the column set as a
  value, so it does not capture that aliasing. This matters: the constructor
  sets every column to null, and `set` and `hydrate` only write columns that
  already hold a value, so writing through the returned object is the only way
  a PHP record gets a non-null column. In the model no `Table` ever leaves the
  all-null state, so `Save` always builds an INSERT and `Remove` never builds a
  DELETE (`MySQLTable.AllNullStaysNull`). The statement functions are stated
  for any column set, so the UPDATE and DELETE paths are still proved.
- PHP's dynamic typing at the edges is left out:
  - search terms and `groupBy`/`findWhere` arguments are strings or lists of
    strings;
  - `limit` takes integers, so float arguments, integer overflow into floats,
    and string-to-number juggling are not modelled;
  - an `is_array` argument that holds non-strings is not modelled.
- `trim` character lists that use `..` ranges, and locale-dependent
  `strtolower`, are not modelled. Only the ASCII case mapping is.
- Binding by reference (`&$value` in `fetch` and `save`) is modelled as binding
  the value. The statement executes before anything could change it.
- `MySQLTable.Table.Hydrate` requires the data's keys to be distinct, which a
  PHP array guarantees.
- Pending query state: a `find_request` that is null and one that holds only
  a null `where` are both modelled as "nothing pending". No operation can tell
  them apart.
