# Dynamic tables: the schema-mutation engine

A small Django service lets a client define relational tables at runtime. A table is
described by a name and an ordered list of fields, each a `{name, type}` pair whose type is
`string`, `number` or `boolean`. The service turns that list into DDL text and sends it to
the database. It also keeps a catalog record, `TableMetadata`, per table: a unique table
name and the stored field list, meant to mirror the live table's columns.

This project models that engine in Dafny:

- `utils.dfy` (`Utils`): the type mapper `get_sql_field_type`. It maps `string` to
  `varchar(255)`, `integer` to `integer` and `boolean` to `boolean`. Everything else maps to
  `text`, including the accepted type `number`.
- `models.dfy` (`Models`): the catalog as a class. It holds a map from primary key to
  record and the next key of the id sequence. `GetById` is a lookup that can fail.
  `SaveEntity` is an insert that the database refuses for a name over 255 characters or a
  name already taken. `SetFields` models `fields = ...; save()`.
- `serializers.dfy` (`Serializers`): the field serializer, the provisioning serializer and
  the update serializer, as pure functions. A name field works like the framework's
  character field with its defaults. It strips whitespace at both ends (Python's
  `str.strip()`). It refuses a value that is blank once stripped. It also refuses a value over
  255 characters and a value containing a NUL character, and reports both problems when both
  apply. A type must be one of the three choices. When there is a request context, a name the
  target record already stores is rejected. The request context is modelled as
  `existing: Option<seq<Field>>`. Errors are reported per field, at the field's position.
  The validated data is the input with every name stripped, and the endpoints use it for the
  DDL and the catalog.
- `database.dfy` (`Database`): the live database as a map from table name to the columns
  after the implicit `id serial PRIMARY KEY`. It has three kinds of statement (CREATE,
  DROP IF EXISTS, ALTER ... ADD COLUMN). Each has its SQL text (`Sql`) and its effect
  (`Execute`). `Join` is Python's `str.join`.
- `views.dfy` (`Views`): the four endpoints as methods of `SchemaEngine`. The class holds the
  live tables, the log of statements sent (`issued`) and the catalog:
  - `Provision`: validate, check that the name is not a live table, CREATE, insert the record.
  - `Replace`: look up, validate without context, DROP IF EXISTS, CREATE, overwrite the fields.
  - `Append`: look up, validate with context, one ALTER with all ADD COLUMN clauses, store
    `old + new`.
  - `Read`: look up and return the stored fields.

  Results are a `Response` datatype, not HTTP responses.
- `scenarios.dfy` (`Scenarios`): client code that uses only the endpoints' contracts. It
  covers provision-then-read, replace-then-read and append-then-read for all inputs, and the
  table lifecycle exercised by the repository's tests.

The invariant the engine is built around is `Views.Mirrors`. It says a record's live table
exists and its columns are the record's fields mapped through `get_sql_field_type`.
A successful Provision or Replace establishes it for the record it touches. A successful
Append keeps it for that record when it held before. Every endpoint keeps it for every other
record. When Provision, Replace or Append succeeds, a catalog where every record mirrored its
table still has that property. A Replace with an empty field list is the exception, as
described next. It fails after the DROP, so its record no longer mirrors a table, and a
consistent catalog stops being consistent.

An empty field list passes validation. The join then yields `(id serial PRIMARY KEY, );` or
`ALTER TABLE t ;`, and the database rejects both. The model treats that statement as
rejected. For Replace this means the DROP has already run: the table is gone, and the catalog
record still lists the old fields (`Replace`'s contract states this).

The service's documentation states two things that the code does not do. The model follows
the code:

- The documentation says field names are unique within a table. The code checks uniqueness
  only on the append path, only against the stored names, and not between the incoming
  fields.
- The documentation says DDL failures and catalog-write failures are reported as distinct
  errors. The code lets the database exception propagate. The model names them `DdlFailed`
  and `CatalogWriteFailed`, and writes nothing to the catalog after a failed statement, as
  the code does.

## Model

| member | source | states |
|---|---|---|
| `Utils.SqlFieldType` | dynamicTables/app/utils.py:1-9 | Total mapping into four constants: `string` gives `varchar(255)`, `integer` gives `integer`, `boolean` gives `boolean`, and every other string, in both directions of each case, gives `text` |
| `Serializers.IntegerTypeRefused` | dynamicTables/app/utils.py:4-5 | The mapper handles `integer`, but a field of type `integer` never passes validation |
| `Serializers.AcceptedTypesMapping` | dynamicTables/app/serializers.py:8 | On the three accepted types the mapper never yields `integer`, is injective, and maps `number` to `text` |
| `Serializers.Strip` | dynamicTables/app/serializers.py:7 | The trimmed value is no longer than the input and starts and ends with a non-whitespace character |
| `Serializers.StripRemovesOnlySpace` | dynamicTables/app/serializers.py:7 | A value strips to nothing iff every character is whitespace; stripping adds no character and keeps every non-whitespace one |
| `Serializers.StripIdempotent` | dynamicTables/app/serializers.py:7 | Stripping twice is stripping once |
| `Serializers.NulSurvivesStrip` | dynamicTables/app/serializers.py:7 | A value contains NUL iff its stripped form does |
| `Serializers.CharFieldValue` | dynamicTables/app/serializers.py:7 | Succeeds iff the stripped value is non-blank, at most 255 characters and free of NUL, and then yields the stripped value; a blank value is reported as Blank alone; otherwise TooLong and NullCharacter are each reported exactly when they apply; never NameExists |
| `Serializers.WhitespaceNameIsBlank` | dynamicTables/app/serializers.py:7 | A name of spaces only is refused as blank |
| `Serializers.NulNameRefused` | dynamicTables/app/serializers.py:7 | A name containing NUL is refused with NullCharacter |
| `Serializers.PlainNamePasses` | dynamicTables/app/serializers.py:7 | A non-empty name with no outer whitespace, at most 255 characters and without NUL passes unchanged |
| `Serializers.FieldNames` | dynamicTables/app/serializers.py:15 | The list of names has one entry per field, in the fields' order |
| `Serializers.ValidateName` | dynamicTables/app/serializers.py:7-18 | Succeeds iff the character field passes and, only with a context, no stored field has the stripped name; yields the stripped name; NameExists alone is reported exactly for a stored name; character-field errors pass through unchanged |
| `Serializers.FieldAccepted` | dynamicTables/app/serializers.py:6-18 | A field is accepted iff its name passes the character field, its type is one of the three choices, and (with a context) its stripped name is not stored |
| `Serializers.Cleaned` | dynamicTables/app/serializers.py:7 | The validated fields: same length and types, each name stripped |
| `Serializers.FieldErrors` | dynamicTables/app/serializers.py:6-8 | The errors of one field are empty iff the field is accepted; each describes a real defect; a bad name and a bad type are both reported |
| `Serializers.ListErrors` | dynamicTables/app/serializers.py:23 | For a list of fields: every reported error sits at the position of a field with that defect, every defect of every field is reported, and the list is empty iff every field is accepted |
| `Serializers.ValidateFields` | dynamicTables/app/serializers.py:23 | The list passes iff every field passes; the validated list is the list with names stripped; a failure carries at least one error, each about a real defect |
| `Serializers.ValidateProvisionRequest` | dynamicTables/app/serializers.py:21-23 | Passes iff the table name passes the character field and every field passes without context; yields the stripped table name and the stripped fields; a table-name error is reported exactly when the name is bad, and is the character field's own error |
| `Serializers.ValidateUpdateRequest` | dynamicTables/app/serializers.py:26-27 | Passes iff every field passes (with or without context); yields the fields with names stripped; failures carry only per-field errors, at least one |
| `Serializers.StrippedFieldPasses` | dynamicTables/app/serializers.py:7 | A field that passes still passes once its name is replaced by the stripped name |
| `Serializers.RevalidationIsIdentity` | dynamicTables/app/serializers.py:26-27 | Validated data validates again to itself |
| `Serializers.NoContextNoDuplicateCheck` | dynamicTables/app/serializers.py:10-12 | Without a request context no field is ever reported as a duplicate |
| `Serializers.ContextAddsOnlyDuplicateCheck` | dynamicTables/app/serializers.py:10-18 | With a context the update serializer accepts exactly what it accepts without one, minus lists where a stripped name equals a stored name |
| `Serializers.AcceptedAppendIsDisjoint` | dynamicTables/app/serializers.py:15-17 | The validated names of a list accepted on the append path share nothing with the stored names |
| `Serializers.IncomingDuplicatesPass` | dynamicTables/app/serializers.py:15-16 | Two incoming fields with the same new name both pass: names are compared only with the stored fields |
| `Serializers.StoredNameRejected` | dynamicTables/app/serializers.py:13-17 | A name that passes the character field and strips to a stored name makes the append request fail, with NameExists alone at that field's position |
| `Serializers.BadTypeRejected` | dynamicTables/app/serializers.py:8 | A type outside the choices fails both the provisioning and the update request, with TypeInvalid at that field's position, whatever the name and context |
| `Models.Catalog.GetById` | dynamicTables/app/models.py:12-14 | Returns a record iff the id is a key of the catalog, and then exactly that record; never a default |
| `Models.Catalog.SaveEntity` | dynamicTables/app/models.py:16-18 | Fails, writing nothing, iff the name is over 255 characters or already taken; otherwise adds exactly one record under a fresh id with the given name and fields, others unchanged; keeps names unique and bounded |
| `Models.Catalog.SetFields` | dynamicTables/app/views.py:136-137 | Overwrites the fields of one existing record and nothing else |
| `Database.Join` | dynamicTables/app/views.py:63-65 | The join starts with the first part and its length is the parts' total plus one separator between each neighbouring pair; no parts give the empty string |
| `Database.JoinConcat` | dynamicTables/app/views.py:63-65 | Joining two non-empty lists equals joining each with the separator between them |
| `Database.Sql` | dynamicTables/app/views.py:67-70 | Every statement's text starts with its keyword and the table name as given, and ends with `;` |
| `Database.Execute` | dynamicTables/app/views.py:124-134 | DROP IF EXISTS always succeeds and removes the name; CREATE succeeds iff the name is free and there is a column, ALTER iff the table exists and there is a column; the table then has exactly the new columns, or old followed by new; no other name appears or disappears |
| `Database.ExecuteTouchesOnlyItsTable` | dynamicTables/app/views.py:69-70 | A statement that the database accepts leaves every other table as it was |
| `Database.DropThenCreate` | dynamicTables/app/views.py:124-134 | After DROP TABLE IF EXISTS the name is free, so the CREATE succeeds iff it has a column, and the table then has exactly the new columns |
| `Database.AlterIsRecreateWithConcat` | dynamicTables/app/views.py:189-198 | Adding columns has the same effect on the schema as dropping and re-creating the table with old columns followed by new ones |
| `Views.FieldClauses` | dynamicTables/app/views.py:63-65 | One `name type` definition per field, in order, each the definition of the column that field becomes |
| `Views.AddColumnClauses` | dynamicTables/app/views.py:190 | One `ADD COLUMN name type` clause per field, in order, each `ADD COLUMN ` followed by that field's definition |
| `Views.CreateSqlText` | dynamicTables/app/views.py:63-67 | The CREATE text is `CREATE TABLE <name> (id serial PRIMARY KEY, ` + the `name type` definitions joined by `, ` in input order + `);` |
| `Views.AlterSqlText` | dynamicTables/app/views.py:189-193 | The append text is one `ALTER TABLE <name> ` + the `ADD COLUMN name type` clauses joined by `, ` + `;` |
| `Views.EmptyFieldListText` | dynamicTables/app/views.py:63-67 | With no fields the texts are `CREATE TABLE <name> (id serial PRIMARY KEY, );` and `ALTER TABLE <name> ;` |
| `Views.ColumnsOfConcat` | dynamicTables/app/views.py:198 | The columns of `old + new` are the columns of `old` followed by those of `new` |
| `Views.AppendedFieldsRecreateSameColumns` | dynamicTables/app/views.py:189-198 | After an append, the column list built from the stored fields is the old column list, `, `, then the added definitions |
| `Views.ConsistentNamesAreLive` | dynamicTables/app/views.py:58-61 | On a consistent catalog every stored name is a live table, so the live existence check also rules out a catalog name clash |
| `Views.OthersStayMirrored` | dynamicTables/app/views.py:198-200 | With unique table names, changing one record and its own table keeps every other mirrored record mirrored |
| `Views.SchemaEngine.Issue` | dynamicTables/app/views.py:69-70 | A statement is logged as sent and takes effect exactly when the database accepts it |
| `Views.SchemaEngine.Provision` | dynamicTables/app/views.py:53-76 | Validation failure, then an existing live name (the stripped one), each return with nothing changed; otherwise exactly the CREATE text of the stripped name and fields is sent; with fields the table gets their mapped columns and one record with the validated fields in order is added, and that record mirrors its table; mirrored records stay mirrored; a consistent catalog never hits the catalog name clash and stays consistent |
| `Views.SchemaEngine.CreateAndSave` | dynamicTables/app/views.py:63-74 | Sends the CREATE; with no fields it fails with nothing else changed; otherwise the table exists with the mapped columns, and the record is saved iff the name is not in the catalog; the new record mirrors its table |
| `Views.SchemaEngine.Replace` | dynamicTables/app/views.py:115-141 | Unknown id gives NotFound before validation, then validation failure, each with nothing changed; otherwise DROP then CREATE are sent; on success the table has exactly the new columns and the stored fields are exactly the validated list (never a union), and the record mirrors its table; other records stay mirrored |
| `Views.SchemaEngine.Recreate` | dynamicTables/app/views.py:124-137 | DROP then CREATE are sent; the table is gone after the DROP; with fields it has exactly their columns and the record's fields are replaced, otherwise the catalog is untouched |
| `Views.SchemaEngine.Append` | dynamicTables/app/views.py:180-204 | Unknown id gives NotFound before validation, then validation failure (including a stored name), each with nothing changed; otherwise one ALTER is sent; on success the table gains the new columns and the stored fields become old followed by validated new; a mirrored record stays mirrored, as do all others |
| `Views.SchemaEngine.AddColumns` | dynamicTables/app/views.py:189-200 | One ALTER is sent; on success the table has its old columns followed by the new ones and the stored fields are old followed by new; otherwise nothing else changes |
| `Views.SchemaEngine.Read` | dynamicTables/app/views.py:237-242 | Returns the stored fields unchanged for a known id and NotFound otherwise; changes nothing and sends no DDL |
| `Scenarios.ProvisionThenRead` | dynamicTables/app/views.py:69-72 | A successful provision reads back as exactly the validated fields; on a consistent catalog a valid non-empty request for a new name always succeeds |
| `Scenarios.ReplaceThenRead` | dynamicTables/app/views.py:124-137 | After a successful replace the stored fields read back as exactly the validated new list; otherwise as before |
| `Scenarios.AppendThenRead` | dynamicTables/app/views.py:189-200 | After a successful append the stored fields read back as old followed by validated new, otherwise unchanged; on a mirrored record a valid non-empty append always succeeds |
| `Scenarios.ProvisionTwice` | dynamicTables/tests/test_dynamic_table_view.py:24-32 | The first provision of a name creates a record that reads back its fields and mirrors its table; the second provision of the same name returns AlreadyExists |
| `Scenarios.ReplaceWithBio` | dynamicTables/tests/test_update_table_view.py:16-27 | Replacing the fields of an existing record succeeds, stores exactly the new list, and keeps the record mirrored |
| `Scenarios.AppendAge` | dynamicTables/tests/test_update_table_row_view.py:25-35 | Appending a new field to a mirrored record succeeds, stores old followed by new, and keeps it mirrored |
| `Scenarios.AppendStoredName` | dynamicTables/app/serializers.py:13-17 | Appending a stored name is refused with NameExists at its position and changes neither the catalog nor the database |
| `Scenarios.InvalidTypeRefused` | dynamicTables/tests/test_dynamic_table_view.py:35-41 | Provisioning a field of type `integer` is refused with a type error at that field |
| `Scenarios.UnknownIdNotFound` | dynamicTables/tests/test_update_table_view.py:31-36 | Replace, append and read of an unknown id all give NotFound, even with an invalid body, and send no DDL |
| `Scenarios.InvalidTypeOnExistingRecord` | dynamicTables/tests/test_update_table_view.py:40-50 | A replace and an append of a field with type `invalid_type` on an existing record are both refused with a type error at that field; the append also reports the stored name |

## Left out

- HTTP plumbing (views, routing, status codes, API documentation) is replaced by the
  `Response` datatype. `Created` carries the new record's id, which the real response does
  not include.
- Executing SQL is modelled by `Database.Execute` on a map. The database rejects only three
  things in the model: a CREATE of an existing name, an ALTER of a missing table, and a
  statement with an empty column list. Not modelled: duplicate column names (two incoming
  fields with one name, or a field named `id`), reserved words, invalid identifiers, case
  folding of unquoted names, and column types. The code gives no contract for these.
- Rows and their data are not modelled, so the row loss caused by Replace's DROP is not
  represented.
- Identifier sanitisation: the code does none, and the model adds none.
- Database.Execute: the model's database reads the structure of each statement, not its
  text, so `Mirrors` and `Consistent` hold only when every table name and field name reads
  back as one plain identifier. The text is not injective. For example, a field named
  `a text, b` of type `string` gives the same CREATE text as the two fields `a` (number) and
  `b` (string), and a real database would create columns other than the ones the model
  records. A name containing `;` could even start a second statement.
- Character fields: Dafny characters are Unicode scalar values, so the framework's refusal
  of surrogate code points cannot arise in the model.
- Serializer details: coercion of non-string JSON values, missing keys, a `fields` value that is not a list, or
  the exact texts of the error messages.
- The ORM is modelled as a map. Primary keys come from a counter. A failed insert does not
  consume a key in the model, although a database sequence would.
- `validate_name` looks up the target record a second time. The model passes in the fields
  of the record already found, which is the same record.
- Concurrency: each endpoint is one sequential step, so races between simultaneous requests
  are not modelled.
