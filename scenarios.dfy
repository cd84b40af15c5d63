/** Clients of the schema engine that follow a table through its life, using nothing but the
    contracts of the endpoints. */
module Scenarios {
  import opened Wrappers
  import opened Utils
  import opened Models
  import opened Serializers
  import opened Database
  import opened Views

  /** Provision a table, read it back, and provision the same name again. */
  method ProvisionTwice() returns (engine: SchemaEngine, id: int, second: Response)
    ensures fresh(engine) && fresh(engine.catalog) && engine.Valid()
    ensures id in engine.catalog.records
    ensures engine.catalog.records[id] == TableMetadata("users", [Field("email", "string")])
    ensures Consistent(engine.live, engine.catalog.records)
    ensures second == AlreadyExists
  {
    var catalog := new Catalog();
    engine := new SchemaEngine(map[], catalog);
    var email := Field("email", "string");
    PlainNamePasses("users");
    PlainNamePasses("email");
    assert Cleaned([email]) == [email];

    var r := engine.Provision("users", [email]);
    assert FieldAccepted(email, None);
    assert r.Created?;
    id := r.id;
    assert engine.issued == [Sql(CreateStatement("users", [email]))];
    var read := engine.Read(id);
    assert read == Rows([email]);

    second := engine.Provision("users", [email]);
  }

  /** Replace the structure of a table with the single column `bio`. */
  method ReplaceWithBio(engine: SchemaEngine, id: int) returns (replaced: Response)
    requires engine.Valid() && id in engine.catalog.records
    requires engine.catalog.records[id].tableName == "users"
    modifies engine, engine.catalog
    ensures engine.Valid() && replaced == Replaced
    ensures id in engine.catalog.records
    ensures engine.catalog.records[id] == TableMetadata("users", [Field("bio", "string")])
    ensures Mirrors(engine.live, engine.catalog.records, id)
  {
    var bio := Field("bio", "string");
    PlainNamePasses("bio");
    assert Cleaned([bio]) == [bio];
    assert FieldAccepted(bio, None);
    replaced := engine.Replace(id, [bio]);
  }

  /** Append the column `age` to a table that mirrors its one stored field `bio`. */
  method AppendAge(engine: SchemaEngine, id: int) returns (appended: Response)
    requires engine.Valid() && id in engine.catalog.records
    requires engine.catalog.records[id] == TableMetadata("users", [Field("bio", "string")])
    requires Mirrors(engine.live, engine.catalog.records, id)
    modifies engine, engine.catalog
    ensures engine.Valid() && appended == Updated
    ensures id in engine.catalog.records
    ensures engine.catalog.records[id] == TableMetadata("users", [Field("bio", "string"), Field("age", "number")])
    ensures Mirrors(engine.live, engine.catalog.records, id)
  {
    var bio := Field("bio", "string");
    var age := Field("age", "number");
    PlainNamePasses("age");
    assert Cleaned([age]) == [age];
    assert FieldAccepted(age, Some([bio]));
    assert ValidateUpdateRequest([age], Some([bio])).Success?;
    appended := engine.Append(id, [age]);
    assert [bio] + [age] == [bio, age];
  }

  /** Appending a column whose name the table already stores is refused, at that field's
      position, and changes nothing. */
  method AppendStoredName(engine: SchemaEngine, id: int) returns (repeated: Response)
    requires engine.Valid() && id in engine.catalog.records
    requires engine.catalog.records[id].fields == [Field("bio", "string"), Field("age", "number")]
    modifies engine, engine.catalog
    ensures repeated.Invalid? && NameInvalid(0, [NameExists]) in repeated.errors.fields
    ensures engine.catalog.records == old(engine.catalog.records) && engine.live == old(engine.live)
  {
    var bio := Field("bio", "string");
    PlainNamePasses("bio");
    StoredNameRejected([bio], [bio, Field("age", "number")], 0, 0);
    repeated := engine.Append(id, [bio]);
  }

  /** The whole life of one table. */
  method TableLifecycle()
  {
    var engine, id, _ := ProvisionTwice();
    var _ := ReplaceWithBio(engine, id);
    var _ := AppendAge(engine, id);
    var _ := AppendStoredName(engine, id);
  }

  /** A type outside the three choices is refused before anything reaches the database. */
  method InvalidTypeRefused() returns (provisioned: Response)
    ensures provisioned.Invalid? && TypeInvalid(0, "integer") in provisioned.errors.fields
  {
    var catalog := new Catalog();
    var engine := new SchemaEngine(map[], catalog);
    var bad := Field("field1", "integer");
    assert "integer" !in FieldTypeChoices;
    BadTypeRejected("test_table", [bad], None, 0);
    provisioned := engine.Provision("test_table", [bad]);
  }

  /** An unknown id is not found on every endpoint before the body is looked at; nothing
      reaches the database. */
  method UnknownIdNotFound() returns (replaced: Response, appended: Response, read: Response)
    ensures replaced == NotFound && appended == NotFound && read == NotFound
  {
    var catalog := new Catalog();
    var engine := new SchemaEngine(map[], catalog);
    var bad := Field("field1", "integer");
    replaced := engine.Replace(1000, [bad]);
    appended := engine.Append(1000, [bad]);
    read := engine.Read(1000);
    assert engine.issued == [] && engine.live == map[];
  }

  /** A record stored directly in the catalog, then a replace and an append whose field has a
      type outside the choices: both are refused, and the append also reports the stored name. */
  method InvalidTypeOnExistingRecord() returns (replaced: Response, appended: Response)
    ensures replaced.Invalid? && TypeInvalid(0, "invalid_type") in replaced.errors.fields
    ensures appended.Invalid? && TypeInvalid(0, "invalid_type") in appended.errors.fields
    ensures appended.Invalid? && NameInvalid(0, [NameExists]) in appended.errors.fields
  {
    var catalog := new Catalog();
    var field1 := Field("field1", "string");
    var field2 := Field("field2", "number");
    var saved := catalog.SaveEntity("test_table", [field1, field2]);
    assert saved.Success?;
    var engine := new SchemaEngine(map[], catalog);
    var bad := Field("field1", "invalid_type");
    assert |"invalid_type"| == 12 && "invalid_type" !in FieldTypeChoices;
    PlainNamePasses("field1");
    BadTypeRejected("test_table", [bad], None, 0);
    BadTypeRejected("test_table", [bad], Some([field1, field2]), 0);
    StoredNameRejected([bad], [field1, field2], 0, 0);

    replaced := engine.Replace(saved.value, [bad]);
    appended := engine.Append(saved.value, [bad]);
  }

  /** A successful provision is read back as exactly the submitted fields, in order and with
      their names stripped; on a consistent catalog, a valid non-empty request for a new name
      always succeeds. */
  method ProvisionThenRead(engine: SchemaEngine, tableName: string, fields: seq<Field>)
    returns (created: Response, read: Response)
    requires engine.Valid()
    modifies engine, engine.catalog
    ensures created.Created? ==> read == Rows(Cleaned(fields))
    ensures (&& Consistent(old(engine.live), old(engine.catalog.records))
             && ValidateProvisionRequest(tableName, fields).Success?
             && Strip(tableName) !in old(engine.live) && fields != []) ==> created.Created?
    ensures Consistent(old(engine.live), old(engine.catalog.records)) && created.Created? ==>
      Consistent(engine.live, engine.catalog.records)
  {
    created := engine.Provision(tableName, fields);
    read := NotFound;
    if created.Created? {
      read := engine.Read(created.id);
    }
  }

  /** After a successful replace the stored fields are exactly the new (validated) list, never
      a union with the old one. */
  method ReplaceThenRead(engine: SchemaEngine, id: int, fields: seq<Field>)
    returns (replaced: Response, read: Response)
    requires engine.Valid()
    modifies engine, engine.catalog
    ensures replaced == Replaced ==> read == Rows(Cleaned(fields))
    ensures replaced != Replaced ==> read == old(if id in engine.catalog.records then Rows(engine.catalog.records[id].fields) else NotFound)
  {
    replaced := engine.Replace(id, fields);
    read := engine.Read(id);
  }

  /** After a successful append the stored fields are the old ones followed by the new
      (validated) ones;
      on a record in sync with its table a valid non-empty append always succeeds. */
  method AppendThenRead(engine: SchemaEngine, id: int, fields: seq<Field>)
    returns (updated: Response, read: Response)
    requires engine.Valid() && id in engine.catalog.records
    modifies engine, engine.catalog
    ensures updated == Updated ==> read == Rows(old(engine.catalog.records[id].fields) + Cleaned(fields))
    ensures updated != Updated ==> read == Rows(old(engine.catalog.records[id].fields))
    ensures (&& Mirrors(old(engine.live), old(engine.catalog.records), id)
             && ValidateUpdateRequest(fields, Some(old(engine.catalog.records[id].fields))).Success?
             && fields != []) ==> updated == Updated
  {
    updated := engine.Append(id, fields);
    read := engine.Read(id);
  }
}
