/** The schema engine behind the four endpoints: provision a table, replace its structure,
    append columns to it, and read its stored field list. Each endpoint validates, sends DDL
    to the live database and then writes the catalog, in that order. */
module Views {
  import opened Wrappers
  import opened Utils
  import opened Models
  import opened Serializers
  import opened Database

  /** The columns that the DDL built from `fields` gives a table (after `id`). */
  function ColumnsOf(fields: seq<Field>): (cols: seq<Column>)
    ensures |cols| == |fields|
    ensures forall i :: 0 <= i < |fields| ==> cols[i] == Column(fields[i].name, SqlFieldType(fields[i].fieldType))
  {
    seq(|fields|, i requires 0 <= i < |fields| => Column(fields[i].name, SqlFieldType(fields[i].fieldType)))
  }

  /** The column definitions as the views spell them: name, a space, the mapped type. */
  function FieldClauses(fields: seq<Field>): (r: seq<string>)
    ensures |r| == |fields|
    ensures forall i :: 0 <= i < |fields| ==> r[i] == ColumnDef(ColumnsOf(fields)[i])
  {
    seq(|fields|, i requires 0 <= i < |fields| => fields[i].name + " " + SqlFieldType(fields[i].fieldType))
  }

  /** The clauses of the append endpoint: each column definition prefixed by ADD COLUMN. */
  function AddColumnClauses(fields: seq<Field>): (r: seq<string>)
    ensures |r| == |fields|
    ensures forall i :: 0 <= i < |fields| ==> r[i] == "ADD COLUMN " + FieldClauses(fields)[i]
  {
    var r := seq(|fields|, i requires 0 <= i < |fields| => "ADD COLUMN " + fields[i].name + " " + SqlFieldType(fields[i].fieldType));
    assert forall i :: 0 <= i < |fields| ==>
      "ADD COLUMN " + fields[i].name + " " + SqlFieldType(fields[i].fieldType)
      == "ADD COLUMN " + (fields[i].name + " " + SqlFieldType(fields[i].fieldType));
    r
  }

  function CreateStatement(tableName: string, fields: seq<Field>): Statement
  {
    CreateTable(tableName, ColumnsOf(fields))
  }

  function AlterStatement(tableName: string, fields: seq<Field>): Statement
  {
    AlterTableAddColumns(tableName, ColumnsOf(fields))
  }

  /** The CREATE statement is exactly the text the provisioning and replace endpoints format:
      the name, the primary key column, then the column definitions joined by ", ". */
  lemma CreateSqlText(tableName: string, fields: seq<Field>)
    ensures Sql(CreateStatement(tableName, fields))
         == "CREATE TABLE " + tableName + " (id serial PRIMARY KEY, " + Join(", ", FieldClauses(fields)) + ");"
  {
    var cols := ColumnsOf(fields);
    assert seq(|cols|, i requires 0 <= i < |cols| => ColumnDef(cols[i])) == FieldClauses(fields);
  }

  /** The ALTER statement is exactly one ALTER TABLE with the ADD COLUMN clauses joined by ", ". */
  lemma AlterSqlText(tableName: string, fields: seq<Field>)
    ensures Sql(AlterStatement(tableName, fields))
         == "ALTER TABLE " + tableName + " " + Join(", ", AddColumnClauses(fields)) + ";"
  {
    var cols := ColumnsOf(fields);
    forall i | 0 <= i < |fields|
      ensures "ADD COLUMN " + ColumnDef(cols[i]) == AddColumnClauses(fields)[i]
    {
      assert "ADD COLUMN " + (fields[i].name + " " + cols[i].sqlType)
          == "ADD COLUMN " + fields[i].name + " " + cols[i].sqlType;
    }
    assert seq(|cols|, i requires 0 <= i < |cols| => "ADD COLUMN " + ColumnDef(cols[i])) == AddColumnClauses(fields);
  }

  /** With an empty field list the join is empty and the column list ends in a dangling comma. */
  lemma EmptyFieldListText(tableName: string)
    ensures Sql(CreateStatement(tableName, [])) == "CREATE TABLE " + tableName + " (id serial PRIMARY KEY, );"
    ensures Sql(AlterStatement(tableName, [])) == "ALTER TABLE " + tableName + " ;"
  {
    CreateSqlText(tableName, []);
    AlterSqlText(tableName, []);
  }

  lemma ColumnsOfConcat(a: seq<Field>, b: seq<Field>)
    ensures ColumnsOf(a + b) == ColumnsOf(a) + ColumnsOf(b)
  {
  }

  /** After an append, the column list a CREATE built from the catalog's fields would carry is
      the original column list followed by the added definitions. */
  lemma AppendedFieldsRecreateSameColumns(old_fields: seq<Field>, new_fields: seq<Field>)
    requires old_fields != [] && new_fields != []
    ensures Join(", ", FieldClauses(old_fields + new_fields))
         == Join(", ", FieldClauses(old_fields)) + ", " + Join(", ", FieldClauses(new_fields))
  {
    assert FieldClauses(old_fields + new_fields) == FieldClauses(old_fields) + FieldClauses(new_fields);
    JoinConcat(", ", FieldClauses(old_fields), FieldClauses(new_fields));
  }

  /** The catalog record `id` describes exactly the columns of its live table. */
  ghost predicate Mirrors(db: Tables, records: map<int, TableMetadata>, id: int)
  {
    id in records && records[id].tableName in db && db[records[id].tableName] == ColumnsOf(records[id].fields)
  }

  /** Every catalog record mirrors its live table. */
  ghost predicate Consistent(db: Tables, records: map<int, TableMetadata>)
  {
    forall id :: id in records ==> Mirrors(db, records, id)
  }

  /** When the catalog is consistent, every name it holds is a live table, so the live
      existence check of provisioning also rules out a catalog name clash. */
  lemma ConsistentNamesAreLive(db: Tables, records: map<int, TableMetadata>, name: string)
    requires Consistent(db, records) && NameTaken(records, name)
    ensures name in db
  {
    var id :| id in records && records[id].tableName == name;
    assert Mirrors(db, records, id);
  }

  /** Giving record `id` new fields and its table new columns keeps every other record in sync
      with its table, because table names are unique. */
  lemma OthersStayMirrored(db: Tables, records: map<int, TableMetadata>, id: int, cols: seq<Column>, fields: seq<Field>)
    requires UniqueNames(records) && id in records
    ensures var name := records[id].tableName;
      forall i :: i != id && Mirrors(db, records, i) ==>
        Mirrors(db[name := cols], records[id := TableMetadata(name, fields)], i)
  {
  }

  /** The outcome of an endpoint, in place of the HTTP response. */
  datatype Response =
    | Created(id: int)                  // 'Table created.' (the response carries no id)
    | AlreadyExists                     // 'Table already exists.'
    | Invalid(errors: ValidationErrors) // the serializer's errors
    | NotFound                          // 'Table not found.'
    | Replaced                          // 'Table structure replaced.'
    | Updated                           // 'Table updated.'
    | Rows(fields: seq<Field>)          // the stored field list
    | DdlFailed(sql: string)            // the database raised on this statement
    | CatalogWriteFailed(error: SaveError) // the catalog insert raised after the DDL

  class SchemaEngine {
    /** The live tables. */
    var live: Tables
    /** Every DDL statement sent to the database, in order. */
    var issued: seq<string>
    const catalog: Catalog

    ghost predicate Valid()
      reads this, catalog
    {
      catalog.Valid()
    }

    /** The catalog holds the same records and the same next id as before. */
    twostate predicate CatalogUntouched()
      reads this, catalog
    {
      catalog.records == old(catalog.records) && catalog.nextId == old(catalog.nextId)
    }

    /** Neither the database, nor the statement log, nor the catalog changed. */
    twostate predicate Untouched()
      reads this, catalog
    {
      live == old(live) && issued == old(issued) && CatalogUntouched()
    }

    constructor (db: Tables, catalog: Catalog)
      requires catalog.Valid()
      ensures Valid()
      ensures this.catalog == catalog && live == db && issued == []
    {
      this.catalog := catalog;
      live := db;
      issued := [];
    }

    /** Send one statement through a cursor: it is issued, and takes effect unless the
        database rejects it. */
    method Issue(s: Statement) returns (ok: bool)
      modifies this`live, this`issued
      ensures issued == old(issued) + [Sql(s)]
      ensures ok == Execute(old(live), s).Some?
      ensures live == if ok then Execute(old(live), s).value else old(live)
    {
      issued := issued + [Sql(s)];
      var result := Execute(live, s);
      if result.Some? {
        live := result.value;
        ok := true;
      } else {
        ok := false;
      }
    }

    /** Create a table and its catalog record, from the validated table name and fields. */
    method Provision(tableName: string, fields: seq<Field>) returns (r: Response)
      requires Valid()
      modifies this, catalog
      ensures Valid()
      ensures ValidateProvisionRequest(tableName, fields).Failure? ==>
        && r == Invalid(ValidateProvisionRequest(tableName, fields).error)
        && Untouched()
      ensures ValidateProvisionRequest(tableName, fields).Success? && Strip(tableName) in old(live) ==>
        && r == AlreadyExists
        && Untouched()
      ensures ValidateProvisionRequest(tableName, fields).Success? && Strip(tableName) !in old(live) ==>
        var name, valid := Strip(tableName), Cleaned(fields);
        && issued == old(issued) + [Sql(CreateStatement(name, valid))]
        && (fields == [] ==>
              r == DdlFailed(Sql(CreateStatement(name, valid))) && live == old(live) && CatalogUntouched())
        && (fields != [] ==> live == old(live)[name := ColumnsOf(valid)])
        && (fields != [] && !NameTaken(old(catalog.records), name) ==> r.Created?)
        && (fields != [] && NameTaken(old(catalog.records), name) ==>
              r == CatalogWriteFailed(DuplicateTableName) && CatalogUntouched())
      ensures r.Created? ==>
        && r.id !in old(catalog.records)
        && catalog.records == old(catalog.records)[r.id := TableMetadata(Strip(tableName), Cleaned(fields))]
        && Mirrors(live, catalog.records, r.id)
      ensures forall id :: Mirrors(old(live), old(catalog.records), id) ==> Mirrors(live, catalog.records, id)
      ensures Consistent(old(live), old(catalog.records)) ==> !r.CatalogWriteFailed?
      ensures Consistent(old(live), old(catalog.records)) && r.Created? ==> Consistent(live, catalog.records)
    {
      var v := ValidateProvisionRequest(tableName, fields);
      if v.Failure? {
        return Invalid(v.error);
      }
      var (name, valid) := v.value;
      if name in live {
        return AlreadyExists;
      }
      r := CreateAndSave(name, valid);
    }

    /** The DDL and catalog half of Provision, on a validated name that is not a live table. */
    method CreateAndSave(name: string, valid: seq<Field>) returns (r: Response)
      requires Valid() && name !in live && |name| <= MaxTableNameLength
      modifies this, catalog
      ensures Valid()
      ensures issued == old(issued) + [Sql(CreateStatement(name, valid))]
      ensures valid == [] ==> r == DdlFailed(Sql(CreateStatement(name, valid))) && live == old(live) && CatalogUntouched()
      ensures valid != [] ==> live == old(live)[name := ColumnsOf(valid)]
      ensures valid != [] && !NameTaken(old(catalog.records), name) ==> r.Created?
      ensures valid != [] && NameTaken(old(catalog.records), name) ==>
        r == CatalogWriteFailed(DuplicateTableName) && CatalogUntouched()
      ensures r.Created? ==>
        && r.id !in old(catalog.records)
        && catalog.records == old(catalog.records)[r.id := TableMetadata(name, valid)]
        && Mirrors(live, catalog.records, r.id)
      ensures !r.Created? ==> CatalogUntouched()
      ensures forall id :: Mirrors(old(live), old(catalog.records), id) ==> Mirrors(live, catalog.records, id)
      ensures Consistent(old(live), old(catalog.records)) ==> !r.CatalogWriteFailed?
    {
      var create := CreateStatement(name, valid);
      var ok := Issue(create);
      if !ok {
        return DdlFailed(Sql(create));
      }
      if Consistent(old(live), old(catalog.records)) && NameTaken(catalog.records, name) {
        ConsistentNamesAreLive(old(live), old(catalog.records), name);
      }
      var saved := catalog.SaveEntity(name, valid);
      if saved.Failure? {
        return CatalogWriteFailed(saved.error);
      }
      r := Created(saved.value);
    }

    /** Drop and re-create the table with the validated columns; the stored fields become the
        validated list. */
    method Replace(id: int, fields: seq<Field>) returns (r: Response)
      requires Valid()
      modifies this, catalog
      ensures Valid()
      ensures id !in old(catalog.records) ==>
        r == NotFound && Untouched()
      ensures id in old(catalog.records) && ValidateUpdateRequest(fields, None).Failure? ==>
        && r == Invalid(ValidateUpdateRequest(fields, None).error)
        && Untouched()
      ensures id in old(catalog.records) && ValidateUpdateRequest(fields, None).Success? ==>
        var name, valid := old(catalog.records)[id].tableName, Cleaned(fields);
        && issued == old(issued) + [Sql(DropTableIfExists(name)), Sql(CreateStatement(name, valid))]
        && (fields == [] ==>
              && r == DdlFailed(Sql(CreateStatement(name, valid)))
              && live == old(live) - {name} && CatalogUntouched())
        && (fields != [] ==>
              && r == Replaced
              && live == old(live)[name := ColumnsOf(valid)]
              && catalog.records == old(catalog.records)[id := TableMetadata(name, valid)]
              && catalog.nextId == old(catalog.nextId))
      ensures r == Replaced ==> Mirrors(live, catalog.records, id)
      ensures forall i :: i != id && Mirrors(old(live), old(catalog.records), i) ==> Mirrors(live, catalog.records, i)
      ensures Consistent(old(live), old(catalog.records)) && r == Replaced ==> Consistent(live, catalog.records)
    {
      var found := catalog.GetById(id);
      if found.None? {
        return NotFound;
      }
      var rec := found.value;
      var v := ValidateUpdateRequest(fields, None);
      if v.Failure? {
        return Invalid(v.error);
      }
      r := Recreate(id, v.value);
    }

    /** The DDL and catalog half of Replace, on a found record and a validated list. */
    method Recreate(id: int, valid: seq<Field>) returns (r: Response)
      requires Valid() && id in catalog.records
      modifies this, catalog
      ensures Valid()
      ensures var name := old(catalog.records)[id].tableName;
        && issued == old(issued) + [Sql(DropTableIfExists(name)), Sql(CreateStatement(name, valid))]
        && (valid == [] ==>
              && r == DdlFailed(Sql(CreateStatement(name, valid)))
              && live == old(live) - {name} && CatalogUntouched())
        && (valid != [] ==>
              && r == Replaced
              && live == old(live)[name := ColumnsOf(valid)]
              && catalog.records == old(catalog.records)[id := TableMetadata(name, valid)]
              && catalog.nextId == old(catalog.nextId))
      ensures r == Replaced ==> Mirrors(live, catalog.records, id)
      ensures forall i :: i != id && Mirrors(old(live), old(catalog.records), i) ==> Mirrors(live, catalog.records, i)
    {
      var name := catalog.records[id].tableName;
      var dropped := Issue(DropTableIfExists(name));
      var created := Issue(CreateStatement(name, valid));
      if !created {
        return DdlFailed(Sql(CreateStatement(name, valid)));
      }
      OthersStayMirrored(old(live), old(catalog.records), id, ColumnsOf(valid), valid);
      catalog.SetFields(id, valid);
      r := Replaced;
    }

    /** Add the validated columns to the table with one ALTER TABLE; the stored fields become
        the old ones followed by the validated ones. */
    method Append(id: int, fields: seq<Field>) returns (r: Response)
      requires Valid()
      modifies this, catalog
      ensures Valid()
      ensures id !in old(catalog.records) ==>
        r == NotFound && Untouched()
      ensures id in old(catalog.records) && ValidateUpdateRequest(fields, Some(old(catalog.records)[id].fields)).Failure? ==>
        && r == Invalid(ValidateUpdateRequest(fields, Some(old(catalog.records)[id].fields)).error)
        && Untouched()
      ensures id in old(catalog.records) && ValidateUpdateRequest(fields, Some(old(catalog.records)[id].fields)).Success? ==>
        var rec, valid := old(catalog.records)[id], Cleaned(fields);
        && issued == old(issued) + [Sql(AlterStatement(rec.tableName, valid))]
        && (rec.tableName !in old(live) || fields == [] ==>
              && r == DdlFailed(Sql(AlterStatement(rec.tableName, valid)))
              && live == old(live) && CatalogUntouched())
        && (rec.tableName in old(live) && fields != [] ==>
              && r == Updated
              && live == old(live)[rec.tableName := old(live)[rec.tableName] + ColumnsOf(valid)]
              && catalog.records == old(catalog.records)[id := TableMetadata(rec.tableName, rec.fields + valid)]
              && catalog.nextId == old(catalog.nextId))
      ensures r == Updated && Mirrors(old(live), old(catalog.records), id) ==> Mirrors(live, catalog.records, id)
      ensures forall i :: i != id && Mirrors(old(live), old(catalog.records), i) ==> Mirrors(live, catalog.records, i)
      ensures Consistent(old(live), old(catalog.records)) && r == Updated ==> Consistent(live, catalog.records)
    {
      var found := catalog.GetById(id);
      if found.None? {
        return NotFound;
      }
      var rec := found.value;
      var v := ValidateUpdateRequest(fields, Some(rec.fields));
      if v.Failure? {
        return Invalid(v.error);
      }
      r := AddColumns(id, v.value);
    }

    /** The DDL and catalog half of Append, on a found record and a validated list. */
    method AddColumns(id: int, valid: seq<Field>) returns (r: Response)
      requires Valid() && id in catalog.records
      modifies this, catalog
      ensures Valid()
      ensures var rec := old(catalog.records)[id];
        && issued == old(issued) + [Sql(AlterStatement(rec.tableName, valid))]
        && (rec.tableName !in old(live) || valid == [] ==>
              && r == DdlFailed(Sql(AlterStatement(rec.tableName, valid)))
              && live == old(live) && CatalogUntouched())
        && (rec.tableName in old(live) && valid != [] ==>
              && r == Updated
              && live == old(live)[rec.tableName := old(live)[rec.tableName] + ColumnsOf(valid)]
              && catalog.records == old(catalog.records)[id := TableMetadata(rec.tableName, rec.fields + valid)]
              && catalog.nextId == old(catalog.nextId))
      ensures r == Updated && Mirrors(old(live), old(catalog.records), id) ==> Mirrors(live, catalog.records, id)
      ensures forall i :: i != id && Mirrors(old(live), old(catalog.records), i) ==> Mirrors(live, catalog.records, i)
    {
      var rec := catalog.records[id];
      var alter := AlterStatement(rec.tableName, valid);
      var ok := Issue(alter);
      if !ok {
        return DdlFailed(Sql(alter));
      }
      ColumnsOfConcat(rec.fields, valid);
      OthersStayMirrored(old(live), old(catalog.records), id, old(live)[rec.tableName] + ColumnsOf(valid), rec.fields + valid);
      catalog.SetFields(id, rec.fields + valid);
      r := Updated;
    }

    /** The stored field list of a record; no DDL. */
    method Read(id: int) returns (r: Response)
      ensures id in catalog.records ==> r == Rows(catalog.records[id].fields)
      ensures id !in catalog.records ==> r == NotFound
    {
      var found := catalog.GetById(id);
      if found.None? {
        return NotFound;
      }
      r := Rows(found.value.fields);
    }
  }
}
