/** The schema catalog: one TableMetadata record per managed table, keyed by its
    primary key, with a unique table name and the ordered list of field definitions. */
module Models {
  import opened Wrappers

  /** The database column for table_name is varchar(255). */
  const MaxTableNameLength := 255

  /** One field definition as the client sent it and the catalog stores it. */
  datatype Field = Field(name: string, fieldType: string)

  /** A catalog record (its primary key is the key it is stored under). */
  datatype TableMetadata = TableMetadata(tableName: string, fields: seq<Field>)

  /** Why the database refuses to insert a catalog record. */
  datatype SaveError = TableNameTooLong | DuplicateTableName

  /** Does some record in `records` carry the table name `name`? */
  predicate NameTaken(records: map<int, TableMetadata>, name: string)
  {
    exists id :: id in records && records[id].tableName == name
  }

  /** The unique constraint on table_name: no two records share a name. */
  ghost predicate UniqueNames(records: map<int, TableMetadata>)
  {
    forall i, j :: i in records && j in records && records[i].tableName == records[j].tableName ==> i == j
  }

  class Catalog {
    var records: map<int, TableMetadata>
    /** The next value of the primary-key sequence. */
    var nextId: int

    /** What the database schema of the catalog table guarantees of its rows. */
    ghost predicate Valid()
      reads this
    {
      && nextId >= 1
      && (forall id :: id in records ==> 1 <= id < nextId)
      && (forall id :: id in records ==> |records[id].tableName| <= MaxTableNameLength)
      && UniqueNames(records)
    }

    constructor ()
      ensures Valid()
      ensures records == map[] && nextId == 1
    {
      records := map[];
      nextId := 1;
    }

    /** get_by_id: the record whose primary key is `id`, or None where the ORM raises DoesNotExist. */
    method GetById(id: int) returns (r: Option<TableMetadata>)
      ensures r.Some? <==> id in records
      ensures r.Some? ==> r.value == records[id]
    {
      if id in records {
        r := Some(records[id]);
      } else {
        r := None;
      }
    }

    /** save_entity: insert one new record. The database refuses a name longer than the
        column allows and a name that is already taken; then nothing is written. */
    method SaveEntity(tableName: string, fields: seq<Field>) returns (r: Result<int, SaveError>)
      requires Valid()
      modifies this
      ensures Valid()
      ensures r.Failure? <==> |tableName| > MaxTableNameLength || NameTaken(old(records), tableName)
      ensures r.Failure? ==> r.error == (if |tableName| > MaxTableNameLength then TableNameTooLong else DuplicateTableName)
      ensures r.Failure? ==> records == old(records) && nextId == old(nextId)
      ensures r.Success? ==> r.value !in old(records) && nextId == r.value + 1
      ensures r.Success? ==> records == old(records)[r.value := TableMetadata(tableName, fields)]
    {
      if |tableName| > MaxTableNameLength {
        return Failure(TableNameTooLong);
      }
      if NameTaken(records, tableName) {
        return Failure(DuplicateTableName);
      }
      var id := nextId;
      records := records[id := TableMetadata(tableName, fields)];
      nextId := nextId + 1;
      r := Success(id);
    }

    /** Assigning `fields` on a record that was read from the catalog and saving it. */
    method SetFields(id: int, fields: seq<Field>)
      requires Valid() && id in records
      modifies this
      ensures Valid()
      ensures records == old(records)[id := old(records)[id].(fields := fields)]
      ensures nextId == old(nextId)
    {
      records := records[id := records[id].(fields := fields)];
    }
  }
}
