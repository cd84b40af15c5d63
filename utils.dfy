/** The mapping from a field's abstract type to the SQL column type used in DDL. */
module Utils {

  /** The four column types the mapper can produce. */
  const SqlTypes: set<string> := {"varchar(255)", "integer", "boolean", "text"}

  /** The SQL column type for a field type string. Total: every string maps to one of
      four constants, with "text" as the fall-back (which is where "number" lands). */
  function SqlFieldType(fieldType: string): (r: string)
    ensures r in SqlTypes
    ensures r == "varchar(255)" <==> fieldType == "string"
    ensures r == "integer" <==> fieldType == "integer"
    ensures r == "boolean" <==> fieldType == "boolean"
    ensures r == "text" <==> fieldType !in {"string", "integer", "boolean"}
  {
    if fieldType == "string" then "varchar(255)"
    else if fieldType == "integer" then "integer"
    else if fieldType == "boolean" then "boolean"
    else "text"
  }
}
