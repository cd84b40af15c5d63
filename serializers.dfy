/** Validation of request bodies: the field serializer (name and type of one field, plus the
    duplicate-name check that runs only when the serializer is given a request context), the
    provisioning serializer (table name and fields) and the update serializer (fields). */
module Serializers {
  import opened Wrappers
  import opened Utils
  import opened Models

  /** max_length of both name character fields. */
  const MaxNameLength := 255

  /** The accepted values of a field's type. */
  const FieldTypeChoices: seq<string> := ["string", "number", "boolean"]

  /** What a name field can report: a blank value, a value over max_length, a NUL character
      (the three checks of the character field), or a name the target table already stores
      (validate_name). */
  datatype NameProblem = Blank | TooLong | NullCharacter | NameExists

  /** One per-field error, at the position of the offending field in the submitted list; a
      name error carries every problem the name field reports, in order. */
  datatype FieldError =
    | NameInvalid(index: nat, problems: seq<NameProblem>)
    | TypeInvalid(index: nat, given: string)

  /** The serializer's error report: the problems of table_name (provisioning only; empty when
      it passed) and the per-field errors. */
  datatype ValidationErrors = ValidationErrors(tableName: seq<NameProblem>, fields: seq<FieldError>)

  /** Python's `str.isspace` on one character: the characters that `str.strip()` removes. */
  predicate IsSpace(c: char)
  {
    || '\t' <= c <= '\r'
    || '\U{1C}' <= c <= ' '
    || c == '\U{85}' || c == '\U{A0}' || c == '\U{1680}'
    || '\U{2000}' <= c <= '\U{200A}'
    || c == '\U{2028}' || c == '\U{2029}' || c == '\U{202F}' || c == '\U{205F}' || c == '\U{3000}'
  }

  /** `s` without its leading whitespace. */
  function TrimStart(s: string): (t: string)
    ensures |t| <= |s|
    ensures t != [] ==> !IsSpace(t[0])
    decreases |s|
  {
    if s != [] && IsSpace(s[0]) then TrimStart(s[1..]) else s
  }

  /** `s` without its trailing whitespace. */
  function TrimEnd(s: string): (t: string)
    ensures |t| <= |s|
    ensures t != [] ==> !IsSpace(t[|t| - 1])
    decreases |s|
  {
    if s != [] && IsSpace(s[|s| - 1]) then TrimEnd(s[..|s| - 1]) else s
  }

  /** Python's `str.strip()`: the value without leading and trailing whitespace. */
  function Strip(s: string): (t: string)
    ensures |t| <= |s|
    ensures t != [] ==> !IsSpace(t[0]) && !IsSpace(t[|t| - 1])
  {
    var u := TrimStart(s);
    TrimEndDropsSpace(u);
    TrimEnd(u)
  }

  /** TrimStart removes a prefix made of whitespace only. */
  lemma {:induction false} TrimStartDropsSpace(s: string)
    ensures TrimStart(s) == s[|s| - |TrimStart(s)|..]
    ensures forall i :: 0 <= i < |s| - |TrimStart(s)| ==> IsSpace(s[i])
    decreases |s|
  {
    if s != [] && IsSpace(s[0]) {
      TrimStartDropsSpace(s[1..]);
      assert forall i :: 1 <= i < |s| ==> s[1..][i - 1] == s[i];
    }
  }

  /** TrimEnd removes a suffix made of whitespace only. */
  lemma {:induction false} TrimEndDropsSpace(s: string)
    ensures TrimEnd(s) == s[..|TrimEnd(s)|]
    ensures forall i :: |TrimEnd(s)| <= i < |s| ==> IsSpace(s[i])
    decreases |s|
  {
    if s != [] && IsSpace(s[|s| - 1]) {
      TrimEndDropsSpace(s[..|s| - 1]);
    }
  }

  /** A value strips to nothing exactly when it is all whitespace, and stripping keeps every
      character that is not whitespace. */
  lemma StripRemovesOnlySpace(s: string)
    ensures Strip(s) == [] <==> forall i :: 0 <= i < |s| ==> IsSpace(s[i])
    ensures forall c :: c in Strip(s) ==> c in s
    ensures forall c :: c in s && !IsSpace(c) ==> c in Strip(s)
  {
    var u := TrimStart(s);
    var t := TrimEnd(u);
    TrimStartDropsSpace(s);
    TrimEndDropsSpace(u);
    var k := |s| - |u|;
    assert forall i :: 0 <= i < |t| ==> t[i] == s[k + i];
    forall c | c in s && !IsSpace(c)
      ensures c in t
    {
      var i :| 0 <= i < |s| && s[i] == c;
      assert u[i - k] == c;
      assert t[i - k] == c;
    }
  }

  /** NUL is not whitespace, so a value contains NUL exactly when its strip does. */
  lemma NulSurvivesStrip(s: string)
    ensures '\0' in Strip(s) <==> '\0' in s
  {
    StripRemovesOnlySpace(s);
    assert !IsSpace('\0');
  }

  /** A value with no whitespace at either end is its own strip. */
  lemma StripKeepsTrimmed(s: string)
    requires s != [] ==> !IsSpace(s[0]) && !IsSpace(s[|s| - 1])
    ensures Strip(s) == s
  {
  }

  /** Stripping twice is stripping once. */
  lemma StripIdempotent(s: string)
    ensures Strip(Strip(s)) == Strip(s)
  {
    StripKeepsTrimmed(Strip(s));
  }

  /** A name of only whitespace is blank. */
  lemma WhitespaceNameIsBlank()
    ensures ValidateName("   ", None) == Failure([Blank])
  {
    StripRemovesOnlySpace("   ");
  }

  /** A name holding a NUL character is refused. */
  lemma NulNameRefused()
    ensures ValidateName("a\0b", None) == Failure([NullCharacter])
  {
    var v := "a\0b";
    assert v[1] == '\0';
    StripKeepsTrimmed(v);
    assert CharFieldValue(v) == Failure([NullCharacter]);
  }

  /** A name with no whitespace at either end, within the length limit and free of NUL passes
      the character field unchanged. */
  lemma PlainNamePasses(s: string)
    requires s != [] && !IsSpace(s[0]) && !IsSpace(s[|s| - 1])
    requires |s| <= MaxNameLength && '\0' !in s
    ensures CharFieldValue(s) == Success(s)
  {
    StripKeepsTrimmed(s);
  }

  /** The names of the fields, in order. */
  function FieldNames(fields: seq<Field>): (names: seq<string>)
    ensures |names| == |fields|
    ensures forall i :: 0 <= i < |fields| ==> names[i] == fields[i].name
  {
    seq(|fields|, i requires 0 <= i < |fields| => fields[i].name)
  }

  /** A character field with max_length 255 and the framework's defaults (whitespace trimmed,
      blank refused): the stripped value, or every problem it reports. A value that is blank
      once stripped is reported as Blank alone; otherwise the length check and the NUL check
      both run, in that order. */
  function CharFieldValue(value: string): (r: Result<string, seq<NameProblem>>)
    ensures r.Success? ==> r.value == Strip(value)
    ensures r.Success? <==> Strip(value) != "" && |Strip(value)| <= MaxNameLength && '\0' !in value
    ensures r.Failure? ==> r.error != [] && NameExists !in r.error
    ensures r.Failure? && Strip(value) == "" ==> r.error == [Blank]
    ensures r.Failure? ==> (TooLong in r.error <==> Strip(value) != "" && |Strip(value)| > MaxNameLength)
    ensures r.Failure? ==> (NullCharacter in r.error <==> Strip(value) != "" && '\0' in value)
  {
    var v := Strip(value);
    NulSurvivesStrip(value);
    if v == "" then Failure([Blank])
    else if |v| > MaxNameLength && '\0' in v then Failure([TooLong, NullCharacter])
    else if |v| > MaxNameLength then Failure([TooLong])
    else if '\0' in v then Failure([NullCharacter])
    else Success(v)
  }

  /** A field name: the character-field checks, then validate_name on the stripped value,
      which compares it with the names stored for the target table when there is a request
      context (`existing` is Some of the stored fields) and does nothing otherwise. */
  function ValidateName(value: string, existing: Option<seq<Field>>): (r: Result<string, seq<NameProblem>>)
    ensures r.Success? ==> r.value == Strip(value)
    ensures r.Success? <==>
      CharFieldValue(value).Success?
      && (existing.Some? ==> forall i :: 0 <= i < |existing.value| ==> existing.value[i].name != Strip(value))
    ensures r == Failure([NameExists]) <==>
      CharFieldValue(value).Success?
      && existing.Some? && exists i :: 0 <= i < |existing.value| && existing.value[i].name == Strip(value)
    ensures CharFieldValue(value).Failure? ==> r == CharFieldValue(value)
  {
    match CharFieldValue(value)
    case Failure(ps) => Failure(ps)
    case Success(v) =>
      if existing.Some? && v in FieldNames(existing.value) then
        assert FieldNames(existing.value)[IndexOf(FieldNames(existing.value), v)] == v;
        Failure([NameExists])
      else
        assert existing.Some? ==> forall i :: 0 <= i < |existing.value| ==> FieldNames(existing.value)[i] != v;
        Success(v)
  }

  /** The position of an element known to be in a sequence. */
  function IndexOf(s: seq<string>, x: string): (i: nat)
    requires x in s
    ensures i < |s| && s[i] == x
  {
    if s[0] == x then 0 else 1 + IndexOf(s[1..], x)
  }

  /** Does one field pass the field serializer? */
  predicate FieldAccepted(f: Field, existing: Option<seq<Field>>)
    ensures FieldAccepted(f, existing) <==>
      && CharFieldValue(f.name).Success?
      && f.fieldType in FieldTypeChoices
      && (existing.Some? ==> Strip(f.name) !in FieldNames(existing.value))
  {
    ValidateName(f.name, existing).Success? && f.fieldType in FieldTypeChoices
  }

  /** A field as the field serializer returns it: the name stripped, the type as given. */
  function Cleaned(fields: seq<Field>): (r: seq<Field>)
    ensures |r| == |fields|
    ensures forall i :: 0 <= i < |fields| ==> r[i] == Field(Strip(fields[i].name), fields[i].fieldType)
  {
    seq(|fields|, i requires 0 <= i < |fields| => Field(Strip(fields[i].name), fields[i].fieldType))
  }

  /** The errors the field serializer reports for one field at position `index`. */
  function FieldErrors(f: Field, index: nat, existing: Option<seq<Field>>): (r: seq<FieldError>)
    ensures forall e :: e in r ==> e.index == index && Describes(e, f, existing)
    ensures ValidateName(f.name, existing).Failure? ==> NameInvalid(index, ValidateName(f.name, existing).error) in r
    ensures f.fieldType !in FieldTypeChoices ==> TypeInvalid(index, f.fieldType) in r
    ensures r == [] <==> FieldAccepted(f, existing)
  {
    (match ValidateName(f.name, existing)
     case Failure(ps) => [NameInvalid(index, ps)]
     case Success(_) => [])
    + (if f.fieldType in FieldTypeChoices then [] else [TypeInvalid(index, f.fieldType)])
  }

  /** Does the error `e` correctly describe a defect of the field `f`? */
  predicate Describes(e: FieldError, f: Field, existing: Option<seq<Field>>)
  {
    match e
    case NameInvalid(_, ps) => ValidateName(f.name, existing) == Failure(ps)
    case TypeInvalid(_, given) => given == f.fieldType && given !in FieldTypeChoices
  }

  /** The errors of a list serializer over `fields`, whose first element sits at `offset`:
      every error names a field that really is defective, and every defect of every field
      is reported at that field's position. */
  function ListErrors(fields: seq<Field>, existing: Option<seq<Field>>, offset: nat): (r: seq<FieldError>)
    ensures forall e :: e in r ==> offset <= e.index < offset + |fields| && Describes(e, fields[e.index - offset], existing)
    ensures forall i :: 0 <= i < |fields| && ValidateName(fields[i].name, existing).Failure? ==>
      NameInvalid(offset + i, ValidateName(fields[i].name, existing).error) in r
    ensures forall i :: 0 <= i < |fields| && fields[i].fieldType !in FieldTypeChoices ==>
      TypeInvalid(offset + i, fields[i].fieldType) in r
    ensures r == [] <==> forall i :: 0 <= i < |fields| ==> FieldAccepted(fields[i], existing)
    decreases |fields|
  {
    if fields == [] then []
    else
      var head := FieldErrors(fields[0], offset, existing);
      var tail := ListErrors(fields[1..], existing, offset + 1);
      ErrorsOfConcat(head, tail, fields, existing, offset);
      NameDefectsOfConcat(head, tail, fields, existing, offset);
      TypeDefectsOfConcat(head, tail, fields, offset);
      EmptyOfConcat(head, tail, fields, existing);
      head + tail
  }

  /** The errors of the first field followed by those of the rest describe the whole list. */
  lemma ErrorsOfConcat(head: seq<FieldError>, tail: seq<FieldError>, fields: seq<Field>, existing: Option<seq<Field>>, offset: nat)
    requires fields != []
    requires forall e :: e in head ==> e.index == offset && Describes(e, fields[0], existing)
    requires forall e :: e in tail ==>
      offset + 1 <= e.index < offset + |fields| && Describes(e, fields[1..][e.index - (offset + 1)], existing)
    ensures forall e :: e in head + tail ==>
      offset <= e.index < offset + |fields| && Describes(e, fields[e.index - offset], existing)
  {
    forall e | e in head + tail
      ensures offset <= e.index < offset + |fields| && Describes(e, fields[e.index - offset], existing)
    {
      if e !in head {
        assert fields[1..][e.index - (offset + 1)] == fields[e.index - offset];
      }
    }
  }

  /** Every name defect of the first field is in its own errors and every one of the rest is
      in theirs, so the concatenation reports every name defect of the list. */
  lemma NameDefectsOfConcat(head: seq<FieldError>, tail: seq<FieldError>, fields: seq<Field>, existing: Option<seq<Field>>, offset: nat)
    requires fields != []
    requires ValidateName(fields[0].name, existing).Failure? ==> NameInvalid(offset, ValidateName(fields[0].name, existing).error) in head
    requires forall i :: 0 <= i < |fields[1..]| && ValidateName(fields[1..][i].name, existing).Failure? ==>
      NameInvalid(offset + 1 + i, ValidateName(fields[1..][i].name, existing).error) in tail
    ensures forall i :: 0 <= i < |fields| && ValidateName(fields[i].name, existing).Failure? ==>
      NameInvalid(offset + i, ValidateName(fields[i].name, existing).error) in head + tail
  {
    forall i | 0 <= i < |fields| && ValidateName(fields[i].name, existing).Failure?
      ensures NameInvalid(offset + i, ValidateName(fields[i].name, existing).error) in head + tail
    {
      if i > 0 {
        assert fields[1..][i - 1] == fields[i];
      }
    }
  }

  /** The same for type defects. */
  lemma TypeDefectsOfConcat(head: seq<FieldError>, tail: seq<FieldError>, fields: seq<Field>, offset: nat)
    requires fields != []
    requires fields[0].fieldType !in FieldTypeChoices ==> TypeInvalid(offset, fields[0].fieldType) in head
    requires forall i :: 0 <= i < |fields[1..]| && fields[1..][i].fieldType !in FieldTypeChoices ==>
      TypeInvalid(offset + 1 + i, fields[1..][i].fieldType) in tail
    ensures forall i :: 0 <= i < |fields| && fields[i].fieldType !in FieldTypeChoices ==>
      TypeInvalid(offset + i, fields[i].fieldType) in head + tail
  {
    forall i | 0 <= i < |fields| && fields[i].fieldType !in FieldTypeChoices
      ensures TypeInvalid(offset + i, fields[i].fieldType) in head + tail
    {
      if i > 0 {
        assert fields[1..][i - 1] == fields[i];
      }
    }
  }

  /** The concatenation is empty exactly when the first field and all the rest pass. */
  lemma EmptyOfConcat(head: seq<FieldError>, tail: seq<FieldError>, fields: seq<Field>, existing: Option<seq<Field>>)
    requires fields != []
    requires head == [] <==> FieldAccepted(fields[0], existing)
    requires tail == [] <==> forall i :: 0 <= i < |fields[1..]| ==> FieldAccepted(fields[1..][i], existing)
    ensures head + tail == [] <==> forall i :: 0 <= i < |fields| ==> FieldAccepted(fields[i], existing)
  {
    var rest := fields[1..];
    if forall i :: 0 <= i < |fields| ==> FieldAccepted(fields[i], existing) {
      assert forall i :: 0 <= i < |rest| ==> rest[i] == fields[i + 1];
    } else {
      var i :| 0 <= i < |fields| && !FieldAccepted(fields[i], existing);
      if i > 0 {
        assert rest[i - 1] == fields[i];
      }
    }
  }

  /** A list of fields validated by the field serializer: the validated list is the submitted list with
      every name stripped. */
  function ValidateFields(fields: seq<Field>, existing: Option<seq<Field>>): (r: Result<seq<Field>, seq<FieldError>>)
    ensures r.Success? <==> forall i :: 0 <= i < |fields| ==> FieldAccepted(fields[i], existing)
    ensures r.Success? ==> r.value == Cleaned(fields)
    ensures r.Failure? ==> r.error != [] && forall e :: e in r.error ==> e.index < |fields| && Describes(e, fields[e.index], existing)
  {
    var errors := ListErrors(fields, existing, 0);
    if errors == [] then Success(Cleaned(fields)) else Failure(errors)
  }

  /** DynamicTableSerializer: table_name and fields, without request context. */
  function ValidateProvisionRequest(tableName: string, fields: seq<Field>): (r: Result<(string, seq<Field>), ValidationErrors>)
    ensures r.Success? <==>
      CharFieldValue(tableName).Success? && forall i :: 0 <= i < |fields| ==> FieldAccepted(fields[i], None)
    ensures r.Success? ==> r.value == (Strip(tableName), Cleaned(fields))
    ensures r.Failure? ==> (r.error.tableName == [] <==> CharFieldValue(tableName).Success?)
    ensures r.Failure? && CharFieldValue(tableName).Failure? ==> r.error.tableName == CharFieldValue(tableName).error
    ensures r.Failure? ==> forall e :: e in r.error.fields ==> e.index < |fields| && Describes(e, fields[e.index], None)
  {
    var name := CharFieldValue(tableName);
    var fieldErrors := ListErrors(fields, None, 0);
    if name.Success? && fieldErrors == [] then Success((name.value, Cleaned(fields)))
    else Failure(ValidationErrors(if name.Failure? then name.error else [], fieldErrors))
  }

  /** UpdateTableSerializer: fields only; `existing` is the context-dependent duplicate check. */
  function ValidateUpdateRequest(fields: seq<Field>, existing: Option<seq<Field>>): (r: Result<seq<Field>, ValidationErrors>)
    ensures r.Success? <==> forall i :: 0 <= i < |fields| ==> FieldAccepted(fields[i], existing)
    ensures r.Success? ==> r.value == Cleaned(fields)
    ensures r.Failure? ==> r.error.tableName == [] && r.error.fields != []
    ensures r.Failure? ==> forall e :: e in r.error.fields ==> e.index < |fields| && Describes(e, fields[e.index], existing)
  {
    match ValidateFields(fields, existing)
    case Success(v) => Success(v)
    case Failure(errors) => Failure(ValidationErrors([], errors))
  }

  /** A field that passes still passes, unchanged, once its name is stripped. */
  lemma StrippedFieldPasses(f: Field, existing: Option<seq<Field>>)
    requires FieldAccepted(f, existing)
    ensures Strip(Strip(f.name)) == Strip(f.name)
    ensures FieldAccepted(Field(Strip(f.name), f.fieldType), existing)
  {
    StripIdempotent(f.name);
    NulSurvivesStrip(f.name);
  }

  /** Validated fields validate again to themselves: stripping is the only change the
      serializer makes, and a stripped name strips to itself. */
  lemma RevalidationIsIdentity(fields: seq<Field>, existing: Option<seq<Field>>)
    requires ValidateUpdateRequest(fields, existing).Success?
    ensures var v := ValidateUpdateRequest(fields, existing).value;
      ValidateUpdateRequest(v, existing) == Success(v)
  {
    var v := Cleaned(fields);
    forall i | 0 <= i < |v|
      ensures Strip(v[i].name) == v[i].name && FieldAccepted(v[i], existing)
    {
      StrippedFieldPasses(fields[i], existing);
    }
    assert Cleaned(v) == v;
  }

  /** Without a request context no field is ever reported as a duplicate. */
  lemma NoContextNoDuplicateCheck(fields: seq<Field>)
    ensures forall e :: e in ListErrors(fields, None, 0) ==> e.NameInvalid? ==> NameExists !in e.problems
  {
  }

  /** With a context, the update serializer accepts exactly what it accepts without one,
      minus the lists that reuse a stored field name. */
  lemma ContextAddsOnlyDuplicateCheck(fields: seq<Field>, stored: seq<Field>)
    ensures ValidateUpdateRequest(fields, Some(stored)).Success? <==>
      ValidateUpdateRequest(fields, None).Success?
      && forall i, j :: 0 <= i < |fields| && 0 <= j < |stored| ==> Strip(fields[i].name) != stored[j].name
  {
  }

  /** A list accepted on the append path shares no name with the stored fields. */
  lemma AcceptedAppendIsDisjoint(fields: seq<Field>, stored: seq<Field>)
    requires ValidateUpdateRequest(fields, Some(stored)).Success?
    ensures forall n :: n in FieldNames(ValidateUpdateRequest(fields, Some(stored)).value) ==> n !in FieldNames(stored)
  {
  }

  /** The duplicate check looks only at the stored fields: two incoming fields with the same
      new name both pass. */
  lemma IncomingDuplicatesPass(name: string, fieldType: string, stored: seq<Field>)
    requires CharFieldValue(name).Success? && fieldType in FieldTypeChoices
    requires Strip(name) !in FieldNames(stored)
    ensures ValidateUpdateRequest([Field(name, fieldType), Field(name, fieldType)], Some(stored)).Success?
  {
  }

  /** A name that the stored fields already use is rejected on the append path, at its own
      position, and the whole request fails. */
  lemma StoredNameRejected(fields: seq<Field>, stored: seq<Field>, i: nat, j: nat)
    requires i < |fields| && j < |stored| && CharFieldValue(fields[i].name).Success?
    requires Strip(fields[i].name) == stored[j].name
    ensures ValidateUpdateRequest(fields, Some(stored)).Failure?
    ensures NameInvalid(i, [NameExists]) in ValidateUpdateRequest(fields, Some(stored)).error.fields
  {
  }

  /** A type outside the choices fails every request that carries it, with the error at the
      field's own position, whatever the name and whatever the context. */
  lemma BadTypeRejected(tableName: string, fields: seq<Field>, existing: Option<seq<Field>>, i: nat)
    requires i < |fields| && fields[i].fieldType !in FieldTypeChoices
    ensures ValidateProvisionRequest(tableName, fields).Failure?
    ensures TypeInvalid(i, fields[i].fieldType) in ValidateProvisionRequest(tableName, fields).error.fields
    ensures ValidateUpdateRequest(fields, existing).Failure?
    ensures TypeInvalid(i, fields[i].fieldType) in ValidateUpdateRequest(fields, existing).error.fields
  {
  }

  /** Every accepted type maps to a distinct column type, so the "integer" branch of the
      mapper is unreachable from a validated field, and "number" becomes "text". */
  lemma AcceptedTypesMapping(t: string, u: string)
    requires t in FieldTypeChoices && u in FieldTypeChoices
    ensures SqlFieldType(t) != "integer"
    ensures SqlFieldType(t) == SqlFieldType(u) ==> t == u
    ensures t == "number" ==> SqlFieldType(t) == "text"
  {
  }

  /** The field type "integer" is refused by validation although the mapper handles it. */
  lemma IntegerTypeRefused(name: string, existing: Option<seq<Field>>)
    ensures !FieldAccepted(Field(name, "integer"), existing)
    ensures SqlFieldType("integer") == "integer"
  {
  }
}
