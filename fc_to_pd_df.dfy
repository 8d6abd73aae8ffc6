/**
 * The conversion of a feature class to a data frame, as the step-by-step procedure the source
 * runs: one pass over the table's fields that collects every name, the names to extract and the
 * notices for excluded geometry fields; then, when a field list was given, a pass over it that
 * stops at the first name the table lacks; then the conversion request.
 *
 * The table's field descriptors are a parameter (they come from the geodatabase's field listing),
 * the printed notices are returned as the descriptors they name, and the conversion is returned as
 * the request it would be given rather than performed.
 */
module FcToPdDf {
  import opened Wrappers
  import opened FieldSelection

  /**
   * Computes the notices and the outcome of converting a table with descriptors `fields`,
   * extracting the names in `fieldList` or, when there is none, every field.
   *
   * The notices are emitted during the first pass, so they are returned even when validation
   * then fails. Deliberate divergence: the source's validation loop reads `.name` on each
   * requested entry, which are plain strings; this procedure compares each requested string
   * with the table's names, as evidently intended (see ConvertAsWritten for the literal reading).
   */
  method FcToPdDf(fields: seq<Field>, fieldList: Option<seq<string>>)
    returns (notices: seq<Field>, result: Result<ConversionRequest, Error>)
    ensures notices == Notices(fields, fieldList)
    ensures result == Convert(fields, fieldList)
  {
    var fieldListTemp: seq<string> := [];
    var allFields: seq<string> := [];
    notices := [];
    for i := 0 to |fields|
      invariant allFields == AllNames(fields[..i])
      invariant fieldListTemp == Selected(fields[..i], fieldList)
      invariant notices == Notices(fields[..i], fieldList)
    {
      var field := fields[i];
      assert fields[..i + 1][..i] == fields[..i];
      allFields := allFields + [field.name];
      if fieldList.None? {
        if field.fieldType != GeometryType {
          fieldListTemp := fieldListTemp + [field.name];
        } else {
          notices := notices + [field];
        }
      } else {
        if field.fieldType != GeometryType && field.name in fieldList.value {
          fieldListTemp := fieldListTemp + [field.name];
        } else if field.fieldType == GeometryType && field.name in fieldList.value {
          notices := notices + [field];
        }
      }
    }
    assert fields[..|fields|] == fields;

    if fieldList.Some? {
      var requested := fieldList.value;
      for j := 0 to |requested|
        invariant FirstMissing(requested[j..], allFields) == FirstMissing(requested, allFields)
      {
        if requested[j] !in allFields {
          result := Failure(FieldNotFound(requested[j]));
          return;
        }
        assert requested[j..][1..] == requested[j + 1..];
      }
    }

    result := Success(ConversionRequest(fieldListTemp, false, NullSentinel));
  }

  /**
   * The outcome with the validation loop read literally: its first iteration asks the first
   * requested string for a `name` attribute, which a string does not have, so every non-empty
   * field list fails before any name is checked. An empty or absent list never enters the loop.
   */
  function ConvertAsWritten(fields: seq<Field>, fieldList: Option<seq<string>>): (result: Result<ConversionRequest, Error>)
    ensures result.Success? <==> fieldList.None? || fieldList.value == []
    ensures result.Success? ==> result == Convert(fields, fieldList)
  {
    if fieldList.Some? && fieldList.value != [] then Failure(NoNameAttribute(fieldList.value[0]))
    else Success(ConversionRequest(Selected(fields, fieldList), false, NullSentinel))
  }

  /** As written, the validation loop never gets to compare a name, so it never reports one as missing. */
  lemma AsWrittenNeverNotFound(fields: seq<Field>, fieldList: Option<seq<string>>)
    ensures ConvertAsWritten(fields, fieldList).Failure? ==> !ConvertAsWritten(fields, fieldList).error.FieldNotFound?
  {
  }

  /**
   * The literal validation rejects a request that the intended one accepts: asking for an
   * existing integer field and an existing geometry field fails as written, yet is valid and
   * extracts just the integer field.
   */
  lemma AsWrittenRejectsValidRequest()
    ensures var fields := [Field("id", "Integer"), Field("geom", "Geometry"), Field("score", "Double")];
      && ConvertAsWritten(fields, Some(["id", "geom"])) == Failure(NoNameAttribute("id"))
      && Convert(fields, Some(["id", "geom"])) == Success(ConversionRequest(["id"], false, NullSentinel))
  {
    var fields := [Field("id", "Integer"), Field("geom", "Geometry"), Field("score", "Double")];
    assert AllNames(fields) == ["id", "geom", "score"];
    PresentNamesAccepted(fields, ["id", "geom"]);
    var request := Some(["id", "geom"]);
    assert fields[..1][..0] == [];
    assert Selected(fields[..1], request) == ["id"];
    assert fields[..2][..1] == fields[..1];
    assert Selected(fields[..2], request) == ["id"];
  }

  /** As written, no non-empty field list is ever converted, even one naming only real fields. */
  lemma AsWrittenRejectsEveryRequest(fields: seq<Field>, requested: seq<string>)
    requires requested != []
    requires forall j :: 0 <= j < |requested| ==> requested[j] in AllNames(fields)
    ensures ConvertAsWritten(fields, Some(requested)).Failure?
    ensures Convert(fields, Some(requested)).Success?
  {
  }

  /** A table with an integer, a string and a geometry field, converted without a field list. */
  lemma DefaultExcludesGeometry()
    ensures var fields := [Field("id", "Integer"), Field("name", "String"), Field("geom", "Geometry")];
      && Notices(fields, None) == [Field("geom", "Geometry")]
      && Convert(fields, None) == Success(ConversionRequest(["id", "name"], false, NullSentinel))
  {
    var fields := [Field("id", "Integer"), Field("name", "String"), Field("geom", "Geometry")];
    assert fields[..1][..0] == [];
    assert Selected(fields[..1], None) == ["id"];
    assert fields[..2][..1] == fields[..1];
    assert Selected(fields[..2], None) == ["id", "name"];
    assert Selected(fields, None) == Selected(fields[..2], None);
  }

  /** A request naming a field the table lacks fails on that name and converts nothing. */
  lemma MissingFieldRejected()
    ensures var fields := [Field("id", "Integer"), Field("name", "String")];
      Convert(fields, Some(["id", "missing_field"])) == Failure(FieldNotFound("missing_field"))
  {
  }
}
