# Feature class to data frame: field selection and validation

This project models the core of `fc_to_pd_df`, a utility that converts a geodatabase feature
class into a pandas data frame. Before handing the table to the geoprocessing library's
feature-class-to-array conversion, the function:

- walks the table's field descriptors (name and type tag) in table order;
- records every field name;
- picks the names to extract, dropping every field whose type tag is `Geometry`;
- prints a notice, naming the field and its type, for each dropped geometry field that counts as
  requested. With no field list every field counts as requested. With a list, only listed fields do.
- when a field list was given, is meant to raise a "field not found" error for the first listed
  name, in list order, that the table does not have. As written, the check fails earlier on every
  non-empty list (see "## Findings");
- calls the conversion with the picked names, `skip_nulls=False` and `null_value=-999`.

Module `FieldSelection` (`field_selection.dfy`) holds the data model and the specification:

- `Field`, `ConversionRequest` and `Error` are the data model.
- `AllNames`, `Selected`, `Notices`, `FirstMissing` and `Convert` are the specification functions.
- The lemmas state the ordering, exclusion, membership and validation properties.

Module `FcToPdDf` (`fc_to_pd_df.dfy`) holds the procedure. It follows the source step by step,
except for the comparison in the validation loop (see "## Findings"). The method `FcToPdDf` has
the same two loops and accumulators, and its loop invariants prove that it computes
the specification functions. The module also holds the literal reading of the faulty validation
loop and the lemmas that compare the two readings. `Wrappers` (`wrappers.dfy`) defines `Option`
(Python's `None` or a value) and `Result`.

The field listing is a parameter of type `seq<Field>`. Printed notices are returned as the
descriptors of the fields they name. The conversion is returned as the `ConversionRequest` it
would be given.

Points of the source's behaviour that the model keeps:

- With a field list, a geometry field that is not listed is dropped without a notice
  (fc_to_pd_df.py:37).
- Validation stops at the first missing name (fc_to_pd_df.py:43-45). The error names that first
  missing name.
- Notices are printed during the first pass, before validation. So `FcToPdDf` returns them even
  when validation then fails.
- Python raises `ValueError` here (fc_to_pd_df.py:45); the model calls this error `FieldNotFound`.

The one deliberate divergence from the code is the faulty validation loop (see "## Findings").
`FcToPdDf` compares each requested string with the table's names, and the error it returns still
names the missing field.

## Model

| member | source | states |
|---|---|---|
| FieldSelection.AllNames | fc_to_pd_df.py:24-25 | the recorded names are every field's name, one per field, in table order, whatever the field's type or the request |
| FieldSelection.Selected | fc_to_pd_df.py:24-36 | at most one extracted name per table field |
| FieldSelection.Notices | fc_to_pd_df.py:24-39 | every notice names a field whose type tag is `Geometry`, and there is at most one notice per table field |
| FieldSelection.FirstMissing | fc_to_pd_df.py:43-45 | no result exactly when every requested name is a field name; otherwise the result is the first requested name, in request order, that is not a field name |
| FieldSelection.Convert | fc_to_pd_df.py:41-54 | fails exactly when a field list is given and one of its names is not a field of the table; the failure is a not-found error naming the first such name, and no conversion is requested. Otherwise the request carries exactly the selected names, `skipNulls` false and `nullValue` -999; with no field list, validation is skipped |
| FieldSelection.SelectedMembership | fc_to_pd_df.py:27-36 | a name is extracted if and only if some table field has that name, is not `Geometry`, and is requested (no list, or the name is in the list) |
| FieldSelection.NoticesMembership | fc_to_pd_df.py:27-39 | a field is reported if and only if it is a table field of type `Geometry` that is requested; with a list, unrequested geometry fields are dropped silently |
| FieldSelection.SelectedSubsequence | fc_to_pd_df.py:24-36 | the extracted names are a subsequence of the table's names: table order, not request order |
| FieldSelection.NoticesSubsequence | fc_to_pd_df.py:24-39 | the notices follow table order, one per reported field |
| FieldSelection.NoGeometryName | fc_to_pd_df.py:28-29 | when names are unique, the name of a `Geometry` field is never among the extracted names |
| FieldSelection.SelectedDistinct | fc_to_pd_df.py:24-36 | when names are unique, each table field is extracted at most once, even if requested more than once |
| FieldSelection.RequestOrderIrrelevant | fc_to_pd_df.py:35-39 | two field lists with the same names, in any order and with any repetition, give the same extracted names and the same notices |
| FieldSelection.CoveringRequestIsDefault | fc_to_pd_df.py:27-39 | a field list that names every table field extracts and reports exactly what no field list does |
| FieldSelection.RequestAllNames | fc_to_pd_df.py:24-54 | requesting all of the table's names by name gives the same names, notices and conversion as giving no list |
| FieldSelection.DefaultPartition | fc_to_pd_df.py:27-32 | with no field list, every field is either extracted or reported: extracted plus reported equals the number of fields |
| FieldSelection.PresentNamesAccepted | fc_to_pd_df.py:42-52 | a field list naming only table fields passes validation, and the conversion gets the selected names |
| FieldSelection.Message | fc_to_pd_df.py:45 | the text of a not-found error contains the name of the missing field |
| FcToPdDf.FcToPdDf | fc_to_pd_df.py:20-54 | the two loops compute exactly the specified notices and the specified outcome: the not-found error for the first missing requested name, or the conversion request for the selected names |
| FcToPdDf.ConvertAsWritten | fc_to_pd_df.py:41-54 | as written, the outcome succeeds if and only if the field list is absent or empty, and then agrees with the intended outcome |
| FcToPdDf.AsWrittenNeverNotFound | fc_to_pd_df.py:43-45 | as written, a failure is never the not-found error: the attribute error on the first entry comes before any name is compared |
| FcToPdDf.AsWrittenRejectsValidRequest | fc_to_pd_df.py:43-45 | for fields `id:Integer, geom:Geometry, score:Double` and the list `["id", "geom"]`, the literal loop fails while the intended one extracts `["id"]` |
| FcToPdDf.AsWrittenRejectsEveryRequest | fc_to_pd_df.py:43-45 | every non-empty field list of existing names fails as written but passes as intended |
| FcToPdDf.DefaultExcludesGeometry | fc_to_pd_df.py:27-32 | for fields `id, name, geom:Geometry` and no list, `["id", "name"]` is extracted and `geom` is reported |
| FcToPdDf.MissingFieldRejected | fc_to_pd_df.py:42-45 | for fields `id, name` and the list `["id", "missing_field"]`, the outcome is the not-found error for `missing_field` |

## Left out

- The geoprocessing library's field listing (fc_to_pd_df.py:23) is not modelled. Its result is the `fields` parameter.
- The conversion to a NumPy array and the wrapping in a pandas data frame (fc_to_pd_df.py:51-55) are not modelled. Row handling, row count and the substitution of -999 for nulls happen inside them. The model returns only the parameters passed. The feature-class handle passed as `in_table` is not part of the request.
- Errors raised by the library (unreadable table, out of memory) are not modelled. They propagate unchanged in the source.
- The console text of the notices is not modelled. A notice is the descriptor of the field it names.
- The memory limits on large feature classes (fc_to_pd_df.py:11-12) are a resource concern, not logic.
- The `__main__` example with a hard-coded path (fc_to_pd_df.py:58-61) is I/O plumbing.
- FieldSelection.Selected: its own contract is only a length bound. What it extracts is stated by SelectedMembership, SelectedSubsequence, NoGeometryName and SelectedDistinct.
- FieldSelection.NoGeometryName: assumes field names are unique within a table, as a geodatabase guarantees. With a duplicate name, a geometry field and a scalar field could share the extracted name.

## Findings

| source | as written | input that shows it | evidently intended | confidence | as-written member | corrected member |
|---|---|---|---|---|---|---|
| fc_to_pd_df.py:43-45 | the validation loop reads `field.name` on each entry of the caller's field list, which holds plain strings, so the first iteration raises an attribute error | fields `id:Integer, geom:Geometry, score:Double`, field list `["id", "geom"]` | compare each requested string with the recorded field names and raise the not-found error naming it | high; not executed | FcToPdDf.ConvertAsWritten | FieldSelection.Convert |
