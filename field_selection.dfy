/**
 * Field selection for converting a feature class to a data frame: which of the table's fields are
 * extracted, which excluded geometry fields are reported, and when a request is rejected.
 * Everything here is a specification function or a lemma about one; the step-by-step procedure
 * that is proved to compute them is in module FcToPdDf.
 */
module FieldSelection {
  import opened Wrappers

  /** The type tag of a field that holds geometry, which a data frame cannot hold. */
  const GeometryType: string := "Geometry"

  /** The value the conversion writes in place of a null cell. */
  const NullSentinel: int := -999

  /** A field descriptor as the feature class lists it: its name and its type tag. */
  datatype Field = Field(name: string, fieldType: string)

  /** The parameters handed to the conversion of the feature class into an array. */
  datatype ConversionRequest = ConversionRequest(fieldNames: seq<string>, skipNulls: bool, nullValue: int)

  /**
   * FieldNotFound is the error the function raises for a requested name the table lacks.
   * NoNameAttribute is what the validation loop raises as written, when it asks a plain string
   * for a `name` attribute; only the as-written variant in module FcToPdDf produces it.
   */
  datatype Error = FieldNotFound(name: string) | NoNameAttribute(value: string)

  /** `t` occurs in `s` starting at position `k`. */
  predicate OccursAt(s: string, t: string, k: int)
  {
    0 <= k <= |s| - |t| && s[k..k + |t|] == t
  }

  /** The text of the error; a not-found error names the missing field. */
  function Message(e: Error): (m: string)
    ensures e.FieldNotFound? ==>
      exists k :: OccursAt(m, e.name, k)
  {
    match e
    case FieldNotFound(name) =>
      var prefix := "Requested field \"";
      var m := prefix + name + "\" was not found in the feature class!";
      assert OccursAt(m, name, |prefix|);
      m
    case NoNameAttribute(_) => "'str' object has no attribute 'name'"
  }

  predicate IsGeometry(f: Field)
  {
    f.fieldType == GeometryType
  }

  /** With no field list every field counts as requested; otherwise only the listed names. */
  predicate Requested(f: Field, fieldList: Option<seq<string>>)
  {
    fieldList.None? || f.name in fieldList.value
  }

  /** Field names are unique within a feature class. */
  predicate UniqueNames(fields: seq<Field>)
  {
    forall i, j :: 0 <= i < j < |fields| ==> fields[i].name != fields[j].name
  }

  /** `a` is `b` with some elements left out and the rest kept in order. */
  predicate IsSubsequence<T(==)>(a: seq<T>, b: seq<T>)
    decreases |b|
  {
    if a == [] then true
    else if b == [] then false
    else
      (a[|a| - 1] == b[|b| - 1] && IsSubsequence(a[..|a| - 1], b[..|b| - 1]))
      || IsSubsequence(a, b[..|b| - 1])
  }

  /** The names of all fields of the table, in table order, whatever their type. */
  function AllNames(fields: seq<Field>): (names: seq<string>)
    ensures |names| == |fields|
    ensures forall i :: 0 <= i < |fields| ==> names[i] == fields[i].name
  {
    if fields == [] then []
    else AllNames(fields[..|fields| - 1]) + [fields[|fields| - 1].name]
  }

  /** The names to extract: requested fields that are not geometry, in table order. */
  function Selected(fields: seq<Field>, fieldList: Option<seq<string>>): (names: seq<string>)
    ensures |names| <= |fields|
  {
    if fields == [] then []
    else
      var f := fields[|fields| - 1];
      Selected(fields[..|fields| - 1], fieldList)
        + (if !IsGeometry(f) && Requested(f, fieldList) then [f.name] else [])
  }

  /** The descriptors of the requested geometry fields, one notice each, in table order. */
  function Notices(fields: seq<Field>, fieldList: Option<seq<string>>): (reported: seq<Field>)
    ensures |reported| <= |fields|
    ensures forall k :: 0 <= k < |reported| ==> IsGeometry(reported[k])
  {
    if fields == [] then []
    else
      var f := fields[|fields| - 1];
      Notices(fields[..|fields| - 1], fieldList)
        + (if IsGeometry(f) && Requested(f, fieldList) then [f] else [])
  }

  /** `requested[j]` is the first requested name missing from `names`. */
  predicate IsFirstMissing(requested: seq<string>, names: seq<string>, j: int)
  {
    0 <= j < |requested| && requested[j] !in names
    && forall k :: 0 <= k < j ==> requested[k] in names
  }

  /** The first requested name, in request order, that is not among `names`. */
  function FirstMissing(requested: seq<string>, names: seq<string>): (missing: Option<string>)
    ensures missing.None? <==> forall j :: 0 <= j < |requested| ==> requested[j] in names
    ensures missing.Some? ==>
      exists j :: IsFirstMissing(requested, names, j) && requested[j] == missing.value
  {
    if requested == [] then None
    else if requested[0] !in names then
      assert IsFirstMissing(requested, names, 0);
      Some(requested[0])
    else
      var rest := FirstMissing(requested[1..], names);
      if rest.Some? then
        var j :| IsFirstMissing(requested[1..], names, j) && requested[1..][j] == rest.value;
        assert IsFirstMissing(requested, names, j + 1);
        rest
      else
        rest
  }

  /**
   * The whole outcome: with a field list, the first requested name that is not a field of the
   * table is an error and nothing is converted; otherwise the conversion is requested for the
   * selected names, keeping nulls as the sentinel -999.
   */
  function Convert(fields: seq<Field>, fieldList: Option<seq<string>>): (result: Result<ConversionRequest, Error>)
    ensures result.Failure? <==>
      fieldList.Some? && exists x :: x in fieldList.value && x !in AllNames(fields)
    ensures result.Failure? ==>
      && fieldList.Some?
      && result.error.FieldNotFound?
      && exists j :: IsFirstMissing(fieldList.value, AllNames(fields), j)
           && fieldList.value[j] == result.error.name
    ensures result.Success? ==>
      result.value == ConversionRequest(Selected(fields, fieldList), false, NullSentinel)
  {
    match fieldList
    case Some(requested) =>
      var missing := FirstMissing(requested, AllNames(fields));
      if missing.Some? then
        var j :| IsFirstMissing(requested, AllNames(fields), j) && requested[j] == missing.value;
        assert requested[j] in requested;
        Failure(FieldNotFound(missing.value))
      else
        Success(ConversionRequest(Selected(fields, fieldList), false, NullSentinel))
    case None => Success(ConversionRequest(Selected(fields, fieldList), false, NullSentinel))
  }

  // ---------------------------------------------------------------------------------------------
  // Properties of the selection

  /** A name is selected exactly when some field of the table has it, is requested and is not geometry. */
  lemma {:induction false} SelectedMembership(fields: seq<Field>, fieldList: Option<seq<string>>, x: string)
    ensures x in Selected(fields, fieldList) <==>
      exists f :: f in fields && f.name == x && !IsGeometry(f) && Requested(f, fieldList)
  {
    if fields != [] {
      var n := |fields| - 1;
      var prefix := fields[..n];
      SelectedMembership(prefix, fieldList, x);
      assert fields == prefix + [fields[n]];
      if x in Selected(fields, fieldList) && x !in Selected(prefix, fieldList) {
        assert fields[n] in fields;
      }
      if exists f :: f in fields && f.name == x && !IsGeometry(f) && Requested(f, fieldList) {
        var f :| f in fields && f.name == x && !IsGeometry(f) && Requested(f, fieldList);
        if f !in prefix {
          assert f == fields[n];
        }
      }
    }
  }

  /** A field is reported exactly when it is a requested geometry field of the table. */
  lemma {:induction false} NoticesMembership(fields: seq<Field>, fieldList: Option<seq<string>>, f: Field)
    ensures f in Notices(fields, fieldList) <==> f in fields && IsGeometry(f) && Requested(f, fieldList)
  {
    if fields != [] {
      var n := |fields| - 1;
      NoticesMembership(fields[..n], fieldList, f);
      assert fields == fields[..n] + [fields[n]];
    }
  }

  /** Keeping every element of `a` in `b` survives appending one more element to `b`. */
  lemma SubsequenceOfLonger<T>(a: seq<T>, b: seq<T>, x: T)
    requires IsSubsequence(a, b)
    ensures IsSubsequence(a, b + [x])
  {
  }

  /** Appending the same element to both sides keeps the subsequence relation. */
  lemma SubsequenceOfBoth<T>(a: seq<T>, b: seq<T>, x: T)
    requires IsSubsequence(a, b)
    ensures IsSubsequence(a + [x], b + [x])
  {
  }

  /** The selected names keep table order: they are the table's names with some left out. */
  lemma {:induction false} SelectedSubsequence(fields: seq<Field>, fieldList: Option<seq<string>>)
    ensures IsSubsequence(Selected(fields, fieldList), AllNames(fields))
  {
    if fields != [] {
      var n := |fields| - 1;
      var f := fields[n];
      SelectedSubsequence(fields[..n], fieldList);
      var s, names := Selected(fields[..n], fieldList), AllNames(fields[..n]);
      assert AllNames(fields) == names + [f.name];
      if !IsGeometry(f) && Requested(f, fieldList) {
        assert Selected(fields, fieldList) == s + [f.name];
        SubsequenceOfBoth(s, names, f.name);
      } else {
        assert Selected(fields, fieldList) == s;
        SubsequenceOfLonger(s, names, f.name);
      }
    }
  }

  /** The notices keep table order: they are the table's descriptors with some left out. */
  lemma {:induction false} NoticesSubsequence(fields: seq<Field>, fieldList: Option<seq<string>>)
    ensures IsSubsequence(Notices(fields, fieldList), fields)
  {
    if fields != [] {
      var n := |fields| - 1;
      var f := fields[n];
      NoticesSubsequence(fields[..n], fieldList);
      var s := Notices(fields[..n], fieldList);
      assert fields == fields[..n] + [f];
      if IsGeometry(f) && Requested(f, fieldList) {
        assert Notices(fields, fieldList) == s + [f];
        SubsequenceOfBoth(s, fields[..n], f);
      } else {
        assert Notices(fields, fieldList) == s;
        SubsequenceOfLonger(s, fields[..n], f);
      }
    }
  }

  /** In a table with unique names, the field that carries a name is the only one. */
  lemma UniqueField(fields: seq<Field>, f: Field, g: Field)
    requires UniqueNames(fields)
    requires f in fields && g in fields && f.name == g.name
    ensures f == g
  {
  }

  /** In a table with unique names, no geometry field's name is ever selected. */
  lemma NoGeometryName(fields: seq<Field>, fieldList: Option<seq<string>>, g: Field)
    requires UniqueNames(fields)
    requires g in fields && IsGeometry(g)
    ensures g.name !in Selected(fields, fieldList)
  {
    SelectedMembership(fields, fieldList, g.name);
    forall f | f in fields && f.name == g.name
      ensures IsGeometry(f)
    {
      UniqueField(fields, f, g);
    }
  }

  /** In a table with unique names, no name is selected twice, however often it was requested. */
  lemma {:induction false} SelectedDistinct(fields: seq<Field>, fieldList: Option<seq<string>>)
    requires UniqueNames(fields)
    ensures forall i, j :: 0 <= i < j < |Selected(fields, fieldList)| ==>
      Selected(fields, fieldList)[i] != Selected(fields, fieldList)[j]
  {
    if fields != [] {
      var n := |fields| - 1;
      var f := fields[n];
      var prefix := fields[..n];
      assert UniqueNames(prefix);
      SelectedDistinct(prefix, fieldList);
      SelectedMembership(prefix, fieldList, f.name);
      forall g | g in prefix
        ensures g.name != f.name
      {
        var i :| 0 <= i < n && prefix[i] == g;
        assert fields[i] == g;
      }
    }
  }

  /**
   * Only the set of requested names matters: the order of the field list and repeated names in it
   * change neither the selection nor the notices.
   */
  lemma {:induction false} RequestOrderIrrelevant(fields: seq<Field>, r1: seq<string>, r2: seq<string>)
    requires forall x :: x in r1 <==> x in r2
    ensures Selected(fields, Some(r1)) == Selected(fields, Some(r2))
    ensures Notices(fields, Some(r1)) == Notices(fields, Some(r2))
  {
    if fields != [] {
      RequestOrderIrrelevant(fields[..|fields| - 1], r1, r2);
    }
  }

  /** A field list naming every field of the table selects and reports what no field list does. */
  lemma {:induction false} CoveringRequestIsDefault(fields: seq<Field>, requested: seq<string>)
    requires forall i :: 0 <= i < |fields| ==> fields[i].name in requested
    ensures Selected(fields, Some(requested)) == Selected(fields, None)
    ensures Notices(fields, Some(requested)) == Notices(fields, None)
  {
    if fields != [] {
      CoveringRequestIsDefault(fields[..|fields| - 1], requested);
    }
  }

  /** Requesting all of the table's names by name is the same as requesting none. */
  lemma RequestAllNames(fields: seq<Field>)
    ensures Selected(fields, Some(AllNames(fields))) == Selected(fields, None)
    ensures Notices(fields, Some(AllNames(fields))) == Notices(fields, None)
    ensures Convert(fields, Some(AllNames(fields))) == Convert(fields, None)
  {
    CoveringRequestIsDefault(fields, AllNames(fields));
  }

  /** Without a field list every field is either selected or reported, never both, never neither. */
  lemma {:induction false} DefaultPartition(fields: seq<Field>)
    ensures |Selected(fields, None)| + |Notices(fields, None)| == |fields|
  {
    if fields != [] {
      DefaultPartition(fields[..|fields| - 1]);
    }
  }

  /** A field list that names only fields of the table passes validation. */
  lemma PresentNamesAccepted(fields: seq<Field>, requested: seq<string>)
    requires forall j :: 0 <= j < |requested| ==> requested[j] in AllNames(fields)
    ensures Convert(fields, Some(requested)).Success?
    ensures Convert(fields, Some(requested)).value.fieldNames == Selected(fields, Some(requested))
  {
  }
}
