/**
 * Field resolution: the form's field list folded into a map from logical
 * field name to remote field ids (`load_fields`), and the lookup of a
 * submission's value for one id (`search_details`) or for the list of ids
 * standing for one logical name (`search_details_list`).
 */
module Fields {
  import opened Wrappers

  /** One entry of the form's field list: its logical name and its remote id. */
  datatype Field = Field(name: string, id: string)

  /** A field value as the forms service's JSON gives it. */
  datatype Json = JNull | JBool(b: bool) | JStr(s: string)

  /** One (field id, value) pair of a submission. */
  datatype Item = Item(field: string, value: Json)

  /** A submission's details: its (field id, value) pairs in order, and its timestamp text. */
  datatype Details = Details(data: seq<Item>, timestamp: string)

  /** The logical names every form must define (REQUIRED_FIELDS). */
  const RequiredFields: seq<string> := [
    "esp_username", "esp_id_number", "full_legal_name",
    "birthdate", "cell_phone_number", "home_address",
    "parentguardian_no_1", "parentguardian_no_2",
    "emergency_contact",
    "chronic_medical_conditions_requiring_ongoing_care",
    "allergies_animals_latex_food_meds_other",
    "prescription_medicines_used_regularly_or_needed_on_occasion",
    "any_other_health_issues_that_mit_andor_esp_should_be_aware_of",
    "date_of_last_tetanus_booster", "physician_name",
    "physician_phone", "name_of_health_insurance_company",
    "primary_subscriber", "policy_number"]

  /** The ids of the fields named `name`, in field-list order. */
  function IdsNamed(fields: seq<Field>, name: string): seq<string>
  {
    if fields == [] then []
    else (if fields[0].name == name then [fields[0].id] else []) + IdsNamed(fields[1..], name)
  }

  /** The ids of the fields named `name` among the first `k` fields. */
  lemma {:induction false} IdsNamedSnoc(fields: seq<Field>, k: nat, name: string)
    requires k < |fields|
    ensures IdsNamed(fields[..k + 1], name)
         == IdsNamed(fields[..k], name) + (if fields[k].name == name then [fields[k].id] else [])
    decreases k
  {
    if k > 0 {
      assert fields[..k + 1][1..] == fields[1..][..k];
      assert fields[..k][1..] == fields[1..][..k - 1];
      IdsNamedSnoc(fields[1..], k - 1, name);
    } else {
      assert fields[..1][1..] == [];
    }
  }

  /**
   * The map `load_fields` builds from the first fields of the list: each
   * non-empty name to the ids carrying it, appended in list order.
   */
  function ShortNames(fields: seq<Field>): map<string, seq<string>>
  {
    if fields == [] then map[]
    else
      var m := ShortNames(fields[..|fields| - 1]);
      var f := fields[|fields| - 1];
      if f.name == "" then m
      else m[f.name := (if f.name in m then m[f.name] else []) + [f.id]]
  }

  /** The built map's keys are exactly the non-empty names of the list. */
  lemma {:induction false} ShortNamesKeys(fields: seq<Field>)
    ensures forall name :: name in ShortNames(fields) <==>
              name != "" && exists i :: 0 <= i < |fields| && fields[i].name == name
    decreases |fields|
  {
    if fields != [] {
      var k := |fields| - 1;
      var front := fields[..k];
      ShortNamesKeys(front);
      forall name | name != "" && exists i :: 0 <= i < |fields| && fields[i].name == name
        ensures name in ShortNames(fields)
      {
        var i :| 0 <= i < |fields| && fields[i].name == name;
        if i < k { assert front[i].name == name; }
      }
      forall name | name in ShortNames(fields)
        ensures exists i :: 0 <= i < |fields| && fields[i].name == name
      {
        if name in ShortNames(front) {
          var i :| 0 <= i < |front| && front[i].name == name;
          assert fields[i].name == name;
        } else {
          assert fields[k].name == name;
        }
      }
    }
  }

  /** Under each name the built map holds the ids of all fields with that name, in list order. */
  lemma {:induction false} ShortNamesValues(fields: seq<Field>)
    ensures forall name :: name in ShortNames(fields) ==> ShortNames(fields)[name] == IdsNamed(fields, name)
    decreases |fields|
  {
    if fields != [] {
      var k := |fields| - 1;
      var front := fields[..k];
      ShortNamesValues(front);
      ShortNamesKeys(front);
      assert fields[..k + 1] == fields;
      forall name | name in ShortNames(fields)
        ensures ShortNames(fields)[name] == IdsNamed(fields, name)
      {
        IdsNamedSnoc(fields, k, name);
        if name == fields[k].name && name !in ShortNames(front) {
          IdsNamedAbsent(front, name);
        }
      }
    }
  }

  lemma {:induction false} IdsNamedAbsent(fields: seq<Field>, name: string)
    requires forall i :: 0 <= i < |fields| ==> fields[i].name != name
    ensures IdsNamed(fields, name) == []
  {
    if fields != [] {
      assert fields[0].name != name;
      IdsNamedAbsent(fields[1..], name);
    }
  }

  /**
   * The first required name, in the order of `required`, that is not a key
   * of the built map; none when every required name is present.
   */
  function FirstMissing(required: seq<string>, present: set<string>): (r: Option<string>)
    ensures r.None? <==> forall i :: 0 <= i < |required| ==> required[i] in present
    ensures r.Some? ==> exists i :: 0 <= i < |required| && required[i] == r.value
                                 && r.value !in present
                                 && forall j :: 0 <= j < i ==> required[j] in present
  {
    if required == [] then None
    else if required[0] !in present then Some(required[0])
    else
      var r := FirstMissing(required[1..], present);
      if r.Some? then
        ghost var i :| 0 <= i < |required[1..]| && required[1..][i] == r.value
                     && r.value !in present
                     && forall j :: 0 <= j < i ==> required[1..][j] in present;
        assert required[i + 1] == r.value;
        r
      else r
  }

  /** A value as `search_details` hands it on: None, True and False become "". */
  function Normalize(v: Json): string
  {
    match v
    case JStr(s) => s
    case _ => ""
  }

  /**
   * `search_details`: the normalised value of the first item whose field is
   * `id`; none (KeyError) when no item has that field.
   */
  function SearchDetails(data: seq<Item>, id: string): (r: Option<string>)
    ensures r.None? <==> forall i :: 0 <= i < |data| ==> data[i].field != id
    ensures r.Some? ==> exists i :: 0 <= i < |data| && data[i].field == id
                                 && r.value == Normalize(data[i].value)
                                 && forall j :: 0 <= j < i ==> data[j].field != id
  {
    if data == [] then None
    else if data[0].field == id then Some(Normalize(data[0].value))
    else
      var r := SearchDetails(data[1..], id);
      if r.Some? then
        ghost var i :| 0 <= i < |data[1..]| && data[1..][i].field == id
                     && r.value == Normalize(data[1..][i].value)
                     && forall j :: 0 <= j < i ==> data[1..][j].field != id;
        assert data[i + 1] == data[1..][i];
        r
      else r
  }

  predicate FoundNonEmpty(data: seq<Item>, id: string)
  {
    SearchDetails(data, id).Some? && SearchDetails(data, id).value != ""
  }

  /**
   * What `search_details_list` computes for one logical name: the first
   * non-empty value over its ids in order; failing that, the value of a
   * found id (always ""); none (KeyError) when no id is found at all.
   */
  function Resolve(data: seq<Item>, ids: seq<string>): Option<string>
  {
    if ids == [] then None
    else
      var v := SearchDetails(data, ids[0]);
      if v.Some? && v.value != "" then v
      else
        var rest := Resolve(data, ids[1..]);
        if rest.None? then v else rest
  }

  /** Resolution fails exactly when none of the ids is found. */
  lemma {:induction false} ResolveFailsIffNoneFound(data: seq<Item>, ids: seq<string>)
    ensures Resolve(data, ids).None? <==> forall i :: 0 <= i < |ids| ==> SearchDetails(data, ids[i]).None?
  {
    if ids != [] {
      ResolveFailsIffNoneFound(data, ids[1..]);
      assert forall i :: 1 <= i < |ids| ==> ids[i] == ids[1..][i - 1];
    }
  }

  /** First non-empty wins: a non-empty result is the value of an id before which no id had a non-empty value. */
  lemma {:induction false} ResolveFirstNonEmpty(data: seq<Item>, ids: seq<string>)
    requires Resolve(data, ids).Some? && Resolve(data, ids).value != ""
    ensures exists i :: 0 <= i < |ids| && SearchDetails(data, ids[i]) == Resolve(data, ids)
                     && forall j :: 0 <= j < i ==> !FoundNonEmpty(data, ids[j])
  {
    var v := SearchDetails(data, ids[0]);
    if v.Some? && v.value != "" {
      assert SearchDetails(data, ids[0]) == Resolve(data, ids);
    } else {
      var tail := ids[1..];
      assert Resolve(data, ids) == Resolve(data, tail);
      ResolveFirstNonEmpty(data, tail);
      var i :| 0 <= i < |tail| && SearchDetails(data, tail[i]) == Resolve(data, tail)
               && forall j :: 0 <= j < i ==> !FoundNonEmpty(data, tail[j]);
      assert ids[i + 1] == tail[i];
      forall j | 0 <= j < i + 1 ensures !FoundNonEmpty(data, ids[j]) {
        if j > 0 {
          assert ids[j] == tail[j - 1];
        }
      }
    }
  }

  /** An empty result means that no id had a non-empty value (some id was found, with an empty value). */
  lemma {:induction false} ResolveEmptyOnlyIfAllEmpty(data: seq<Item>, ids: seq<string>)
    requires Resolve(data, ids) == Some("")
    ensures forall i :: 0 <= i < |ids| ==> !FoundNonEmpty(data, ids[i])
    ensures exists i :: 0 <= i < |ids| && SearchDetails(data, ids[i]) == Some("")
  {
    var v := SearchDetails(data, ids[0]);
    var tail := ids[1..];
    assert forall i :: 1 <= i < |ids| ==> ids[i] == tail[i - 1];
    if Resolve(data, tail).None? {
      ResolveFailsIffNoneFound(data, tail);
    } else {
      ResolveEmptyOnlyIfAllEmpty(data, tail);
      var i :| 0 <= i < |tail| && SearchDetails(data, tail[i]) == Some("");
      assert SearchDetails(data, ids[i + 1]) == Some("");
    }
  }

  /** `search_details_list`, with its loop: ids are tried in order and the first non-empty value returned. */
  method SearchDetailsList(data: seq<Item>, ids: seq<string>) returns (r: Option<string>)
    ensures r == Resolve(data, ids)
  {
    var value: Option<string> := None;
    var i := 0;
    while i < |ids|
      invariant 0 <= i <= |ids|
      invariant value == None || value == Some("")
      invariant Resolve(data, ids) == if Resolve(data, ids[i..]).None? then value else Resolve(data, ids[i..])
    {
      assert ids[i..][1..] == ids[i + 1..];
      var found := SearchDetails(data, ids[i]);
      if found.Some? {
        value := found;
        if |found.value| > 0 {
          return found;
        }
      }
      i := i + 1;
    }
    return value;
  }
}
