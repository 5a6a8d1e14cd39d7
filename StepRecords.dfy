/** The records a later step reads from the previous step's `updated` list, as both the edX and
    the forum step read them, and the shape of a foreign call's outcome. */
module StepRecords {
  import opened Py

  /** What a foreign call did: returned a value or raised an exception with this `str(exc)`. */
  datatype Call<T> = Returned(value: T) | Threw(message: string)

  /** `for username_update_dict in username_update_list`: a list gives its elements. An empty dict
      or string gives nothing; for any other dict or string the first element is a string, whose
      subscript by a key raises; other values are not iterable. */
  function Records(updateList: Json): (r: Result<seq<Json>>)
    ensures updateList.JArray? ==> r == Ok(updateList.items)
    ensures r.Ok? ==> (updateList.JArray? || updateList == JObject(map[]) || updateList == JString(""))
  {
    match updateList
    case JArray(xs) => Ok(xs)
    case JObject(m) => if m == map[] then Ok([]) else Err(TypeError("string indices must be integers"))
    case JString(s) => if s == "" then Ok([]) else Err(TypeError("string indices must be integers"))
    case JNull => Err(TypeError("'NoneType' object is not iterable"))
    case _ => Err(TypeError("object is not iterable"))
  }

  /** The two names of a record. */
  datatype Rename = Rename(oldUsername: Json, newUsername: Json)

  /** The two names read from a record, raising as `record[...]` does. */
  function Names(record: Json): (r: Result<Rename>)
    ensures r.Ok? <==> record.JObject? && "old_username" in record.fields && "new_username" in record.fields
    ensures r.Ok? ==> r.value == Rename(record.fields["old_username"], record.fields["new_username"])
  {
    var oldName :- Subscript(record, "old_username");
    var newName :- Subscript(record, "new_username");
    Ok(Rename(oldName, newName))
  }

  /** The position of the first record whose names cannot be read, or the number of records. */
  function FirstUnreadable(records: seq<Json>): (k: nat)
    ensures k <= |records|
    ensures forall j :: 0 <= j < k ==> Names(records[j]).Ok?
    ensures k < |records| ==> Names(records[k]).Err?
    decreases |records|
  {
    if records == [] then 0
    else if Names(records[0]).Err? then 0
    else 1 + FirstUnreadable(records[1..])
  }

  lemma {:induction false} FirstUnreadableIs(records: seq<Json>, k: nat)
    requires k <= |records|
    requires forall j :: 0 <= j < k ==> Names(records[j]).Ok?
    requires k < |records| ==> Names(records[k]).Err?
    ensures FirstUnreadable(records) == k
    decreases k
  {
    if k > 0 {
      assert Names(records[0]).Ok?;
      FirstUnreadableIs(records[1..], k - 1);
    }
  }
}
