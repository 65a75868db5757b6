/**
 * Reshaping the corrected projections for the data API: a list of station records becomes a
 * dictionary keyed by each record's `SNAP ID`, whose value is the record's corrected-futures
 * field. Records are JSON objects over an arbitrary value type `V`.
 */
module ReformatJson {
  import opened Wrappers
  import BiasCorrection

  const SnapId: string := "SNAP ID"

  /** A JSON object: field name to value. */
  type Record<V> = map<string, V>

  /** A `KeyError` raised by indexing a record with a field it lacks. */
  datatype KeyError = KeyError(key: string)

  /** The record can be read: it has the id field and the value field. */
  predicate Complete<V>(item: Record<V>, id: string, field: string)
  {
    id in item && field in item
  }

  /** The error the comprehension raises on an incomplete record: the id is read before the field. */
  function MissingKey<V>(item: Record<V>, id: string, field: string): (e: KeyError)
    requires !Complete(item, id, field)
    ensures e.key !in item
    ensures e.key == id || (e.key == field && id in item)
  {
    if id !in item then KeyError(id) else KeyError(field)
  }

  /** The ids the records carry. */
  ghost function Ids<V>(data: seq<Record<V>>, id: string): set<V>
  {
    set i | 0 <= i < |data| && id in data[i] :: data[i][id]
  }

  /** Appending a record with an id adds exactly that id. */
  lemma IdsSnoc<V>(data: seq<Record<V>>, id: string)
    requires data != [] && id in data[|data| - 1]
    ensures Ids(data, id) == Ids(data[..|data| - 1], id) + {data[|data| - 1][id]}
  {
    var front := data[..|data| - 1];
    assert forall j :: 0 <= j < |front| ==> front[j] == data[j];
    forall x | x in Ids(data, id) ensures x in Ids(front, id) + {data[|data| - 1][id]} {
      var i :| 0 <= i < |data| && id in data[i] && data[i][id] == x;
      if i < |front| {
        assert front[i][id] == x;
      }
    }
    forall x | x in Ids(front, id) ensures x in Ids(data, id) {
      var i :| 0 <= i < |front| && id in front[i] && front[i][id] == x;
      assert data[i][id] == x;
    }
  }

  /**
   * The dictionary comprehension, keyed by the `id` field: records are visited in list order, a
   * later record with the same id overwrites an earlier one, and the first incomplete record raises.
   */
  function KeyBy<V(==)>(data: seq<Record<V>>, id: string, field: string): (r: Result<map<V, V>, KeyError>)
    ensures r.Failure? <==> exists i :: 0 <= i < |data| && !Complete(data[i], id, field)
    ensures r.Failure? ==> exists i ::
      && 0 <= i < |data|
      && !Complete(data[i], id, field)
      && (forall j :: 0 <= j < i ==> Complete(data[j], id, field))
      && r.error == MissingKey(data[i], id, field)
    ensures r.Success? ==> r.value.Keys == Ids(data, id)
  {
    if data == [] then Success(map[])
    else
      var front := data[..|data| - 1];
      var item := data[|data| - 1];
      var rest := KeyBy(front, id, field);
      if rest.Failure? then
        assert forall j :: 0 <= j < |front| ==> front[j] == data[j];
        rest
      else if !Complete(item, id, field) then
        assert forall j :: 0 <= j < |front| ==> Complete(data[j], id, field);
        Failure(MissingKey(item, id, field))
      else
        IdsSnoc(data, id);
        Success(rest.value[item[id] := item[field]])
  }

  /** `convert_to_nested_json` for one metric: records keyed by `SNAP ID`, valued by the corrected futures. */
  function ConvertToNested<V(==)>(data: seq<Record<V>>, metric: BiasCorrection.Metric): (r: Result<map<V, V>, KeyError>)
    ensures r.Success? <==> forall i :: 0 <= i < |data| ==> Complete(data[i], SnapId, BiasCorrection.CorrectedColumn(metric))
  {
    KeyBy(data, SnapId, BiasCorrection.CorrectedColumn(metric))
  }

  /** The value stored under an id is the field of the LAST record carrying that id. */
  lemma {:induction false} LastRecordWins<V>(data: seq<Record<V>>, id: string, field: string, i: int)
    requires forall j :: 0 <= j < |data| ==> id in data[j] && field in data[j]
    requires 0 <= i < |data|
    requires forall j :: i < j < |data| ==> data[j][id] != data[i][id]
    ensures KeyBy(data, id, field).Success?
    ensures data[i][id] in KeyBy(data, id, field).value
    ensures KeyBy(data, id, field).value[data[i][id]] == data[i][field]
  {
    var front := data[..|data| - 1];
    if i < |data| - 1 {
      assert forall j :: 0 <= j < |front| ==> front[j] == data[j];
      LastRecordWins(front, id, field, i);
    }
  }

  /** Every record adds at most one entry, so the dictionary is never longer than the list. */
  lemma {:induction false} AtMostOneEntryPerRecord<V>(data: seq<Record<V>>, id: string, field: string)
    requires KeyBy(data, id, field).Success?
    ensures |KeyBy(data, id, field).value| <= |data|
  {
    if data != [] {
      var front := data[..|data| - 1];
      AtMostOneEntryPerRecord(front, id, field);
    }
  }

  /** With pairwise distinct ids every record survives: the dictionary has one entry per record. */
  lemma {:induction false} DistinctIdsKeepEveryRecord<V>(data: seq<Record<V>>, id: string, field: string)
    requires forall j :: 0 <= j < |data| ==> id in data[j] && field in data[j]
    requires forall j, k :: 0 <= j < k < |data| ==> data[j][id] != data[k][id]
    ensures KeyBy(data, id, field).Success?
    ensures |KeyBy(data, id, field).value| == |data|
  {
    if data != [] {
      var front := data[..|data| - 1];
      var item := data[|data| - 1];
      assert forall j :: 0 <= j < |front| ==> front[j] == data[j];
      DistinctIdsKeepEveryRecord(front, id, field);
      var rest := KeyBy(front, id, field);
      assert item[id] !in rest.value;
    }
  }
}
