/** Plain JavaScript records as the Redux store holds them: a map from field name to a
    primitive value, with a missing field reading as `undefined`. The store's list
    operations (push, and merging a payload into the first record with the payload's id)
    are defined here once and shared by both slices. */
module Records {

  /** A primitive JavaScript value. Numbers are integers in this model. */
  datatype Value = Undefined | Null | Bool(b: bool) | Num(n: int) | Str(s: string)

  type Record = map<string, Value>

  const IdField: string := "id"

  /** Property access `r[key]`: a missing field reads as `undefined`. */
  function Get(r: Record, key: string): Value {
    if key in r then r[key] else Undefined
  }

  /** `{ ...a, ...b }`: every field of both, the fields of `b` winning. */
  function Spread(a: Record, b: Record): (r: Record)
    ensures r.Keys == a.Keys + b.Keys
    ensures forall k :: Get(r, k) == if k in b then b[k] else Get(a, k)
  {
    a + b
  }

  /** Spreading the same record twice is the same as spreading it once. */
  lemma SpreadIdempotent(a: Record, b: Record)
    ensures Spread(Spread(a, b), b) == Spread(a, b)
  {
    var once := Spread(a, b);
    var twice := Spread(once, b);
    assert twice.Keys == once.Keys;
    assert forall k :: k in once ==> twice[k] == once[k];
  }

  /** `list.push(x)`: one more element at the end, the rest untouched. */
  function Push<T>(list: seq<T>, x: T): (r: seq<T>)
    ensures |r| == |list| + 1
    ensures r[..|list|] == list && r[|list|] == x
  {
    list + [x]
  }

  /** `list.findIndex(t => t.id === id)`: the first index whose record carries `id`,
      or -1. */
  function FindIndex(list: seq<Record>, id: Value): (i: int)
    ensures -1 <= i < |list|
    ensures i == -1 <==> forall j :: 0 <= j < |list| ==> Get(list[j], IdField) != id
    ensures 0 <= i ==> Get(list[i], IdField) == id && forall j :: 0 <= j < i ==> Get(list[j], IdField) != id
  {
    if list == [] then -1
    else if Get(list[0], IdField) == id then 0
    else
      var i := FindIndex(list[1..], id);
      assert forall j :: 1 <= j < |list| ==> list[j] == list[1..][j - 1];
      if i == -1 then -1 else i + 1
  }

  /** `list[k]` is the first record of `list` whose id is `id`. */
  predicate IsFirstWithId(list: seq<Record>, k: int, id: Value) {
    && 0 <= k < |list|
    && Get(list[k], IdField) == id
    && forall j :: 0 <= j < k ==> Get(list[j], IdField) != id
  }

  /** The update reducers: find the first record whose id equals the payload's id and
      replace it by `{ ...record, ...payload }`; with no such record, change nothing. */
  function MergeById(list: seq<Record>, payload: Record): (r: seq<Record>)
    ensures |r| == |list|
    ensures (forall j :: 0 <= j < |list| ==> Get(list[j], IdField) != Get(payload, IdField)) ==> r == list
    ensures forall k :: IsFirstWithId(list, k, Get(payload, IdField)) ==>
      && r[k] == Spread(list[k], payload)
      && forall j :: 0 <= j < |list| && j != k ==> r[j] == list[j]
    // The merged record keeps its id (it equals the payload's), so the ids of the list,
    // in order, are preserved.
    ensures forall j :: 0 <= j < |list| ==> Get(r[j], IdField) == Get(list[j], IdField)
  {
    var index := FindIndex(list, Get(payload, IdField));
    if index != -1 then list[index := Spread(list[index], payload)] else list
  }

  /** Applying the same update twice gives the same list as applying it once. */
  lemma MergeByIdIdempotent(list: seq<Record>, payload: Record)
    ensures MergeById(MergeById(list, payload), payload) == MergeById(list, payload)
  {
    var id := Get(payload, IdField);
    var once := MergeById(list, payload);
    var k := FindIndex(list, id);
    if k != -1 {
      assert IsFirstWithId(list, k, id);
      assert IsFirstWithId(once, k, id);
      SpreadIdempotent(list[k], payload);
    }
  }
}
