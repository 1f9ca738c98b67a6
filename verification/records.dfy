/**
 The structured records the serializer writes and the deserializer reads,
 in place of the binary codec: scalars, lists, and maps made of keyed
 fields in the order they were appended.
 */
module Records {
  import opened Results

  datatype Value =
    | Null
    | Int(i: int)
    | Str(s: string)
    | Arr(items: seq<Value>)
    | Rec(fields: seq<Field>)

  datatype Field = Field(key: string, val: Value)

  /** Sizes, used as the termination measure of the decoders. */
  function SizeV(v: Value): nat {
    match v
    case Arr(vs) => 1 + SizeVs(vs)
    case Rec(fs) => 1 + SizeFs(fs)
    case _ => 1
  }

  function SizeVs(vs: seq<Value>): nat {
    if vs == [] then 0 else SizeV(vs[0]) + SizeVs(vs[1..])
  }

  function SizeFs(fs: seq<Field>): nat {
    if fs == [] then 0 else SizeV(fs[0].val) + SizeFs(fs[1..])
  }

  lemma {:induction false} FieldSmaller(fs: seq<Field>, i: nat)
    requires i < |fs|
    ensures SizeV(fs[i].val) <= SizeFs(fs)
  {
    if i > 0 {
      FieldSmaller(fs[1..], i - 1);
      assert fs[1..][i - 1] == fs[i];
    }
  }

  /** The position of the first field with the given key. */
  function Find(fs: seq<Field>, key: string): (r: Option<nat>)
    ensures r.Some? ==> r.value < |fs| && fs[r.value].key == key
    ensures r.Some? ==> forall j :: 0 <= j < r.value ==> fs[j].key != key
    ensures r.None? ==> forall j :: 0 <= j < |fs| ==> fs[j].key != key
  {
    if fs == [] then None
    else if fs[0].key == key then Some(0)
    else
      var r := Find(fs[1..], key);
      if r.Some? then Some(r.value + 1) else None
  }

  /** `MapReader::at(key)`: the field's value, or a reader failure if absent. */
  function At(fs: seq<Field>, key: string): (r: Result<Value>)
    ensures r.Ok? <==> exists j :: 0 <= j < |fs| && fs[j].key == key
    ensures r.Err? ==> r.error == CodecError
    ensures r.Ok? ==> SizeV(r.value) <= SizeFs(fs)
  {
    var i := Find(fs, key);
    if i.Some? then
      FieldSmaller(fs, i.value);
      Ok(fs[i.value].val)
    else Err(CodecError)
  }

  /** `as_string()`, `as_int()`, `as_array()` and `as_map()` on a looked-up value. */
  function AsStr(v: Value): (r: Result<string>)
    ensures r.Ok? <==> v.Str?
    ensures r.Ok? ==> v == Str(r.value)
  {
    if v.Str? then Ok(v.s) else Err(CodecError)
  }

  function AsInt(v: Value): (r: Result<int>)
    ensures r.Ok? <==> v.Int?
    ensures r.Ok? ==> v == Int(r.value)
  {
    if v.Int? then Ok(v.i) else Err(CodecError)
  }

  function AsArr(v: Value): (r: Result<seq<Value>>)
    ensures r.Ok? <==> v.Arr?
    ensures r.Ok? ==> v == Arr(r.value) && SizeVs(r.value) < SizeV(v)
  {
    if v.Arr? then Ok(v.items) else Err(CodecError)
  }

  function AsRec(v: Value): (r: Result<seq<Field>>)
    ensures r.Ok? <==> v.Rec?
    ensures r.Ok? ==> v == Rec(r.value) && SizeFs(r.value) < SizeV(v)
  {
    if v.Rec? then Ok(v.fields) else Err(CodecError)
  }

  /** A record whose keys are pairwise distinct, as every record the writer produces. */
  predicate DistinctKeys(fs: seq<Field>) {
    forall i, j :: 0 <= i < j < |fs| ==> fs[i].key != fs[j].key
  }

  /** In a record with distinct keys, looking up a field's key yields that field's value. */
  lemma AtDistinct(fs: seq<Field>, i: nat)
    requires i < |fs| && DistinctKeys(fs)
    ensures At(fs, fs[i].key) == Ok(fs[i].val)
  {
    var k := Find(fs, fs[i].key);
    assert k.Some?;
  }
}
