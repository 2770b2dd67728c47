/**
 `flattenKeys`: a parsed locale file becomes one flat dictionary from dotted
 key paths to leaf values. Objects and arrays are descended into (arrays
 under the index names "0", "1", ...); every other value, `null` included, is
 a leaf stored under its ancestry joined with ".". The accumulator is one
 object written in place, so a later leaf whose path joins to the same key
 overwrites an earlier one where it stands.
 */
module Flatten {
  import opened Optional
  import opened Text
  import opened JsonValue
  import opened Dict

  /** `flattenKeys(entry, keys, acc)`: `acc` after the leaves of `entry`, under ancestry `keys`, have been written into it. */
  function FlattenInto(entry: Json, keys: seq<string>, acc: Dict<Json>): Dict<Json>
    decreases entry, 1
  {
    match entry
    case JObj(fields) => FlattenFields(fields, keys, acc)
    case JArr(items) => FlattenItems(items, 0, keys, acc)
    case _ => Put(acc, Join(keys, "."), entry)
  }

  /** `_.forOwn` over an object's members, in order. */
  function FlattenFields(fields: seq<(string, Json)>, keys: seq<string>, acc: Dict<Json>): Dict<Json>
    decreases fields, 0
  {
    if |fields| == 0 then acc
    else
      assert fields[0].1 < fields[0];
      FlattenFields(fields[1..], keys, FlattenInto(fields[0].1, keys + [fields[0].0], acc))
  }

  /** `_.forOwn` over an array's elements from position `start`, each under its index as a decimal string. */
  function FlattenItems(items: seq<Json>, start: nat, keys: seq<string>, acc: Dict<Json>): Dict<Json>
    decreases items, 0
  {
    if |items| == 0 then acc
    else FlattenItems(items[1..], start + 1, keys, FlattenInto(items[0], keys + [DecimalString(start)], acc))
  }

  /** `flattenKeys(json)` with the default arguments `keys = []` and `acc = {}`. */
  function FlattenKeys(entry: Json): Dict<Json> {
    FlattenInto(entry, [], [])
  }

  /**
   The reference definition: every leaf of `entry` with its full ancestry,
   in document order. Objects and arrays are never leaves, and an empty
   object or array has none.
   */
  function Leaves(entry: Json, keys: seq<string>): (ls: seq<(seq<string>, Json)>)
    ensures forall i :: 0 <= i < |ls| ==> !ls[i].1.IsObject()
    decreases entry, 1
  {
    match entry
    case JObj(fields) => FieldLeaves(fields, keys)
    case JArr(items) => ItemLeaves(items, 0, keys)
    case _ => [(keys, entry)]
  }

  function FieldLeaves(fields: seq<(string, Json)>, keys: seq<string>): (ls: seq<(seq<string>, Json)>)
    ensures forall i :: 0 <= i < |ls| ==> !ls[i].1.IsObject()
    decreases fields, 0
  {
    if |fields| == 0 then []
    else
      assert fields[0].1 < fields[0];
      Leaves(fields[0].1, keys + [fields[0].0]) + FieldLeaves(fields[1..], keys)
  }

  function ItemLeaves(items: seq<Json>, start: nat, keys: seq<string>): (ls: seq<(seq<string>, Json)>)
    ensures forall i :: 0 <= i < |ls| ==> !ls[i].1.IsObject()
    decreases items, 0
  {
    if |items| == 0 then []
    else Leaves(items[0], keys + [DecimalString(start)]) + ItemLeaves(items[1..], start + 1, keys)
  }

  /** Each leaf paired with its path joined by ".", the key `flattenKeys` stores it under. */
  function Dotted(ls: seq<(seq<string>, Json)>): (ps: seq<(string, Json)>)
    ensures |ps| == |ls|
    ensures forall i :: 0 <= i < |ls| ==> ps[i] == (Join(ls[i].0, "."), ls[i].1)
    decreases |ls|
  {
    if |ls| == 0 then [] else [(Join(ls[0].0, "."), ls[0].1)] + Dotted(ls[1..])
  }

  lemma DottedAppend(a: seq<(seq<string>, Json)>, b: seq<(seq<string>, Json)>)
    ensures Dotted(a + b) == Dotted(a) + Dotted(b)
  {
  }

  /** The recursive descent writes exactly the leaves, in document order, into the accumulator. */
  lemma {:induction false} FlattenIntoLeaves(entry: Json, keys: seq<string>, acc: Dict<Json>)
    ensures FlattenInto(entry, keys, acc) == PutAll(acc, Dotted(Leaves(entry, keys)))
    decreases entry, 1
  {
    match entry
    case JObj(fields) => FlattenFieldsLeaves(fields, keys, acc);
    case JArr(items) => FlattenItemsLeaves(items, 0, keys, acc);
    case _ =>
      assert Dotted(Leaves(entry, keys)) == [(Join(keys, "."), entry)];
  }

  lemma {:induction false} FlattenFieldsLeaves(fields: seq<(string, Json)>, keys: seq<string>, acc: Dict<Json>)
    ensures FlattenFields(fields, keys, acc) == PutAll(acc, Dotted(FieldLeaves(fields, keys)))
    decreases fields, 0
  {
    if |fields| > 0 {
      assert fields[0].1 < fields[0];
      var first := Leaves(fields[0].1, keys + [fields[0].0]);
      var rest := FieldLeaves(fields[1..], keys);
      FlattenIntoLeaves(fields[0].1, keys + [fields[0].0], acc);
      var mid := FlattenInto(fields[0].1, keys + [fields[0].0], acc);
      FlattenFieldsLeaves(fields[1..], keys, mid);
      DottedAppend(first, rest);
      PutAllAppend(acc, Dotted(first), Dotted(rest));
    }
  }

  lemma {:induction false} FlattenItemsLeaves(items: seq<Json>, start: nat, keys: seq<string>, acc: Dict<Json>)
    ensures FlattenItems(items, start, keys, acc) == PutAll(acc, Dotted(ItemLeaves(items, start, keys)))
    decreases items, 0
  {
    if |items| > 0 {
      var first := Leaves(items[0], keys + [DecimalString(start)]);
      var rest := ItemLeaves(items[1..], start + 1, keys);
      FlattenIntoLeaves(items[0], keys + [DecimalString(start)], acc);
      var mid := FlattenInto(items[0], keys + [DecimalString(start)], acc);
      FlattenItemsLeaves(items[1..], start + 1, keys, mid);
      DottedAppend(first, rest);
      PutAllAppend(acc, Dotted(first), Dotted(rest));
    }
  }

  /**
   A key is present in the flattened file exactly when some leaf's path joins
   to it, and it holds the value of the last such leaf.
   */
  lemma FlattenKeysGet(entry: Json, k: string)
    ensures k in Keys(FlattenKeys(entry)) <==> k in Keys(Dotted(Leaves(entry, [])))
    ensures Get(FlattenKeys(entry), k) == LastWith(Dotted(Leaves(entry, [])), k)
  {
    FlattenIntoLeaves(entry, [], []);
    PutAllGet([], Dotted(Leaves(entry, [])), k);
  }

  /**
   When no two leaf paths join to the same key, the flattened file is exactly
   the leaves in document order: each under its joined path with its value,
   and nothing else.
   */
  lemma FlattenKeysExact(entry: Json)
    requires DistinctKeys(Dotted(Leaves(entry, [])))
    ensures FlattenKeys(entry) == Dotted(Leaves(entry, []))
  {
    var ls := Dotted(Leaves(entry, []));
    FlattenIntoLeaves(entry, [], []);
    assert [] + ls == ls;
    PutAllFresh([], ls);
  }

  /** Flattening never stores an object or an array. */
  lemma FlattenKeysScalars(entry: Json)
    ensures forall i :: 0 <= i < |FlattenKeys(entry)| ==> !FlattenKeys(entry)[i].1.IsObject()
  {
    var leaves := Leaves(entry, []);
    var ls := Dotted(leaves);
    var r := FlattenKeys(entry);
    FlattenIntoLeaves(entry, [], []);
    PutAllDistinct([], ls);
    forall i | 0 <= i < |r| ensures !r[i].1.IsObject() {
      var k := r[i].0;
      assert Keys(r)[i] == k;
      assert Get(r, k) == Some(r[i].1);
      PutAllGet([], ls, k);
      var j :| LastAt(ls, k, j) && ls[j].1 == r[i].1;
      assert ls[j].1 == leaves[j].1;
    }
  }
}
