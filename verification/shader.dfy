/** The host side of `Shader` and `RgbShader`: where each material property
    of each object sits in the material buffers, what is written there, the
    Russian-roulette bounce loop of `render_sample`, and the launches of
    `compute_next_path_segment`. */
module Shading {
  import opened Wrappers
  import opened Strings
  import TracerData
  import ImageOrder
  import Renderer
  import ObjectGroups

  /** A material property value: a number or a tuple of numbers. */
  type Value = TracerData.ParamValue

  /** The material tables of a scene: material name to property name to
      value. */
  type Materials = map<string, map<string, Value>>

  // ---------------------------------------------------------------------
  // Property offsets.

  /** The offsets of one property list, starting from `offset` and
      advancing by one slot per object plus the default. */
  function ListOffsets(props: seq<string>, offset: nat, nObjects: nat): (r: seq<(string, nat)>)
    ensures |r| == |props|
    decreases |props|
  {
    if |props| == 0 then []
    else [(Upper(props[0]), offset)] + ListOffsets(props[1..], offset + nObjects + 1, nObjects)
  }

  /** Property `k` of a list is named in upper case at offset
      `k * (nObjects + 1)` past the list's start. */
  lemma {:induction false} ListOffsetAt(props: seq<string>, offset: nat, nObjects: nat, k: nat)
    requires k < |props|
    ensures ListOffsets(props, offset, nObjects)[k] == (Upper(props[k]), offset + k * (nObjects + 1))
    decreases |props|
  {
    if k > 0 {
      ListOffsetAt(props[1..], offset + nObjects + 1, nObjects, k - 1);
      assert offset + nObjects + 1 + (k - 1) * (nObjects + 1) == offset + k * (nObjects + 1);
    }
  }

  function TotalLength(sets: seq<seq<string>>): nat {
    if |sets| == 0 then 0 else |sets[0]| + TotalLength(sets[1..])
  }

  /** `get_material_property_offsets`: every list restarts at offset 0. */
  function PropertyOffsets(sets: seq<seq<string>>, nObjects: nat): (r: seq<(string, nat)>)
    ensures |r| == TotalLength(sets)
  {
    if |sets| == 0 then [] else ListOffsets(sets[0], 0, nObjects) + PropertyOffsets(sets[1..], nObjects)
  }

  /** Property `k` of list `c` comes after the properties of the earlier
      lists, named in upper case, with offset `k * (nObjects + 1)`. */
  lemma {:induction false} PropertyOffsetAt(sets: seq<seq<string>>, nObjects: nat, c: nat, k: nat)
    requires c < |sets| && k < |sets[c]|
    ensures TotalLength(sets[..c]) + k < |PropertyOffsets(sets, nObjects)|
    ensures PropertyOffsets(sets, nObjects)[TotalLength(sets[..c]) + k] == (Upper(sets[c][k]), k * (nObjects + 1))
    decreases |sets|
  {
    if c == 0 {
      assert sets[..c] == [];
      ListOffsetAt(sets[0], 0, nObjects, k);
    } else {
      PropertyOffsetAt(sets[1..], nObjects, c - 1, k);
      assert sets[..c][1..] == sets[1..][..c - 1];
    }
  }

  // ---------------------------------------------------------------------
  // Each object's material.

  /** One item of `each_object_material`: object id (0 for the default),
      property position and value. */
  datatype Item = Item(objectId: nat, propIndex: nat, value: Value)

  /** A property can be looked up for every object: the default material
      defines it and every object's material exists. */
  predicate Available(materials: Materials, objectMaterials: seq<string>, pname: string) {
    && "default" in materials && pname in materials["default"]
    && forall i :: 0 <= i < |objectMaterials| ==> objectMaterials[i] in materials
  }

  /** The value of property `pname` for object id `obj`: the default for
      id 0, and for an object its material's value or else the default. */
  function PropertyValue(materials: Materials, objectMaterials: seq<string>, pname: string, obj: nat): Value
    requires Available(materials, objectMaterials, pname) && obj <= |objectMaterials|
  {
    var fallback := materials["default"][pname];
    if obj == 0 then fallback
    else
      var m := materials[objectMaterials[obj - 1]];
      if pname in m then m[pname] else fallback
  }

  /** The inner loop for one property, from object `i` on. */
  function ObjectItems(materials: Materials, objectMaterials: seq<string>, pname: string, pIdx: nat,
                       fallback: Value, i: nat): (r: Result<seq<Item>>)
    requires i <= |objectMaterials|
    ensures r.Ok? <==> forall j :: i <= j < |objectMaterials| ==> objectMaterials[j] in materials
    ensures r.Ok? ==> |r.value| == |objectMaterials| - i
    ensures r.Err? ==> r.exception.KeyError?
    decreases |objectMaterials| - i
  {
    if i == |objectMaterials| then Ok([])
    else if objectMaterials[i] !in materials then Err(KeyError(objectMaterials[i]))
    else
      var m := materials[objectMaterials[i]];
      var prop := if pname in m then m[pname] else fallback;
      match ObjectItems(materials, objectMaterials, pname, pIdx, fallback, i + 1)
      case Err(e) => Err(e)
      case Ok(rest) => Ok([Item(i + 1, pIdx, prop)] + rest)
  }

  /** The outer loop from property `p` on: the default first, then every
      object. Looking up a missing material or default value raises
      `KeyError`. */
  function PropertyItems(materials: Materials, objectMaterials: seq<string>, props: seq<string>, p: nat)
    : (r: Result<seq<Item>>)
    requires p <= |props|
    ensures r.Ok? <==> forall q :: p <= q < |props| ==> Available(materials, objectMaterials, props[q])
    ensures r.Err? ==> r.exception.KeyError?
    decreases |props| - p
  {
    if p == |props| then Ok([])
    else if "default" !in materials then
      assert !Available(materials, objectMaterials, props[p]);
      Err(KeyError("default"))
    else if props[p] !in materials["default"] then
      assert !Available(materials, objectMaterials, props[p]);
      Err(KeyError(props[p]))
    else
      var fallback := materials["default"][props[p]];
      match ObjectItems(materials, objectMaterials, props[p], p, fallback, 0)
      case Err(e) => Err(e)
      case Ok(objs) =>
        match PropertyItems(materials, objectMaterials, props, p + 1)
        case Err(e) => Err(e)
        case Ok(rest) => Ok([Item(0, p, fallback)] + objs + rest)
  }

  /** `each_object_material`. */
  function EachObjectMaterial(materials: Materials, objectMaterials: seq<string>, props: seq<string>)
    : Result<seq<Item>>
  {
    PropertyItems(materials, objectMaterials, props, 0)
  }

  /** The items of one property, object by object, carry their own
      object's value. */
  lemma {:induction false} ObjectItemsLayout(materials: Materials, objectMaterials: seq<string>, pname: string,
                                             pIdx: nat, i: nat)
    requires Available(materials, objectMaterials, pname) && i <= |objectMaterials|
    ensures var r := ObjectItems(materials, objectMaterials, pname, pIdx, materials["default"][pname], i);
      && r.Ok?
      && forall k :: 0 <= k < |r.value| ==>
        r.value[k] == Item(i + k + 1, pIdx, PropertyValue(materials, objectMaterials, pname, i + k + 1))
    decreases |objectMaterials| - i
  {
    if i < |objectMaterials| {
      ObjectItemsLayout(materials, objectMaterials, pname, pIdx, i + 1);
      var r := ObjectItems(materials, objectMaterials, pname, pIdx, materials["default"][pname], i);
      var rest := ObjectItems(materials, objectMaterials, pname, pIdx, materials["default"][pname], i + 1);
      forall k | 0 <= k < |r.value|
        ensures r.value[k] == Item(i + k + 1, pIdx, PropertyValue(materials, objectMaterials, pname, i + k + 1))
      {
        if k > 0 {
          assert r.value[k] == rest.value[k - 1];
        }
      }
    }
  }

  /** The items come property by property, each block the default and then
      the objects in order: item `k` is followed by the items whose
      position `propIndex * (n + 1) + objectId` is `k` past the first
      property's block. */
  lemma {:induction false} PropertyItemsLayout(materials: Materials, objectMaterials: seq<string>,
                                               props: seq<string>, p: nat)
    requires p <= |props| && PropertyItems(materials, objectMaterials, props, p).Ok?
    ensures var r := PropertyItems(materials, objectMaterials, props, p).value; var n := |objectMaterials|;
      && |r| == (|props| - p) * (n + 1)
      && forall k :: 0 <= k < |r| ==>
        && p <= r[k].propIndex < |props| && r[k].objectId <= n
        && r[k].propIndex * (n + 1) + r[k].objectId == p * (n + 1) + k
        && Available(materials, objectMaterials, props[r[k].propIndex])
        && r[k].value == PropertyValue(materials, objectMaterials, props[r[k].propIndex], r[k].objectId)
    decreases |props| - p
  {
    var n := |objectMaterials|;
    if p < |props| {
      var fallback := materials["default"][props[p]];
      var objs := ObjectItems(materials, objectMaterials, props[p], p, fallback, 0).value;
      var rest := PropertyItems(materials, objectMaterials, props, p + 1).value;
      var r := PropertyItems(materials, objectMaterials, props, p).value;
      ObjectItemsLayout(materials, objectMaterials, props[p], p, 0);
      PropertyItemsLayout(materials, objectMaterials, props, p + 1);
      assert r == [Item(0, p, fallback)] + objs + rest;
      assert (|props| - p) * (n + 1) == n + 1 + (|props| - (p + 1)) * (n + 1);
      forall k | 0 <= k < |r|
        ensures && p <= r[k].propIndex < |props| && r[k].objectId <= n
          && r[k].propIndex * (n + 1) + r[k].objectId == p * (n + 1) + k
          && Available(materials, objectMaterials, props[r[k].propIndex])
          && r[k].value == PropertyValue(materials, objectMaterials, props[r[k].propIndex], r[k].objectId)
      {
        if k == 0 {
        } else if k <= n {
          assert r[k] == objs[k - 1];
        } else {
          assert r[k] == rest[k - (n + 1)];
          assert (p + 1) * (n + 1) + (k - (n + 1)) == p * (n + 1) + k;
        }
      }
    }
  }

  /** The item for property `p` of object id `obj` is at position
      `p * (n + 1) + obj`. */
  lemma ItemAt(materials: Materials, objectMaterials: seq<string>, props: seq<string>, p: nat, obj: nat)
    requires EachObjectMaterial(materials, objectMaterials, props).Ok?
    requires p < |props| && obj <= |objectMaterials|
    ensures var r := EachObjectMaterial(materials, objectMaterials, props).value; var n := |objectMaterials|;
      && Available(materials, objectMaterials, props[p])
      && Slot(p, obj, n) < |r|
      && r[Slot(p, obj, n)] == Item(obj, p, PropertyValue(materials, objectMaterials, props[p], obj))
  {
    var r := EachObjectMaterial(materials, objectMaterials, props).value;
    var n := |objectMaterials|;
    PropertyItemsLayout(materials, objectMaterials, props, 0);
    var k := p * (n + 1) + obj;
    ImageOrder.MulMono(p + 1, |props|, n + 1);
    assert k < |r|;
    ImageOrder.DivModOf(p, obj, n + 1);
    ImageOrder.DivModOf(r[k].propIndex, r[k].objectId, n + 1);
  }

  // ---------------------------------------------------------------------
  // The generator, item by item.

  /** What `each_object_material` yields before it stops: the items, and
      the exception that stops it early, if any. Its caller writes each
      item before the next lookup, so an item that cannot be written is
      reported before a lookup that fails later. */
  datatype Yielded = Yielded(items: seq<Item>, raised: Option<Exception>)

  /** The inner loop, lazily, from object `i` on. */
  function ObjectYields(materials: Materials, objectMaterials: seq<string>, pname: string, pIdx: nat,
                        fallback: Value, i: nat): (r: Yielded)
    requires i <= |objectMaterials|
    decreases |objectMaterials| - i
  {
    if i == |objectMaterials| then Yielded([], None)
    else if objectMaterials[i] !in materials then Yielded([], Some(KeyError(objectMaterials[i])))
    else
      var m := materials[objectMaterials[i]];
      var prop := if pname in m then m[pname] else fallback;
      var rest := ObjectYields(materials, objectMaterials, pname, pIdx, fallback, i + 1);
      Yielded([Item(i + 1, pIdx, prop)] + rest.items, rest.raised)
  }

  /** The outer loop, lazily, from property `p` on: the default is yielded
      before any object's material is looked up. */
  function PropertyYields(materials: Materials, objectMaterials: seq<string>, props: seq<string>, p: nat)
    : (r: Yielded)
    requires p <= |props|
    decreases |props| - p
  {
    if p == |props| then Yielded([], None)
    else if "default" !in materials then Yielded([], Some(KeyError("default")))
    else if props[p] !in materials["default"] then Yielded([], Some(KeyError(props[p])))
    else
      var fallback := materials["default"][props[p]];
      var objs := ObjectYields(materials, objectMaterials, props[p], p, fallback, 0);
      if objs.raised.Some? then Yielded([Item(0, p, fallback)] + objs.items, objs.raised)
      else
        var rest := PropertyYields(materials, objectMaterials, props, p + 1);
        Yielded([Item(0, p, fallback)] + objs.items + rest.items, rest.raised)
  }

  /** `each_object_material(property_list)` as its consumer sees it. */
  function Generated(materials: Materials, objectMaterials: seq<string>, props: seq<string>): Yielded {
    PropertyYields(materials, objectMaterials, props, 0)
  }

  /** Run to the end, the inner loop yields everything the eager list
      holds, and stops with the eager list's exception otherwise. */
  lemma {:induction false} ObjectYieldsAgree(materials: Materials, objectMaterials: seq<string>, pname: string,
                                             pIdx: nat, fallback: Value, i: nat)
    requires i <= |objectMaterials|
    ensures var y := ObjectYields(materials, objectMaterials, pname, pIdx, fallback, i);
      var e := ObjectItems(materials, objectMaterials, pname, pIdx, fallback, i);
      && (y.raised.None? <==> e.Ok?)
      && (e.Ok? ==> y.items == e.value)
      && (e.Err? ==> y.raised == Some(e.exception))
    decreases |objectMaterials| - i
  {
    if i < |objectMaterials| && objectMaterials[i] in materials {
      ObjectYieldsAgree(materials, objectMaterials, pname, pIdx, fallback, i + 1);
    }
  }

  /** The lazy generator stops exactly when the eager list fails, with the
      same exception, and otherwise yields the eager list. */
  lemma {:induction false} PropertyYieldsAgree(materials: Materials, objectMaterials: seq<string>,
                                               props: seq<string>, p: nat)
    requires p <= |props|
    ensures var y := PropertyYields(materials, objectMaterials, props, p);
      var e := PropertyItems(materials, objectMaterials, props, p);
      && (y.raised.None? <==> e.Ok?)
      && (e.Ok? ==> y.items == e.value)
      && (e.Err? ==> y.raised == Some(e.exception))
    decreases |props| - p
  {
    if p < |props| && "default" in materials && props[p] in materials["default"] {
      var fallback := materials["default"][props[p]];
      ObjectYieldsAgree(materials, objectMaterials, props[p], p, fallback, 0);
      PropertyYieldsAgree(materials, objectMaterials, props, p + 1);
    }
  }

  /** The items of the inner loop carry consecutive object ids. */
  lemma {:induction false} ObjectYieldsIds(materials: Materials, objectMaterials: seq<string>, pname: string,
                                           pIdx: nat, fallback: Value, i: nat)
    requires i <= |objectMaterials|
    ensures var y := ObjectYields(materials, objectMaterials, pname, pIdx, fallback, i);
      && |y.items| <= |objectMaterials| - i
      && forall k :: 0 <= k < |y.items| ==> y.items[k].objectId == i + k + 1 && y.items[k].propIndex == pIdx
    decreases |objectMaterials| - i
  {
    if i < |objectMaterials| && objectMaterials[i] in materials {
      ObjectYieldsIds(materials, objectMaterials, pname, pIdx, fallback, i + 1);
      var y := ObjectYields(materials, objectMaterials, pname, pIdx, fallback, i);
      var rest := ObjectYields(materials, objectMaterials, pname, pIdx, fallback, i + 1);
      forall k | 0 < k < |y.items|
        ensures y.items[k].objectId == i + k + 1 && y.items[k].propIndex == pIdx
      {
        assert y.items[k] == rest.items[k - 1];
      }
    }
  }

  /** Item `k` of `items` belongs in row `base + k`, written
      `propIndex * (n + 1) + objectId`. */
  predicate RowsFrom(items: seq<Item>, n: nat, base: nat) {
    forall k :: 0 <= k < |items| ==>
      && items[k].objectId <= n
      && items[k].propIndex * (n + 1) + items[k].objectId == base + k
  }

  /** The default of property `p` and the objects yielded after it fill
      rows from `p * (n + 1)` on; when all `n` objects were yielded, the
      next property's rows follow. */
  lemma BlockRows(fallback: Value, objs: seq<Item>, rest: seq<Item>, p: nat, n: nat)
    requires |objs| <= n
    requires forall k :: 0 <= k < |objs| ==> objs[k].objectId == k + 1 && objs[k].propIndex == p
    requires |rest| > 0 ==> |objs| == n && RowsFrom(rest, n, (p + 1) * (n + 1))
    ensures RowsFrom([Item(0, p, fallback)] + objs + rest, n, p * (n + 1))
  {
    var items := [Item(0, p, fallback)] + objs + rest;
    forall k | 0 <= k < |items|
      ensures items[k].objectId <= n && items[k].propIndex * (n + 1) + items[k].objectId == p * (n + 1) + k
    {
      if k == 0 {
      } else if k <= |objs| {
        assert items[k] == objs[k - 1];
      } else {
        assert items[k] == rest[k - (n + 1)];
        assert (p + 1) * (n + 1) + (k - (n + 1)) == p * (n + 1) + k;
      }
    }
  }

  /** Whatever the generator yields before it stops, item `k` belongs in
      row `k` past the first property's block: the row
      `propIndex * (n + 1) + objectId` it is written to. */
  lemma {:induction false} PropertyYieldsLayout(materials: Materials, objectMaterials: seq<string>,
                                                props: seq<string>, p: nat)
    requires p <= |props|
    ensures RowsFrom(PropertyYields(materials, objectMaterials, props, p).items, |objectMaterials|,
                     p * (|objectMaterials| + 1))
    decreases |props| - p
  {
    var n := |objectMaterials|;
    if p < |props| && "default" in materials && props[p] in materials["default"] {
      var fallback := materials["default"][props[p]];
      var objs := ObjectYields(materials, objectMaterials, props[p], p, fallback, 0);
      ObjectYieldsIds(materials, objectMaterials, props[p], p, fallback, 0);
      if objs.raised.Some? {
        BlockRows(fallback, objs.items, [], p, n);
        assert [Item(0, p, fallback)] + objs.items + [] == [Item(0, p, fallback)] + objs.items;
      } else {
        var rest := PropertyYields(materials, objectMaterials, props, p + 1);
        PropertyYieldsLayout(materials, objectMaterials, props, p + 1);
        ObjectYieldsAgree(materials, objectMaterials, props[p], p, fallback, 0);
        BlockRows(fallback, objs.items, rest.items, p, n);
      }
    }
  }

  /** A one-element colour tuple in the default material is yielded and
      written, and fails, before the missing material of the first object
      is looked up: the buffer raises `ValueError`, not `KeyError`. */
  lemma ValueErrorBeforeMissingMaterial()
    ensures var materials: Materials := map["default" := map["diffuse" := TracerData.Tuple([1.0])]];
      var y := Generated(materials, ["missing"], ["diffuse"]);
      && y.items == [Item(0, 0, TracerData.Tuple([1.0]))]
      && y.raised == Some(KeyError("missing"))
      && Cells(y.items[0].value, true).Err?
      && EachObjectMaterial(materials, ["missing"], ["diffuse"]) == Err(KeyError("missing"))
  {
    var materials: Materials := map["default" := map["diffuse" := TracerData.Tuple([1.0])]];
    assert "missing" !in materials;
    PropertyYieldsAgree(materials, ["missing"], ["diffuse"], 0);
  }

  // ---------------------------------------------------------------------
  // The material buffers.

  /** Colour buffers have four columns, scalar buffers one. */
  function Width(color: bool): nat {
    if color then 4 else 1
  }

  /** What `initialize_material_buffers` writes into the first columns of
      a row. A number is repeated three times in a colour buffer. A tuple
      is written as it is, and must fit the row; a one-element tuple in a
      colour buffer becomes a 3 by 1 array, which does not fit a row. */
  function Cells(v: Value, color: bool): (r: Result<seq<real>>)
    ensures r.Ok? ==> |r.value| <= Width(color)
    ensures v.Scalar? ==> r.Ok? && |r.value| == (if color then 3 else 1) && forall i :: 0 <= i < |r.value| ==> r.value[i] == v.x
    ensures v.Tuple? && |v.xs| != 1 ==> (r.Ok? <==> |v.xs| <= Width(color)) && (r.Ok? ==> r.value == v.xs)
    ensures v.Tuple? && |v.xs| == 1 ==> (r.Ok? <==> !color)
    ensures r.Err? ==> r.exception.ValueError?
  {
    match v
    case Scalar(x) => Ok(if color then [x, x, x] else [x])
    case Tuple(xs) =>
      if |xs| == 1 && color then Err(ValueError("could not broadcast input array from shape (3,1) into shape (3,)"))
      else if |xs| > Width(color) then Err(ValueError("could not broadcast input array into row"))
      else Ok(xs)
  }

  function Zeros(n: nat): (r: seq<real>)
    ensures |r| == n && forall i :: 0 <= i < n ==> r[i] == 0.0
  {
    seq(n, _ => 0.0)
  }

  /** A row of a freshly zeroed buffer after `buf[row, :size] = value`. */
  function Row(cells: seq<real>, width: nat): (r: seq<real>)
    requires |cells| <= width
    ensures |r| == width && r[..|cells|] == cells
    ensures forall i :: |cells| <= i < width ==> r[i] == 0.0
  {
    cells + Zeros(width - |cells|)
  }

  /** The value of one property of one object, as a buffer row. */
  predicate RowHolds(row: seq<real>, v: Value, color: bool) {
    Cells(v, color).Ok? && row == Row(Cells(v, color).value, Width(color))
  }

  /** The buffer of one property list holds property `p` of object id
      `obj` (0 for the default) in row `p * (n + 1) + obj`. */
  function Slot(p: nat, obj: nat, nObjects: nat): nat {
    p * (nObjects + 1) + obj
  }

  predicate BufferHolds(buf: seq<seq<real>>, materials: Materials, objectMaterials: seq<string>,
                        props: seq<string>, color: bool) {
    && |buf| == |props| * (|objectMaterials| + 1)
    && forall p :: 0 <= p < |props| ==>
      && Available(materials, objectMaterials, props[p])
      && forall obj :: 0 <= obj <= |objectMaterials| ==>
        && Slot(p, obj, |objectMaterials|) < |buf|
        && RowHolds(buf[Slot(p, obj, |objectMaterials|)], PropertyValue(materials, objectMaterials, props[p], obj), color)
  }

  /** The loop over the items: item `k` writes row
      `propIndex * (n + 1) + objectId` of the zeroed buffer, which is row
      `k`. */
  method WriteRows(items: seq<Item>, n1: nat, color: bool) returns (r: Result<seq<seq<real>>>)
    requires forall k :: 0 <= k < |items| ==> items[k].propIndex * n1 + items[k].objectId == k
    ensures r.Ok? <==> forall k :: 0 <= k < |items| ==> Cells(items[k].value, color).Ok?
    ensures r.Err? ==> r.exception.ValueError?
    ensures r.Ok? ==> |r.value| == |items| && forall k :: 0 <= k < |items| ==> RowHolds(r.value[k], items[k].value, color)
  {
    var width := Width(color);
    var buf := seq(|items|, _ => Zeros(width));
    for k := 0 to |items|
      invariant |buf| == |items|
      invariant forall j :: 0 <= j < k ==> RowHolds(buf[j], items[j].value, color)
      invariant forall j :: k <= j < |buf| ==> buf[j] == Zeros(width)
    {
      var cells := Cells(items[k].value, color);
      if cells.Err? {
        return Err(cells.exception);
      }
      var row := items[k].propIndex * n1 + items[k].objectId;
      buf := buf[row := cells.value + buf[row][|cells.value|..]];
      assert buf[k] == Row(cells.value, width);
    }
    r := Ok(buf);
  }

  /** The body of `initialize_material_buffers` for one property list:
      each item the generator yields is written to its row before the next
      lookup. The first item that does not fit its row raises `ValueError`;
      if every yielded item fits, a failed lookup raises its `KeyError`. */
  method MaterialBuffer(materials: Materials, objectMaterials: seq<string>, props: seq<string>, color: bool)
    returns (r: Result<seq<seq<real>>>)
    ensures var y := Generated(materials, objectMaterials, props);
      r.Ok? <==> y.raised.None? && forall k :: 0 <= k < |y.items| ==> Cells(y.items[k].value, color).Ok?
    ensures var y := Generated(materials, objectMaterials, props);
      (exists k :: 0 <= k < |y.items| && Cells(y.items[k].value, color).Err?) ==> r.Err? && r.exception.ValueError?
    ensures var y := Generated(materials, objectMaterials, props);
      y.raised.Some? && (forall k :: 0 <= k < |y.items| ==> Cells(y.items[k].value, color).Ok?) ==> r == Err(y.raised.value)
    ensures var items := EachObjectMaterial(materials, objectMaterials, props);
      r.Ok? <==> items.Ok? && forall k :: 0 <= k < |items.value| ==> Cells(items.value[k].value, color).Ok?
    ensures r.Ok? ==> BufferHolds(r.value, materials, objectMaterials, props, color)
  {
    var y := Generated(materials, objectMaterials, props);
    var n1 := |objectMaterials| + 1;
    PropertyYieldsLayout(materials, objectMaterials, props, 0);
    PropertyYieldsAgree(materials, objectMaterials, props, 0);
    var written := WriteRows(y.items, n1, color);
    if written.Err? {
      return written;
    }
    if y.raised.Some? {
      return Err(y.raised.value);
    }
    r := written;
    RowsHoldValues(materials, objectMaterials, props, color, r.value);
  }

  /** Row `k` of the buffer holding item `k` is row `p * (n + 1) + obj`
      holding property `p` of object id `obj`. */
  lemma RowsHoldValues(materials: Materials, objectMaterials: seq<string>, props: seq<string>, color: bool,
                       buf: seq<seq<real>>)
    requires EachObjectMaterial(materials, objectMaterials, props).Ok?
    requires var items := EachObjectMaterial(materials, objectMaterials, props).value;
      |buf| == |items| && forall k :: 0 <= k < |items| ==> RowHolds(buf[k], items[k].value, color)
    ensures BufferHolds(buf, materials, objectMaterials, props, color)
  {
    var items := EachObjectMaterial(materials, objectMaterials, props).value;
    assert |buf| == |props| * (|objectMaterials| + 1) by {
      PropertyItemsLayout(materials, objectMaterials, props, 0);
    }
    forall p | 0 <= p < |props|
      ensures && Available(materials, objectMaterials, props[p])
        && forall obj :: 0 <= obj <= |objectMaterials| ==>
          && Slot(p, obj, |objectMaterials|) < |buf|
          && RowHolds(buf[Slot(p, obj, |objectMaterials|)], PropertyValue(materials, objectMaterials, props[p], obj), color)
    {
      ItemAt(materials, objectMaterials, props, p, 0);
      forall obj | 0 <= obj <= |objectMaterials|
        ensures && Slot(p, obj, |objectMaterials|) < |buf|
          && RowHolds(buf[Slot(p, obj, |objectMaterials|)], PropertyValue(materials, objectMaterials, props[p], obj), color)
      {
        ItemAt(materials, objectMaterials, props, p, obj);
        var k := Slot(p, obj, |objectMaterials|);
        assert RowHolds(buf[k], items[k].value, color);
      }
    }
  }

  /** `RgbShader`'s property lists: colours, then scalars. */
  const ColorProperties: seq<string> := ["diffuse", "emission", "reflection", "transparency", "volume_absorption"]
  const ScalarProperties: seq<string> := ["ior", "volume_scattering", "volume_scattering_blur", "reflection_blur", "transparency_blur"]

  /** The kernels find a property through its offset: the offset of
      property `k` of list `c` plus an object id is the row of that list's
      buffer that holds the object's value. */
  lemma OffsetFindsRow(sets: seq<seq<string>>, c: nat, k: nat, materials: Materials, objectMaterials: seq<string>,
                       buf: seq<seq<real>>, color: bool, obj: nat)
    requires c < |sets| && k < |sets[c]| && obj <= |objectMaterials|
    requires BufferHolds(buf, materials, objectMaterials, sets[c], color)
    ensures var offsets := PropertyOffsets(sets, |objectMaterials|); var at := TotalLength(sets[..c]) + k;
      && at < |offsets|
      && offsets[at].0 == Upper(sets[c][k])
      && Available(materials, objectMaterials, sets[c][k])
      && offsets[at].1 + obj < |buf|
      && RowHolds(buf[offsets[at].1 + obj], PropertyValue(materials, objectMaterials, sets[c][k], obj), color)
  {
    PropertyOffsetAt(sets, |objectMaterials|, c, k);
    BufferRow(buf, materials, objectMaterials, sets[c], color, k, obj);
  }

  lemma BufferRow(buf: seq<seq<real>>, materials: Materials, objectMaterials: seq<string>, props: seq<string>,
                  color: bool, p: nat, obj: nat)
    requires BufferHolds(buf, materials, objectMaterials, props, color)
    requires p < |props| && obj <= |objectMaterials|
    ensures && Available(materials, objectMaterials, props[p])
      && Slot(p, obj, |objectMaterials|) < |buf|
      && RowHolds(buf[Slot(p, obj, |objectMaterials|)], PropertyValue(materials, objectMaterials, props[p], obj), color)
  {
  }

  // ---------------------------------------------------------------------
  // Segments.

  /** A launch of `compute_next_path_segment`: the one tracing kernel, the
      shadow kernel, or the shader. */
  datatype Call =
    | TraceAll
    | ShadowTrace(lightId: nat)
    | ShaderKernel(kernel: string, light: Option<nat>)

  datatype Segment = Segment(calls: seq<Call>, resetsSuppression: bool, quasiDirection: bool)

  /** `compute_next_path_segment`: trace, then shadow rays when lights are
      sampled and the segment is not the last, then the shader. */
  function NextSegment(shaderName: string, bidirectional: bool, light: nat, quasirandom: bool,
                       pathIndex: nat, isLast: bool): (r: Segment)
    ensures |r.calls| >= 2 && r.calls[0] == TraceAll
    ensures forall i :: 0 <= i < |r.calls| ==> (r.calls[i].ShaderKernel? <==> i == |r.calls| - 1)
    ensures r.calls[|r.calls| - 1].kernel == shaderName
    ensures (exists i :: 0 <= i < |r.calls| && r.calls[i].ShadowTrace?) <==> bidirectional && !isLast
    ensures forall i, k :: 0 <= i < |r.calls| && 0 <= k < |r.calls| && r.calls[i].ShadowTrace? && r.calls[k].ShaderKernel? ==>
      i < k && r.calls[k].light == Some(r.calls[i].lightId)
    ensures r.calls[|r.calls| - 1].light.None? <==> !bidirectional
    ensures r.calls[|r.calls| - 1].light == Some(0) <==> bidirectional && isLast
    ensures r.resetsSuppression <==> bidirectional && pathIndex == 0
    ensures r.quasiDirection <==> quasirandom && pathIndex == 1
  {
    var lightId := Renderer.LightId(bidirectional, isLast, light);
    var shadow := if bidirectional && !isLast then [ShadowTrace(light + 1)] else [];
    var calls := [TraceAll] + shadow + [ShaderKernel(shaderName, lightId)];
    assert bidirectional && !isLast ==> calls[1].ShadowTrace?;
    Segment(calls, bidirectional && pathIndex == 0, quasirandom && pathIndex == 1)
  }

  /** The segment `Shader` launches and the segment `Renderer` launches
      agree: both trace shadow rays under the same condition, towards the
      same light id their shader stages receive, and set the same flags.
      `Renderer` launches one shadow kernel per object group, `Shader` one
      for all objects. */
  lemma SegmentsAgree<T>(shaderName: string, groups: seq<ObjectGroups.Group<T>>, kernels: T -> Renderer.Kernels,
                         bidirectional: bool, light: nat, quasirandom: bool, pathIndex: nat, isLast: bool)
    requires |groups| > 0
    ensures var a := NextSegment(shaderName, bidirectional, light, quasirandom, pathIndex, isLast);
      var b := Renderer.NextPathSegment(groups, kernels, bidirectional, light, quasirandom, pathIndex, isLast);
      && ((exists i :: 0 <= i < |a.calls| && a.calls[i].ShadowTrace?) <==> |b.shadows| > 0)
      && (forall i, k :: 0 <= i < |a.calls| && a.calls[i].ShadowTrace? && 0 <= k < |b.shadows| ==>
            a.calls[i].lightId == b.shadows[k].lightId)
      && (forall k :: 0 <= k < |b.shaders| ==> b.shaders[k].light == a.calls[|a.calls| - 1].light)
      && a.resetsSuppression == b.resetsSuppression && a.quasiDirection == b.quasiDirection
  {
    var a := NextSegment(shaderName, bidirectional, light, quasirandom, pathIndex, isLast);
    var b := Renderer.NextPathSegment(groups, kernels, bidirectional, light, quasirandom, pathIndex, isLast);
    forall i, k | 0 <= i < |a.calls| && a.calls[i].ShadowTrace? && 0 <= k < |b.shadows|
      ensures a.calls[i].lightId == b.shadows[k].lightId
    {
      assert a.calls[i] == ShadowTrace(light + 1);
    }
  }

  // ---------------------------------------------------------------------
  // Russian roulette.

  /** The survival test: as written, the path goes on when the draw is
      below `russian_roulette_prob`; as the reweighting by
      `1 / (1 - russian_roulette_prob)` intends, when it is not. */
  datatype Rule = AsWritten | Corrected

  predicate Survives(rule: Rule, p: real, u: real) {
    match rule
    case AsWritten => u < p
    case Corrected => !(u < p)
  }

  /** Whether the loop goes on after segment `k`: always below
      `min_bounces`, otherwise when the draw survives and `max_bounces` is
      not reached. */
  predicate Continues(rule: Rule, minBounces: int, maxBounces: int, p: real, rand: nat -> real, k: nat) {
    k < minBounces || (Survives(rule, p, rand(k)) && k < maxBounces)
  }

  function MaxOf(a: int, b: int): int {
    if a < b then b else a
  }

  /** The factor applied after segment `k`: none below `min_bounces`,
      otherwise `1 / (1 - p)`. */
  predicate Reweighted(w: real, k: nat, minBounces: int, p: real) {
    if k < minBounces then w == 1.0 else w * (1.0 - p) == 1.0
  }

  /** One run of the loop: the segments, the factor `raycolor` is scaled
      by before each, and the final path index. */
  datatype Run = Run(segments: seq<Segment>, weights: seq<real>, pathIndex: nat)

  /** `render_sample`'s bounce loop. `rand(k)` is the draw made on segment
      `k` (only once `min_bounces` is reached) and `lights(k)` the light
      drawn there. `1.0 / (1 - p)` with `p == 1` raises
      `ZeroDivisionError`. */
  method RenderSample(rule: Rule, minBounces: int, maxBounces: int, p: real, rand: nat -> real,
                      shaderName: string, bidirectional: bool, lights: nat -> nat, quasirandom: bool)
    returns (r: Result<Run>)
    ensures r.Err? ==> r.exception == ZeroDivisionError && p == 1.0
    ensures r.Ok? ==>
      && |r.value.segments| == r.value.pathIndex + 1
      && |r.value.weights| == r.value.pathIndex + 1
      && r.value.pathIndex <= MaxOf(0, MaxOf(minBounces, maxBounces))
    ensures r.Ok? ==> forall k :: 0 <= k <= r.value.pathIndex ==>
      r.value.segments[k] == NextSegment(shaderName, bidirectional, lights(k), quasirandom, k, k == r.value.pathIndex)
    ensures r.Ok? ==> forall k :: 0 <= k < r.value.pathIndex ==> Continues(rule, minBounces, maxBounces, p, rand, k)
    ensures r.Ok? ==> r.value.pathIndex >= minBounces && !Continues(rule, minBounces, maxBounces, p, rand, r.value.pathIndex)
    ensures r.Ok? ==> r.value.weights[0] == 1.0
    ensures r.Ok? ==> forall k :: 1 <= k <= r.value.pathIndex ==> Reweighted(r.value.weights[k], k - 1, minBounces, p)
  {
    var bound := MaxOf(0, MaxOf(minBounces, maxBounces));
    var pathIndex: nat := 0;
    var rProb: real := 1.0;
    var segments: seq<Segment> := [];
    var weights: seq<real> := [];
    while true
      invariant pathIndex <= bound
      invariant |segments| == pathIndex && |weights| == pathIndex
      invariant forall k :: 0 <= k < pathIndex ==>
        segments[k] == NextSegment(shaderName, bidirectional, lights(k), quasirandom, k, false)
      invariant forall k :: 0 <= k < pathIndex ==> Continues(rule, minBounces, maxBounces, p, rand, k)
      invariant pathIndex > 0 ==> weights[0] == 1.0
      invariant forall k :: 1 <= k < pathIndex ==> Reweighted(weights[k], k - 1, minBounces, p)
      invariant pathIndex == 0 ==> rProb == 1.0
      invariant pathIndex > 0 ==> Reweighted(rProb, pathIndex - 1, minBounces, p)
      decreases bound - pathIndex
    {
      weights := weights + [rProb];
      rProb := 1.0;
      var breakNext := false;
      if pathIndex >= minBounces {
        if Survives(rule, p, rand(pathIndex)) && pathIndex < maxBounces {
          if 1.0 - p == 0.0 {
            return Err(ZeroDivisionError);
          }
          rProb := 1.0 / (1.0 - p);
        } else {
          breakNext := true;
        }
      }
      segments := segments + [NextSegment(shaderName, bidirectional, lights(pathIndex), quasirandom, pathIndex, breakNext)];
      if breakNext {
        return Ok(Run(segments, weights, pathIndex));
      }
      pathIndex := pathIndex + 1;
    }
  }

  /** For a draw uniform on `[0, 1)`, the surviving draws form an interval;
      its length is the probability of going on. */
  function SurvivalInterval(rule: Rule, p: real): (r: (real, real))
    requires 0.0 <= p <= 1.0
    ensures r.0 <= r.1
    ensures forall u :: 0.0 <= u < 1.0 ==> (Survives(rule, p, u) <==> r.0 <= u < r.1)
  {
    match rule
    case AsWritten => (0.0, p)
    case Corrected => (p, 1.0)
  }

  /** The expected factor a surviving path contributes per roulette draw:
      the probability of going on times the reweighting. */
  function ExpectedWeight(rule: Rule, p: real): real
    requires 0.0 <= p < 1.0
  {
    var (lo, hi) := SurvivalInterval(rule, p);
    (hi - lo) * (1.0 / (1.0 - p))
  }

  /** As written the reweighting is biased except at `p = 1/2`; with the
      scene default `p = 0.3` a path keeps only `3/7` of its expected
      contribution per draw. */
  lemma AsWrittenRouletteBiased(p: real)
    requires 0.0 <= p < 1.0
    ensures ExpectedWeight(AsWritten, p) == 1.0 <==> p == 0.5
    ensures ExpectedWeight(AsWritten, 0.3) == 3.0 / 7.0
  {
    var w := 1.0 / (1.0 - p);
    assert w * (1.0 - p) == 1.0;
    assert ExpectedWeight(AsWritten, p) == p * w;
    if p * w == 1.0 {
      assert p == 1.0 - p by {
        assert p * w * (1.0 - p) == 1.0 - p;
      }
    }
    var w3 := 1.0 / (1.0 - 0.3);
    assert w3 == 10.0 / 7.0;
  }

  /** With the corrected test the roulette is unbiased for every `p`. */
  lemma CorrectedRouletteUnbiased(p: real)
    requires 0.0 <= p < 1.0
    ensures ExpectedWeight(Corrected, p) == 1.0
  {
    assert (1.0 - p) * (1.0 / (1.0 - p)) == 1.0;
  }
}
