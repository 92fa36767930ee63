/** `Renderer._collect_tracer_data`: every object's extra data arrays and
    parameter values are packed into five shared buffers, one per data
    kind, and each object gets a row of five offsets telling its kernels
    where its data starts. The rows are appended to the integer parameter
    buffer after the parameters themselves. */
module TracerData {
  import opened Wrappers

  /** The data kinds, in the order of the offset rows. */
  const DataItems: seq<string> := ["vector", "integer", "param_float3", "param_int", "param_float"]

  const Kinds: nat := 5
  const ParamIntKind: nat := 3

  /** `vector` and `param_float3` data are counted in rows of three. */
  predicate IsVectorKind(d: nat) {
    d == 0 || d == 2
  }

  // ---------------------------------------------------------------------
  // numpy arrays.

  function Product(s: seq<nat>): nat {
    if |s| == 0 then 1 else s[0] * Product(s[1..])
  }

  lemma ProductOne(k: nat)
    ensures Product([k]) == k
  {
    assert [k][1..] == [];
  }

  lemma ProductTwo(k: nat, m: nat)
    ensures Product([k, m]) == k * m
  {
    assert [k, m][1..] == [m];
    ProductOne(m);
  }

  datatype RawArray = RawArray(shape: seq<nat>, flat: seq<real>)

  /** An array: its shape and its elements in row-major order. */
  type NdArray = a: RawArray | |a.flat| == Product(a.shape) witness RawArray([], [0.0])

  /** A parameter value: a number or a tuple of numbers. */
  datatype ParamValue = Scalar(x: real) | Tuple(xs: seq<real>)

  predicate AllScalars(ps: seq<ParamValue>) {
    forall i :: 0 <= i < |ps| ==> ps[i].Scalar?
  }

  predicate AllTuplesOf(ps: seq<ParamValue>, m: nat) {
    forall i :: 0 <= i < |ps| ==> ps[i].Tuple? && |ps[i].xs| == m
  }

  function Scalars(ps: seq<ParamValue>): (r: seq<real>)
    requires AllScalars(ps)
    ensures |r| == |ps| && forall i :: 0 <= i < |ps| ==> r[i] == ps[i].x
  {
    if |ps| == 0 then [] else [ps[0].x] + Scalars(ps[1..])
  }

  function Concat(ps: seq<ParamValue>, m: nat): (r: seq<real>)
    requires AllTuplesOf(ps, m)
    ensures |r| == |ps| * m
  {
    if |ps| == 0 then [] else ps[0].xs + Concat(ps[1..], m)
  }

  /** `np.array(params)`: numbers make a vector, tuples of one length a
      matrix with one row per tuple; a mixture has no rectangular shape. */
  function ParamArray(ps: seq<ParamValue>): (r: Result<NdArray>)
    ensures r.Ok? <==> AllScalars(ps) || (|ps| > 0 && ps[0].Tuple? && AllTuplesOf(ps, |ps[0].xs|))
    ensures r.Ok? && AllScalars(ps) ==> r.value.shape == [|ps|] && r.value.flat == Scalars(ps)
    ensures r.Ok? && !AllScalars(ps) ==> r.value.shape == [|ps|, |ps[0].xs|]
    ensures r.Err? ==> r.exception.ValueError?
  {
    if AllScalars(ps) then
      ProductOne(|ps|);
      Ok(RawArray([|ps|], Scalars(ps)))
    else if ps[0].Tuple? && AllTuplesOf(ps, |ps[0].xs|) then
      var m := |ps[0].xs|;
      ProductTwo(|ps|, m);
      Ok(RawArray([|ps|, m], Concat(ps, m)))
    else Err(ValueError("setting an array element with a sequence"))
  }

  // ---------------------------------------------------------------------
  // Parameters grouped by type.

  /** How many of `types` equal `t`. */
  function CountOf(types: seq<string>, t: string): nat {
    if |types| == 0 then 0 else (if types[0] == t then 1 else 0) + CountOf(types[1..], t)
  }

  /** The values whose parameter has type `t`, in order. */
  function ValuesOfType(types: seq<string>, values: seq<ParamValue>, t: string): seq<ParamValue>
    requires |types| <= |values|
  {
    if |types| == 0 then []
    else (if types[0] == t then [values[0]] else []) + ValuesOfType(types[1..], values[1..], t)
  }

  /** The loop over the parameters: each one's position among the earlier
      parameters of its type, and the values grouped by type. */
  function LocalParams(types: seq<string>, values: seq<ParamValue>)
    : (r: (seq<nat>, map<string, seq<ParamValue>>))
    requires |types| <= |values|
    decreases |types|
  {
    if |types| == 0 then ([], map[])
    else
      var n := |types| - 1;
      var (offsets, byType) := LocalParams(types[..n], values);
      var t := types[n];
      var before := if t in byType then byType[t] else [];
      (offsets + [|before|], byType[t := before + [values[n]]])
  }

  /** A parameter's local offset counts the earlier parameters of its
      type. */
  lemma {:induction false} LocalOffsetsCount(types: seq<string>, values: seq<ParamValue>)
    requires |types| <= |values|
    ensures var offsets := LocalParams(types, values).0;
      && |offsets| == |types|
      && forall p :: 0 <= p < |types| ==> offsets[p] == CountOf(types[..p], types[p])
    decreases |types|
  {
    if |types| > 0 {
      var n := |types| - 1;
      var (offsets, byType) := LocalParams(types[..n], values);
      LocalOffsetsCount(types[..n], values);
      LocalGroupsValues(types[..n], values);
      var t := types[n];
      forall p | 0 <= p < n
        ensures types[..p] == types[..n][..p]
      {
      }
      if t in byType {
        CountOfValues(types[..n], values, t);
      } else {
        CountOfAbsent(types[..n], t);
      }
    }
  }

  /** The types present are exactly the keys, and each maps to its values
      in order. */
  lemma {:induction false} LocalGroupsValues(types: seq<string>, values: seq<ParamValue>)
    requires |types| <= |values|
    ensures var byType := LocalParams(types, values).1;
      && (forall t :: t in byType <==> t in types)
      && (forall t :: t in byType ==> byType[t] == ValuesOfType(types, values, t))
    decreases |types|
  {
    if |types| > 0 {
      var n := |types| - 1;
      var byType := LocalParams(types[..n], values).1;
      LocalGroupsValues(types[..n], values);
      var t := types[n];
      assert types == types[..n] + [t];
      forall u | u in LocalParams(types, values).1
        ensures LocalParams(types, values).1[u] == ValuesOfType(types, values, u)
      {
        ValuesOfTypeSnoc(types, values, u);
        if u == t && t !in byType {
          ValuesOfTypeAbsent(types[..n], values, t);
        }
      }
    }
  }

  lemma {:induction false} ValuesOfTypeAbsent(types: seq<string>, values: seq<ParamValue>, t: string)
    requires |types| <= |values| && t !in types
    ensures ValuesOfType(types, values, t) == []
    decreases |types|
  {
    if |types| > 0 {
      ValuesOfTypeAbsent(types[1..], values[1..], t);
    }
  }

  lemma {:induction false} ValuesOfTypeSnoc(types: seq<string>, values: seq<ParamValue>, t: string)
    requires 0 < |types| <= |values|
    ensures var n := |types| - 1;
      ValuesOfType(types, values, t)
        == ValuesOfType(types[..n], values, t) + (if types[n] == t then [values[n]] else [])
    decreases |types|
  {
    var n := |types| - 1;
    if n > 0 {
      ValuesOfTypeSnoc(types[1..], values[1..], t);
      assert types[1..][..n - 1] == types[..n][1..];
    }
  }

  lemma {:induction false} CountOfValues(types: seq<string>, values: seq<ParamValue>, t: string)
    requires |types| <= |values|
    ensures |ValuesOfType(types, values, t)| == CountOf(types, t)
    decreases |types|
  {
    if |types| > 0 {
      CountOfValues(types[1..], values[1..], t);
    }
  }

  lemma {:induction false} CountOfAbsent(types: seq<string>, t: string)
    requires t !in types
    ensures CountOf(types, t) == 0
    decreases |types|
  {
    if |types| > 0 {
      CountOfAbsent(types[1..], t);
    }
  }

  // ---------------------------------------------------------------------
  // One object's data.

  /** What the collection reads from a tracer: `get_data()` when
      `has_data()` holds, and its parameter types and values. */
  datatype TracerInput = TracerInput(data: Option<map<string, NdArray>>, types: seq<string>, values: seq<ParamValue>)

  /** The data kind named `"param_" + t`; `None` when no kind has that
      name, which the collection's assertion rejects. */
  function ParamKind(t: string): (r: Option<nat>)
    ensures r.Some? ==> r.value < Kinds && DataItems[r.value] == "param_" + t
    ensures r.None? <==> "param_" + t !in DataItems
  {
    var name := "param_" + t;
    if DataItems[0] == name then Some(0)
    else if DataItems[1] == name then Some(1)
    else if DataItems[2] == name then Some(2)
    else if DataItems[3] == name then Some(3)
    else if DataItems[4] == name then Some(4)
    else None
  }

  /** The distinct types in order of first appearance: the order in which
      the grouped parameters are visited. */
  function FirstOccurrences(types: seq<string>): (r: seq<string>)
    ensures forall t :: t in r <==> t in types
    decreases |types|
  {
    if |types| == 0 then []
    else
      var n := |types| - 1;
      var rest := FirstOccurrences(types[..n]);
      assert types == types[..n] + [types[n]];
      if types[n] in rest then rest else rest + [types[n]]
  }

  /** The grouped parameters become the `param_` arrays: the type must name
      a data kind (an `AssertionError` otherwise) and the values must form
      an array. */
  function AddParams(cur: map<string, NdArray>, order: seq<string>, byType: map<string, seq<ParamValue>>)
    : (r: Result<map<string, NdArray>>)
    requires forall t :: t in order ==> t in byType
    ensures r.Ok? <==> forall t :: t in order ==> ParamKind(t).Some? && ParamArray(byType[t]).Ok?
    ensures r.Ok? ==> forall t :: t in order ==> "param_" + t in r.value
    ensures r.Ok? ==> forall k :: k in cur ==> k in r.value
    ensures r.Ok? ==> forall k :: k in r.value && k !in cur ==> exists t :: t in order && k == "param_" + t
    decreases |order|
  {
    if |order| == 0 then Ok(cur)
    else
      var t := order[0];
      match ParamKind(t)
      case None => Err(AssertionError)
      case Some(d) =>
        match ParamArray(byType[t])
        case Err(e) => Err(e)
        case Ok(a) =>
          var next := AddParams(cur[DataItems[d] := a], order[1..], byType);
          assert forall u :: u in order <==> u == t || u in order[1..];
          next
  }

  /** One object's local parameter offsets and its data by kind. */
  datatype ObjectData = ObjectData(localOffsets: seq<nat>, cur: map<string, NdArray>)

  /** The first half of the loop body: group the parameters and lay the
      `param_` arrays over the object's own data. Indexing the values with
      every parameter position raises `IndexError` when there are fewer
      values than types. */
  function CurData(obj: TracerInput): (r: Result<ObjectData>)
    ensures r.Ok? <==>
      && |obj.types| <= |obj.values|
      && forall t :: t in obj.types ==> ParamKind(t).Some? && ParamArray(ValuesOfType(obj.types, obj.values, t)).Ok?
    ensures |obj.values| < |obj.types| ==> r == Err(IndexError)
    ensures r.Ok? ==> |r.value.localOffsets| == |obj.types|
  {
    if |obj.values| < |obj.types| then Err(IndexError)
    else
      var (offsets, byType) := LocalParams(obj.types, obj.values);
      LocalGroupsValues(obj.types, obj.values);
      LocalOffsetsCount(obj.types, obj.values);
      var base := if obj.data.Some? then obj.data.value else map[];
      match AddParams(base, FirstOccurrences(obj.types), byType)
      case Err(e) => Err(e)
      case Ok(cur) => Ok(ObjectData(offsets, cur))
  }

  /** How far one kind of data advances its running total: rows for vector
      data, which must be three wide, and elements otherwise; nothing when
      the object has none. */
  function ItemSize(cur: Option<NdArray>, d: nat): (r: Result<nat>)
    ensures cur.None? ==> r == Ok(0)
    ensures cur.Some? && !IsVectorKind(d) ==> r == Ok(|cur.value.flat|)
    ensures cur.Some? && IsVectorKind(d) ==>
      (r.Ok? <==> |cur.value.shape| >= 2 && cur.value.shape[1] == 3)
    ensures cur.Some? && IsVectorKind(d) && r.Ok? ==> r.value == cur.value.shape[0]
  {
    match cur
    case None => Ok(0)
    case Some(a) =>
      if IsVectorKind(d) then
        if |a.shape| < 2 then Err(IndexError)
        else if a.shape[1] != 3 then Err(RuntimeError("invalid vector data shape"))
        else Ok(a.shape[0])
      else Ok(|a.flat|)
  }

  function Lookup(cur: map<string, NdArray>, name: string): Option<NdArray> {
    if name in cur then Some(cur[name]) else None
  }

  /** The sizes of kinds `d` onwards, stopping at the first bad one. */
  function SizesFrom(cur: map<string, NdArray>, d: nat): (r: Result<seq<nat>>)
    requires d <= Kinds
    ensures r.Ok? <==> forall k :: d <= k < Kinds ==> ItemSize(Lookup(cur, DataItems[k]), k).Ok?
    ensures r.Ok? ==>
      && |r.value| == Kinds - d
      && forall k :: d <= k < Kinds ==> r.value[k - d] == ItemSize(Lookup(cur, DataItems[k]), k).value
    decreases Kinds - d
  {
    if d == Kinds then Ok([])
    else
      match ItemSize(Lookup(cur, DataItems[d]), d)
      case Err(e) => Err(e)
      case Ok(k) =>
        match SizesFrom(cur, d + 1)
        case Err(e) => Err(e)
        case Ok(rest) => Ok([k] + rest)
  }

  /** One amount, or one offset, per data kind. */
  type KindCounts = s: seq<nat> | |s| == Kinds witness [0, 0, 0, 0, 0]

  /** One object's contribution: its local offsets, its data and the
      amount of each kind of data it adds. */
  datatype Entry = Entry(localOffsets: seq<nat>, cur: map<string, NdArray>, sizes: KindCounts)

  function ObjectEntry(obj: TracerInput): (r: Result<Entry>)
    ensures r.Ok? <==> CurData(obj).Ok? && SizesFrom(CurData(obj).value.cur, 0).Ok?
  {
    match CurData(obj)
    case Err(e) => Err(e)
    case Ok(od) =>
      match SizesFrom(od.cur, 0)
      case Err(e) => Err(e)
      case Ok(sizes) => Ok(Entry(od.localOffsets, od.cur, sizes))
  }

  /** For the kinds counted in elements, an entry's size is the number of
      elements of its data of that kind. */
  predicate ElementSized(e: Entry) {
    forall d :: 0 <= d < Kinds && !IsVectorKind(d) ==>
      e.sizes[d] == (if DataItems[d] in e.cur then |e.cur[DataItems[d]].flat| else 0)
  }

  lemma ObjectEntryElementSized(obj: TracerInput)
    ensures ObjectEntry(obj).Ok? ==> ElementSized(ObjectEntry(obj).value)
  {
  }

  // ---------------------------------------------------------------------
  // All objects.

  /** The result of the collection: each object's offset row and local
      parameter offsets, the final totals, and the concatenated data of
      each kind. */
  datatype Collected = Collected(
    rows: seq<KindCounts>,
    totals: KindCounts,
    localOffsets: seq<seq<nat>>,
    buffers: seq<seq<real>>)

  const NoData: KindCounts := [0, 0, 0, 0, 0]

  function AddSizes(totals: KindCounts, sizes: KindCounts): (r: KindCounts)
    ensures forall d :: 0 <= d < Kinds ==> r[d] == totals[d] + sizes[d]
  {
    seq(Kinds, d requires 0 <= d < Kinds => totals[d] + sizes[d])
  }

  function AppendData(buffers: seq<seq<real>>, cur: map<string, NdArray>): (r: seq<seq<real>>)
    requires |buffers| == Kinds
    ensures |r| == Kinds
    ensures forall d :: 0 <= d < Kinds ==>
      r[d] == buffers[d] + (if DataItems[d] in cur then cur[DataItems[d]].flat else [])
  {
    seq(Kinds, d requires 0 <= d < Kinds =>
      buffers[d] + (if DataItems[d] in cur then cur[DataItems[d]].flat else []))
  }

  /** The loop over the objects, given each object's entry: each object's
      row is the totals before it, and its data is appended to the
      buffers; the first failing object's error ends the collection. */
  function CollectEntries(es: seq<Result<Entry>>): (r: Result<Collected>)
    ensures r.Ok? ==>
      && |r.value.rows| == |es| && |r.value.localOffsets| == |es| && |r.value.buffers| == Kinds
    decreases |es|
  {
    if |es| == 0 then Ok(Collected([], NoData, [], [[], [], [], [], []]))
    else
      var n := |es| - 1;
      match CollectEntries(es[..n])
      case Err(e) => Err(e)
      case Ok(c) =>
        match es[n]
        case Err(e) => Err(e)
        case Ok(entry) => Ok(Step(c, entry))
  }

  /** One pass of the loop: the object's row is the current totals. */
  function Step(c: Collected, entry: Entry): Collected
    requires |c.buffers| == Kinds
  {
    Collected(
      c.rows + [c.totals],
      AddSizes(c.totals, entry.sizes),
      c.localOffsets + [entry.localOffsets],
      AppendData(c.buffers, entry.cur))
  }

  lemma CollectStep(es: seq<Result<Entry>>)
    requires |es| > 0 && CollectEntries(es).Ok?
    ensures var n := |es| - 1;
      && CollectEntries(es[..n]).Ok? && es[n].Ok?
      && CollectEntries(es).value == Step(CollectEntries(es[..n]).value, es[n].value)
  {
  }

  function Entries(objs: seq<TracerInput>): (r: seq<Result<Entry>>)
    ensures |r| == |objs| && forall i :: 0 <= i < |objs| ==> r[i] == ObjectEntry(objs[i])
  {
    seq(|objs|, i requires 0 <= i < |objs| => ObjectEntry(objs[i]))
  }

  /** `_collect_tracer_data` up to the device upload. */
  function Collect(objs: seq<TracerInput>): Result<Collected> {
    CollectEntries(Entries(objs))
  }

  /** The offset at which the pointer rows start in the integer parameter
      buffer: the number of integer parameters of all objects. */
  function PointerOffset(c: Collected): nat {
    c.totals[ParamIntKind]
  }

  /** The rows written one after the other: `values += rows` followed by
      `np.concatenate`. */
  function Flatten(rows: seq<KindCounts>): (r: seq<real>)
    ensures |r| == Kinds * |rows|
  {
    if |rows| == 0 then []
    else seq(Kinds, k requires 0 <= k < Kinds => rows[0][k] as real) + Flatten(rows[1..])
  }

  /** Entry `d` of row `i` sits at `5 * i + d`. */
  lemma {:induction false} FlattenAt(rows: seq<KindCounts>, i: nat, d: nat)
    requires i < |rows| && d < Kinds
    ensures Flatten(rows)[Kinds * i + d] == rows[i][d] as real
    decreases |rows|
  {
    if i > 0 {
      FlattenAt(rows[1..], i - 1, d);
      assert rows[1..][i - 1] == rows[i];
    }
  }

  /** The integer parameter buffer: every object's integer parameters, then
      the offset rows. */
  function IntParamBuffer(c: Collected): seq<real>
    requires |c.buffers| == Kinds
  {
    c.buffers[ParamIntKind] + Flatten(c.rows)
  }

  // ---------------------------------------------------------------------
  // Properties of the collection.

  /** The collection succeeds exactly when every object's entry does. */
  lemma {:induction false} CollectOk(es: seq<Result<Entry>>)
    ensures CollectEntries(es).Ok? <==> forall i :: 0 <= i < |es| ==> es[i].Ok?
    decreases |es|
  {
    if |es| > 0 {
      var n := |es| - 1;
      CollectOk(es[..n]);
      assert forall i :: 0 <= i < n ==> es[..n][i] == es[i];
    }
  }

  /** The error is that of the first object that fails. */
  lemma {:induction false} CollectFirstError(es: seq<Result<Entry>>, i: nat)
    requires i < |es| && es[i].Err?
    requires forall j :: 0 <= j < i ==> es[j].Ok?
    ensures CollectEntries(es) == Err(es[i].exception)
    decreases |es|
  {
    var n := |es| - 1;
    if i < n {
      CollectFirstError(es[..n], i);
    } else {
      CollectOk(es[..n]);
      assert forall j :: 0 <= j < n ==> es[..n][j] == es[j];
    }
  }

  /** The collection of a prefix is the start of the collection: its rows
      and buffers are prefixes, and the next row is its totals. */
  lemma {:induction false} CollectPrefix(es: seq<Result<Entry>>, k: nat)
    requires k <= |es| && CollectEntries(es).Ok?
    ensures var c := CollectEntries(es); var p := CollectEntries(es[..k]);
      && p.Ok?
      && p.value.rows == c.value.rows[..k]
      && (k < |es| ==> c.value.rows[k] == p.value.totals)
      && (forall d :: 0 <= d < Kinds ==> p.value.buffers[d] <= c.value.buffers[d])
    decreases |es|
  {
    var n := |es| - 1;
    if k == |es| {
      assert es[..k] == es;
    } else {
      CollectPrefix(es[..n], k);
      assert es[..n][..k] == es[..k];
    }
  }

  /** Each object's offsets are the totals before it: the first row is all
      zeros, and each later row (and finally the totals) adds the previous
      object's sizes. */
  lemma {:induction false} RowStep(es: seq<Result<Entry>>, k: nat)
    requires CollectEntries(es).Ok? && k < |es|
    ensures es[k].Ok?
    ensures var c := CollectEntries(es).value;
      && (k == 0 ==> c.rows[0] == NoData)
      && (if k + 1 < |es| then c.rows[k + 1] else c.totals) == AddSizes(c.rows[k], es[k].value.sizes)
    decreases |es|
  {
    var n := |es| - 1;
    CollectStep(es);
    if k < n {
      RowStep(es[..n], k);
      assert es[..n][k] == es[k];
    } else if n == 0 {
      assert es[..n] == [];
    }
  }

  /** The offsets of each kind never decrease from one object to the next. */
  lemma {:induction false} RowsMonotone(es: seq<Result<Entry>>, i: nat, j: nat, d: nat)
    requires CollectEntries(es).Ok? && i <= j < |es| && d < Kinds
    ensures CollectEntries(es).value.rows[i][d] <= CollectEntries(es).value.rows[j][d]
    decreases j - i
  {
    if i < j {
      var c := CollectEntries(es).value;
      RowStep(es, i);
      var next := AddSizes(c.rows[i], es[i].value.sizes);
      assert c.rows[i + 1] == next;
      assert next[d] == c.rows[i][d] + es[i].value.sizes[d];
      RowsMonotone(es, i + 1, j, d);
    }
  }

  /** For the kinds counted in elements, the buffer holds exactly as many
      values as the totals say. */
  lemma {:induction false} BufferLength(es: seq<Result<Entry>>, d: nat)
    requires CollectEntries(es).Ok? && d < Kinds && !IsVectorKind(d)
    requires forall i :: 0 <= i < |es| && es[i].Ok? ==> ElementSized(es[i].value)
    ensures |CollectEntries(es).value.buffers[d]| == CollectEntries(es).value.totals[d]
    decreases |es|
  {
    if |es| > 0 {
      var n := |es| - 1;
      assert forall i :: 0 <= i < n ==> es[..n][i] == es[i];
      BufferLength(es[..n], d);
    }
  }

  /** An object's data of a kind counted in elements sits in the buffer at
      the object's offset for that kind. */
  lemma DataLocated(es: seq<Result<Entry>>, i: nat, d: nat)
    requires CollectEntries(es).Ok? && i < |es| && d < Kinds && !IsVectorKind(d)
    requires forall j :: 0 <= j < |es| && es[j].Ok? ==> ElementSized(es[j].value)
    requires es[i].Ok? && DataItems[d] in es[i].value.cur
    ensures var c := CollectEntries(es).value; var flat := es[i].value.cur[DataItems[d]].flat;
      && c.rows[i][d] + |flat| <= |c.buffers[d]|
      && c.buffers[d][c.rows[i][d]..c.rows[i][d] + |flat|] == flat
  {
    var c := CollectEntries(es).value;
    var flat := es[i].value.cur[DataItems[d]].flat;
    CollectPrefix(es, i);
    CollectPrefix(es, i + 1);
    var before := CollectEntries(es[..i]).value;
    var after := CollectEntries(es[..i + 1]).value;
    assert es[..i + 1][..i] == es[..i];
    assert forall j :: 0 <= j < i ==> es[..i][j] == es[j];
    BufferLength(es[..i], d);
    assert after.buffers[d] == before.buffers[d] + flat;
  }

  /** The offset rows follow the integer parameters: entry `d` of object
      `i`'s row is at `PointerOffset + 5 * i + d`. */
  lemma PointerRowsLocated(es: seq<Result<Entry>>, i: nat, d: nat)
    requires CollectEntries(es).Ok? && i < |es| && d < Kinds
    requires forall j :: 0 <= j < |es| && es[j].Ok? ==> ElementSized(es[j].value)
    ensures var c := CollectEntries(es).value;
      && PointerOffset(c) + Kinds * i + d < |IntParamBuffer(c)|
      && IntParamBuffer(c)[PointerOffset(c) + Kinds * i + d] == c.rows[i][d] as real
  {
    var c := CollectEntries(es).value;
    BufferLength(es, ParamIntKind);
    FlattenAt(c.rows, i, d);
  }

  /** The entries of real objects are sized by elements, so the lemmas
      above apply to `Collect`. */
  lemma EntriesElementSized(objs: seq<TracerInput>)
    ensures forall i :: 0 <= i < |objs| && Entries(objs)[i].Ok? ==> ElementSized(Entries(objs)[i].value)
  {
    forall i | 0 <= i < |objs| && Entries(objs)[i].Ok?
      ensures ElementSized(Entries(objs)[i].value)
    {
      ObjectEntryElementSized(objs[i]);
    }
  }
}
