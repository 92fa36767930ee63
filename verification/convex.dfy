/** Code-generation helpers of the convex-intersection composite shape: its
    shared function names, the per-component parameter lists and call
    arguments, and the merge of the component functions. */
module ConvexIntersection {
  import opened Strings
  import opened Vectors
  import Tr = Tracer

  /** The component classes a composite can be built from. */
  datatype ComponentKind =
    | HalfSpaceComponent
    | LayerComponent
    | SphereComponent
    | CylinderComponent
    | ConeComponent

  function ClassName(k: ComponentKind): string {
    match k
    case HalfSpaceComponent => "HalfSpaceComponent"
    case LayerComponent => "LayerComponent"
    case SphereComponent => "SphereComponent"
    case CylinderComponent => "CylinderComponent"
    case ConeComponent => "ConeComponent"
  }

  datatype ParamValue = VectorValue(v: Vec3) | ScalarValue(r: real)

  /** A component: its class, its position relative to the composite's
      origin, its parameter names, declarations and values, and the tracer
      description its own functions are generated from. */
  datatype Component = Component(
    kind: ComponentKind,
    position: Vec3,
    paramNames: seq<string>,
    paramDecls: seq<string>,
    paramValues: seq<ParamValue>,
    tracer: Tr.Tracer)

  /** A composite shape: its own tracer description (class name and unique
      id) and its ordered components. */
  datatype Composite = Composite(base: Tr.Tracer, origin: Vec3, components: seq<Component>)

  function ClassNames(cs: seq<Component>): (r: seq<string>)
    ensures |r| == |cs|
    ensures forall i :: 0 <= i < |cs| ==> r[i] == ClassName(cs[i].kind)
  {
    if |cs| == 0 then [] else [ClassName(cs[0].kind)] + ClassNames(cs[1..])
  }

  function Kinds(cs: seq<Component>): (r: seq<ComponentKind>)
    ensures |r| == |cs|
    ensures forall i :: 0 <= i < |cs| ==> r[i] == cs[i].kind
  {
    if |cs| == 0 then [] else [cs[0].kind] + Kinds(cs[1..])
  }

  /** `'_' + '_'.join(class names)`. */
  function UniqueTracerId(cs: seq<Component>): string {
    "_" + Join("_", ClassNames(cs))
  }

  /** The composite built by `ConvexIntersection.__init__`. */
  function MakeConvexIntersection(base: Tr.Tracer, origin: Vec3, cs: seq<Component>): (c: Composite)
    ensures c.base.uniqueId == UniqueTracerId(cs)
    ensures c.base.className == base.className && c.components == cs && c.origin == origin
  {
    Composite(base.(uniqueId := UniqueTracerId(cs)), origin, cs)
  }

  lemma ClassNameShape(k: ComponentKind)
    ensures |ClassName(k)| > 0 && '_' !in ClassName(k)
  {
  }

  lemma ClassNameInjective(a: ComponentKind, b: ComponentKind)
    requires ClassName(a) == ClassName(b)
    ensures a == b
  {
    assert ClassName(a)[0] == ClassName(b)[0];
    assert |ClassName(a)| == |ClassName(b)|;
  }

  /** Joining non-empty, separator-free parts is injective. */
  lemma {:induction false} JoinInjective(sep: char, p: seq<string>, q: seq<string>)
    requires forall i :: 0 <= i < |p| ==> |p[i]| > 0 && sep !in p[i]
    requires forall i :: 0 <= i < |q| ==> |q[i]| > 0 && sep !in q[i]
    requires Join([sep], p) == Join([sep], q)
    ensures p == q
    decreases |p|
  {
    var j := Join([sep], p);
    if |p| == 0 || |q| == 0 || |p| == 1 || |q| == 1 {
    } else {
      assert j == p[0] + [sep] + Join([sep], p[1..]);
      assert j == q[0] + [sep] + Join([sep], q[1..]);
      FirstSeparator(sep, p[0], Join([sep], p[1..]));
      FirstSeparator(sep, q[0], Join([sep], q[1..]));
      assert p[0] == j[..|p[0]|] == q[0];
      assert Join([sep], p[1..]) == j[|p[0]| + 1..] == Join([sep], q[1..]);
      JoinInjective(sep, p[1..], q[1..]);
      assert p == [p[0]] + p[1..];
      assert q == [q[0]] + q[1..];
    }
  }

  lemma FirstSeparator(sep: char, a: string, rest: string)
    requires sep !in a
    ensures Find(a + [sep] + rest, sep) == |a|
  {
    var s := a + [sep] + rest;
    assert s[|a|] == sep;
    assert s[..|a|] == a;
  }

  /** Two composites get the same unique id exactly when their components
      have the same class sequence; so composites with equal class
      sequences share generated functions and no others do. */
  lemma UniqueIdIffSameClasses(a: seq<Component>, b: seq<Component>)
    ensures UniqueTracerId(a) == UniqueTracerId(b) <==> Kinds(a) == Kinds(b)
  {
    var pa := ClassNames(a);
    var pb := ClassNames(b);
    if UniqueTracerId(a) == UniqueTracerId(b) {
      assert Join("_", pa) == UniqueTracerId(a)[1..] == Join("_", pb);
      forall i | 0 <= i < |pa| ensures |pa[i]| > 0 && '_' !in pa[i] {
        ClassNameShape(a[i].kind);
      }
      forall i | 0 <= i < |pb| ensures |pb[i]| > 0 && '_' !in pb[i] {
        ClassNameShape(b[i].kind);
      }
      JoinInjective('_', pa, pb);
      forall i | 0 <= i < |a| ensures Kinds(a)[i] == Kinds(b)[i] {
        ClassNameInjective(a[i].kind, b[i].kind);
      }
    }
    if Kinds(a) == Kinds(b) {
      assert pa == pb;
    }
  }

  /** Parameter names of component `idx`, each suffixed with `_idx`. */
  function Suffixed(names: seq<string>, idx: nat): (r: seq<string>)
    ensures |r| == |names|
    ensures forall j :: 0 <= j < |names| ==> r[j] == names[j] + "_" + NatToString(idx)
  {
    seq(|names|, j requires 0 <= j < |names| => names[j] + "_" + NatToString(idx))
  }

  /** `', '.join([''] + params)`: empty when the component has no
      parameters, otherwise each suffixed name preceded by ", ". */
  function ComponentParameterString(cs: seq<Component>, idx: nat): (r: string)
    requires idx < |cs|
    ensures |cs[idx].paramNames| == 0 ==> r == ""
    ensures |cs[idx].paramNames| > 0 ==>
      r == ", " + Join(", ", Suffixed(cs[idx].paramNames, idx))
  {
    var params := Suffixed(cs[idx].paramNames, idx);
    assert |params| > 0 ==> ([""] + params)[1..] == params;
    Join(", ", [""] + params)
  }

  /** Arguments of the call to component `idx`'s tracer inside the
      composite's tracer. */
  function ComponentTracerCallParams(cs: seq<Component>, idx: nat): string
    requires idx < |cs|
  {
    "rel - _pos_" + NatToString(idx) + ", " + "ray, &cur_ibegin, &cur_iend, &cur_subobj, inside"
      + ComponentParameterString(cs, idx)
  }

  /** Arguments of the call to component `idx`'s normal function: the
      subobject number is rebased by the component's subobject offset. */
  function ComponentNormalCallParams(cs: seq<Component>, idx: nat, subobjectOffset: int): string
    requires idx < |cs|
  {
    "p - _pos_" + NatToString(idx) + ", " + "subobject - " + IntToString(subobjectOffset) + ", p_normal"
      + ComponentParameterString(cs, idx)
  }

  /** Both generated calls to a component pass the component's position
      shift first and end with the same suffixed parameter list, so the
      tracer and the normal routine of one component see the same
      parameters. */
  lemma CallParamsShareParameters(cs: seq<Component>, idx: nat, subobjectOffset: int)
    requires idx < |cs|
    ensures StartsWith(ComponentTracerCallParams(cs, idx), "rel - _pos_" + NatToString(idx) + ", ")
    ensures StartsWith(ComponentNormalCallParams(cs, idx, subobjectOffset), "p - _pos_" + NatToString(idx) + ", ")
    ensures var ps := ComponentParameterString(cs, idx);
      var t := ComponentTracerCallParams(cs, idx);
      var n := ComponentNormalCallParams(cs, idx, subobjectOffset);
      |ps| <= |t| && |ps| <= |n| && t[|t| - |ps|..] == ps && n[|n| - |ps|..] == ps
  {
    var i := NatToString(idx);
    var t := ComponentTracerCallParams(cs, idx);
    var n := ComponentNormalCallParams(cs, idx, subobjectOffset);
    var p1 := "rel - _pos_" + i + ", ";
    var p2 := "p - _pos_" + i + ", ";
    assert t == p1 + "ray, &cur_ibegin, &cur_iend, &cur_subobj, inside" + ComponentParameterString(cs, idx);
    assert t[..|p1|] == p1;
    assert n == p2 + "subobject - " + IntToString(subobjectOffset) + ", p_normal" + ComponentParameterString(cs, idx);
    assert n[..|p2|] == p2;
  }

  /** The declarations one component contributes: its position, then its
      own declarations suffixed with its index. */
  function DeclBlock(c: Component, i: nat): (r: seq<string>)
    ensures |r| == 1 + |c.paramDecls|
    ensures r[0] == "float3 _pos_" + NatToString(i)
    ensures forall j :: 1 <= j < |r| ==> r[j] == c.paramDecls[j - 1] + "_" + NatToString(i)
  {
    ["float3 _pos_" + NatToString(i)] + Suffixed(c.paramDecls, i)
  }

  /** The values one component contributes: its position, then its values. */
  function ValueBlock(c: Component): (r: seq<ParamValue>)
    ensures |r| == 1 + |c.paramValues|
    ensures r[0] == VectorValue(c.position)
    ensures forall j :: 1 <= j < |r| ==> r[j] == c.paramValues[j - 1]
  {
    [VectorValue(c.position)] + c.paramValues
  }

  /** Total number of declarations: one position per component plus its
      own declarations. */
  function DeclCount(cs: seq<Component>): nat {
    if |cs| == 0 then 0 else DeclCount(cs[..|cs| - 1]) + 1 + |cs[|cs| - 1].paramDecls|
  }

  function ParameterDeclarations(cs: seq<Component>): (r: seq<string>)
    ensures |r| == DeclCount(cs)
  {
    if |cs| == 0 then []
    else ParameterDeclarations(cs[..|cs| - 1]) + DeclBlock(cs[|cs| - 1], |cs| - 1)
  }

  function ParameterValues(cs: seq<Component>): seq<ParamValue> {
    if |cs| == 0 then []
    else ParameterValues(cs[..|cs| - 1]) + ValueBlock(cs[|cs| - 1])
  }

  predicate Aligned(cs: seq<Component>) {
    forall i :: 0 <= i < |cs| ==> |cs[i].paramValues| == |cs[i].paramDecls|
  }

  /** Component `i`'s declarations occupy positions
      `DeclCount(cs[..i]) ..` of the flat declaration list. */
  lemma {:induction false} DeclarationsAt(cs: seq<Component>, i: nat, j: nat)
    requires i < |cs| && j <= |cs[i].paramDecls|
    ensures DeclCount(cs[..i]) + j < |ParameterDeclarations(cs)|
    ensures ParameterDeclarations(cs)[DeclCount(cs[..i]) + j] == DeclBlock(cs[i], i)[j]
    decreases |cs|
  {
    var n := |cs| - 1;
    var init := cs[..n];
    assert |ParameterDeclarations(init)| == DeclCount(init);
    if i == n {
      assert cs[..i] == init;
    } else {
      assert init[..i] == cs[..i];
      DeclarationsAt(init, i, j);
    }
  }

  /** With aligned components, the value list has the same length as the
      declaration list and the values of component `i` sit at the same
      positions as its declarations. */
  lemma {:induction false} ValuesAlignWithDeclarations(cs: seq<Component>, i: nat, j: nat)
    requires Aligned(cs)
    requires i < |cs| && j <= |cs[i].paramDecls|
    ensures |ParameterValues(cs)| == |ParameterDeclarations(cs)|
    ensures DeclCount(cs[..i]) + j < |ParameterValues(cs)|
    ensures ParameterValues(cs)[DeclCount(cs[..i]) + j] == ValueBlock(cs[i])[j]
    ensures ParameterDeclarations(cs)[DeclCount(cs[..i]) + j] == DeclBlock(cs[i], i)[j]
    decreases |cs|
  {
    var n := |cs| - 1;
    var init := cs[..n];
    ValuesLength(cs);
    ValuesLength(init);
    DeclarationsAt(cs, i, j);
    var prev := ParameterValues(init);
    assert ParameterValues(cs) == prev + ValueBlock(cs[n]);
    if i == n {
      assert cs[..i] == init;
      assert (prev + ValueBlock(cs[n]))[|prev| + j] == ValueBlock(cs[n])[j];
    } else {
      assert init[..i] == cs[..i];
      assert Aligned(init) by {
        assert forall k :: 0 <= k < |init| ==> init[k] == cs[k];
      }
      ValuesAlignWithDeclarations(init, i, j);
      assert (prev + ValueBlock(cs[n]))[DeclCount(cs[..i]) + j] == prev[DeclCount(cs[..i]) + j];
    }
  }

  lemma {:induction false} ValuesLength(cs: seq<Component>)
    requires Aligned(cs)
    ensures |ParameterValues(cs)| == DeclCount(cs)
    decreases |cs|
  {
    if |cs| > 0 {
      ValuesLength(cs[..|cs| - 1]);
    }
  }

  /** `dict(funcs.items() + subfuncs.items())` folded over the components:
      later maps win on equal names. */
  function MergeFunctions(own: map<string, string>, subs: seq<map<string, string>>): map<string, string> {
    if |subs| == 0 then own
    else MergeFunctions(own, subs[..|subs| - 1]) + subs[|subs| - 1]
  }

  /** A name is merged exactly when the composite or some component
      defines it. */
  lemma {:induction false} MergeKeys(own: map<string, string>, subs: seq<map<string, string>>, k: string)
    ensures k in MergeFunctions(own, subs) <==> k in own || exists i :: 0 <= i < |subs| && k in subs[i]
    decreases |subs|
  {
    if |subs| > 0 {
      var init := subs[..|subs| - 1];
      MergeKeys(own, init, k);
      if exists i :: 0 <= i < |init| && k in init[i] {
        var i :| 0 <= i < |init| && k in init[i];
        assert k in subs[i];
      }
      if exists i :: 0 <= i < |subs| && k in subs[i] {
        var i :| 0 <= i < |subs| && k in subs[i];
        if i < |init| {
          assert k in init[i];
        }
      }
    }
  }

  /** The body of a merged name comes from the last component defining it. */
  lemma {:induction false} MergeTakesLast(own: map<string, string>, subs: seq<map<string, string>>, i: nat, k: string)
    requires i < |subs| && k in subs[i]
    requires forall j :: i < j < |subs| ==> k !in subs[j]
    ensures k in MergeFunctions(own, subs) && MergeFunctions(own, subs)[k] == subs[i][k]
    decreases |subs|
  {
    var init := subs[..|subs| - 1];
    if i < |subs| - 1 {
      assert init[i] == subs[i];
      MergeTakesLast(own, init, i, k);
    }
  }

  /** A name no component defines keeps the composite's own body. */
  lemma {:induction false} MergeKeepsOwn(own: map<string, string>, subs: seq<map<string, string>>, k: string)
    requires k in own
    requires forall j :: 0 <= j < |subs| ==> k !in subs[j]
    ensures k in MergeFunctions(own, subs) && MergeFunctions(own, subs)[k] == own[k]
    decreases |subs|
  {
    if |subs| > 0 {
      var init := subs[..|subs| - 1];
      assert forall j :: 0 <= j < |init| ==> init[j] == subs[j];
      MergeKeepsOwn(own, init, k);
    }
  }

  function ComponentFunctionMaps(cs: seq<Component>): (r: seq<map<string, string>>)
    ensures |r| == |cs|
    ensures forall i :: 0 <= i < |cs| ==> r[i] == Tr.MakeFunctions(cs[i].tracer)
  {
    seq(|cs|, i requires 0 <= i < |cs| => Tr.MakeFunctions(cs[i].tracer))
  }

  /** The functions a composite contributes: its own pair plus every
      component's pair. */
  function MakeFunctions(c: Composite): (r: map<string, string>)
    ensures Tr.TracerFunctionName(c.base) in r && Tr.NormalFunctionName(c.base) in r
    ensures forall i :: 0 <= i < |c.components| ==>
      Tr.TracerFunctionName(c.components[i].tracer) in r
      && Tr.NormalFunctionName(c.components[i].tracer) in r
  {
    var subs := ComponentFunctionMaps(c.components);
    var own := Tr.MakeFunctions(c.base);
    MergeKeys(own, subs, Tr.TracerFunctionName(c.base));
    MergeKeys(own, subs, Tr.NormalFunctionName(c.base));
    forall i | 0 <= i < |c.components|
      ensures Tr.TracerFunctionName(c.components[i].tracer) in MergeFunctions(own, subs)
      ensures Tr.NormalFunctionName(c.components[i].tracer) in MergeFunctions(own, subs)
    {
      MergeKeys(own, subs, Tr.TracerFunctionName(c.components[i].tracer));
      MergeKeys(own, subs, Tr.NormalFunctionName(c.components[i].tracer));
    }
    MergeFunctions(own, subs)
  }

  /** The template is frozen to "ConvexIntersection" whatever the subclass. */
  function TemplateName(c: Composite): string {
    "ConvexIntersection"
  }

  function IsConvex(c: Composite): bool {
    true
  }

  lemma TemplateAndConvexityFixed(a: Composite, b: Composite)
    ensures TemplateName(a) == TemplateName(b) == "ConvexIntersection"
    ensures IsConvex(a) && IsConvex(b)
  {
  }
}
