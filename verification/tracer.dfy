/** The shape-independent part of the code generator: how a shape's OpenCL
    intersection ("tracer") and normal functions are named, declared and
    called. */
module Tracer {
  import opened Strings

  /** What a shape class contributes to code generation. The extra argument
      values are kept as the text `str()` gives them. */
  datatype Tracer = Tracer(
    className: string,
    uniqueId: string,
    extraTracerDefs: seq<string>,
    extraNormalDefs: seq<string>,
    extraTracerArgs: seq<string>,
    extraNormalArgs: seq<string>,
    tracerCode: string,
    normalCode: string)

  /** Parameters every tracer function takes, in order. */
  const BaseTracerArgumentDefinitions: seq<string> := [
    "const float3 origin",
    "const float3 ray",
    "const float3 last_normal",
    "const float old_isec_dist",
    "__private float *p_new_isec_dist",
    "__private uint *p_subobject",
    "bool inside",
    "bool origin_self"]

  /** Parameters every normal function takes, in order. */
  const BaseNormalArgumentDefinitions: seq<string> := [
    "const float3 pos",
    "const uint subobject",
    "__global float3 *p_normal"]

  function FunctionNamePrefix(t: Tracer): string {
    t.className + t.uniqueId
  }

  function TracerFunctionName(t: Tracer): string {
    FunctionNamePrefix(t) + "_tracer"
  }

  function NormalFunctionName(t: Tracer): string {
    FunctionNamePrefix(t) + "_normal"
  }

  lemma SuffixCancel(a: string, b: string, s: string)
    requires a + s == b + s
    ensures a == b
  {
    assert |a| == |b|;
    assert a == (a + s)[..|a|];
    assert b == (b + s)[..|b|];
  }

  /** Tracer names coincide exactly when the prefixes (class name followed
      by the unique id) do, and likewise for normal names; so two instances
      of one class with equal ids share their functions. */
  lemma NamesDeterminedByPrefix(a: Tracer, b: Tracer)
    ensures TracerFunctionName(a) == TracerFunctionName(b) <==> FunctionNamePrefix(a) == FunctionNamePrefix(b)
    ensures NormalFunctionName(a) == NormalFunctionName(b) <==> FunctionNamePrefix(a) == FunctionNamePrefix(b)
  {
    if TracerFunctionName(a) == TracerFunctionName(b) {
      SuffixCancel(FunctionNamePrefix(a), FunctionNamePrefix(b), "_tracer");
    }
    if NormalFunctionName(a) == NormalFunctionName(b) {
      SuffixCancel(FunctionNamePrefix(a), FunctionNamePrefix(b), "_normal");
    }
  }

  /** No tracer function name of any shape equals the normal function name
      of any shape. */
  lemma TracerAndNormalNamesDiffer(a: Tracer, b: Tracer)
    ensures TracerFunctionName(a) != NormalFunctionName(b)
  {
    var tn := TracerFunctionName(a);
    var nn := NormalFunctionName(b);
    assert tn[|tn| - 1] == 'r';
    assert nn[|nn| - 1] == 'l';
  }

  /** The text of one generated OpenCL function. */
  function MakeFunction(name: string, args: seq<string>, code: string): string {
    "void " + name + "(" + Join(",", args) + ") {" + "\n" + code + "\n}\n\n"
  }

  function MakeTracerFunction(t: Tracer): string {
    MakeFunction(TracerFunctionName(t), BaseTracerArgumentDefinitions + t.extraTracerDefs, t.tracerCode)
  }

  function MakeNormalFunction(t: Tracer): string {
    MakeFunction(NormalFunctionName(t), BaseNormalArgumentDefinitions + t.extraNormalDefs, t.normalCode)
  }

  /** The text of a function up to (not including) its first `{`, as the
      declaration extraction `body[:body.find('{')]` computes it. */
  function Header(body: string): string {
    PyPrefix(body, Find(body, '{'))
  }

  /** The signature text `void NAME(ARGS) `. */
  function Signature(name: string, args: seq<string>): string {
    "void " + name + "(" + Join(",", args) + ") "
  }

  /** Cutting a generated function at its first `{` recovers exactly its
      signature, provided neither the name nor any argument contains `{`. */
  lemma HeaderOfGeneratedFunction(name: string, args: seq<string>, code: string)
    requires '{' !in name
    requires forall i :: 0 <= i < |args| ==> '{' !in args[i]
    ensures Header(MakeFunction(name, args, code)) == Signature(name, args)
  {
    var h := Signature(name, args);
    var body := MakeFunction(name, args, code);
    JoinAvoids(",", args, '{');
    assert '{' !in h;
    assert body == h + "{" + "\n" + code + "\n}\n\n";
    assert body[|h|] == '{';
    assert body[..|h|] == h;
    var k := Find(body, '{');
    assert k != -1;
    assert k == |h|;
  }

  /** The names of a shape's generated functions carry no `{`. */
  predicate PlainName(t: Tracer) {
    '{' !in FunctionNamePrefix(t) && '(' !in FunctionNamePrefix(t)
  }

  predicate PlainDefs(defs: seq<string>) {
    forall i :: 0 <= i < |defs| ==> '{' !in defs[i]
  }

  lemma BaseDefsPlain()
    ensures PlainDefs(BaseTracerArgumentDefinitions)
    ensures PlainDefs(BaseNormalArgumentDefinitions)
  {
  }

  /** The declaration of a shape's tracer function is its signature. */
  lemma TracerHeader(t: Tracer)
    requires PlainName(t) && PlainDefs(t.extraTracerDefs)
    ensures Header(MakeTracerFunction(t))
      == Signature(TracerFunctionName(t), BaseTracerArgumentDefinitions + t.extraTracerDefs)
  {
    var args := BaseTracerArgumentDefinitions + t.extraTracerDefs;
    assert forall i :: 0 <= i < |args| ==> '{' !in args[i] by {
      forall i | 0 <= i < |args|
        ensures '{' !in args[i]
      {
        if i >= |BaseTracerArgumentDefinitions| {
          assert args[i] == t.extraTracerDefs[i - |BaseTracerArgumentDefinitions|];
        }
      }
    }
    HeaderOfGeneratedFunction(TracerFunctionName(t), args, t.tracerCode);
  }

  /** The declaration of a shape's normal function is its signature. */
  lemma NormalHeader(t: Tracer)
    requires PlainName(t) && PlainDefs(t.extraNormalDefs)
    ensures Header(MakeNormalFunction(t))
      == Signature(NormalFunctionName(t), BaseNormalArgumentDefinitions + t.extraNormalDefs)
  {
    var args := BaseNormalArgumentDefinitions + t.extraNormalDefs;
    assert forall i :: 0 <= i < |args| ==> '{' !in args[i] by {
      forall i | 0 <= i < |args|
        ensures '{' !in args[i]
      {
        if i >= |BaseNormalArgumentDefinitions| {
          assert args[i] == t.extraNormalDefs[i - |BaseNormalArgumentDefinitions|];
        }
      }
    }
    HeaderOfGeneratedFunction(NormalFunctionName(t), args, t.normalCode);
  }

  /** Number of occurrences of `c` in `s`. */
  function Count(s: string, c: char): nat {
    if |s| == 0 then 0 else (if s[0] == c then 1 else 0) + Count(s[1..], c)
  }

  lemma {:induction false} CountConcat(a: string, b: string, c: char)
    ensures Count(a + b, c) == Count(a, c) + Count(b, c)
    decreases |a|
  {
    if |a| > 0 {
      assert (a + b)[1..] == a[1..] + b;
      CountConcat(a[1..], b, c);
    } else {
      assert a + b == b;
    }
  }

  lemma {:induction false} CountAbsent(s: string, c: char)
    requires c !in s
    ensures Count(s, c) == 0
    decreases |s|
  {
    if |s| > 0 {
      CountAbsent(s[1..], c);
    }
  }

  /** Joining comma-free parts with "," puts one comma between each pair, so
      the argument list has as many entries as parts. */
  lemma {:induction false} JoinCommaCount(parts: seq<string>)
    requires |parts| > 0
    requires forall i :: 0 <= i < |parts| ==> ',' !in parts[i]
    ensures Count(Join(",", parts), ',') == |parts| - 1
    decreases |parts|
  {
    if |parts| == 1 {
      CountAbsent(parts[0], ',');
    } else {
      JoinCommaCount(parts[1..]);
      CountAbsent(parts[0], ',');
      CountConcat(parts[0], ",", ',');
      CountConcat(parts[0] + ",", Join(",", parts[1..]), ',');
    }
  }

  /** The generated tracer signature declares the 8 base parameters followed
      by the shape's extra ones, and the normal signature the 3 base ones
      followed by its extras (parameters counted as commas plus one). */
  lemma SignatureArity(t: Tracer)
    requires forall i :: 0 <= i < |t.extraTracerDefs| ==> ',' !in t.extraTracerDefs[i]
    requires forall i :: 0 <= i < |t.extraNormalDefs| ==> ',' !in t.extraNormalDefs[i]
    ensures Count(Join(",", BaseTracerArgumentDefinitions + t.extraTracerDefs), ',') + 1
      == 8 + |t.extraTracerDefs|
    ensures Count(Join(",", BaseNormalArgumentDefinitions + t.extraNormalDefs), ',') + 1
      == 3 + |t.extraNormalDefs|
  {
    var ta := BaseTracerArgumentDefinitions + t.extraTracerDefs;
    var na := BaseNormalArgumentDefinitions + t.extraNormalDefs;
    forall i | 0 <= i < |ta|
      ensures ',' !in ta[i]
    {
      if i >= 8 {
        assert ta[i] == t.extraTracerDefs[i - 8];
      }
    }
    forall i | 0 <= i < |na|
      ensures ',' !in na[i]
    {
      if i >= 3 {
        assert na[i] == t.extraNormalDefs[i - 3];
      }
    }
    JoinCommaCount(ta);
    JoinCommaCount(na);
  }

  /** The name-to-body map one shape contributes to the program. */
  function MakeFunctions(t: Tracer): (m: map<string, string>)
    ensures m.Keys == {TracerFunctionName(t), NormalFunctionName(t)}
    ensures |m| == 2
    ensures m[TracerFunctionName(t)] == MakeTracerFunction(t)
    ensures m[NormalFunctionName(t)] == MakeNormalFunction(t)
  {
    TracerAndNormalNamesDiffer(t, t);
    var m := map[TracerFunctionName(t) := MakeTracerFunction(t),
                 NormalFunctionName(t) := MakeNormalFunction(t)];
    assert m.Keys == {TracerFunctionName(t), NormalFunctionName(t)};
    m
  }

  /** A call statement `NAME(arg,arg,...);`. */
  function MakeCall(name: string, baseParams: seq<string>, extraArgs: seq<string>): string {
    name + "(" + Join(",", baseParams + extraArgs) + ");"
  }

  function MakeTracerCall(t: Tracer, baseParams: seq<string>): string {
    MakeCall(TracerFunctionName(t), baseParams, t.extraTracerArgs)
  }

  function MakeNormalCall(t: Tracer, baseParams: seq<string>): string {
    MakeCall(NormalFunctionName(t), baseParams, t.extraNormalArgs)
  }

  /** The callee of a call: the text before its first `(`. */
  function Callee(call: string): string {
    PyPrefix(call, Find(call, '('))
  }

  lemma CalleeOfCall(name: string, baseParams: seq<string>, extraArgs: seq<string>)
    requires '(' !in name
    ensures Callee(MakeCall(name, baseParams, extraArgs)) == name
  {
    var call := MakeCall(name, baseParams, extraArgs);
    assert call[|name|] == '(';
    assert call[..|name|] == name;
    var k := Find(call, '(');
  }

  /** Every call the generator emits for a shape names one of the functions
      that shape contributes: the tracer call the tracer function, the normal
      call the normal function. */
  lemma CallsTargetDefinedFunctions(t: Tracer, baseParams: seq<string>)
    requires PlainName(t)
    ensures Callee(MakeTracerCall(t, baseParams)) == TracerFunctionName(t)
    ensures Callee(MakeNormalCall(t, baseParams)) == NormalFunctionName(t)
    ensures Callee(MakeTracerCall(t, baseParams)) in MakeFunctions(t)
    ensures Callee(MakeNormalCall(t, baseParams)) in MakeFunctions(t)
  {
    assert TracerFunctionName(t) == FunctionNamePrefix(t) + "_tracer";
    assert '(' !in "_tracer" && '(' !in "_normal";
    assert '(' !in TracerFunctionName(t);
    assert '(' !in NormalFunctionName(t);
    CalleeOfCall(TracerFunctionName(t), baseParams, t.extraTracerArgs);
    CalleeOfCall(NormalFunctionName(t), baseParams, t.extraNormalArgs);
  }
}
