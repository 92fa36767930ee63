/** Assembly of the OpenCL program text from the objects' generated
    functions: registering every (name, body) pair with a clash check,
    deduplicating the bodies, emitting one forward declaration per body and
    concatenating the parts in program order. */
module Program {
  import opened Wrappers
  import opened Strings
  import Tr = Tracer

  /** What one scene object's tracer generates: its functions and its
      kernels, each as (name, body) pairs in dictionary order. */
  datatype ObjectCode = ObjectCode(functions: seq<(string, string)>, kernels: seq<(string, string)>)

  /** The functions, and the kernels, handed back by the collector. */
  datatype Collected = Collected(kernels: seq<string>, functions: seq<string>)

  function FunctionPairs(objs: seq<ObjectCode>): seq<(string, string)> {
    if |objs| == 0 then [] else objs[0].functions + FunctionPairs(objs[1..])
  }

  function KernelPairs(objs: seq<ObjectCode>): seq<(string, string)> {
    if |objs| == 0 then [] else objs[0].kernels + KernelPairs(objs[1..])
  }

  /** Every registration, in loop order: an object's functions, then its
      kernels, then the next object. */
  function AllPairs(objs: seq<ObjectCode>): seq<(string, string)> {
    if |objs| == 0 then [] else objs[0].functions + objs[0].kernels + AllPairs(objs[1..])
  }

  function Bodies(ps: seq<(string, string)>): (r: seq<string>)
    ensures |r| == |ps|
    ensures forall i :: 0 <= i < |ps| ==> r[i] == ps[i].1
  {
    seq(|ps|, i requires 0 <= i < |ps| => ps[i].1)
  }

  function Identity(s: string): string { s }

  /** No name is registered with two bodies that differ under `norm`. */
  ghost predicate NoClash(ps: seq<(string, string)>, norm: string -> string) {
    forall i, j :: 0 <= i < j < |ps| && ps[i].0 == ps[j].0 ==> norm(ps[i].1) == norm(ps[j].1)
  }

  /** Registering pairs one at a time into a name map: a name already
      present with a body that differs under `norm` raises `clash`,
      otherwise the name is (re)bound to the new body. */
  function Register(ps: seq<(string, string)>, m: map<string, string>, norm: string -> string, clash: Exception)
    : (r: Result<map<string, string>>)
    ensures r.Err? ==> r.exception == clash
    decreases |ps|
  {
    if |ps| == 0 then Ok(m)
    else if ps[0].0 in m && norm(m[ps[0].0]) != norm(ps[0].1) then Err(clash)
    else Register(ps[1..], m[ps[0].0 := ps[0].1], norm, clash)
  }

  /** Registration succeeds exactly when the pairs agree, under `norm`,
      with the bodies already in the map and with each other. */
  lemma {:induction false} RegisterSucceedsIff(
    ps: seq<(string, string)>, m: map<string, string>, norm: string -> string, clash: Exception)
    ensures Register(ps, m, norm, clash).Ok? <==>
      (forall i :: 0 <= i < |ps| && ps[i].0 in m ==> norm(m[ps[i].0]) == norm(ps[i].1))
      && NoClash(ps, norm)
    decreases |ps|
  {
    if |ps| > 0 {
      var n := ps[0].0;
      var m' := m[n := ps[0].1];
      var rest := ps[1..];
      RegisterSucceedsIff(rest, m', norm, clash);
      var agreeM := forall i :: 0 <= i < |ps| && ps[i].0 in m ==> norm(m[ps[i].0]) == norm(ps[i].1);
      if Register(ps, m, norm, clash).Ok? {
        assert !(n in m && norm(m[n]) != norm(ps[0].1));
        forall i | 0 <= i < |ps| && ps[i].0 in m ensures norm(m[ps[i].0]) == norm(ps[i].1) {
          if i > 0 {
            assert rest[i - 1] == ps[i];
            if ps[i].0 == n {
              assert norm(m'[n]) == norm(ps[i].1);
            }
          }
        }
        forall i, j | 0 <= i < j < |ps| && ps[i].0 == ps[j].0 ensures norm(ps[i].1) == norm(ps[j].1) {
          assert rest[j - 1] == ps[j];
          if i > 0 {
            assert rest[i - 1] == ps[i];
          } else {
            assert ps[j].0 in m';
          }
        }
      }
      if agreeM && NoClash(ps, norm) {
        forall i | 0 <= i < |rest| && rest[i].0 in m' ensures norm(m'[rest[i].0]) == norm(rest[i].1) {
          assert rest[i] == ps[i + 1];
        }
        forall i, j | 0 <= i < j < |rest| && rest[i].0 == rest[j].0 ensures norm(rest[i].1) == norm(rest[j].1) {
          assert rest[i] == ps[i + 1] && rest[j] == ps[j + 1];
        }
        assert 0 < |ps| && ps[0].0 in m ==> norm(m[ps[0].0]) == norm(ps[0].1);
      }
    }
  }

  /** After a successful registration every registered name is bound to a
      body agreeing with each body registered under it, names already
      present stay bound, and every binding comes from the old map or
      from a registered pair. */
  lemma {:induction false} RegisterResult(
    ps: seq<(string, string)>, m: map<string, string>, norm: string -> string, clash: Exception)
    requires Register(ps, m, norm, clash).Ok?
    ensures var r := Register(ps, m, norm, clash).value;
      (forall i :: 0 <= i < |ps| ==> ps[i].0 in r && norm(r[ps[i].0]) == norm(ps[i].1))
      && (forall k :: k in m ==> k in r && norm(r[k]) == norm(m[k]))
      && (forall k :: k in r ==> (k in m && r[k] == m[k]) || exists i :: 0 <= i < |ps| && ps[i] == (k, r[k]))
    decreases |ps|
  {
    if |ps| > 0 {
      var n := ps[0].0;
      var m' := m[n := ps[0].1];
      var rest := ps[1..];
      var r := Register(ps, m, norm, clash).value;
      assert Register(ps, m, norm, clash) == Register(rest, m', norm, clash);
      RegisterResult(rest, m', norm, clash);
      forall i | 0 <= i < |ps| ensures ps[i].0 in r && norm(r[ps[i].0]) == norm(ps[i].1) {
        if i > 0 {
          assert rest[i - 1] == ps[i];
        } else {
          assert n in m' && norm(r[n]) == norm(m'[n]);
        }
      }
      forall k | k in m ensures k in r && norm(r[k]) == norm(m[k]) {
        assert k in m';
        if k == n {
          assert norm(m[n]) == norm(ps[0].1);
        }
      }
      forall k | k in r ensures (k in m && r[k] == m[k]) || exists i :: 0 <= i < |ps| && ps[i] == (k, r[k]) {
        if k in m' && r[k] == m'[k] {
          if k == n {
            assert ps[0] == (k, r[k]);
          }
        } else {
          var i :| 0 <= i < |rest| && rest[i] == (k, r[k]);
          assert ps[i + 1] == (k, r[k]);
        }
      }
    }
  }

  /** Bodies without repetition, in first-occurrence order (the source
      keeps a set; its iteration order is not specified). */
  function Dedup(s: seq<string>): (r: seq<string>)
    ensures forall x :: x in r <==> x in s
    ensures forall i, j :: 0 <= i < j < |r| ==> r[i] != r[j]
  {
    if |s| == 0 then []
    else
      var d := Dedup(s[..|s| - 1]);
      assert forall x :: x in s <==> x in s[..|s| - 1] || x == s[|s| - 1];
      if s[|s| - 1] in d then d else d + [s[|s| - 1]]
  }

  /** `push_func` as written: it compares against `name_map` but never
      stores into it, so the map stays empty. */
  function PushAsWritten(nameMap: map<string, string>, name: string, body: string): Result<map<string, string>> {
    if name in nameMap && Strip(nameMap[name]) != Strip(body) then Err(RuntimeError("function name clash!!"))
    else Ok(nameMap)
  }

  function PushAllAsWritten(ps: seq<(string, string)>, nameMap: map<string, string>): Result<map<string, string>>
    decreases |ps|
  {
    if |ps| == 0 then Ok(nameMap)
    else match PushAsWritten(nameMap, ps[0].0, ps[0].1)
      case Err(e) => Err(e)
      case Ok(m) => PushAllAsWritten(ps[1..], m)
  }

  /** `collect_tracer_kernels` as written. */
  function CollectTracerKernelsAsWritten(objs: seq<ObjectCode>): Result<Collected> {
    match PushAllAsWritten(AllPairs(objs), map[])
    case Err(e) => Err(e)
    case Ok(_) => Ok(Collected(Dedup(Bodies(KernelPairs(objs))), Dedup(Bodies(FunctionPairs(objs)))))
  }

  /** As written, the clash check never fires: the name map it consults is
      always empty. */
  lemma {:induction false} PushAllAsWrittenNeverFails(ps: seq<(string, string)>)
    ensures PushAllAsWritten(ps, map[]) == Ok(map[])
    decreases |ps|
  {
    if |ps| > 0 {
      assert PushAsWritten(map[], ps[0].0, ps[0].1) == Ok(map[]);
      PushAllAsWrittenNeverFails(ps[1..]);
    }
  }

  /** `collect_tracer_kernels` with the name map maintained
      (`name_map[name] = body`): a name registered twice with bodies that
      differ after stripping raises "function name clash!!". */
  function CollectTracerKernels(objs: seq<ObjectCode>): Result<Collected> {
    match Register(AllPairs(objs), map[], Strip, RuntimeError("function name clash!!"))
    case Err(e) => Err(e)
    case Ok(_) => Ok(Collected(Dedup(Bodies(KernelPairs(objs))), Dedup(Bodies(FunctionPairs(objs)))))
  }

  /** Two objects generating `f` with different bodies. */
  function ClashingObjects(): seq<ObjectCode> {
    [ObjectCode([("f", "a")], []), ObjectCode([("f", "b")], [])]
  }

  lemma ClashingPairs()
    ensures AllPairs(ClashingObjects()) == [("f", "a"), ("f", "b")]
  {
    var objs := ClashingObjects();
    assert objs[1..][1..] == [];
    assert AllPairs(objs[1..]) == [("f", "b")];
  }

  lemma StripSingleLetters()
    ensures Strip("a") == "a" && Strip("b") == "b"
  {
    assert !IsSpace('a') && !IsSpace('b');
    StripUnpadded("a");
    StripUnpadded("b");
  }

  /** The discrepancy: two different bodies under one name are accepted by
      the collector as written and rejected once the name map is kept. */
  lemma ClashUndetectedAsWritten()
    ensures CollectTracerKernelsAsWritten(ClashingObjects()).Ok?
    ensures CollectTracerKernels(ClashingObjects()) == Err(RuntimeError("function name clash!!"))
  {
    var e := RuntimeError("function name clash!!");
    var ps := [("f", "a"), ("f", "b")];
    ClashingPairs();
    PushAllAsWrittenNeverFails(ps);
    StripSingleLetters();
    assert ps[1..] == [("f", "b")];
    var m := map["f" := "a"];
    assert Register(ps, map[], Strip, e) == Register([("f", "b")], m, Strip, e);
    assert "f" in m && Strip(m["f"]) != Strip("b");
    assert Register([("f", "b")], m, Strip, e) == Err(e);
  }

  /** The collector raises exactly when some name is registered with two
      bodies that differ after stripping; bodies differing only in
      surrounding whitespace are accepted. */
  lemma CollectFailsIffStrippedClash(objs: seq<ObjectCode>)
    ensures CollectTracerKernels(objs).Ok? <==> NoClash(AllPairs(objs), Strip)
    ensures CollectTracerKernels(objs).Err? ==> CollectTracerKernels(objs).exception == RuntimeError("function name clash!!")
  {
    RegisterSucceedsIff(AllPairs(objs), map[], Strip, RuntimeError("function name clash!!"));
  }

  lemma {:induction false} FunctionPairsIn(objs: seq<ObjectCode>, o: nat, i: nat)
    requires o < |objs| && i < |objs[o].functions|
    ensures objs[o].functions[i] in FunctionPairs(objs)
    decreases o
  {
    if o > 0 {
      FunctionPairsIn(objs[1..], o - 1, i);
    }
  }

  lemma {:induction false} KernelPairsIn(objs: seq<ObjectCode>, o: nat, i: nat)
    requires o < |objs| && i < |objs[o].kernels|
    ensures objs[o].kernels[i] in KernelPairs(objs)
    decreases o
  {
    if o > 0 {
      KernelPairsIn(objs[1..], o - 1, i);
    }
  }

  lemma {:induction false} FunctionPairsFrom(objs: seq<ObjectCode>, p: (string, string))
    requires p in FunctionPairs(objs)
    ensures exists o, i :: 0 <= o < |objs| && 0 <= i < |objs[o].functions| && objs[o].functions[i] == p
    decreases |objs|
  {
    if p !in objs[0].functions {
      FunctionPairsFrom(objs[1..], p);
      var o, i :| 0 <= o < |objs[1..]| && 0 <= i < |objs[1..][o].functions| && objs[1..][o].functions[i] == p;
      assert objs[o + 1].functions[i] == p;
    } else {
      var i :| 0 <= i < |objs[0].functions| && objs[0].functions[i] == p;
    }
  }

  /** On success the function list holds each generated function body
      exactly once and nothing else; likewise the kernel list. */
  lemma CollectedContents(objs: seq<ObjectCode>)
    requires CollectTracerKernels(objs).Ok?
    ensures var c := CollectTracerKernels(objs).value;
      (forall b :: b in c.functions <==>
        exists o, i :: 0 <= o < |objs| && 0 <= i < |objs[o].functions| && objs[o].functions[i].1 == b)
      && (forall b :: b in c.kernels ==>
        exists p :: p in KernelPairs(objs) && p.1 == b)
      && (forall o, i :: 0 <= o < |objs| && 0 <= i < |objs[o].kernels| ==> objs[o].kernels[i].1 in c.kernels)
      && (forall i, j :: 0 <= i < j < |c.functions| ==> c.functions[i] != c.functions[j])
      && (forall i, j :: 0 <= i < j < |c.kernels| ==> c.kernels[i] != c.kernels[j])
  {
    var c := CollectTracerKernels(objs).value;
    var fs := Bodies(FunctionPairs(objs));
    forall b ensures b in c.functions <==>
      exists o, i :: 0 <= o < |objs| && 0 <= i < |objs[o].functions| && objs[o].functions[i].1 == b
    {
      if b in c.functions {
        var k :| 0 <= k < |fs| && fs[k] == b;
        FunctionPairsFrom(objs, FunctionPairs(objs)[k]);
      }
      if exists o, i :: 0 <= o < |objs| && 0 <= i < |objs[o].functions| && objs[o].functions[i].1 == b {
        var o, i :| 0 <= o < |objs| && 0 <= i < |objs[o].functions| && objs[o].functions[i].1 == b;
        FunctionPairsIn(objs, o, i);
        var k :| 0 <= k < |FunctionPairs(objs)| && FunctionPairs(objs)[k] == objs[o].functions[i];
        assert fs[k] == b;
      }
    }
    var ks := Bodies(KernelPairs(objs));
    forall b | b in c.kernels ensures exists p :: p in KernelPairs(objs) && p.1 == b {
      var k :| 0 <= k < |ks| && ks[k] == b;
      assert KernelPairs(objs)[k] in KernelPairs(objs);
    }
    forall o, i | 0 <= o < |objs| && 0 <= i < |objs[o].kernels| ensures objs[o].kernels[i].1 in c.kernels {
      KernelPairsIn(objs, o, i);
      var k :| 0 <= k < |KernelPairs(objs)| && KernelPairs(objs)[k] == objs[o].kernels[i];
      assert ks[k] == objs[o].kernels[i].1;
    }
  }

  /** `body[:body.find('{')] + ';'`. */
  function Declaration(body: string): string {
    Tr.Header(body) + ";"
  }

  /** One declaration per collected function, in the same order. */
  function Declarations(functions: seq<string>): (r: seq<string>)
    ensures |r| == |functions|
    ensures forall i :: 0 <= i < |r| ==> r[i] == Declaration(functions[i])
  {
    seq(|functions|, i requires 0 <= i < |functions| => Declaration(functions[i]))
  }

  /** The declaration of a generated tracer function is its signature
      followed by `;`: a forward declaration of the same function. */
  lemma DeclarationOfTracerFunction(t: Tr.Tracer)
    requires Tr.PlainName(t) && Tr.PlainDefs(t.extraTracerDefs)
    ensures Declaration(Tr.MakeTracerFunction(t))
      == Tr.Signature(Tr.TracerFunctionName(t), Tr.BaseTracerArgumentDefinitions + t.extraTracerDefs) + ";"
  {
    Tr.TracerHeader(t);
  }

  // ---------------------------------------------------------------------
  // The kernel map of generator.py and compiler.py.

  function KernelClash(): Exception {
    TypeError("exceptions must be old-style classes or derived from BaseException, not str")
  }

  /** `kernel_map`: an exact-equality clash check over every object's
      functions; the emitted kernels are the distinct bodies. */
  function KernelMapBodies(objs: seq<ObjectCode>): Result<seq<string>> {
    match Register(FunctionPairs(objs), map[], Identity, KernelClash())
    case Err(e) => Err(e)
    case Ok(_) => Ok(Dedup(Bodies(FunctionPairs(objs))))
  }

  /** The kernel map raises exactly when a name is bound to two different
      bodies; otherwise the emitted bodies are exactly the values the map
      ends with, without repetition. */
  lemma KernelMapIff(objs: seq<ObjectCode>)
    ensures KernelMapBodies(objs).Ok? <==> NoClash(FunctionPairs(objs), Identity)
    ensures KernelMapBodies(objs).Ok? ==>
      var m := Register(FunctionPairs(objs), map[], Identity, KernelClash()).value;
      forall b :: b in KernelMapBodies(objs).value <==> b in m.Values
  {
    var ps := FunctionPairs(objs);
    RegisterSucceedsIff(ps, map[], Identity, KernelClash());
    if KernelMapBodies(objs).Ok? {
      var m := Register(ps, map[], Identity, KernelClash()).value;
      RegisterResult(ps, map[], Identity, KernelClash());
      var ks := KernelMapBodies(objs).value;
      forall b ensures b in ks <==> b in m.Values {
        if b in ks {
          var i :| 0 <= i < |ps| && ps[i].1 == b;
          assert m[ps[i].0] == b;
        }
        if b in m.Values {
          var k :| k in m && m[k] == b;
          var i :| 0 <= i < |ps| && ps[i] == (k, m[k]);
          assert Bodies(ps)[i] == b;
        }
      }
    }
  }

  /** `kernel[:curl] + ';\n'`. */
  function KernelDeclaration(kernel: string): string {
    Tr.Header(kernel) + ";\n"
  }

  function KernelDeclarations(ks: seq<string>): (r: seq<string>)
    ensures |r| == |ks|
    ensures forall i :: 0 <= i < |r| ==> r[i] == KernelDeclaration(ks[i])
  {
    seq(|ks|, i requires 0 <= i < |ks| => KernelDeclaration(ks[i]))
  }

  /** generator.py: utils, "\n", the shader code, the declarations, the
      "\n"-joined kernels, the trace kernel. */
  function GeneratorProgram(utils: string, shaderCode: string, traceKernel: string, objs: seq<ObjectCode>)
    : Result<string>
  {
    match KernelMapBodies(objs)
    case Err(e) => Err(e)
    case Ok(ks) =>
      Ok(utils + "\n" + shaderCode + Join("", KernelDeclarations(ks)) + Join("\n", ks) + traceKernel)
  }

  /** The shader kernel: the roulette probability define, then the
      shader source. */
  function ShaderKernel(probText: string, shaderSource: string): string {
    "\n    #define RUSSIAN_ROULETTE_PROB " + probText + "\n    " + shaderSource
  }

  /** compiler.py: utils, the declarations, "\n", the "\n"-joined kernels,
      the trace kernel, the shader kernel. */
  function CompilerProgram(utils: string, traceKernel: string, probText: string, shaderSource: string,
                           objs: seq<ObjectCode>): Result<string>
  {
    match KernelMapBodies(objs)
    case Err(e) => Err(e)
    case Ok(ks) =>
      Ok(utils + Join("", KernelDeclarations(ks)) + "\n" + Join("\n", ks) + traceKernel
         + ShaderKernel(probText, shaderSource))
  }

  ghost predicate OccursAt(s: string, sub: string, at: nat) {
    at + |sub| <= |s| && s[at..at + |sub|] == sub
  }

  /** Where part `j` starts inside `sep.join(parts)`. */
  function JoinOffset(sep: string, parts: seq<string>, j: nat): nat
    requires j < |parts|
  {
    if j == 0 then 0 else |parts[0]| + |sep| + JoinOffset(sep, parts[1..], j - 1)
  }

  lemma {:induction false} JoinOffsetOccurs(sep: string, parts: seq<string>, j: nat)
    requires j < |parts|
    ensures OccursAt(Join(sep, parts), parts[j], JoinOffset(sep, parts, j))
    decreases j
  {
    if |parts| > 1 {
      var rest := Join(sep, parts[1..]);
      assert Join(sep, parts) == parts[0] + sep + rest;
      if j == 0 {
        assert (parts[0] + sep + rest)[..|parts[0]|] == parts[0];
      } else {
        JoinOffsetOccurs(sep, parts[1..], j - 1);
        var o := JoinOffset(sep, parts[1..], j - 1);
        var shift := |parts[0]| + |sep|;
        assert (parts[0] + sep + rest)[shift + o..shift + o + |parts[j]|] == rest[o..o + |parts[j]|];
      }
    }
  }

  lemma OccursInMiddle(a: string, b: string, c: string, sub: string, at: nat)
    requires OccursAt(b, sub, at)
    ensures OccursAt(a + b + c, sub, |a| + at)
  {
    assert (a + b + c)[|a| + at..|a| + at + |sub|] == b[at..at + |sub|];
  }

  /** In the assembled program every emitted kernel's declaration occurs
      before its definition. */
  lemma CompilerDeclaresBeforeDefining(utils: string, traceKernel: string, probText: string,
                                       shaderSource: string, objs: seq<ObjectCode>, j: nat)
    requires CompilerProgram(utils, traceKernel, probText, shaderSource, objs).Ok?
    requires j < |KernelMapBodies(objs).value|
    ensures var prog := CompilerProgram(utils, traceKernel, probText, shaderSource, objs).value;
      var k := KernelMapBodies(objs).value[j];
      exists d: nat, e: nat :: d < e && OccursAt(prog, KernelDeclaration(k), d) && OccursAt(prog, k, e)
  {
    var ks := KernelMapBodies(objs).value;
    var ds := KernelDeclarations(ks);
    var decls := Join("", ds);
    var defs := Join("\n", ks);
    var tail := traceKernel + ShaderKernel(probText, shaderSource);
    var prog := CompilerProgram(utils, traceKernel, probText, shaderSource, objs).value;
    assert prog == utils + decls + ("\n" + defs + tail);
    assert prog == (utils + decls + "\n") + defs + tail;
    JoinOffsetOccurs("", ds, j);
    JoinOffsetOccurs("\n", ks, j);
    var d := |utils| + JoinOffset("", ds, j);
    var e := |utils + decls + "\n"| + JoinOffset("\n", ks, j);
    OccursInMiddle(utils, decls, "\n" + defs + tail, ds[j], JoinOffset("", ds, j));
    OccursInMiddle(utils + decls + "\n", defs, tail, ks[j], JoinOffset("\n", ks, j));
    assert d < e;
  }

  /** The compiler's program starts with the utilities and ends with the
      shader kernel, whose first line defines the roulette probability. */
  lemma CompilerProgramOrder(utils: string, traceKernel: string, probText: string,
                             shaderSource: string, objs: seq<ObjectCode>)
    requires CompilerProgram(utils, traceKernel, probText, shaderSource, objs).Ok?
    ensures var prog := CompilerProgram(utils, traceKernel, probText, shaderSource, objs).value;
      var sk := ShaderKernel(probText, shaderSource);
      StartsWith(prog, utils) && |sk| <= |prog| && prog[|prog| - |sk|..] == sk
      && StartsWith(sk, "\n    #define RUSSIAN_ROULETTE_PROB " + probText + "\n")
  {
    var prog := CompilerProgram(utils, traceKernel, probText, shaderSource, objs).value;
    var sk := ShaderKernel(probText, shaderSource);
    var ks := KernelMapBodies(objs).value;
    var mid := Join("", KernelDeclarations(ks)) + "\n" + Join("\n", ks) + traceKernel;
    assert prog == utils + mid + sk;
    assert prog[..|utils|] == utils;
    var p := "\n    #define RUSSIAN_ROULETTE_PROB " + probText + "\n";
    assert sk == p + "    " + shaderSource;
    assert sk[..|p|] == p;
  }
}
