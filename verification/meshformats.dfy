/** `mesh_formats`: the OFF and zipper (PLY) readers, which turn each
    polygon into a triangle fan, and the removal of faces that repeat
    another face's vertex set. Files are modelled as their sequence of
    lines; reading past the last line gives the empty line, as `readline`
    does at the end of a file. */
module MeshFormats {
  import opened Wrappers
  import opened Strings

  // ---------------------------------------------------------------------
  // Triangle fans.

  /** `poly_to_triangle_fan(vertices)`: triangle `k` is
      `[v0, v(k+1), v(k+2)]`, for every `k` below `n - 2`. */
  function TriangleFan<T>(vs: seq<T>): (r: seq<seq<T>>)
    ensures |r| == if |vs| >= 2 then |vs| - 2 else 0
    ensures forall k :: 0 <= k < |r| ==> r[k] == [vs[0], vs[k + 1], vs[k + 2]]
    decreases |vs|
  {
    if |vs| < 3 then [] else TriangleFan(vs[..|vs| - 1]) + [[vs[0], vs[|vs| - 2], vs[|vs| - 1]]]
  }

  /** Every corner of the fan is a vertex of the polygon. */
  lemma FanUsesPolygonVertices<T>(vs: seq<T>)
    ensures forall t, v :: t in TriangleFan(vs) && v in t ==> v in vs
  {
    var r := TriangleFan(vs);
    forall t, v | t in r && v in t
      ensures v in vs
    {
      var k :| 0 <= k < |r| && r[k] == t;
      assert t == [vs[0], vs[k + 1], vs[k + 2]];
    }
  }

  /** A polygon with at least three vertices has every vertex in the fan:
      vertex `i` is a corner of triangle `max(0, i - 2)`. */
  lemma FanUsesEveryVertex<T>(vs: seq<T>, i: nat)
    requires |vs| >= 3 && i < |vs|
    ensures var k := if i < 2 then 0 else i - 2; k < |TriangleFan(vs)| && vs[i] in TriangleFan(vs)[k]
  {
    var r := TriangleFan(vs);
    if i < 2 {
      assert r[0] == [vs[0], vs[1], vs[2]];
      assert vs[i] == r[0][i];
    } else {
      assert r[i - 2] == [vs[0], vs[i - 1], vs[i]];
      assert vs[i] == r[i - 2][2];
    }
  }

  /** The fans of several polygons, concatenated in order: the triangle
      list `faces += list(poly_to_triangle_fan(...))` builds. */
  function Fans(polys: seq<seq<int>>): (r: seq<seq<int>>)
    decreases |polys|
  {
    if |polys| == 0 then [] else Fans(polys[..|polys| - 1]) + TriangleFan(polys[|polys| - 1])
  }

  function FanCount(polys: seq<seq<int>>): nat
    decreases |polys|
  {
    if |polys| == 0 then 0
    else FanCount(polys[..|polys| - 1]) + (if |polys[|polys| - 1]| >= 2 then |polys[|polys| - 1]| - 2 else 0)
  }

  /** The triangle list has `sum(max(0, k_i - 2))` triangles, each with
      three corners. */
  lemma {:induction false} FansCount(polys: seq<seq<int>>)
    ensures |Fans(polys)| == FanCount(polys)
    ensures forall k :: 0 <= k < |Fans(polys)| ==> |Fans(polys)[k]| == 3
    decreases |polys|
  {
    if |polys| > 0 {
      FansCount(polys[..|polys| - 1]);
    }
  }

  // ---------------------------------------------------------------------
  // Duplicate faces.

  /** `frozenset(face)`. */
  function VertexSet(face: seq<int>): set<int> {
    set x | x in face
  }

  /** The vertex sets of the faces before position `i`. */
  function Seen(faces: seq<seq<int>>, i: nat): set<set<int>>
    requires i <= |faces|
  {
    set j | 0 <= j < i :: VertexSet(faces[j])
  }

  /** `remove_duplicate_faces(faces)`: the loop from face `i` on, with the
      vertex sets met so far in `seen`. */
  function Dedup(faces: seq<seq<int>>, i: nat, seen: set<set<int>>): seq<seq<int>>
    requires i <= |faces|
    decreases |faces| - i
  {
    if i == |faces| then []
    else if VertexSet(faces[i]) in seen then Dedup(faces, i + 1, seen)
    else [faces[i]] + Dedup(faces, i + 1, seen + {VertexSet(faces[i])})
  }

  function RemoveDuplicateFaces(faces: seq<seq<int>>): seq<seq<int>> {
    Dedup(faces, 0, {})
  }

  /** Face `k` is the first face with its vertex set. */
  predicate FirstOfItsSet(faces: seq<seq<int>>, k: nat)
    requires k < |faces|
  {
    forall j :: 0 <= j < k ==> VertexSet(faces[j]) != VertexSet(faces[k])
  }

  /** The positions from `i` on of the faces that are first of their set,
      in increasing order. */
  function FirstPositions(faces: seq<seq<int>>, i: nat): (r: seq<nat>)
    requires i <= |faces|
    ensures forall a :: 0 <= a < |r| ==> i <= r[a] < |faces|
    decreases |faces| - i
  {
    if i == |faces| then []
    else if FirstOfItsSet(faces, i) then [i] + FirstPositions(faces, i + 1)
    else FirstPositions(faces, i + 1)
  }

  /** The positions listed are increasing and are exactly those from `i`
      on whose face is first of its set. */
  lemma {:induction false} FirstPositionsSpec(faces: seq<seq<int>>, i: nat)
    requires i <= |faces|
    ensures var r := FirstPositions(faces, i);
      (forall a, b :: 0 <= a < b < |r| ==> r[a] < r[b])
      && (forall k :: i <= k < |faces| ==> (k in r <==> FirstOfItsSet(faces, k)))
    decreases |faces| - i
  {
    if i < |faces| {
      FirstPositionsSpec(faces, i + 1);
    }
  }

  function Pick(faces: seq<seq<int>>, idx: seq<nat>): (r: seq<seq<int>>)
    requires forall a :: 0 <= a < |idx| ==> idx[a] < |faces|
    ensures |r| == |idx| && forall a :: 0 <= a < |idx| ==> r[a] == faces[idx[a]]
  {
    if |idx| == 0 then [] else [faces[idx[0]]] + Pick(faces, idx[1..])
  }

  lemma SeenStep(faces: seq<seq<int>>, i: nat)
    requires i < |faces|
    ensures Seen(faces, i + 1) == Seen(faces, i) + {VertexSet(faces[i])}
    ensures VertexSet(faces[i]) in Seen(faces, i) <==> !FirstOfItsSet(faces, i)
  {
    if VertexSet(faces[i]) in Seen(faces, i) {
      var j :| 0 <= j < i && VertexSet(faces[j]) == VertexSet(faces[i]);
    }
  }

  lemma {:induction false} DedupPicksFirsts(faces: seq<seq<int>>, i: nat)
    requires i <= |faces|
    ensures Dedup(faces, i, Seen(faces, i)) == Pick(faces, FirstPositions(faces, i))
    decreases |faces| - i
  {
    if i < |faces| {
      SeenStep(faces, i);
      DedupPicksFirsts(faces, i + 1);
      var rest := FirstPositions(faces, i + 1);
      if FirstOfItsSet(faces, i) {
        assert Dedup(faces, i, Seen(faces, i)) == [faces[i]] + Dedup(faces, i + 1, Seen(faces, i + 1));
        assert FirstPositions(faces, i) == [i] + rest;
        assert ([i] + rest)[1..] == rest;
        assert Pick(faces, [i] + rest) == [faces[i]] + Pick(faces, rest);
      } else {
        assert Seen(faces, i + 1) == Seen(faces, i);
      }
    }
  }

  /** The result is the subsequence of the faces that are first of their
      vertex set: positions increase and a face is kept exactly when no
      earlier face has the same vertex set. */
  lemma KeepsFirstOfEachSet(faces: seq<seq<int>>)
    ensures var idx := FirstPositions(faces, 0);
      RemoveDuplicateFaces(faces) == Pick(faces, idx)
      && (forall a, b :: 0 <= a < b < |idx| ==> idx[a] < idx[b])
      && (forall k :: 0 <= k < |faces| ==> (k in idx <==> FirstOfItsSet(faces, k)))
  {
    assert Seen(faces, 0) == {};
    DedupPicksFirsts(faces, 0);
    FirstPositionsSpec(faces, 0);
  }

  /** No two kept faces have the same vertex set, and every face's vertex
      set is that of a kept face. */
  lemma KeptSetsDistinctAndComplete(faces: seq<seq<int>>)
    ensures var r := RemoveDuplicateFaces(faces);
      (forall a, b :: 0 <= a < b < |r| ==> VertexSet(r[a]) != VertexSet(r[b]))
      && (forall k :: 0 <= k < |faces| ==> exists a :: 0 <= a < |r| && VertexSet(r[a]) == VertexSet(faces[k]))
  {
    KeepsFirstOfEachSet(faces);
    var r := RemoveDuplicateFaces(faces);
    var idx := FirstPositions(faces, 0);
    forall a, b | 0 <= a < b < |r|
      ensures VertexSet(r[a]) != VertexSet(r[b])
    {
      assert idx[b] in idx;
      assert FirstOfItsSet(faces, idx[b]);
    }
    forall k | 0 <= k < |faces|
      ensures exists a :: 0 <= a < |r| && VertexSet(r[a]) == VertexSet(faces[k])
    {
      var f := FirstWithSet(faces, k);
      var a :| 0 <= a < |idx| && idx[a] == f;
      assert r[a] == faces[f];
    }
  }

  /** The first position whose face has the vertex set of face `k`. */
  lemma FirstWithSet(faces: seq<seq<int>>, k: nat) returns (f: nat)
    requires k < |faces|
    ensures f <= k && FirstOfItsSet(faces, f) && VertexSet(faces[f]) == VertexSet(faces[k])
    decreases k
  {
    if FirstOfItsSet(faces, k) {
      f := k;
    } else {
      var j :| 0 <= j < k && VertexSet(faces[j]) == VertexSet(faces[k]);
      f := FirstWithSet(faces, j);
    }
  }

  /** Faces with pairwise distinct vertex sets are all kept. */
  lemma {:induction false} DistinctKept(faces: seq<seq<int>>, i: nat)
    requires i <= |faces|
    requires forall a, b :: 0 <= a < b < |faces| ==> VertexSet(faces[a]) != VertexSet(faces[b])
    ensures Dedup(faces, i, Seen(faces, i)) == faces[i..]
    decreases |faces| - i
  {
    if i < |faces| {
      SeenStep(faces, i);
      DistinctKept(faces, i + 1);
      assert faces[i..] == [faces[i]] + faces[i + 1..];
    }
  }

  /** Removing duplicates twice is removing them once. */
  lemma RemoveDuplicateFacesIdempotent(faces: seq<seq<int>>)
    ensures RemoveDuplicateFaces(RemoveDuplicateFaces(faces)) == RemoveDuplicateFaces(faces)
  {
    var r := RemoveDuplicateFaces(faces);
    KeptSetsDistinctAndComplete(faces);
    assert Seen(r, 0) == {};
    DistinctKept(r, 0);
    assert r[0..] == r;
  }

  // ---------------------------------------------------------------------
  // Reading files.

  /** `readline()` for line `i`: the empty string past the last line. */
  function LineAt(lines: seq<string>, i: nat): string {
    if i < |lines| then lines[i] else ""
  }

  /** Every line split into words, `line.split()`. (`strip()` before
      `split()` changes nothing.) */
  function Words(lines: seq<string>): (r: seq<seq<string>>)
    ensures |r| == |lines|
  {
    seq(|lines|, j requires 0 <= j < |lines| => Split(lines[j]))
  }

  /** The words of line `i`; none past the end, where `readline()` gives
      the empty string. */
  function WordsAt(words: seq<seq<string>>, i: nat): seq<string> {
    if i < |words| then words[i] else []
  }

  /** The vertex coordinates as read, and the triangles of every face. */
  datatype Mesh = Mesh(vertices: seq<seq<real>>, triangles: seq<seq<int>>)

  /** `xrange(n)` runs `max(0, n)` times. */
  function Times(n: int): nat {
    if n > 0 then n else 0
  }

  /** `n_points, n_faces, _ = [int(x) for x in rest.split()]`: exactly
      three integers. */
  function CountWords(toks: seq<string>): (r: Result<(int, int)>)
    ensures r.Err? ==> r.exception.ValueError?
  {
    match ParseInts(toks)
    case None => Err(ValueError("invalid literal for int()"))
    case Some(ns) =>
      if |ns| == 3 then Ok((ns[0], ns[1])) else Err(ValueError("wrong number of values to unpack"))
  }

  /** The words of the `n` lines from line `start`, as the reading loops
      meet them. */
  function Rows(words: seq<seq<string>>, start: nat, n: nat): (r: seq<seq<string>>)
    ensures |r| == n && forall k :: 0 <= k < n ==> r[k] == WordsAt(words, start + k)
  {
    seq(n, k requires 0 <= k < n => WordsAt(words, start + k))
  }

  /** Reads each row with `read`, in order, as the reading loops do: the
      first row that does not read decides the error. */
  function ReadRows<T>(rows: seq<seq<string>>, read: seq<string> -> Result<T>): (r: Result<seq<T>>)
    ensures r.Ok? ==> |r.value| == |rows|
    decreases |rows|
  {
    if |rows| == 0 then Ok([])
    else
      var n := |rows| - 1;
      match ReadRows(rows[..n], read)
      case Err(e) => Err(e)
      case Ok(vs) =>
        match read(rows[n])
        case Err(e) => Err(e)
        case Ok(v) => Ok(vs + [v])
  }

  /** What a successful `ReadRows` returns is what each row reads as. */
  lemma {:induction false} ReadRowsRead<T>(rows: seq<seq<string>>, read: seq<string> -> Result<T>)
    ensures var r := ReadRows(rows, read);
      r.Ok? ==> forall k :: 0 <= k < |rows| ==> read(rows[k]) == Ok(r.value[k])
    decreases |rows|
  {
    var n := |rows|;
    if n > 0 {
      ReadRowsRead(rows[..n - 1], read);
      assert forall k :: 0 <= k < n - 1 ==> rows[..n - 1][k] == rows[k];
    }
  }

  /** A failing `ReadRows` fails with the error of the first row that does
      not read. */
  lemma {:induction false} ReadRowsError<T>(rows: seq<seq<string>>, read: seq<string> -> Result<T>)
    ensures var r := ReadRows(rows, read);
      r.Err? ==> exists k :: 0 <= k < |rows| && read(rows[k]) == Err(r.exception)
                   && (forall j :: 0 <= j < k ==> read(rows[j]).Ok?)
    decreases |rows|
  {
    var n := |rows|;
    if n > 0 {
      ReadRowsError(rows[..n - 1], read);
      ReadRowsRead(rows[..n - 1], read);
      assert forall k :: 0 <= k < n - 1 ==> rows[..n - 1][k] == rows[k];
    }
  }

  /** The OFF vertex lines: each line's numbers. */
  function OffVertices(rows: seq<seq<string>>): (r: Result<seq<seq<real>>>)
    ensures r.Ok? ==> |r.value| == |rows|
    ensures r.Err? ==> r.exception.ValueError?
  {
    ReadRowsError(rows, VertexWords);
    ReadRows(rows, VertexWords)
  }

  /** One OFF vertex line: all its numbers. */
  function VertexWords(toks: seq<string>): (r: Result<seq<real>>)
    ensures r.Err? ==> r.exception.ValueError?
  {
    match ParseReals(toks)
    case None => Err(ValueError("could not convert string to float"))
    case Some(v) => Ok(v)
  }

  /** One face line: `face_vertices[0] == len(face_vertices) - 1` is
      asserted, and the indices after the count are the polygon. */
  function FaceWords(toks: seq<string>): (r: Result<seq<int>>)
    ensures r.Err? ==> r.exception.ValueError? || r.exception.IndexError? || r.exception.AssertionError?
  {
    match ParseInts(toks)
    case None => Err(ValueError("invalid literal for int()"))
    case Some(fv) =>
      if |fv| == 0 then Err(IndexError)
      else if fv[0] != |fv| - 1 then Err(AssertionError)
      else Ok(fv[1..])
  }

  /** The face lines: the polygons, in order. */
  function FaceLines(rows: seq<seq<string>>): (r: Result<seq<seq<int>>>)
    ensures r.Ok? ==> |r.value| == |rows|
    ensures r.Err? ==> r.exception.ValueError? || r.exception.IndexError? || r.exception.AssertionError?
  {
    ReadRowsError(rows, FaceWords);
    ReadRows(rows, FaceWords)
  }

  /** The first line of an OFF file: what follows `OFF`, stripped, or
      nothing when the stripped line does not start with `OFF`. */
  function OffRest(line: string): (r: Option<string>)
    ensures r.None? <==> !StartsWith(Strip(line), "OFF")
  {
    var first := Strip(line);
    if !StartsWith(first, "OFF") then None else Some(Strip(first[3..]))
  }

  /** `read_off`: the first line must start with `OFF` (what
      `partition('OFF')` with an empty head means); the counts follow on
      that line or, when nothing follows, on the next one. The only
      `RuntimeError` is a missing `OFF`. */
  function ReadOff(lines: seq<string>): (r: Result<Mesh>)
    ensures r.Err? && r.exception.RuntimeError? <==> !StartsWith(Strip(LineAt(lines, 0)), "OFF")
  {
    match OffRest(LineAt(lines, 0))
    case None => Err(RuntimeError("not OFF format"))
    case Some(rest) =>
      var words := Words(lines);
      if |rest| == 0 then OffBody(words, CountWords(WordsAt(words, 1)), 2)
      else OffBody(words, CountWords(Split(rest)), 1)
  }

  /** The rest of `read_off` once the counts line is read as `counts`:
      the vertex lines from line `next`, then the face lines. Nothing here
      raises a `RuntimeError`. */
  function OffBody(words: seq<seq<string>>, counts: Result<(int, int)>, next: nat): (r: Result<Mesh>)
    requires counts.Err? ==> counts.exception.ValueError?
    ensures r.Err? ==> !r.exception.RuntimeError?
  {
    match counts
    case Err(e) => Err(e)
    case Ok((nPoints, nFaces)) =>
      OffMesh(Rows(words, next, Times(nPoints)), Rows(words, next + Times(nPoints), Times(nFaces)))
  }

  /** The mesh of the vertex rows and the face rows of an OFF file. */
  function OffMesh(vertexRows: seq<seq<string>>, faceRows: seq<seq<string>>): (r: Result<Mesh>)
    ensures r.Err? ==> !r.exception.RuntimeError?
  {
    match OffVertices(vertexRows)
    case Err(e) => Err(e)
    case Ok(vs) =>
      match FaceLines(faceRows)
      case Err(e) => Err(e)
      case Ok(polys) => Ok(Mesh(vs, Fans(polys)))
  }

  /** What one header line of a zipper file says. */
  datatype HeaderLine =
    | Blank
    | VertexCount(n: int)
    | FaceCount(n: int)
    | EndHeader
    | OtherLine
    | BadLine(e: Exception)

  /** One header line, split into words: `element vertex N`,
      `element face N`, `end_header`, anything else, or an empty line.
      A short `element` line is an `IndexError`. */
  function HeaderWords(toks: seq<string>): HeaderLine {
    if |toks| == 0 then Blank
    else if toks[0] == "element" then
      if |toks| < 2 then BadLine(IndexError)
      else if toks[1] == "vertex" || toks[1] == "face" then
        if |toks| < 3 then BadLine(IndexError)
        else match ParseInt(toks[2])
          case None => BadLine(ValueError("invalid literal for int()"))
          case Some(n) => if toks[1] == "vertex" then VertexCount(n) else FaceCount(n)
      else OtherLine
    else if toks[0] == "end_header" then EndHeader
    else OtherLine
  }

  /** What each line would say as a header line; the header loop reads
      these for the lines it reaches. */
  function LineKinds(words: seq<seq<string>>): (r: seq<HeaderLine>)
    ensures |r| == |words| && forall j :: 0 <= j < |words| ==> r[j] == HeaderWords(words[j])
  {
    seq(|words|, j requires 0 <= j < |words| => HeaderWords(words[j]))
  }

  /** The header loop of `read_zipper` from line `i`: the line after
      `end_header` and the last `element vertex` and `element face`
      counts. An empty line, including the end of the file, is a
      `RuntimeError`. (`strip()` before `split()` changes nothing.) */
  function ZipperHeader(kinds: seq<HeaderLine>, i: nat, nv: Option<int>, nf: Option<int>)
    : (r: Result<(nat, Option<int>, Option<int>)>)
    ensures r.Ok? ==> i < r.value.0 <= |kinds|
    decreases |kinds| - i
  {
    if i >= |kinds| then Err(RuntimeError("unexpected eof/empty line"))
    else match kinds[i]
      case Blank => Err(RuntimeError("unexpected eof/empty line"))
      case BadLine(e) => Err(e)
      case EndHeader => Ok((i + 1, nv, nf))
      case VertexCount(n) => ZipperHeader(kinds, i + 1, Some(n), nf)
      case FaceCount(n) => ZipperHeader(kinds, i + 1, nv, Some(n))
      case OtherLine => ZipperHeader(kinds, i + 1, nv, nf)
  }

  /** The header ends at the first `end_header` line; every line before
      it is non-empty, and the counts are those of the last `element`
      lines that set them. */
  lemma {:induction false} ZipperHeaderEnds(kinds: seq<HeaderLine>, i: nat, nv: Option<int>, nf: Option<int>)
    ensures var r := ZipperHeader(kinds, i, nv, nf);
      r.Ok? ==>
        && kinds[r.value.0 - 1].EndHeader?
        && (forall j :: i <= j < r.value.0 - 1 ==> !kinds[j].Blank? && !kinds[j].EndHeader?)
        && ((r.value.1 == nv && forall j :: i <= j < r.value.0 - 1 ==> !kinds[j].VertexCount?)
            || exists j :: i <= j < r.value.0 - 1 && kinds[j].VertexCount? && Some(kinds[j].n) == r.value.1
                 && forall l :: j < l < r.value.0 - 1 ==> !kinds[l].VertexCount?)
    decreases |kinds| - i
  {
    if i < |kinds| {
      match kinds[i]
      case VertexCount(n) => ZipperHeaderEnds(kinds, i + 1, Some(n), nf);
      case FaceCount(n) => ZipperHeaderEnds(kinds, i + 1, nv, Some(n));
      case OtherLine => ZipperHeaderEnds(kinds, i + 1, nv, nf);
      case _ =>
    }
  }

  /** `[float(line[c]) for c in range(3)]`: the first three words are
      converted in order, so a word that is not a number among those
      present is a `ValueError` and a line with fewer than three words
      that all convert is an `IndexError`. */
  function ZipperVertex(toks: seq<string>): (r: Result<seq<real>>)
    ensures r.Ok? ==> |r.value| == 3
    ensures r.Err? ==> r.exception.ValueError? || r.exception.IndexError?
  {
    var present := if |toks| < 3 then |toks| else 3;
    match ParseReals(toks[..present])
    case None => Err(ValueError("could not convert string to float"))
    case Some(xs) => if present < 3 then Err(IndexError) else Ok(xs)
  }

  function ZipperVertices(rows: seq<seq<string>>): (r: Result<seq<seq<real>>>)
    ensures r.Ok? ==> |r.value| == |rows| && forall k :: 0 <= k < |rows| ==> |r.value[k]| == 3
  {
    ReadRowsRead(rows, ZipperVertex);
    ReadRows(rows, ZipperVertex)
  }

  /** `read_zipper`: the header, then the vertex lines (three coordinates
      each) and the face lines. A count the header never set is a
      `NameError` when the loop that needs it starts. */
  function ReadZipper(lines: seq<string>): Result<Mesh> {
    ZipperBody(Words(lines))
  }

  /** `read_zipper` on the words of every line. */
  function ZipperBody(words: seq<seq<string>>): Result<Mesh> {
    ZipperAfterHeader(words, ZipperHeader(LineKinds(words), 0, None, None))
  }

  /** The vertex and face lines after the header loop's outcome `h`. */
  function ZipperAfterHeader(words: seq<seq<string>>, h: Result<(nat, Option<int>, Option<int>)>): Result<Mesh> {
    match h
    case Err(e) => Err(e)
    case Ok((next, nv, nf)) =>
      if nv.None? then Err(NameError("n_vertices"))
      else ZipperFrom(words, next, Times(nv.value), nf)
  }

  /** `n` vertex lines from line `next`, then the face lines. */
  function ZipperFrom(words: seq<seq<string>>, next: nat, n: nat, nf: Option<int>): Result<Mesh> {
    ZipperMesh(Rows(words, next, n), if nf.None? then None else Some(Rows(words, next + n, Times(nf.value))))
  }

  /** The mesh of the vertex rows and, when the face count was set, the
      face rows of a zipper file. */
  function ZipperMesh(vertexRows: seq<seq<string>>, faceRows: Option<seq<seq<string>>>): Result<Mesh> {
    match ZipperVertices(vertexRows)
    case Err(e) => Err(e)
    case Ok(vs) =>
      if faceRows.None? then Err(NameError("n_faces"))
      else match FaceLines(faceRows.value)
        case Err(e) => Err(e)
        case Ok(polys) => Ok(Mesh(vs, Fans(polys)))
  }

  // ---------------------------------------------------------------------
  // Writing files: the readers read back what these write.

  /** A token `str.split()` can return: non-empty, without whitespace. */
  predicate IsWord(w: string) {
    |w| > 0 && forall i :: 0 <= i < |w| ==> !IsSpace(w[i])
  }

  predicate AllWords(ws: seq<string>) {
    forall i :: 0 <= i < |ws| ==> IsWord(ws[i])
  }

  function NatWords(ns: seq<nat>): (r: seq<string>)
    ensures |r| == |ns| && forall i :: 0 <= i < |ns| ==> r[i] == NatToString(ns[i])
  {
    seq(|ns|, i requires 0 <= i < |ns| => NatToString(ns[i]))
  }

  function IntWords(ns: seq<int>): (r: seq<string>)
    ensures |r| == |ns| && forall i :: 0 <= i < |ns| ==> r[i] == IntToString(ns[i])
  {
    seq(|ns|, i requires 0 <= i < |ns| => IntToString(ns[i]))
  }

  function Reals(ns: seq<int>): (r: seq<real>)
    ensures |r| == |ns| && forall i :: 0 <= i < |ns| ==> r[i] == ns[i] as real
  {
    seq(|ns|, i requires 0 <= i < |ns| => ns[i] as real)
  }

  /** An OFF file: the `OFF` line, the counts line, one line of integer
      coordinates per vertex, and one line per polygon starting with its
      vertex count. */
  function OffText(verts: seq<seq<int>>, polys: seq<seq<int>>): seq<string> {
    ["OFF", NatLine([|verts|, |polys|, 0])]
      + VertexText(verts) + FaceText(polys)
  }

  /** A vertex line: the coordinates separated by spaces. */
  function VertexLineText(v: seq<int>): string {
    Join(" ", IntWords(v))
  }

  /** A line of natural numbers separated by spaces. */
  function NatLine(ns: seq<nat>): string {
    Join(" ", NatWords(ns))
  }

  /** A face line: the vertex count, then the indices. */
  function FaceLineText(p: seq<int>): string {
    Join(" ", IntWords([|p|] + p))
  }

  function VertexText(verts: seq<seq<int>>): (r: seq<string>)
    ensures |r| == |verts| && forall k :: 0 <= k < |verts| ==> r[k] == VertexLineText(verts[k])
  {
    seq(|verts|, k requires 0 <= k < |verts| => VertexLineText(verts[k]))
  }

  function FaceText(polys: seq<seq<int>>): (r: seq<string>)
    ensures |r| == |polys| && forall k :: 0 <= k < |polys| ==> r[k] == FaceLineText(polys[k])
  {
    seq(|polys|, k requires 0 <= k < |polys| => FaceLineText(polys[k]))
  }

  /** The vertices as the readers return them. */
  function RealVertices(verts: seq<seq<int>>): (r: seq<seq<real>>)
    ensures |r| == |verts| && forall k :: 0 <= k < |verts| ==> r[k] == Reals(verts[k])
  {
    seq(|verts|, k requires 0 <= k < |verts| => Reals(verts[k]))
  }

  /** The words a vertex line is written with. */
  function VertexRows(verts: seq<seq<int>>): (r: seq<seq<string>>)
    ensures |r| == |verts| && forall k :: 0 <= k < |verts| ==> r[k] == IntWords(verts[k])
  {
    seq(|verts|, k requires 0 <= k < |verts| => IntWords(verts[k]))
  }

  /** The words a face line is written with: the count, then the indices. */
  function FaceRows(polys: seq<seq<int>>): (r: seq<seq<string>>)
    ensures |r| == |polys| && forall k :: 0 <= k < |polys| ==> r[k] == IntWords([|polys[k]|] + polys[k])
  {
    seq(|polys|, k requires 0 <= k < |polys| => IntWords([|polys[k]|] + polys[k]))
  }

  // OFF files.

  /** Reading back an OFF file gives its vertices and the fans of its
      polygons. */
  lemma OffRoundTrip(verts: seq<seq<int>>, polys: seq<seq<int>>)
    ensures ReadOff(OffText(verts, polys)) == Ok(Mesh(RealVertices(verts), Fans(polys)))
  {
    OffTextLines(verts, polys);
    OffLinesRead(OffText(verts, polys), verts, polys);
  }

  /** Block by block, what `OffText` writes. */
  lemma OffTextLines(verts: seq<seq<int>>, polys: seq<seq<int>>)
    ensures var lines := OffText(verts, polys); var e := 2 + |verts|;
      && |lines| == e + |polys|
      && LineAt(lines, 0) == "OFF"
      && lines[1] == NatLine([|verts|, |polys|, 0])
      && lines[2..e] == VertexText(verts)
      && lines[e..e + |polys|] == FaceText(polys)
  {
    var lines := OffText(verts, polys);
    var head := ["OFF", NatLine([|verts|, |polys|, 0])];
    assert lines == head + VertexText(verts) + FaceText(polys);
    assert lines[2..2 + |verts|] == VertexText(verts);
    assert lines[2 + |verts|..2 + |verts| + |polys|] == FaceText(polys);
  }

  /** Lines laid out as `OffText` lays them out read back as the mesh. */
  lemma OffLinesRead(lines: seq<string>, verts: seq<seq<int>>, polys: seq<seq<int>>)
    requires |lines| == 2 + |verts| + |polys|
    requires LineAt(lines, 0) == "OFF"
    requires lines[1] == NatLine([|verts|, |polys|, 0])
    requires lines[2..2 + |verts|] == VertexText(verts)
    requires lines[2 + |verts|..2 + |verts| + |polys|] == FaceText(polys)
    ensures ReadOff(lines) == Ok(Mesh(RealVertices(verts), Fans(polys)))
  {
    OffLinesWords(lines, verts, polys);
    OffWordsRead(Words(lines), verts, polys);
    ReadOffBare(lines);
  }

  /** The words of lines laid out as `OffText` lays them out. */
  lemma OffLinesWords(lines: seq<string>, verts: seq<seq<int>>, polys: seq<seq<int>>)
    requires |lines| == 2 + |verts| + |polys|
    requires lines[1] == NatLine([|verts|, |polys|, 0])
    requires lines[2..2 + |verts|] == VertexText(verts)
    requires lines[2 + |verts|..2 + |verts| + |polys|] == FaceText(polys)
    ensures WordsAt(Words(lines), 1) == NatWords([|verts|, |polys|, 0])
    ensures Rows(Words(lines), 2, |verts|) == VertexRows(verts)
    ensures Rows(Words(lines), 2 + |verts|, |polys|) == FaceRows(polys)
  {
    NatLineRead([|verts|, |polys|, 0]);
    VertexRowsOfText(lines, verts, 2);
    FaceRowsOfText(lines, polys, 2 + |verts|);
  }

  /** After a bare `OFF` line the counts are read from line 1 and the
      vertex lines start at line 2. */
  lemma ReadOffBare(lines: seq<string>)
    requires LineAt(lines, 0) == "OFF"
    ensures ReadOff(lines) == OffBody(Words(lines), CountWords(WordsAt(Words(lines), 1)), 2)
  {
    OffRestOfOff(LineAt(lines, 0));
  }

  /** A bare `OFF` line leaves the counts to the next line. */
  lemma OffRestOfOff(line: string)
    requires line == "OFF"
    ensures OffRest(line) == Some("")
  {
    StripUnpadded("OFF");
    StrippedOffRest(line);
  }

  lemma StrippedOffRest(line: string)
    requires Strip(line) == "OFF"
    ensures OffRest(line) == Some("")
  {
    assert "OFF"[3..] == "";
  }

  /** Rows of words as `OffText` writes them, after a bare `OFF` line,
      read back as the mesh. */
  lemma OffWordsRead(words: seq<seq<string>>, verts: seq<seq<int>>, polys: seq<seq<int>>)
    requires WordsAt(words, 1) == NatWords([|verts|, |polys|, 0])
    requires Rows(words, 2, |verts|) == VertexRows(verts)
    requires Rows(words, 2 + |verts|, |polys|) == FaceRows(polys)
    ensures OffBody(words, CountWords(WordsAt(words, 1)), 2) == Ok(Mesh(RealVertices(verts), Fans(polys)))
  {
    var nv, nf := |verts|, |polys|;
    assert Times(nv) == nv && Times(nf) == nf;
    CountsRead(WordsAt(words, 1), nv, nf);
    OffMeshRead(Rows(words, 2, Times(nv)), Rows(words, 2 + Times(nv), Times(nf)), verts, polys);
    OffBodyIs(words, CountWords(WordsAt(words, 1)), 2, nv, nf, Ok(Mesh(RealVertices(verts), Fans(polys))));
  }

  /** Once the counts are read, the body is the mesh of the rows they
      delimit. */
  lemma OffBodyIs(words: seq<seq<string>>, counts: Result<(int, int)>, next: nat, nv: int, nf: int, m: Result<Mesh>)
    requires counts == Ok((nv, nf))
    requires OffMesh(Rows(words, next, Times(nv)), Rows(words, next + Times(nv), Times(nf))) == m
    ensures OffBody(words, counts, next) == m
  {
  }

  /** Printed vertex and face rows read back as the mesh. */
  lemma OffMeshRead(vertexRows: seq<seq<string>>, faceRows: seq<seq<string>>, verts: seq<seq<int>>, polys: seq<seq<int>>)
    requires vertexRows == VertexRows(verts) && faceRows == FaceRows(polys)
    ensures OffMesh(vertexRows, faceRows) == Ok(Mesh(RealVertices(verts), Fans(polys)))
  {
    OffVerticesRead(verts);
    FaceLinesRead(polys);
  }

  /** The counts line reads back as the two counts. */
  lemma CountsRead(toks: seq<string>, nv: nat, nf: nat)
    requires toks == NatWords([nv, nf, 0])
    ensures CountWords(toks) == Ok((nv as int, nf as int))
  {
    ParseIntsOfNats([nv, nf, 0]);
  }

  /** Printed vertex rows read back as the vertices. */
  lemma OffVerticesRead(verts: seq<seq<int>>)
    ensures OffVertices(VertexRows(verts)) == Ok(RealVertices(verts))
  {
    var rows, vs := VertexRows(verts), RealVertices(verts);
    forall k | 0 <= k < |rows|
      ensures VertexWords(rows[k]) == Ok(vs[k])
    {
      ParseRealsOfInts(verts[k]);
    }
    ReadRowsOf(rows, VertexWords, vs);
  }

  /** Printed face rows read back as the polygons. */
  lemma FaceLinesRead(polys: seq<seq<int>>)
    ensures FaceLines(FaceRows(polys)) == Ok(polys)
  {
    var rows := FaceRows(polys);
    forall k | 0 <= k < |rows|
      ensures FaceWords(rows[k]) == Ok(polys[k])
    {
      FaceWordsRead(polys[k]);
    }
    ReadRowsOf(rows, FaceWords, polys);
  }

  /** Rows that each read, read as the list of what they read: with the
      contract of `ReadRows`, `ReadRows(rows, read) == Ok(vs)` exactly when
      row `k` reads as `vs[k]` for every `k`. */
  lemma {:induction false} ReadRowsOf<T>(rows: seq<seq<string>>, read: seq<string> -> Result<T>, vs: seq<T>)
    requires |rows| == |vs|
    requires forall k :: 0 <= k < |rows| ==> read(rows[k]) == Ok(vs[k])
    ensures ReadRows(rows, read) == Ok(vs)
    decreases |rows|
  {
    var n := |rows|;
    if n > 0 {
      ReadRowsOf(rows[..n - 1], read, vs[..n - 1]);
      assert read(rows[n - 1]) == Ok(vs[n - 1]);
      assert vs == vs[..n - 1] + [vs[n - 1]];
    }
  }

  // Rows of words, shared by both formats.

  /** The rows from line `start` are `rows` when each line splits into its
      row. */
  lemma RowsOfSlice(lines: seq<string>, start: nat, rows: seq<seq<string>>)
    requires start + |rows| <= |lines|
    requires forall k :: 0 <= k < |rows| ==> Split(lines[start + k]) == rows[k]
    ensures Rows(Words(lines), start, |rows|) == rows
  {
  }

  /** The words of printed vertex lines are the printed coordinates. */
  lemma VertexRowsOfText(lines: seq<string>, verts: seq<seq<int>>, start: nat)
    requires start + |verts| <= |lines|
    requires lines[start..start + |verts|] == VertexText(verts)
    ensures Rows(Words(lines), start, |verts|) == VertexRows(verts)
  {
    var rows := VertexRows(verts);
    forall k | 0 <= k < |rows|
      ensures Split(lines[start + k]) == rows[k]
    {
      assert lines[start + k] == lines[start..start + |verts|][k];
      IntLineSplit(lines[start + k], verts[k]);
    }
    RowsOfSlice(lines, start, rows);
  }

  /** The words of printed face lines are the printed numbers. */
  lemma FaceRowsOfText(lines: seq<string>, polys: seq<seq<int>>, start: nat)
    requires start + |polys| <= |lines|
    requires lines[start..start + |polys|] == FaceText(polys)
    ensures Rows(Words(lines), start, |polys|) == FaceRows(polys)
  {
    var rows := FaceRows(polys);
    forall k | 0 <= k < |rows|
      ensures Split(lines[start + k]) == rows[k]
    {
      assert lines[start + k] == lines[start..start + |polys|][k];
      IntLineSplit(lines[start + k], [|polys[k]|] + polys[k]);
    }
    RowsOfSlice(lines, start, rows);
  }

  /** The words of a face line read back as its polygon. */
  lemma FaceWordsRead(p: seq<int>)
    ensures FaceWords(IntWords([|p|] + p)) == Ok(p)
  {
    var ps := [|p|] + p;
    ParseIntsOfInts(ps);
    assert ps[1..] == p;
  }

  /** A line of natural numbers splits into the numbers' words. */
  lemma NatLineRead(ns: seq<nat>)
    ensures Split(NatLine(ns)) == NatWords(ns)
  {
    forall i | 0 <= i < |ns|
      ensures IsWord(NatWords(ns)[i])
    {
      NatWord(ns[i]);
    }
    SplitJoin(NatWords(ns));
  }

  /** A line of integers separated by spaces splits into the integers'
      words. */
  lemma IntLineSplit(line: string, v: seq<int>)
    requires line == Join(" ", IntWords(v))
    ensures Split(line) == IntWords(v)
  {
    IntWordsAreWords(v);
    SplitJoin(IntWords(v));
  }

  lemma NatWord(n: nat)
    ensures IsWord(NatToString(n))
  {
    var s := NatToString(n);
    forall i | 0 <= i < |s|
      ensures !IsSpace(s[i])
    {
      assert IsDigit(s[i]);
    }
  }

  lemma IntWordsAreWords(v: seq<int>)
    ensures AllWords(IntWords(v))
  {
    forall i | 0 <= i < |v|
      ensures IsWord(IntToString(v[i]))
    {
      var n := v[i];
      if n < 0 {
        NatWord(-n);
        assert IntToString(n) == "-" + NatToString(-n);
      } else {
        NatWord(n);
      }
    }
  }

  lemma {:induction false} ParseIntsOfNats(ns: seq<nat>)
    ensures ParseInts(NatWords(ns)) == Some(ns)
    decreases |ns|
  {
    if |ns| > 0 {
      ParseIntOfNat(ns[0]);
      assert NatWords(ns)[1..] == NatWords(ns[1..]);
      ParseIntsOfNats(ns[1..]);
      ParseIntsCons(NatWords(ns), ns[0], ns[1..]);
      assert ns == [ns[0]] + ns[1..];
    }
  }

  lemma {:induction false} ParseIntsOfInts(ns: seq<int>)
    ensures ParseInts(IntWords(ns)) == Some(ns)
    decreases |ns|
  {
    if |ns| > 0 {
      ParseIntOfInt(ns[0]);
      assert IntWords(ns)[1..] == IntWords(ns[1..]);
      ParseIntsOfInts(ns[1..]);
      ParseIntsCons(IntWords(ns), ns[0], ns[1..]);
      assert ns == [ns[0]] + ns[1..];
    }
  }

  /** `float(str(n))` is `n`. */
  lemma ParseRealOfInt(n: int)
    ensures ParseReal(IntToString(n)) == Some(n as real)
  {
    if n < 0 {
      var m: nat := -n;
      assert IntToString(n) == "-" + NatToString(m);
      ParseRealOfNegative(m);
      assert -(m as real) == n as real;
    } else {
      ParseRealOfNat(n);
    }
  }

  lemma ParseRealOfNat(m: nat)
    ensures ParseReal(NatToString(m)) == Some(m as real)
  {
    var digits := NatToString(m);
    NatToStringRoundTrip(m);
    NoPoint(digits);
    AllDigitsIff(digits);
    assert IsDigit(digits[0]);
    assert digits[..|digits|] == digits;
  }

  lemma ParseRealOfNegative(m: nat)
    ensures ParseReal("-" + NatToString(m)) == Some(-(m as real))
  {
    var digits := NatToString(m);
    NatToStringRoundTrip(m);
    NoPoint(digits);
    AllDigitsIff(digits);
    assert ("-" + digits)[1..] == digits;
  }

  /** Digits hold neither a decimal point nor an exponent marker. */
  lemma NoPoint(digits: string)
    requires forall i :: 0 <= i < |digits| ==> IsDigit(digits[i])
    ensures Find(digits, '.') == -1 && FindExponent(digits) == -1
  {
    forall i | 0 <= i < |digits|
      ensures digits[i] != '.' && digits[i] != 'e' && digits[i] != 'E'
    {
      assert IsDigit(digits[i]);
    }
  }

  lemma ParseRealsOfInts(v: seq<int>)
    ensures ParseReals(IntWords(v)) == Some(Reals(v))
  {
    var toks := IntWords(v);
    forall i | 0 <= i < |toks|
      ensures ParseReal(toks[i]) == Some(Reals(v)[i])
    {
      ParseRealOfInt(v[i]);
    }
    ParseRealsOfWords(toks, Reals(v));
  }

  /** Tokens that each read as a number read as the list of numbers. */
  lemma {:induction false} ParseRealsOfWords(toks: seq<string>, xs: seq<real>)
    requires |toks| == |xs|
    requires forall i :: 0 <= i < |toks| ==> ParseReal(toks[i]) == Some(xs[i])
    ensures ParseReals(toks) == Some(xs)
    decreases |toks|
  {
    if |toks| > 0 {
      ParseRealsOfWords(toks[1..], xs[1..]);
      ParseRealsCons(toks, xs[0], xs[1..]);
      assert xs == [xs[0]] + xs[1..];
    }
  }

  lemma ParseRealsCons(toks: seq<string>, x: real, xs: seq<real>)
    requires |toks| > 0 && ParseReal(toks[0]) == Some(x) && ParseReals(toks[1..]) == Some(xs)
    ensures ParseReals(toks) == Some([x] + xs)
  {
  }

  lemma ParseIntsCons(toks: seq<string>, x: int, xs: seq<int>)
    requires |toks| > 0 && ParseInt(toks[0]) == Some(x) && ParseInts(toks[1..]) == Some(xs)
    ensures ParseInts(toks) == Some([x] + xs)
  {
  }

  /** Joining words with single spaces and splitting again gives the
      words back. */
  lemma {:induction false} SplitJoin(ws: seq<string>)
    requires AllWords(ws)
    ensures Split(Join(" ", ws)) == ws
    decreases |ws|
  {
    if |ws| == 1 {
      SplitWord(ws[0]);
    } else if |ws| > 1 {
      var w, tail := ws[0], ws[1..];
      assert AllWords(tail) by {
        forall i | 0 <= i < |tail|
          ensures IsWord(tail[i])
        {
          assert tail[i] == ws[i + 1];
        }
      }
      SplitAfterWord(w, Join(" ", tail));
      SplitJoin(tail);
      assert ws == [w] + tail;
    }
  }

  // Zipper (PLY) files.

  /** Line `j` of the header of a zipper (PLY) file with `nv` vertices
      and `nf` faces, as words. */
  function HeaderEntry(nv: nat, nf: nat, j: nat): seq<string> {
    if j == 0 then ["ply"]
    else if j == 1 then ["format", "ascii", "1.0"]
    else if j == 2 then ["element", "vertex", NatToString(nv)]
    else if j == 3 then ["property", "float", "x"]
    else if j == 4 then ["property", "float", "y"]
    else if j == 5 then ["property", "float", "z"]
    else if j == 6 then ["element", "face", NatToString(nf)]
    else if j == 7 then ["property", "list", "uchar", "int", "vertex_indices"]
    else ["end_header"]
  }

  function HeaderRows(nv: nat, nf: nat): (r: seq<seq<string>>)
    ensures |r| == 9 && forall j :: 0 <= j < 9 ==> r[j] == HeaderEntry(nv, nf, j)
  {
    seq(9, j requires 0 <= j < 9 => HeaderEntry(nv, nf, j))
  }

  /** The nine header lines. */
  function HeaderText(nv: nat, nf: nat): (r: seq<string>)
    ensures |r| == 9 && forall j :: 0 <= j < 9 ==> r[j] == Join(" ", HeaderEntry(nv, nf, j))
  {
    seq(9, j requires 0 <= j < 9 => Join(" ", HeaderEntry(nv, nf, j)))
  }

  /** A zipper file: the header, one line of three integer coordinates per
      vertex, and one face line per polygon. */
  function ZipperText(verts: seq<seq<int>>, polys: seq<seq<int>>): seq<string> {
    HeaderText(|verts|, |polys|) + VertexText(verts) + FaceText(polys)
  }

  /** Reading back a zipper file whose vertices have three coordinates
      gives its vertices and the fans of its polygons. */
  lemma ZipperRoundTrip(verts: seq<seq<int>>, polys: seq<seq<int>>)
    requires forall k :: 0 <= k < |verts| ==> |verts[k]| == 3
    ensures ReadZipper(ZipperText(verts, polys)) == Ok(Mesh(RealVertices(verts), Fans(polys)))
  {
    ZipperTextLines(verts, polys);
    ZipperLinesRead(ZipperText(verts, polys), verts, polys);
  }

  /** Block by block, what `ZipperText` writes. */
  lemma ZipperTextLines(verts: seq<seq<int>>, polys: seq<seq<int>>)
    ensures var lines := ZipperText(verts, polys); var e := 9 + |verts|;
      && |lines| == e + |polys|
      && lines[..9] == HeaderText(|verts|, |polys|)
      && lines[9..e] == VertexText(verts)
      && lines[e..e + |polys|] == FaceText(polys)
  {
    var lines := ZipperText(verts, polys);
    assert lines == HeaderText(|verts|, |polys|) + VertexText(verts) + FaceText(polys);
    assert lines[..9] == HeaderText(|verts|, |polys|);
    assert lines[9..9 + |verts|] == VertexText(verts);
    assert lines[9 + |verts|..9 + |verts| + |polys|] == FaceText(polys);
  }

  /** Lines laid out as `ZipperText` lays them out read back as the mesh. */
  lemma ZipperLinesRead(lines: seq<string>, verts: seq<seq<int>>, polys: seq<seq<int>>)
    requires forall k :: 0 <= k < |verts| ==> |verts[k]| == 3
    requires |lines| == 9 + |verts| + |polys|
    requires lines[..9] == HeaderText(|verts|, |polys|)
    requires lines[9..9 + |verts|] == VertexText(verts)
    requires lines[9 + |verts|..9 + |verts| + |polys|] == FaceText(polys)
    ensures ReadZipper(lines) == Ok(Mesh(RealVertices(verts), Fans(polys)))
  {
    ZipperLinesWords(lines, verts, polys);
    ZipperWordsRead(Words(lines), verts, polys);
  }

  /** The words of lines laid out as `ZipperText` lays them out. */
  lemma ZipperLinesWords(lines: seq<string>, verts: seq<seq<int>>, polys: seq<seq<int>>)
    requires |lines| == 9 + |verts| + |polys|
    requires lines[..9] == HeaderText(|verts|, |polys|)
    requires lines[9..9 + |verts|] == VertexText(verts)
    requires lines[9 + |verts|..9 + |verts| + |polys|] == FaceText(polys)
    ensures Rows(Words(lines), 0, 9) == HeaderRows(|verts|, |polys|)
    ensures Rows(Words(lines), 9, |verts|) == VertexRows(verts)
    ensures Rows(Words(lines), 9 + |verts|, |polys|) == FaceRows(polys)
  {
    HeaderRowsOfText(lines, |verts|, |polys|);
    VertexRowsOfText(lines, verts, 9);
    FaceRowsOfText(lines, polys, 9 + |verts|);
  }

  /** The words of the header lines are the header entries. */
  lemma HeaderRowsOfText(lines: seq<string>, nv: nat, nf: nat)
    requires |lines| >= 9 && lines[..9] == HeaderText(nv, nf)
    ensures Rows(Words(lines), 0, 9) == HeaderRows(nv, nf)
  {
    var rows := HeaderRows(nv, nf);
    forall j | 0 <= j < 9
      ensures Split(lines[0 + j]) == rows[j]
    {
      assert lines[j] == lines[..9][j];
      HeaderLineWords(nv, nf, j);
      SplitJoin(HeaderEntry(nv, nf, j));
    }
    RowsOfSlice(lines, 0, rows);
  }

  /** Rows of words as `ZipperText` writes them read back as the mesh. */
  lemma ZipperWordsRead(words: seq<seq<string>>, verts: seq<seq<int>>, polys: seq<seq<int>>)
    requires forall k :: 0 <= k < |verts| ==> |verts[k]| == 3
    requires Rows(words, 0, 9) == HeaderRows(|verts|, |polys|)
    requires Rows(words, 9, |verts|) == VertexRows(verts)
    requires Rows(words, 9 + |verts|, |polys|) == FaceRows(polys)
    ensures ZipperBody(words) == Ok(Mesh(RealVertices(verts), Fans(polys)))
  {
    var nv, nf := |verts|, |polys|;
    ZipperHeaderRead(words, nv, nf);
    ZipperMeshRead(Rows(words, 9, nv), Rows(words, 9 + nv, nf), verts, polys);
    ZipperBodyIs(words, 9, nv, nf);
  }

  /** Once the header loop has set both counts, the body is the mesh of
      the rows they delimit. */
  lemma ZipperBodyIs(words: seq<seq<string>>, next: nat, nv: nat, nf: nat)
    ensures ZipperHeader(LineKinds(words), 0, None, None) == Ok((next, Some(nv as int), Some(nf as int)))
      ==> ZipperBody(words) == ZipperMesh(Rows(words, next, nv), Some(Rows(words, next + nv, nf)))
  {
    assert Times(nv) == nv && Times(nf) == nf;
  }

  /** Printed vertex rows of three coordinates and face rows read back as
      the mesh. */
  lemma ZipperMeshRead(vertexRows: seq<seq<string>>, faceRows: seq<seq<string>>, verts: seq<seq<int>>, polys: seq<seq<int>>)
    requires forall k :: 0 <= k < |verts| ==> |verts[k]| == 3
    requires vertexRows == VertexRows(verts) && faceRows == FaceRows(polys)
    ensures ZipperMesh(vertexRows, Some(faceRows)) == Ok(Mesh(RealVertices(verts), Fans(polys)))
  {
    ZipperVerticesRead(verts);
    FaceLinesRead(polys);
  }

  /** The header loop stops after line 9 with both counts set. */
  lemma ZipperHeaderRead(words: seq<seq<string>>, nv: nat, nf: nat)
    requires Rows(words, 0, 9) == HeaderRows(nv, nf)
    ensures ZipperHeader(LineKinds(words), 0, None, None) == Ok((9, Some(nv as int), Some(nf as int)))
  {
    RowsPrefix(words, HeaderRows(nv, nf));
    ZipperHeaderKinds(words, nv, nf);
  }

  /** Rows from line 0 that end in a non-empty row are a prefix of the
      words. */
  lemma RowsPrefix(words: seq<seq<string>>, rows: seq<seq<string>>)
    requires |rows| > 0 && |rows[|rows| - 1]| > 0
    requires Rows(words, 0, |rows|) == rows
    ensures |words| >= |rows| && words[..|rows|] == rows
  {
    assert WordsAt(words, |rows| - 1) == rows[|rows| - 1];
  }

  lemma ZipperHeaderKinds(words: seq<seq<string>>, nv: nat, nf: nat)
    requires |words| >= 9 && words[..9] == HeaderRows(nv, nf)
    ensures ZipperHeader(LineKinds(words), 0, None, None) == Ok((9, Some(nv as int), Some(nf as int)))
  {
    var kinds := LineKinds(words);
    forall j | 0 <= j < 9
      ensures kinds[j] == HeaderKind(nv, nf, j)
    {
      assert words[j] == words[..9][j];
      HeaderEntryKind(nv, nf, j);
    }
    ZipperHeaderOfKinds(kinds, nv, nf);
  }

  /** What header line `j` as written says. */
  function HeaderKind(nv: nat, nf: nat, j: nat): HeaderLine {
    if j == 2 then VertexCount(nv)
    else if j == 6 then FaceCount(nf)
    else if j == 8 then EndHeader
    else OtherLine
  }

  lemma HeaderEntryKind(nv: nat, nf: nat, j: nat)
    requires j < 9
    ensures HeaderWords(HeaderEntry(nv, nf, j)) == HeaderKind(nv, nf, j)
  {
    if j == 2 {
      ParseIntOfNat(nv);
    } else if j == 6 {
      ParseIntOfNat(nf);
    }
  }

  /** Nine lines that say what the written header says end the header
      loop after line 9 with both counts set. */
  lemma ZipperHeaderOfKinds(kinds: seq<HeaderLine>, nv: nat, nf: nat)
    requires |kinds| >= 9 && forall j :: 0 <= j < 9 ==> kinds[j] == HeaderKind(nv, nf, j)
    ensures ZipperHeader(kinds, 0, None, None) == Ok((9, Some(nv as int), Some(nf as int)))
  {
    var done := Ok((9, Some(nv as int), Some(nf as int)));
    assert kinds[8] == EndHeader;
    assert ZipperHeader(kinds, 8, Some(nv as int), Some(nf as int)) == done;
    assert kinds[7] == OtherLine;
    assert ZipperHeader(kinds, 7, Some(nv as int), Some(nf as int)) == done;
    assert kinds[6] == FaceCount(nf);
    assert ZipperHeader(kinds, 6, Some(nv as int), None) == done;
    assert kinds[5] == OtherLine;
    assert ZipperHeader(kinds, 5, Some(nv as int), None) == done;
    assert kinds[4] == OtherLine;
    assert ZipperHeader(kinds, 4, Some(nv as int), None) == done;
    assert kinds[3] == OtherLine;
    assert ZipperHeader(kinds, 3, Some(nv as int), None) == done;
    assert kinds[2] == VertexCount(nv);
    assert ZipperHeader(kinds, 2, None, None) == done;
    assert kinds[1] == OtherLine && kinds[0] == OtherLine;
  }

  /** Printed vertex rows of three coordinates read back as the vertices. */
  lemma ZipperVerticesRead(verts: seq<seq<int>>)
    requires forall k :: 0 <= k < |verts| ==> |verts[k]| == 3
    ensures ZipperVertices(VertexRows(verts)) == Ok(RealVertices(verts))
  {
    var rows, vs := VertexRows(verts), RealVertices(verts);
    forall k | 0 <= k < |rows|
      ensures ZipperVertex(rows[k]) == Ok(vs[k])
    {
      CoordsRead(verts[k]);
    }
    ReadRowsOf(rows, ZipperVertex, vs);
  }

  /** Three printed coordinates read back as the coordinates. */
  lemma CoordsRead(v: seq<int>)
    requires |v| == 3
    ensures ZipperVertex(IntWords(v)) == Ok(Reals(v))
  {
    ParseRealsOfInts(v);
    assert IntWords(v)[..3] == IntWords(v);
  }

  /** Every header entry is made of words. */
  lemma HeaderLineWords(nv: nat, nf: nat, j: nat)
    requires j < 9
    ensures AllWords(HeaderEntry(nv, nf, j))
  {
    if j == 2 {
      CountLineWords("vertex", nv);
    } else if j == 6 {
      CountLineWords("face", nf);
    } else if j == 0 {
      assert IsWord("ply");
    } else if j == 1 {
      FormatLineWords();
    } else if j == 3 || j == 4 || j == 5 {
      CoordLineWords();
    } else if j == 7 {
      ListLineWords();
    } else {
      assert IsWord("end_header");
    }
  }

  lemma CountLineWords(element: string, n: nat)
    requires element == "vertex" || element == "face"
    ensures AllWords(["element", element, NatToString(n)])
  {
    NatWord(n);
    assert IsWord("element") && IsWord("vertex") && IsWord("face");
  }

  lemma FormatLineWords()
    ensures AllWords(["format", "ascii", "1.0"])
  {
    assert IsWord("format") && IsWord("ascii") && IsWord("1.0");
  }

  lemma CoordLineWords()
    ensures AllWords(["property", "float", "x"])
    ensures AllWords(["property", "float", "y"])
    ensures AllWords(["property", "float", "z"])
  {
    assert IsWord("property") && IsWord("float");
    assert IsWord("x") && IsWord("y") && IsWord("z");
  }

  lemma ListLineWords()
    ensures AllWords(["property", "list", "uchar", "int", "vertex_indices"])
  {
    assert IsWord("property") && IsWord("list") && IsWord("uchar");
    assert IsWord("int") && IsWord("vertex_indices");
  }

}
