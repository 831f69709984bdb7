/** `load_meshes_helper` of otb/utils.cpp: the filter that decides which
    shapes of a parsed OBJ file become meshes. The filesystem queries and the
    tinyobj parser are not modelled; their answers are parameters. */
module MeshLoading {
  import opened Wrappers
  import opened Scalar
  import opened Geometry
  import opened UniqueIndex
  import opened Meshes

  /** `tinyobj::mesh_t`: flat arrays of floats and of `unsigned int` indices. */
  datatype Shape = Shape(positions: seq<real>, normals: seq<real>,
                         texcoords: seq<real>, indices: seq<U32Value>)

  function VertexCount(s: Shape): nat { |s.positions| / 3 }
  function NormalCount(s: Shape): nat { |s.normals| / 3 }
  function TexCoordCount(s: Shape): nat { |s.texcoords| / 2 }
  function TriangleCount(s: Shape): nat { |s.indices| / 3 }

  /** The acceptance test: some vertices, some triangles, and one normal and
      one texture coordinate per vertex. */
  predicate Accepts(s: Shape)
  {
    !(VertexCount(s) == 0 || TriangleCount(s) == 0 ||
      NormalCount(s) != VertexCount(s) || TexCoordCount(s) != VertexCount(s))
  }

  /** The `memcpy` of whole `vec3`s out of a float array: trailing floats
      that do not fill a vector are dropped. */
  function Vec3s(f: seq<real>): (v: seq<Vec3>)
    ensures |v| == |f| / 3
    ensures forall i :: 0 <= i < |v| ==> v[i] == Vec3(f[3 * i], f[3 * i + 1], f[3 * i + 2])
  {
    seq(|f| / 3, i requires 0 <= i < |f| / 3 => Vec3(f[3 * i], f[3 * i + 1], f[3 * i + 2]))
  }

  function Vec2s(f: seq<real>): (v: seq<Vec2>)
    ensures |v| == |f| / 2
    ensures forall i :: 0 <= i < |v| ==> v[i] == Vec2(f[2 * i], f[2 * i + 1])
  {
    seq(|f| / 2, i requires 0 <= i < |f| / 2 => Vec2(f[2 * i], f[2 * i + 1]))
  }

  function Faces(f: seq<U32Value>): (v: seq<Face>)
    ensures |v| == |f| / 3
    ensures forall i :: 0 <= i < |v| ==> v[i] == Face(f[3 * i], f[3 * i + 1], f[3 * i + 2])
  {
    seq(|f| / 3, i requires 0 <= i < |f| / 3 => Face(f[3 * i], f[3 * i + 1], f[3 * i + 2]))
  }

  /** The mesh built from a shape holds exactly the shape's converted arrays. */
  predicate BuiltFrom(m: Mesh, s: Shape)
  {
    m.vertices == Vec3s(s.positions) && m.normals == Vec3s(s.normals) &&
    m.coords == Vec2s(s.texcoords) && m.faces == Faces(s.indices)
  }

  /** The shapes the loop keeps, in their original order. */
  function Accepted(shapes: seq<Shape>): (r: seq<Shape>)
    ensures |r| <= |shapes|
  {
    if shapes == [] then []
    else
      var last := shapes[|shapes| - 1];
      Accepted(shapes[..|shapes| - 1]) + if Accepts(last) then [last] else []
  }

  /** The early return: an empty path, a missing file or an extension other
      than ".obj". */
  predicate PathAccepted(path: string, fileExists: bool, extension: string)
  {
    !(path == [] || !fileExists || extension != ".obj")
  }

  /** The shapes that become meshes, or none when the path is rejected or
      the parse fails. */
  function Loadable(path: string, fileExists: bool, extension: string,
                    parsed: Option<seq<Shape>>): seq<Shape>
  {
    if !PathAccepted(path, fileExists, extension) || parsed.None? then []
    else Accepted(parsed.value)
  }

  /** `added` are the meshes built from `loaded`, one each and in order,
      with the indices a counter starting at `start` hands out. */
  predicate LoadedFrom(added: seq<Mesh>, loaded: seq<Shape>, start: U32Value)
  {
    |added| == |loaded| &&
    forall m :: 0 <= m < |added| ==>
      BuiltFrom(added[m], loaded[m]) && added[m].index == Issued(start, |loaded|)[m]
  }

  /** One more accepted shape, built into the mesh that takes the next index. */
  lemma LoadedFromStep(added: seq<Mesh>, loaded: seq<Shape>, start: U32Value, mesh: Mesh, shape: Shape)
    requires LoadedFrom(added, loaded, start) && BuiltFrom(mesh, shape)
    requires mesh.index == Wrap32(start + |loaded|)
    ensures LoadedFrom(added + [mesh], loaded + [shape], start)
  {
    IssuedStep(start, |loaded|);
    var issued := Issued(start, |loaded| + 1);
    forall m | 0 <= m < |added| + 1
      ensures BuiltFrom((added + [mesh])[m], (loaded + [shape])[m])
      ensures (added + [mesh])[m].index == issued[m]
    {
      if m < |added| {
        assert issued[m] == Issued(start, |loaded|)[m];
      }
    }
  }

  /** The body of the loop for an accepted shape: the mesh built from it,
      with the counter's next index, is appended. */
  method AddMesh(shape: Shape, counter: IndexCounter, result: seq<Mesh>,
                 ghost loaded: seq<Shape>, ghost start: U32Value, ghost base: nat)
    returns (r: seq<Mesh>)
    requires counter.Valid() && base <= |result|
    requires LoadedFrom(result[base..], loaded, start) && counter.next == Wrap32(start + |loaded|)
    modifies counter
    ensures counter.Valid() && counter.next == Wrap32(start + |loaded| + 1)
    ensures |r| == |result| + 1 && r[..|result|] == result && fresh(r[|result|])
    ensures LoadedFrom(r[base..], loaded + [shape], start)
  {
    IssuedStep(start, |loaded|);
    var mesh := new Mesh(counter, Vec3s(shape.positions), Vec3s(shape.normals),
                         Vec2s(shape.texcoords), Faces(shape.indices));
    LoadedFromStep(result[base..], loaded, start, mesh, shape);
    r := result + [mesh];
    assert r[base..] == result[base..] + [mesh];
  }

  /** The loop over the parsed shapes: each accepted shape becomes a mesh
      appended to `meshes`. */
  method LoadShapes(shapes: seq<Shape>, counter: IndexCounter, meshes: seq<Mesh>)
    returns (result: seq<Mesh>)
    requires counter.Valid()
    modifies counter
    ensures counter.Valid()
    ensures |meshes| <= |result| && result[..|meshes|] == meshes
    ensures LoadedFrom(result[|meshes|..], Accepted(shapes), old(counter.next))
    ensures counter.next == Wrap32(old(counter.next) + |Accepted(shapes)|)
    ensures forall k :: |meshes| <= k < |result| ==> fresh(result[k])
  {
    result := meshes;
    ghost var start := counter.next;
    var i := 0;
    while i < |shapes|
      invariant 0 <= i <= |shapes|
      invariant counter.Valid()
      invariant |meshes| <= |result| && result[..|meshes|] == meshes
      invariant LoadedFrom(result[|meshes|..], Accepted(shapes[..i]), start)
      invariant counter.next == Wrap32(start + |Accepted(shapes[..i])|)
      invariant forall k :: |meshes| <= k < |result| ==> fresh(result[k])
    {
      var shape := shapes[i];
      assert shapes[..i + 1][..i] == shapes[..i];
      if Accepts(shape) {
        ghost var prev := result;
        result := AddMesh(shape, counter, result, Accepted(shapes[..i]), start, |meshes|);
        assert result[..|meshes|] == prev[..|meshes|];
        assert Accepted(shapes[..i + 1]) == Accepted(shapes[..i]) + [shape];
      } else {
        assert Accepted(shapes[..i + 1]) == Accepted(shapes[..i]);
      }
      i := i + 1;
    }
    assert shapes[..i] == shapes;
  }

  /** `load_meshes_helper(path, meshes)`: `fileExists`, `extension` and
      `parsed` are what `elk::exists`, `path.extension()` and
      `tinyobj::LoadObj` answer. The accepted shapes are appended to
      `meshes` as fresh meshes whose indices come from the counter, one
      after the other; nothing else is appended. */
  method LoadMeshesHelper(path: string, fileExists: bool, extension: string,
                          parsed: Option<seq<Shape>>, counter: IndexCounter,
                          meshes: seq<Mesh>)
    returns (result: seq<Mesh>)
    requires counter.Valid()
    modifies counter
    ensures counter.Valid()
    ensures var loaded := Loadable(path, fileExists, extension, parsed);
      |meshes| <= |result| && result[..|meshes|] == meshes &&
      LoadedFrom(result[|meshes|..], loaded, old(counter.next)) &&
      counter.next == Wrap32(old(counter.next) + |loaded|)
    ensures forall k :: |meshes| <= k < |result| ==> fresh(result[k])
  {
    result := meshes;
    if !PathAccepted(path, fileExists, extension) {
      return;
    }
    if parsed.None? {
      return;
    }
    result := LoadShapes(parsed.value, counter, meshes);
  }

  /** `load_meshes(path)`: the meshes `load_meshes_helper` appends to an
      empty vector. */
  method LoadMeshes(path: string, fileExists: bool, extension: string,
                    parsed: Option<seq<Shape>>, counter: IndexCounter)
    returns (meshes: seq<Mesh>)
    requires counter.Valid()
    modifies counter
    ensures counter.Valid()
    ensures var loaded := Loadable(path, fileExists, extension, parsed);
      LoadedFrom(meshes, loaded, old(counter.next)) &&
      counter.next == Wrap32(old(counter.next) + |loaded|)
    ensures forall k :: 0 <= k < |meshes| ==> fresh(meshes[k])
  {
    meshes := LoadMeshesHelper(path, fileExists, extension, parsed, counter, []);
    assert meshes[0..] == meshes;
  }

  /** Filtering distributes over concatenation: the shapes kept from a
      longer file are those kept from each part, in order. */
  lemma {:induction false} AcceptedAppend(s: seq<Shape>, t: seq<Shape>)
    ensures Accepted(s + t) == Accepted(s) + Accepted(t)
  {
    if t == [] {
      assert s + t == s;
    } else {
      var last := t[|t| - 1];
      assert (s + t)[..|s + t| - 1] == s + t[..|t| - 1];
      AcceptedAppend(s, t[..|t| - 1]);
    }
  }

  /** A shape is kept exactly when it occurs in the input and passes the
      test: rejected shapes are skipped, never fatal. */
  lemma {:induction false} AcceptedMembers(shapes: seq<Shape>, x: Shape)
    ensures x in Accepted(shapes) <==> x in shapes && Accepts(x)
  {
    if shapes != [] {
      var init := shapes[..|shapes| - 1];
      AcceptedMembers(init, x);
      assert shapes == init + [shapes[|shapes| - 1]];
    }
  }

  /** Every mesh built from a kept shape has as many vertices as normals and
      texture coordinates, and at least one vertex and one face. */
  lemma AcceptedShapesAreConsistent(s: Shape)
    requires Accepts(s)
    ensures |Vec3s(s.positions)| == |Vec3s(s.normals)| == |Vec2s(s.texcoords)| > 0
    ensures |Faces(s.indices)| > 0
  {
  }
}
