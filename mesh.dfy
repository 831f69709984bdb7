/** `mesh_t` of otb/mesh.hpp: a container of vertex positions, normals,
    texture coordinates and triangular faces, identified by an index drawn
    from the global counter when it is built. Every field is fixed at
    construction (the index is `const`, the vectors have only const
    accessors), so each is a `const` field here. */
module Meshes {
  import opened Scalar
  import opened Geometry
  import opened UniqueIndex

  /** `face_t`: three `uint32_t` vertex indices. */
  datatype Face = Face(v0: U32Value, v1: U32Value, v2: U32Value)

  class Mesh {
    const index: U32Value
    const vertices: seq<Vec3>
    const normals: seq<Vec3>
    const coords: seq<Vec2>
    const faces: seq<Face>

    /** The constructor takes its index from `generate_unique_index` and
        keeps the four vectors it is given. */
    constructor (counter: IndexCounter, vertices: seq<Vec3>, normals: seq<Vec3>,
                 coords: seq<Vec2>, faces: seq<Face>)
      requires counter.Valid()
      modifies counter
      ensures counter.Valid()
      ensures index == old(counter.next) && counter.next == Wrap32(old(counter.next) + 1)
      ensures this.vertices == vertices && this.normals == normals
      ensures this.coords == coords && this.faces == faces
    {
      var i := counter.Generate();
      index := i;
      this.vertices := vertices;
      this.normals := normals;
      this.coords := coords;
      this.faces := faces;
    }
  }
}
