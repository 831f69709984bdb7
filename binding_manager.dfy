/** The `_data` table of `binding_manager` (otb/binding_manager.hpp,
    otb/binding_manager.cpp): per mesh index, the three vertex array
    objects `bind_data` creates. The GL calls that set the VAOs up are left
    out; the three names `glGenVertexArrays` returns are parameters. */
module Bindings {
  import opened Scalar
  import opened Tables
  import opened Meshes

  /** `binding_manager::data` */
  datatype Record = Record(baseVao: U32Value, occlusionVao: U32Value, wireframeVao: U32Value)

  /** The value-initialised record `resize` appends. */
  const DefaultRecord := Record(0, 0, 0)

  /** The table after `bind_data` for a mesh whose index is `index`: when
      the index is past the end the table is first resized to `index + 1`,
      and the record is then inserted (not stored) at `index`. */
  function Bound(data: seq<Record>, index: U32Value, rec: Record): (r: seq<Record>)
    requires index < U32Max
    ensures |r| == if index < |data| then |data| + 1 else index + 2
    ensures r[..index] == data[..if index < |data| then index else |data|] +
      seq(if index < |data| then 0 else index - |data|, _ => DefaultRecord)
    ensures r[index] == rec
    ensures index < |data| ==> r[index + 1..] == data[index..]
    ensures index >= |data| ==> r[index + 1] == DefaultRecord
  {
    var grown := if index < |data| then data else Resized(data, index + 1, DefaultRecord);
    Inserted(grown, index, rec)
  }

  class BindingManager {
    /** `_data` */
    var data: seq<Record>

    constructor ()
      ensures data == []
    {
      data := [];
    }

    /** `bind_data`: records the mesh's three VAOs, base, occlusion and
        wireframe in that order. */
    method BindData(mesh: Mesh, baseVao: U32Value, occlusionVao: U32Value, wireframeVao: U32Value)
      requires mesh.index < U32Max
      modifies this
      ensures data == Bound(old(data), mesh.index, Record(baseVao, occlusionVao, wireframeVao))
      ensures mesh.index < |data| && Get(mesh) == Record(baseVao, occlusionVao, wireframeVao)
    {
      if mesh.index >= |data| {
        data := Resized(data, mesh.index + 1, DefaultRecord);
      }
      data := Inserted(data, mesh.index, Record(baseVao, occlusionVao, wireframeVao));
    }

    /** `get(const mesh_t&)` and `operator[](const mesh_t&)`: the unchecked
        read `_data[mesh.index]`. */
    function Get(mesh: Mesh): (r: Record)
      reads this
      requires mesh.index < |data|
      ensures r == GetAt(mesh.index)
    {
      data[mesh.index]
    }

    /** `get(uint32_t)` and `operator[](uint32_t)`. */
    function GetAt(meshIndex: U32Value): Record
      reads this
      requires meshIndex < |data|
    {
      data[meshIndex]
    }
  }

  /** Binding a mesh whose index is already in the table does not lose the
      record it displaces: that one moves to `index + 1`. */
  lemma BindShiftsExisting(data: seq<Record>, index: U32Value, rec: Record)
    requires index < |data| && index < U32Max
    ensures Bound(data, index, rec)[index + 1] == data[index]
  {
    var r := Bound(data, index, rec);
    assert r[index + 1..][0] == data[index..][0];
  }
}
