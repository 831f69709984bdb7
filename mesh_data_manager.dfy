/** The `_data` table of `mesh_data_manager` (otb/mesh_data_manager.hpp,
    otb/mesh_data_manager.cpp): per mesh index, the three vertex array
    objects `bind_data` creates and the four `buffer_manager` indices they
    were built from. The GL calls are left out; the three names
    `glGenVertexArrays` returns are parameters. */
module MeshData {
  import opened Scalar
  import opened Tables
  import opened Meshes
  import opened Buffers

  /** `mesh_data_manager::data` */
  datatype Record = Record(
    baseVao: U32Value, occlusionVao: U32Value, wireframeVao: U32Value,
    verticesIndex: nat, normalsIndex: nat, texCoordsIndex: nat, facesIndex: nat)

  class MeshDataManager {
    /** `_buffer_mgr`: the reference is fixed at construction. */
    const bufferManager: BufferManager
    /** `_data` */
    var data: seq<Record>

    constructor (bufferManager: BufferManager)
      ensures this.bufferManager == bufferManager && data == []
    {
      this.bufferManager := bufferManager;
      data := [];
    }

    /** `bind_data`: reads the four buffer handles through the buffer
        manager's unchecked `operator[]` and inserts the record at
        `mesh.index`, which must not be past the end of the table. */
    method BindData(mesh: Mesh, verticesIndex: nat, normalsIndex: nat, texCoordsIndex: nat,
                    facesIndex: nat, baseVao: U32Value, occlusionVao: U32Value, wireframeVao: U32Value)
      requires mesh.index <= |data|
      requires verticesIndex < |bufferManager.buffers| && normalsIndex < |bufferManager.buffers|
      requires texCoordsIndex < |bufferManager.buffers| && facesIndex < |bufferManager.buffers|
      modifies this
      ensures data == Inserted(old(data), mesh.index,
        Record(baseVao, occlusionVao, wireframeVao, verticesIndex, normalsIndex, texCoordsIndex, facesIndex))
      ensures bufferManager.buffers == old(bufferManager.buffers)
    {
      var vertices := bufferManager.At(verticesIndex);
      var normals := bufferManager.At(normalsIndex);
      var texCoords := bufferManager.At(texCoordsIndex);
      var faces := bufferManager.At(facesIndex);
      data := Inserted(data, mesh.index,
        Record(baseVao, occlusionVao, wireframeVao, verticesIndex, normalsIndex, texCoordsIndex, facesIndex));
    }

    /** `get(const mesh_t&)` and `operator[](const mesh_t&)`: the unchecked
        read `_data[mesh.index]`. */
    function Get(mesh: Mesh): (r: Record)
      reads this
      requires mesh.index < |data|
      ensures r == GetAt(mesh.index)
    {
      data[mesh.index]
    }

    /** `get(uint32_t)` and `operator[](uint32_t)`. */
    function GetAt(meshIndex: U32Value): Record
      reads this
      requires meshIndex < |data|
    {
      data[meshIndex]
    }
  }
}
