# gltfpack glTF loading and meshoptimizer index adapters, in Dafny

This project models two pieces of meshoptimizer.

**gltfpack's glTF loader** (`gltf/parsegltf.cpp`):

- `parseGltf` runs cgltf's parse, buffer load and validation steps. It then reports, in a fixed order, the first problem found: a cgltf failure (`getError`), a required Draco extension, a required `MESHOPT_compression` extension (`requiresExtension`), or a buffer without data. A document with no problem becomes gltfpack meshes.
- `parseMeshesGltf` turns glTF primitives into gltfpack meshes, one per primitive:
  - it skips indexed point clouds;
  - it reads each index cut to 32 bits, or synthesises `0, 1, ...` for an unindexed primitive that is not a point cloud;
  - it normalises the topology with `fixupIndices`: line loops and strips become line lists, triangle strips and fans become triangle lists;
  - it keeps only attributes with a known semantic and tags morph-target streams with their target number plus one.
- `parseMeshNodesGltf` attaches each node that instances a mesh to that mesh. Where the mesh already has nodes and the node's skin differs from the mesh's skin, it attaches the node to a copy instead. A final pass empties every mesh no node uses.

**meshoptimizer's C++ template layer** (`src/meshoptimizer.h`):

- `meshopt_IndexAdapter` widens an index buffer of any integer type `T` into a fresh 32-bit buffer. When it is destroyed, it narrows that buffer back into the caller's array.
- Its zero-copy specialisation hands over the caller's own array when `T` has the size of `unsigned int`.
- Each forwarding template wraps one algorithm in these adapters. The model covers the six different shapes of those templates.
- `meshopt_quantizeHalf` converts a binary32 bit pattern to binary16 with integer operations only. The model proves it equal to a field-by-field reference conversion. It also proves: sign preservation, flush-to-zero, overflow to infinity, NaN to quiet NaN, round to nearest, exactness, and monotonicity.

Modules:

| Module | File | Contents |
|---|---|---|
| `Ints` | `ints.dfy` | `uint32`/`uint16` and the truncating cast `unsigned(...)` |
| `Options` | `options.dfy` | `Option` (a null pointer) |
| `Bits` | `bits.dfy` | `&` and `|` on naturals and their laws |
| `HalfFloat` | `half.dfy` | `meshopt_quantizeHalf` |
| `Topology` | `topology.dfy` | `fixupIndices` |
| `GltfData` | `gltf_data.dfy` | the cgltf document and gltfpack's `Mesh`/`Stream` |
| `MeshParse` | `mesh_parse.dfy` | `parseMeshesGltf` |
| `MeshNodes` | `mesh_nodes.dfy` | `parseMeshNodesGltf` |
| `GltfLoad` | `gltf_load.dfy` | `getError`, `requiresExtension`, `parseGltf` |
| `IndexAdapter` | `adapter.dfy` | `meshopt_IndexAdapter` and the templates |

How the C++ maps to Dafny:

- **Loops are methods.** Each loop of the source is a method with a `while` loop. Its `ensures` ties the result to a recursive reference function, and lemmas prove the properties of that function.
- **By-reference parameters are in and out parameters.** For example, `fixupIndices(indices, type)` takes the list and the mode and returns the new list and mode.
- **Arrays stay arrays.** The adapter's buffers and the caller's index arrays are `array<nat>`. The adapter is a class, and its destructor is the method `Release`.

## Model

| member | source | states |
|---|---|---|
| `Topology.FixupIndices` | gltf/parsegltf.cpp:64-126 | the new index list and mode are exactly the normalisation of the old ones |
| `Topology.LoopToLines` | gltf/parsegltf.cpp:66-79 | the loop over `i = 1 .. n` pushing `(indices[i-1], indices[i % n])` yields the loop's line list |
| `Topology.LoopLinesAt` | gltf/parsegltf.cpp:71-75 | a loop of n vertices has 2n line indices; segment k joins vertex k to vertex (k+1) mod n, so the last segment closes the loop |
| `Topology.LoopLinesEmpty` | gltf/parsegltf.cpp:66-79 | an empty loop yields no segments |
| `Topology.StripToLines` | gltf/parsegltf.cpp:80-93 | the loop over `i = 1 .. n-1` yields the strip's line list |
| `Topology.StripLinesLength` | gltf/parsegltf.cpp:85-89 | a strip of n vertices has 2(n-1) line indices, none when empty |
| `Topology.StripLinesAt` | gltf/parsegltf.cpp:85-89 | segment k of a strip joins vertex k to vertex k+1 |
| `Topology.StripToTriangles` | gltf/parsegltf.cpp:94-110 | the loop with `flip = i & 1` yields the strip's triangle list |
| `Topology.StripTrianglesLength` | gltf/parsegltf.cpp:99-106 | a strip of n vertices has 3(n-2) triangle indices, none below three vertices |
| `Topology.StripTrianglesFromAt` | gltf/parsegltf.cpp:99-106 | triangle k of a strip consists of vertices k, k+1, k+2, with the first two swapped on every other triangle |
| `Topology.TriangleStripAt` | gltf/parsegltf.cpp:99-106 | the triangle ending at vertex i is (i-2, i-1, i) for even i and (i-1, i-2, i) for odd i, so the winding is kept |
| `Topology.FanToTriangles` | gltf/parsegltf.cpp:111-125 | the loop over `i = 2 .. n-1` yields the fan's triangle list |
| `Topology.FanTrianglesLength` | gltf/parsegltf.cpp:116-121 | a fan of n vertices has 3(n-2) triangle indices |
| `Topology.FanTrianglesFromAt` | gltf/parsegltf.cpp:116-121 | fan triangle k consists of the centre and rim vertices k and k+1 |
| `Topology.TriangleFanAt` | gltf/parsegltf.cpp:116-121 | the triangle ending at vertex i is (0, i-1, i) |
| `Topology.ShortInputs` | gltf/parsegltf.cpp:85-121 | strips and fans of fewer than three vertices give no triangles; strips of fewer than two vertices give no segments |
| `Topology.NormalizeType` | gltf/parsegltf.cpp:64-126 | the new mode is a list mode; lines come exactly from loops and strips, triangles exactly from strips and fans; list modes are untouched; normalising again changes nothing |
| `Topology.StripLinesValues` | gltf/parsegltf.cpp:85-89 | every index in a strip's segments is a strip vertex |
| `Topology.StripTrianglesValues` | gltf/parsegltf.cpp:99-106 | every index in a strip's triangles is a strip vertex |
| `Topology.FanTrianglesValues` | gltf/parsegltf.cpp:116-121 | every index in a fan's triangles is the centre or a rim vertex |
| `Topology.NormalizeValues` | gltf/parsegltf.cpp:64-126 | every index after normalisation was an index before it |
| `Topology.NormalizeInBounds` | gltf/parsegltf.cpp:64-126 | indices below a vertex count stay below it |
| `MeshParse.ReadIndices` | gltf/parsegltf.cpp:150-164 | the index read-out and synthesis loops yield the primitive's initial index list |
| `MeshParse.IndexedIndices` | gltf/parsegltf.cpp:150-155 | an indexed primitive gets one index per accessor element, each cut to 32 bits |
| `MeshParse.UnindexedIndices` | gltf/parsegltf.cpp:156-164 | an unindexed non-point primitive gets indices 0 .. count-1, count being its first attribute's count or 0 |
| `MeshParse.UnindexedPoints` | gltf/parsegltf.cpp:150-166 | an unindexed point cloud gets no indices and stays a point cloud |
| `MeshParse.UnindexedInBounds` | gltf/parsegltf.cpp:156-166 | every synthesised index, after normalisation, names a vertex of the primitive |
| `MeshParse.ConvertPrimitiveShape` | gltf/parsegltf.cpp:146-213 | a mesh has a list mode, the primitive's material, its target count, its mesh's weights and names, and no nodes or skin |
| `MeshParse.AppendStreams` | gltf/parsegltf.cpp:168-188 | the attribute loop appends the streams of the known attributes to those already built |
| `MeshParse.ReadStreams` | gltf/parsegltf.cpp:168-209 | a mesh's streams are its base attributes followed by its morph targets' attributes |
| `MeshParse.AttributeStreamsFilter` | gltf/parsegltf.cpp:170-187 | streams come only from known attributes, carry their tag, every known attribute gives a stream, and the streams are all of them (or none) when all are known (or none) |
| `MeshParse.AttributeStreamsComplete` | gltf/parsegltf.cpp:168-188 | every attribute with a known semantic gives a stream with its type, index, tag and count |
| `MeshParse.TargetStreamsNumbered` | gltf/parsegltf.cpp:190-209 | a morph-target stream carries a target number between 1 and the target count |
| `MeshParse.PrimitiveStreamsTagged` | gltf/parsegltf.cpp:168-209 | the base streams come first, tagged 0, and all later streams are tagged 1 or more |
| `MeshParse.ParsePrimitive` | gltf/parsegltf.cpp:144-213 | a primitive that is not skipped becomes its converted mesh |
| `MeshParse.PrimitiveMeshesAllSkipped` | gltf/parsegltf.cpp:138-142 | a glTF mesh made only of indexed point clouds contributes nothing |
| `MeshParse.PrimitiveMeshesNoneSkipped` | gltf/parsegltf.cpp:134-216 | with nothing skipped, a glTF mesh contributes one mesh per primitive, in order |
| `MeshParse.PrimitiveMeshesUnattached` | gltf/parsegltf.cpp:144-215 | the new meshes of one glTF mesh have no nodes and no skin |
| `MeshParse.MeshesOfUnattached` | gltf/parsegltf.cpp:128-218 | no new mesh of the document has nodes or a skin |
| `MeshParse.AppendPrimitiveMeshes` | gltf/parsegltf.cpp:134-216 | the primitive loop appends the glTF mesh's meshes to the vector |
| `MeshParse.ParseMeshes` | gltf/parsegltf.cpp:128-218 | `parseMeshesGltf` appends the document's meshes to the caller's vector, keeping what was there |
| `MeshNodes.AttachNoMesh` | gltf/parsegltf.cpp:224-226 | a node without a mesh changes nothing |
| `MeshNodes.AttachJoins` | gltf/parsegltf.cpp:230-234 | a node joins its mesh when the mesh has no nodes or the same skin; only that mesh changes, its geometry is kept, and it takes the node's skin |
| `MeshNodes.AttachDuplicates` | gltf/parsegltf.cpp:236-244 | otherwise exactly one mesh is appended, holding the node alone with the same geometry and the node's skin (corrected version, see Findings) |
| `MeshNodes.AttachKeepsAttachedOnce` | gltf/parsegltf.cpp:222-245 | one loop step keeps every processed node with a mesh attached exactly once (corrected version, see Findings) |
| `MeshNodes.AttachAllOnce` | gltf/parsegltf.cpp:222-245 | after the first n nodes, each of them with a mesh is in exactly one mesh, once, and no other node is (corrected version, see Findings) |
| `MeshNodes.AttachKeepsSkins` | gltf/parsegltf.cpp:230-244 | one loop step keeps each mesh's skin equal to the skin of all its nodes (corrected version, see Findings) |
| `MeshNodes.AttachAllSkins` | gltf/parsegltf.cpp:222-245 | the attachment loop keeps each mesh's skin equal to the skin of all its nodes (corrected version, see Findings) |
| `MeshNodes.AttachAllGeometry` | gltf/parsegltf.cpp:222-245 | the attachment loop never changes the streams, indices or other geometry of an existing mesh |
| `MeshNodes.ClearUnusedSpec` | gltf/parsegltf.cpp:247-257 | a mesh without nodes loses its streams and indices and nothing else; other meshes are untouched |
| `MeshNodes.ClearUnusedIdempotent` | gltf/parsegltf.cpp:247-257 | the final pass is idempotent |
| `MeshNodes.MeshNodesOfSkins` | gltf/parsegltf.cpp:220-258 | after the function, every mesh's skin is the skin of all its nodes (corrected version, see Findings) |
| `MeshNodes.MeshNodesOfAttachesOnce` | gltf/parsegltf.cpp:220-258 | after the function, every node with a mesh is attached exactly once (corrected version, see Findings) |
| `MeshNodes.AsWrittenDuplicatesNodes` | gltf/parsegltf.cpp:240-243 | as written, two nodes sharing a mesh with skins 1 and 2 put node 0 in both meshes, and the copy's skin is not node 0's |
| `MeshNodes.ParseMeshNodes` | gltf/parsegltf.cpp:220-258 | the two loops leave the attached and cleared meshes |
| `GltfLoad.GetError` | gltf/parsegltf.cpp:7-38 | every result code maps to a non-empty message |
| `GltfLoad.GetErrorData` | gltf/parsegltf.cpp:11-33 | whether a document exists changes the message exactly for a missing file, short data and an unknown format |
| `GltfLoad.GetErrorNotGltf` | gltf/parsegltf.cpp:29-33 | "not a GLTF file" is reported exactly for short data or an unknown format without a document |
| `GltfLoad.GetErrorDistinct` | gltf/parsegltf.cpp:7-38 | two codes share a message only as "not a GLTF file" without a document, or as "unknown error" for success and invalid options |
| `GltfLoad.GetErrorNotOwn` | gltf/parsegltf.cpp:7-38 | no cgltf message equals one of gltfpack's three own messages |
| `GltfLoad.RequiresExtension` | gltf/parsegltf.cpp:303-310 | true exactly when the name is among the required extensions |
| `GltfLoad.CombinedResultFirst` | gltf/parsegltf.cpp:348-350 | the chained result is success exactly when all three steps succeed, and otherwise is the earliest failure |
| `GltfLoad.LoadErrorNone` | gltf/parsegltf.cpp:352-361 | no error is set exactly when all cgltf steps succeed, neither extension is required and no buffer lacks data |
| `GltfLoad.LoadErrorOrder` | gltf/parsegltf.cpp:352-361 | a cgltf failure wins over the checks, Draco wins over `MESHOPT_compression`, which wins over missing data |
| `GltfLoad.LoadErrorCause` | gltf/parsegltf.cpp:352-361 | each of gltfpack's own messages means its check fired and every earlier one passed |
| `GltfLoad.LoadedNodesAttachedOnce` | gltf/parsegltf.cpp:369-370 | a loaded document's nodes are each attached exactly once, with consistent skins (corrected version, see Findings) |
| `GltfLoad.ParseGltf` | gltf/parsegltf.cpp:343-374 | the error is the first problem; a document is returned exactly when there is no error; on error the meshes are untouched, otherwise meshes are appended and nodes attached (corrected version, see Findings) |
| `IndexAdapter.Limit` | src/meshoptimizer.h:190 | the unsigned index types `unsigned char`, `unsigned short`, `unsigned int` and a 64-bit unsigned type hold 2^8, 2^16, 2^32 and 2^64 values, at least 256 each |
| `IndexAdapter.ConversionsFit` | src/meshoptimizer.h:209-219 | widening keeps the length and gives 32-bit values; narrowing keeps the length and gives values of `T` |
| `IndexAdapter.WidenNarrow` | src/meshoptimizer.h:209-219 | for `T` no wider than 32 bits, widening keeps every value and narrowing after it gives the input back |
| `IndexAdapter.WidenNarrow64` | src/meshoptimizer.h:209-219 | for 64-bit `T`, values that fit in 32 bits survive the round trip |
| `IndexAdapter.Widen64RoundTrip` | src/meshoptimizer.h:209-219 | for 64-bit `T`, every index comes back as its value mod 2^32 |
| `IndexAdapter.Widen64Truncates` | src/meshoptimizer.h:209-210 | for instance, a 64-bit index of 2^32 + 5 comes back as 5 |
| `IndexAdapter.ZeroCopyIdentity` | src/meshoptimizer.h:190-235 | for 32-bit `T` both conversions are the identity, so the zero-copy adapter is equivalent to copying |
| `IndexAdapter.Adapter.constructor` | src/meshoptimizer.h:200-212 | a fresh buffer of `count` entries, distinct from the result array, holding the input widened when there is one |
| `IndexAdapter.Adapter.Release` | src/meshoptimizer.h:214-223 | a non-null result receives the buffer narrowed to `T` in its first `count` entries; the rest is unchanged |
| `IndexAdapter.ZeroCopyAdapter.constructor` | src/meshoptimizer.h:226-235 | the data pointer is the result when it is not null, otherwise the input |
| `IndexAdapter.WriteOutput` | src/meshoptimizer.h:260 | an algorithm writing its output into the adapter's buffer fills exactly that prefix |
| `IndexAdapter.ReadOnly` | src/meshoptimizer.h:280-286 | read-only templates (encoder, analyzers) give the algorithm the widened indices and return its result |
| `IndexAdapter.ReadOptional` | src/meshoptimizer.h:237-243 | `meshopt_generateVertexRemap` passes a null index array on as null, otherwise the widened indices |
| `IndexAdapter.Transform` | src/meshoptimizer.h:254-303 | index-to-index templates write the algorithm's output narrowed to `T` into the destination's first `count` entries, change nothing else, and return what the algorithm returns (the index count for `meshopt_simplify`) |
| `IndexAdapter.TransformOptional` | src/meshoptimizer.h:245-252 | `meshopt_remapIndexBuffer` does the same with null indices passed on as null |
| `IndexAdapter.WriteOnly` | src/meshoptimizer.h:288-294 | `meshopt_decodeIndexBuffer` leaves the decoded values narrowed to `T` in the destination |
| `IndexAdapter.RewriteInPlace` | src/meshoptimizer.h:272-278 | `meshopt_optimizeVertexFetch` rewrites the caller's indices in place with the algorithm's output narrowed to `T` and returns the vertex count the algorithm returns |
| `HalfFloat.QuantizeHalfSplit` | src/meshoptimizer.h:359-374 | the result is the sign bit at bit 15 over the magnitude computed from bits 0-30 alone |
| `HalfFloat.QuantizeHalfSign` | src/meshoptimizer.h:359 | bit 31 of the input becomes bit 15 of the result |
| `HalfFloat.QuantizeHalfMagnitude` | src/meshoptimizer.h:360-374 | bits 0-14 of the result depend only on the input's magnitude bits |
| `HalfFloat.QuantizeHalfFlushToZero` | src/meshoptimizer.h:365-366 | magnitudes below 2^-14 give zero |
| `HalfFloat.QuantizeHalfOverflow` | src/meshoptimizer.h:368-369 | magnitudes from 2^16 up to infinity give infinity, 0x7c00 |
| `HalfFloat.QuantizeHalfNaN` | src/meshoptimizer.h:371-372 | all NaNs give the quiet NaN 0x7e00 |
| `HalfFloat.QuantizeHalfNormal` | src/meshoptimizer.h:362-363 | in the normal range, the result is the rebiased magnitude rounded at bit 13, and is a finite normal half |
| `HalfFloat.QuantizeHalfRoundsToNearest` | src/meshoptimizer.h:179-183 | in the normal range, the result is within half a unit of the exact rebiased magnitude |
| `HalfFloat.QuantizeHalfExact` | src/meshoptimizer.h:362-363 | a value with no mantissa bits below bit 13 converts exactly |
| `HalfFloat.QuantizeHalfMonotonic` | src/meshoptimizer.h:360-372 | among non-NaN inputs, a larger magnitude never gives a smaller half magnitude |
| `HalfFloat.QuantizeHalfIsReference` | src/meshoptimizer.h:354-375 | the integer arithmetic equals a field-by-field conversion: NaN, infinity, flush to zero, or rebiased exponent with a rounded 10-bit mantissa |

## Left out

- The algorithms behind the forwarding templates are not part of this model. Vertex cache and overdraw optimisation, simplification, encoding, decoding, remapping and the analyzers appear as function parameters from the 32-bit indices they read to what they write, paired with what they return. The vertex buffer that `meshopt_optimizeVertexFetch` writes is left out.
- `meshopt_quantizeUnorm` and `meshopt_quantizeSnorm` work on floating point and are not modelled. `meshopt_quantizeHalf` takes the float's bit pattern (the union read) as a `uint32`.
- cgltf is not part of this model. `cgltf_parse_file`, `cgltf_load_buffers` and `cgltf_validate` are inputs: their result codes and the document they produce. `cgltf_free` and the heap lifetime of the document are left out.
- `needsDummyBuffers` is an input flag of the document. Its scan of accessors and images is not modelled.
- `readAccessor` and the attribute payloads are not modelled, and neither is writing alpha 1.0 into colour streams. A stream keeps its type, index, target tag and element count.
- `cgltf_accessor_read_index` is an input sequence of naturals per primitive, each cut to 32 bits by `unsigned(...)`.
- The `fprintf` warnings are not modelled.
- `parseAnimationsGltf` lies outside the modelled core.
- `MeshNodes.ParseMeshNodes`: a node's mesh is used as a position in the `meshes` vector, exactly as the source uses `node.mesh - data->meshes`. That position is a mesh made from the node's own glTF mesh only when the vector starts empty and every glTF mesh yields exactly one gltfpack mesh. The model does not relate the two otherwise.
- `GltfLoad.ParseGltf`: requires every node's mesh position to lie inside the vector, which the source assumes without checking. It attaches the nodes with the corrected duplication of `MeshNodes.ParseMeshNodes`, not the code as written.
- `primitive.attributes ?` is read as "the primitive has attributes".
- Nodes and meshes are identified by index, not by pointer. Materials and skins are opaque indices.
- Index counts fit the machine's `size_t`, so integers are unbounded except where the source converts: `unsigned(...)`, the adapter's widening and narrowing, and the `unsigned short` cast of `meshopt_quantizeHalf`.
- `IndexAdapter.Limit`: index types `T` are modelled as unsigned integer types (`unsigned char`, `unsigned short`, `unsigned int`, a 64-bit unsigned type), with values `0 <= v < 2^w`. The templates also accept signed `T`, where `data[i] = input[i]` sign-extends and the write back wraps into the signed range, and a 32-bit `int` goes through the zero-copy adapter with its bit pattern reinterpreted. These signed conversions are not modelled.
- `IndexAdapter.Adapter.constructor`: when `input` is null, the buffer's contents are not stated. C++ leaves them uninitialised.
- `IndexAdapter.Transform`: with a 32-bit `T`, `destination` and `indices` are required to be distinct arrays. The zero-copy adapter then hands the algorithm two aliased pointers, and what happens depends on the algorithm, which is not part of this model.
- `IndexAdapter.TransformOptional`: the same restriction to distinct arrays as `Transform` for 32-bit `T`.
- `IndexAdapter.Transform`: the algorithm's output is modelled as exactly `count` values. `meshopt_simplify` writes only a prefix of them, and the rest of its buffer is left out.
- `IndexAdapter.WriteOnly`: a decode failure is not modelled. The decoded values are an input.
- `MeshNodes.ParseMeshNodes`: uses the corrected duplication of a mesh described under Findings, not the code as written.

## Findings

| source | as written | input that shows it | evidently intended | confidence | as-written member | corrected member |
|---|---|---|---|---|---|---|
| gltf/parsegltf.cpp:240-243 | `meshes.push_back(mesh)` copies the whole mesh, including the nodes already attached with the old skin; the new node is appended after them and the copy takes the new skin | one mesh, nodes `[mesh 0 with skin 1, mesh 0 with skin 2]`: node 0 ends up in both meshes, and in the copy it is drawn with skin 2 | the copy holds only the new node, so every node is attached once and each mesh's nodes share its skin | not executed | `MeshNodes.AsWrittenDuplicatesNodes` (over `MeshNodes.AttachNodeAsWritten`) | `MeshNodes.AttachNode` (properties: `MeshNodes.AttachDuplicates`, `MeshNodes.MeshNodesOfAttachesOnce`, `MeshNodes.MeshNodesOfSkins`) |
