# OpenGeode-IO format adapters, modelled in Dafny

This project models the integer and string logic of the OpenGeode-IO format adapters. Each adapter moves a mesh or a boundary representation (BRep) in or out of a file format. The models cover these adapters:

- **Gmsh MSH** (the MSH file format, versions 2.2 and 4.1):
  - the reader of the model library and the older ascii-2.2 reader of the geo-representation library: header and version checks, entity, node and element sections, the find-or-create map from (component type, elementary tag) to component, duplicate-vertex filtering and topology inference;
  - the 4.1 writer: entity numbering, nodes exported once, element numbering.
- **SVG** path readers (section 8.3 of SVG 1.1): path formatting, the moveto/lineto/closepath command machine, polyline flushing, and corner–line topology.
- **VTK XML readers**: the root checks, `match`, the base64 length arithmetic of section 4 of RFC 4648, and the compressed block headers. Also the cell unpacking from offsets and connectivity, the VTU face tables and type filters, the VTP pieces, and the VTI grid attributes.
- **VTK XML writers**: running-sum offsets, VTK cell-type tables, the type-42 face stream, texture-seam vertex splitting, and image extent headers.
- **Small formats**:
  - SMESH readers;
  - Triangle `.node/.ele/.neigh`, GEXF 1.1 and DOT writers;
  - the raster and regular-grid image readers with their row flip.

The readers and writers work as follows in the model:

- **Stateful parts.** Readers that fill fields line by line are classes whose methods are proved against specification functions of the file's lines. Examples are `MshInput.MshReader`, `Smesh.Reader`, `VtuInput.SolidReader` and `VtpInput.VtpReader`.
- **Loops.** Writers that append to strings in loops are methods with loop invariants.
- **Partners.** Each is paired with a read-back lemma or an independent specification.
- **Upstream classes.** The OpenGeode classes the adapters call (BRep, builders, unique-vertex registry, attribute managers) are abstract values in `BRepModel` and in each module's state.
- **Integers.** `index_t` is a 32-bit unsigned integer, and its wrap-around is written out where the source relies on it.

## Model

| member | source | states |
|---|---|---|
| MshCommon.GmshElementIDEquality | include/geode/io/model/private/msh_common.h:73-76 | two element ids are equal exactly when their component types and their tags are equal |
| MshCommon.ElementOfCode | include/geode/io/model/private/msh_common.h:513-523 | an element kind is registered exactly for the codes 1–7 and 15 |
| MshCommon.CodeTableRoundTrip | include/geode/io/model/private/msh_common.h:513-523 | the writer's code for a kind is registered for that kind, and a registered code is the writer's code of its kind |
| MshCommon.FaceTableShape | include/geode/io/model/private/msh_common.h:431-509 | the tetrahedron, hexahedron, prism and pyramid tables have 4, 6, 5 and 5 faces whose indices are vertices of the element |
| MshCommon.FaceIncidence | include/geode/io/model/private/msh_common.h:431-509 | every vertex of a solid lies on exactly three faces of its table, the pyramid apex on four |
| MshCommon.ToUniqueVertex | include/geode/io/model/private/msh_common.h:231-233 | a node id of at least 1 becomes that id minus one; id 0 wraps to NO_ID in 32-bit arithmetic |
| MshCommon.NodeOffsetsInverse | include/geode/io/model/private/msh_common.h:101 | the writer's +1 and the reader's −1 undo each other and the written id is at least 1 |
| MshCommon.ReadVertexIds | include/geode/io/model/private/msh_common.h:134-145 | the ids are the converted tokens up to the first that does not convert; that failure is caught and the remaining ids stay 0 |
| MshCommon.CreateElement | include/geode/io/model/private/msh_common.h:125-145 | fails exactly for an unregistered code or an elementary tag of 0; otherwise the element has its kind, tags and `Arity` node ids |
| MshCommon.WithElementEffect | include/geode/io/model/private/msh_common.h:208-412 | an existing (type, tag) entry is reused and never replaced, a missing one is added once for a new component; that component gains one vertex per node, linked to node id − 1, and one cell; everything else stays |
| MshCommon.WithElementValid | include/geode/io/model/private/msh_common.h:208-412 | adding an element keeps every component well formed and every relation valid, and creates no unique vertex |
| MshCommon.AddElement | include/geode/io/model/private/msh_common.h:208-412 | `add_element` leaves the model and the id map as `WithElement` gives them |
| MshCommon.ApplyElementsValid | src/geode/io/model/msh_input.cpp:956-968 | adding the elements of a section keeps the model well formed and its relations valid, and creates no unique vertex |
| MshCommon.ApplyElementsAppend | src/geode/io/model/msh_input.cpp:1007-1027 | adding two runs of elements one after the other is adding their concatenation |
| MshInput.EntityStage | src/geode/io/model/msh_input.cpp:521-526 | the entity section is read only from a version 4 file listing "$Entities", otherwise the state is unchanged; it touches neither the nodes nor the unique vertices and keeps the id map consistent |
| MshInput.NodeStage | src/geode/io/model/msh_input.cpp:527-536 | the node section only appends nodes and sets the unique vertex count; the id map and the components stay |
| MshInput.ElementStage | src/geode/io/model/msh_input.cpp:527-536 | the element section keeps the nodes, the unique vertices and the relations, and keeps the id map consistent |
| MshInput.ReadSections | src/geode/io/model/msh_input.cpp:519-543 | `read_file` leaves the id map consistent with the model |
| MshInput.UniqueVerticesKeepConsistent | src/geode/io/model/msh_input.cpp:882-896 | creating unique vertices changes no component, tag or relation |
| MshInput.FilteredGeometry | src/geode/io/model/msh_input.cpp:1052-1192 | after filtering and `set_point`, no two vertices of a component share a unique vertex, there are as many vertices as distinct unique vertices, and every cell corner is placed at the node of its unique vertex |
| MshInput.KindsWellFormed | src/geode/io/model/msh_input.cpp:545-551 | the model is well formed exactly when every component of every type is |
| MshInput.FilterAll | src/geode/io/model/msh_input.cpp:1194-1215 | every component of a list is filtered, in order |
| MshInput.ComponentPoints | src/geode/io/model/msh_input.cpp:1103-1143 | the points of a component are the nodes of its vertices' unique vertices |
| MshInput.PlaceKind | src/geode/io/model/msh_input.cpp:1052-1101 | the points of every component of one type, as `KindGeometry` gives them |
| MshInput.FindSection | src/geode/io/model/msh_input.cpp:657-671 | the index of the first line from the cursor that starts with the header, or none |
| MshInput.ReadCornerIds | src/geode/io/model/msh_input.cpp:731-746 | one corner tag per line |
| MshInput.ReadEntityLines | src/geode/io/model/msh_input.cpp:748-788 | one tag and its bounding tags per line |
| MshInput.ReadNodeGroup | src/geode/io/model/msh_input.cpp:932-954 | a group header, its node tags passed over, then its coordinates in file order |
| MshInput.ReadNodeGroups | src/geode/io/model/msh_input.cpp:910-930 | the groups' coordinates appended in file order |
| MshInput.AddAll | src/geode/io/model/msh_input.cpp:956-968 | `add_element` for each element in turn |
| MshInput.MshReader.constructor | src/geode/io/model/msh_input.cpp:510-517 | a reader at line 0 of an empty model, with version 2 and no section name |
| MshInput.MshReader.FirstRead | src/geode/io/model/msh_input.cpp:637-714 | succeeds exactly when the header is accepted; then the version is the header's and the section names are those after it, while the main reader does not move |
| MshInput.MshReader.ReadFile | src/geode/io/model/msh_input.cpp:519-543 | the model, id map, nodes and cursor become what `ReadSections` reads, and a failure carries its message |
| MshInput.MshReader.ReadEntitySection | src/geode/io/model/msh_input.cpp:716-729 | the whole entity section, as `EntitySection` reads it |
| MshInput.MshReader.CreateListed | src/geode/io/model/msh_input.cpp:716-729 | the corners, lines, surfaces and blocks of the listing, then the "$EndEntities" check |
| MshInput.MshReader.CreateCorners | src/geode/io/model/msh_input.cpp:731-746 | one new corner per tag, recorded under that tag |
| MshInput.MshReader.CreateGroups | src/geode/io/model/msh_input.cpp:716-729 | lines, then surfaces, then blocks; the first failure ends the section |
| MshInput.MshReader.CreateEntities | src/geode/io/model/msh_input.cpp:748-872 | one new component per line and one boundary relation per bounding tag; an unrecorded tag fails |
| MshInput.MshReader.AddBoundedEntity | src/geode/io/model/msh_input.cpp:748-788 | the component of one entity line and its boundary relations |
| MshInput.MshReader.ReadNodeSectionV2 | src/geode/io/model/msh_input.cpp:882-896 | the nodes of the section, then one unique vertex per node |
| MshInput.MshReader.ReadNodeSectionV4 | src/geode/io/model/msh_input.cpp:910-954 | the nodes of every group in file order, tags skipped, then the declared number of unique vertices |
| MshInput.MshReader.ReadElementSectionV2 | src/geode/io/model/msh_input.cpp:956-1005 | every element read is added to the model |
| MshInput.MshReader.ReadElementSectionV4 | src/geode/io/model/msh_input.cpp:1007-1050 | every element of every group is added to the model |
| MshInput.MshReader.AddElements | src/geode/io/model/msh_input.cpp:956-968 | the model and id map become `ApplyElements` of the elements |
| MshInput.MshReader.BuildGeometry | src/geode/io/model/msh_input.cpp:545-551 | corners, unique vertices and relations stay; every line, surface and block is filtered; the model is well formed and every component gets its points from the nodes |
| MshInput.MshReader.Build | src/geode/io/model/msh_input.cpp:1285-1291 | geometry then topology: the relations become the old ones plus the inferred ones (none for a version 4 file with entities), all valid |
| MshInput.MshReader.BuildTopology | src/geode/io/model/msh_input.cpp:556-630 | nothing for a version 4 file with an entity section; otherwise exactly the inferred relations are added |
| MshInput.FilteredTopology | src/geode/io/model/msh_input.cpp:1145-1233 | filtering changes neither the inferred relations nor the validity of the relations |
| MshInput.ReadAll | src/geode/io/model/msh_input.cpp:510-543 | an accepted file has version 2 or 4 and an id map consistent with its model |
| MshInput.Open | src/geode/io/model/msh_input.cpp:510-517 | a fresh reader whose state is what `ReadAll` reads from the lines |
| MshInput.Read | src/geode/io/model/msh_input.cpp:1285-1291 | succeeds exactly when the sections read and every node an element or corner uses was read; then every line, surface and block is filtered, the inferred relations are added unless an entity section lists relations, and every component gets its points |
| MshDuplicates.IndexOf | src/geode/io/model/msh_input.cpp:1149-1156 | the position of the first occurrence of a value |
| MshDuplicates.DedupProperties | src/geode/io/model/msh_input.cpp:1145-1192 | after filtering, no two local vertices share a unique vertex, exactly the same unique vertices are kept, and there are as many local vertices as distinct unique vertices |
| MshDuplicates.DedupOrder | src/geode/io/model/msh_input.cpp:1145-1192 | the surviving vertices keep the relative order of their first occurrences |
| MshDuplicates.DedupStep | src/geode/io/model/msh_input.cpp:1168-1180 | a unique vertex is kept the first time it is seen and skipped afterwards |
| MshDuplicates.MarkDuplicates | src/geode/io/model/msh_input.cpp:1149-1166 | records the first local vertex of every unique vertex, and marks a local vertex deleted exactly when its unique vertex occurred before it |
| MshDuplicates.KeptVertices | src/geode/io/model/msh_input.cpp:1168-1191 | the kept vertices are the unique vertices in order of first occurrence, and every kept local vertex is renumbered to its position among them |
| MshDuplicates.RemapCells | src/geode/io/model/msh_input.cpp:1103-1166 | every cell keeps its size, and each corner is pointed at a kept vertex with the same unique vertex |
| MshDuplicates.CompactionTarget | src/geode/io/model/msh_input.cpp:1145-1192 | every local vertex is sent to a kept vertex with the same unique vertex |
| MshDuplicates.FilterDuplicatedVertices | src/geode/io/model/msh_input.cpp:1145-1192 | one component filtered: cells re-pointed at the first vertex of their unique vertex, duplicates deleted, numbering compacted |
| MshTopology.ComponentsAt | src/geode/io/model/msh_input.cpp:568-577 | exactly the components with a local vertex on the unique vertex |
| MshTopology.AddPotentialRelationships | src/geode/io/model/msh_input.cpp:1216-1231 | every boundary component present gains every incident component present; an entry is created only when some incident component is present |
| MshTopology.AddIncidences | src/geode/io/model/msh_input.cpp:1224-1229 | one boundary component gains every incident component present |
| MshTopology.FilterPotentialRelationships | src/geode/io/model/msh_input.cpp:1233-1265 | for every boundary present that has an entry, the incident components absent at this unique vertex are erased; the keys stay |
| MshTopology.KeepPresent | src/geode/io/model/msh_input.cpp:1248-1263 | the incidences kept are those present at the unique vertex |
| MshTopology.AddPass | src/geode/io/model/msh_input.cpp:568-585 | after the first pass a boundary maps to exactly the components it met at some unique vertex |
| MshTopology.FilterPass | src/geode/io/model/msh_input.cpp:586-603 | after the second pass each entry keeps only the components present at every unique vertex of the boundary |
| MshTopology.InferRelations | src/geode/io/model/msh_input.cpp:564-603 | b maps to i exactly when the relation rule infers b as a boundary of i |
| MshTopology.RelationPairs | src/geode/io/model/msh_input.cpp:605-628 | the relations added are exactly the pairs of the map |
| MshTopology.PresenceTable | src/geode/io/model/msh_input.cpp:568-577 | the components present at each unique vertex |
| MshTopology.InferredPairsMeaning | src/geode/io/model/msh_input.cpp:556-630 | a boundary relation is inferred exactly when the two components share a unique vertex and the incident one is present at every unique vertex of the boundary one |
| MshTopology.InferPairs | src/geode/io/model/msh_input.cpp:556-630 | both passes over every unique vertex give exactly `InferredPairs` |
| MshTopology.TopologyValid | src/geode/io/model/msh_input.cpp:605-628 | every inferred relation links two components of the model |
| MshTopology.TopologySame | src/geode/io/model/msh_input.cpp:556-630 | inference depends only on which unique vertices each component reaches |
| MshLines.SectionNamesMembers | src/geode/io/model/msh_input.cpp:701-714 | a line is collected exactly when it is a section name ("$" but not "$End") |
| MshLines.SectionNamesConcat | src/geode/io/model/msh_input.cpp:701-714 | section names are collected in file order |
| MshLines.VersionFloor | src/geode/io/model/msh_input.cpp:632-635 | the floor of a version token is the value of its leading digits |
| MshLines.MshVersion | src/geode/io/model/msh_input.cpp:673-689 | a version line is accepted exactly when its floor is 2 or 4 and the file type read after it is 0; the result is that floor |
| MshLines.Header | src/geode/io/model/msh_input.cpp:691-699 | the header is accepted exactly when the first line is "$MeshFormat" and the second is an accepted version line |
| MshLines.FindLineFirst | src/geode/io/model/msh_input.cpp:657-671 | the line found is the first from the cursor with the prefix; none means there is none |
| MshLines.Stoi | src/geode/io/model/msh_input.cpp:882-886 | a count line reads exactly when its first token is a number that fits an `int` |
| MshLines.ExtractionsOfNumbers | src/geode/io/model/msh_input.cpp:874-880 | when the next tokens are numbers below 2^32 the extractions read exactly them |
| MshLines.StreamIdsAfterFailure | include/geode/io/model/private/msh_common.h:174-182 | after a failed extraction the variable keeps its value and every later id repeats it |
| MshLines.StreamIdsOfNumbers | include/geode/io/model/private/msh_common.h:174-182 | when the next tokens are numbers below 2^32 the ids are exactly them |
| MshLines.ReadLinesAll | src/geode/io/model/msh_input.cpp:882-896 | a run of lines reads exactly when each of them does, and the k-th result is what its line reads as |
| MshLines.Coordinates | src/geode/io/model/msh_input.cpp:874-880 | three coordinate extractions from a stream with three tokens left |
| MshLines.NodeLineV2 | src/geode/io/model/msh_input.cpp:898-908 | a node line reads exactly when its id is the expected one |
| MshLines.NodesV2Continuous | src/geode/io/model/msh_input.cpp:882-908 | version 2 node lines read exactly when their ids run 1, 2, ..., nb |
| MshLines.NodesUntilEnd | src/geode/io/model/msh_input.cpp:882-896 | nb nodes then a "$EndNodes" line; the reader is then after it |
| MshLines.NodeGroupV4 | src/geode/io/model/msh_input.cpp:932-954 | a group reads exactly when it is not parametric; it then has nb nodes and ends 2·nb+1 lines on |
| MshLines.NodeGroupV4Coordinates | src/geode/io/model/msh_input.cpp:932-954 | a group's nodes are its second block of lines in order; the tag lines are not used |
| MshLines.NodeGroupV4Reads | src/geode/io/model/msh_input.cpp:932-954 | a non-parametric group whose coordinate lines read as ps reads as ps |
| MshLines.NodeGroupsErrStays | src/geode/io/model/msh_input.cpp:910-930 | once a node group fails, the section fails with its error |
| MshLines.NodeSectionV4 | src/geode/io/model/msh_input.cpp:910-930 | the section reads only when its tags run from 1 to its node count; it gives the nodes of its groups in file order |
| MshLines.PlacedNodes | src/geode/io/model/msh_output.cpp:210-268 | with no tag repeated, node `tags[i] − 1` is `ps[i]` and a node no tag names keeps its point |
| MshLines.TaggedNodeSectionV4 | src/geode/io/model/msh_output.cpp:210-268 | the corrected reader: reads exactly when the file-order reader does, with as many nodes as declared, each placed at the node its tag names |
| MshLines.TaggedNodeBodyV4Reads | src/geode/io/model/msh_output.cpp:210-268 | a section whose groups read as ps with in-range tags ts reads by tag as ps placed at ts |
| MshLines.ElementFromStream | include/geode/io/model/private/msh_common.h:125-145 | fails exactly for an unregistered code or an elementary tag of 0 |
| MshLines.ElementLineV2Fields | src/geode/io/model/msh_input.cpp:970-1005 | a version 2 element line reads exactly when its id is the expected one, it has at least two tags, its type is registered and its elementary tag is nonzero |
| MshLines.ElementsV2Shaped | src/geode/io/model/msh_input.cpp:956-1005 | every element of a version 2 section has as many node ids as its kind has nodes |
| MshLines.ElementsUntilEnd | src/geode/io/model/msh_input.cpp:956-968 | nb elements then an "$EndElements" line; the reader is then after it |
| MshLines.ElementSectionV2Shaped | src/geode/io/model/msh_input.cpp:956-1005 | a version 2 element section holds only elements of the expected shape |
| MshLines.ElementLineV4 | src/geode/io/model/msh_input.cpp:1029-1050 | a version 4 element line fails exactly for an unknown type or an entity tag of 0; its physical tag is 0 |
| MshLines.ElementLinesV4 | src/geode/io/model/msh_input.cpp:1029-1050 | a group's lines read exactly when there are none or the type is known and the entity tag nonzero |
| MshLines.ElementGroupV4 | src/geode/io/model/msh_input.cpp:1029-1050 | a group ends nb lines after its header |
| MshLines.ElementSectionV4Shaped | src/geode/io/model/msh_input.cpp:1007-1050 | a version 4 element section holds only elements of the expected shape |
| MshLines.ElementSectionV4 | src/geode/io/model/msh_input.cpp:1007-1027 | the section reads only when its element tags run from 1 to the declared total |
| MshLines.EntityLine | src/geode/io/model/msh_input.cpp:748-788 | an entity line gives its tag and its bounding tags by absolute value |
| MshLines.WithCornerConsistent | src/geode/io/model/msh_input.cpp:731-746 | a new corner keeps the model consistent |
| MshLines.AllKnownIff | src/geode/io/model/msh_input.cpp:770-786 | all bounding tags are known exactly when no `at` lookup would throw |
| MshLines.AddEntityFails | src/geode/io/model/msh_input.cpp:770-786 | an entity line fails exactly when one of its bounding tags is not recorded |
| MshLines.BoundaryRelationsMembers | src/geode/io/model/msh_input.cpp:770-786 | the relations are exactly one per bounding tag, from the entity recorded under it |
| MshLines.BoundaryRelationsValid | src/geode/io/model/msh_input.cpp:770-786 | relations from recorded entities name existing components |
| MshLines.AddEntityConsistent | src/geode/io/model/msh_input.cpp:748-788 | an entity that is added keeps the model consistent |
| MshLines.CornersFrom | src/geode/io/model/msh_input.cpp:731-746 | one new corner per tag; no unique vertex is created |
| MshLines.CornersFromConsistent | src/geode/io/model/msh_input.cpp:731-746 | the corners keep the model consistent |
| MshLines.EntitiesFrom | src/geode/io/model/msh_input.cpp:748-872 | one new component per entity line; no unique vertex is created |
| MshLines.EntitiesFromConsistent | src/geode/io/model/msh_input.cpp:748-872 | entities whose bounding entities are all found keep the model consistent |
| MshLines.EntitiesFromErrStays | src/geode/io/model/msh_input.cpp:748-872 | once an entity misses a bounding entity the later ones do not recover |
| MshLines.RunLines | src/geode/io/model/msh_input.cpp:716-729 | one run of entity lines per declared count, in order |
| MshLines.EntitySectionConsistent | src/geode/io/model/msh_input.cpp:716-872 | the entity section keeps the model consistent and adds no unique vertex |
| MshLegacy.StoiText | src/geode/georepresentation/msh_input.cpp:479 | a token converts exactly when it is an optional '-' and digits whose value fits an `int`, and gives that value |
| MshLegacy.ToIndex | src/geode/georepresentation/msh_input.cpp:522 | the cast to `index_t` keeps every value already in range |
| MshLegacy.VersionTokenNotAscii | src/geode/georepresentation/msh_input.cpp:470-486 | a version token with floor 2 never also reads as the ascii flag 0 |
| MshLegacy.LegacyVersionAccepted | src/geode/georepresentation/msh_input.cpp:470-486 | the version line is accepted exactly when it has a version with floor 2 and then a flag reading 0; a lone version is rejected |
| MshLegacy.LegacyHeaderNewer | src/geode/georepresentation/msh_input.cpp:488-495 | every header the older reader accepts the newer reader accepts as version 2 |
| MshLegacy.LegacyNodeLineReads | src/geode/georepresentation/msh_input.cpp:514-531 | a node line reads exactly when its id is the expected one; its coordinates are the next three tokens, a missing one repeating the last |
| MshLegacy.ReadNode | src/geode/georepresentation/msh_input.cpp:514-531 | `read_node` with its coordinate loop reads as the node-line function says |
| MshLegacy.SectionCount | src/geode/georepresentation/msh_input.cpp:497-503 | the count is the `stoi` of the line after the section opener; a missing opener is reported |
| MshLegacy.NodesEnd | src/geode/georepresentation/msh_input.cpp:504-510 | the node run is accepted exactly when it read and "$EndNodes" follows it |
| MshLegacy.LegacyNodeSectionShape | src/geode/georepresentation/msh_input.cpp:497-512 | a node section that reads was found from the cursor, holds its count of nodes and ends after "$EndNodes" |
| MshLegacy.LegacyNodesContinuous | src/geode/georepresentation/msh_input.cpp:504-531 | the node lines read exactly when they are numbered 1 to nb, and node k is line k's reading |
| MshLegacy.ReadLinesErrStays | src/geode/georepresentation/msh_input.cpp:504-508 | once a line fails the section fails with its message |
| MshLegacy.ReadNodeLines | src/geode/georepresentation/msh_input.cpp:504-508 | the node loop reads what the run function reads |
| MshLegacy.LegacyCodes | src/geode/georepresentation/msh_input.cpp:332-337 | only codes 15, 1 and 2 are registered, as point, edge and triangle |
| MshLegacy.FirstBad | src/geode/georepresentation/msh_input.cpp:147-156 | the first id extraction whose text does not convert; all before it convert |
| MshLegacy.LegacyIds | src/geode/georepresentation/msh_input.cpp:147-156 | one id per vertex of the element |
| MshLegacy.LegacyIdsOfTokens | src/geode/georepresentation/msh_input.cpp:147-156 | with every token present and converting, id k is token k |
| MshLegacy.LegacyIdsRepeatLast | src/geode/georepresentation/msh_input.cpp:147-156 | a line that ends early repeats its last token for every missing id |
| MshLegacy.LegacyIdsWithoutTokens | src/geode/georepresentation/msh_input.cpp:147-156 | with no token left every id stays 0 |
| MshLegacy.LegacyIdsAfterBad | src/geode/georepresentation/msh_input.cpp:147-192 | from the first text that does not convert on, the caught exception leaves every id 0 |
| MshLegacy.ReadLegacyIds | src/geode/georepresentation/msh_input.cpp:147-156 | the id loop gives the ids the function describes |
| MshLegacy.LegacyElementLineFields | src/geode/georepresentation/msh_input.cpp:547-580 | an element line reads exactly when its leading fields convert, its id is the expected one, it has at least two tags, its type is 15, 1 or 2 and its elementary tag is nonzero |
| MshLegacy.ReadElement | src/geode/georepresentation/msh_input.cpp:547-580 | `read_element` reads as the element-line function says |
| MshLegacy.ReadElementType | src/geode/georepresentation/msh_input.cpp:557-565 | the type and tag count as the line gives them |
| MshLegacy.ReadElementTags | src/geode/georepresentation/msh_input.cpp:566-578 | the tags, then the element built by the factory |
| MshLegacy.LegacyAddElement | src/geode/georepresentation/msh_input.cpp:195-213 | adding an element keeps the id map pointing at components of the model |
| MshLegacy.LegacyAddElementEffect | src/geode/georepresentation/msh_input.cpp:195-330 | a point with a known tag is refused, an edge or triangle with a known key goes to the recorded component, a new key gets a new one |
| MshLegacy.LegacyAddElementKeeps | src/geode/georepresentation/msh_input.cpp:195-330 | adding an element of the expected shape keeps the model consistent |
| MshLegacy.LegacyElementsOf | src/geode/georepresentation/msh_input.cpp:533-545 | adding a run of elements keeps the id map valid |
| MshLegacy.LegacyElementsErrStays | src/geode/georepresentation/msh_input.cpp:533-545 | once a prefix fails the run fails |
| MshLegacy.LegacyElementsKeep | src/geode/georepresentation/msh_input.cpp:533-545 | a run of elements keeps the model consistent |
| MshLegacy.LegacyElementsOfApply | src/geode/georepresentation/msh_input.cpp:533-545 | a run that reads is one whose every line reads, and the model is the shared `add_element` applied in order |
| MshLegacy.LegacyElementsApply | src/geode/georepresentation/msh_input.cpp:533-580 | the older reader builds the same model as the newer readers from the same element lines |
| MshLegacy.ElementsEnd | src/geode/georepresentation/msh_input.cpp:543 | the element run is accepted exactly when it read and "$EndElements" follows it |
| MshLegacy.LegacyElementRunKeep | src/geode/georepresentation/msh_input.cpp:533-545 | reading an element run keeps the model consistent |
| MshLegacy.ReadElementLines | src/geode/georepresentation/msh_input.cpp:538-542 | the element loop reads the lines as the run function says |
| MshLegacy.NodesOnly | src/geode/georepresentation/msh_input.cpp:510-511 | one unique vertex per node on an empty model, which is consistent |
| MshLegacy.LegacyElementSectionKeep | src/geode/georepresentation/msh_input.cpp:533-545 | reading the element section keeps the model consistent |
| MshLegacy.LegacyReadAllConsistent | src/geode/georepresentation/msh_input.cpp:349-355 | a file that reads gives a consistent model with one unique vertex per node |
| MshLegacy.LegacyPlaced | src/geode/georepresentation/msh_input.cpp:195-213 | every corner of a model the reader builds has its vertex |
| MshLegacy.FilteredOncePerUniqueVertex | src/geode/georepresentation/msh_input.cpp:657-721 | after filtering, each component has one local vertex per unique vertex it reached |
| MshLegacy.PlaceCornersLinesSurfaces | src/geode/georepresentation/msh_input.cpp:582-621 | the points are placed for corners, lines then surfaces, as the geometry function says |
| MshLegacy.LegacyMshReader.constructor | src/geode/georepresentation/msh_input.cpp:342-347 | a fresh reader is at the start with an empty model |
| MshLegacy.LegacyMshReader.ReadHeader | src/geode/georepresentation/msh_input.cpp:488-495 | the header is read as the header function says, and the reader is then on line 3 |
| MshLegacy.LegacyMshReader.ReadNodeSection | src/geode/georepresentation/msh_input.cpp:497-512 | the node section is read and one unique vertex is created per node |
| MshLegacy.LegacyMshReader.ReadNodeRun | src/geode/georepresentation/msh_input.cpp:504-509 | the node lines then "$EndNodes" |
| MshLegacy.LegacyMshReader.ReadElementSection | src/geode/georepresentation/msh_input.cpp:533-545 | every element is added as soon as it is read |
| MshLegacy.LegacyMshReader.ReadElementRun | src/geode/georepresentation/msh_input.cpp:538-543 | the element lines then "$EndElements" |
| MshLegacy.LegacyMshReader.AddLegacyElements | src/geode/georepresentation/msh_input.cpp:538-542 | each line read is added in turn; the first failure stops the reading |
| MshLegacy.LegacyMshReader.AddLegacyElement | src/geode/georepresentation/msh_input.cpp:195-330 | one point, edge or triangle added as the element function says |
| MshLegacy.LegacyMshReader.ReadFile | src/geode/georepresentation/msh_input.cpp:349-355 | `read_file` reads the whole file as `LegacyReadAll` says |
| MshLegacy.LegacyMshReader.BuildGeometry | src/geode/georepresentation/msh_input.cpp:357-721 | corners keep their vertex; every line and surface is filtered; the points are placed; no block is built |
| MshLegacy.LegacyMshReader.BuildTopology | src/geode/georepresentation/msh_input.cpp:367-446 | exactly the inferred relations are added |
| MshLegacy.LegacyMshReader.Build | src/geode/georepresentation/msh_input.cpp:357-446 | geometry then topology: filtered components, the inferred relations, placed points |
| MshLegacy.LegacyOpen | src/geode/georepresentation/msh_input.cpp:342-355 | a fresh reader that has read the file |
| MshLegacy.LegacyRead | src/geode/georepresentation/msh_input.cpp:786-795 | `MSHInput::read`: the file read, every line and surface filtered, the relations exactly the inferred ones |
| MshOutput.WrittenCodesReadBack | src/geode/io/model/msh_output.cpp:425-429 | each element code the writer uses reads back, in the reader's table, as an element of the same component type |
| MshOutput.VersionLineTokens | src/geode/io/model/msh_output.cpp:99 | the version line is the three tokens "4.1", "0" and "8" |
| MshOutput.VersionOfTokens | src/geode/io/model/msh_output.cpp:99 | a line of those tokens is version 4, ascii, for the reader |
| MshOutput.VersionLineReadsBack | src/geode/io/model/msh_output.cpp:96-101 | the reader takes the written version line as version 4, ascii |
| MshOutput.HeaderReadsBack | src/geode/io/model/msh_output.cpp:96-101 | the reader accepts the written header, whatever follows, as a version 4 file |
| MshOutput.Related | src/geode/io/model/msh_output.cpp:120-123 | exactly the components of the type below that are related to the component, in increasing order |
| MshOutput.ListedBelow | src/geode/io/model/msh_output.cpp:120-172 | every boundary or internal written names a component of the type below |
| MshOutput.TagsOf | src/geode/io/model/msh_output.cpp:133-207 | a component's Gmsh tag is its index plus one |
| MshOutput.KindEntityLines | src/geode/io/model/msh_output.cpp:133-207 | one entity line per component of the type |
| MshOutput.Lookups | src/geode/io/model/msh_output.cpp:124-172 | the writer's lookup of each listed component |
| MshOutput.Numbering | src/geode/io/model/msh_output.cpp:129-142 | once written, every component of every type is numbered with its index plus one |
| MshOutput.AllIds | src/geode/io/model/msh_output.cpp:103-114 | exactly the components of the model |
| MshOutput.LookupsAreTags | src/geode/io/model/msh_output.cpp:120-172 | the boundaries and internals are always looked up after being numbered, so every lookup finds their tag |
| MshOutput.NumberOne | src/geode/io/model/msh_output.cpp:129-130 | numbering one component changes nothing for the other types |
| MshOutput.NumberedOutside | src/geode/io/model/msh_output.cpp:103-114 | numbering a type keeps the numbering of the type below |
| MshOutput.WrittenEntityLine | src/geode/io/model/msh_output.cpp:116-131 | the line written with the lookups is the component's entity line |
| MshOutput.NumberingComposes | src/geode/io/model/msh_output.cpp:108-111 | corners, lines, surfaces and blocks numbered in turn are all numbered |
| MshOutput.EntitiesTextParts | src/geode/io/model/msh_output.cpp:103-114 | the entity section is its opening lines, the four kinds' lines and "$EndEntities" |
| MshOutput.KindIds | src/geode/io/model/msh_output.cpp:133-207 | the components of a type, in iteration order |
| MshOutput.Order | src/geode/io/model/msh_output.cpp:249-264 | corners, then lines, surfaces and blocks: every component once |
| MshOutput.UniqueLists | src/geode/io/model/msh_output.cpp:215-224 | each listed component's unique vertices |
| MshOutput.PlacedBounded | src/geode/io/model/msh_output.cpp:241-268 | the components only name unique vertices of the model |
| MshOutput.TagLines | src/geode/io/model/msh_output.cpp:228-232 | one tag line per exported vertex: its unique vertex plus one |
| MshOutput.CoordLines | src/geode/io/model/msh_output.cpp:233-237 | one coordinate line per exported vertex, in the same order |
| MshOutput.NodeBlockParts | src/geode/io/model/msh_output.cpp:209-239 | a node block is its header, its tags, then its coordinates |
| MshOutput.NodeStep | src/geode/io/model/msh_output.cpp:249-264 | one more component's nodes follow the earlier ones', and its flags are the earlier flags marked with what it exported |
| MshOutput.NodesHeader | src/geode/io/model/msh_output.cpp:243-246 | the line after "$Nodes" gives the component count, the unique vertex count, 1 and that count again |
| MshOutput.TotalStep | src/geode/io/model/msh_output.cpp:270-290 | one more component adds its element count |
| MshOutput.TotalMonotone | src/geode/io/model/msh_output.cpp:270-290 | a prefix never has more elements than a longer prefix |
| MshOutput.PositionBelowTotal | src/geode/io/model/msh_output.cpp:292-412 | every element tag is below the declared total plus one |
| MshOutput.PositionsDistinct | src/geode/io/model/msh_output.cpp:292-412 | two elements never share a tag |
| MshOutput.PositionBefore | src/geode/io/model/msh_output.cpp:292-412 | elements of an earlier component have smaller tags |
| MshOutput.PositionsCover | src/geode/io/model/msh_output.cpp:292-412 | the element tags leave no gap up to the total |
| MshOutput.PositionOfPrefix | src/geode/io/model/msh_output.cpp:292-412 | adding later components does not renumber earlier elements |
| MshOutput.ElementUniqueVertices | src/geode/io/model/msh_output.cpp:304-333 | an element has as many vertices as its written type |
| MshOutput.FileIds | src/geode/io/model/msh_output.cpp:307-331 | every node reference is the unique vertex plus one |
| MshOutput.ElementLines | src/geode/io/model/msh_output.cpp:292-392 | one line per element, tagged consecutively |
| MshOutput.ElementStep | src/geode/io/model/msh_output.cpp:404-409 | one more component's elements follow the earlier ones', tagged after them |
| MshOutput.ElementLineReadsBack | src/geode/io/model/msh_output.cpp:322-333 | a written element line reads back, in its block, as an element of the written type whose references give back the unique vertices |
| MshOutput.MshWriter.constructor | src/geode/io/model/msh_output.cpp:65-73 | a fresh writer has written nothing and numbered nothing |
| MshOutput.MshWriter.WriteHeader | src/geode/io/model/msh_output.cpp:96-101 | the three header lines are appended |
| MshOutput.MshWriter.WriteKindEntities | src/geode/io/model/msh_output.cpp:133-207 | one entity line per component of the type is appended; that type is numbered, the others unchanged |
| MshOutput.MshWriter.WriteEntityLine | src/geode/io/model/msh_output.cpp:116-131 | one entity line is appended and the component numbered |
| MshOutput.MshWriter.WriteEntities | src/geode/io/model/msh_output.cpp:103-114 | the entity section is appended and every component is numbered |
| MshOutput.MshWriter.WriteNodeTags | src/geode/io/model/msh_output.cpp:228-232 | the tag lines are appended and their unique vertices flagged |
| MshOutput.MshWriter.WriteNodeCoords | src/geode/io/model/msh_output.cpp:233-237 | the coordinate lines are appended |
| MshOutput.MshWriter.WriteComponentNodes | src/geode/io/model/msh_output.cpp:209-239 | a component's node block is appended, holding only unique vertices not yet flagged, which are then flagged |
| MshOutput.MshWriter.WriteComponentsNodes | src/geode/io/model/msh_output.cpp:249-264 | the node blocks of the components, in order, sharing the flags |
| MshOutput.MshWriter.WriteNodes | src/geode/io/model/msh_output.cpp:241-268 | the node section: header, blocks of corners, lines, surfaces, blocks, then "$EndNodes" |
| MshOutput.MshWriter.CountElements | src/geode/io/model/msh_output.cpp:270-290 | the total number of elements of all components |
| MshOutput.MshWriter.WriteComponentElements | src/geode/io/model/msh_output.cpp:292-392 | one element block, tagged from the given tag; the returned tag is one past the last |
| MshOutput.MshWriter.WriteComponentsElements | src/geode/io/model/msh_output.cpp:404-409 | element blocks of the components in order; the tag returned is one past the last |
| MshOutput.MshWriter.WriteElements | src/geode/io/model/msh_output.cpp:394-412 | the element section; the last tag is one past the declared count |
| MshOutput.MshWriter.WriteFile | src/geode/io/model/msh_output.cpp:75-81 | the header, entities, nodes and elements sections, in that order |
| MshExport.UsedIff | src/geode/io/model/msh_output.cpp:215-224 | a unique vertex is used exactly when a local vertex of a visited component is linked to it |
| MshExport.Flags | src/geode/io/model/msh_output.cpp:247-248 | after visiting components, a flag is set exactly when a visited component uses that unique vertex |
| MshExport.Fresh | src/geode/io/model/msh_output.cpp:215-224 | the local vertices a component exports are exactly those whose unique vertex is not yet flagged, in increasing order |
| MshExport.FreshIncreasing | src/geode/io/model/msh_output.cpp:215-224 | exported local vertices come in increasing order |
| MshExport.TagUids | src/geode/io/model/msh_output.cpp:228-232 | the unique vertices of the exported local vertices |
| MshExport.Mark | src/geode/io/model/msh_output.cpp:231 | the flags with those unique vertices set, the others unchanged |
| MshExport.Exported | src/geode/io/model/msh_output.cpp:249-264 | every exported unique vertex exists in the model |
| MshExport.MarkFresh | src/geode/io/model/msh_output.cpp:209-239 | the flags after writing a component always say which unique vertices the components visited so far use |
| MshExport.FreshIsFirstUse | src/geode/io/model/msh_output.cpp:209-264 | a component exports a unique vertex exactly when it uses it and no earlier component does |
| MshExport.ExportedSnoc | src/geode/io/model/msh_output.cpp:249-264 | exporting visits the components one after the other |
| MshExport.ExportedUsed | src/geode/io/model/msh_output.cpp:241-268 | exactly the used unique vertices are exported |
| MshExport.ExportedOnce | src/geode/io/model/msh_output.cpp:241-268 | when no component repeats a unique vertex, none is exported twice |
| MshEntityRoundTrip.Pairs | src/geode/io/model/msh_output.cpp:165-172 | two signed values per internal tag |
| MshEntityRoundTrip.Doubled | src/geode/io/model/msh_output.cpp:165-172 | each tag twice in a row |
| MshEntityRoundTrip.PairsMagnitudes | src/geode/io/model/msh_output.cpp:165-172 | the internal pairs, taken by absolute value as the reader does, are each tag twice (see also src/geode/io/model/msh_input.cpp:770-786) |
| MshEntityRoundTrip.BoundaryTextTokens | src/geode/io/model/msh_output.cpp:124-127 | the boundary text adds one token per tag |
| MshEntityRoundTrip.InternalTextTokens | src/geode/io/model/msh_output.cpp:167-172 | the internal text adds the tag and its negation per internal |
| MshEntityRoundTrip.EntityLineOfTokens | src/geode/io/model/msh_input.cpp:748-788 | an entity line of tag, box, 0, count and that many in-range signed values reads as the tag and their absolute values |
| MshEntityRoundTrip.LineReadsBack | src/geode/io/model/msh_output.cpp:116-131 | a written entity line reads back as its tag, the boundary tags, then each internal tag twice (see also src/geode/io/model/msh_input.cpp:748-788) |
| MshEntityRoundTrip.EntityTextReadsBack | src/geode/io/model/msh_output.cpp:116-207 | the reader reads back each written curve, surface or volume line as the component's tag and bounding tags (see also src/geode/io/model/msh_input.cpp:748-788) |
| MshEntityRoundTrip.PairsBounded | src/geode/io/model/msh_output.cpp:165-172 | every value of the internal pairs fits an `int` |
| MshEntityRoundTrip.CornerTextReadsBack | src/geode/io/model/msh_output.cpp:133-144 | the reader reads the tag of a written corner line back (see also src/geode/io/model/msh_input.cpp:731-746) |
| MshRoundTrip.FieldsOfSpaced | src/geode/io/model/msh_output.cpp:243-246 | values written space-separated read back (see also src/geode/io/model/msh_input.cpp:874-880) |
| MshRoundTrip.CoordsReadBack | src/geode/io/model/msh_output.cpp:233-237 | a coordinate line reads back as the coordinates written (see also src/geode/io/model/msh_input.cpp:874-880) |
| MshRoundTrip.HeaderFields | src/geode/io/model/msh_output.cpp:225-227 | a written group header reads back as its four values |
| MshRoundTrip.CoordLinesReadBack | src/geode/io/model/msh_output.cpp:233-237 | coordinate lines read back as the points written |
| MshRoundTrip.GroupReadsBack | src/geode/io/model/msh_output.cpp:225-237 | a written node group reads back as its points (see also src/geode/io/model/msh_input.cpp:932-954) |
| MshRoundTrip.NodeBlockReadsBack | src/geode/io/model/msh_output.cpp:209-239 | a written node block reads back as one group of the exported points (see also src/geode/io/model/msh_input.cpp:932-954) |
| MshRoundTrip.NodeBlocksReadBack | src/geode/io/model/msh_output.cpp:249-264 | the written node blocks read back as as many groups holding the exported points (see also src/geode/io/model/msh_input.cpp:910-930) |
| MshRoundTrip.NodeBodyOk | src/geode/io/model/msh_input.cpp:910-930 | a node section with a continuous header reads as its groups |
| MshRoundTrip.NodesTextReadsBack | src/geode/io/model/msh_output.cpp:241-268 | the written node section reads back as the exported points in written order and declares one node per unique vertex (see also src/geode/io/model/msh_input.cpp:910-930) |
| MshRoundTrip.NodeSectionReads | src/geode/io/model/msh_input.cpp:910-930 | a section whose groups read reads as their points, up to after "$EndNodes" |
| MshRoundTrip.NodesTextParts | src/geode/io/model/msh_output.cpp:241-268 | the node section is its two header lines, its groups and "$EndNodes" |
| MshNodeTags.TagLineReadsBack | src/geode/io/model/msh_output.cpp:230 | a tag line reads back as its value |
| MshNodeTags.BlockTagsReadBack | src/geode/io/model/msh_output.cpp:228-232 | a written block's tag lines read back as the tags written |
| MshNodeTags.TagBlocksReadBack | src/geode/io/model/msh_output.cpp:249-264 | all written blocks read back with their tags |
| MshNodeTags.FreshTagsExported | src/geode/io/model/msh_output.cpp:228-232 | a component's tags are the unique vertices it exports plus one |
| MshNodeTags.WrittenTagsExported | src/geode/io/model/msh_output.cpp:241-268 | the written tags are the exported unique vertices, in export order, plus one |
| MshNodeTags.WrittenTagsInRange | src/geode/io/model/msh_output.cpp:243-246 | every written tag lies between 1 and the declared node count |
| MshNodeTags.WrittenTagsDistinct | src/geode/io/model/msh_output.cpp:241-268 | when no component repeats a unique vertex, no tag is written twice |
| MshNodeTags.WrittenTagsCover | src/geode/io/model/msh_output.cpp:241-268 | every unique vertex a visited component uses is written with its own tag |
| MshNodeTags.WrittenTagsCoverAll | src/geode/io/model/msh_output.cpp:241-268 | every used unique vertex has a written tag |
| MshNodeTags.FreshPointsOfTags | src/geode/io/model/msh_output.cpp:228-237 | the points a component writes are those of the unique vertices its tags name |
| MshNodeTags.ExportedPointsOfTags | src/geode/io/model/msh_output.cpp:241-268 | the points written are those of the unique vertices the tags name |
| MshNodeTags.PlacedPointsOfTags | src/geode/io/model/msh_output.cpp:241-268 | placing nodes by distinct tags gives each tag's node its unique vertex's point |
| MshNodeTags.CoveredPlaced | src/geode/io/model/msh_output.cpp:241-268 | every used node gets its point when every used unique vertex is tagged |
| MshNodeTags.TaggedNodesParsed | src/geode/io/model/msh_output.cpp:241-268 | the tag-placing reader places the written points at the written tags |
| MshNodeTags.TaggedNodesPlaced | src/geode/io/model/msh_output.cpp:241-268 | the tag-placing reader gives the node of every written tag its own point |
| MshNodeTags.TaggedNodesReadBack | src/geode/io/model/msh_output.cpp:241-268 | the tag-placing reader gives every used unique vertex its own point |
| MshNodeTags.UntaggedNodesReadBack | src/geode/io/model/msh_input.cpp:910-954 | the reader as written gives node j the point of the j-th exported unique vertex, not of unique vertex j |
| MshNodeTags.UntaggedNodesMisplaced | src/geode/io/model/msh_input.cpp:932-954 | where those differ, the reader as written gives unique vertex j a point not its own |
| MshNodeTags.SwappedCornersExport | src/geode/io/model/msh_output.cpp:215-224 | two corners linked to unique vertices 1 then 0 export vertex 1 first |
| MshNodeTags.FirstCornerExport | src/geode/io/model/msh_output.cpp:215-232 | the first corner alone exports vertex 1 and flags it |
| BRepModel.WithComponents | include/geode/io/model/private/msh_common.h:208-412 | replacing one type's components leaves the other types, the unique vertices and the relations as they were |
| BRepModel.AddEmptyWellFormed | include/geode/io/model/private/msh_common.h:208-412 | adding an empty component or changing the relations keeps every component well formed |
| BRepModel.GrowthKeepsRelations | src/geode/io/model/msh_input.cpp:605-628 | components are only added, so existing relations stay valid |
| Text.SplitWords | src/geode/io/mesh/smesh_triangulated_input.cpp:117 | every token is a non-empty run of non-space characters |
| Text.SplitJoin | src/geode/io/mesh/smesh_triangulated_input.cpp:117 | two texts joined by a space tokenize as the tokens of one then the other |
| Text.Trim | include/geode/io/mesh/detail/vtk_input.hpp:137 | the text without its leading and trailing whitespace; only whitespace is cut |
| Text.NatToStringRoundTrip | src/geode/io/mesh/vtu_polyhedral_output.cpp:50-66 | a written unsigned value parses back |
| Text.IntToStringRoundTrip | src/geode/io/model/msh_output.cpp:165-172 | a written signed value parses back |
| Text.SplitJoinInts | src/geode/io/mesh/vtu_polyhedral_output.cpp:50-66 | tokenizing written values gives one token per value |
| Text.ParseInts | include/geode/io/mesh/detail/vtk_input.hpp:565-579 | the list reads only when every token reads |
| Text.AsciiRoundTrip | include/geode/io/mesh/detail/vtk_input.hpp:565-586 | values an ascii writer wrote parse back to those values |
| Text.SplitSpaced | src/geode/io/model/msh_output.cpp:243-246 | a space-separated line tokenizes as one token per value |
| Text.SplitJoinWords | src/geode/io/mesh/triangle_output.cpp:41-44 | words joined by spaces tokenize back as those words |
| Streams.ParseIndex | src/geode/io/model/msh_input.cpp:874-880 | a token converts to `index_t` exactly when it is a number below 2^32 |
| Streams.SkipValuesIsSkipEach | src/geode/io/model/msh_input.cpp:995-999 | skipping n values at once is skipping them one by one |
| Streams.SkipValues | src/geode/io/model/msh_input.cpp:995-999 | the stream stays good exactly when enough tokens are left; its tokens do not change |
| SvgPath.UpdateCase | src/geode/io/model/svg_input.cpp:99-103 | upper- and lower-case letters select the same command; only upper case is absolute |
| SvgPath.NbParams | src/geode/io/model/svg_input.cpp:147-154 | only m, l, h, v and z have a parameter count, at most 2; any other letter throws |
| SvgPath.Apply | src/geode/io/model/svg_input.cpp:105-145 | only m, l, h and v move the position; any other command throws |
| SvgPath.RelativeIsShiftedAbsolute | src/geode/io/model/svg_input.cpp:105-145 | a relative command goes where the absolute one goes from the origin, shifted by the position |
| SvgPath.ApplyKeepsAxis | src/geode/io/model/svg_input.cpp:120-144 | a horizontal lineto keeps the ordinate and a vertical one the abscissa |
| SvgPath.NoCommas | src/geode/io/model/svg_input.cpp:191-194 | every comma becomes a space, nothing else changes |
| SvgPath.SpacedAppend | src/geode/io/model/svg_input.cpp:196-206 | spacing out distributes over concatenation |
| SvgPath.SpacedNone | src/geode/io/model/svg_input.cpp:196-206 | a text without the letters is unchanged |
| SvgPath.SpacedThenRest | src/geode/io/model/svg_input.cpp:208-214 | spacing one letter then the others spaces them all |
| SvgPath.Find | src/geode/io/model/svg_input.cpp:200 | the first index at or after the start holding the letter |
| SvgPath.AddSpaces | src/geode/io/model/svg_input.cpp:196-206 | each occurrence of the letter becomes " letter ", and the loop ends |
| SvgPath.FormatPath | src/geode/io/model/svg_input.cpp:172-176 | commas removed, then every command letter spaced out |
| SvgPath.AddSpaceAroundLetters | src/geode/io/model/svg_input.cpp:216-220 | every command letter spaced out |
| SvgPath.AddSpacesEach | src/geode/io/model/svg_input.cpp:208-214 | the first letter, then the others |
| SvgPath.FormattedLettersStandAlone | src/geode/io/model/svg_input.cpp:172-220 | in a formatted path every command letter has a space on each side |
| SvgPath.UpdateCommand | src/geode/io/model/svg_input.cpp:247-263 | a letter token selects its command and is consumed; another token starts an implicit lineto and is not consumed; a multi-letter token throws |
| SvgPath.Params | src/geode/io/model/svg_input.cpp:222-245 | the parameters read exactly when each token converts, one per parameter |
| SvgPath.ParamsValues | src/geode/io/model/svg_input.cpp:222-245 | the parameters are the tokens' values in order |
| SvgPath.CommandEffect | src/geode/io/model/svg_input.cpp:265-291 | a closepath closes and flushes the run, a moveto flushes a pending run, other commands add the new position; the token index only grows |
| SvgPath.Step | src/geode/io/model/svg_input.cpp:299-304 | one iteration of the loop always advances |
| SvgPath.RunFailsAtUpdate | src/geode/io/model/svg_input.cpp:247-263 | a token that cannot select a command ends the run with the runs flushed before it |
| SvgPath.RunFailsAtApply | src/geode/io/model/svg_input.cpp:265-291 | a command that cannot be applied ends the run with the runs flushed before it |
| SvgPath.RunEnds | src/geode/io/model/svg_input.cpp:305 | when the tokens run out the pending vertices are the last run |
| SvgPath.RunContinues | src/geode/io/model/svg_input.cpp:299-304 | an applied command hands the rest of the run to the state after it |
| SvgPath.ImplicitLineto | src/geode/io/model/svg_input.cpp:258-290 | two numbers where a letter could stand draw a line, absolute or relative as before |
| SvgPath.MovetoStartsRun | src/geode/io/model/svg_input.cpp:279-290 | a moveto flushes the pending vertices and starts a new run at its point |
| SvgPath.ClosepathSkipsNextToken | src/geode/io/model/svg_input.cpp:273-303 | a closepath flushes the closed run, keeps the position, and the loop then skips the next token |
| SvgPath.ClosepathNeedsVertex | src/geode/io/model/svg_input.cpp:275 | a closepath with no vertex before it is an error |
| SvgPath.ChainEdges | src/geode/io/model/svg_input.cpp:349-353 | a line of n points has n − 1 edges, each joining a point to the next |
| SvgPath.AddLinesOne | src/geode/io/model/svg_input.cpp:340-357 | adding one run is `create_line` on it |
| SvgPath.AddLinesAppend | src/geode/io/model/svg_input.cpp:340-357 | adding runs one after the other is adding them all |
| SvgPath.AddLinesKeepsEnds | src/geode/io/model/svg_input.cpp:340-357 | every run of at least two points becomes a line, shorter ones are dropped, and each line gets its two ends as potential corners |
| SvgPath.AddLineKeepsEnds | src/geode/io/model/svg_input.cpp:340-357 | one more line keeps every line matched with its two ends |
| SvgPath.NestedPathCollected | src/geode/io/model/svg_input.cpp:160-170 | every path of a group, at any depth, is collected |
| SvgPath.ProcessedRunsPass | src/geode/io/model/svg_input.cpp:73-81 | reading the paths passes exactly when every path's tokens can be read |
| SvgPath.ProcessedRunsStep | src/geode/io/model/svg_input.cpp:73-81 | reading the paths is reading the first, then, if it passes, the rest |
| SvgPath.SvgPathReader.constructor | src/geode/io/model/svg_input.cpp:54-63 | a fresh reader has no path, line or potential corner |
| SvgPath.SvgPathReader.ReadGroupPaths | src/geode/io/model/svg_input.cpp:160-170 | a group's own paths, then those of its child groups, are appended |
| SvgPath.SvgPathReader.ReadFile | src/geode/io/model/svg_input.cpp:65-71 | the paths of every top-level group are appended |
| SvgPath.SvgPathReader.CreateLine | src/geode/io/model/svg_input.cpp:340-357 | the line and its two potential corners are added as the line function says |
| SvgPath.SvgPathReader.ApplyCommand | src/geode/io/model/svg_input.cpp:265-291 | the command's effect, with the runs it flushes passed to `create_line` |
| SvgPath.SvgPathReader.ProcessTokens | src/geode/io/model/svg_input.cpp:293-307 | the lines made are those of every run the loop flushes, then the pending one |
| SvgPath.SvgPathReader.ProcessPaths | src/geode/io/model/svg_input.cpp:73-81 | each path formatted, split and processed in order until one fails |
| SvgTopology.FillAssigns | src/geode/io/model/svg_input.cpp:398-413 | every key gets a unique vertex; existing ones are kept; new ones are distinct and numbered on |
| SvgTopology.LineVertexListed | src/geode/io/model/svg_input.cpp:400-405 | every vertex of every line is visited |
| SvgTopology.EndsDistinct | src/geode/io/model/svg_input.cpp:340-357 | the potential corners stand for distinct line vertices |
| SvgTopology.EndsOnLines | src/geode/io/model/svg_input.cpp:354-356 | every potential corner lies on its line, at a vertex of it |
| SvgTopology.CornerLinePairs | src/geode/io/model/svg_input.cpp:377-396 | one (corner, line) pair per potential corner |
| SvgTopology.AddRelationsSpec | src/geode/io/model/svg_input.cpp:387-392 | every pair is added, old relations are kept, nothing else appears, and none is repeated |
| SvgTopology.SetEndsKeeps | src/geode/io/model/svg_input.cpp:393-394 | every potential corner's vertex gets a unique vertex; other entries are unchanged |
| SvgTopology.BoundedAfterEnds | src/geode/io/model/svg_input.cpp:393-394 | the unique vertices given stay below the count created |
| SvgTopology.SetEndsSharesCorners | src/geode/io/model/svg_input.cpp:377-396 | each line end shares the unique vertex of its corner |
| SvgTopology.NewCornersSpec | src/geode/io/model/svg_input.cpp:359-375 | the new corners hold their own new unique vertices; nothing else changes |
| SvgTopology.RelationFacts | src/geode/io/model/svg_input.cpp:377-396 | the relations have no repeat, hold each line's corners and nothing else new |
| SvgTopology.UniqueVertexFacts | src/geode/io/model/svg_input.cpp:83-92 | every line vertex has a unique vertex and old ones are kept |
| SvgTopology.SharedCornerFacts | src/geode/io/model/svg_input.cpp:359-396 | on a fresh section each line end shares its corner's unique vertex |
| SvgTopology.SectionTopology.constructor | src/geode/io/model/svg_input.cpp:54-63 | an empty section |
| SvgTopology.SectionTopology.CreateCorners | src/geode/io/model/svg_input.cpp:359-375 | one corner per unique point, with a new unique vertex each; the ids are returned in order |
| SvgTopology.SectionTopology.BuildCornerLineRelations | src/geode/io/model/svg_input.cpp:377-396 | each potential corner relates its line to its group's corner unless already related, and its vertex gets the group index |
| SvgTopology.SectionTopology.CreateLineUniqueVertices | src/geode/io/model/svg_input.cpp:398-413 | every line vertex without a unique vertex gets a new one |
| SvgTopology.SectionTopology.BuildTopology | src/geode/io/model/svg_input.cpp:83-92 | every line vertex has a unique vertex, each line is related to its end corners and nothing else new, and, when the section had no unique vertex before, line ends share their corners' unique vertex |
| SvgLegacy.ReplaceChar | src/geode/model/svg_input.cpp:101 | every matching character is replaced, nothing else changes |
| SvgLegacy.RemoveCommas | src/geode/model/svg_input.cpp:99-102 | every comma becomes a space |
| SvgLegacy.CapitalizeLetters | src/geode/model/svg_input.cpp:104-111 | m, l, h, v and z become upper case, nothing else changes |
| SvgLegacy.CapitalizedHasNoLowerCommand | src/geode/model/svg_input.cpp:104-111 | no lower-case command letter remains |
| SvgLegacy.Find | src/geode/model/svg_input.cpp:119 | an occurrence at or after the start |
| SvgLegacy.FindFirst | src/geode/model/svg_input.cpp:119 | no occurrence is skipped |
| SvgLegacy.ReplacedAllNone | src/geode/model/svg_input.cpp:113-125 | a text with no occurrence is unchanged |
| SvgLegacy.ReplacedAllFirst | src/geode/model/svg_input.cpp:113-125 | the text before the first occurrence is kept, the occurrence replaced, and the scan resumes after it |
| SvgLegacy.ReplaceAllOccurrences | src/geode/model/svg_input.cpp:113-125 | every occurrence replaced, scanning on after each replacement |
| SvgLegacy.LetterText | src/geode/model/svg_input.cpp:132 | `std::to_string` of a char is its decimal code |
| SvgLegacy.LetterTextIsCode | src/geode/model/svg_input.cpp:127-137 | the searched texts are "77", "76", "72", "86", "90", never the letter |
| SvgLegacy.AddSpaceAroundLetters | src/geode/model/svg_input.cpp:127-137 | the codes of M, L, H, V, Z spaced out in turn |
| SvgLegacy.SpacedCodesNoDigits | src/geode/model/svg_input.cpp:127-137 | a path without digits is left unchanged |
| SvgLegacy.FormatPath | src/geode/model/svg_input.cpp:74-79 | commas removed, letters capitalized, then the code spacing |
| SvgLegacy.LettersStayAttached | src/geode/model/svg_input.cpp:74-79 | "m0" stays the single token "M0" |
| SvgLegacy.SpacedM0 | src/geode/io/model/svg_input.cpp:216-220 | the newer spacing turns "M0" into " M 0" |
| SvgLegacy.LettersSeparated | src/geode/io/model/svg_input.cpp:172-182 | the newer formatting gives the letter its own token |
| SvgLegacy.LegacySvgReader.constructor | src/geode/model/svg_input.cpp:38-48 | no path collected |
| SvgLegacy.LegacySvgReader.ReadFile | src/geode/model/svg_input.cpp:50-60 | the paths directly under each top-level group, in order |
| SvgLegacy.LegacySvgReader.ProcessPaths | src/geode/model/svg_input.cpp:62-72 | each path formatted in place; nothing else changes |
| SvgLegacy.DirectPathsCollected | src/geode/model/svg_input.cpp:50-60 | every path the older reader collects the newer one collects too |
| VtkInput.MatchSameLength | include/geode/io/mesh/detail/vtk_input.hpp:107-111 | a value matches itself; a value no longer than the reference matches only it |
| VtkInput.MatchNotEquality | include/geode/io/mesh/detail/vtk_input.hpp:107-111 | `match` is weaker than equality: "UInt64UInt64" matches "UInt64" |
| VtkInput.ReadAttribute | include/geode/io/mesh/detail/vtk_input.hpp:113-124 | an attribute reads exactly when it is a decimal number fitting `index_t`, and gives that number |
| VtkInput.VtkReader.constructor | include/geode/io/mesh/detail/vtk_input.hpp:614-617 | little endian, uncompressed, 32-bit headers and no appended data at first |
| VtkInput.VtkReader.ReadRootAttributes | include/geode/io/mesh/detail/vtk_input.hpp:383-414 | the file type and byte order must match, the compressor must be empty or zlib; compression and header width are then recorded |
| VtkInput.VtkReader.ReadRootAttributesLegacy | include/geode/io/mesh/private/vtk_input.h:286-314 | the same checks, except that the byte order is only recorded |
| VtkInput.VtkReader.ReadAppendedData | include/geode/io/mesh/detail/vtk_input.hpp:416-430 | without appended data nothing changes; otherwise its encoding must be base64 and the stripped text after its '_' marker is kept |
| VtkInput.VtkReader.ArrayData | include/geode/io/mesh/detail/vtk_input.hpp:331-336 | an array's data is the appended text from its offset on; an offset past the end throws |
| VtkInput.DataSource | include/geode/io/mesh/detail/vtk_input.hpp:126-193 | "appended" arrays take their part of the appended data; otherwise the stripped text is ascii values or base64 |
| VtkInput.NbCharNeededLeast | include/geode/io/mesh/detail/vtk_input.hpp:464-473 | the least multiple of 4 characters that carries the bytes |
| VtkInput.DataOffsetSplits | include/geode/io/mesh/detail/vtk_input.hpp:475-520 | the data offset is the fixed header followed by the block-size header |
| VtkInput.FixedHeaderLengths | include/geode/io/mesh/detail/vtk_input.hpp:477 | the fixed header is 16 characters for UInt32 words, 32 for UInt64 |
| VtkInput.BlockTotal | include/geode/io/mesh/detail/vtk_input.hpp:495-503 | the total of the compressed block sizes |
| VtkInput.RunningStartsAt | include/geode/io/mesh/detail/vtk_input.hpp:520-530 | each block starts at the sum of the sizes before it and ends within the total |
| VtkInput.Substr | include/geode/io/mesh/detail/vtk_input.hpp:335 | `substr` throws past the end and clamps the count |
| VtkInput.DecodeCompressed | include/geode/io/mesh/detail/vtk_input.hpp:475-530 | zero blocks decode to nothing; otherwise the data starts right after both headers and each block at its running offset |
| VtkInput.ValuesAfterCount | include/geode/io/mesh/detail/vtk_input.hpp:436-462 | data shorter than the count word is rejected; otherwise one value per value-size bytes after it |
| VtkInput.DecodeUncompressed | include/geode/io/mesh/detail/vtk_input.hpp:436-462 | the count word is read first; then only nb_char_needed(1) + nb_char_needed(n / valueSize) characters are decoded, the second count taken at valueSize bytes per value, and value v of the result is the value of its own valueSize bytes after the count word |
| VtkInput.DecodeUncompressedLegacy | include/geode/io/mesh/private/vtk_input.h:379-399 | the older reader decodes the whole stripped input; value v of the result is the value of its own valueSize bytes after the count word |
| VtkInput.LegacyLayoutAgrees | include/geode/io/mesh/private/vtk_input.h:401-440 | the older reader's header layout gives the same data offset |
| VtkInput.StorageOf | include/geode/io/mesh/detail/vtk_input.hpp:248-320 | Float64 and Float32 are stored as double; the integer types by their range |
| VtkInput.IntegerStorage | include/geode/io/mesh/detail/vtk_input.hpp:270-293 | both bounds go through `read_attribute`; `index_t` storage exactly when RangeMax is below its maximum |
| VtkInput.NegativeRangeThrows | include/geode/io/mesh/detail/vtk_input.hpp:274-280 | as written, a negative RangeMin throws and long storage needs RangeMax at exactly the maximum |
| VtkInput.IntegerStorageSigned | include/geode/io/mesh/detail/vtk_input.hpp:270-293 | as intended: `index_t` storage exactly for bounds within 0 and below the maximum |
| VtkInput.NegativeRangeIsLong | include/geode/io/mesh/detail/vtk_input.hpp:270-293 | with signed bounds a negative RangeMin selects long storage |
| VtkInput.CastToIndex | include/geode/io/mesh/detail/vtk_input.hpp:195-204 | one value per input, in order, narrowed to `index_t` |
| VtkInput.CastBytesUnchanged | include/geode/io/mesh/detail/vtk_input.hpp:303-310 | byte values are kept unchanged |
| VtkAscii.Collapse | include/geode/io/mesh/detail/vtk_input.hpp:141 | each run of whitespace keeps one character |
| VtkAscii.SplitOn | include/geode/io/mesh/detail/vtk_input.hpp:570 | the pieces between separators, empty ones included |
| VtkAscii.ReadAsciiIntegers | include/geode/io/mesh/detail/vtk_input.hpp:566-586 | the read succeeds exactly when every piece converts; the values come in piece order |
| VtkAscii.BlankFails | include/geode/io/mesh/detail/vtk_input.hpp:137-579 | blank text gives one empty piece, which does not convert |
| VtkAscii.ToUint8 | include/geode/io/mesh/detail/vtk_input.hpp:589-599 | an `int` stored in a `uint8_t`, modulo 256 |
| VtkAscii.ReadAsciiUint8 | include/geode/io/mesh/detail/vtk_input.hpp:589-599 | never fails; one value per piece, an unreadable piece giving 0 |
| VtkAscii.AtoiOfNat | include/geode/io/mesh/detail/vtk_input.hpp:596 | a byte value's text reads back |
| VtkAscii.WrittenTokens | include/geode/io/mesh/detail/vtk_input.hpp:137-570 | a written non-empty array splits into its values' texts; an empty one is one empty piece |
| VtkAscii.AsciiIntegersRoundTrip | include/geode/io/mesh/detail/vtk_input.hpp:566-586 | every piece of the written text converts back to its value |
| VtkAttributes.WriteElements | include/geode/io/mesh/detail/vtk_input.hpp:360-381 | component c of element offset + i is set to value nb·i + c; other elements keep their values |
| VtkAttributes.SetSlot | include/geode/io/mesh/detail/vtk_input.hpp:371-377 | the components of one element |
| VtkAttributes.WrittenKept | include/geode/io/mesh/detail/vtk_input.hpp:367-379 | setting one element keeps what was written before |
| VtkAttributes.AttributeManager.constructor | include/geode/io/mesh/detail/vtk_input.hpp:360-381 | no attribute at first |
| VtkAttributes.AttributeManager.BuildAttribute | include/geode/io/mesh/detail/vtk_input.hpp:206-246 | the value count must be a multiple of the components; an existing attribute is untouched; a new one holds the values |
| VtkAttributes.AttributeManager.BuildAttributeLegacy | include/geode/io/mesh/private/vtk_input.h:175-214 | one component: every value is set with no check; more: the count must be a multiple |
| VtkAttributes.FlatValuesReadBack | include/geode/io/mesh/detail/vtk_input.hpp:206-246 | a freshly built attribute gives back the values it was built from |
| VtkCells.ToIndex | include/geode/io/mesh/detail/vtk_mesh_input.hpp:67-88 | a 64-bit value cast to `index_t`, modulo 2^32 |
| VtkCells.Narrow | include/geode/io/mesh/detail/vtk_mesh_input.hpp:67-88 | each connectivity entry narrowed |
| VtkCells.GetCellVertices | include/geode/io/mesh/detail/vtk_mesh_input.hpp:67-88 | one cell per offset, listing the connectivity between the previous offset and its own |
| VtkCells.Offsets | include/geode/io/mesh/detail/vtk_mesh_input.hpp:67-88 | the running totals of cell sizes |
| VtkCells.OffsetsWellFormed | include/geode/io/mesh/detail/vtk_mesh_input.hpp:67-88 | the running totals never decrease and end at the connectivity length |
| VtkCells.SliceOfFlatten | include/geode/io/mesh/detail/vtk_mesh_input.hpp:67-88 | each cell sits between its start and its offset |
| VtkCells.CellsRoundTrip | include/geode/io/mesh/detail/vtk_mesh_input.hpp:67-88 | cells written as offsets and connectivity slice back as themselves |
| VtkMeshInput.Coordinates | include/geode/io/mesh/detail/vtk_mesh_input.hpp:136-152 | three coordinates per point |
| VtkMeshInput.GetPoints | include/geode/io/mesh/detail/vtk_mesh_input.hpp:136-152 | point p takes coordinates 3p to 3p + 2; leftovers are unused |
| VtkMeshInput.CoordinatesOfPrefix | include/geode/io/mesh/detail/vtk_mesh_input.hpp:136-152 | the first k points come from the first 3k coordinates |
| VtkMeshInput.PointsRoundTrip | include/geode/io/mesh/detail/vtk_mesh_input.hpp:136-152 | the points give back the coordinates they came from |
| VtkMeshInput.PointsOfCoordinates | include/geode/io/mesh/detail/vtk_mesh_input.hpp:136-152 | points written three by three read back as themselves |
| VtkMeshInput.PointsEncodingOf | include/geode/io/mesh/detail/vtk_mesh_input.hpp:154-213 | the component count must be 3 and the type Float32 or Float64; the format picks appended, ascii or inline data |
| VtkMeshInput.TwoComponentsRefused | include/geode/io/mesh/detail/vtk_mesh_input.hpp:166-168 | a 2D file is refused |
| VtkMeshInput.IntegerPointsRefused | include/geode/io/mesh/detail/vtk_mesh_input.hpp:162-165 | an integer point type is refused |
| VtkMeshInput.Float64Appended | include/geode/io/mesh/detail/vtk_mesh_input.hpp:170-182 | appended Float64 coordinates are accepted |
| VtkMeshInput.ReadAsciiCoordinates | include/geode/io/mesh/detail/vtk_mesh_input.hpp:215-235 | the read succeeds exactly when every piece converts; values in piece order |
| VtkMeshInput.PiecePoints | include/geode/io/mesh/detail/vtk_mesh_input.hpp:108-134 | a piece adds its first NumberOfPoints points, or fails |
| VtkMeshInput.AllPointsOk | include/geode/io/mesh/detail/vtk_mesh_input.hpp:90-97 | the pieces read exactly when each of them does |
| VtkMeshInput.MeshPoints.constructor | include/geode/io/mesh/detail/vtk_mesh_input.hpp:122-134 | no vertex at first |
| VtkMeshInput.MeshPoints.CreateVertices | include/geode/io/mesh/detail/vtk_mesh_input.hpp:127-128 | n vertices appended; the first index is returned |
| VtkMeshInput.MeshPoints.SetPoint | include/geode/io/mesh/detail/vtk_mesh_input.hpp:131 | one vertex's point set |
| VtkMeshInput.MeshPoints.BuildPoints | include/geode/io/mesh/detail/vtk_mesh_input.hpp:122-134 | the new vertices hold the points read |
| VtkMeshInput.MeshPoints.ReadPiece | include/geode/io/mesh/detail/vtk_mesh_input.hpp:108-115 | a piece's points are appended after the existing vertices, or nothing changes |
| VtkMeshInput.MeshPoints.ReadPieces | include/geode/io/mesh/detail/vtk_mesh_input.hpp:90-97 | each piece's points follow the previous ones; its offset is the vertex count before it |
| VtkMeshInput.AllPointsStep | include/geode/io/mesh/detail/vtk_mesh_input.hpp:90-97 | one more piece adds its points after the others |
| VtkMeshInput.PrefixFails | include/geode/io/mesh/detail/vtk_mesh_input.hpp:90-97 | a failing piece fails every longer run |
| VtkMeshInput.LoadablePercentages | include/geode/io/mesh/detail/vtk_mesh_input.hpp:99-106 | one percentage per piece, in order |
| VtpInput.Stoul | src/geode/io/mesh/vtp_input.cpp:98-348 | `std::stoul`: the value always fits an unsigned long |
| VtpInput.StoulOfDecimal | src/geode/io/mesh/vtp_input.cpp:98 | a plain decimal number that fits reads as itself |
| VtpInput.StoulMinusOne | src/geode/io/mesh/vtp_input.cpp:348 | "-1" reads as the largest unsigned long, which narrows to NO_ID |
| VtpInput.StoulRefusesWords | src/geode/io/mesh/vtp_input.cpp:98 | a token with no digit is refused |
| VtpInput.Extract | src/geode/io/mesh/vtp_input.cpp:263-268 | one extraction skips whitespace and takes a whole word |
| VtpInput.TokensSplit | src/geode/io/mesh/vtp_input.cpp:345-350 | reading tokens by position gives the whitespace-separated tokens |
| VtpInput.EofTokensSplit | src/geode/io/mesh/vtp_input.cpp:263-350 | the eof loop hands on every token when the text ends with whitespace, and all but the last otherwise |
| VtpInput.EofTokensOfWritten | src/geode/io/mesh/vtp_input.cpp:345-350 | texts written one value and a space at a time are read whole by the eof loop (see also include/geode/io/mesh/private/vtp_output_impl.h:79-83) |
| VtpInput.FinalTokenDropped | src/geode/io/mesh/vtp_input.cpp:345-350 | "0 1 2" holds three values and the eof loop hands on only two |
| VtpInput.ConvertAll | src/geode/io/mesh/vtp_input.cpp:345-350 | every token converted in order |
| VtpInput.ConvertAllValues | src/geode/io/mesh/vtp_input.cpp:345-350 | the conversion succeeds exactly when each token converts, and value k is token k's |
| VtpInput.ConvertAllPrefixErr | src/geode/io/mesh/vtp_input.cpp:345-350 | a failing prefix fails the whole conversion with its error |
| VtpInput.ReadAsciiEofLoop | src/geode/io/mesh/vtp_input.cpp:255-360 | the loop as written converts exactly the tokens the eof loop hands on |
| VtpInput.ReadAsciiTokens | src/geode/io/mesh/vtp_input.cpp:334-360 | the corrected loop converts every whitespace-separated token |
| VtpInput.LoopsAgreeOnTerminatedText | src/geode/io/mesh/vtp_input.cpp:334-360 | both loops agree whenever the text ends with whitespace |
| VtpInput.IndicesRoundTrip | src/geode/io/mesh/vtp_input.cpp:321-360 | index arrays written one value and a space at a time read back whole (see also include/geode/io/mesh/private/vtp_output_impl.h:79-83) |
| VtpInput.RemoveSpaces | src/geode/io/mesh/vtp_input.cpp:130-151 | the text without its leading and trailing whitespace; blank text gives the empty view |
| VtpInput.Decode | src/geode/io/mesh/vtp_input.cpp:153-211 | the 16-character fixed header gives the block count; zero blocks give no value and more than one is refused |
| VtpInput.PointsAreAscii | src/geode/io/mesh/vtp_input.cpp:230-253 | NumberOfComponents must be 3; the "ascii" format exactly selects ascii coordinates |
| VtpInput.SelectPolygonArrays | src/geode/io/mesh/vtp_input.cpp:299-320 | the last array named "offsets" gives the offsets and the last named "connectivity" the connectivity |
| VtpInput.LastNamedWins | src/geode/io/mesh/vtp_input.cpp:299-320 | a later array of a name wins; other names do not matter |
| VtpInput.PieceOf | src/geode/io/mesh/vtp_input.cpp:96-105 | the two counts read with `std::stoul` |
| VtpInput.PieceAdds | src/geode/io/mesh/vtp_input.cpp:93-112 | a piece without polygons adds nothing; otherwise its points and polygons; a count that does not read is an error |
| VtpInput.AddedAll | src/geode/io/mesh/vtp_input.cpp:93-112 | when every piece has polygons, all their points and polygons are added |
| VtpInput.VtpReader.constructor | src/geode/io/mesh/vtp_input.cpp:45-57 | an empty surface, little endian, uncompressed |
| VtpInput.VtpReader.ReadRootAttributes | src/geode/io/mesh/vtp_input.cpp:70-91 | the type must be "PolyData"; "BigEndian" clears the flag; the compressor must be absent or zlib, which sets compression |
| VtpInput.VtpReader.BuildPiece | src/geode/io/mesh/vtp_input.cpp:114-128 | the points become new vertices after the existing ones; the polygons keep their vertex ids as read |
| VtpInput.VtpReader.ReadPiece | src/geode/io/mesh/vtp_input.cpp:95-111 | NumberOfPolys first; a piece without polygons is skipped; otherwise it is built |
| VtpInput.VtpReader.ReadPolydata | src/geode/io/mesh/vtp_input.cpp:93-112 | the pieces in order, each adding to the surface |
| VtpInput.AddedStep | src/geode/io/mesh/vtp_input.cpp:93-112 | piece i adds its part to what the earlier pieces added |
| VtpInput.AddedPrefixFails | src/geode/io/mesh/vtp_input.cpp:93-112 | a failing piece fails every longer run |
| VtpOutput.LastVertex | include/geode/io/mesh/private/vtp_output_impl.h:59-60 | RangeMax of connectivity wraps to 2^32 − 1 for an empty mesh |
| VtpOutput.WritePolys | include/geode/io/mesh/private/vtp_output_impl.h:50-88 | the offsets are the running vertex counts and the connectivity the polygon vertices in order |
| VtpOutput.FlattenIndexValues | include/geode/io/mesh/private/vtp_output_impl.h:80-84 | every connectivity value is a vertex of some polygon |
| VtpOutput.WrittenPolysReadBack | include/geode/io/mesh/private/vtp_output_impl.h:50-88 | the texts read back as the flattened vertices and running totals, and slicing gives back every polygon (see also src/geode/io/mesh/vtp_input.cpp:271-297) |
| VtpOutput.Mapped | include/geode/io/mesh/private/vtp_surface_output_impl.h:199-203 | each corner numbered through `vertex_mapping_`, `at` throwing on a missing entry |
| VtpOutput.WriteSurfacePolys | include/geode/io/mesh/private/vtp_surface_output_impl.h:162-210 | without texture the polygon vertices, with textures the mapped corners; the offsets are the same either way |
| VtpOutput.MapPolygons | include/geode/io/mesh/private/vtp_surface_output_impl.h:192-205 | the per-corner lookups; the first missing entry throws |
| VtpOutput.SameSizesSameOffsets | include/geode/io/mesh/private/vtp_surface_output_impl.h:186-189 | cells of the same sizes have the same offsets |
| VtpOutput.EdgeCells | src/geode/io/mesh/vtp_edged_curve_output.cpp:73-82 | each edge as a two-vertex cell |
| VtpOutput.Evens | src/geode/io/mesh/vtp_edged_curve_output.cpp:73-82 | the offsets 2, 4, ..., 2n |
| VtpOutput.WriteLines | src/geode/io/mesh/vtp_edged_curve_output.cpp:50-85 | the edge count, then offsets growing by 2 and both edge vertices |
| VtpOutput.LinesAreCells | src/geode/io/mesh/vtp_edged_curve_output.cpp:50-85 | the Lines block is the generic encoding of the edges, which slices back |
| VtpOutput.PointCells | src/geode/io/mesh/vtp_point_set_output.cpp:73-78 | vertex v as the cell [v] |
| VtpOutput.Upto | src/geode/io/mesh/vtp_point_set_output.cpp:73-78 | 0 to n − 1 |
| VtpOutput.WriteVerts | src/geode/io/mesh/vtp_point_set_output.cpp:51-81 | vertex v writes v + 1 to the offsets and v to the connectivity |
| VtpOutput.VertsAreCells | src/geode/io/mesh/vtp_point_set_output.cpp:51-81 | the Verts block is the generic encoding of one single-vertex cell per point |
| VtpOutput.WriteCellAttributes | include/geode/io/mesh/private/vtp_output_impl.h:90-125 | one Float64 array per genericable attribute, in name order |
| VtpOutput.GenericableExactly | include/geode/io/mesh/private/vtp_output_impl.h:95-103 | an array is written for an attribute exactly when it is genericable |
| VtpSurfaceOutput.Put | include/geode/io/mesh/private/vtp_surface_output_impl.h:155 | the map updated at one key |
| VtpSurfaceOutput.SplitTextureVertices | include/geode/io/mesh/private/vtp_surface_output_impl.h:117-160 | walking the corners polygon by polygon, each output vertex is created by the first corner, in walk order, of its (vertex, texture coordinates) pair, and every such first corner creates one; no pair has two output vertices; `vertex_mapping_[x]` has entries exactly for the polygons through x, and each corner that is the last of its polygon on x is mapped to the output vertex of its own pair (an earlier corner of the same polygon on x shares that entry) |
| VtpSurfaceOutput.VisitCorner | include/geode/io/mesh/private/vtp_surface_output_impl.h:132-158 | one corner: `try_emplace` of its coordinates and a new output vertex when they are new |
| VtpSurfaceOutput.SeenKeeps | include/geode/io/mesh/private/vtp_surface_output_impl.h:148-157 | a pair met before only updates the mapping |
| VtpSurfaceOutput.NewKeeps | include/geode/io/mesh/private/vtp_surface_output_impl.h:148-157 | a new pair adds one output vertex, created by this corner |
| VtpSurfaceOutput.CornerResult | include/geode/io/mesh/private/vtp_surface_output_impl.h:117-160 | a walked corner maps to an output vertex of its own mesh vertex, carrying its coordinates |
| VtpSurfaceOutput.NewFirstSeen | include/geode/io/mesh/private/vtp_surface_output_impl.h:148-154 | a corner whose pair is not in the hash map is the first corner with that pair, so the output vertex it creates is first-seen |
| VtpSurfaceOutput.OwnPairsStep | include/geode/io/mesh/private/vtp_surface_output_impl.h:155 | setting `vertex_mapping_[x][p]` to an output vertex carrying the corner's coordinates maps the corner to its own pair and leaves every other last corner as it was |
| VtpSurfaceOutput.MappingKeysStep | include/geode/io/mesh/private/vtp_surface_output_impl.h:155 | `vertex_mapping_[x]` only gains the polygon of a corner on x |
| VtpSurfaceOutput.FirstCornerCreates | include/geode/io/mesh/private/vtp_surface_output_impl.h:148-154 | a corner with no earlier corner of the same (vertex, coordinates) pair is the corner of some unique texture vertex |
| VtpSurfaceOutput.CrossedMappingRejected | include/geode/io/mesh/private/vtp_surface_output_impl.h:155 | a mapping that sends a polygon to the output vertex of another pair is not a result of the walk |
| VtpSurfaceOutput.LateCreationRejected | include/geode/io/mesh/private/vtp_surface_output_impl.h:148-154 | an output vertex created by a later corner of an already-met pair is not a result of the walk |
| VtpSurfaceOutput.TexturedPolygonsKeepVertices | include/geode/io/mesh/private/vtp_surface_output_impl.h:117-205 | the textured connectivity names split vertices that are each corner's own mesh vertex, with no missing entry |
| VtpSurfaceOutput.SurfaceWriter.constructor | include/geode/io/mesh/private/vtp_surface_output_impl.h:45-62 | `vertex_mapping_` gets one map per vertex only when there is a texture |
| VtpSurfaceOutput.SurfaceWriter.ComputeVertices | include/geode/io/mesh/private/vtp_surface_output_impl.h:117-160 | the base vertices without texture; otherwise the split vertices, `unique_texture_vertices_` and `vertex_mapping_` as SplitTextureVertices states them: first-seen creation in walk order, one output vertex per pair, each last corner of a polygon on a vertex mapped to its own pair |
| VtpSurfaceOutput.SurfaceWriter.TextureValues | include/geode/io/mesh/private/vtp_surface_output_impl.h:94-110 | a texture's coordinates at each unique texture vertex, in order |
| VtpSurfaceOutput.TexturesFollowCorners | include/geode/io/mesh/private/vtp_surface_output_impl.h:86-160 | for every corner and texture, a written vertex of the corner's mesh vertex carries the corner's coordinates; for a corner that is the last of its polygon on its mesh vertex, the vertex its polygon is written with is such a vertex, so each texture's value there is the corner's coordinate |
| VtpSurfaceOutput.SaveImages | include/geode/io/mesh/private/vtp_surface_output_impl.h:70-83 | the files saved are exactly "<path>_<name>.vti" for the textures whose image has cells, one each, in texture order, and no other |
| VtpSurfaceOutput.ImageFile | include/geode/io/mesh/private/vtp_surface_output_impl.h:81 | the image file name |
| VtuInput.Bytes | include/geode/io/mesh/detail/vtu_input_impl.hpp:95-100 | each Int32 type narrowed to a byte, its value modulo 256 |
| VtuInput.ReadCells | include/geode/io/mesh/detail/vtu_input_impl.hpp:42-117 | an offsets or connectivity array not Int64, or a types array neither UInt8 nor Int32, throws; a later offsets, connectivity or UInt8 types array replaces the earlier one while an Int32 types array is appended; cell p is the connectivity between offsets p − 1 and p, with its type |
| VtuInput.ScanStaysErr | include/geode/io/mesh/detail/vtu_input_impl.hpp:50-108 | once an array has thrown, later arrays change nothing |
| VtuInput.OtherNamesIgnored | include/geode/io/mesh/detail/vtu_input_impl.hpp:50-108 | an array named none of the three is skipped |
| VtuInput.WrongOffsetTypeThrows | include/geode/io/mesh/detail/vtu_input_impl.hpp:53-60 | an offsets array that is not Int64 throws, wherever it stands |
| VtuInput.WrongTypesTypeThrows | include/geode/io/mesh/detail/vtu_input_impl.hpp:81-107 | a types array neither UInt8 nor Int32 throws, wherever it stands |
| VtuInput.OffsetsArrayStep | include/geode/io/mesh/detail/vtu_input_impl.hpp:53-64 | an Int64 offsets array replaces the offsets found so far |
| VtuInput.ConnectivityArrayStep | include/geode/io/mesh/detail/vtu_input_impl.hpp:69-79 | an Int64 connectivity array replaces the connectivity found so far |
| VtuInput.TypesArrayStep | include/geode/io/mesh/detail/vtu_input_impl.hpp:81-90 | a UInt8 types array replaces the types found so far |
| VtuInput.Int32TypesArrayStep | include/geode/io/mesh/detail/vtu_input_impl.hpp:91-102 | an Int32 types array is narrowed to bytes and appended to the types found so far |
| VtuInput.WrittenArraysScan | include/geode/io/mesh/detail/vtu_input_impl.hpp:50-108 | the three arrays the writer emits are found as written (see also include/geode/io/mesh/private/vtu_output_impl.h:56-108) |
| VtuInput.WrittenCellsReadBack | include/geode/io/mesh/detail/vtu_input_impl.hpp:42-117 | cells written with running-total offsets, flattened connectivity and one type each read back as the same cells and types (see also include/geode/io/mesh/private/vtu_output_impl.h:56-108) |
| VtuInput.ReadBackOf | include/geode/io/mesh/detail/vtu_input_impl.hpp:112-116 | arrays that slice into some cells read back as those cells |
| VtuInput.WrittenArraysRead | include/geode/io/mesh/detail/vtu_input_impl.hpp:42-117 | the written arrays read as the cells their values slice into |
| VtuInput.BytesOfBytes | include/geode/io/mesh/detail/vtu_input_impl.hpp:95-100 | values that are already bytes are unchanged by the narrowing |
| VtuInput.WrittenCellsSlice | include/geode/io/mesh/detail/vtu_input_impl.hpp:112-116 | running-total offsets slice the flattened connectivity back into the cells |
| VtuInput.FaceTableShape | include/geode/io/mesh/detail/vtu_solid_input.hpp:46-65 | the tetrahedron, hexahedron, prism and pyramid tables have 4, 6, 5 and 5 faces over the cell's own vertices (see also include/geode/io/mesh/private/vtu_input_impl.h:38-66) |
| VtuInput.FaceIncidence | include/geode/io/mesh/detail/vtu_solid_input.hpp:46-65 | each vertex lies on three faces, except the pyramid apex on four |
| VtuInput.TetrahedronIncidence | include/geode/io/mesh/detail/vtu_solid_input.hpp:46-49 | each tetrahedron vertex lies on three faces |
| VtuInput.HexahedronIncidence | include/geode/io/mesh/detail/vtu_solid_input.hpp:50-55 | each hexahedron vertex lies on three faces |
| VtuInput.PrismIncidence | include/geode/io/mesh/detail/vtu_solid_input.hpp:56-60 | each prism vertex lies on three faces |
| VtuInput.PyramidIncidence | include/geode/io/mesh/detail/vtu_solid_input.hpp:61-65 | the pyramid apex lies on four faces and the base vertices on three |
| VtuInput.SolidOfCode | include/geode/io/mesh/detail/vtu_solid_input.hpp:68-87 | codes 10 to 14 name the tetrahedron, voxel and hexahedron, prism and pyramid |
| VtuInput.Emplace | include/geode/io/mesh/detail/vtu_solid_input.hpp:70 | `emplace` keeps the value of a key already present and adds a new one |
| VtuInput.AllSolidsTable | src/geode/io/mesh/vtu_input.cpp:42-75 | a code is in the full table exactly when it is a solid's, mapped to its faces |
| VtuInput.Kept | include/geode/io/mesh/detail/vtu_solid_input.hpp:117-134 | the polyhedra created are the cells whose type is registered, in order |
| VtuInput.KeptRegistered | include/geode/io/mesh/detail/vtu_solid_input.hpp:123-131 | each polyhedron created carries its type's face table |
| VtuInput.KeptAll | include/geode/io/mesh/detail/vtu_solid_input.hpp:117-134 | when every type is registered every cell becomes a polyhedron, in order |
| VtuInput.KeptNone | include/geode/io/mesh/detail/vtu_solid_input.hpp:117-134 | nothing is created exactly when no type is registered |
| VtuInput.SolidReader.constructor | include/geode/io/mesh/detail/vtu_solid_input.hpp:38-66 | a reader starts with no code enabled |
| VtuInput.SolidReader.EnableTetrahedron | include/geode/io/mesh/detail/vtu_solid_input.hpp:68-71 | registers code 10 with the tetrahedron table, keeping an earlier entry |
| VtuInput.SolidReader.EnableHexahedron | include/geode/io/mesh/detail/vtu_solid_input.hpp:73-77 | registers codes 11 and 12 with the hexahedron table |
| VtuInput.SolidReader.EnablePrism | include/geode/io/mesh/detail/vtu_solid_input.hpp:79-82 | registers code 13 with the prism table |
| VtuInput.SolidReader.EnablePyramid | include/geode/io/mesh/detail/vtu_solid_input.hpp:84-87 | registers code 14 with the pyramid table |
| VtuInput.SolidReader.BuildPolyhedra | include/geode/io/mesh/detail/vtu_solid_input.hpp:117-134 | adds the polyhedra of the enabled types with their face tables, and returns the previous count (see also include/geode/io/mesh/private/vtu_input_impl.h:147-164) |
| VtuInput.SolidReader.IsLoadable | include/geode/io/mesh/detail/vtu_solid_input.hpp:101-115 | loadable exactly when some cell's type is enabled |
| VtuInput.SolidReader.ReadVtkCells | include/geode/io/mesh/detail/vtu_solid_input.hpp:90-99 | succeeds exactly when NumberOfCells and the cells read; then adds the kept polyhedra and returns the previous count, changing nothing on error (see also include/geode/io/mesh/private/vtu_input_impl.h:90-98) |
| VtuInput.EnableAll | include/geode/io/mesh/detail/vtu_solid_input.hpp:68-87 | enabling the four solids registers exactly the oldest reader's full table (see also src/geode/io/mesh/vtu_input.cpp:42-75) |
| VtuInput.LoadableIffBuilds | include/geode/io/mesh/detail/vtu_solid_input.hpp:101-134 | a piece is loadable exactly when building it creates a polyhedron |
| VtuInput.ScansAgree | src/geode/io/mesh/vtu_input.cpp:86-120 | without a wrongly typed array the oldest and the checked scan find the same offsets and connectivity; with no types array neither finds types, and with one types array the checked scan finds the oldest one's types narrowed to bytes (see also include/geode/io/mesh/detail/vtu_input_impl.hpp:42-117, include/geode/io/mesh/private/vtu_input_impl.h:100-145) |
| VtuInput.Int32TypesConcatenated | include/geode/io/mesh/detail/vtu_input_impl.hpp:91-102 | with two Int32 types arrays the checked scan keeps both, concatenated, where the oldest scan keeps only the second (see also src/geode/io/mesh/vtu_input.cpp:108-113) |
| VtuInput.LegacySolidReader.constructor | src/geode/io/mesh/vtu_input.cpp:41-75 | every solid code is registered at construction |
| VtuInput.LegacySolidReader.BuildPolyhedra | src/geode/io/mesh/vtu_input.cpp:122-145 | the polyhedra of known types are created; the ids passed on run from the previous count, one per cell, created or not |
| VtuInput.SkippedIdsDangle | src/geode/io/mesh/vtu_input.cpp:126-144 | with a skipped cell, the last id passed on names no polyhedron |
| VtuInput.KeptMissing | src/geode/io/mesh/vtu_input.cpp:130-143 | a skipped cell leaves fewer polyhedra than cells |
| VtuInput.KeptPolygonSizes | include/geode/io/mesh/detail/vtu_surface_input.hpp:64-81 | every polygon created has the size registered for an enabled type |
| VtuInput.KeptPolygonsAll | include/geode/io/mesh/detail/vtu_surface_input.hpp:64-81 | cells of an enabled type and its size all become polygons, in order |
| VtuInput.SizeMismatchSkipped | include/geode/io/mesh/detail/vtu_surface_input.hpp:73-78 | a type 5 cell with four vertices is not created |
| VtuInput.SurfaceReader.constructor | include/geode/io/mesh/detail/vtu_surface_input.hpp:36-40 | a reader starts with no code enabled |
| VtuInput.SurfaceReader.EnableTriangle | include/geode/io/mesh/detail/vtu_surface_input.hpp:42-45 | registers code 5 with three vertices |
| VtuInput.SurfaceReader.EnableQuad | include/geode/io/mesh/detail/vtu_surface_input.hpp:47-50 | registers code 9 with four vertices |
| VtuInput.SurfaceReader.BuildPolygons | include/geode/io/mesh/detail/vtu_surface_input.hpp:64-81 | adds a polygon per cell of an enabled type with the registered vertex count, and returns the previous count |
| VtuOutput.CellTypeTable | include/geode/io/mesh/private/vtu_output_impl.h:36-95 | only 4, 5, 6 and 8 vertices have a type, and each type is one the reader knows for a solid of that many vertices |
| VtuOutput.Types | include/geode/io/mesh/private/vtu_output_impl.h:92-98 | the type written for each cell |
| VtuOutput.WriteCellTexts | include/geode/io/mesh/private/vtu_output_impl.h:87-105 | one running offset per cell, its type, then its vertices in local order |
| VtuOutput.AppendInts | include/geode/io/mesh/private/vtu_output_impl.h:99-103 | each value followed by a space |
| VtuOutput.WriteVtkCells | include/geode/io/mesh/private/vtu_output_impl.h:56-108 | a cell whose size has no type throws; otherwise the running offsets, the flattened vertices and one type per cell |
| VtuOutput.WrittenSolidsReadBack | include/geode/io/mesh/private/vtu_output_impl.h:56-108 | the written arrays read back as the same cells and types, each rebuilt with the face table of its size (see also include/geode/io/mesh/detail/vtu_input_impl.hpp:42-117, include/geode/io/mesh/detail/vtu_solid_input.hpp:117-134) |
| VtuOutput.Repeat | src/geode/io/mesh/vtu_output.cpp:89 | the same type for every cell |
| VtuOutput.WriteTetrahedraAsWritten | src/geode/io/mesh/vtu_output.cpp:50-104 | a cell without four vertices throws; each tetrahedron writes the 12 facet vertex entries and type 10 |
| VtuOutput.OffsetsOfTwelve | src/geode/io/mesh/vtu_output.cpp:86-88 | offsets 12, 24, ..., 12n |
| VtuOutput.TetrahedraReadAsTwelve | src/geode/io/mesh/vtu_output.cpp:50-104 | the tetrahedra written read back as 12-vertex cells of type 10, none being a written tetrahedron (see also include/geode/io/mesh/detail/vtu_input_impl.hpp:42-117) |
| VtuOutput.WriteTetrahedra | src/geode/io/mesh/vtu_output.cpp:80-100 | corrected: each tetrahedron writes its four vertices and its offset grows by 4 |
| VtuOutput.TetrahedraRoundTrip | src/geode/io/mesh/vtu_output.cpp:80-100 | the corrected writer's tetrahedra read back as themselves (see also include/geode/io/mesh/detail/vtu_input_impl.hpp:42-117) |
| VtuOutput.FaceStreamLength | src/geode/io/mesh/vtu_polyhedral_output.cpp:53-69 | the offset 1 + sum of (facet size + 1) counts exactly the integers one polyhedron adds |
| VtuOutput.AppendFaceStream | src/geode/io/mesh/vtu_polyhedral_output.cpp:52-68 | the facet count, then each facet's size and vertices |
| VtuOutput.CellWriter.constructor | include/geode/io/mesh/private/vtu_output_impl.h:43-47 | empty type, face and face offset strings |
| VtuOutput.CellWriter.WritePolyhedralCell | src/geode/io/mesh/vtu_polyhedral_output.cpp:44-70 | type 42, the polyhedron's face stream, and the face offset grown and appended |
| VtuOutput.CellWriter.WritePolyhedra | src/geode/io/mesh/vtu_polyhedral_output.cpp:44-70 | the face streams one after the other, with their running totals as face offsets |
| VtuOutput.CellWriter.WriteHybridCell | src/geode/io/mesh/vtu_hybrid_output.cpp:50-62 | the type of the cell's size, which must exist; the face strings are untouched |
| VtuOutput.CellWriter.WriteTetrahedralCell | src/geode/io/mesh/vtu_tetrahedral_output.cpp:44-51 | "10 " for every cell; the face strings are untouched |
| VtuOutput.FaceOffsetCountsTokens | src/geode/io/mesh/vtu_polyhedral_output.cpp:52-69 | the faces string has exactly as many tokens as the face offset counts |
| VtuOutput.Streams | src/geode/io/mesh/vtu_polyhedral_output.cpp:52-68 | the face streams of the polyhedra in order |
| VtuOutput.FaceOffsetsSliceFaces | src/geode/io/mesh/vtu_polyhedral_output.cpp:52-69 | polyhedron p's face stream lies between face offsets p − 1 and p |
| Vti.Defaults | include/geode/io/mesh/detail/vti_grid_input.hpp:52-62 | origin 0, no cells, unit lengths and the axis directions before any attribute |
| Vti.Apply | include/geode/io/mesh/detail/vti_grid_input.hpp:75-119 | WholeExtent sets end − start per direction, Origin and Spacing one value per direction, Direction the components at stride 3; other names change nothing |
| Vti.UnknownIgnored | include/geode/io/mesh/detail/vti_grid_input.hpp:75-119 | attributes with any other name are ignored |
| Vti.ReadExtent | include/geode/io/mesh/detail/vti_grid_input.hpp:77-87 | one start and end token pair per direction |
| Vti.ReadValues | include/geode/io/mesh/detail/vti_grid_input.hpp:88-105 | one token per direction |
| Vti.ReadDirections | include/geode/io/mesh/detail/vti_grid_input.hpp:106-118 | component i of direction d from token 3d + i |
| Vti.ReadGridAttributes | include/geode/io/mesh/detail/vti_grid_input.hpp:70-127 | the attributes applied in document order to the defaults, a missing or invalid value throwing (see also include/geode/io/mesh/detail/vti_grid_input.h:87-144, src/geode/io/mesh/vti_regular_grid_input.cpp:60-115) |
| Vti.ReadStops | include/geode/io/mesh/detail/vti_grid_input.hpp:75-119 | once an attribute fails, later attributes do not matter |
| Vti.LoadableAsWrittenUndecided2D | include/geode/io/mesh/detail/vti_grid_input.hpp:142-148 | for dimension 2 the check reads cells_number[2] beyond a two-entry array and reaches no verdict (see also include/geode/io/mesh/detail/vti_grid_input.h:83-84, src/geode/io/mesh/vti_regular_grid_input.cpp:192-193) |
| Vti.LoadableAgrees3D | include/geode/io/mesh/detail/vti_grid_input.hpp:142-148 | in 3D the check as written and as intended agree |
| Vti.IsLoadable | include/geode/io/mesh/detail/vti_grid_input.hpp:142-148 | corrected: a 2D object loads when it has no third extent, a 3D one when its third cell count is positive (see also include/geode/io/mesh/detail/vti_grid_input.h:68-85, src/geode/io/mesh/vti_regular_grid_input.cpp:176-194) |
| Vti.Pairs | include/geode/io/image/detail/vti_output_impl.hpp:51-58 | "0" and the end index for each direction |
| Vti.WriteExtent | include/geode/io/image/detail/vti_output_impl.hpp:51-62 | "0 end" per direction separated by single spaces, " 0 0" added in 2D |
| Vti.WriteImageExtent | include/geode/io/image/detail/vti_output_impl.hpp:46-68 | the same six-index string as WholeExtent and Extent |
| Vti.WriteWords | include/geode/io/image/private/vti_output_impl.h:70 | a point's coordinates separated by single spaces |
| Vti.WriteGeometryHeader | include/geode/io/image/private/vti_output_impl.h:46-93 | WholeExtent and Extent, then Origin and Spacing, padded in 2D with " 0" and " 1" |
| Vti.DirectionWords | include/geode/io/mesh/detail/vti_grid_output.h:89-106 | each direction, padded with a 0 component in 2D, then "0 0 1" |
| Vti.WriteDirections | include/geode/io/mesh/detail/vti_grid_output.h:89-108 | the Direction value: the directions separated by spaces with their 2D padding |
| Vti.PaddedText | include/geode/io/mesh/detail/vti_grid_output.h:89-106 | the text of some words followed by a padded direction block |
| Vti.WriteGridHeader | include/geode/io/mesh/detail/vti_grid_output.h:45-109 | the extent from the vertex counts, then origin, cell lengths and normalized directions |
| Vti.WriteRegularGridHeader | src/geode/io/mesh/vti_regular_grid_output.cpp:89-115 | "0 n" per direction from the cell counts, the origin and the cell sizes, without padding |
| Vti.PairsReadBack | include/geode/io/image/detail/vti_output_impl.hpp:51-62 | an extent string reads back as the ends it was written from (see also include/geode/io/mesh/detail/vti_grid_input.hpp:77-87) |
| Vti.PaddedReadBack | include/geode/io/image/private/vti_output_impl.h:69-91 | a written Origin or Spacing reads back as the words written (see also include/geode/io/mesh/detail/vti_grid_input.hpp:88-105) |
| Vti.DirectionsReadBack | include/geode/io/mesh/detail/vti_grid_output.h:89-108 | the Direction value reads back through the stride of 3 as the directions written (see also include/geode/io/mesh/detail/vti_grid_input.hpp:106-118) |
| Vti.DirectionPad | include/geode/io/mesh/detail/vti_grid_output.h:98-101 | in 2D the third word of each direction block is the "0" pad |
| Vti.ReadStep | include/geode/io/mesh/detail/vti_grid_input.hpp:75-119 | one more attribute applies to the record read so far |
| Vti.ExtentAttributeReadsBack | include/geode/io/image/detail/vti_output_impl.hpp:63-66 | WholeExtent reads back as the written ends (see also include/geode/io/mesh/detail/vti_grid_input.hpp:77-87) |
| Vti.OriginAttributeReadsBack | include/geode/io/image/private/vti_output_impl.h:69-76 | Origin reads back as the written coordinates (see also include/geode/io/mesh/detail/vti_grid_input.hpp:88-96) |
| Vti.SpacingAttributeReadsBack | include/geode/io/image/private/vti_output_impl.h:77-91 | Spacing reads back as the written lengths (see also include/geode/io/mesh/detail/vti_grid_input.hpp:97-105) |
| Vti.DirectionAttributeReadsBack | include/geode/io/mesh/detail/vti_grid_output.h:89-108 | Direction reads back as the written directions (see also include/geode/io/mesh/detail/vti_grid_input.hpp:106-118) |
| Vti.PaddedEndsIndices | include/geode/io/image/detail/vti_output_impl.hpp:57 | the ends of an image header are index_t values |
| Vti.ReadThree | include/geode/io/mesh/detail/vti_grid_input.hpp:75-119 | three attributes, each applied to the record left by the one before |
| Vti.GeometryHeaderReadsBack | include/geode/io/image/private/vti_output_impl.h:46-93 | an image header reads back as the origin, extent and spacing written and the default directions (see also include/geode/io/mesh/detail/vti_grid_input.hpp:70-127) |
| Vti.GeometryTexts | include/geode/io/image/private/vti_output_impl.h:46-93 | each value of an image header tokenizes back to what it was written from |
| Vti.HeaderReadsBack | include/geode/io/mesh/detail/vti_grid_input.hpp:75-119 | WholeExtent, Origin and Spacing, in that order, read as the given values |
| Vti.GridHeaderReadsBack | include/geode/io/mesh/detail/vti_grid_output.h:45-109 | a grid header reads back as the cell counts nb_vertices − 1, the origin, the lengths and the directions written (see also include/geode/io/mesh/detail/vti_grid_input.hpp:70-127) |
| Vti.GridReadsBack | include/geode/io/mesh/detail/vti_grid_input.hpp:75-119 | the four attributes in order read as the given values |
| Vti.RegularGridHeaderReadsBack | src/geode/io/mesh/vti_regular_grid_output.cpp:89-115 | a regular grid header reads back as the cell counts, origin and cell sizes written (see also src/geode/io/mesh/vti_regular_grid_input.cpp:60-115) |
| Vti.RegularTexts | src/geode/io/mesh/vti_regular_grid_output.cpp:89-115 | each value of a regular grid header tokenizes back to what it was written from |
| Vti.ThirdCellsOfHeader | include/geode/io/mesh/detail/vti_grid_input.hpp:142-148 | the third cell count of a header whose WholeExtent comes first |
| Vti.ImageHeaderLoadable | include/geode/io/image/detail/vti_output_impl.hpp:46-68 | a 2D header loads as 2D, and a 3D one exactly when its third direction has more than one vertex (see also include/geode/io/mesh/detail/vti_grid_input.hpp:142-148) |
| Vti.RegularGridHeaderLoadable2D | src/geode/io/mesh/vti_regular_grid_output.cpp:89-115 | a 2D regular grid header loads as 2D and is refused by the 3D reader (see also src/geode/io/mesh/vti_regular_grid_input.cpp:176-194) |
| Vti.LoadableAsWrittenUndecidedOn2DHeader | include/geode/io/mesh/detail/vti_grid_input.hpp:142-148 | a 2D header loadable as intended on which the check as written is undecided |
| VtiRaster.Components | src/geode/io/image/vti_raster_image_output.cpp:72-76 | the three components of each colour, cell after cell |
| VtiRaster.LowestHighest | src/geode/io/image/vti_raster_image_output.cpp:77-82 | a colour's smallest and largest components bound all three and are among them |
| VtiRaster.WriteColors | src/geode/io/image/vti_raster_image_output.cpp:60-86 | "r g b " per cell, with RangeMin and RangeMax the smallest and largest component written, 255 and 0 when there is none (see also src/geode/io/image/vti_raster_output.cpp:56-81) |
| VtiRaster.ColorsReadBack | src/geode/io/image/vti_raster_image_output.cpp:72-76 | the values read back as three numbers per cell, its red, green and blue |
| VtiRaster.WriteRasterImage | src/geode/io/image/vti_raster_image_output.cpp:46-58 | an extent of nb_cells_in_direction points per direction, default origin and unit spacing, then the colours as point data |
| VtiRaster.WriteRasterCellData | src/geode/io/image/vti_raster_output.cpp:47-81 | the colours as cell data |
| VtiRaster.RasterImageOnePointPerColor | src/geode/io/image/vti_raster_image_output.cpp:46-86 | the header reads back with nb_cells − 1 cells, nb_cells points, per direction: one colour per point (see also include/geode/io/mesh/detail/vti_grid_input.hpp:77-87) |
| VtiRaster.EndsArePointCounts | include/geode/io/image/detail/vti_output_impl.hpp:57 | nb_cells − 1 as the last point index gives nb_cells points |
| Smesh.Tokens | include/geode/io/mesh/internal/smesh_input.hpp:132-137 | the line without surrounding whitespace, cut at every single space, so an empty line gives one empty token |
| Smesh.Rows | include/geode/io/mesh/internal/smesh_input.hpp:134 | the tokens of every line, in order |
| Smesh.PointLine | include/geode/io/mesh/internal/smesh_input.hpp:100-106 | a point row gives its file index and three coordinate tokens; a bad index or a short row is an error |
| Smesh.PointRows | include/geode/io/mesh/internal/smesh_input.hpp:98-108 | the n point rows in order, the first failing row stopping the read |
| Smesh.PointsSection | include/geode/io/mesh/internal/smesh_input.hpp:93-109 | the count row, then that many point rows |
| Smesh.IndexMapFirst | include/geode/io/mesh/internal/smesh_input.hpp:101 | `emplace`: an index is mapped exactly when some point row carries it, to the first such row |
| Smesh.IndexMapBound | include/geode/io/mesh/internal/smesh_input.hpp:97-101 | every mapped vertex is one the points section created |
| Smesh.ResolveStop | include/geode/io/mesh/internal/smesh_input.hpp:120-124 | the first token that fails decides the error |
| Smesh.Resolve | include/geode/io/mesh/internal/smesh_input.hpp:120-124 | one vertex per token when the row resolves |
| Smesh.ResolveMeaning | include/geode/io/mesh/internal/smesh_input.hpp:120-124 | a row resolves exactly when each token converts to a mapped file index, vertex d being the one index d names |
| Smesh.ElementLine | include/geode/io/mesh/internal/smesh_input.hpp:118-124 | the arity vertex tokens after the leading tag, resolved through the map |
| Smesh.ElementRowsBound | include/geode/io/mesh/internal/smesh_input.hpp:111-127 | every vertex of every element read is a value of the map |
| Smesh.ReadSmeshValid | include/geode/io/mesh/internal/smesh_input.hpp:80-127 | a successful read creates as many vertices and elements as the count rows say, each element with arity vertices all created (see also include/geode/io/mesh/private/smesh_input.h:51-116) |
| Smesh.ConsecutiveIds | include/geode/io/mesh/internal/smesh_input.hpp:101-123 | with point rows numbered 1 to n in order, file index k names vertex k − 1 |
| Smesh.ElementTagsAt | include/geode/io/mesh/internal/smesh_input.hpp:67-68 | each tag counted is its row's leading token, converted |
| Smesh.Occurrences | include/geode/io/mesh/internal/smesh_input.hpp:68 | how many tags equal the element tag |
| Smesh.OccurrencesAll | include/geode/io/mesh/internal/smesh_input.hpp:62-77 | the count is all the tags exactly when all are equal, and zero exactly when none is |
| Smesh.LoadableRatioMeaning | include/geode/io/mesh/internal/smesh_input.hpp:54-78 | the ratio is a fraction: 1 exactly when every element row has the tag, 0 exactly when none has |
| Smesh.TagsMeaning | include/geode/io/mesh/internal/smesh_input.hpp:64-69 | no row, or every row, has the element tag exactly when the count is 0, or n |
| Smesh.Fraction | include/geode/io/mesh/internal/smesh_input.hpp:75-76 | count / n for 0 < count ≤ n lies in (0, 1] and is 1 only for count = n |
| Smesh.PointRowsStop | include/geode/io/mesh/internal/smesh_input.hpp:98-108 | a failing row stops the point read, whatever follows |
| Smesh.LoadableFromTags | include/geode/io/mesh/internal/smesh_input.hpp:62-77 | once the counts and tags are read, the ratio is the tag's share among them |
| Smesh.CountStep | include/geode/io/mesh/internal/smesh_input.hpp:68 | `elements[tag]++` keeps the counting map in step with one more tag |
| Smesh.Reader.constructor | include/geode/io/mesh/internal/smesh_input.hpp:45-50 | the file's rows, nothing read or created |
| Smesh.Reader.NextTokens | include/geode/io/mesh/internal/smesh_input.hpp:132-137 | the next row's tokens; the cursor advances by one and nothing else changes |
| Smesh.Reader.SkipLine | include/geode/io/mesh/internal/smesh_input.hpp:57-61 | one row skipped |
| Smesh.Reader.ReadPoints | include/geode/io/mesh/internal/smesh_input.hpp:93-109 | creates the vertices the count row announces, maps each index, sets each point; or the section's error (see also include/geode/io/mesh/private/smesh_input.h:64-91) |
| Smesh.Reader.ReadPointRows | include/geode/io/mesh/internal/smesh_input.hpp:97-108 | the point loop over the next n rows |
| Smesh.Reader.SetPoint | include/geode/io/mesh/internal/smesh_input.hpp:101-107 | the index map entry (first wins) and the point for one row |
| Smesh.Reader.ResolveRow | include/geode/io/mesh/internal/smesh_input.hpp:120-124 | the resolved vertices of one row, or its error |
| Smesh.Reader.ReadElements | include/geode/io/mesh/internal/smesh_input.hpp:111-127 | one element per element row, with its resolved vertices; or the section's error (see also include/geode/io/mesh/private/smesh_input.h:93-116) |
| Smesh.Reader.ReadElementRows | include/geode/io/mesh/internal/smesh_input.hpp:115-126 | the element loop over the next n rows |
| Smesh.Reader.ReadElementRow | include/geode/io/mesh/internal/smesh_input.hpp:117-125 | one element with its resolved vertices, or the error that stops the loop |
| Smesh.Reader.ReadFile | include/geode/io/mesh/internal/smesh_input.hpp:80-84 | the points, then the elements: exactly what the read function gives |
| Smesh.Reader.CountTags | include/geode/io/mesh/internal/smesh_input.hpp:64-69 | counting succeeds exactly when every tag converts; then the map holds each tag's count |
| Smesh.Reader.IsLoadable | include/geode/io/mesh/internal/smesh_input.hpp:54-78 | the share of the element tag among the element rows, 0 when absent |
| Smesh.Reader.LoadableTail | include/geode/io/mesh/internal/smesh_input.hpp:62-77 | the share from the element count row on |
| Smesh.ReadCurve | src/geode/io/mesh/smesh_curve_input.cpp:56-74 | a curve read has one edge (vertices[0], vertices[1]) per element row |
| Smesh.CurveEdgesValid | src/geode/io/mesh/smesh_curve_input.cpp:56-74 | one edge per element row, as many as the count row says, each between two created vertices (see also include/geode/io/mesh/internal/smesh_input.hpp:111-127) |
| SmeshTriangulated.NatIsDecimal | src/geode/io/mesh/smesh_triangulated_input.cpp:74-103 | whole numbers convert, with or without a sign |
| SmeshTriangulated.DecimalSpellings | src/geode/io/mesh/smesh_triangulated_input.cpp:74 | fixed-point and scientific spellings convert |
| SmeshTriangulated.NotDecimalSpellings | src/geode/io/mesh/smesh_triangulated_input.cpp:74 | a second point, a bare exponent, a lone sign, an empty exponent or an empty token do not convert |
| SmeshTriangulated.Coordinates | src/geode/io/mesh/smesh_triangulated_input.cpp:71-79 | each coordinate token must convert, the first failure throwing |
| SmeshTriangulated.PointLine | src/geode/io/mesh/smesh_triangulated_input.cpp:69-80 | three coordinates after the index column, which is not read |
| SmeshTriangulated.CoordinatesMeaning | src/geode/io/mesh/smesh_triangulated_input.cpp:71-79 | the coordinates read exactly when every token converts |
| SmeshTriangulated.CoordinatesStop | src/geode/io/mesh/smesh_triangulated_input.cpp:71-79 | the first token that fails decides the error |
| SmeshTriangulated.PointLineMeaning | src/geode/io/mesh/smesh_triangulated_input.cpp:69-80 | a point row reads exactly when three converting tokens follow the index column; its point is those, whatever the index column holds |
| SmeshTriangulated.VertexOf | src/geode/io/mesh/smesh_triangulated_input.cpp:107 | index − 1 in index_t, so file index 0 wraps to NO_ID |
| SmeshTriangulated.Vertices | src/geode/io/mesh/smesh_triangulated_input.cpp:100-108 | each vertex token converted, a failure throwing, and turned into a vertex |
| SmeshTriangulated.TriangleTagIsThree | src/geode/io/mesh/smesh_triangulated_input.cpp:96-98 | the tag check accepts exactly "3" |
| SmeshTriangulated.VerticesMeaning | src/geode/io/mesh/smesh_triangulated_input.cpp:100-108 | the vertices read exactly when every token converts, vertex d being token d less one |
| SmeshTriangulated.VerticesStop | src/geode/io/mesh/smesh_triangulated_input.cpp:100-108 | the first token that fails decides the error |
| SmeshTriangulated.TriangleLineMeaning | src/geode/io/mesh/smesh_triangulated_input.cpp:95-109 | an element row reads exactly when its tag is "3" and its next three tokens convert |
| SmeshTriangulated.ZeroIndexIsNoVertex | src/geode/io/mesh/smesh_triangulated_input.cpp:107 | a vertex token 0 gives NO_ID |
| SmeshTriangulated.TriangleOfLine | src/geode/io/mesh/smesh_triangulated_input.cpp:95-109 | a row read gives the triangle of its three vertex tokens |
| SmeshTriangulated.TriangleRowsRead | src/geode/io/mesh/smesh_triangulated_input.cpp:92-110 | every triangle read comes from its own row |
| SmeshTriangulated.ReadTriangulatedValid | src/geode/io/mesh/smesh_triangulated_input.cpp:52-112 | a successful read has as many points and triangles as its count rows say, each point three coordinates, each triangle from its row |
| SmeshTriangulated.TriangulatedReader.constructor | src/geode/io/mesh/smesh_triangulated_input.cpp:42-50 | the file's rows, nothing read or created |
| SmeshTriangulated.TriangulatedReader.NextTokens | src/geode/io/mesh/smesh_triangulated_input.cpp:114-118 | the next row's tokens; the cursor advances by one |
| SmeshTriangulated.TriangulatedReader.ReadPoints | src/geode/io/mesh/smesh_triangulated_input.cpp:59-82 | the count read with SimpleAtoi, the vertices created, each point set; or the first error |
| SmeshTriangulated.TriangulatedReader.ReadPointRows | src/geode/io/mesh/smesh_triangulated_input.cpp:66-81 | the point loop over the next n rows |
| SmeshTriangulated.TriangulatedReader.ReadPointRow | src/geode/io/mesh/smesh_triangulated_input.cpp:69-80 | set_point with the row's coordinates, or the error that stops the loop |
| SmeshTriangulated.TriangulatedReader.ReadTriangles | src/geode/io/mesh/smesh_triangulated_input.cpp:84-112 | one triangle per element row; or the first error |
| SmeshTriangulated.TriangulatedReader.ReadTriangleRows | src/geode/io/mesh/smesh_triangulated_input.cpp:92-110 | the triangle loop over the next n rows |
| SmeshTriangulated.TriangulatedReader.ReadTriangleRow | src/geode/io/mesh/smesh_triangulated_input.cpp:94-109 | create_triangle with the row's vertices, or the error that stops the loop |
| SmeshTriangulated.TriangulatedReader.ReadFile | src/geode/io/mesh/smesh_triangulated_input.cpp:52-56 | the points, then the triangles: exactly what the read function gives |
| SmeshTriangulated.PointsAgree | src/geode/io/mesh/smesh_triangulated_input.cpp:59-82 | on converting rows both readers read the same coordinates (see also include/geode/io/mesh/internal/smesh_input.hpp:93-109) |
| SmeshTriangulated.TrianglesAgree | src/geode/io/mesh/smesh_triangulated_input.cpp:84-112 | on triangle rows with indices 1 to n both readers read the same triangles (see also include/geode/io/mesh/internal/smesh_input.hpp:111-127) |
| SmeshTriangulated.TriangleLineAgrees | src/geode/io/mesh/smesh_triangulated_input.cpp:95-109 | a row the generic reader resolves through k ↦ k − 1 reads as the same triangle here (see also include/geode/io/mesh/internal/smesh_input.hpp:118-124) |
| SmeshTriangulated.AgreesWithGenericReader | src/geode/io/mesh/smesh_triangulated_input.cpp:52-112 | on files with points numbered 1 to n, converting coordinates and only triangles, both readers build the same points and triangles (see also include/geode/io/mesh/internal/smesh_input.hpp:80-127) |
| RasterInput.PixelColor | src/geode/io/image/raster_image_input.cpp:56-73 | one or two channels give (v, v, v) from the first, three or four the first three channels |
| RasterInput.RowOf | src/geode/io/image/raster_image_input.cpp:50-51 | the picture row the k-th outer pass reads: upwards for Range, downwards for ReverseRange |
| RasterInput.CellBeforeNextRow | src/geode/io/image/raster_image_input.cpp:49-59 | a cell of row k comes before the first cell of row k + 1 |
| RasterInput.CellInRange | src/geode/io/image/raster_image_input.cpp:49-59 | every cell the counter reaches is a cell of the raster |
| RasterInput.RowsOrdered | src/geode/io/image/raster_image_input.cpp:49-59 | every cell of an earlier row comes before every cell of a later one |
| RasterInput.CellIndexInjective | src/geode/io/image/raster_image_input.cpp:49-59 | different (row, column) pairs give different cells |
| RasterInput.CellCovered | src/geode/io/image/raster_image_input.cpp:49-59 | every cell below width × height is reached at exactly one (row, column) |
| RasterInput.RasterOf | src/geode/io/image/raster_image_input.cpp:38-78 | a raster of the picture's size; at most four channels set each cell from the pixel the counter maps to it, more leave the default colour |
| RasterInput.SetNextCell | src/geode/io/image/raster_image_input.cpp:57 | setting the next cell keeps the rows and cells already set |
| RasterInput.RowFinished | src/geode/io/image/raster_image_input.cpp:53-58 | a whole row done is one more row done |
| RasterInput.AllRowsDone | src/geode/io/image/raster_image_input.cpp:50-59 | once every row is done the cells are the raster's |
| RasterInput.ReadRow | src/geode/io/image/raster_image_input.cpp:53-58 | the columns of one row, the counter naming the cell each colour goes to |
| RasterInput.ReadFile | src/geode/io/image/raster_image_input.cpp:37-98 | the raster built equals the specification, for either row order |
| RasterInput.CellColorAt | src/geode/io/image/raster_image_input.cpp:53-58 | the cell at column i of the k-th row visited holds that column's pixel in that row |
| RasterInput.PixelInCell | src/geode/io/image/raster_image_input.cpp:90-93 | read_file: pixel (i, j) is the colour of cell j·width + i |
| RasterInput.PixelInFlippedCell | src/geode/io/image/raster_image_input.cpp:95-98 | read_reversed_y_axis_file: pixel (i, j) is the colour of cell (height − 1 − j)·width + i |
| RasterInput.ReversedRowsSwapped | src/geode/io/image/raster_image_input.cpp:90-98 | the two readers give the same rows of cells in opposite order |
| RasterInput.WideSpectrumDefault | src/geode/io/image/raster_image_input.cpp:47-77 | more than four channels leave every cell at the default colour |
| ImageGridInput.FlippedPixel | src/geode/io/mesh/image_regular_grid_surface_input.cpp:68-77 | the pixel whose value cell c receives, in the flipped row |
| ImageGridInput.SetFlippedCell | src/geode/io/mesh/image_regular_grid_surface_input.cpp:73-75 | setting cell (i, height − 1 − j) keeps the rows already set and the cells before it |
| ImageGridInput.AllFlippedRowsSet | src/geode/io/mesh/image_regular_grid_surface_input.cpp:68-77 | once every pixel row is set, cell c holds the pixel FlippedPixel names |
| ImageGridInput.SetFlippedRow | src/geode/io/mesh/image_regular_grid_surface_input.cpp:70-76 | one pixel row, each value set on cell (i, height − 1 − j) |
| ImageGridInput.SetFlipped | src/geode/io/mesh/image_regular_grid_surface_input.cpp:68-77 | every pixel's value set on its flipped cell |
| ImageGridInput.ReadGrid | src/geode/io/mesh/image_regular_grid_surface_input.cpp:50-99 | one unit cell per pixel from the origin, and the greyscale or colour attribute the channel count selects |
| ImageGridInput.PixelOnFlippedCell | src/geode/io/mesh/image_regular_grid_surface_input.cpp:60-98 | pixel (i, j) is the value of cell (i, height − 1 − j); more than four channels create no attribute |
| ImageGridInput.GridMatchesReversedRaster | src/geode/io/mesh/image_regular_grid_surface_input.cpp:50-99 | the grid's cells hold the colours, or their grey level, that the reversed raster reader puts in the same cells (see also src/geode/io/image/raster_image_input.cpp:95-98) |
| TriangleOutput.AdjacentText | src/geode/io/mesh/triangle_output.cpp:77-84 | the neighbour across an edge, or -1 on the border |
| TriangleOutput.WriteNode | src/geode/io/mesh/triangle_output.cpp:37-47 | the header "n 2 0 0", then "v x y" per vertex |
| TriangleOutput.WriteEle | src/geode/io/mesh/triangle_output.cpp:49-64 | the header "n 3 0", then each triangle's index and three vertices |
| TriangleOutput.WriteNeigh | src/geode/io/mesh/triangle_output.cpp:66-89 | the header "n 3", then each triangle's index and three neighbours |
| TriangleOutput.Write | src/geode/io/mesh/triangle_output.cpp:96-103 | the extension and its dot removed, then the .node, .ele and .neigh files |
| TriangleOutput.ReadFile | src/geode/io/mesh/triangle_output.cpp:41-45 | a file whose header count matches its records gives one value per record |
| TriangleOutput.ReadAdjacent | src/geode/io/mesh/triangle_output.cpp:77-84 | -1 reads as no neighbour, otherwise a triangle index |
| TriangleOutput.HeaderReadsBack | src/geode/io/mesh/triangle_output.cpp:41-70 | a header reads back as its count |
| TriangleOutput.RecordReadsBack | src/geode/io/mesh/triangle_output.cpp:44-61 | a record line splits back into its index and fields |
| TriangleOutput.FileReadsBack | src/geode/io/mesh/triangle_output.cpp:40-46 | a header and records that each read back read back as the values |
| TriangleOutput.NodeLineReadsBack | src/geode/io/mesh/triangle_output.cpp:44 | vertex k's line reads back as its coordinates |
| TriangleOutput.NodeFileReadsBack | src/geode/io/mesh/triangle_output.cpp:37-47 | the .node file lists every vertex in index order with its coordinates |
| TriangleOutput.EleLineReadsBack | src/geode/io/mesh/triangle_output.cpp:56-61 | triangle k's line reads back as its three vertices |
| TriangleOutput.EleFileReadsBack | src/geode/io/mesh/triangle_output.cpp:49-64 | the .ele file lists every triangle in order with its vertices |
| TriangleOutput.AdjacentReadsBack | src/geode/io/mesh/triangle_output.cpp:77-84 | a neighbour reads back as written, -1 included |
| TriangleOutput.NeighLineReadsBack | src/geode/io/mesh/triangle_output.cpp:73-86 | triangle k's line reads back as its three neighbours |
| TriangleOutput.NeighFileReadsBack | src/geode/io/mesh/triangle_output.cpp:66-89 | the .neigh file lists every triangle in order with the neighbour across each edge |
| TriangleOutput.WrittenNames | src/geode/io/mesh/triangle_output.cpp:98-102 | base.extension gives base.node, base.ele and base.neigh, three different names |
| GexfOutput.WriteNodes | src/geode/io/mesh/gexf_output.cpp:47-56 | the count, then one node per vertex with its index as id |
| GexfOutput.WriteEdges | src/geode/io/mesh/gexf_output.cpp:58-70 | the count, then one edge per graph edge with id, source and target |
| GexfOutput.Write | src/geode/io/mesh/gexf_output.cpp:77-86 | the header, nodes and edges saved under the file name, the one name returned |
| GexfOutput.Attr | src/geode/io/mesh/gexf_output.cpp:50-54 | an attribute is found exactly when the element has one of that name |
| GexfOutput.ReadNodes | src/geode/io/mesh/gexf_output.cpp:49-55 | a nodes element reads as its count when it has that many nodes numbered from 0 |
| GexfOutput.ReadEdges | src/geode/io/mesh/gexf_output.cpp:60-69 | an edges element reads as that many edges numbered from 0 |
| GexfOutput.NodesReadBack | src/geode/io/mesh/gexf_output.cpp:47-56 | every node has the id of its position |
| GexfOutput.EdgeReadsBack | src/geode/io/mesh/gexf_output.cpp:64-68 | edge k reads back as its id, source and target |
| GexfOutput.EdgesReadBack | src/geode/io/mesh/gexf_output.cpp:58-70 | every edge comes back in order with its two vertices |
| GexfOutput.DocumentReadsBack | src/geode/io/mesh/gexf_output.cpp:35-86 | the document holds the graph: its vertex count and every edge in order |
| DotOutput.WriteFile | include/geode/io/mesh/detail/dot_surface_output_impl.hpp:49-61 | "graph name {", one "    a -- b;" statement per edge, then "}" |
| DotOutput.HeaderReadsBack | include/geode/io/mesh/detail/dot_surface_output_impl.hpp:51 | the header gives back the surface's name, whatever it holds |
| DotOutput.EdgeReadsBack | include/geode/io/mesh/detail/dot_surface_output_impl.hpp:56-57 | an edge statement gives back the edge's two vertices |
| DotOutput.DotFileReadsBack | include/geode/io/mesh/detail/dot_surface_output_impl.hpp:49-61 | the file gives back the name and every edge in order |

## Left out

- BRepModel.WithComponents: BRep, Section, their builders, the unique-vertex registry and the relation store are upstream classes. They are reduced to component lists, a unique vertex per local vertex, cells and a relation set. Component uuids become positions in those lists.
- MshOutput.MshWriter.WriteEntities: the iteration order of `corners()`, `lines()`, `surfaces()` and `blocks()` is taken to be index order, and so is the order of `boundaries()` and `internal_*()` that the boundary and internal lists (MshOutput.BoundaryList, MshOutput.InternalList) follow. The upstream containers do not promise an order.
- MshLines.Coordinates: MSH, SMESH and VTI coordinates, spacings and directions are kept as their token text. The double conversion (which yields 0 on failure) and `Point3D::string` formatting are not modelled. The MSH and VTI round trips hold at the text level.
- MshLines.VersionFloor: only digits, or digits.digits, are read as a version. "4.1e0" and "4.1abc" are rejected, where `iss >> version_` and `std::stod` read 4.1.
- MshLines.MshVersion: a version line with fewer than two tokens leaves the source's binary flag uninitialised (undefined behaviour). The model takes it as 0, so "4" is accepted. The empty line is rejected, where the source keeps its default version 2.
- MshLines.Stoi: the first token must be decimal digits only, with no sign. `std::stoi` also accepts a sign and reads a numeric prefix, so a count line "-1" is refused here (NO_CONVERSION) where the source reads −1 and goes on with that count, and lines starting "+1" or "1.0" are refused where the source reads 1.
- MshLegacy.StoiText: as for MshLines.Stoi. Hence MshLegacy.LegacyVersion rejects "2.2 0.0 8", which `check_msh_version` accepts.
- MshLegacy.LegacyNodeLineReads: any coordinate text is accepted. The source's `std::stod` throws on a non-number, as in "1 a 0 0".
- Streams.ParseIndex: extraction takes whole tokens. The stream operator reads 12 from "12abc" and leaves "abc". It also wraps a negative token into `index_t`, which the model refuses.
- Streams.SkipValues: any token is consumed. `iss >> double` fails on a token that is not a number.
- Text.ParseNat: a leading '+' and surrounding whitespace are refused; `absl::SimpleAtoi` strips the whitespace and accepts the '+'. The tokens handed to it come from a whitespace split, so only the '+' can make a difference there.
- MshInput.Read: a node id beyond the nodes read, or a corner without a vertex, is an error here. The source indexes past its node list there (undefined behaviour).
- MshLegacy.LegacyRead: the same for NODE_BEYOND.
- MshCommon.ToUniqueVertex: node id 0 wraps to NO_ID, as in the source. Later uses of NO_ID are refused instead of indexing out of range.
- VtuInput.ReadCells: offsets or types whose count differs from NumberOfCells, or offsets beyond the connectivity, are an error here. The source checks the counts only with a debug-build assertion after each offsets and types array: a release build returns one cell per offset and whatever types were read, and offsets beyond the connectivity read out of range.
- VtuInput.LegacySolidReader.BuildPolyhedra: `compute_polyhedron_adjacencies` is upstream. Only the ids handed to it are modelled; the adjacency it computes is not.
- VtuInput.SolidReader.ReadVtkCells: the adjacency computation and the reading of cell data (`read_data` / `read_cell_data`) are upstream. The model returns the offset where the cell data is attached.
- VtuInput.SurfaceReader.BuildPolygons: `compute_polygon_adjacencies` is upstream and not modelled.
- SmeshTriangulated.TriangulatedReader.ReadTriangles: `reserve_triangles` and `compute_polygon_adjacencies` are upstream and not modelled.
- SmeshTriangulated.TriangulatedReader.constructor: `set_name` of the file's base name is not modelled.
- Smesh.PointLine: coordinate tokens are kept as text. A failing `string_to_double` or `absl::SimpleAtod`, which throws in the source, is not modelled. A row with fewer than 4 tokens is refused here (MISSING_COORDINATE), where the source indexes the token vector past its end, which is undefined behaviour.
- SvgPath.CommandEffect: a 'z' with no vertex collected returns CLOSING_EMPTY_PATH here. The source calls `vertices.front()` on the empty vector, which is undefined behaviour.
- SvgPath.Params: a command whose parameters run past the last token returns PAST_THE_END here. The source indexes `tokens[first + t]` beyond the end, which is undefined behaviour.
- VtkInput.VtkReader.ReadAppendedData: an AppendedData text that is empty once stripped is refused here (EMPTY_APPENDED_ERROR). The source calls `remove_prefix(1)` on the empty view, which is undefined behaviour.
- VtkInput.ValuesAfterCount: decoded data shorter than the count word returns SHORT_DATA_ERROR here. In the source the unsigned size difference wraps around and the value loop reads past the buffer.
- VtkMeshInput.PiecePoints: fewer decoded coordinates than 3 × NumberOfPoints return COORDINATES_COUNT_ERROR here. The source checks the count only with a debug-build assertion; a release build builds points from whatever it decoded.
- VtuOutput.CellTypeTable: a cell with more than 8 vertices gets type 0 here (VtuOutput.CellType). The source indexes its 9-entry VTK_CELL_TYPE table past the end, which is undefined behaviour.
- Vti.ReadExtent: through Vti.ExtentOf, a WholeExtent with fewer than 2 × dimension tokens is refused here. The source indexes the token vector past its end, which is undefined behaviour.
- Vti.ReadValues: through Vti.ValuesOf, an Origin or Spacing with fewer than dimension tokens is refused here. The source indexes the token vector past its end, which is undefined behaviour.
- Vti.ReadDirections: through Vti.DirectionsOf, a Direction with fewer than 3 × (dimension − 1) + dimension tokens is refused here. The source indexes the token vector past its end, which is undefined behaviour.
- VtpInput.Decode: a header that decodes to fewer than 2 words is refused here. The source reads the words through a pointer cast without a size check, past the decoded bytes.
- Smesh.ElementLine: a row shorter than its tag and vertices is refused here (MISSING_VERTEX). The source indexes the token vector past its end, which is undefined behaviour.
- SmeshTriangulated.PointLine: a row with fewer than 4 tokens is refused here (MISSING_COORDINATE). The source indexes `values[d + 1]` past its end, which is undefined behaviour. The coordinate check (SmeshTriangulated.Coordinates, through the predicate IsDecimal) accepts plain decimal spellings only: `absl::SimpleAtod` also accepts "inf", "nan", hexadecimal floats and surrounding whitespace, which are refused here.
- SmeshTriangulated.TriangleLine: a row with fewer than 4 tokens is refused here (MISSING_VERTEX). The source indexes `values[d + 1]` past its end, which is undefined behaviour.
- Vti.ReadGridAttributes: the source multiplies each direction by its cell length, and origin and spacing tokens go through `string_to_double`. Both are real arithmetic on values the model keeps as text, so neither is modelled.
- Vti.WriteGridHeader: the directions are written as given. Their normalisation is floating-point work done upstream.
- Vti.IsLoadable: opening and parsing the file, and the exceptions this can throw, are I/O. The parsed attributes are given.
- VtkInput.DecodeCompressed: base64 decoding (`Base64Unescape`) and zlib inflation (`uncompress`) are function parameters. Only the header and offset arithmetic is modelled.
- VtkMeshInput.ReadAsciiCoordinates: `absl::SimpleAtod` is the parameter `atod`. The binary Float32/Float64 decoding is a parameter too.
- VtpInput.VtpReader.ReadPolydata: pugixml parsing is not modelled. The XML attributes and DataArray texts are given, and coordinate conversion is a parameter. Each Piece holds points and polygons that are already read, so an error the source throws while reading a piece's points or polygons is not part of ReadPolydata's outcome; the point read is VtkMeshInput.PiecePoints and the token reads are VtpInput.ReadAsciiTokens and VtpInput.Decode, each with its own error cases.
- GexfOutput.Write: pugixml's text layout (indentation, attribute formatting) is not part of this model. The document is its element tree.
- SvgTopology.SectionTopology.BuildTopology: the colocation search (NNSearch, `compute_epsilon`) works on floating-point distances. Its result is a parameter.
- SvgPath.SvgPathReader.ProcessTokens: `std::stod` is the parameter `number`.
- VtpSurfaceOutput.SurfaceWriter.ComputeVertices: the base writer's `compute_vertices`, used when there is no texture, is not part of this model. It is the parameter `base`. Texture coordinates are opaque values compared for equality.
- VtpSurfaceOutput.SaveImages: writing the texture images is I/O. Only the file names are modelled.
- DotOutput.WriteFile: `enable_edges` in the constructor is upstream. The surface's edges are given.
- TriangleOutput.Write: `TriangleOutput::extension()` is a parameter, and the file streams are modelled as their lines.
- RasterInput.ReadFile: CImg decoding is not modelled. The picture is given as its size, channel count and samples.
- ImageGridInput.ReadGrid: `cell_index` of the upstream grid is taken to be row-major (j · width + i). The default `GreyscaleColor()` and `RGBColor()` values are not modelled; every cell is set.
- Concurrency, the VTM writers, the XML writer base classes, factory registration and the Assimp, GDAL and CImg adapters lie outside the modelled core.

## Findings

| source | as written | input that shows it | evidently intended | confidence | as-written member | corrected member |
|---|---|---|---|---|---|---|
| src/geode/io/model/msh_input.cpp:932-954 | the version 4 reader skips the node tag lines and numbers nodes in reading order. The writer (msh_output.cpp:209-268) writes nodes in first-use order, each tagged "unique vertex + 1". | two corners linked to unique vertices 1 then 0: unique vertex 1 is written first, and the reader gives its point to unique vertex 0 | place each node at index tag − 1 | not executed | MshNodeTags.UntaggedNodesMisplaced | MshNodeTags.TaggedNodesReadBack |
| src/geode/io/mesh/vtu_output.cpp:80-99 | each tetrahedron writes the 3 vertices of each of its 4 facets (12 ids) with offset step 12 and VTK type 10 | any one tetrahedron: offsets "12", 12 connectivity ids, type 10 | 4 vertex ids per type-10 cell, offset step 4 | not executed | VtuOutput.TetrahedraReadAsTwelve | VtuOutput.TetrahedraRoundTrip |
| src/geode/io/mesh/vtp_input.cpp:334-360 | the ascii loop converts a token only when the stream is not at its end after reading it; read_ascii_coordinates (line 263) does the same | "0 1 2" with no trailing whitespace gives two values | every whitespace-separated token is converted | not executed | VtpInput.FinalTokenDropped | VtpInput.ReadAsciiTokens |
| include/geode/io/mesh/detail/vti_grid_input.hpp:142-148 | the loadability test reads `cells_number[2]` also when the dimension is 2, past the end of a two-entry array | any 2D ImageData header | a flat image loads as 2D, a 3D one when its third cell count is positive | not executed | Vti.LoadableAsWrittenUndecidedOn2DHeader | Vti.ImageHeaderLoadable |
| include/geode/io/mesh/detail/vtk_input.hpp:270-293 | RangeMin and RangeMax go through `read_attribute` into an unsigned `index_t`, so `min_value >= 0` always holds and a negative RangeMin throws | RangeMin "-1", RangeMax "5" | signed bounds, with a negative RangeMin selecting long storage | not executed | VtkInput.NegativeRangeThrows | VtkInput.NegativeRangeIsLong |
