# NPC dismemberment of Arx Libertatis, in Dafny

This project models the dismemberment bookkeeping of an NPC
(`src/game/npc/Dismemberment.cpp`) and proves what it promises:

- **Cut flags.** There are six single-bit flags, one per body part, kept in
  the NPC's `cuts` field.
  - `GetCutFlag` maps a mesh selection name to its flag. It keeps the quirk
    that `"cut_rarm"` yields the head flag.
  - `GetCutSelection` maps a flag back to the first non-empty selection with
    the flag's name.
  - `ReComputeCutFlags` makes a torso cut subsume the head and arm cuts.
  - `IsAlreadyCut` says whether a body part is gone.
- **Applying the cuts** (`ARX_NPC_ApplyCuts`). The NPC's face array is
  rewritten in place:
  - every face is shown first;
  - then every face that touches the selection of a set flag is hidden.
  The method reports whether some face touching the selection of a set flag
  lacks the gore texture. Every face is shown first, so faces hidden by
  earlier cuts count again. It sets the NPC's `cut` field when some set flag
  names a selection. A `"cut_rarm"` selection gives the head flag, which may
  name no selection.
- **Choosing what to cut** (`ARX_NPC_TryToCutSomething`):
  - it finds the nearest selection that may still be cut;
  - it sets that selection's flag when the selection is within reach and
    the flag is new;
  - it applies the cuts;
  - when the cuts hid some face without the gore texture, including a face an earlier cut had already hidden, it spawns the severed part.
- **Building the severed part** (`ARX_NPC_SpawnMember`, its mesh surgery
  only):
  - it counts the part's vertices;
  - it fills the vertex remap table `equival`;
  - it keeps exactly the faces whose three vertices are remapped, re-indexed
    and in order;
  - it clears their hide bit and makes the gore faces double-sided.

Modules:
- `CutFlags` (`cut_flags.dfy`) holds the flags and their pure rules.
- `Mesh` (`mesh.dfy`) holds faces, selections, the gore texture scan and
  `boost::contains`.
- `Spawn` (`spawn_member.dfy`) holds the part extraction.
- `Dismemberment` (`dismemberment.dfy`) holds the selection lookup, the
  `Entity` class whose methods update `cuts`, `cut` and the face array in
  place, and the specification functions those methods are proved against.
- `Wrappers` (`wrappers.dfy`) holds `Option`.

Bitmasks (the `short` cut flags and a face's `facetype`) are modelled by the
set of the positions of their one bits:
- `a & b` is `a * b`;
- `a | b` is `a + b`;
- `a & ~b` is `a - b`;
- `1 << j` is `{j}`;
- "non-zero" is "non-empty".

This is an exact encoding of a bitmask.

## Model

| member | source | states |
|---|---|---|
| CutFlags.Bit | src/game/npc/Dismemberment.cpp:289-296 | `1 << jj` for jj in 0..5 is one of the six dismemberment flags |
| CutFlags.CutFlag | src/game/npc/Dismemberment.cpp:301-318 | the flag is 0 exactly for names other than the six `cut_*` names; otherwise it is one of the six flags, never the right-arm flag, and it is the flag whose name was given, except that "cut_rarm" gives the head flag |
| CutFlags.CutName | src/game/npc/Dismemberment.cpp:325-341 | the name GetCutSelection searches for is empty exactly when the flag is not one of the six single flags |
| CutFlags.CutFlagInvertsCutName | src/game/npc/Dismemberment.cpp:301-341 | GetCutFlag inverts the flag-to-name mapping for every flag but the right arm's, whose name leads back to the head flag |
| CutFlags.RecomputedClearsSubsumed | src/game/npc/Dismemberment.cpp:356-366 | with the torso flag set, recomputing clears the head and both arm flags; with it clear, nothing changes; the torso flag and every flag other than head and arms are kept |
| CutFlags.RecomputedIdempotent | src/game/npc/Dismemberment.cpp:356-366 | recomputing twice is recomputing once |
| CutFlags.Recomputed | src/game/npc/Dismemberment.cpp:356-366 | recomputing only ever clears flags, and only the head and arm flags |
| CutFlags.AlreadyCutIffNoChange | src/game/npc/Dismemberment.cpp:368-385 | for any of the six flags, the part counts as already cut exactly when or-ing its flag in leaves the recomputed flags unchanged |
| CutFlags.AlreadyCutSurvivesRecompute | src/game/npc/Dismemberment.cpp:368-385 | recomputing the flags does not change which parts count as already cut |
| CutFlags.IsAlreadyCut | src/game/npc/Dismemberment.cpp:368-385 | a part whose flag is set is already cut; a zero flag is never already cut; the torso and leg parts are already cut exactly when their own flag is set |
| CutFlags.CutMakesAlreadyCut | src/game/npc/Dismemberment.cpp:509-511 | after a part's flag is or-ed in and the flags are recomputed, the part counts as already cut |
| Mesh.Face.WithHide | src/game/npc/Dismemberment.cpp:410 | setting or clearing POLY_HIDE gives a face whose hide bit is the one asked for and which agrees with the old face in vertices, texture and every other face-type bit |
| Mesh.WithHideForgetsHide | src/game/npc/Dismemberment.cpp:409-411 | faces that differ only in POLY_HIDE become equal once the bit is written |
| Mesh.LastHideWins | src/game/npc/Dismemberment.cpp:431 | of two writes of the hide bit only the last one matters |
| Mesh.GoreTextureFrom | src/game/npc/Dismemberment.cpp:396-405 | the gore texture index is -1 exactly when no texture's name contains "gore"; otherwise it is the first texture whose name does |
| Mesh.FindGoreTexture | src/game/npc/Dismemberment.cpp:398-405 | the scan loop that stops at the first gore texture returns that first gore index, or -1 |
| Mesh.ContainsIffSomeSuffix | src/game/npc/Dismemberment.cpp:466 | `boost::contains(s, part)` holds exactly when `part` starts at some position of `s` |
| Mesh.Contains | src/game/npc/Dismemberment.cpp:466 | `boost::contains(s, part)` holds only when `part` is no longer than `s`; ContainsIffSomeSuffix gives its full meaning |
| Spawn.CountPartVertices | src/game/npc/Dismemberment.cpp:73-95 | the part has as many vertices as the selection, plus three for every gore-textured face with a vertex near the selection |
| Spawn.GoreNearCount | src/game/npc/Dismemberment.cpp:86-95 | there are no more GoreNear faces than faces |
| Spawn.MarkSelection | src/game/npc/Dismemberment.cpp:100-126 | the `malloc`ed table filled with -1 and then the selection loop compute SelectionSlots |
| Spawn.SelectionSlots | src/game/npc/Dismemberment.cpp:107-126 | the table after the selection loop has one entry per vertex of the NPC |
| Spawn.SelectionSlotsIsRemap | src/game/npc/Dismemberment.cpp:107-126 | after the selection loop, exactly the selected vertices are mapped; each maps to the last selection position that holds it; and no two vertices share a slot |
| Spawn.MarkFace | src/game/npc/Dismemberment.cpp:136-151 | the `j` loop for one gore face computes WriteFace: its three vertices get the slots `count .. count + 2` and the cursor moves by three. The first pass reserved room for every such face, so the `-1` branch at :146-148 never runs |
| Spawn.WriteFaceSlots | src/game/npc/Dismemberment.cpp:136-151 | after one gore face is written, each of its vertices holds `count` plus the last position at which the face lists it; every other entry is unchanged |
| Spawn.WriteFaceInjective | src/game/npc/Dismemberment.cpp:136-151 | writing a face into slots above every slot in use keeps the slots distinct |
| Spawn.MarkGoreFaces | src/game/npc/Dismemberment.cpp:128-154 | the gore loop computes GoreSlots: each GoreNear face writes the next three slots after those of the selection |
| Spawn.GoreSlotsIsRemap | src/game/npc/Dismemberment.cpp:128-154 | after the gore loop, every entry is -1 or below the part's vertex count; exactly the selected vertices and those of the GoreNear faces are mapped; a selected vertex that no GoreNear face lists keeps its selection slot |
| Spawn.GoreSlotsInjective | src/game/npc/Dismemberment.cpp:128-154 | the gore loop keeps the slots distinct |
| Spawn.GoreSlotsLastWrite | src/game/npc/Dismemberment.cpp:128-154 | the last GoreNear face that lists a vertex decides its slot: that face's three-slot block, at the vertex's last position in the face |
| Spawn.RemapIsRemap | src/game/npc/Dismemberment.cpp:100-154 | the remap table of a part: entries are -1 or below the part's vertex count; exactly the selected vertices and the GoreNear faces' vertices are mapped; a selected vertex no GoreNear face lists points at its last selection position; and no two vertices share a slot |
| Spawn.RemapGoreSlot | src/game/npc/Dismemberment.cpp:128-154 | a vertex of GoreNear face k that no later GoreNear face lists gets slot `|selected| + 3m + j`, where m GoreNear faces precede face k and j is its last position in face k |
| Spawn.GoreNearVerticesMeaning | src/game/npc/Dismemberment.cpp:130-137 | a vertex is overwritten by the second pass exactly when some gore face near the selection has it |
| Spawn.UShort | src/game/npc/Dismemberment.cpp:201-203 | the `(unsigned short)` cast gives a value below 65536, and the value itself for any value already in range |
| Spawn.Remapped | src/game/npc/Dismemberment.cpp:200-203 | a re-indexed face keeps its texture and its face type |
| Spawn.ReindexedSingle | src/game/npc/Dismemberment.cpp:196-204 | one face is kept, with its vertices remapped, exactly when all three of its vertices are remapped; otherwise it is dropped |
| Spawn.ReindexedAppend | src/game/npc/Dismemberment.cpp:195-206 | the face filter keeps source order: filtering a concatenation concatenates the filtered pieces |
| Spawn.Reindexed | src/game/npc/Dismemberment.cpp:195-206 | the filtered face list is no longer than the NPC's |
| Spawn.ReindexedBelow | src/game/npc/Dismemberment.cpp:195-206 | when every remap entry is -1 or below `n`, every kept face indexes only vertices below `n`; past 65536 the `(unsigned short)` cast wraps, and the indices stay below `n` but are no longer the mapped entries |
| Spawn.KeepMapped | src/game/npc/Dismemberment.cpp:195-206 | the `push_back` loop builds exactly the filtered, re-indexed face list |
| Spawn.FinishFlags | src/game/npc/Dismemberment.cpp:219-225 | a finished face is visible; a gore face is double-sided; a non-gore face keeps its sidedness; vertices, texture and every other face-type bit are kept |
| Spawn.FinishFace | src/game/npc/Dismemberment.cpp:220-224 | the clean-up of one face is the finished face |
| Spawn.FinishFaces | src/game/npc/Dismemberment.cpp:219-225 | the clean-up loop finishes every face of the part, keeping their number |
| Spawn.SpawnMember | src/game/npc/Dismemberment.cpp:58-226 | an index outside the selections spawns nothing; otherwise the part is Part of the NPC's faces and the selection (vertex count, finished re-indexed faces), built with the remap table Remap |
| Spawn.PartIsMesh | src/game/npc/Dismemberment.cpp:58-226 | every face of the spawned part indexes a vertex of the part, and the part has no more faces than the NPC |
| Dismemberment.FirstNamed | src/game/npc/Dismemberment.cpp:346-350 | the search returns -1 exactly when no non-empty selection has the name; otherwise it returns the first that does |
| Dismemberment.CutSelection | src/game/npc/Dismemberment.cpp:320-354 | GetCutSelection is -1 exactly for a non-NPC, a flag that is not one of the six single flags, or when no non-empty selection carries the flag's name; otherwise it is the first such selection |
| Dismemberment.Entity.GetCutSelection | src/game/npc/Dismemberment.cpp:320-354 | the search loop computes CutSelection |
| Dismemberment.Entity.ReComputeCutFlags | src/game/npc/Dismemberment.cpp:356-366 | an NPC's flags become their recomputed value; a non-NPC's flags are left alone |
| Dismemberment.Entity.ShowAll | src/game/npc/Dismemberment.cpp:409-411 | every face has POLY_HIDE cleared and is otherwise unchanged |
| Dismemberment.Entity.HideTouching | src/game/npc/Dismemberment.cpp:418-433 | every face touching the selection gets POLY_HIDE; the others are unchanged; `hid` becomes set exactly when one of the touched faces was visible and not gore-textured |
| Dismemberment.ActivePass | src/game/npc/Dismemberment.cpp:417-436 | a pass with a set flag that names a selection hides the faces of that flag and updates `hid` from its value after the earlier passes |
| Dismemberment.InactivePass | src/game/npc/Dismemberment.cpp:417 | a pass whose flag is clear or names no selection changes neither the hidden faces nor `hid` |
| Dismemberment.AllPassesDone | src/game/npc/Dismemberment.cpp:413-437 | after the six passes the faces are exactly the faces the cuts call for, and they still index the mesh's vertices |
| Dismemberment.Entity.ApplyCuts | src/game/npc/Dismemberment.cpp:387-440 | for a non-NPC or zero flags: returns 0 and changes nothing; otherwise: the flags are recomputed; the face count, vertices, textures and other face-type bits are kept; `hid` reports a non-gore face touching the selection of a set flag, whether or not it was hidden before; `cut` becomes 1 when some set flag names a selection |
| Dismemberment.HitByMeaning | src/game/npc/Dismemberment.cpp:413-433 | a face is hidden by the passes exactly when it touches the selection of some flag that is set and names a selection |
| Dismemberment.AfterCutsHides | src/game/npc/Dismemberment.cpp:409-437 | after the cuts, face k has POLY_HIDE exactly when one of its vertices lies in the selection of a set flag that resolves to a selection; in all else it is the face it was |
| Dismemberment.AfterCuts | src/game/npc/Dismemberment.cpp:409-437 | the cuts keep the number of faces and change nothing but each face's hide bit |
| Dismemberment.HitByIgnoresHide | src/game/npc/Dismemberment.cpp:421-424 | whether a pass hits a face depends on its vertices, not on its hide bit |
| Dismemberment.AfterCutsIgnoresPriorHide | src/game/npc/Dismemberment.cpp:409-411 | the faces after the cuts do not depend on which faces were hidden before |
| Dismemberment.BleedsIgnoresPriorHide | src/game/npc/Dismemberment.cpp:407-439 | neither does the returned `hid` |
| Dismemberment.AfterCutsIdempotent | src/game/npc/Dismemberment.cpp:387-440 | applying the same cuts a second time changes no face |
| Dismemberment.ActiveAmongMeaning | src/game/npc/Dismemberment.cpp:435 | `cut` is set exactly when some flag is set and names a selection |
| Dismemberment.Entity.CountHidden | src/game/npc/Dismemberment.cpp:473-488 | the loop counts the hidden, non-gore faces that touch the selection |
| Dismemberment.HiddenCount | src/game/npc/Dismemberment.cpp:473-488 | the `out` count is at most the number of faces |
| Dismemberment.HitByActive | src/game/npc/Dismemberment.cpp:417-433 | a face touching the selection of an Active flag is hidden by that flag's pass and so by all six |
| Dismemberment.CutPartFullyHidden | src/game/npc/Dismemberment.cpp:409-437 | after the cuts, the `out` count of an Active flag's selection is its whole number of non-gore faces that touch it: all of them are hidden |
| Dismemberment.Candidate | src/game/npc/Dismemberment.cpp:464-490 | a selection may be cut when it is non-empty, its name contains "cut_", its flag is not already cut, and fewer than three of its non-gore faces are hidden |
| Dismemberment.Entity.IsCandidate | src/game/npc/Dismemberment.cpp:464-490 | the nested tests of the selection loop (non-empty, named "cut_", flag not already cut, `out < 3`) accept selection `i` exactly when it is a Candidate |
| Dismemberment.Entity.NearestCandidate | src/game/npc/Dismemberment.cpp:451-499 | the loop finds the nearest candidate (non-empty, named "cut_", not already cut, fewer than three hidden non-gore faces), the first one on a tie, or -1 at FLT_MAX when no candidate is closer than that |
| Dismemberment.NearestUnique | src/game/npc/Dismemberment.cpp:464-499 | the nearest candidate and its distance are determined by the inputs |
| Dismemberment.CandidateFlagIsNew | src/game/npc/Dismemberment.cpp:468-471 | a candidate's non-zero flag is not set yet, and cutting it changes the recomputed flags |
| Dismemberment.CutEndsCandidacy | src/game/npc/Dismemberment.cpp:468-471 | once a selection with a non-zero flag is cut, it is no candidate again |
| Dismemberment.Entity.AddCut | src/game/npc/Dismemberment.cpp:509-512 | a new non-zero flag is or-ed in and the cuts applied; an old or zero flag changes nothing and reports nothing hidden |
| Dismemberment.Entity.CutChosen | src/game/npc/Dismemberment.cpp:504-518 | the chosen part is cut only below squared distance 3600 with a new flag; a part is spawned exactly when the cuts (all set flags, not only the new one) hide some non-gore face, including faces earlier cuts had already hidden; it is exactly the Part of the faces after the cuts and the chosen selection |
| Dismemberment.Entity.TryToCutSomething | src/game/npc/Dismemberment.cpp:442-519 | no-op for a non-NPC or a no-gore entity; otherwise the nearest candidate is chosen; the flags gain its flag (then recomputed) exactly when it is in reach and new, else nothing changes; a part is spawned exactly when the cuts hide some non-gore face (faces hidden by earlier cuts count again), and it is the Part of the chosen selection with the vertices near that selection |

## Left out

- Floating-point geometry is not modelled:
  - IsNearSelection's distance test (src/game/npc/Dismemberment.cpp:37-51) is given, for each selection, as the set of vertices it accepts for that selection (`near[s]` in TryToCutSomething, `near` in SpawnMember);
  - the squared distances of `glm::distance2` are given per selection as `distSqr`;
  - FLT_MAX is the exact real value of the largest finite float.
- Vertex positions, colours and UVs of the spawned part are not modelled, nor its recentring on the lowest vertex (:117-125, :140-145, :156-174). Only its vertex count is.
- Entity, physics and collision creation, the launch angles and random numbers (:229-286), the sound (:516) and the game clock are not modelled.
- The null-pointer guards and the `malloc` failure path are not modelled. The references in the model are never null.
- Spawn.SpawnMember: the `equival` buffer is a sequence returned alongside the part, not heap memory.
- Spawn.SpawnMember: a part of more than 65536 vertices is modelled with the `(unsigned short)` wrap of the source (Spawn.UShort), so its face indices are then not the remapped ones; the model proves no more than that they stay below the vertex count.
- Spawn.SpawnMember: the counting pass that sizes `reserve` (:182-190) is not modelled, because it does not change the resulting face list.
- Spawn.SpawnMember: it requires a non-empty selection, the condition the source asserts at :111.
- `IsInSelection` is declared in graphics/data/MeshManipulation.h, which is not part of this model. It is taken to be membership of the vertex index in the selection's list.
- The PolyType bit values come from graphics/GraphicsTypes.h, which is not part of this model. The proofs rely only on POLY_HIDE and POLY_DOUBLESIDED being different bits.
- Dismemberment.Entity.ApplyCuts: `cut` is an unbounded integer and the cut flags a set of bit positions. The 16-bit width of `short` is not enforced, because only positions 0 to 5 are ever set.
- `ARX_NPC_RestoreCuts` (:522-533) is not modelled. It only calls `ARX_NPC_ApplyCuts` for every NPC with flags in the global entity table, which is not part of this model.
- tools/crashreporter/ErrorReport.cpp, src/gui/Interface.h and include/hermes/PakManager.h are not part of this model. They are process, GUI and archive plumbing, and declarations without implementations.
