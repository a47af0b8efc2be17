/**
  The mesh surgery of ARX_NPC_SpawnMember: the vertex remap table
  (`equival`) from the NPC's vertices to the vertices of the body part that
  flies off, and the part's faces, which are the NPC's faces whose three
  vertices all survive the remap, re-indexed, made visible, and made
  double-sided when they carry the gore texture.
 */
module Spawn {
  import opened Mesh
  import opened Wrappers

  /** The mesh of a spawned body part: its vertex count and its faces. */
  datatype Member = Member(vertexCount: nat, faces: seq<Face>)

  /**
    A gore-textured face with a vertex near the cut selection. `near` is the
    set of vertices for which IsNearSelection answers >= 0.
   */
  predicate GoreNear(f: Face, goreTex: int, near: set<nat>) {
    f.texid == goreTex && (f.v0 in near || f.v1 in near || f.v2 in near)
  }

  /** How many faces are GoreNear; each adds three vertices to the part. */
  function GoreNearCount(faces: seq<Face>, goreTex: int, near: set<nat>): (n: nat)
    ensures n <= |faces|
  {
    if faces == [] then 0
    else
      GoreNearCount(faces[..|faces| - 1], goreTex, near)
      + (if GoreNear(faces[|faces| - 1], goreTex, near) then 1 else 0)
  }

  /** Counting over a prefix never finds more GoreNear faces than counting over all. */
  lemma {:induction false} GoreNearCountPrefix(faces: seq<Face>, k: nat, goreTex: int, near: set<nat>)
    requires k <= |faces|
    ensures GoreNearCount(faces[..k], goreTex, near) <= GoreNearCount(faces, goreTex, near)
    decreases |faces|
  {
    if k < |faces| {
      GoreNearCountPrefix(faces[..|faces| - 1], k, goreTex, near);
      assert faces[..|faces| - 1][..k] == faces[..k];
    } else {
      assert faces[..k] == faces;
    }
  }

  /** The vertices of the GoreNear faces: those the second remap pass writes. */
  function GoreNearVertices(faces: seq<Face>, goreTex: int, near: set<nat>): set<nat> {
    if faces == [] then {}
    else
      var last := faces[|faces| - 1];
      var before := GoreNearVertices(faces[..|faces| - 1], goreTex, near);
      if GoreNear(last, goreTex, near) then before + last.Vertices() else before
  }

  /** A vertex is a GoreNear vertex exactly when some GoreNear face has it. */
  lemma {:induction false} GoreNearVerticesMeaning(faces: seq<Face>, goreTex: int, near: set<nat>, v: nat)
    ensures v in GoreNearVertices(faces, goreTex, near) <==>
      exists k :: 0 <= k < |faces| && GoreNear(faces[k], goreTex, near) && v in faces[k].Vertices()
  {
    if faces != [] {
      var front := faces[..|faces| - 1];
      GoreNearVerticesMeaning(front, goreTex, near, v);
      assert forall k :: 0 <= k < |front| ==> front[k] == faces[k];
      if exists k :: 0 <= k < |faces| && GoreNear(faces[k], goreTex, near) && v in faces[k].Vertices() {
        var k :| 0 <= k < |faces| && GoreNear(faces[k], goreTex, near) && v in faces[k].Vertices();
        if k < |front| {
          assert GoreNear(front[k], goreTex, near) && v in front[k].Vertices();
        }
      }
    }
  }

  /** The `(unsigned short)` cast applied to a remapped vertex index. */
  function UShort(x: int): (r: nat)
    ensures r < 0x10000
    ensures 0 <= x < 0x10000 ==> r == x
  {
    x % 0x10000
  }

  /** All three vertices of the face have a place in the part. */
  predicate Mapped(f: Face, equival: seq<int>)
    requires f.Below(|equival|)
  {
    equival[f.v0] != -1 && equival[f.v1] != -1 && equival[f.v2] != -1
  }

  /** The face with each `vid[j]` replaced by `(unsigned short)equival[vid[j]]`. */
  function Remapped(f: Face, equival: seq<int>): (g: Face)
    requires f.Below(|equival|)
    ensures g.texid == f.texid && g.facetype == f.facetype
  {
    f.(v0 := UShort(equival[f.v0]), v1 := UShort(equival[f.v1]), v2 := UShort(equival[f.v2]))
  }

  /** The face list built by `push_back`: the Mapped faces, in order, remapped. */
  function Reindexed(faces: seq<Face>, equival: seq<int>): (r: seq<Face>)
    requires forall k :: 0 <= k < |faces| ==> faces[k].Below(|equival|)
    ensures |r| <= |faces|
  {
    if faces == [] then []
    else
      var last := faces[|faces| - 1];
      Reindexed(faces[..|faces| - 1], equival) + (if Mapped(last, equival) then [Remapped(last, equival)] else [])
  }

  /** Reindexed keeps the order of the faces: it distributes over concatenation. */
  lemma {:induction false} ReindexedAppend(a: seq<Face>, b: seq<Face>, equival: seq<int>)
    requires forall k :: 0 <= k < |a| ==> a[k].Below(|equival|)
    requires forall k :: 0 <= k < |b| ==> b[k].Below(|equival|)
    ensures forall k :: 0 <= k < |a + b| ==> (a + b)[k].Below(|equival|)
    ensures Reindexed(a + b, equival) == Reindexed(a, equival) + Reindexed(b, equival)
    decreases |b|
  {
    if b == [] {
      assert a + b == a;
    } else {
      var front := b[..|b| - 1];
      ReindexedAppend(a, front, equival);
      assert (a + b)[..|a + b| - 1] == a + front;
    }
  }

  /** A face is kept, remapped, exactly when all three of its vertices are mapped. */
  lemma ReindexedSingle(f: Face, equival: seq<int>)
    requires f.Below(|equival|)
    ensures Mapped(f, equival) ==> Reindexed([f], equival) == [Remapped(f, equival)]
    ensures !Mapped(f, equival) ==> Reindexed([f], equival) == []
  {
    assert [f][..0] == [];
  }

  /**
    When every mapped entry lies below `n`, the part's faces index only its
    own vertices. Past 65536 vertices the `(unsigned short)` cast wraps: the
    indices still lie below `n`, but they are no longer the mapped entries.
   */
  lemma {:induction false} ReindexedBelow(faces: seq<Face>, equival: seq<int>, n: nat)
    requires forall k :: 0 <= k < |faces| ==> faces[k].Below(|equival|)
    requires forall v :: 0 <= v < |equival| ==> equival[v] == -1 || 0 <= equival[v] < n
    ensures forall k :: 0 <= k < |Reindexed(faces, equival)| ==> Reindexed(faces, equival)[k].Below(n)
  {
    if faces != [] {
      var last := faces[|faces| - 1];
      ReindexedBelow(faces[..|faces| - 1], equival, n);
      if Mapped(last, equival) {
        var g := Remapped(last, equival);
        assert g.v0 < n && g.v1 < n && g.v2 < n;
      }
    }
  }

  /** The face type after the clean-up pass: `&= ~POLY_HIDE`, then `|= POLY_DOUBLESIDED` on gore. */
  function FinishType(facetype: set<nat>, gore: bool): set<nat> {
    if gore then facetype - {PolyHide} + {PolyDoubleSided} else facetype - {PolyHide}
  }

  /** The clean-up pass over one face of the part. */
  function Finish(f: Face, goreTex: int): Face {
    f.(facetype := FinishType(f.facetype, f.texid == goreTex))
  }

  /** The clean-up pass over the part's faces. */
  function Finished(faces: seq<Face>, goreTex: int): (r: seq<Face>)
    ensures |r| == |faces|
  {
    seq(|faces|, k requires 0 <= k < |faces| => Finish(faces[k], goreTex))
  }

  /**
    Every face of the part is visible, gore faces are double-sided, other
    faces keep their sidedness, and the vertices, the texture and every other
    face-type bit are kept.
   */
  lemma FinishFlags(f: Face, goreTex: int)
    ensures !Finish(f, goreTex).Hidden()
    ensures f.texid == goreTex ==> PolyDoubleSided in Finish(f, goreTex).facetype
    ensures f.texid != goreTex ==> (PolyDoubleSided in Finish(f, goreTex).facetype <==> PolyDoubleSided in f.facetype)
    ensures Finish(f, goreTex).facetype - {PolyHide, PolyDoubleSided} == f.facetype - {PolyHide, PolyDoubleSided}
    ensures Finish(f, goreTex).(facetype := f.facetype) == f
  {
  }

  /**
    The table after the selection loop: -1 for every vertex of the NPC, then
    `equival[selected[k]] = k` for k in order, so a vertex listed twice keeps
    its last position.
   */
  function SelectionSlots(vertexCount: nat, selected: seq<nat>): (e: seq<int>)
    requires forall i :: 0 <= i < |selected| ==> selected[i] < vertexCount
    ensures |e| == vertexCount
  {
    if selected == [] then seq(vertexCount, _ => -1)
    else SelectionSlots(vertexCount, selected[..|selected| - 1])[selected[|selected| - 1] := |selected| - 1]
  }

  /** The slots `count`, `count + 1`, ... written to `vid[0 .. j-1]` of the face, in order. */
  function WriteFirst(e: seq<int>, f: Face, count: nat, j: nat): (r: seq<int>)
    requires j <= 3 && f.Below(|e|)
    ensures |r| == |e|
  {
    if j == 0 then e else WriteFirst(e, f, count, j - 1)[f.Vid(j - 1) := count + j - 1]
  }

  /** One GoreNear face written into the slots `count .. count + 2`. */
  function WriteFace(e: seq<int>, f: Face, count: nat): (r: seq<int>)
    requires f.Below(|e|)
    ensures |r| == |e|
  {
    WriteFirst(e, f, count, 3)
  }

  /** The last of the face's positions `vid[j]` that holds `v` (0 when none does). */
  function LastPos(f: Face, v: nat): nat {
    if v == f.v2 then 2 else if v == f.v1 then 1 else 0
  }

  /**
    The table after the gore loop over `faces`, started from table `e` with
    the cursor at `start`: each GoreNear face writes the next three slots.
   */
  function GoreSlots(e: seq<int>, faces: seq<Face>, goreTex: int, near: set<nat>, start: nat): (r: seq<int>)
    requires forall k :: 0 <= k < |faces| ==> faces[k].Below(|e|)
    ensures |r| == |e|
  {
    if faces == [] then e
    else
      var front := faces[..|faces| - 1];
      var last := faces[|faces| - 1];
      var before := GoreSlots(e, front, goreTex, near, start);
      if GoreNear(last, goreTex, near) then WriteFace(before, last, start + 3 * GoreNearCount(front, goreTex, near))
      else before
  }

  /** The remap table `equival` that ARX_NPC_SpawnMember builds for a selection. */
  function Remap(vertexCount: nat, selected: seq<nat>, faces: seq<Face>, goreTex: int, near: set<nat>): (e: seq<int>)
    requires forall i :: 0 <= i < |selected| ==> selected[i] < vertexCount
    requires forall k :: 0 <= k < |faces| ==> faces[k].Below(vertexCount)
    ensures |e| == vertexCount
  {
    GoreSlots(SelectionSlots(vertexCount, selected), faces, goreTex, near, |selected|)
  }

  /** The part ARX_NPC_SpawnMember builds for a selection: its vertex count and its faces. */
  function Part(vertexCount: nat, faces: seq<Face>, selected: seq<nat>, goreTex: int, near: set<nat>): Member
    requires forall i :: 0 <= i < |selected| ==> selected[i] < vertexCount
    requires forall k :: 0 <= k < |faces| ==> faces[k].Below(vertexCount)
  {
    Member(|selected| + 3 * GoreNearCount(faces, goreTex, near),
           Finished(Reindexed(faces, Remap(vertexCount, selected, faces, goreTex, near)), goreTex))
  }

  /**
    `equival` is a remap table as ARX_NPC_SpawnMember leaves it after the
    given faces: one entry per vertex of the NPC; -1 or an index below
    `newCount`; set exactly for the vertices of the selection and of the
    GoreNear faces; and a vertex of the selection that no GoreNear face
    overwrote points at the last position of the selection that holds it.
   */
  predicate IsRemap(equival: seq<int>, vertexCount: nat, selected: seq<nat>, faces: seq<Face>,
                    goreTex: int, near: set<nat>, newCount: nat)
  {
    |equival| == vertexCount
    && (forall v :: 0 <= v < |equival| ==> equival[v] == -1 || 0 <= equival[v] < newCount)
    && (forall v: nat :: v < |equival| ==>
          (equival[v] != -1 <==> v in selected || v in GoreNearVertices(faces, goreTex, near)))
    && (forall v: nat :: v < |equival| && v in selected && v !in GoreNearVertices(faces, goreTex, near) ==>
          0 <= equival[v] < |selected| && selected[equival[v]] == v
          && forall k :: equival[v] < k < |selected| ==> selected[k] != v)
  }

  /** No two vertices share a slot of the part. */
  predicate Injective(equival: seq<int>) {
    forall v, w :: 0 <= v < |equival| && 0 <= w < |equival| && v != w && equival[v] != -1 ==> equival[v] != equival[w]
  }

  /** The selection loop leaves a remap table for no faces yet, with distinct slots. */
  lemma {:induction false} SelectionSlotsIsRemap(vertexCount: nat, selected: seq<nat>, goreTex: int, near: set<nat>)
    requires forall i :: 0 <= i < |selected| ==> selected[i] < vertexCount
    ensures IsRemap(SelectionSlots(vertexCount, selected), vertexCount, selected, [], goreTex, near, |selected|)
    ensures Injective(SelectionSlots(vertexCount, selected))
  {
    if selected != [] {
      var n := |selected|;
      var front := selected[..n - 1];
      SelectionSlotsIsRemap(vertexCount, front, goreTex, near);
      assert selected == front + [selected[n - 1]];
      var e := SelectionSlots(vertexCount, front);
      var r := SelectionSlots(vertexCount, selected);
      assert r == e[selected[n - 1] := n - 1];
      forall v: nat | v < |r| && v in selected
        ensures 0 <= r[v] < n && selected[r[v]] == v && forall k :: r[v] < k < n ==> selected[k] != v
      {
        if v != selected[n - 1] {
          assert v in front;
        }
      }
    }
  }

  /** What WriteFace leaves in each slot: later writes to a repeated vertex win, other entries are kept. */
  lemma WriteFaceSlots(e: seq<int>, f: Face, count: nat)
    requires f.Below(|e|)
    ensures forall v :: 0 <= v < |e| && v !in f.Vertices() ==> WriteFace(e, f, count)[v] == e[v]
    ensures forall v :: 0 <= v < |e| && v in f.Vertices() ==> WriteFace(e, f, count)[v] == count + LastPos(f, v)
  {
    assert f.Vid(0) == f.v0 && f.Vid(1) == f.v1 && f.Vid(2) == f.v2;
    assert WriteFirst(e, f, count, 1) == e[f.v0 := count];
    assert WriteFirst(e, f, count, 2) == e[f.v0 := count][f.v1 := count + 1];
  }

  /** Writing a face into slots above every slot in use keeps the slots distinct. */
  lemma WriteFaceInjective(e: seq<int>, f: Face, count: nat)
    requires f.Below(|e|)
    requires Injective(e)
    requires forall v :: 0 <= v < |e| ==> e[v] == -1 || 0 <= e[v] < count
    ensures Injective(WriteFace(e, f, count))
  {
    WriteFaceSlots(e, f, count);
  }

  /**
    A last face that is GoreNear, written into the fresh slots `count ..
    count + 2`, extends a remap table for the faces before it to all faces.
   */
  lemma RemapGrows(before: seq<int>, vertexCount: nat, selected: seq<nat>, faces: seq<Face>,
                   goreTex: int, near: set<nat>, count: nat)
    requires faces != []
    requires IsRemap(before, vertexCount, selected, faces[..|faces| - 1], goreTex, near, count)
    requires GoreNear(faces[|faces| - 1], goreTex, near) && faces[|faces| - 1].Below(|before|)
    ensures IsRemap(WriteFace(before, faces[|faces| - 1], count), vertexCount, selected, faces, goreTex, near, count + 3)
  {
    WriteFaceSlots(before, faces[|faces| - 1], count);
  }

  /** A last face that is not GoreNear leaves a remap table for the faces before it one for all faces. */
  lemma RemapSkips(equival: seq<int>, vertexCount: nat, selected: seq<nat>, faces: seq<Face>,
                   goreTex: int, near: set<nat>, count: nat)
    requires faces != []
    requires IsRemap(equival, vertexCount, selected, faces[..|faces| - 1], goreTex, near, count)
    requires !GoreNear(faces[|faces| - 1], goreTex, near)
    ensures IsRemap(equival, vertexCount, selected, faces, goreTex, near, count)
  {
  }

  /** The gore loop keeps a remap table a remap table. */
  lemma {:induction false} GoreSlotsIsRemap(e: seq<int>, vertexCount: nat, selected: seq<nat>, faces: seq<Face>,
                                            goreTex: int, near: set<nat>)
    requires IsRemap(e, vertexCount, selected, [], goreTex, near, |selected|)
    requires forall k :: 0 <= k < |faces| ==> faces[k].Below(vertexCount)
    ensures IsRemap(GoreSlots(e, faces, goreTex, near, |selected|), vertexCount, selected, faces, goreTex, near,
                    |selected| + 3 * GoreNearCount(faces, goreTex, near))
  {
    if faces != [] {
      var front := faces[..|faces| - 1];
      GoreSlotsIsRemap(e, vertexCount, selected, front, goreTex, near);
      var before := GoreSlots(e, front, goreTex, near, |selected|);
      var count := |selected| + 3 * GoreNearCount(front, goreTex, near);
      if GoreNear(faces[|faces| - 1], goreTex, near) {
        RemapGrows(before, vertexCount, selected, faces, goreTex, near, count);
      } else {
        RemapSkips(before, vertexCount, selected, faces, goreTex, near, count);
      }
    }
  }

  /** The gore loop keeps the slots of a remap table distinct. */
  lemma {:induction false} GoreSlotsInjective(e: seq<int>, vertexCount: nat, selected: seq<nat>, faces: seq<Face>,
                                              goreTex: int, near: set<nat>)
    requires IsRemap(e, vertexCount, selected, [], goreTex, near, |selected|) && Injective(e)
    requires forall k :: 0 <= k < |faces| ==> faces[k].Below(vertexCount)
    ensures Injective(GoreSlots(e, faces, goreTex, near, |selected|))
  {
    if faces != [] {
      var front := faces[..|faces| - 1];
      var last := faces[|faces| - 1];
      GoreSlotsInjective(e, vertexCount, selected, front, goreTex, near);
      GoreSlotsIsRemap(e, vertexCount, selected, front, goreTex, near);
      if GoreNear(last, goreTex, near) {
        WriteFaceInjective(GoreSlots(e, front, goreTex, near, |selected|), last,
                           |selected| + 3 * GoreNearCount(front, goreTex, near));
      }
    }
  }

  /**
    The remap table of a part: entries are -1 or below the part's vertex
    count; exactly the selected vertices and those of the GoreNear faces are
    mapped; a selected vertex that no GoreNear face lists points at its last
    position in the selection; and no two vertices share a slot.
   */
  lemma RemapIsRemap(vertexCount: nat, selected: seq<nat>, faces: seq<Face>, goreTex: int, near: set<nat>)
    requires forall i :: 0 <= i < |selected| ==> selected[i] < vertexCount
    requires forall k :: 0 <= k < |faces| ==> faces[k].Below(vertexCount)
    ensures IsRemap(Remap(vertexCount, selected, faces, goreTex, near), vertexCount, selected, faces, goreTex, near,
                    |selected| + 3 * GoreNearCount(faces, goreTex, near))
    ensures Injective(Remap(vertexCount, selected, faces, goreTex, near))
  {
    SelectionSlotsIsRemap(vertexCount, selected, goreTex, near);
    GoreSlotsIsRemap(SelectionSlots(vertexCount, selected), vertexCount, selected, faces, goreTex, near);
    GoreSlotsInjective(SelectionSlots(vertexCount, selected), vertexCount, selected, faces, goreTex, near);
  }

  /**
    The last GoreNear face `faces[k]` that lists `v` decides its slot: the
    position of `v` in that face within the face's three slots.
   */
  lemma {:induction false} GoreSlotsLastWrite(e: seq<int>, faces: seq<Face>, goreTex: int, near: set<nat>,
                                              start: nat, k: nat, v: nat)
    requires forall i :: 0 <= i < |faces| ==> faces[i].Below(|e|)
    requires k < |faces| && GoreNear(faces[k], goreTex, near) && v in faces[k].Vertices()
    requires forall i :: k < i < |faces| && GoreNear(faces[i], goreTex, near) ==> v !in faces[i].Vertices()
    ensures GoreSlots(e, faces, goreTex, near, start)[v] == start + 3 * GoreNearCount(faces[..k], goreTex, near) + LastPos(faces[k], v)
  {
    var front := faces[..|faces| - 1];
    var last := faces[|faces| - 1];
    var before := GoreSlots(e, front, goreTex, near, start);
    if k == |faces| - 1 {
      WriteFaceSlots(before, last, start + 3 * GoreNearCount(front, goreTex, near));
    } else {
      GoreSlotsLastWrite(e, front, goreTex, near, start, k, v);
      assert front[..k] == faces[..k];
      if GoreNear(last, goreTex, near) {
        WriteFaceSlots(before, last, start + 3 * GoreNearCount(front, goreTex, near));
      }
    }
  }

  /**
    The slot rule of the gore loop: a vertex of GoreNear face `faces[k]` that
    no later GoreNear face lists gets slot `|selected| + 3 m + j`, where `m`
    GoreNear faces come before `faces[k]` and `j` is the last position of the
    vertex in it.
   */
  lemma RemapGoreSlot(vertexCount: nat, selected: seq<nat>, faces: seq<Face>, goreTex: int, near: set<nat>,
                      k: nat, v: nat)
    requires forall i :: 0 <= i < |selected| ==> selected[i] < vertexCount
    requires forall i :: 0 <= i < |faces| ==> faces[i].Below(vertexCount)
    requires k < |faces| && GoreNear(faces[k], goreTex, near) && v in faces[k].Vertices()
    requires forall i :: k < i < |faces| && GoreNear(faces[i], goreTex, near) ==> v !in faces[i].Vertices()
    ensures Remap(vertexCount, selected, faces, goreTex, near)[v]
            == |selected| + 3 * GoreNearCount(faces[..k], goreTex, near) + LastPos(faces[k], v)
  {
    GoreSlotsLastWrite(SelectionSlots(vertexCount, selected), faces, goreTex, near, |selected|, k, v);
  }

  /** Every face of a part indexes a vertex of the part, and the part has no more faces than the NPC. */
  lemma PartIsMesh(vertexCount: nat, faces: seq<Face>, selected: seq<nat>, goreTex: int, near: set<nat>)
    requires forall i :: 0 <= i < |selected| ==> selected[i] < vertexCount
    requires forall k :: 0 <= k < |faces| ==> faces[k].Below(vertexCount)
    ensures var m := Part(vertexCount, faces, selected, goreTex, near);
      |m.faces| <= |faces| && forall k :: 0 <= k < |m.faces| ==> m.faces[k].Below(m.vertexCount)
  {
    var e := Remap(vertexCount, selected, faces, goreTex, near);
    RemapIsRemap(vertexCount, selected, faces, goreTex, near);
    ReindexedBelow(faces, e, |selected| + 3 * GoreNearCount(faces, goreTex, near));
  }

  /** The first pass: the part's vertex count, the selection plus three per GoreNear face. */
  method CountPartVertices(faces: seq<Face>, selected: seq<nat>, goreTex: int, near: set<nat>) returns (nvertex: nat)
    ensures nvertex == |selected| + 3 * GoreNearCount(faces, goreTex, near)
  {
    nvertex := |selected|;
    for k := 0 to |faces|
      invariant nvertex == |selected| + 3 * GoreNearCount(faces[..k], goreTex, near)
    {
      assert faces[..k + 1][..k] == faces[..k];
      if faces[k].texid == goreTex && (faces[k].v0 in near || faces[k].v1 in near || faces[k].v2 in near) {
        nvertex := nvertex + 3;
      }
    }
    assert faces[..|faces|] == faces;
  }

  /** The `malloc`ed table filled with -1, then the selection loop. */
  method MarkSelection(vertexCount: nat, selected: seq<nat>) returns (equival: seq<int>)
    requires forall i :: 0 <= i < |selected| ==> selected[i] < vertexCount
    ensures equival == SelectionSlots(vertexCount, selected)
  {
    equival := [];
    for k := 0 to vertexCount
      invariant equival == seq(k, _ => -1)
    {
      equival := equival + [-1];
    }
    for k := 0 to |selected|
      invariant equival == SelectionSlots(vertexCount, selected[..k])
    {
      assert selected[..k + 1][..k] == selected[..k];
      equival := equival[selected[k] := k];
    }
    assert selected[..|selected|] == selected;
  }

  /**
    The `j` loop for one GoreNear face: its vertices get the slots `count`,
    `count + 1` and `count + 2`. The slot test `count < nvertex` always
    passes, because the first pass made room for every GoreNear face.
   */
  method MarkFace(equival: seq<int>, f: Face, count: nat, nvertex: nat) returns (marked: seq<int>, next: nat)
    requires f.Below(|equival|)
    requires count + 3 <= nvertex
    ensures next == count + 3
    ensures marked == WriteFace(equival, f, count)
  {
    marked, next := equival, count;
    for j := 0 to 3
      invariant next == count + j
      invariant marked == WriteFirst(equival, f, count, j)
    {
      marked := marked[f.Vid(j) := if next < nvertex then next else -1];
      next := next + 1;
    }
  }

  /** The gore loop: every GoreNear face's vertices get the next three slots after `start`. */
  method MarkGoreFaces(equival: seq<int>, faces: seq<Face>, goreTex: int, near: set<nat>, start: nat, nvertex: nat)
    returns (marked: seq<int>)
    requires forall k :: 0 <= k < |faces| ==> faces[k].Below(|equival|)
    requires nvertex == start + 3 * GoreNearCount(faces, goreTex, near)
    ensures marked == GoreSlots(equival, faces, goreTex, near, start)
  {
    marked := equival;
    var count := start;
    for k := 0 to |faces|
      invariant count == start + 3 * GoreNearCount(faces[..k], goreTex, near)
      invariant marked == GoreSlots(equival, faces[..k], goreTex, near, start)
    {
      assert faces[..k + 1][..k] == faces[..k];
      GoreNearCountPrefix(faces, k + 1, goreTex, near);
      var f := faces[k];
      if f.texid == goreTex && (f.v0 in near || f.v1 in near || f.v2 in near) {
        marked, count := MarkFace(marked, f, count, nvertex);
      }
    }
    assert faces[..|faces|] == faces;
  }

  /** The third pass: the faces whose three vertices are all mapped, remapped, in order. */
  method KeepMapped(faces: seq<Face>, equival: seq<int>) returns (kept: seq<Face>)
    requires forall k :: 0 <= k < |faces| ==> faces[k].Below(|equival|)
    ensures kept == Reindexed(faces, equival)
  {
    kept := [];
    for k := 0 to |faces|
      invariant kept == Reindexed(faces[..k], equival)
    {
      assert faces[..k + 1][..k] == faces[..k];
      var f := faces[k];
      if equival[f.v0] != -1 && equival[f.v1] != -1 && equival[f.v2] != -1 {
        kept := kept + [f.(v0 := UShort(equival[f.v0]), v1 := UShort(equival[f.v1]), v2 := UShort(equival[f.v2]))];
      }
    }
    assert faces[..|faces|] == faces;
  }

  /** The body of the last pass for one face. */
  method FinishFace(face: Face, goreTex: int) returns (g: Face)
    ensures g == Finish(face, goreTex)
  {
    var facetype := face.facetype - {PolyHide};
    if face.texid == goreTex {
      facetype := facetype + {PolyDoubleSided};
    }
    g := face.(facetype := facetype);
  }

  /** The last pass: every face shown, gore faces drawn from both sides. */
  method FinishFaces(kept: seq<Face>, goreTex: int) returns (faces: seq<Face>)
    ensures faces == Finished(kept, goreTex)
  {
    faces := kept;
    for k := 0 to |faces|
      invariant |faces| == |kept|
      invariant forall i :: 0 <= i < k ==> faces[i] == Finish(kept[i], goreTex)
      invariant forall i :: k <= i < |kept| ==> faces[i] == kept[i]
    {
      var face := FinishFace(faces[k], goreTex);
      faces := faces[k := face];
    }
  }

  /**
    ARX_NPC_SpawnMember without the geometry and the entity it creates: for
    selection `num` of a mesh with `vertexCount` vertices, the part and the
    remap table it was built with. An index outside the selections spawns
    nothing.
   */
  method SpawnMember(vertexCount: nat, faces: seq<Face>, textures: seq<Texture>, sels: seq<Selection>,
                     num: int, near: set<nat>)
    returns (member: Option<Member>, equival: seq<int>)
    requires Indexed(vertexCount, faces, sels)
    requires 0 <= num < |sels| ==> |sels[num].selected| > 0
    ensures !(0 <= num < |sels|) ==> member == None
    ensures 0 <= num < |sels| ==>
      member == Some(Part(vertexCount, faces, sels[num].selected, GoreTexture(textures), near))
      && equival == Remap(vertexCount, sels[num].selected, faces, GoreTexture(textures), near)
  {
    if num < 0 || num >= |sels| {
      return None, [];
    }
    var selected := sels[num].selected;
    var gore := FindGoreTexture(textures);
    var nvertex := CountPartVertices(faces, selected, gore, near);
    equival := MarkSelection(vertexCount, selected);
    equival := MarkGoreFaces(equival, faces, gore, near, |selected|, nvertex);
    var kept := KeepMapped(faces, equival);
    // The source scans the textures for gore a second time here, with the same outcome.
    var gore2 := FindGoreTexture(textures);
    var newFaces := FinishFaces(kept, gore2);
    member := Some(Member(nvertex, newFaces));
  }
}
