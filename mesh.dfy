/**
  The parts of an index-based mesh (EERIE_3DOBJ) that dismemberment reads
  and rewrites: faces with three vertex indices, a texture index and a
  face-type bit set, and named selections of vertex indices.

  A face-type bit set is modelled by the set of the positions of its one
  bits, as the cut flags are.
 */
module Mesh {
  import opened Wrappers

  /**
    Positions of the face-type bits (PolyType) that dismemberment touches:
    POLY_DOUBLESIDED is 1 << 1 and POLY_HIDE is 1 << 9. graphics/GraphicsTypes.h,
    which declares them, is not part of this model; the proofs use only that
    the two positions differ.
   */
  const PolyDoubleSided: nat := 1
  const PolyHide: nat := 9

  /** EERIE_FACE reduced to what dismemberment uses: `vid[0..2]`, `texid`, `facetype`. */
  datatype Face = Face(v0: nat, v1: nat, v2: nat, texid: int, facetype: set<nat>) {

    /** `vid[j]`. */
    function Vid(j: nat): nat
      requires j < 3
    {
      if j == 0 then v0 else if j == 1 then v1 else v2
    }

    /** The three vertex indices of the face. */
    function Vertices(): set<nat> {
      {v0, v1, v2}
    }

    /** All three vertex indices are below `n`. */
    predicate Below(n: nat) {
      v0 < n && v1 < n && v2 < n
    }

    predicate Hidden() {
      PolyHide in facetype
    }

    /** The two faces agree in everything but the hide bit. */
    predicate SameExceptHide(other: Face) {
      v0 == other.v0 && v1 == other.v1 && v2 == other.v2 && texid == other.texid
      && facetype - {PolyHide} == other.facetype - {PolyHide}
    }

    /** This face with its hide bit set to `hidden` and nothing else changed. */
    function WithHide(hidden: bool): (g: Face)
      ensures g.Hidden() == hidden
      ensures g.SameExceptHide(this)
    {
      this.(facetype := if hidden then facetype + {PolyHide} else facetype - {PolyHide})
    }
  }

  /** Setting the hide bit forgets what it was: faces equal up to that bit become equal. */
  lemma WithHideForgetsHide(f: Face, g: Face, hidden: bool)
    requires f.SameExceptHide(g)
    ensures f.WithHide(hidden) == g.WithHide(hidden)
  {
    if hidden {
      assert f.facetype + {PolyHide} == (f.facetype - {PolyHide}) + {PolyHide};
      assert g.facetype + {PolyHide} == (g.facetype - {PolyHide}) + {PolyHide};
    }
  }

  /** Of two writes to the hide bit, the last one wins. */
  lemma LastHideWins(f: Face, first: bool, last: bool)
    ensures f.WithHide(first).WithHide(last) == f.WithHide(last)
  {
    WithHideForgetsHide(f.WithHide(first), f, last);
  }

  /**
    A slot of the mesh's texture list: no texture, or a texture known by the
    name of its file.
   */
  type Texture = Option<string>

  /** The texture's name contains "gore". */
  predicate IsGore(t: Texture) {
    t.Some? && Contains(t.value, "gore")
  }

  /**
    The index of the first gore texture at or after `from`, -1 when there is
    none: the texture scan of the dismemberment functions, started at `from`.
   */
  function GoreTextureFrom(textures: seq<Texture>, from: nat): (gore: int)
    requires from <= |textures|
    ensures gore == -1 || from <= gore < |textures|
    ensures gore == -1 <==> forall i :: from <= i < |textures| ==> !IsGore(textures[i])
    ensures gore != -1 ==> IsGore(textures[gore]) && forall i :: from <= i < gore ==> !IsGore(textures[i])
    decreases |textures| - from
  {
    if from == |textures| then -1
    else if IsGore(textures[from]) then from
    else GoreTextureFrom(textures, from + 1)
  }

  /** The index of the first gore texture, -1 when there is none. */
  function GoreTexture(textures: seq<Texture>): int {
    GoreTextureFrom(textures, 0)
  }

  /** The loop that looks for the gore texture stops at the first one. */
  method FindGoreTexture(textures: seq<Texture>) returns (gore: int)
    ensures gore == GoreTexture(textures)
  {
    gore := -1;
    for i := 0 to |textures|
      invariant forall k :: 0 <= k < i ==> !IsGore(textures[k])
    {
      if textures[i].Some? && Contains(textures[i].value, "gore") {
        gore := i;
        return;
      }
    }
  }

  /** EERIE_SELECTIONS: a named list of vertex indices. */
  datatype Selection = Selection(name: string, selected: seq<nat>)

  /**
    IsInSelection(obj, v, s) != -1. Its definition lives in
    graphics/data/MeshManipulation.h, which is not part of this model; it is
    taken to search `selected` for `v`.
   */
  predicate InSelection(v: nat, sel: Selection) {
    v in sel.selected
  }

  /** One of the face's three vertices lies in the selection. */
  predicate Touches(f: Face, sel: Selection) {
    InSelection(f.v0, sel) || InSelection(f.v1, sel) || InSelection(f.v2, sel)
  }

  /** Every vertex index of the faces and of the selections is below `vertexCount`. */
  predicate Indexed(vertexCount: nat, faces: seq<Face>, sels: seq<Selection>) {
    (forall k :: 0 <= k < |faces| ==> faces[k].Below(vertexCount))
    && (forall s, i :: 0 <= s < |sels| && 0 <= i < |sels[s].selected| ==> sels[s].selected[i] < vertexCount)
  }

  /** boost::contains(s, part): `part` occurs in `s` as a contiguous piece. */
  function Contains(s: string, part: string): (b: bool)
    ensures b ==> |part| <= |s|
    decreases |s|
  {
    part <= s || (|s| > 0 && Contains(s[1..], part))
  }

  /** Contains agrees with its meaning: some suffix of `s` starts with `part`. */
  lemma {:induction false} ContainsIffSomeSuffix(s: string, part: string)
    ensures Contains(s, part) <==> exists i :: 0 <= i <= |s| && part <= s[i..]
    decreases |s|
  {
    if |s| > 0 {
      ContainsIffSomeSuffix(s[1..], part);
      if part <= s {
        assert s[0..] == s;
      }
      if Contains(s[1..], part) {
        var i :| 0 <= i <= |s| - 1 && part <= s[1..][i..];
        assert s[1..][i..] == s[i + 1..];
        assert part <= s[i + 1..];
      }
      if exists i :: 0 <= i <= |s| && part <= s[i..] {
        var i :| 0 <= i <= |s| && part <= s[i..];
        if i == 0 {
          assert s[0..] == s;
        } else {
          assert s[1..][i - 1..] == s[i..];
          assert part <= s[1..][i - 1..];
        }
      }
    } else {
      if exists i :: 0 <= i <= |s| && part <= s[i..] {
        var i :| 0 <= i <= |s| && part <= s[i..];
        assert s[i..] == s;
      }
    }
  }
}
