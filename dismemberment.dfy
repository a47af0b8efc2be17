/**
  NPC dismemberment: which mesh selection a cut flag names, how the cut
  flags hide the faces of the parts that are gone (ARX_NPC_ApplyCuts), and
  how a blow picks the body part to cut (ARX_NPC_TryToCutSomething).
 */
module Dismemberment {
  import opened CutFlags
  import opened Mesh
  import opened Spawn
  import opened Wrappers

  /** The largest finite `float`, the starting point of the nearest-part search. */
  const FltMax: real := 340282346638528859811704183484516925440.0

  /** `square(60)`: only a part whose squared distance is below this can be cut. */
  const CutReachSqr: real := 3600.0

  /** The selection is not empty and carries the name. */
  predicate Names(sel: Selection, name: string) {
    |sel.selected| > 0 && sel.name == name
  }

  /** The index of the first selection at or after `from` that Names `name`, -1 when none does. */
  function FirstNamed(sels: seq<Selection>, name: string, from: nat): (r: int)
    requires from <= |sels|
    ensures r == -1 || from <= r < |sels|
    ensures r == -1 <==> forall i :: from <= i < |sels| ==> !Names(sels[i], name)
    ensures r != -1 ==> Names(sels[r], name) && forall i :: from <= i < r ==> !Names(sels[i], name)
    decreases |sels| - from
  {
    if from == |sels| then -1
    else if Names(sels[from], name) then from
    else FirstNamed(sels, name, from + 1)
  }

  /**
    GetCutSelection on values: -1 for a non-NPC, for a flag that is not one
    of the six, and when no non-empty selection carries the flag's name;
    otherwise the first selection that does.
   */
  function CutSelection(isNpc: bool, sels: seq<Selection>, flag: Flags): (r: int)
    ensures -1 <= r < |sels|
    ensures r == -1 <==> !isNpc || !IsCutFlag(flag) || forall i :: 0 <= i < |sels| ==> !Names(sels[i], CutName(flag))
    ensures r != -1 ==> Names(sels[r], CutName(flag)) && forall i :: 0 <= i < r ==> !Names(sels[i], CutName(flag))
  {
    if !isNpc || flag == {} then -1
    else if CutName(flag) == "" then -1
    else FirstNamed(sels, CutName(flag), 0)
  }

  /** Flag `j` is set in `cuts` and names a selection: pass `j` of ARX_NPC_ApplyCuts hides faces. */
  predicate Active(sels: seq<Selection>, cuts: Flags, j: nat)
    requires j < 6
  {
    Has(cuts, Bit(j)) && CutSelection(true, sels, Bit(j)) >= 0
  }

  /** The selection an Active flag names. */
  function ActiveSelection(sels: seq<Selection>, cuts: Flags, j: nat): Selection
    requires j < 6 && Active(sels, cuts, j)
  {
    sels[CutSelection(true, sels, Bit(j))]
  }

  /** One of the first `n` passes of ARX_NPC_ApplyCuts hides the face. */
  function HitBy(f: Face, sels: seq<Selection>, cuts: Flags, n: nat): bool
    requires n <= 6
  {
    n > 0 && (HitBy(f, sels, cuts, n - 1) || (Active(sels, cuts, n - 1) && Touches(f, ActiveSelection(sels, cuts, n - 1))))
  }

  /** A face is hit exactly when it touches the selection of some Active flag. */
  lemma {:induction false} HitByMeaning(f: Face, sels: seq<Selection>, cuts: Flags, n: nat)
    requires n <= 6
    ensures HitBy(f, sels, cuts, n) <==>
      exists j :: 0 <= j < n && Active(sels, cuts, j) && Touches(f, ActiveSelection(sels, cuts, j))
  {
    if n > 0 {
      HitByMeaning(f, sels, cuts, n - 1);
    }
  }

  /** Whether a face is hit depends on its vertices only, not on its hide bit. */
  lemma {:induction false} HitByIgnoresHide(f: Face, g: Face, sels: seq<Selection>, cuts: Flags, n: nat)
    requires f.SameExceptHide(g)
    requires n <= 6
    ensures HitBy(f, sels, cuts, n) == HitBy(g, sels, cuts, n)
  {
    if n > 0 {
      HitByIgnoresHide(f, g, sels, cuts, n - 1);
    }
  }

  /** The faces after ARX_NPC_ApplyCuts with the (recomputed) flags `cuts`. */
  function AfterCuts(faces: seq<Face>, sels: seq<Selection>, cuts: Flags): (r: seq<Face>)
    ensures |r| == |faces|
    ensures forall k :: 0 <= k < |faces| ==> r[k].SameExceptHide(faces[k])
  {
    seq(|faces|, k requires 0 <= k < |faces| => faces[k].WithHide(HitBy(faces[k], sels, cuts, 6)))
  }

  /**
    After the cuts a face is hidden exactly when it touches the selection of
    some Active flag, and it is otherwise the face it was.
   */
  lemma AfterCutsHides(faces: seq<Face>, sels: seq<Selection>, cuts: Flags, k: nat)
    requires k < |faces|
    ensures AfterCuts(faces, sels, cuts)[k].Hidden() <==>
      exists j :: 0 <= j < 6 && Active(sels, cuts, j) && Touches(faces[k], ActiveSelection(sels, cuts, j))
    ensures AfterCuts(faces, sels, cuts)[k].SameExceptHide(faces[k])
  {
    HitByMeaning(faces[k], sels, cuts, 6);
  }

  /** The hide bits that were there before the cuts play no part in the outcome. */
  lemma AfterCutsIgnoresPriorHide(faces: seq<Face>, others: seq<Face>, sels: seq<Selection>, cuts: Flags)
    requires |faces| == |others|
    requires forall k :: 0 <= k < |faces| ==> faces[k].SameExceptHide(others[k])
    ensures AfterCuts(faces, sels, cuts) == AfterCuts(others, sels, cuts)
  {
    forall k | 0 <= k < |faces|
      ensures AfterCuts(faces, sels, cuts)[k] == AfterCuts(others, sels, cuts)[k]
    {
      HitByIgnoresHide(faces[k], others[k], sels, cuts, 6);
      WithHideForgetsHide(faces[k], others[k], HitBy(faces[k], sels, cuts, 6));
    }
  }

  /** Applying the same cuts a second time changes nothing. */
  lemma AfterCutsIdempotent(faces: seq<Face>, sels: seq<Selection>, cuts: Flags)
    ensures AfterCuts(AfterCuts(faces, sels, cuts), sels, cuts) == AfterCuts(faces, sels, cuts)
  {
    var once := AfterCuts(faces, sels, cuts);
    forall k | 0 <= k < |faces|
      ensures AfterCuts(once, sels, cuts)[k] == once[k]
    {
      HitByIgnoresHide(once[k], faces[k], sels, cuts, 6);
      LastHideWins(faces[k], HitBy(faces[k], sels, cuts, 6), HitBy(faces[k], sels, cuts, 6));
    }
  }

  /** Some face hit by the first `n` passes is not gore-textured. */
  predicate BleedsBy(faces: seq<Face>, sels: seq<Selection>, cuts: Flags, goreTex: int, n: nat)
    requires n <= 6
  {
    exists k :: 0 <= k < |faces| && HitBy(faces[k], sels, cuts, n) && faces[k].texid != goreTex
  }

  /** Some hit face is not gore-textured: what ARX_NPC_ApplyCuts reports as `hid`. */
  predicate Bleeds(faces: seq<Face>, sels: seq<Selection>, cuts: Flags, goreTex: int) {
    BleedsBy(faces, sels, cuts, goreTex, 6)
  }

  /** Whether ARX_NPC_ApplyCuts reports a hidden non-gore face does not depend on the prior hide bits either. */
  lemma BleedsIgnoresPriorHide(faces: seq<Face>, others: seq<Face>, sels: seq<Selection>, cuts: Flags, goreTex: int)
    requires |faces| == |others|
    requires forall k :: 0 <= k < |faces| ==> faces[k].SameExceptHide(others[k])
    ensures Bleeds(faces, sels, cuts, goreTex) == Bleeds(others, sels, cuts, goreTex)
  {
    forall k | 0 <= k < |faces|
      ensures HitBy(faces[k], sels, cuts, 6) == HitBy(others[k], sels, cuts, 6)
    {
      HitByIgnoresHide(faces[k], others[k], sels, cuts, 6);
    }
  }

  /** One of the first `n` flags is Active. */
  predicate ActiveAmong(sels: seq<Selection>, cuts: Flags, n: nat)
    requires n <= 6
  {
    n > 0 && (ActiveAmong(sels, cuts, n - 1) || Active(sels, cuts, n - 1))
  }

  /** Some flag is Active: ARX_NPC_ApplyCuts then sets the NPC's `cut` field. */
  predicate AnyActive(sels: seq<Selection>, cuts: Flags) {
    ActiveAmong(sels, cuts, 6)
  }

  /** AnyActive means what it says. */
  lemma {:induction false} ActiveAmongMeaning(sels: seq<Selection>, cuts: Flags, n: nat)
    requires n <= 6
    ensures ActiveAmong(sels, cuts, n) <==> exists j :: 0 <= j < n && Active(sels, cuts, j)
  {
    if n > 0 {
      ActiveAmongMeaning(sels, cuts, n - 1);
    }
  }

  /**
    Pass `jj` of ARX_NPC_ApplyCuts with an Active flag: hiding the faces
    that touch its selection takes the faces and `hid` from the state after
    `jj` passes to the state after `jj + 1`.
   */
  lemma ActivePass(start: seq<Face>, before: seq<Face>, after: seq<Face>, sels: seq<Selection>, cuts: Flags,
                   jj: nat, goreTex: int, hid0: bool, hid: bool)
    requires jj < 6 && Active(sels, cuts, jj)
    requires |before| == |start| && |after| == |start|
    requires forall i :: 0 <= i < |start| ==> before[i] == start[i].WithHide(HitBy(start[i], sels, cuts, jj))
    requires forall i :: 0 <= i < |start| ==>
      after[i] == if Touches(before[i], ActiveSelection(sels, cuts, jj)) then before[i].WithHide(true) else before[i]
    requires hid0 <==> BleedsBy(start, sels, cuts, goreTex, jj)
    requires hid <==> hid0 || exists i :: 0 <= i < |start| && Touches(before[i], ActiveSelection(sels, cuts, jj))
                                         && !before[i].Hidden() && before[i].texid != goreTex
    ensures forall i :: 0 <= i < |start| ==> after[i] == start[i].WithHide(HitBy(start[i], sels, cuts, jj + 1))
    ensures hid <==> BleedsBy(start, sels, cuts, goreTex, jj + 1)
  {
    forall i | 0 <= i < |start|
      ensures after[i] == start[i].WithHide(HitBy(start[i], sels, cuts, jj + 1))
    {
      LastHideWins(start[i], HitBy(start[i], sels, cuts, jj), true);
    }
    if hid && !hid0 {
      var i :| 0 <= i < |start| && Touches(before[i], ActiveSelection(sels, cuts, jj))
               && !before[i].Hidden() && before[i].texid != goreTex;
      assert HitBy(start[i], sels, cuts, jj + 1);
    }
    if BleedsBy(start, sels, cuts, goreTex, jj + 1) && !hid0 {
      var i :| 0 <= i < |start| && HitBy(start[i], sels, cuts, jj + 1) && start[i].texid != goreTex;
      assert !HitBy(start[i], sels, cuts, jj);
    }
  }

  /** After the six passes the faces are AfterCuts of the faces before, still indexing the same vertices. */
  lemma AllPassesDone(start: seq<Face>, after: seq<Face>, sels: seq<Selection>, cuts: Flags, vertexCount: nat)
    requires |after| == |start|
    requires forall i :: 0 <= i < |start| ==> after[i] == start[i].WithHide(HitBy(start[i], sels, cuts, 6))
    requires Indexed(vertexCount, start, sels)
    ensures after == AfterCuts(start, sels, cuts)
    ensures Indexed(vertexCount, after, sels)
  {
  }

  /** Pass `jj` with a flag that is not Active changes neither the hit faces nor `hid`. */
  lemma InactivePass(start: seq<Face>, sels: seq<Selection>, cuts: Flags, jj: nat, goreTex: int)
    requires jj < 6 && !Active(sels, cuts, jj)
    ensures forall i :: 0 <= i < |start| ==> HitBy(start[i], sels, cuts, jj + 1) == HitBy(start[i], sels, cuts, jj)
    ensures BleedsBy(start, sels, cuts, goreTex, jj + 1) == BleedsBy(start, sels, cuts, goreTex, jj)
  {
  }

  /** Hidden non-gore faces that touch the selection: the `out` count of ARX_NPC_TryToCutSomething. */
  function HiddenCount(faces: seq<Face>, sel: Selection, goreTex: int): (n: nat)
    ensures n <= |faces|
  {
    if faces == [] then 0
    else
      var f := faces[|faces| - 1];
      HiddenCount(faces[..|faces| - 1], sel, goreTex)
      + (if f.texid != goreTex && Touches(f, sel) && f.Hidden() then 1 else 0)
  }

  /** The faces that are not gore-textured and touch the selection. */
  function TouchingCount(faces: seq<Face>, sel: Selection, goreTex: int): (n: nat)
    ensures n <= |faces|
  {
    if faces == [] then 0
    else
      var f := faces[|faces| - 1];
      TouchingCount(faces[..|faces| - 1], sel, goreTex) + (if f.texid != goreTex && Touches(f, sel) then 1 else 0)
  }

  /** The cuts act face by face: cutting a prefix of the faces gives the prefix of the cut faces. */
  lemma AfterCutsPrefix(faces: seq<Face>, sels: seq<Selection>, cuts: Flags, n: nat)
    requires n <= |faces|
    ensures AfterCuts(faces, sels, cuts)[..n] == AfterCuts(faces[..n], sels, cuts)
  {
  }

  /**
    After the cuts, every face that is not gore-textured and touches the
    selection of an Active flag is hidden: the `out` count of
    ARX_NPC_TryToCutSomething for a part that is cut is its whole number of
    such faces.
   */
  lemma {:induction false} CutPartFullyHidden(faces: seq<Face>, sels: seq<Selection>, cuts: Flags, goreTex: int, j: nat)
    requires j < 6 && Active(sels, cuts, j)
    ensures HiddenCount(AfterCuts(faces, sels, cuts), ActiveSelection(sels, cuts, j), goreTex)
            == TouchingCount(faces, ActiveSelection(sels, cuts, j), goreTex)
  {
    if faces != [] {
      var n := |faces|;
      var f := faces[n - 1];
      var after := AfterCuts(faces, sels, cuts);
      CutPartFullyHidden(faces[..n - 1], sels, cuts, goreTex, j);
      AfterCutsPrefix(faces, sels, cuts, n - 1);
      assert after[n - 1] == f.WithHide(HitBy(f, sels, cuts, 6));
      if Touches(f, ActiveSelection(sels, cuts, j)) {
        HitByActive(f, sels, cuts, j, 6);
      }
    }
  }

  /** A face that touches the selection of an Active flag among the first `n` is hit by those passes. */
  lemma {:induction false} HitByActive(f: Face, sels: seq<Selection>, cuts: Flags, j: nat, n: nat)
    requires j < n <= 6 && Active(sels, cuts, j) && Touches(f, ActiveSelection(sels, cuts, j))
    ensures HitBy(f, sels, cuts, n)
  {
    if j < n - 1 {
      HitByActive(f, sels, cuts, j, n - 1);
    }
  }

  /**
    Selection `i` may be cut: it is not empty, its name contains "cut_", its
    flag is not already cut, and fewer than three of its non-gore faces are
    hidden.
   */
  predicate Candidate(faces: seq<Face>, sels: seq<Selection>, cuts: Flags, goreTex: int, i: nat)
    requires i < |sels|
  {
    |sels[i].selected| > 0 && Contains(sels[i].name, "cut_")
    && !IsAlreadyCut(cuts, CutFlag(sels[i].name))
    && HiddenCount(faces, sels[i], goreTex) < 3
  }

  /**
    Among the first `n` selections, `numsel` is the nearest Candidate closer
    than FltMax, the first one on a tie, at squared distance `minDist`; or
    there is none, `numsel` is -1 and `minDist` is FltMax.
   */
  predicate NearestAmong(faces: seq<Face>, sels: seq<Selection>, cuts: Flags, goreTex: int,
                         distSqr: seq<real>, n: nat, numsel: int, minDist: real)
    requires n <= |sels| == |distSqr|
  {
    if numsel == -1 then
      minDist == FltMax
      && forall i :: 0 <= i < n && Candidate(faces, sels, cuts, goreTex, i) ==> distSqr[i] >= FltMax
    else
      0 <= numsel < n && Candidate(faces, sels, cuts, goreTex, numsel)
      && minDist == distSqr[numsel] < FltMax
      && (forall i :: 0 <= i < n && Candidate(faces, sels, cuts, goreTex, i) ==> minDist <= distSqr[i])
      && (forall i :: 0 <= i < numsel && Candidate(faces, sels, cuts, goreTex, i) ==> minDist < distSqr[i])
  }

  /** The nearest Candidate is determined: the search has exactly one answer. */
  lemma NearestUnique(faces: seq<Face>, sels: seq<Selection>, cuts: Flags, goreTex: int, distSqr: seq<real>,
                      a: int, minA: real, b: int, minB: real)
    requires |sels| == |distSqr|
    requires NearestAmong(faces, sels, cuts, goreTex, distSqr, |sels|, a, minA)
    requires NearestAmong(faces, sels, cuts, goreTex, distSqr, |sels|, b, minB)
    ensures a == b && minA == minB
  {
  }

  /** `fl` is a flag that `cuts` does not hold yet. */
  predicate IsNew(cuts: Flags, fl: Flags) {
    fl != {} && !Has(cuts, fl)
  }

  /** The selection's name stands for a flag that `cuts` does not hold yet. */
  predicate NewCut(cuts: Flags, name: string) {
    IsNew(cuts, CutFlag(name))
  }

  /** A selection was chosen, it is within reach, and its flag is a NewCut: the blow cuts it. */
  predicate Reaches(sels: seq<Selection>, distSqr: seq<real>, numsel: int, cuts: Flags)
    requires |sels| == |distSqr|
    requires -1 <= numsel < |sels|
  {
    numsel >= 0 && distSqr[numsel] < CutReachSqr && NewCut(cuts, sels[numsel].name)
  }

  /**
    The flag of a Candidate is never already set, so the `!(cuts & fl)` test
    always passes, and cutting it always changes the recomputed flags.
   */
  lemma CandidateFlagIsNew(faces: seq<Face>, sels: seq<Selection>, cuts: Flags, goreTex: int, i: nat)
    requires i < |sels|
    requires Candidate(faces, sels, cuts, goreTex, i)
    requires CutFlag(sels[i].name) != {}
    ensures !Has(cuts, CutFlag(sels[i].name))
    ensures Recomputed(cuts + CutFlag(sels[i].name)) != Recomputed(cuts)
  {
    AlreadyCutIffNoChange(cuts, CutFlag(sels[i].name));
  }

  /**
    Cutting selection `i` takes it out of the running: with its flag set and
    the flags recomputed, it is no Candidate whatever the faces look like.
   */
  lemma CutEndsCandidacy(faces: seq<Face>, sels: seq<Selection>, cuts: Flags, goreTex: int, i: nat)
    requires i < |sels|
    requires CutFlag(sels[i].name) != {}
    ensures !Candidate(faces, sels, Recomputed(cuts + CutFlag(sels[i].name)), goreTex, i)
  {
    CutMakesAlreadyCut(cuts, CutFlag(sels[i].name));
  }

  /** An NPC (or any other entity) as dismemberment sees it. */
  class Entity {
    /** `ioflags & IO_NPC`. */
    const isNpc: bool
    /** `gameFlags & GFLAG_NOGORE`. */
    const noGore: bool
    /** `_npcdata->cuts`. */
    var cuts: Flags
    /** `_npcdata->cut`. */
    var cut: int
    /** The mesh: vertex count, face list, selections and texture list. */
    const vertexCount: nat
    const faces: array<Face>
    const selections: seq<Selection>
    const textures: seq<Texture>

    /** Every face and selection indexes a vertex of the mesh. */
    predicate Valid()
      reads this, faces
    {
      Indexed(vertexCount, faces[..], selections)
    }

    constructor(isNpc: bool, noGore: bool, cuts: Flags, cut: int, vertexCount: nat, faces: seq<Face>,
                selections: seq<Selection>, textures: seq<Texture>)
      requires Indexed(vertexCount, faces, selections)
      ensures Valid()
      ensures this.isNpc == isNpc && this.noGore == noGore && this.cuts == cuts && this.cut == cut
      ensures this.vertexCount == vertexCount && this.faces[..] == faces
      ensures this.selections == selections && this.textures == textures
      ensures fresh(this.faces)
    {
      this.isNpc := isNpc;
      this.noGore := noGore;
      this.cuts := cuts;
      this.cut := cut;
      this.vertexCount := vertexCount;
      this.faces := new Face[|faces|](k requires 0 <= k < |faces| => faces[k]);
      this.selections := selections;
      this.textures := textures;
    }

    /** GetCutSelection: the search loop over the selections. */
    method GetCutSelection(flag: Flags) returns (r: int)
      ensures r == CutSelection(isNpc, selections, flag)
    {
      if !isNpc || flag == {} {
        return -1;
      }
      var tx := CutName(flag);
      if tx != "" {
        for i := 0 to |selections|
          invariant forall k :: 0 <= k < i ==> !Names(selections[k], tx)
        {
          if |selections[i].selected| > 0 && selections[i].name == tx {
            return i;
          }
        }
      }
      return -1;
    }

    /** ReComputeCutFlags: a torso cut clears the head and arm flags of an NPC. */
    method ReComputeCutFlags()
      modifies this`cuts
      ensures isNpc ==> cuts == Recomputed(old(cuts))
      ensures !isNpc ==> cuts == old(cuts)
    {
      if !isNpc {
        return;
      }
      if Has(cuts, CutTorso) {
        cuts := cuts - CutHead;
        cuts := cuts - CutLarm;
        cuts := cuts - CutRarm;
      }
    }

    /** The first face loop of ARX_NPC_ApplyCuts: clear POLY_HIDE on every face. */
    method ShowAll()
      modifies faces
      ensures forall i :: 0 <= i < faces.Length ==> faces[i] == old(faces[i]).WithHide(false)
    {
      for nn := 0 to faces.Length
        invariant forall i :: 0 <= i < nn ==> faces[i] == old(faces[i]).WithHide(false)
        invariant forall i :: nn <= i < faces.Length ==> faces[i] == old(faces[i])
      {
        faces[nn] := faces[nn].WithHide(false);
      }
    }

    /**
      One pass of ARX_NPC_ApplyCuts: hide every face that touches `sel`;
      `hid` becomes set when one of them was visible and not gore-textured.
     */
    method HideTouching(sel: Selection, goretex: int, hid0: bool) returns (hid: bool)
      modifies faces
      ensures forall i :: 0 <= i < faces.Length ==>
        faces[i] == if Touches(old(faces[i]), sel) then old(faces[i]).WithHide(true) else old(faces[i])
      ensures hid <==> hid0 || exists i :: 0 <= i < faces.Length && Touches(old(faces[i]), sel)
                                          && !old(faces[i]).Hidden() && old(faces[i]).texid != goretex
    {
      hid := hid0;
      for ll := 0 to faces.Length
        invariant forall i :: 0 <= i < ll ==>
          faces[i] == if Touches(old(faces[i]), sel) then old(faces[i]).WithHide(true) else old(faces[i])
        invariant forall i :: ll <= i < faces.Length ==> faces[i] == old(faces[i])
        invariant hid <==> hid0 || exists i :: 0 <= i < ll && Touches(old(faces[i]), sel)
                                              && !old(faces[i]).Hidden() && old(faces[i]).texid != goretex
      {
        var face := faces[ll];
        if InSelection(face.v0, sel) || InSelection(face.v1, sel) || InSelection(face.v2, sel) {
          if !face.Hidden() {
            if face.texid != goretex {
              hid := true;
            }
          }
          faces[ll] := face.WithHide(true);
        }
      }
    }

    /**
      ARX_NPC_ApplyCuts: recompute the flags, show every face, then hide the
      faces of every Active flag's selection. Reports whether one of those
      faces is not gore-textured (faces hidden by earlier cuts count again,
      since every face is shown first), and sets `cut` when some flag is Active.
     */
    method ApplyCuts() returns (hid: bool)
      requires Valid()
      modifies this`cuts, this`cut, faces
      ensures Valid()
      ensures !isNpc || old(cuts) == {} ==>
        !hid && cuts == old(cuts) && cut == old(cut) && faces[..] == old(faces[..])
      ensures isNpc && old(cuts) != {} ==>
        cuts == Recomputed(old(cuts))
        && faces[..] == AfterCuts(old(faces[..]), selections, cuts)
        && (hid <==> Bleeds(old(faces[..]), selections, cuts, GoreTexture(textures)))
        && cut == (if AnyActive(selections, cuts) then 1 else old(cut))
    {
      if !isNpc || cuts == {} {
        return false;
      }
      ReComputeCutFlags();
      var goretex := FindGoreTexture(textures);
      hid := false;
      ghost var start := faces[..];
      ghost var c := cuts;
      ShowAll();

      for jj := 0 to 6
        invariant cuts == c
        invariant forall i :: 0 <= i < faces.Length ==> faces[i] == start[i].WithHide(HitBy(start[i], selections, c, jj))
        invariant hid <==> BleedsBy(start, selections, c, goretex, jj)
        invariant cut == if ActiveAmong(selections, c, jj) then 1 else old(cut)
      {
        var flg := Bit(jj);
        var numsel := GetCutSelection(flg);
        if Has(cuts, flg) && numsel >= 0 {
          ghost var before := faces[..];
          ghost var hid0 := hid;
          hid := HideTouching(selections[numsel], goretex, hid);
          ActivePass(start, before, faces[..], selections, c, jj, goretex, hid0, hid);
          cut := 1;
        } else {
          InactivePass(start, selections, c, jj, goretex);
        }
      }
      AllPassesDone(start, faces[..], selections, c, vertexCount);
    }

    /** The inner loop of ARX_NPC_TryToCutSomething: the `out` count of selection `sel`. */
    method CountHidden(sel: Selection, goretex: int) returns (out: nat)
      ensures out == HiddenCount(faces[..], sel, goretex)
    {
      out := 0;
      for ll := 0 to faces.Length
        invariant out == HiddenCount(faces[..ll], sel, goretex)
      {
        assert faces[..ll + 1][..ll] == faces[..ll];
        var face := faces[ll];
        if face.texid != goretex {
          if InSelection(face.v0, sel) || InSelection(face.v1, sel) || InSelection(face.v2, sel) {
            if face.Hidden() {
              out := out + 1;
            }
          }
        }
      }
      assert faces[..faces.Length] == faces[..];
    }

    /** The tests of the selection loop of ARX_NPC_TryToCutSomething on selection `i`. */
    method IsCandidate(i: nat, goretex: int) returns (candidate: bool)
      requires i < |selections|
      ensures candidate == Candidate(faces[..], selections, cuts, goretex, i)
    {
      candidate := false;
      if |selections[i].selected| > 0 && Contains(selections[i].name, "cut_") {
        var fll := CutFlag(selections[i].name);
        if !IsAlreadyCut(cuts, fll) {
          var out := CountHidden(selections[i], goretex);
          candidate := out < 3;
        }
      }
    }

    /**
      The selection loop of ARX_NPC_TryToCutSomething: the nearest
      Candidate, the first on a tie, given the squared distance from the blow
      to each selection's first vertex.
     */
    method NearestCandidate(distSqr: seq<real>, goretex: int) returns (numsel: int, minDist: real)
      requires |distSqr| == |selections|
      ensures NearestAmong(faces[..], selections, cuts, goretex, distSqr, |selections|, numsel, minDist)
    {
      minDist := FltMax;
      numsel := -1;
      for i := 0 to |selections|
        invariant NearestAmong(faces[..], selections, cuts, goretex, distSqr, i, numsel, minDist)
      {
        var candidate := IsCandidate(i, goretex);
        if candidate {
          var dist := distSqr[i];
          if dist < minDist {
            minDist := dist;
            numsel := i;
          }
        }
      }
    }

    /**
      ARX_NPC_TryToCutSomething without the sound: pick the nearest
      Candidate; when it is within reach and its flag is a new one, set the
      flag and apply the cuts; when the cuts hide a non-gore face, spawn the part.
      `distSqr[i]` is the squared distance from the blow to the first vertex
      of selection `i`, and `near[i]` the vertices IsNearSelection finds
      near selection `i`.
     */
    method TryToCutSomething(distSqr: seq<real>, near: seq<set<nat>>) returns (numsel: int, member: Option<Member>)
      requires Valid()
      requires |distSqr| == |selections| && |near| == |selections|
      modifies this`cuts, this`cut, faces
      ensures Valid()
      ensures -1 <= numsel < |selections|
      ensures !isNpc || noGore ==>
        numsel == -1 && member == None && cuts == old(cuts) && cut == old(cut) && faces[..] == old(faces[..])
      ensures isNpc && !noGore ==>
        NearestAmong(old(faces[..]), selections, old(cuts), GoreTexture(textures), distSqr, |selections|,
                     numsel, if numsel == -1 then FltMax else distSqr[numsel])
      ensures isNpc && !noGore && Reaches(selections, distSqr, numsel, old(cuts)) ==>
        cuts == Recomputed(old(cuts) + CutFlag(selections[numsel].name))
        && faces[..] == AfterCuts(old(faces[..]), selections, cuts)
        && cut == (if AnyActive(selections, cuts) then 1 else old(cut))
        && (member.Some? <==> Bleeds(old(faces[..]), selections, cuts, GoreTexture(textures)))
      ensures !(isNpc && !noGore && Reaches(selections, distSqr, numsel, old(cuts))) ==>
        cuts == old(cuts) && cut == old(cut) && faces[..] == old(faces[..]) && member == None
      ensures member.Some? ==>
        0 <= numsel && member.value == Part(vertexCount, faces[..], selections[numsel].selected, GoreTexture(textures), near[numsel])
    {
      if !isNpc {
        return -1, None;
      }
      if noGore {
        return -1, None;
      }
      var goretex := FindGoreTexture(textures);
      var minDist;
      numsel, minDist := NearestCandidate(distSqr, goretex);
      if numsel == -1 {
        return -1, None;
      }
      member := CutChosen(numsel, minDist, near[numsel]);
    }

    /**
      The end of ARX_NPC_TryToCutSomething, once selection `numsel` is
      chosen at squared distance `minDist`: cut it when it is within reach and
      its flag is a new one, and spawn the part when the cuts hide a non-gore
      face (one an earlier cut hid counts again).
     */
    method CutChosen(numsel: nat, minDist: real, near: set<nat>) returns (member: Option<Member>)
      requires Valid()
      requires isNpc
      requires numsel < |selections| && |selections[numsel].selected| > 0
      modifies this`cuts, this`cut, faces
      ensures Valid()
      ensures minDist < CutReachSqr && NewCut(old(cuts), selections[numsel].name) ==>
        cuts == Recomputed(old(cuts) + CutFlag(selections[numsel].name))
        && faces[..] == AfterCuts(old(faces[..]), selections, cuts)
        && cut == (if AnyActive(selections, cuts) then 1 else old(cut))
        && (member.Some? <==> Bleeds(old(faces[..]), selections, cuts, GoreTexture(textures)))
      ensures !(minDist < CutReachSqr && NewCut(old(cuts), selections[numsel].name)) ==>
        cuts == old(cuts) && cut == old(cut) && faces[..] == old(faces[..]) && member == None
      ensures member.Some? ==>
        member.value == Part(vertexCount, faces[..], selections[numsel].selected, GoreTexture(textures), near)
    {
      var hid := false;
      if minDist < CutReachSqr {
        var fl := CutFlag(selections[numsel].name);
        hid := AddCut(fl);
      }
      member := None;
      if hid {
        var equival;
        member, equival := SpawnMember(vertexCount, faces[..], textures, selections, numsel, near);
      }
    }

    /** `if(fl && !(cuts & fl))`: set the flag when it is a new one, and apply the cuts. */
    method AddCut(fl: Flags) returns (hid: bool)
      requires Valid()
      requires isNpc
      modifies this`cuts, this`cut, faces
      ensures Valid()
      ensures IsNew(old(cuts), fl) ==>
        cuts == Recomputed(old(cuts) + fl)
        && faces[..] == AfterCuts(old(faces[..]), selections, cuts)
        && cut == (if AnyActive(selections, cuts) then 1 else old(cut))
        && (hid <==> Bleeds(old(faces[..]), selections, cuts, GoreTexture(textures)))
      ensures !IsNew(old(cuts), fl) ==>
        cuts == old(cuts) && cut == old(cut) && faces[..] == old(faces[..]) && !hid
    {
      if IsNew(cuts, fl) {
        cuts := cuts + fl;
        hid := ApplyCuts();
      } else {
        hid := false;
      }
    }
  }
}
