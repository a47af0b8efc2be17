/**
  The dismemberment flags of an NPC (the `cuts` field of its NPC data) and
  the pure rules over them: which selection name stands for which flag, which
  flag name a selection lookup searches for, how a torso cut subsumes the
  head and arm cuts, and when a body part counts as already cut.

  A bitmask is modelled by the set of the positions of its one bits: `a & b`
  is `a * b`, `a | b` is `a + b`, `a & ~b` is `a - b`, `1 << j` is `{j}`,
  and the mask is zero when the set is empty.
 */
module CutFlags {

  /** A set of dismemberment flags; the source passes them as `short`. */
  type Flags = set<nat>

  const CutHead: Flags := {0}
  const CutTorso: Flags := {1}
  const CutLarm: Flags := {2}
  const CutRarm: Flags := {3}
  const CutLleg: Flags := {4}
  const CutRleg: Flags := {5}

  /** The flags that a torso cut makes redundant. */
  const TorsoSubsumed: Flags := CutHead + CutLarm + CutRarm

  /** `cuts & fl` is not zero. */
  predicate Has(cuts: Flags, fl: Flags) {
    cuts * fl != {}
  }

  /** `f` is exactly one of the six dismemberment flags. */
  predicate IsCutFlag(f: Flags) {
    f == CutHead || f == CutTorso || f == CutLarm || f == CutRarm || f == CutLleg || f == CutRleg
  }

  /** Flag number `j`, `1 << j`: the loop of ARX_NPC_ApplyCuts visits j = 0 .. 5. */
  function Bit(j: nat): (f: Flags)
    requires j < 6
    ensures IsCutFlag(f)
  {
    {j}
  }

  /**
    GetCutFlag: the flag a selection name stands for, 0 for any other name.
    "cut_rarm" stands for the head flag, as in the source.
   */
  function CutFlag(name: string): (f: Flags)
    ensures f == {} <==> name !in {"cut_head", "cut_torso", "cut_larm", "cut_rarm", "cut_lleg", "cut_rleg"}
    ensures f == {} || IsCutFlag(f)
    ensures f != CutRarm
    ensures f != {} ==> name == CutName(f) || (name == "cut_rarm" && f == CutHead)
  {
    if name == "cut_head" then CutHead
    else if name == "cut_torso" then CutTorso
    else if name == "cut_larm" then CutLarm
    else if name == "cut_rarm" then CutHead
    else if name == "cut_lleg" then CutLleg
    else if name == "cut_rleg" then CutRleg
    else {}
  }

  /**
    The selection name GetCutSelection searches for a flag; the empty name
    when the flag is not exactly one of the six.
   */
  function CutName(flag: Flags): (name: string)
    ensures name == "" <==> !IsCutFlag(flag)
  {
    if flag == CutHead then "cut_head"
    else if flag == CutTorso then "cut_torso"
    else if flag == CutLarm then "cut_larm"
    else if flag == CutRarm then "cut_rarm"
    else if flag == CutLleg then "cut_lleg"
    else if flag == CutRleg then "cut_rleg"
    else ""
  }

  /** CutName inverts CutFlag on every flag except the right arm's, whose name leads to the head flag. */
  lemma CutFlagInvertsCutName(flag: Flags)
    requires IsCutFlag(flag)
    ensures flag != CutRarm ==> CutFlag(CutName(flag)) == flag
    ensures flag == CutRarm ==> CutFlag(CutName(flag)) == CutHead
  {
  }

  /** ReComputeCutFlags on the value of `cuts`: a torso cut clears the head and arm flags. */
  function Recomputed(cuts: Flags): (r: Flags)
    ensures r <= cuts && cuts - r <= TorsoSubsumed
  {
    if Has(cuts, CutTorso) then cuts - CutHead - CutLarm - CutRarm else cuts
  }

  /**
    With the torso flag set, recomputing clears exactly the head and arm
    flags; without it, it changes nothing. Every other flag is kept.
   */
  lemma RecomputedClearsSubsumed(cuts: Flags)
    ensures Has(Recomputed(cuts), CutTorso) == Has(cuts, CutTorso)
    ensures Recomputed(cuts) - TorsoSubsumed == cuts - TorsoSubsumed
    ensures Has(cuts, CutTorso) ==> !Has(Recomputed(cuts), TorsoSubsumed)
    ensures !Has(cuts, CutTorso) ==> Recomputed(cuts) == cuts
  {
  }

  lemma RecomputedIdempotent(cuts: Flags)
    ensures Recomputed(Recomputed(cuts)) == Recomputed(cuts)
  {
  }

  /** IsAlreadyCut: the part of flag `fl` is gone, either cut itself or carried off with the torso. */
  function IsAlreadyCut(cuts: Flags, fl: Flags): (b: bool)
    ensures Has(cuts, fl) ==> b
    ensures b ==> fl != {}
    ensures fl == CutTorso || fl == CutLleg || fl == CutRleg ==> (b <==> Has(cuts, fl))
  {
    Has(cuts, fl) || (Has(cuts, CutTorso) && (fl == CutHead || fl == CutLarm || fl == CutRarm))
  }

  /**
    A part is already cut exactly when cutting it again would leave the
    recomputed flags as they are.
   */
  lemma AlreadyCutIffNoChange(cuts: Flags, fl: Flags)
    requires IsCutFlag(fl)
    ensures IsAlreadyCut(cuts, fl) <==> Recomputed(cuts + fl) == Recomputed(cuts)
  {
    var k :| k in fl;
    assert fl == {k};
    if Has(cuts, fl) {
      assert cuts + fl == cuts;
    } else if IsAlreadyCut(cuts, fl) {
      assert Recomputed(cuts + fl) == cuts - TorsoSubsumed;
      assert Recomputed(cuts) == cuts - TorsoSubsumed;
    } else if fl == CutTorso {
      assert k in Recomputed(cuts + fl) && k !in Recomputed(cuts);
    } else {
      assert k in Recomputed(cuts + fl) && k !in Recomputed(cuts);
    }
  }

  /** Recomputing the flags does not change which parts count as already cut. */
  lemma AlreadyCutSurvivesRecompute(cuts: Flags, fl: Flags)
    requires IsCutFlag(fl)
    ensures IsAlreadyCut(Recomputed(cuts), fl) <==> IsAlreadyCut(cuts, fl)
  {
  }

  /** Once a part's flag is or-ed in and the flags recomputed, that part counts as already cut. */
  lemma CutMakesAlreadyCut(cuts: Flags, fl: Flags)
    requires IsCutFlag(fl)
    ensures IsAlreadyCut(Recomputed(cuts + fl), fl)
  {
    assert (cuts + fl) * fl == fl;
    AlreadyCutSurvivesRecompute(cuts + fl, fl);
  }
}
