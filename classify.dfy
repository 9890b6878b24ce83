/** The classification pass of `find_contacts_cif` (contacts_cif.py:47-67):
    walking model, chain and residue in order, it collects the ligand
    instances and the candidate (amino-acid) atoms. */
module Classify {
  import opened Hierarchy
  import opened Text

  /** The stripped residue name is the ligand's name. */
  predicate IsLigand(r: Residue, ligandName: string) {
    Strip(r.resname) == ligandName
  }

  /** The atoms of a residue, each with its back reference
      (`residue.get_atoms()`). */
  function AtomsOf(site: Site): (pas: seq<ProteinAtom>)
    ensures |pas| == |site.res.atoms|
    ensures forall i :: 0 <= i < |pas| ==> pas[i] == ProteinAtom(site.res.atoms[i], site)
  {
    seq(|site.res.atoms|, i requires 0 <= i < |site.res.atoms| => ProteinAtom(site.res.atoms[i], site))
  }

  /** What one residue adds to the candidate list, branch by branch: a
      ligand adds nothing, a water adds nothing whether or not waters were
      asked for, an amino acid adds all its atoms, anything else nothing. */
  function CandidateAtoms(site: Site, ligandName: string, includeWaters: bool, standardOnly: bool): seq<ProteinAtom> {
    if IsLigand(site.res, ligandName) then []
    else if IsWater(site.res) then (if includeWaters then [] else [])
    else if IsAA(site.res, standardOnly) then AtomsOf(site)
    else []
  }

  /** The residues of one chain, in order, each with the chain's id. */
  function ResidueSites(chainId: string, rs: seq<Residue>): (sites: seq<Site>)
    ensures |sites| == |rs|
    ensures forall i :: 0 <= i < |rs| ==> sites[i] == Site(chainId, rs[i])
  {
    seq(|rs|, i requires 0 <= i < |rs| => Site(chainId, rs[i]))
  }

  /** The residues of a sequence of chains, in traversal order. */
  function ChainSites(cs: seq<Chain>): seq<Site> {
    if cs == [] then []
    else ChainSites(cs[..|cs| - 1]) + ResidueSites(cs[|cs| - 1].id, cs[|cs| - 1].residues)
  }

  /** The residues of a sequence of models, in traversal order. */
  function ModelSites(ms: seq<Model>): seq<Site> {
    if ms == [] then []
    else ModelSites(ms[..|ms| - 1]) + ChainSites(ms[|ms| - 1].chains)
  }

  /** Every residue of the structure, in the order `for model in structure:
      for chain in model: for residue in chain` visits it. */
  function Sites(s: Structure): seq<Site> {
    ModelSites(s.models)
  }

  /** The ligand instances among `sites`, in order. */
  function LigandsIn(sites: seq<Site>, ligandName: string): seq<Site> {
    if sites == [] then []
    else
      var last := sites[|sites| - 1];
      LigandsIn(sites[..|sites| - 1], ligandName) + (if IsLigand(last.res, ligandName) then [last] else [])
  }

  /** The candidate atoms contributed by `sites`, in order. */
  function CandidatesIn(sites: seq<Site>, ligandName: string, includeWaters: bool, standardOnly: bool): seq<ProteinAtom> {
    if sites == [] then []
    else
      CandidatesIn(sites[..|sites| - 1], ligandName, includeWaters, standardOnly)
      + CandidateAtoms(sites[|sites| - 1], ligandName, includeWaters, standardOnly)
  }

  /** `ligand_residues` after the pass: exactly the residues of the
      structure whose stripped name is the ligand's. */
  function Ligands(s: Structure, ligandName: string): (ligs: seq<Site>)
    ensures forall l :: l in ligs <==> l in Sites(s) && Strip(l.res.resname) == ligandName
  {
    LigandsInMembership(Sites(s), ligandName);
    LigandsIn(Sites(s), ligandName)
  }

  /** `protein_atoms` after the pass: exactly the atoms of the residues of
      the structure that are not the ligand (tested first), not waters, and
      amino acids under `standardOnly`. */
  function Candidates(s: Structure, ligandName: string, includeWaters: bool, standardOnly: bool): (cands: seq<ProteinAtom>)
    ensures forall pa :: pa in cands <==>
      && pa.site in Sites(s)
      && !IsLigand(pa.site.res, ligandName)
      && !IsWater(pa.site.res)
      && IsAA(pa.site.res, standardOnly)
      && pa.pos in pa.site.res.atoms
  {
    CandidatesInMembership(Sites(s), ligandName, includeWaters, standardOnly);
    CandidatesIn(Sites(s), ligandName, includeWaters, standardOnly)
  }

  /** The classification loop itself. */
  method ClassifyResidues(s: Structure, ligandName: string, includeWaters: bool, standardOnly: bool)
    returns (ligands: seq<Site>, candidates: seq<ProteinAtom>)
    ensures ligands == Ligands(s, ligandName)
    ensures candidates == Candidates(s, ligandName, includeWaters, standardOnly)
  {
    ligands, candidates := [], [];
    ghost var seen: seq<Site> := [];
    var mi := 0;
    while mi < |s.models|
      invariant 0 <= mi <= |s.models|
      invariant seen == ModelSites(s.models[..mi])
      invariant ligands == LigandsIn(seen, ligandName)
      invariant candidates == CandidatesIn(seen, ligandName, includeWaters, standardOnly)
    {
      var model := s.models[mi];
      ghost var doneModels := seen;
      var ci := 0;
      assert model.chains[..0] == [];
      while ci < |model.chains|
        invariant 0 <= ci <= |model.chains|
        invariant seen == doneModels + ChainSites(model.chains[..ci])
        invariant ligands == LigandsIn(seen, ligandName)
        invariant candidates == CandidatesIn(seen, ligandName, includeWaters, standardOnly)
      {
        var chain := model.chains[ci];
        ghost var doneChains := seen;
        var ri := 0;
        assert chain.residues[..0] == [];
        while ri < |chain.residues|
          invariant 0 <= ri <= |chain.residues|
          invariant seen == doneChains + ResidueSites(chain.id, chain.residues[..ri])
          invariant ligands == LigandsIn(seen, ligandName)
          invariant candidates == CandidatesIn(seen, ligandName, includeWaters, standardOnly)
        {
          var residue := chain.residues[ri];
          var site := Site(chain.id, residue);
          ResidueSitesSnoc(doneChains, chain.id, chain.residues, ri);
          LigandsInSnoc(seen, site, ligandName);
          CandidatesInSnoc(seen, site, ligandName, includeWaters, standardOnly);
          var resname := Strip(residue.resname);
          if resname == ligandName {
            ligands := ligands + [site];
          } else if IsWater(residue) {
            if includeWaters {
              // waters are never added to the candidates
            }
          } else if IsAA(residue, standardOnly) {
            candidates := candidates + AtomsOf(site);
          }
          seen := seen + [site];
          ri := ri + 1;
        }
        ChainSitesSnoc(doneModels, model.chains, ci);
        ci := ci + 1;
      }
      ModelSitesSnoc(s.models, mi);
      mi := mi + 1;
    }
    assert s.models[..mi] == s.models;
  }

  lemma ResidueSitesSnoc(done: seq<Site>, chainId: string, rs: seq<Residue>, i: nat)
    requires i < |rs|
    ensures done + ResidueSites(chainId, rs[..i + 1]) == done + ResidueSites(chainId, rs[..i]) + [Site(chainId, rs[i])]
  {
  }

  lemma ChainSitesSnoc(done: seq<Site>, cs: seq<Chain>, i: nat)
    requires i < |cs|
    ensures done + ChainSites(cs[..i + 1]) == done + ChainSites(cs[..i]) + ResidueSites(cs[i].id, cs[i].residues[..|cs[i].residues|])
  {
    assert cs[..i + 1][..i] == cs[..i];
    assert cs[i].residues[..|cs[i].residues|] == cs[i].residues;
  }

  lemma ModelSitesSnoc(ms: seq<Model>, i: nat)
    requires i < |ms|
    ensures ModelSites(ms[..i + 1]) == ModelSites(ms[..i]) + ChainSites(ms[i].chains[..|ms[i].chains|])
  {
    assert ms[..i + 1][..i] == ms[..i];
    assert ms[i].chains[..|ms[i].chains|] == ms[i].chains;
  }

  lemma LigandsInSnoc(sites: seq<Site>, site: Site, ligandName: string)
    ensures LigandsIn(sites + [site], ligandName)
      == LigandsIn(sites, ligandName) + (if IsLigand(site.res, ligandName) then [site] else [])
  {
    assert (sites + [site])[..|sites|] == sites;
  }

  lemma CandidatesInSnoc(sites: seq<Site>, site: Site, ligandName: string, includeWaters: bool, standardOnly: bool)
    ensures CandidatesIn(sites + [site], ligandName, includeWaters, standardOnly)
      == CandidatesIn(sites, ligandName, includeWaters, standardOnly) + CandidateAtoms(site, ligandName, includeWaters, standardOnly)
  {
    assert (sites + [site])[..|sites|] == sites;
  }

  /** A residue whose stripped name is the ligand's is a ligand instance,
      and every ligand instance is such a residue of the structure. */
  lemma {:induction false} LigandsInMembership(sites: seq<Site>, ligandName: string)
    ensures forall l :: l in LigandsIn(sites, ligandName) <==> l in sites && IsLigand(l.res, ligandName)
  {
    if sites != [] {
      LigandsInMembership(sites[..|sites| - 1], ligandName);
      assert sites == sites[..|sites| - 1] + [sites[|sites| - 1]];
    }
  }

  /** An atom is a candidate exactly when it is an atom of a residue that is
      not the ligand (the ligand test comes first), is not a water, and
      passes the amino-acid test. */
  lemma {:induction false} CandidatesInMembership(sites: seq<Site>, ligandName: string, includeWaters: bool, standardOnly: bool)
    ensures forall pa :: pa in CandidatesIn(sites, ligandName, includeWaters, standardOnly) <==>
      && pa.site in sites
      && !IsLigand(pa.site.res, ligandName)
      && !IsWater(pa.site.res)
      && IsAA(pa.site.res, standardOnly)
      && pa.pos in pa.site.res.atoms
  {
    if sites != [] {
      var init, last := sites[..|sites| - 1], sites[|sites| - 1];
      CandidatesInMembership(init, ligandName, includeWaters, standardOnly);
      assert sites == init + [last];
      forall pa | pa in CandidateAtoms(last, ligandName, includeWaters, standardOnly)
        ensures pa.site == last && pa.pos in last.res.atoms
      {
        var i :| 0 <= i < |AtomsOf(last)| && AtomsOf(last)[i] == pa;
      }
      forall pa: ProteinAtom | pa.site == last && !IsLigand(last.res, ligandName) && !IsWater(last.res)
          && IsAA(last.res, standardOnly) && pa.pos in last.res.atoms
        ensures pa in CandidateAtoms(last, ligandName, includeWaters, standardOnly)
      {
        var i :| 0 <= i < |last.res.atoms| && last.res.atoms[i] == pa.pos;
        assert AtomsOf(last)[i] == pa;
      }
    }
  }

  /** No atom of a ligand instance is ever a candidate, even when that
      residue is also an amino acid; and no atom of a water is either. */
  lemma LigandAndWaterAtomsExcluded(s: Structure, ligandName: string, includeWaters: bool, standardOnly: bool)
    ensures forall pa :: pa in Candidates(s, ligandName, includeWaters, standardOnly) ==>
      pa.site !in Ligands(s, ligandName) && !IsWater(pa.site.res)
  {
    CandidatesInMembership(Sites(s), ligandName, includeWaters, standardOnly);
    LigandsInMembership(Sites(s), ligandName);
  }

  /** `include_waters` changes nothing: its branch adds no atom. */
  lemma {:induction false} IncludeWatersIsNoOp(sites: seq<Site>, ligandName: string, standardOnly: bool)
    ensures CandidatesIn(sites, ligandName, true, standardOnly) == CandidatesIn(sites, ligandName, false, standardOnly)
  {
    if sites != [] {
      IncludeWatersIsNoOp(sites[..|sites| - 1], ligandName, standardOnly);
    }
  }

  /** Every candidate passes the permissive amino-acid test that the
      contact fold re-checks (contacts_cif.py:97), so that re-check never
      drops a candidate of a well-formed structure. */
  lemma CandidatesAreAminoAcids(s: Structure, ligandName: string, includeWaters: bool, standardOnly: bool)
    requires forall site :: site in Sites(s) ==> WellFormed(site.res)
    ensures forall pa :: pa in Candidates(s, ligandName, includeWaters, standardOnly) ==> pa.site.res.isAA
  {
    CandidatesInMembership(Sites(s), ligandName, includeWaters, standardOnly);
  }
}
