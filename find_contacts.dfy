/** `find_contacts_cif` (contacts_cif.py:33-135) on an already parsed
    structure: classification, the two early exits, and one report per
    ligand instance. */
module FindContacts {
  import opened Hierarchy
  import opened Classify
  import opened Contacts
  import opened Report

  /** The reports `find_contacts_cif` returns: none exactly when there is
      no ligand instance or no candidate atom, and otherwise one per ligand
      instance, in traversal order, each with that instance's label. */
  function ContactReports(s: Structure, ligandName: string, cutoff: real, includeWaters: bool, standardOnly: bool)
    : (reports: seq<LigandReport>)
    ensures reports == [] <==> Ligands(s, ligandName) == [] || Candidates(s, ligandName, includeWaters, standardOnly) == []
    ensures reports != [] ==> |reports| == |Ligands(s, ligandName)|
    ensures forall i :: 0 <= i < |reports| ==>
      i < |Ligands(s, ligandName)| && reports[i].ligand == LigandLabel(Ligands(s, ligandName)[i])
  {
    var ligands := Ligands(s, ligandName);
    var cands := Candidates(s, ligandName, includeWaters, standardOnly);
    if ligands == [] then []
    else if cands == [] then []
    else
      ReportsForLabels(ligands, cands, cutoff);
      ReportsFor(ligands, cands, cutoff)
  }

  /** One report per ligand instance, in the order of `ligands`. */
  function ReportsFor(ligands: seq<Site>, cands: seq<ProteinAtom>, cutoff: real): (reports: seq<LigandReport>)
    ensures |reports| == |ligands|
  {
    if ligands == [] then []
    else ReportsFor(ligands[..|ligands| - 1], cands, cutoff) + [ReportFor(ligands[|ligands| - 1], cands, cutoff)]
  }

  lemma {:induction false} ReportsForAt(ligands: seq<Site>, cands: seq<ProteinAtom>, cutoff: real, i: nat)
    requires i < |ligands|
    ensures ReportsFor(ligands, cands, cutoff)[i] == ReportFor(ligands[i], cands, cutoff)
  {
    if i < |ligands| - 1 {
      ReportsForAt(ligands[..|ligands| - 1], cands, cutoff, i);
    }
  }

  /** The pipeline. `structure` is what `MMCIFParser.get_structure` built. */
  method FindContactsCif(structure: Structure, ligandName: string, cutoff: real, includeWaters: bool, standardOnly: bool)
    returns (reports: seq<LigandReport>)
    ensures reports == ContactReports(structure, ligandName, cutoff, includeWaters, standardOnly)
    ensures Ligands(structure, ligandName) == [] ==> reports == []
    ensures Candidates(structure, ligandName, includeWaters, standardOnly) == [] ==> reports == []
    ensures Ligands(structure, ligandName) != [] && Candidates(structure, ligandName, includeWaters, standardOnly) != [] ==>
      |reports| == |Ligands(structure, ligandName)|
    ensures forall i :: 0 <= i < |reports| ==>
      i < |Ligands(structure, ligandName)| && reports[i].ligand == LigandLabel(Ligands(structure, ligandName)[i])
  {
    var ligands, proteinAtoms := ClassifyResidues(structure, ligandName, includeWaters, standardOnly);
    if ligands == [] {
      // "ligand not found"
      return [];
    }
    if proteinAtoms == [] {
      // "no protein atoms found"
      return [];
    }
    reports := ReportEachLigand(ligands, proteinAtoms, cutoff);
  }

  /** The loop over ligand instances (contacts_cif.py:79-120): a fresh
      table per instance, its sorted items, and the instance's report. */
  method ReportEachLigand(ligands: seq<Site>, proteinAtoms: seq<ProteinAtom>, cutoff: real)
    returns (reports: seq<LigandReport>)
    ensures reports == ReportsFor(ligands, proteinAtoms, cutoff)
  {
    reports := [];
    for i := 0 to |ligands|
      invariant reports == ReportsFor(ligands[..i], proteinAtoms, cutoff)
    {
      var lig := ligands[i];
      var ligLabel := LigandLabel(lig);
      var contactsMin := MinDistances(lig.res.atoms, proteinAtoms, cutoff);
      var rows := SortRows(Items(contactsMin));
      var report := LigandReport(ligLabel, ToContacts(rows));
      assert report == ReportFor(lig, proteinAtoms, cutoff);
      assert ligands[..i + 1][..i] == ligands[..i];
      assert ReportsFor(ligands[..i + 1], proteinAtoms, cutoff)
        == ReportsFor(ligands[..i], proteinAtoms, cutoff) + [ReportFor(lig, proteinAtoms, cutoff)];
      reports := reports + [report];
    }
    assert ligands[..|ligands|] == ligands;
  }

  lemma ReportsForLabels(ligands: seq<Site>, cands: seq<ProteinAtom>, cutoff: real)
    ensures forall i :: 0 <= i < |ligands| ==> ReportsFor(ligands, cands, cutoff)[i].ligand == LigandLabel(ligands[i])
  {
    forall i | 0 <= i < |ligands|
      ensures ReportsFor(ligands, cands, cutoff)[i].ligand == LigandLabel(ligands[i])
    {
      ReportsForAt(ligands, cands, cutoff, i);
    }
  }

  /** Report `i` is the report of the `i`-th ligand instance in traversal
      order, built only from that instance and the candidate atoms, and it
      meets `ReportMeets`: each residue in contact once, with its minimum
      distance, in sorted order. */
  lemma ContactReportsCorrect(s: Structure, ligandName: string, cutoff: real, includeWaters: bool, standardOnly: bool)
    ensures var reports := ContactReports(s, ligandName, cutoff, includeWaters, standardOnly);
      forall i :: 0 <= i < |reports| ==>
        && i < |Ligands(s, ligandName)|
        && ReportMeets(reports[i], Ligands(s, ligandName)[i], Candidates(s, ligandName, includeWaters, standardOnly), cutoff)
  {
    var reports := ContactReports(s, ligandName, cutoff, includeWaters, standardOnly);
    var ligands := Ligands(s, ligandName);
    var cands := Candidates(s, ligandName, includeWaters, standardOnly);
    forall i | 0 <= i < |reports|
      ensures i < |ligands| && ReportMeets(reports[i], ligands[i], cands, cutoff)
    {
      ReportsForAt(ligands, cands, cutoff, i);
      ReportForCorrect(ligands[i], cands, cutoff);
    }
  }

  /** A ligand instance with nothing within the cutoff still gets its
      report, with an empty contact list; and an empty contact list means
      nothing is within the cutoff. */
  lemma EmptyReportMeansNoContact(lig: Site, cands: seq<ProteinAtom>, cutoff: real)
    ensures ReportFor(lig, cands, cutoff).contacts == [] <==>
      forall k :: !InContact(lig.res.atoms, cands, cutoff, k)
  {
    var rep := ReportFor(lig, cands, cutoff);
    ReportForCorrect(lig, cands, cutoff);
    if rep.contacts != [] {
      assert Attained(lig.res.atoms, cands, cutoff, ContactKey(rep.contacts[0]), rep.contacts[0].minDistance);
      assert InContact(lig.res.atoms, cands, cutoff, ContactKey(rep.contacts[0]));
    }
  }
}
