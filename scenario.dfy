/** A worked case of the contact fold: one ligand atom at the origin;
    residue 10 of chain A with atoms 2 and 1 away; residue 20 with an atom
    10 away; cutoff 4.5. Only residue 10 is in contact, at (squared)
    distance 1. */
module Scenario {
  import opened Wrappers
  import opened Text
  import opened Hierarchy
  import opened Contacts
  import opened Report

  const Near := Residue("ALA", " ", 10, None, true, true, [Point(2.0, 0.0, 0.0), Point(1.0, 0.0, 0.0)])
  const Far := Residue("GLY", " ", 20, None, true, true, [Point(10.0, 0.0, 0.0)])

  /** A ligand instance, GSH 1 of chain A, with one atom at the origin. */
  const Glutathione := Site("A", Residue("GSH", "H_GSH", 1, None, false, false, [Point(0.0, 0.0, 0.0)]))

  function ScenarioCandidates(): seq<ProteinAtom> {
    [ ProteinAtom(Point(2.0, 0.0, 0.0), Site("A", Near)),
      ProteinAtom(Point(1.0, 0.0, 0.0), Site("A", Near)),
      ProteinAtom(Point(10.0, 0.0, 0.0), Site("A", Far)) ]
  }

  /** The neighbour search around the origin keeps the two atoms of
      residue 10 and drops the one of residue 20. */
  lemma ScenarioNeighbors()
    ensures Neighbors(ScenarioCandidates(), Point(0.0, 0.0, 0.0), 4.5)
      == [ScenarioCandidates()[0], ScenarioCandidates()[1]]
  {
    var o, cands := Point(0.0, 0.0, 0.0), ScenarioCandidates();
    assert SqDist(o, cands[0].pos) == 4.0;
    assert SqDist(o, cands[1].pos) == 1.0;
    assert SqDist(o, cands[2].pos) == 100.0;
    assert cands[..2][..1][..0] == [];
    assert Neighbors(cands[..2][..1], o, 4.5) == [cands[0]];
    assert Neighbors(cands[..2], o, 4.5) == [cands[0], cands[1]];
  }

  /** Folding the two atoms of residue 10, at squared distances 4 then 1,
      leaves the smaller. */
  lemma ScenarioFold()
    ensures FoldNeighbors(EmptyTable, Point(0.0, 0.0, 0.0), [ScenarioCandidates()[0], ScenarioCandidates()[1]]).best
      == map[ResidueKey("ALA", "A", 10, "") := 1.0]
  {
    var o, cands := Point(0.0, 0.0, 0.0), ScenarioCandidates();
    var ns := [cands[0], cands[1]];
    var k := ResidueKey("ALA", "A", 10, "");
    assert KeyOf(cands[0].site) == k && KeyOf(cands[1].site) == k;
    assert SqDist(o, cands[0].pos) == 4.0;
    assert SqDist(o, cands[1].pos) == 1.0;
    var t1 := FoldNeighbors(EmptyTable, o, ns[..1]);
    assert ns[..1][..0] == [];
    assert FoldNeighbors(EmptyTable, o, ns[..1][..0]) == EmptyTable;
    assert t1 == Visit(EmptyTable, o, cands[0]);
    assert t1 == InsertMin(EmptyTable, k, 4.0);
    assert t1.best == map[k := 4.0];
    assert FoldNeighbors(EmptyTable, o, ns) == Visit(t1, o, cands[1]);
  }

  /** Only residue 10 is in contact, at its nearest atom's distance. */
  lemma OnlyNearResidueInContact()
    ensures ContactTable([Point(0.0, 0.0, 0.0)], ScenarioCandidates(), 4.5).best
      == map[ResidueKey("ALA", "A", 10, "") := 1.0]
  {
    var o := Point(0.0, 0.0, 0.0);
    ScenarioNeighbors();
    ScenarioFold();
    assert [o][..0] == [];
  }

  /** A table with one entry lists that key once. */
  lemma SingleEntryOrder(t: Table, k: ResidueKey, v: real)
    requires Valid(t) && t.best == map[k := v]
    ensures t.order == [k]
  {
    forall i | 0 <= i < |t.order|
      ensures t.order[i] == k
    {
      assert t.order[i] in t.best;
    }
    if |t.order| >= 2 {
      FirstTwoDiffer(t.order);
      assert false;
    }
    assert k in t.order;
  }

  lemma FirstTwoDiffer(s: seq<ResidueKey>)
    requires |s| >= 2
    requires forall i, j :: 0 <= i < j < |s| ==> s[i] != s[j]
    ensures s[0] != s[1]
  {
  }

  /** A ligand instance whose table has one entry gets one record. */
  lemma SingleEntryReport(lig: Site, cands: seq<ProteinAtom>, cutoff: real, k: ResidueKey, v: real)
    requires ContactTable(lig.res.atoms, cands, cutoff).best == map[k := v]
    ensures ReportFor(lig, cands, cutoff).contacts == [Contact(k.resname, k.chain, k.resseq, k.icode, v)]
  {
    var t := ContactTable(lig.res.atoms, cands, cutoff);
    SingleEntryOrder(t, k, v);
    var items := Items(t);
    assert items == [Row(k, v)];
    assert items[1..] == [];
    assert SortRows(items) == [Row(k, v)];
    var cs := ToContacts(SortRows(items));
    assert ContactKey(cs[0]) == k;
  }

  /** The report of the example: labelled "GSH Chain A 1", with exactly one
      record, residue 10 of chain A at (squared) distance 1. */
  lemma ReportForNearResidueOnly()
    ensures ReportFor(Glutathione, ScenarioCandidates(), 4.5)
      == LigandReport("GSH Chain A 1", [Contact("ALA", "A", 10, "", 1.0)])
  {
    OnlyNearResidueInContact();
    SingleEntryReport(Glutathione, ScenarioCandidates(), 4.5, ResidueKey("ALA", "A", 10, ""), 1.0);
    GlutathioneLabel();
  }

  /** The label of the example's ligand instance. */
  lemma GlutathioneLabel()
    ensures LigandLabel(Glutathione) == "GSH Chain A 1"
  {
    assert NatDecimal(1) == ['1'];
    assert Decimal(1) == "1";
    assert "GSH" + " Chain " + "A" + " " + "1" + "" == "GSH Chain A 1";
  }
}
