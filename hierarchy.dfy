/** The parsed structure as the contact finder sees it: models of chains of
    residues of atoms (Biopython's Structure/Model/Chain/Residue/Atom), the
    residue key used for aggregation, and how keys and ligands are written. */
module Hierarchy {
  import opened Wrappers
  import opened Text

  /** An atom's coordinate. Coordinates are exact reals: float rounding is
      not modelled. */
  datatype Point = Point(x: real, y: real, z: real)

  /** One residue. `hetflag` is the first field of Biopython's residue id
      (" ", "H_XXX", "W"); `resseq` and `icode` are the other two. The two
      flags stand for `is_aa(residue, standard=True)` and
      `is_aa(residue, standard=False)`. */
  datatype Residue = Residue(
    resname: string,
    hetflag: string,
    resseq: int,
    icode: Option<string>,
    isStdAA: bool,
    isAA: bool,
    atoms: seq<Point>)

  datatype Chain = Chain(id: string, residues: seq<Residue>)

  datatype Model = Model(chains: seq<Chain>)

  datatype Structure = Structure(models: seq<Model>)

  /** A residue with the id of the chain that holds it: what the source
      reaches through `residue.get_parent()`. */
  datatype Site = Site(chainId: string, res: Residue)

  /** A candidate atom with its back reference to its residue
      (`atom.get_parent()`). */
  datatype ProteinAtom = ProteinAtom(pos: Point, site: Site)

  /** `(resname, chain_id, resseq, icode)`: the identity under which
      distances are aggregated. */
  datatype ResidueKey = ResidueKey(resname: string, chain: string, resseq: int, icode: string)

  /** A standard amino acid is also an amino acid, as Biopython's `is_aa`
      guarantees. */
  predicate WellFormed(r: Residue) {
    r.isStdAA ==> r.isAA
  }

  /** `is_aa(residue, standard=standard)`. */
  predicate IsAA(r: Residue, standard: bool) {
    if standard then r.isStdAA else r.isAA
  }

  /** `hetflag.startswith("W")`. */
  predicate IsWater(r: Residue) {
    |r.hetflag| > 0 && r.hetflag[0] == 'W'
  }

  /** `icode or ""`: a missing or empty insertion code becomes "", any
      other (a blank " " included) is kept. */
  function NormalizeIcode(icode: Option<string>): (r: string)
    ensures r == "" <==> icode == None || icode == Some("")
    ensures icode.Some? ==> r == icode.value
  {
    match icode
    case None => ""
    case Some(c) => c
  }

  /** `residue_key(residue)`. */
  function KeyOf(site: Site): (k: ResidueKey)
    ensures k.resname == site.res.resname && k.chain == site.chainId && k.resseq == site.res.resseq
    ensures k.icode == "" <==> site.res.icode == None || site.res.icode == Some("")
    ensures site.res.icode.Some? ==> k.icode == site.res.icode.value
  {
    ResidueKey(site.res.resname, site.chainId, site.res.resseq, NormalizeIcode(site.res.icode))
  }

  /** The insertion code as written after the residue number: nothing when
      it is empty or blank, otherwise the code itself. */
  function IcodeSuffix(icode: string): (r: string)
    ensures r == "" <==> icode == "" || icode == " "
    ensures r != "" ==> r == icode
  {
    if icode != "" && icode != " " then icode else ""
  }

  /** `format_residue_key(key)`: "NAME Chain C 42A". After the name and
      the chain comes the residue number, which reads back as `resseq`,
      and then the insertion-code suffix. */
  function FormatResidueKey(k: ResidueKey): (r: string)
    ensures |r| >= |k.resname| + |k.chain| + 8 + |IcodeSuffix(k.icode)|
    ensures r[..|k.resname| + |k.chain| + 8] == k.resname + " Chain " + k.chain + " "
    ensures ParseDecimal(r[|k.resname| + |k.chain| + 8..|r| - |IcodeSuffix(k.icode)|]) == Some(k.resseq)
    ensures r[|r| - |IcodeSuffix(k.icode)|..] == IcodeSuffix(k.icode)
  {
    var prefix := k.resname + " Chain " + k.chain + " ";
    var number := Decimal(k.resseq);
    var suffix := IcodeSuffix(k.icode);
    var r := prefix + number + suffix;
    DecimalRoundTrip(k.resseq);
    assert r[|prefix|..|r| - |suffix|] == number;
    assert r[..|prefix|] == prefix;
    assert r[|r| - |suffix|..] == suffix;
    r
  }

  /** A formatted key keeps its residue number: keys that differ only in
      `resseq` (insertion codes blank or empty) are written differently. */
  lemma FormatResidueKeySeparatesNumbers(k1: ResidueKey, k2: ResidueKey)
    requires k1.resname == k2.resname && k1.chain == k2.chain
    requires IcodeSuffix(k1.icode) == "" && IcodeSuffix(k2.icode) == ""
    requires FormatResidueKey(k1) == FormatResidueKey(k2)
    ensures k1.resseq == k2.resseq
  {
    var prefix := k1.resname + " Chain " + k1.chain + " ";
    assert FormatResidueKey(k1) == prefix + Decimal(k1.resseq);
    assert FormatResidueKey(k2) == prefix + Decimal(k2.resseq);
    assert Decimal(k1.resseq) == FormatResidueKey(k1)[|prefix|..];
    assert Decimal(k2.resseq) == FormatResidueKey(k2)[|prefix|..];
    DecimalInjective(k1.resseq, k2.resseq);
  }

  /** The label of a ligand instance, built from the raw insertion code:
      nothing when it is missing, empty or blank. It is the formatted
      residue key of the ligand. */
  function LigandLabel(lig: Site): (r: string)
    ensures r == FormatResidueKey(KeyOf(lig))
  {
    var icode := match lig.res.icode
      case None => ""
      case Some(c) => if c == "" || c == " " then "" else c;
    lig.res.resname + " Chain " + lig.chainId + " " + Decimal(lig.res.resseq) + icode
  }

  /** Squared Euclidean distance. The source compares and reports
      `math.sqrt` of it; squaring is monotone on non-negative values, so every
      comparison and every minimum comes out the same. */
  function SqDist(p: Point, q: Point): (d: real)
    ensures d >= 0.0
  {
    var dx, dy, dz := p.x - q.x, p.y - q.y, p.z - q.z;
    dx * dx + dy * dy + dz * dz
  }

  /** "within `cutoff` of": what `NeighborSearch.search(center, cutoff)`
      selects (distance at most the radius). */
  predicate Within(center: Point, p: Point, cutoff: real) {
    0.0 <= cutoff && SqDist(center, p) <= cutoff * cutoff
  }

  /** A larger radius selects at least as much. */
  lemma WithinMonotone(center: Point, p: Point, r1: real, r2: real)
    requires Within(center, p, r1) && r1 <= r2
    ensures Within(center, p, r2)
  {
    assert r1 * r1 <= r1 * r2 <= r2 * r2;
  }
}
