/** The contact fold of `find_contacts_cif` (contacts_cif.py:81-103): for
    one ligand instance, the smallest distance from any of its atoms to each
    amino-acid residue within the cutoff. */
module Contacts {
  import opened Hierarchy

  /** `contacts_min`: residue key to smallest distance seen so far. `order`
      lists the keys in the order they were first inserted, which is the
      order a Python dict yields its items in. */
  datatype Table = Table(order: seq<ResidueKey>, best: map<ResidueKey, real>)

  /** A fresh `defaultdict`. */
  const EmptyTable := Table([], map[])

  /** `order` lists each key of `best` exactly once. */
  ghost predicate Valid(t: Table) {
    && (forall k :: k in t.best <==> k in t.order)
    && (forall i, j :: 0 <= i < j < |t.order| ==> t.order[i] != t.order[j])
  }

  /** `if d < contacts_min[key]: contacts_min[key] = d` on a dict whose
      missing keys read as infinity: the key ends up holding the smaller of
      its old value and `d`, and is appended to the order when it is new. */
  function InsertMin(t: Table, k: ResidueKey, d: real): (r: Table)
    requires Valid(t)
    ensures Valid(r)
    ensures r.best.Keys == t.best.Keys + {k}
    ensures k in t.best ==> r.best[k] == (if t.best[k] <= d then t.best[k] else d)
    ensures k !in t.best ==> r.best[k] == d
    ensures forall k' :: k' in t.best && k' != k ==> r.best[k'] == t.best[k']
    ensures r.order == if k in t.best then t.order else t.order + [k]
  {
    if k !in t.best then Table(t.order + [k], t.best[k := d])
    else if d < t.best[k] then Table(t.order, t.best[k := d])
    else t
  }

  /** `ns.search(center, cutoff)` over the candidate atoms: every candidate
      within the radius and nothing else. The k-d tree's own order of
      results is not modelled; candidates come back in list order. */
  function Neighbors(cands: seq<ProteinAtom>, center: Point, cutoff: real): (r: seq<ProteinAtom>)
    ensures forall pa :: pa in r <==> pa in cands && Within(center, pa.pos, cutoff)
  {
    if cands == [] then []
    else
      var last := cands[|cands| - 1];
      assert cands == cands[..|cands| - 1] + [last];
      Neighbors(cands[..|cands| - 1], center, cutoff) + (if Within(center, last.pos, cutoff) then [last] else [])
  }

  /** A ligand atom and a candidate atom are in contact: within the cutoff,
      and the candidate's residue passes the permissive amino-acid test. */
  predicate Touches(la: Point, pa: ProteinAtom, cutoff: real) {
    Within(la, pa.pos, cutoff) && pa.site.res.isAA
  }

  /** One iteration of the inner loop (contacts_cif.py:95-103): a neighbour
      outside an amino acid changes nothing; otherwise its residue's entry
      drops to at most its distance, and no other entry changes. */
  function Visit(t: Table, la: Point, pa: ProteinAtom): (r: Table)
    requires Valid(t)
    ensures Valid(r)
    ensures !pa.site.res.isAA ==> r == t
    ensures pa.site.res.isAA ==> KeyOf(pa.site) in r.best && r.best[KeyOf(pa.site)] <= SqDist(la, pa.pos)
    ensures forall k :: k in t.best ==> k in r.best && r.best[k] <= t.best[k]
    ensures forall k :: k in r.best ==>
      (k in t.best && r.best[k] == t.best[k])
      || (pa.site.res.isAA && k == KeyOf(pa.site) && r.best[k] == SqDist(la, pa.pos))
  {
    if !pa.site.res.isAA then t else InsertMin(t, KeyOf(pa.site), SqDist(la, pa.pos))
  }

  /** The inner loop over the neighbours of one ligand atom. It adds
      exactly the keys of the amino-acid neighbours. */
  function FoldNeighbors(t: Table, la: Point, ns: seq<ProteinAtom>): (r: Table)
    requires Valid(t)
    ensures Valid(r)
    ensures forall k :: k in r.best <==>
      k in t.best || exists pa :: pa in ns && pa.site.res.isAA && KeyOf(pa.site) == k
  {
    if ns == [] then t
    else
      assert ns == ns[..|ns| - 1] + [ns[|ns| - 1]];
      Visit(FoldNeighbors(t, la, ns[..|ns| - 1]), la, ns[|ns| - 1])
  }

  /** `contacts_min` once every atom of the ligand instance is processed,
      starting from a fresh table. Every key is the residue of an amino-acid
      candidate. */
  function ContactTable(ligAtoms: seq<Point>, cands: seq<ProteinAtom>, cutoff: real): (t: Table)
    ensures Valid(t)
    ensures forall k :: k in t.best ==> exists pa :: pa in cands && pa.site.res.isAA && KeyOf(pa.site) == k
  {
    if ligAtoms == [] then EmptyTable
    else
      var la := ligAtoms[|ligAtoms| - 1];
      FoldNeighbors(ContactTable(ligAtoms[..|ligAtoms| - 1], cands, cutoff), la, Neighbors(cands, la, cutoff))
  }

  /** The fold of lines 81-103 for one ligand instance. */
  method MinDistances(ligAtoms: seq<Point>, cands: seq<ProteinAtom>, cutoff: real) returns (t: Table)
    ensures t == ContactTable(ligAtoms, cands, cutoff)
  {
    t := EmptyTable;
    for i := 0 to |ligAtoms|
      invariant t == ContactTable(ligAtoms[..i], cands, cutoff)
    {
      var la := ligAtoms[i];
      var neighbors := Neighbors(cands, la, cutoff);
      ghost var before := t;
      for j := 0 to |neighbors|
        invariant Valid(before)
        invariant t == FoldNeighbors(before, la, neighbors[..j])
      {
        assert neighbors[..j + 1][..j] == neighbors[..j];
        var pa := neighbors[j];
        assert FoldNeighbors(before, la, neighbors[..j + 1]) == Visit(t, la, pa);
        if !pa.site.res.isAA {
          continue;
        }
        var d := SqDist(la, pa.pos);
        var key := KeyOf(pa.site);
        ghost var prev := t;
        if key !in t.best {
          // the default of infinity is read, and any distance is below it
          t := Table(t.order + [key], t.best[key := d]);
        } else if d < t.best[key] {
          t := t.(best := t.best[key := d]);
        }
        assert t == InsertMin(prev, key, d);
      }
      assert ligAtoms[..i + 1][..i] == ligAtoms[..i];
      assert neighbors[..|neighbors|] == neighbors;
    }
    assert ligAtoms[..|ligAtoms|] == ligAtoms;
  }

  /** The inner loop never raises a value already in the table. */
  lemma {:induction false} FoldNeighborsNoRaise(t: Table, la: Point, ns: seq<ProteinAtom>)
    requires Valid(t)
    ensures forall k :: k in t.best ==> k in FoldNeighbors(t, la, ns).best && FoldNeighbors(t, la, ns).best[k] <= t.best[k]
  {
    if ns != [] {
      FoldNeighborsNoRaise(t, la, ns[..|ns| - 1]);
    }
  }

  /** After the inner loop each amino-acid neighbour's residue holds at
      most that neighbour's distance. */
  lemma {:induction false} FoldNeighborsBound(t: Table, la: Point, ns: seq<ProteinAtom>)
    requires Valid(t)
    ensures forall pa :: pa in ns && pa.site.res.isAA ==>
      KeyOf(pa.site) in FoldNeighbors(t, la, ns).best && FoldNeighbors(t, la, ns).best[KeyOf(pa.site)] <= SqDist(la, pa.pos)
  {
    if ns != [] {
      var init, last := ns[..|ns| - 1], ns[|ns| - 1];
      FoldNeighborsBound(t, la, init);
      assert ns == init + [last];
    }
  }

  /** Every value the inner loop leaves is an old one or the distance of an
      amino-acid neighbour of that residue. */
  lemma {:induction false} FoldNeighborsAttained(t: Table, la: Point, ns: seq<ProteinAtom>)
    requires Valid(t)
    ensures forall k :: k in FoldNeighbors(t, la, ns).best ==>
      (k in t.best && FoldNeighbors(t, la, ns).best[k] == t.best[k])
      || exists pa :: pa in ns && pa.site.res.isAA && KeyOf(pa.site) == k && SqDist(la, pa.pos) == FoldNeighbors(t, la, ns).best[k]
  {
    if ns != [] {
      var init, last := ns[..|ns| - 1], ns[|ns| - 1];
      FoldNeighborsAttained(t, la, init);
      assert ns == init + [last];
    }
  }

  /** Some ligand atom touches some atom of the residue with key `k`. */
  ghost predicate InContact(ligAtoms: seq<Point>, cands: seq<ProteinAtom>, cutoff: real, k: ResidueKey) {
    exists la, pa :: la in ligAtoms && pa in cands && Touches(la, pa, cutoff) && KeyOf(pa.site) == k
  }

  /** Some touching pair of atoms, the second of residue `k`, is `d` apart. */
  ghost predicate Attained(ligAtoms: seq<Point>, cands: seq<ProteinAtom>, cutoff: real, k: ResidueKey, d: real) {
    exists la, pa :: la in ligAtoms && pa in cands && Touches(la, pa, cutoff) && KeyOf(pa.site) == k && SqDist(la, pa.pos) == d
  }

  /** Every residue in the table is in contact. */
  lemma {:induction false} ContactTableKeysInContact(ligAtoms: seq<Point>, cands: seq<ProteinAtom>, cutoff: real)
    ensures forall k :: k in ContactTable(ligAtoms, cands, cutoff).best ==> InContact(ligAtoms, cands, cutoff, k)
  {
    if ligAtoms != [] {
      var init, la0 := ligAtoms[..|ligAtoms| - 1], ligAtoms[|ligAtoms| - 1];
      var t0 := ContactTable(init, cands, cutoff);
      var ns := Neighbors(cands, la0, cutoff);
      var t := ContactTable(ligAtoms, cands, cutoff);
      assert t == FoldNeighbors(t0, la0, ns);
      ContactTableKeysInContact(init, cands, cutoff);
      forall k | k in t.best
        ensures InContact(ligAtoms, cands, cutoff, k)
      {
        if k !in t0.best {
          var pa :| pa in ns && pa.site.res.isAA && KeyOf(pa.site) == k;
          assert Touches(la0, pa, cutoff);
          assert la0 in ligAtoms;
        } else {
          var la, pa :| la in init && pa in cands && Touches(la, pa, cutoff) && KeyOf(pa.site) == k;
          assert la in ligAtoms;
        }
      }
    }
  }

  /** Every residue in contact is in the table. */
  lemma {:induction false} ContactTableKeysCover(ligAtoms: seq<Point>, cands: seq<ProteinAtom>, cutoff: real)
    ensures forall k :: InContact(ligAtoms, cands, cutoff, k) ==> k in ContactTable(ligAtoms, cands, cutoff).best
  {
    if ligAtoms != [] {
      var init, la0 := ligAtoms[..|ligAtoms| - 1], ligAtoms[|ligAtoms| - 1];
      assert ligAtoms == init + [la0];
      var t0 := ContactTable(init, cands, cutoff);
      var ns := Neighbors(cands, la0, cutoff);
      var t := ContactTable(ligAtoms, cands, cutoff);
      assert t == FoldNeighbors(t0, la0, ns);
      ContactTableKeysCover(init, cands, cutoff);
      forall k | InContact(ligAtoms, cands, cutoff, k)
        ensures k in t.best
      {
        var la, pa :| la in ligAtoms && pa in cands && Touches(la, pa, cutoff) && KeyOf(pa.site) == k;
        if la == la0 {
          assert pa in ns;
        } else {
          assert la in init;
          assert InContact(init, cands, cutoff, k);
        }
      }
    }
  }

  /** Every value in the table is the distance of a touching pair. */
  lemma {:induction false} ContactTableValuesAttained(ligAtoms: seq<Point>, cands: seq<ProteinAtom>, cutoff: real)
    ensures forall k :: k in ContactTable(ligAtoms, cands, cutoff).best ==>
      Attained(ligAtoms, cands, cutoff, k, ContactTable(ligAtoms, cands, cutoff).best[k])
  {
    if ligAtoms != [] {
      var init, la0 := ligAtoms[..|ligAtoms| - 1], ligAtoms[|ligAtoms| - 1];
      assert ligAtoms == init + [la0];
      var t0 := ContactTable(init, cands, cutoff);
      var ns := Neighbors(cands, la0, cutoff);
      var t := ContactTable(ligAtoms, cands, cutoff);
      assert t == FoldNeighbors(t0, la0, ns);
      ContactTableValuesAttained(init, cands, cutoff);
      FoldNeighborsAttained(t0, la0, ns);
      forall k | k in t.best
        ensures Attained(ligAtoms, cands, cutoff, k, t.best[k])
      {
        if k in t0.best && t.best[k] == t0.best[k] {
          var la, pa :| la in init && pa in cands && Touches(la, pa, cutoff) && KeyOf(pa.site) == k
            && SqDist(la, pa.pos) == t0.best[k];
          assert la in ligAtoms;
        } else {
          var pa :| pa in ns && pa.site.res.isAA && KeyOf(pa.site) == k && SqDist(la0, pa.pos) == t.best[k];
          assert Touches(la0, pa, cutoff);
        }
      }
    }
  }

  /** No touching pair is closer than its residue's value in the table. */
  lemma {:induction false} ContactTableValuesMinimal(ligAtoms: seq<Point>, cands: seq<ProteinAtom>, cutoff: real)
    ensures forall la, pa :: la in ligAtoms && pa in cands && Touches(la, pa, cutoff) ==>
      && KeyOf(pa.site) in ContactTable(ligAtoms, cands, cutoff).best
      && ContactTable(ligAtoms, cands, cutoff).best[KeyOf(pa.site)] <= SqDist(la, pa.pos)
  {
    if ligAtoms != [] {
      var init, la0 := ligAtoms[..|ligAtoms| - 1], ligAtoms[|ligAtoms| - 1];
      assert ligAtoms == init + [la0];
      var t0 := ContactTable(init, cands, cutoff);
      var ns := Neighbors(cands, la0, cutoff);
      var t := ContactTable(ligAtoms, cands, cutoff);
      assert t == FoldNeighbors(t0, la0, ns);
      ContactTableValuesMinimal(init, cands, cutoff);
      FoldNeighborsNoRaise(t0, la0, ns);
      FoldNeighborsBound(t0, la0, ns);
      forall la, pa | la in ligAtoms && pa in cands && Touches(la, pa, cutoff)
        ensures KeyOf(pa.site) in t.best && t.best[KeyOf(pa.site)] <= SqDist(la, pa.pos)
      {
        if la == la0 {
          assert pa in ns;
        } else {
          assert la in init;
        }
      }
    }
  }

  /** The table holds exactly the residues in contact with the ligand
      instance, each with its minimum distance: a distance some touching pair
      attains, and no touching pair is closer. */
  lemma ContactTableSpec(ligAtoms: seq<Point>, cands: seq<ProteinAtom>, cutoff: real)
    ensures forall k :: k in ContactTable(ligAtoms, cands, cutoff).best <==> InContact(ligAtoms, cands, cutoff, k)
    ensures forall k :: k in ContactTable(ligAtoms, cands, cutoff).best ==>
      Attained(ligAtoms, cands, cutoff, k, ContactTable(ligAtoms, cands, cutoff).best[k])
    ensures forall la, pa :: la in ligAtoms && pa in cands && Touches(la, pa, cutoff) ==>
      && KeyOf(pa.site) in ContactTable(ligAtoms, cands, cutoff).best
      && ContactTable(ligAtoms, cands, cutoff).best[KeyOf(pa.site)] <= SqDist(la, pa.pos)
  {
    ContactTableKeysInContact(ligAtoms, cands, cutoff);
    ContactTableKeysCover(ligAtoms, cands, cutoff);
    ContactTableValuesAttained(ligAtoms, cands, cutoff);
    ContactTableValuesMinimal(ligAtoms, cands, cutoff);
  }

  /** A larger cutoff only adds residues: every residue found at the smaller
      cutoff is found at the larger one with the same minimum distance. */
  lemma CutoffMonotone(ligAtoms: seq<Point>, cands: seq<ProteinAtom>, r1: real, r2: real)
    requires r1 <= r2
    ensures var t1, t2 := ContactTable(ligAtoms, cands, r1), ContactTable(ligAtoms, cands, r2);
      && t1.best.Keys <= t2.best.Keys
      && forall k :: k in t1.best ==> t2.best[k] == t1.best[k]
  {
    forall k | k in ContactTable(ligAtoms, cands, r1).best
      ensures k in ContactTable(ligAtoms, cands, r2).best
      ensures ContactTable(ligAtoms, cands, r2).best[k] == ContactTable(ligAtoms, cands, r1).best[k]
    {
      CutoffMonotoneAt(ligAtoms, cands, r1, r2, k);
    }
  }

  /** `ContactTableValuesAttained` at one key. */
  lemma ContactTableAttainedAt(ligAtoms: seq<Point>, cands: seq<ProteinAtom>, cutoff: real, k: ResidueKey)
    requires k in ContactTable(ligAtoms, cands, cutoff).best
    ensures Attained(ligAtoms, cands, cutoff, k, ContactTable(ligAtoms, cands, cutoff).best[k])
  {
    ContactTableValuesAttained(ligAtoms, cands, cutoff);
  }

  /** `ContactTableValuesMinimal` at one pair of atoms. */
  lemma ContactTableMinimalAt(ligAtoms: seq<Point>, cands: seq<ProteinAtom>, cutoff: real, la: Point, pa: ProteinAtom)
    requires la in ligAtoms && pa in cands && Touches(la, pa, cutoff)
    ensures KeyOf(pa.site) in ContactTable(ligAtoms, cands, cutoff).best
    ensures ContactTable(ligAtoms, cands, cutoff).best[KeyOf(pa.site)] <= SqDist(la, pa.pos)
  {
    ContactTableValuesMinimal(ligAtoms, cands, cutoff);
  }

  lemma CutoffMonotoneAt(ligAtoms: seq<Point>, cands: seq<ProteinAtom>, r1: real, r2: real, k: ResidueKey)
    requires r1 <= r2
    requires k in ContactTable(ligAtoms, cands, r1).best
    ensures k in ContactTable(ligAtoms, cands, r2).best
    ensures ContactTable(ligAtoms, cands, r2).best[k] == ContactTable(ligAtoms, cands, r1).best[k]
  {
    var t1, t2 := ContactTable(ligAtoms, cands, r1), ContactTable(ligAtoms, cands, r2);
    ContactTableAttainedAt(ligAtoms, cands, r1, k);
    var la, pa :| la in ligAtoms && pa in cands && Touches(la, pa, r1) && KeyOf(pa.site) == k
      && SqDist(la, pa.pos) == t1.best[k];
    WithinMonotone(la, pa.pos, r1, r2);
    ContactTableMinimalAt(ligAtoms, cands, r2, la, pa);
    ContactTableAttainedAt(ligAtoms, cands, r2, k);
    var la', pa' :| la' in ligAtoms && pa' in cands && Touches(la', pa', r2) && KeyOf(pa'.site) == k
      && SqDist(la', pa'.pos) == t2.best[k];
    if t2.best[k] < t1.best[k] {
      assert Within(la', pa'.pos, r1);
      ContactTableMinimalAt(ligAtoms, cands, r1, la', pa');
    }
  }
}
