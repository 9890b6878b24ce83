/** The report step of `find_contacts_cif` (contacts_cif.py:105-120): the
    entries of one ligand instance's table, sorted by chain, residue number
    and distance, become that instance's contact records. */
module Report {
  import opened Text
  import opened Hierarchy
  import opened Contacts

  /** One `(key, value)` item of `contacts_min`. */
  datatype Row = Row(key: ResidueKey, dist: real)

  /** `contacts_min.items()`: the entries, in insertion order. */
  function Items(t: Table): (rows: seq<Row>)
    requires Valid(t)
    ensures |rows| == |t.order|
    ensures forall i :: 0 <= i < |rows| ==> rows[i].key == t.order[i]
  {
    seq(|t.order|, i requires 0 <= i < |t.order| => Row(t.order[i], t.best[t.order[i]]))
  }

  /** The items list every entry of the table once: a row is an item
      exactly when it is an entry, and no two items are equal. */
  lemma ItemsAreEntries(t: Table)
    requires Valid(t)
    ensures forall r :: r in Items(t) <==> r.key in t.best && r.dist == t.best[r.key]
    ensures forall i, j :: 0 <= i < j < |Items(t)| ==> Items(t)[i] != Items(t)[j]
  {
    var rows := Items(t);
    forall r: Row | r.key in t.best && r.dist == t.best[r.key]
      ensures r in rows
    {
      var i :| 0 <= i < |t.order| && t.order[i] == r.key;
      assert rows[i] == r;
    }
  }

  /** The sort key `(chain, resnum, distance)` of line 106. */
  datatype SortKey = SortKey(chain: string, resnum: int, dist: real)

  function RowKey(r: Row): SortKey {
    SortKey(r.key.chain, r.key.resseq, r.dist)
  }

  /** Python's `<` on the tuple: chain ids as strings, then residue numbers,
      then distances. */
  predicate KeyLt(a: SortKey, b: SortKey) {
    || StrLt(a.chain, b.chain)
    || (a.chain == b.chain && a.resnum < b.resnum)
    || (a.chain == b.chain && a.resnum == b.resnum && a.dist < b.dist)
  }

  lemma KeyLtIrreflexive(a: SortKey)
    ensures !KeyLt(a, a)
  {
    StrLtIrreflexive(a.chain);
  }

  lemma KeyLtAsymmetric(a: SortKey, b: SortKey)
    requires KeyLt(a, b)
    ensures !KeyLt(b, a)
  {
    if StrLt(a.chain, b.chain) {
      StrLtAsymmetric(a.chain, b.chain);
    } else {
      StrLtIrreflexive(a.chain);
    }
  }

  lemma KeyLtTransitive(a: SortKey, b: SortKey, c: SortKey)
    requires KeyLt(a, b) && KeyLt(b, c)
    ensures KeyLt(a, c)
  {
    if StrLt(a.chain, b.chain) && StrLt(b.chain, c.chain) {
      StrLtTransitive(a.chain, b.chain, c.chain);
    }
  }

  /** "Not after" is transitive: what `sorted` needs of its key. */
  lemma KeyLeTransitive(a: SortKey, b: SortKey, c: SortKey)
    requires !KeyLt(b, a) && !KeyLt(c, b)
    ensures !KeyLt(c, a)
  {
    KeyLtTotal(a, b);
    KeyLtTotal(b, c);
    if a != b && b != c {
      KeyLtTransitive(a, b, c);
      KeyLtAsymmetric(a, c);
    }
  }

  lemma KeyLtTotal(a: SortKey, b: SortKey)
    ensures a == b || KeyLt(a, b) || KeyLt(b, a)
  {
    StrLtTrichotomy(a.chain, b.chain);
  }

  /** No row comes after a row that should follow it. */
  predicate Sorted(rows: seq<Row>) {
    forall i, j :: 0 <= i < j < |rows| ==> !KeyLt(RowKey(rows[j]), RowKey(rows[i]))
  }

  /** Puts `x` into `ys` after every row that sorts strictly before it and
      before the rest. */
  function InsertRow(x: Row, ys: seq<Row>): seq<Row> {
    if ys == [] then [x]
    else if KeyLt(RowKey(ys[0]), RowKey(x)) then [ys[0]] + InsertRow(x, ys[1..])
    else [x] + ys
  }

  lemma {:induction false} InsertRowSpec(x: Row, ys: seq<Row>)
    requires Sorted(ys)
    ensures Sorted(InsertRow(x, ys))
    ensures multiset(InsertRow(x, ys)) == multiset(ys) + multiset{x}
  {
    if ys != [] {
      var r := InsertRow(x, ys);
      if KeyLt(RowKey(ys[0]), RowKey(x)) {
        var tail := InsertRow(x, ys[1..]);
        InsertRowSpec(x, ys[1..]);
        assert ys == [ys[0]] + ys[1..];
        forall j | 0 < j < |r|
          ensures !KeyLt(RowKey(r[j]), RowKey(r[0]))
        {
          assert r[j] in multiset(tail);
          if r[j] == x {
            KeyLtAsymmetric(RowKey(ys[0]), RowKey(x));
          } else {
            assert r[j] in ys[1..];
          }
        }
      } else {
        forall j | 0 < j < |r|
          ensures !KeyLt(RowKey(r[j]), RowKey(r[0]))
        {
          if j > 1 {
            KeyLeTransitive(RowKey(x), RowKey(ys[0]), RowKey(r[j]));
          }
        }
      }
    }
  }

  /** `sorted(rows, key=...)`: an insertion sort, which like Python's sort
      is stable. */
  function SortRows(rows: seq<Row>): (r: seq<Row>)
    ensures Sorted(r)
    ensures multiset(r) == multiset(rows)
  {
    if rows == [] then []
    else
      var rest := SortRows(rows[1..]);
      InsertRowSpec(rows[0], rest);
      assert rows == [rows[0]] + rows[1..];
      InsertRow(rows[0], rest)
  }

  /** The rows of `rows` whose sort key is `k`, in order. */
  function Ties(rows: seq<Row>, k: SortKey): seq<Row> {
    if rows == [] then []
    else (if RowKey(rows[0]) == k then [rows[0]] else []) + Ties(rows[1..], k)
  }

  lemma {:induction false} InsertRowTies(x: Row, ys: seq<Row>, k: SortKey)
    ensures Ties(InsertRow(x, ys), k) == (if RowKey(x) == k then [x] else []) + Ties(ys, k)
  {
    if ys != [] && KeyLt(RowKey(ys[0]), RowKey(x)) {
      InsertRowTies(x, ys[1..], k);
      if RowKey(x) == k {
        KeyLtIrreflexive(k);
      }
      assert ([ys[0]] + InsertRow(x, ys[1..]))[1..] == InsertRow(x, ys[1..]);
    } else {
      assert ([x] + ys)[1..] == ys;
    }
  }

  /** The sort is stable: rows with equal sort keys keep their relative
      order, so ties follow the table's insertion order. */
  lemma {:induction false} SortRowsStable(rows: seq<Row>, k: SortKey)
    ensures Ties(SortRows(rows), k) == Ties(rows, k)
  {
    if rows != [] {
      SortRowsStable(rows[1..], k);
      InsertRowTies(rows[0], SortRows(rows[1..]), k);
    }
  }

  /** One entry of `report["contacts"]`. The distance is the squared
      distance, unrounded. */
  datatype Contact = Contact(resname: string, chain: string, resnum: int, icode: string, minDistance: real)

  /** `{"ligand": label, "contacts": [...]}`. */
  datatype LigandReport = LigandReport(ligand: string, contacts: seq<Contact>)

  function ToContact(r: Row): Contact {
    Contact(r.key.resname, r.key.chain, r.key.resseq, r.key.icode, r.dist)
  }

  /** The records of `rows`, one per row and in the same order; each keeps
      its row's residue key and distance. */
  function ToContacts(rows: seq<Row>): (cs: seq<Contact>)
    ensures |cs| == |rows|
    ensures forall i :: 0 <= i < |rows| ==> ContactKey(cs[i]) == rows[i].key && cs[i].minDistance == rows[i].dist
  {
    seq(|rows|, i requires 0 <= i < |rows| => ToContact(rows[i]))
  }

  /** The residue key a contact record stands for. */
  function ContactKey(c: Contact): ResidueKey {
    ResidueKey(c.resname, c.chain, c.resnum, c.icode)
  }

  function ContactSortKey(c: Contact): SortKey {
    SortKey(c.chain, c.resnum, c.minDistance)
  }

  /** The report of one ligand instance (contacts_cif.py:81-120): labelled
      with the instance's formatted key, one record per entry of its table,
      in sort order. */
  function ReportFor(lig: Site, cands: seq<ProteinAtom>, cutoff: real): (rep: LigandReport)
    ensures rep.ligand == FormatResidueKey(KeyOf(lig))
    ensures |rep.contacts| == |ContactTable(lig.res.atoms, cands, cutoff).order|
    ensures RecordsSorted(rep.contacts)
  {
    var rows := SortRows(Items(ContactTable(lig.res.atoms, cands, cutoff)));
    var cs := ToContacts(rows);
    assert forall i :: 0 <= i < |cs| ==> ContactSortKey(cs[i]) == RowKey(rows[i]);
    LigandReport(LigandLabel(lig), cs)
  }

  /** Each record names a residue in contact with the ligand and carries
      that residue's minimum distance: attained by a touching pair of atoms,
      and no touching pair of atoms closer. */
  ghost predicate RecordsAreMinima(cs: seq<Contact>, las: seq<Point>, cands: seq<ProteinAtom>, cutoff: real) {
    && (forall i :: 0 <= i < |cs| ==> Attained(las, cands, cutoff, ContactKey(cs[i]), cs[i].minDistance))
    && (forall i, la, pa :: 0 <= i < |cs| && la in las && pa in cands && Touches(la, pa, cutoff) && KeyOf(pa.site) == ContactKey(cs[i]) ==>
          cs[i].minDistance <= SqDist(la, pa.pos))
  }

  /** Every residue in contact with the ligand has a record. */
  ghost predicate RecordsCover(cs: seq<Contact>, las: seq<Point>, cands: seq<ProteinAtom>, cutoff: real) {
    forall k :: InContact(las, cands, cutoff, k) ==> exists i :: 0 <= i < |cs| && ContactKey(cs[i]) == k
  }

  /** No residue has two records. */
  predicate RecordsDistinct(cs: seq<Contact>) {
    forall i, j :: 0 <= i < j < |cs| ==> ContactKey(cs[i]) != ContactKey(cs[j])
  }

  /** Records are ordered by chain, then residue number, then distance. */
  predicate RecordsSorted(cs: seq<Contact>) {
    forall i, j :: 0 <= i < j < |cs| ==> !KeyLt(ContactSortKey(cs[j]), ContactSortKey(cs[i]))
  }

  /** What the report of ligand instance `lig` must be: labelled with the
      ligand's formatted key, with one record per residue in contact, each
      carrying its minimum distance, in sorted order. */
  ghost predicate ReportMeets(rep: LigandReport, lig: Site, cands: seq<ProteinAtom>, cutoff: real) {
    && rep.ligand == FormatResidueKey(KeyOf(lig))
    && RecordsAreMinima(rep.contacts, lig.res.atoms, cands, cutoff)
    && RecordsCover(rep.contacts, lig.res.atoms, cands, cutoff)
    && RecordsDistinct(rep.contacts)
    && RecordsSorted(rep.contacts)
  }

  lemma {:induction false} CountAtMostOne(s: seq<Row>, x: Row)
    requires forall i, j :: 0 <= i < j < |s| ==> s[i] != s[j]
    ensures multiset(s)[x] <= 1
  {
    if s != [] {
      CountAtMostOne(s[1..], x);
      assert s == [s[0]] + s[1..];
      if s[0] == x {
        assert x !in s[1..];
      }
    }
  }

  lemma CountAtLeastTwo(s: seq<Row>, i: nat, j: nat)
    requires i < j < |s| && s[i] == s[j]
    ensures multiset(s)[s[i]] >= 2
  {
    assert s == s[..j] + s[j..];
    assert s[i] in s[..j];
    assert s[j] in s[j..];
  }

  /** A permutation of a list without repeats has no repeats. */
  lemma PermutationDistinct(a: seq<Row>, b: seq<Row>)
    requires multiset(a) == multiset(b)
    requires forall i, j :: 0 <= i < j < |b| ==> b[i] != b[j]
    ensures forall i, j :: 0 <= i < j < |a| ==> a[i] != a[j]
  {
    forall i, j | 0 <= i < j < |a|
      ensures a[i] != a[j]
    {
      if a[i] == a[j] {
        CountAtLeastTwo(a, i, j);
        CountAtMostOne(b, a[i]);
      }
    }
  }

  /** The sorted items are the table's entries, each exactly once: every
      row is an entry, every key has a row, and no two rows share a key. */
  lemma SortedItemsAreEntries(t: Table)
    requires Valid(t)
    ensures forall i :: 0 <= i < |SortRows(Items(t))| ==>
      SortRows(Items(t))[i].key in t.best && SortRows(Items(t))[i].dist == t.best[SortRows(Items(t))[i].key]
    ensures forall k :: k in t.best ==> exists i :: 0 <= i < |SortRows(Items(t))| && SortRows(Items(t))[i].key == k
    ensures forall i, j :: 0 <= i < j < |SortRows(Items(t))| ==> SortRows(Items(t))[i].key != SortRows(Items(t))[j].key
  {
    var items := Items(t);
    var rows := SortRows(items);
    ItemsAreEntries(t);
    forall r: Row
      ensures r in rows <==> r in items
    {
      assert r in rows <==> r in multiset(rows);
    }
    forall i | 0 <= i < |rows|
      ensures rows[i].key in t.best && rows[i].dist == t.best[rows[i].key]
    {
      assert rows[i] in rows;
    }
    forall k | k in t.best
      ensures exists i :: 0 <= i < |rows| && rows[i].key == k
    {
      assert Row(k, t.best[k]) in rows;
    }
    PermutationDistinct(rows, items);
  }

  /** Each record of a report carries its residue's minimum distance. */
  lemma ReportRecordsAreMinima(lig: Site, cands: seq<ProteinAtom>, cutoff: real)
    ensures RecordsAreMinima(ReportFor(lig, cands, cutoff).contacts, lig.res.atoms, cands, cutoff)
  {
    var las := lig.res.atoms;
    var t := ContactTable(las, cands, cutoff);
    var rows := SortRows(Items(t));
    var cs := ReportFor(lig, cands, cutoff).contacts;
    assert cs == ToContacts(rows);
    SortedItemsAreEntries(t);
    ContactTableSpec(las, cands, cutoff);
    assert forall i :: 0 <= i < |cs| ==> ContactKey(cs[i]) == rows[i].key && cs[i].minDistance == t.best[rows[i].key];
  }

  /** Every residue in contact has a record in the report. */
  lemma ReportRecordsCover(lig: Site, cands: seq<ProteinAtom>, cutoff: real)
    ensures RecordsCover(ReportFor(lig, cands, cutoff).contacts, lig.res.atoms, cands, cutoff)
  {
    var las := lig.res.atoms;
    var t := ContactTable(las, cands, cutoff);
    var rows := SortRows(Items(t));
    var cs := ReportFor(lig, cands, cutoff).contacts;
    assert cs == ToContacts(rows);
    SortedItemsAreEntries(t);
    ContactTableSpec(las, cands, cutoff);
    forall k | InContact(las, cands, cutoff, k)
      ensures exists i :: 0 <= i < |cs| && ContactKey(cs[i]) == k
    {
      var i :| 0 <= i < |rows| && rows[i].key == k;
      assert ContactKey(cs[i]) == k;
    }
  }

  /** No residue has two records in a report. */
  lemma ReportRecordsDistinct(lig: Site, cands: seq<ProteinAtom>, cutoff: real)
    ensures RecordsDistinct(ReportFor(lig, cands, cutoff).contacts)
  {
    var t := ContactTable(lig.res.atoms, cands, cutoff);
    var rows := SortRows(Items(t));
    var cs := ReportFor(lig, cands, cutoff).contacts;
    assert cs == ToContacts(rows);
    SortedItemsAreEntries(t);
    assert forall i :: 0 <= i < |cs| ==> ContactKey(cs[i]) == rows[i].key;
  }

  /** The report of a ligand instance is right: see `ReportMeets`. */
  lemma ReportForCorrect(lig: Site, cands: seq<ProteinAtom>, cutoff: real)
    ensures ReportMeets(ReportFor(lig, cands, cutoff), lig, cands, cutoff)
  {
    ReportRecordsAreMinima(lig, cands, cutoff);
    ReportRecordsCover(lig, cands, cutoff);
    ReportRecordsDistinct(lig, cands, cutoff);
  }
}
