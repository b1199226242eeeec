/** Protein reconciliation (`Collector.protein` with its helpers
    `_remove_not_defined_columns` and `_get_existent_proteines`).

    Incoming rows are projected onto the defined columns and their ids are
    nulled; the stored rows with a matching accession are appended after
    them; the concatenation is grouped by accession, each group is folded by
    `MergeProteinValues` from its first row, and the result is split into
    rows to insert (no id) and rows to update (a stored id). */
module ProteinReconcile {
  import opened Common
  import opened ProteinMerge
  import Columns

  /** A protein record appended to the table: the merged row without `id`. */
  datatype NewProtein = NewProtein(uniprot: Uniprot, fields: map<Column, Value>, flags: set<Flag>)

  /** What one protein import writes: rows to append and rows to update. */
  datatype ProteinPlan = ProteinPlan(inserts: seq<NewProtein>, updates: seq<ProteinRow>)

  /** The accession column of a frame. */
  function Uniprots(rows: seq<ProteinRow>): (keys: seq<Uniprot>)
    ensures |keys| == |rows|
    ensures forall i :: 0 <= i < |rows| ==> keys[i] == rows[i].uniprot
  {
    if |rows| == 0 then [] else Uniprots(rows[..|rows| - 1]) + [rows[|rows| - 1].uniprot]
  }

  lemma UniprotsConcat(a: seq<ProteinRow>, b: seq<ProteinRow>)
    ensures Uniprots(a + b) == Uniprots(a) + Uniprots(b)
  {
  }

  /** The non-null cells of `fields` that lie in the kept columns. */
  function ProjectFields(fields: map<Column, Value>, kept: seq<Column>): map<Column, Value>
  {
    map c | c in fields && c in kept :: fields[c]
  }

  /** The incoming frame after `id` is nulled and the descriptive columns
      are projected onto `kept`. */
  function Prepare(rows: seq<ProteinRow>, kept: seq<Column>): (prepared: seq<ProteinRow>)
    ensures |prepared| == |rows|
    ensures forall i :: 0 <= i < |rows| ==> prepared[i].id.None? && prepared[i].uniprot == rows[i].uniprot
    // a cell survives exactly when its column is kept; flags are untouched
    ensures forall i :: 0 <= i < |rows| ==>
              prepared[i].flags == rows[i].flags &&
              forall c :: Lookup(prepared[i].fields, c) == if c in kept then Lookup(rows[i].fields, c) else None
  {
    seq(|rows|, i requires 0 <= i < |rows| =>
      ProteinRow(rows[i].uniprot, None, ProjectFields(rows[i].fields, kept), rows[i].flags))
  }

  /** Which stored rows carry an accession that occurs among the incoming rows. */
  function ExistentMask(stored: seq<ProteinRow>, incoming: seq<ProteinRow>): (mask: seq<bool>)
    ensures |mask| == |stored|
    ensures forall i :: 0 <= i < |stored| ==> (mask[i] <==> stored[i].uniprot in Uniprots(incoming))
  {
    seq(|stored|, i requires 0 <= i < |stored| => stored[i].uniprot in Uniprots(incoming))
  }

  /** `_get_existent_proteines`: the stored rows whose accession occurs among
      the incoming rows, in table order. */
  function ExistentProteins(stored: seq<ProteinRow>, incoming: seq<ProteinRow>): (found: seq<ProteinRow>)
    ensures var ix := Positions(ExistentMask(stored, incoming));
            |found| == |ix| && forall k :: 0 <= k < |found| ==> found[k] == stored[ix[k]]
    ensures forall r <- found :: r.uniprot in Uniprots(incoming)
  {
    if |stored| == 0 then []
    else
      var n := |stored| - 1;
      assert ExistentMask(stored, incoming)[..n] == ExistentMask(stored[..n], incoming);
      var found := ExistentProteins(stored[..n], incoming);
      if stored[n].uniprot in Uniprots(incoming) then found + [stored[n]] else found
  }

  /** The rows of a frame with accession `u`, in frame order. */
  function Group(rows: seq<ProteinRow>, u: Uniprot): (group: seq<ProteinRow>)
    ensures forall r <- group :: r.uniprot == u
  {
    if |rows| == 0 then []
    else
      var group := Group(rows[..|rows| - 1], u);
      if rows[|rows| - 1].uniprot == u then group + [rows[|rows| - 1]] else group
  }

  /** A group holds rows of the frame, and it is non-empty exactly when the
      accession occurs in the frame. */
  lemma {:induction false} GroupFacts(rows: seq<ProteinRow>, u: Uniprot)
    ensures forall r <- Group(rows, u) :: r in rows
    ensures |Group(rows, u)| > 0 <==> u in Uniprots(rows)
  {
    if |rows| > 0 {
      var n := |rows| - 1;
      GroupFacts(rows[..n], u);
      assert Uniprots(rows) == Uniprots(rows[..n]) + [rows[n].uniprot];
      assert forall r <- rows[..n] :: r in rows;
    }
  }

  /** Which rows of a frame have accession `u`. */
  function KeyMask(rows: seq<ProteinRow>, u: Uniprot): (mask: seq<bool>)
    ensures |mask| == |rows|
    ensures forall i :: 0 <= i < |rows| ==> (mask[i] <==> rows[i].uniprot == u)
  {
    seq(|rows|, i requires 0 <= i < |rows| => rows[i].uniprot == u)
  }

  /** A group is the row filter `rows[rows['uniprot'] == u]`: every row with
      accession `u`, in frame order, and nothing else. */
  lemma {:induction false} GroupIsFilter(rows: seq<ProteinRow>, u: Uniprot)
    ensures var ix := Positions(KeyMask(rows, u));
            |Group(rows, u)| == |ix| && forall k :: 0 <= k < |ix| ==> Group(rows, u)[k] == rows[ix[k]]
  {
    if |rows| > 0 {
      var n := |rows| - 1;
      var front := rows[..n];
      GroupIsFilter(front, u);
      var ix0 := Positions(KeyMask(front, u));
      var g0 := Group(front, u);
      assert KeyMask(rows, u)[..n] == KeyMask(front, u);
      var hit := rows[n].uniprot == u;
      assert Positions(KeyMask(rows, u)) == if hit then ix0 + [n] else ix0;
      assert Group(rows, u) == if hit then g0 + [rows[n]] else g0;
      forall k | 0 <= k < |ix0|
        ensures ix0[k] < |rows| && g0[k] == rows[ix0[k]]
      {
        assert front[ix0[k]] == rows[ix0[k]];
      }
      PickedSnoc(rows, ix0, g0, hit);
    }
  }

  lemma {:induction false} GroupConcat(a: seq<ProteinRow>, b: seq<ProteinRow>, u: Uniprot)
    ensures Group(a + b, u) == Group(a, u) + Group(b, u)
  {
    if |b| == 0 {
      assert a + b == a;
    } else {
      var front := b[..|b| - 1];
      GroupConcat(a, front, u);
      GroupAppend(a, front, b[|b| - 1], u);
      assert front + [b[|b| - 1]] == b;
    }
  }

  /** The inductive step of `GroupConcat`: appending one row. */
  lemma GroupAppend(a: seq<ProteinRow>, front: seq<ProteinRow>, x: ProteinRow, u: Uniprot)
    requires Group(a + front, u) == Group(a, u) + Group(front, u)
    ensures Group(a + (front + [x]), u) == Group(a, u) + Group(front + [x], u)
  {
    var rows := a + (front + [x]);
    var b := front + [x];
    assert rows[..|rows| - 1] == a + front;
    assert rows[|rows| - 1] == x;
    assert b[..|b| - 1] == front;
    assert b[|b| - 1] == x;
    if x.uniprot == u {
      assert Group(rows, u) == Group(a + front, u) + [x];
      assert Group(b, u) == Group(front, u) + [x];
    } else {
      assert Group(rows, u) == Group(a + front, u);
      assert Group(b, u) == Group(front, u);
    }
  }

  /** Grouping the fetched stored rows by an incoming accession gives every
      stored row with that accession. */
  lemma {:induction false} GroupOfExistent(stored: seq<ProteinRow>, incoming: seq<ProteinRow>, u: Uniprot)
    requires u in Uniprots(incoming)
    ensures Group(ExistentProteins(stored, incoming), u) == Group(stored, u)
  {
    if |stored| > 0 {
      var n := |stored| - 1;
      GroupOfExistent(stored[..n], incoming, u);
      var found := ExistentProteins(stored[..n], incoming);
      if stored[n].uniprot in Uniprots(incoming) {
        assert (found + [stored[n]])[..|found|] == found;
      }
    }
  }

  /** `drop_duplicates(subset=['uniprot'])`: the first row of every accession. */
  function DropDuplicates(rows: seq<ProteinRow>): (unique: seq<ProteinRow>)
    ensures Uniprots(unique) == Dedupe(Uniprots(rows))
    ensures forall k :: 0 <= k < |unique| ==>
              |Group(rows, unique[k].uniprot)| > 0 && Group(rows, unique[k].uniprot)[0] == unique[k]
  {
    if |rows| == 0 then []
    else
      var n := |rows| - 1;
      var unique := DropDuplicates(rows[..n]);
      DropDuplicatesStep(rows, unique);
      if rows[n].uniprot in Uniprots(unique) then unique else unique + [rows[n]]
  }

  /** The inductive step of `DropDuplicates`, from `rows[..|rows| - 1]` to `rows`. */
  lemma DropDuplicatesStep(rows: seq<ProteinRow>, unique: seq<ProteinRow>)
    requires |rows| > 0
    requires Uniprots(unique) == Dedupe(Uniprots(rows[..|rows| - 1]))
    requires forall k :: 0 <= k < |unique| ==>
               |Group(rows[..|rows| - 1], unique[k].uniprot)| > 0 &&
               Group(rows[..|rows| - 1], unique[k].uniprot)[0] == unique[k]
    ensures var r := if rows[|rows| - 1].uniprot in Uniprots(unique) then unique else unique + [rows[|rows| - 1]];
            && Uniprots(r) == Dedupe(Uniprots(rows))
            && forall k :: 0 <= k < |r| ==> |Group(rows, r[k].uniprot)| > 0 && Group(rows, r[k].uniprot)[0] == r[k]
  {
    DropDuplicatesKeysStep(rows, unique);
    DropDuplicatesFirstStep(rows, unique);
  }

  /** The key half of `DropDuplicatesStep`. */
  lemma DropDuplicatesKeysStep(rows: seq<ProteinRow>, unique: seq<ProteinRow>)
    requires |rows| > 0
    requires Uniprots(unique) == Dedupe(Uniprots(rows[..|rows| - 1]))
    ensures var r := if rows[|rows| - 1].uniprot in Uniprots(unique) then unique else unique + [rows[|rows| - 1]];
            Uniprots(r) == Dedupe(Uniprots(rows))
  {
    var n := |rows| - 1;
    var last := rows[n];
    var keys := Uniprots(rows);
    assert keys[..n] == Uniprots(rows[..n]);
    assert keys[n] == last.uniprot;
    assert Dedupe(keys) == if last.uniprot in Dedupe(keys[..n]) then Dedupe(keys[..n]) else Dedupe(keys[..n]) + [last.uniprot];
    if last.uniprot !in Uniprots(unique) {
      UniprotsConcat(unique, [last]);
    }
  }

  /** The first-row half of `DropDuplicatesStep`. */
  lemma DropDuplicatesFirstStep(rows: seq<ProteinRow>, unique: seq<ProteinRow>)
    requires |rows| > 0
    requires Uniprots(unique) == Dedupe(Uniprots(rows[..|rows| - 1]))
    requires forall k :: 0 <= k < |unique| ==>
               |Group(rows[..|rows| - 1], unique[k].uniprot)| > 0 &&
               Group(rows[..|rows| - 1], unique[k].uniprot)[0] == unique[k]
    ensures var r := if rows[|rows| - 1].uniprot in Uniprots(unique) then unique else unique + [rows[|rows| - 1]];
            forall k :: 0 <= k < |r| ==> |Group(rows, r[k].uniprot)| > 0 && Group(rows, r[k].uniprot)[0] == r[k]
  {
    var n := |rows| - 1;
    var last := rows[n];
    FirstRowsStable(rows, unique);
    if last.uniprot !in Uniprots(unique) {
      assert last.uniprot !in Dedupe(Uniprots(rows[..n]));
      FirstRowOfNewKey(rows);
      var r := unique + [last];
      forall k | 0 <= k < |r|
        ensures |Group(rows, r[k].uniprot)| > 0 && Group(rows, r[k].uniprot)[0] == r[k]
      {
        if k < |unique| {
          assert r[k] == unique[k];
        } else {
          assert r[k] == last;
        }
      }
    }
  }

  /** Appending a row keeps the first row of every group already present. */
  lemma FirstRowsStable(rows: seq<ProteinRow>, unique: seq<ProteinRow>)
    requires |rows| > 0
    requires forall k :: 0 <= k < |unique| ==>
               |Group(rows[..|rows| - 1], unique[k].uniprot)| > 0 &&
               Group(rows[..|rows| - 1], unique[k].uniprot)[0] == unique[k]
    ensures forall k :: 0 <= k < |unique| ==>
              |Group(rows, unique[k].uniprot)| > 0 && Group(rows, unique[k].uniprot)[0] == unique[k]
  {
    forall k | 0 <= k < |unique|
      ensures |Group(rows, unique[k].uniprot)| > 0 && Group(rows, unique[k].uniprot)[0] == unique[k]
    {
      GroupFirstStable(rows, unique[k].uniprot);
    }
  }

  /** A row whose accession did not occur before starts that accession's group. */
  lemma FirstRowOfNewKey(rows: seq<ProteinRow>)
    requires |rows| > 0
    requires rows[|rows| - 1].uniprot !in Uniprots(rows[..|rows| - 1])
    ensures var last := rows[|rows| - 1];
            |Group(rows, last.uniprot)| > 0 && Group(rows, last.uniprot)[0] == last
  {
    var n := |rows| - 1;
    GroupFacts(rows[..n], rows[n].uniprot);
    GroupFirstStable(rows, rows[n].uniprot);
  }

  /** Extending a frame by one row keeps the first row of every non-empty
      group, and starts the group of a new accession with that row. */
  lemma GroupFirstStable(rows: seq<ProteinRow>, u: Uniprot)
    requires |rows| > 0
    ensures var g := Group(rows[..|rows| - 1], u);
            && (|g| > 0 ==> Group(rows, u)[0] == g[0])
            && (|g| == 0 && rows[|rows| - 1].uniprot == u ==> Group(rows, u) == [rows[|rows| - 1]])
  {
  }

  /** Appending keys that already occur does not change the distinct keys. */
  lemma {:induction false} DedupeAbsorbs(a: seq<Uniprot>, b: seq<Uniprot>)
    requires forall x <- b :: x in a
    ensures Dedupe(a + b) == Dedupe(a)
  {
    if |b| > 0 {
      var n := |b| - 1;
      assert (a + b)[..|a + b| - 1] == a + b[..n];
      DedupeAbsorbs(a, b[..n]);
      assert b[n] in a;
    } else {
      assert a + b == a;
    }
  }

  /** The frame the reconciler groups: prepared incoming rows, then the
      stored rows with a matching accession. */
  function AllRows(incoming: seq<ProteinRow>, stored: seq<ProteinRow>, kept: seq<Column>): seq<ProteinRow>
  {
    Prepare(incoming, kept) + ExistentProteins(stored, Prepare(incoming, kept))
  }

  /** The accessions of the de-duplicated frame are the distinct incoming
      accessions: the stored rows appended after the input add none. */
  lemma UniqueKeys(incoming: seq<ProteinRow>, stored: seq<ProteinRow>, kept: seq<Column>)
    ensures Uniprots(DropDuplicates(AllRows(incoming, stored, kept))) == Dedupe(Uniprots(incoming))
  {
    var prepared := Prepare(incoming, kept);
    var found := ExistentProteins(stored, prepared);
    assert Uniprots(prepared) == Uniprots(incoming);
    UniprotsConcat(prepared, found);
    DedupeAbsorbs(Uniprots(prepared), Uniprots(found));
  }

  /** The reconciled frame: one merged row per distinct incoming accession,
      in order of first occurrence. */
  function Merged(incoming: seq<ProteinRow>, stored: seq<ProteinRow>, kept: seq<Column>): (merged: seq<ProteinRow>)
    ensures Uniprots(merged) == Dedupe(Uniprots(incoming))
  {
    var all := AllRows(incoming, stored, kept);
    var unique := DropDuplicates(all);
    UniqueKeys(incoming, stored, kept);
    FoldKeys(all, unique);
    FoldGroups(all, unique)
  }

  /** Each first row merged with its whole group. */
  function FoldGroups(all: seq<ProteinRow>, unique: seq<ProteinRow>): seq<ProteinRow>
  {
    seq(|unique|, k requires 0 <= k < |unique| => MergeProteinValues(unique[k], Group(all, unique[k].uniprot)))
  }

  /** Folding each row's group keeps the row's accession. */
  lemma FoldKeys(all: seq<ProteinRow>, unique: seq<ProteinRow>)
    requires forall k :: 0 <= k < |unique| ==> |Group(all, unique[k].uniprot)| > 0
    ensures Uniprots(FoldGroups(all, unique)) == Uniprots(unique)
  {
    var merged := FoldGroups(all, unique);
    forall k | 0 <= k < |unique|
      ensures Uniprots(merged)[k] == Uniprots(unique)[k]
    {
      var g := Group(all, unique[k].uniprot);
      assert g[|g| - 1] in g;
    }
  }

  /** Which reconciled rows carry no id. */
  function NoIdMask(rows: seq<ProteinRow>): (mask: seq<bool>)
    ensures |mask| == |rows|
    ensures forall i :: 0 <= i < |rows| ==> (mask[i] <==> rows[i].id.None?)
  {
    seq(|rows|, i requires 0 <= i < |rows| => rows[i].id.None?)
  }

  /** Which reconciled rows carry a stored id. */
  function IdMask(rows: seq<ProteinRow>): (mask: seq<bool>)
    ensures |mask| == |rows|
    ensures forall i :: 0 <= i < |rows| ==> (mask[i] <==> rows[i].id.Some?)
  {
    seq(|rows|, i requires 0 <= i < |rows| => rows[i].id.Some?)
  }

  /** The rows with a null id, with the id column dropped, in frame order. */
  function NewProteins(rows: seq<ProteinRow>): (inserts: seq<NewProtein>)
    ensures var ix := Positions(NoIdMask(rows));
            |inserts| == |ix| &&
            forall k :: 0 <= k < |inserts| ==>
              inserts[k] == NewProtein(rows[ix[k]].uniprot, rows[ix[k]].fields, rows[ix[k]].flags)
  {
    if |rows| == 0 then []
    else
      var n := |rows| - 1;
      assert NoIdMask(rows)[..n] == NoIdMask(rows[..n]);
      var inserts := NewProteins(rows[..n]);
      if rows[n].id.None? then inserts + [NewProtein(rows[n].uniprot, rows[n].fields, rows[n].flags)]
      else inserts
  }

  /** The rows carrying a stored id, in frame order. */
  function UpdateRows(rows: seq<ProteinRow>): (updates: seq<ProteinRow>)
    ensures var ix := Positions(IdMask(rows));
            |updates| == |ix| && forall k :: 0 <= k < |updates| ==> updates[k] == rows[ix[k]]
  {
    if |rows| == 0 then []
    else
      var n := |rows| - 1;
      assert IdMask(rows)[..n] == IdMask(rows[..n]);
      var updates := UpdateRows(rows[..n]);
      if rows[n].id.Some? then updates + [rows[n]] else updates
  }

  /** One protein import against the stored table: `header` is the incoming
      frame's column list and `defined` the table's columns. Every planned
      row carries an incoming accession, updates carry an id, no accession
      is inserted twice, and the plan has one row per distinct incoming
      accession. */
  function Protein(header: seq<Column>, defined: set<Column>, incoming: seq<ProteinRow>, stored: seq<ProteinRow>)
    : (plan: ProteinPlan)
    ensures forall n <- plan.inserts :: n.uniprot in Uniprots(incoming)
    ensures forall m <- plan.updates :: m.uniprot in Uniprots(incoming) && m.id.Some?
    ensures NoDups(InsertKeys(plan.inserts))
    ensures |plan.inserts| + |plan.updates| == |Dedupe(Uniprots(incoming))|
  {
    var merged := Merged(incoming, stored, Columns.RemoveNotDefinedColumns(header, defined));
    PlanOfMerged(merged, Uniprots(incoming));
    ProteinPlan(NewProteins(merged), UpdateRows(merged))
  }

  /** `Protein`'s contract for any frame with one row per distinct key. */
  lemma PlanOfMerged(merged: seq<ProteinRow>, keys: seq<Uniprot>)
    requires Uniprots(merged) == Dedupe(keys)
    ensures forall n <- NewProteins(merged) :: n.uniprot in keys
    ensures forall m <- UpdateRows(merged) :: m.uniprot in keys && m.id.Some?
    ensures NoDups(InsertKeys(NewProteins(merged)))
    ensures |NewProteins(merged)| + |UpdateRows(merged)| == |Dedupe(keys)|
  {
    var inserts := NewProteins(merged);
    var updates := UpdateRows(merged);
    forall n | n in inserts
      ensures n.uniprot in keys
    {
      var ix := Positions(NoIdMask(merged));
      var j :| 0 <= j < |inserts| && inserts[j] == n;
      RowKeyInKeys(merged, keys, ix[j]);
    }
    forall m | m in updates
      ensures m.uniprot in keys && m.id.Some?
    {
      var ix := Positions(IdMask(merged));
      var j :| 0 <= j < |updates| && updates[j] == m;
      assert IdMask(merged)[ix[j]];
      RowKeyInKeys(merged, keys, ix[j]);
    }
    InsertKeysDistinct(merged);
    PositionsComplement(NoIdMask(merged), IdMask(merged));
  }

  /** Every reconciled row's accession is its group's accession. */
  lemma MergedUniprots(incoming: seq<ProteinRow>, stored: seq<ProteinRow>, kept: seq<Column>)
    ensures var unique := DropDuplicates(AllRows(incoming, stored, kept));
            var merged := Merged(incoming, stored, kept);
            && |merged| == |unique|
            && Uniprots(unique) == Dedupe(Uniprots(incoming))
            && forall k :: 0 <= k < |merged| ==> merged[k].uniprot == unique[k].uniprot
  {
    UniqueKeys(incoming, stored, kept);
  }

  /** The group of an incoming accession in that frame: its incoming rows,
      all with null ids, then its stored rows. */
  lemma GroupOfAllRows(incoming: seq<ProteinRow>, stored: seq<ProteinRow>, kept: seq<Column>, u: Uniprot)
    requires u in Uniprots(incoming)
    ensures var inc := Group(Prepare(incoming, kept), u);
            && Group(AllRows(incoming, stored, kept), u) == inc + Group(stored, u)
            && |inc| > 0
            && (forall r <- inc :: r.id.None?)
  {
    var prepared := Prepare(incoming, kept);
    assert Uniprots(prepared) == Uniprots(incoming);
    GroupConcat(prepared, ExistentProteins(stored, prepared), u);
    GroupOfExistent(stored, prepared, u);
    GroupFacts(prepared, u);
    forall r | r in Group(prepared, u)
      ensures r.id.None?
    {
      var i :| 0 <= i < |prepared| && prepared[i] == r;
    }
  }

  /** The reconciled row at position `k` is `MergeProteinValues` applied to
      the accession's incoming rows (which come first and have null ids)
      followed by its stored rows. */
  lemma MergedIsGroupFold(incoming: seq<ProteinRow>, stored: seq<ProteinRow>, kept: seq<Column>, k: nat)
    requires k < |Merged(incoming, stored, kept)|
    ensures var m := Merged(incoming, stored, kept)[k];
            var inc := Group(Prepare(incoming, kept), m.uniprot);
            var st := Group(stored, m.uniprot);
            && |inc| > 0
            && (forall r <- inc :: r.id.None?)
            && m == MergeProteinValues(inc[0], inc + st)
  {
    var all := AllRows(incoming, stored, kept);
    var unique := DropDuplicates(all);
    MergedUniprots(incoming, stored, kept);
    var u := unique[k].uniprot;
    assert Merged(incoming, stored, kept)[k] == MergeProteinValues(unique[k], Group(all, u));
    assert Uniprots(unique)[k] == u;
    GroupOfAllRows(incoming, stored, kept, u);
  }

  /** The reconciled row of an accession is the fold of its incoming rows
      followed by its stored rows: each descriptive column is the last
      non-null cell of that sequence, so a stored non-null cell wins and a
      stored null is filled from the input; each flag is the OR over the
      sequence, so a flag stored as true stays true; the id is the stored id,
      null when the accession is not stored. */
  lemma MergedRow(incoming: seq<ProteinRow>, stored: seq<ProteinRow>, kept: seq<Column>, k: nat, c: Column)
    requires k < |Merged(incoming, stored, kept)|
    ensures var m := Merged(incoming, stored, kept)[k];
            var inc := Group(Prepare(incoming, kept), m.uniprot);
            var st := Group(stored, m.uniprot);
            && |inc| > 0
            && Lookup(m.fields, c) == LastNonNull(inc + st, c)
            && (LastNonNull(st, c).Some? ==> Lookup(m.fields, c) == LastNonNull(st, c))
            && (LastNonNull(st, c).None? ==> Lookup(m.fields, c) == LastNonNull(inc, c))
            && m.flags == AnyFlags(inc + st)
            && (forall r <- st :: r.flags <= m.flags)
            && m.id == LastId(st)
  {
    MergedIsGroupFold(incoming, stored, kept, k);
    var m := Merged(incoming, stored, kept)[k];
    var inc := Group(Prepare(incoming, kept), m.uniprot);
    var st := Group(stored, m.uniprot);
    assert (inc + st)[0] == inc[0];
    MergeFromFirstRow(inc + st, c);
    MergedIdAndFlags(inc + st);
    IncomingThenStored(inc, st, c);
    IncomingThenStoredIdFlags(inc, st);
  }

  /** The id of a reconciled row is the last id among the stored rows of
      its accession. */
  lemma MergedRowId(incoming: seq<ProteinRow>, stored: seq<ProteinRow>, kept: seq<Column>, k: nat)
    requires k < |Merged(incoming, stored, kept)|
    ensures var m := Merged(incoming, stored, kept)[k];
            m.id == LastId(Group(stored, m.uniprot))
  {
    MergedIsGroupFold(incoming, stored, kept, k);
    var m := Merged(incoming, stored, kept)[k];
    var inc := Group(Prepare(incoming, kept), m.uniprot);
    var st := Group(stored, m.uniprot);
    IncomingThenStoredIdFlags(inc, st);
  }

  /** In a stored table whose ids are all set, the last id of an accession's
      rows is null exactly when the accession is not stored, and otherwise
      is the id of a stored row with that accession. */
  lemma StoredGroupId(stored: seq<ProteinRow>, u: Uniprot)
    requires forall r <- stored :: r.id.Some?
    ensures LastId(Group(stored, u)).None? <==> u !in Uniprots(stored)
    ensures LastId(Group(stored, u)).Some? ==> exists s <- stored :: s.uniprot == u && s.id == LastId(Group(stored, u))
  {
    var st := Group(stored, u);
    GroupFacts(stored, u);
    if LastId(st).Some? {
      var j :| 0 <= j < |st| && st[j].id == LastId(st);
      assert st[j] in stored;
    }
    if |st| > 0 {
      assert st[0] in stored;
    }
  }

  /** For a stored table whose ids are all set, a reconciled row carries an
      id exactly when its accession is stored, and that id is the id of a
      stored row with the accession. */
  lemma MergedIdIsStoredId(incoming: seq<ProteinRow>, stored: seq<ProteinRow>, kept: seq<Column>, k: nat)
    requires forall r <- stored :: r.id.Some?
    requires k < |Merged(incoming, stored, kept)|
    ensures var m := Merged(incoming, stored, kept)[k];
            && (m.id.None? <==> m.uniprot !in Uniprots(stored))
            && (m.id.Some? ==> exists s <- stored :: s.uniprot == m.uniprot && s.id == m.id)
  {
    MergedRowId(incoming, stored, kept, k);
    StoredGroupId(stored, Merged(incoming, stored, kept)[k].uniprot);
  }

  /** In a frame with one row per distinct key, every key has a row. */
  lemma KeyHasRow(merged: seq<ProteinRow>, keys: seq<Uniprot>, u: Uniprot) returns (k: nat)
    requires Uniprots(merged) == Dedupe(keys)
    requires u in keys
    ensures k < |merged| && merged[k].uniprot == u
  {
    var i :| 0 <= i < |keys| && keys[i] == u;
    assert u in Uniprots(merged);
    k :| 0 <= k < |merged| && Uniprots(merged)[k] == u;
  }

  /** In a frame with one row per distinct key, every row carries a key. */
  lemma RowKeyInKeys(merged: seq<ProteinRow>, keys: seq<Uniprot>, k: nat)
    requires Uniprots(merged) == Dedupe(keys)
    requires k < |merged|
    ensures merged[k].uniprot in keys
  {
    assert Uniprots(merged)[k] == merged[k].uniprot;
  }

  /** Splitting a frame with one row per key by the presence of an id: the
      rows without id are exactly the keys that are not stored. */
  lemma InsertsAreUnstored(merged: seq<ProteinRow>, keys: seq<Uniprot>, storedKeys: seq<Uniprot>)
    requires Uniprots(merged) == Dedupe(keys)
    requires forall k :: 0 <= k < |merged| ==> (merged[k].id.None? <==> merged[k].uniprot !in storedKeys)
    ensures forall n <- NewProteins(merged) :: n.uniprot in keys && n.uniprot !in storedKeys
    ensures forall u <- keys :: u !in storedKeys ==> exists n <- NewProteins(merged) :: n.uniprot == u
  {
    var inserts := NewProteins(merged);
    var ix := Positions(NoIdMask(merged));
    forall u | u in keys && u !in storedKeys
      ensures exists n <- inserts :: n.uniprot == u
    {
      var k := KeyHasRow(merged, keys, u);
      assert NoIdMask(merged)[k];
      var j :| 0 <= j < |ix| && ix[j] == k;
      assert inserts[j].uniprot == u;
    }
    forall n | n in inserts
      ensures n.uniprot in keys && n.uniprot !in storedKeys
    {
      var j :| 0 <= j < |inserts| && inserts[j] == n;
      var k := ix[j];
      assert NoIdMask(merged)[k];
      RowKeyInKeys(merged, keys, k);
    }
  }

  /** Splitting a frame with one row per key by the presence of an id: the
      rows with an id are exactly the keys that are stored. */
  lemma UpdatesAreStored(merged: seq<ProteinRow>, keys: seq<Uniprot>, storedKeys: seq<Uniprot>)
    requires Uniprots(merged) == Dedupe(keys)
    requires forall k :: 0 <= k < |merged| ==> (merged[k].id.None? <==> merged[k].uniprot !in storedKeys)
    ensures forall m <- UpdateRows(merged) :: m in merged && m.uniprot in keys && m.uniprot in storedKeys
    ensures forall u <- keys :: u in storedKeys ==> exists m <- UpdateRows(merged) :: m.uniprot == u
  {
    var updates := UpdateRows(merged);
    var ix := Positions(IdMask(merged));
    forall u | u in keys && u in storedKeys
      ensures exists m <- updates :: m.uniprot == u
    {
      var k := KeyHasRow(merged, keys, u);
      assert IdMask(merged)[k];
      var j :| 0 <= j < |ix| && ix[j] == k;
      assert updates[j].uniprot == u;
    }
    forall m | m in updates
      ensures m in merged && m.uniprot in keys && m.uniprot in storedKeys
    {
      var j :| 0 <= j < |updates| && updates[j] == m;
      var k := ix[j];
      assert IdMask(merged)[k];
      RowKeyInKeys(merged, keys, k);
    }
  }

  /** Which reconciled rows are inserted and which updated, for a stored
      table whose ids are all set: an accession that is not stored is
      inserted, one that is stored is updated in place with the id of a
      stored row carrying it and is never inserted again, and the two lists
      together hold one row per distinct incoming accession. */
  lemma ProteinPartition(header: seq<Column>, defined: set<Column>, incoming: seq<ProteinRow>, stored: seq<ProteinRow>)
    requires forall r <- stored :: r.id.Some?
    ensures var plan := Protein(header, defined, incoming, stored);
            && (forall n <- plan.inserts :: n.uniprot in Uniprots(incoming) && n.uniprot !in Uniprots(stored))
            && (forall m <- plan.updates :: m.uniprot in Uniprots(incoming) &&
                  exists s <- stored :: s.uniprot == m.uniprot && s.id == m.id)
            && (forall u <- Uniprots(incoming) :: u !in Uniprots(stored) ==> exists n <- plan.inserts :: n.uniprot == u)
            && (forall u <- Uniprots(incoming) :: u in Uniprots(stored) ==> exists m <- plan.updates :: m.uniprot == u)
            && |plan.inserts| + |plan.updates| == |Dedupe(Uniprots(incoming))|
  {
    var kept := Columns.RemoveNotDefinedColumns(header, defined);
    var merged := Merged(incoming, stored, kept);
    assert Protein(header, defined, incoming, stored) == ProteinPlan(NewProteins(merged), UpdateRows(merged));
    forall k | 0 <= k < |merged|
      ensures merged[k].id.None? <==> merged[k].uniprot !in Uniprots(stored)
      ensures merged[k].id.Some? ==> exists s <- stored :: s.uniprot == merged[k].uniprot && s.id == merged[k].id
    {
      MergedIdIsStoredId(incoming, stored, kept, k);
    }
    PartitionOfMerged(merged, Uniprots(incoming), stored);
  }

  /** `ProteinPartition` for any frame with one row per key whose ids are
      exactly the stored ones. */
  lemma PartitionOfMerged(merged: seq<ProteinRow>, keys: seq<Uniprot>, stored: seq<ProteinRow>)
    requires Uniprots(merged) == Dedupe(keys)
    requires forall k :: 0 <= k < |merged| ==> (merged[k].id.None? <==> merged[k].uniprot !in Uniprots(stored))
    requires forall k :: 0 <= k < |merged| ==> merged[k].id.Some? ==>
               exists s <- stored :: s.uniprot == merged[k].uniprot && s.id == merged[k].id
    ensures var inserts := NewProteins(merged);
            var updates := UpdateRows(merged);
            && (forall n <- inserts :: n.uniprot in keys && n.uniprot !in Uniprots(stored))
            && (forall m <- updates :: m.uniprot in keys && exists s <- stored :: s.uniprot == m.uniprot && s.id == m.id)
            && (forall u <- keys :: u !in Uniprots(stored) ==> exists n <- inserts :: n.uniprot == u)
            && (forall u <- keys :: u in Uniprots(stored) ==> exists m <- updates :: m.uniprot == u)
            && |inserts| + |updates| == |Dedupe(keys)|
  {
    InsertsAreUnstored(merged, keys, Uniprots(stored));
    UpdatesAreStored(merged, keys, Uniprots(stored));
    PositionsComplement(NoIdMask(merged), IdMask(merged));
    forall m | m in UpdateRows(merged)
      ensures exists s <- stored :: s.uniprot == m.uniprot && s.id == m.id
    {
      var k :| 0 <= k < |merged| && merged[k] == m;
    }
  }

  /** The accession column of the rows to insert. */
  function InsertKeys(inserts: seq<NewProtein>): seq<Uniprot>
  {
    seq(|inserts|, i requires 0 <= i < |inserts| => inserts[i].uniprot)
  }

  /** No two rows to insert share an accession. */
  lemma InsertKeysDistinct(merged: seq<ProteinRow>)
    requires NoDups(Uniprots(merged))
    ensures NoDups(InsertKeys(NewProteins(merged)))
  {
    var inserts := NewProteins(merged);
    var keys := InsertKeys(inserts);
    var ix := Positions(NoIdMask(merged));
    var us := Uniprots(merged);
    assert forall k :: 0 <= k < |keys| ==> ix[k] < |us| && keys[k] == us[ix[k]];
    PickedDistinct(us, ix, keys);
  }

  /** A protein import never creates a second row for an accession: if the
      stored accessions are distinct, they stay distinct once the new rows
      are appended (updates keep their row's accession). */
  lemma ProteinKeepsKeysUnique(header: seq<Column>, defined: set<Column>, incoming: seq<ProteinRow>, stored: seq<ProteinRow>)
    requires forall r <- stored :: r.id.Some?
    requires NoDups(Uniprots(stored))
    ensures NoDups(Uniprots(stored) + InsertKeys(Protein(header, defined, incoming, stored).inserts))
  {
    var kept := Columns.RemoveNotDefinedColumns(header, defined);
    var merged := Merged(incoming, stored, kept);
    assert Protein(header, defined, incoming, stored).inserts == NewProteins(merged);
    assert NoDups(Uniprots(merged));
    NoIdMeansUnstored(incoming, stored, kept);
    FreshInsertKeys(merged, stored);
  }

  /** `MergedIdIsStoredId` for every row of the reconciled frame at once. */
  lemma NoIdMeansUnstored(incoming: seq<ProteinRow>, stored: seq<ProteinRow>, kept: seq<Column>)
    requires forall r <- stored :: r.id.Some?
    ensures var merged := Merged(incoming, stored, kept);
            forall k :: 0 <= k < |merged| ==> merged[k].id.None? ==> merged[k].uniprot !in Uniprots(stored)
  {
    var merged := Merged(incoming, stored, kept);
    forall k | 0 <= k < |merged|
      ensures merged[k].id.None? ==> merged[k].uniprot !in Uniprots(stored)
    {
      MergedIdIsStoredId(incoming, stored, kept, k);
    }
  }

  /** `ProteinKeepsKeysUnique` for any duplicate-free frame whose id-less
      rows carry unstored accessions. */
  lemma FreshInsertKeys(merged: seq<ProteinRow>, stored: seq<ProteinRow>)
    requires NoDups(Uniprots(merged)) && NoDups(Uniprots(stored))
    requires forall k :: 0 <= k < |merged| ==> merged[k].id.None? ==> merged[k].uniprot !in Uniprots(stored)
    ensures NoDups(Uniprots(stored) + InsertKeys(NewProteins(merged)))
  {
    var inserts := NewProteins(merged);
    var ix := Positions(NoIdMask(merged));
    InsertKeysDistinct(merged);
    forall x | x in InsertKeys(inserts)
      ensures x !in Uniprots(stored)
    {
      var i :| 0 <= i < |inserts| && InsertKeys(inserts)[i] == x;
      assert NoIdMask(merged)[ix[i]];
    }
    NoDupsConcat(Uniprots(stored), InsertKeys(inserts));
  }

  /** The per-row update loop: every column of the reconciled frame is
      written to the stored record, a null cell as null and a non-null cell
      as its value; columns outside the frame keep their stored cells. */
  method WriteUpdate(target: ProteinRow, merged: ProteinRow, columns: seq<Column>) returns (written: ProteinRow)
    ensures written.uniprot == merged.uniprot && written.id == merged.id && written.flags == merged.flags
    ensures forall c :: c in columns ==> Lookup(written.fields, c) == Lookup(merged.fields, c)
    ensures forall c :: c !in columns ==> Lookup(written.fields, c) == Lookup(target.fields, c)
  {
    var fields := target.fields;
    for i := 0 to |columns|
      invariant forall c :: c in columns[..i] ==> Lookup(fields, c) == Lookup(merged.fields, c)
      invariant forall c :: c !in columns[..i] ==> Lookup(fields, c) == Lookup(target.fields, c)
    {
      var c := columns[i];
      if c in merged.fields {
        fields := fields[c := merged.fields[c]];
      } else {
        fields := fields - {c};
      }
      assert columns[..i + 1] == columns[..i] + [c];
    }
    assert columns[..|columns|] == columns;
    written := ProteinRow(merged.uniprot, merged.id, fields, merged.flags);
  }
}
