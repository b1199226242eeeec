/** Row-level merge of protein rows that share a UniProt accession
    (`merge_protein_values` and its nested `setNonEmptyStrings` inside
    `Collector.protein`).

    The group is folded in order: every later non-null cell overwrites the
    merged row's cell, so each descriptive column ends up with the LAST
    non-null value of the group, and the boolean flags are then replaced by
    the OR of the group's flags. */
module ProteinMerge {
  import opened Common

  /** A protein row, incoming or stored. `fields` holds the non-null
      descriptive cells (a column absent from it is null), `flags` the
      capability flags that are true, `id` the internal id (null for an
      incoming row). */
  datatype ProteinRow = ProteinRow(uniprot: Uniprot, id: Option<Id>, fields: map<Column, Value>, flags: set<Flag>)

  /** One step of the fold: every non-null cell of `prot` overwrites the
      corresponding cell of `row`; null cells of `prot` leave `row` alone.
      The natural key and the flags are never null, so they are copied. */
  function SetNonEmpty(row: ProteinRow, prot: ProteinRow): (r: ProteinRow)
    ensures r.uniprot == prot.uniprot && r.flags == prot.flags
    ensures forall c :: Lookup(r.fields, c) == if c in prot.fields then Lookup(prot.fields, c) else Lookup(row.fields, c)
    ensures r.id == if prot.id.Some? then prot.id else row.id
  {
    ProteinRow(prot.uniprot,
               if prot.id.Some? then prot.id else row.id,
               row.fields + prot.fields,
               prot.flags)
  }

  /** `SetNonEmpty` applied to `row` with every member of `group`, in order:
      the key is the last member's, no cell of `row` is ever nulled, and
      every non-null cell comes from `row` or from some member. */
  function Overlay(row: ProteinRow, group: seq<ProteinRow>): (r: ProteinRow)
    ensures r.uniprot == if |group| == 0 then row.uniprot else group[|group| - 1].uniprot
    ensures forall c :: c in row.fields ==> c in r.fields
    ensures forall c :: c in r.fields ==> c in row.fields || exists j :: 0 <= j < |group| && c in group[j].fields
  {
    if |group| == 0 then row
    else
      assert forall j :: 0 <= j < |group| - 1 ==> group[..|group| - 1][j] == group[j];
      SetNonEmpty(Overlay(row, group[..|group| - 1]), group[|group| - 1])
  }

  /** Reference definition: the last non-null cell of column `c` in `group`. */
  function LastNonNull(group: seq<ProteinRow>, c: Column): (v: Option<Value>)
    ensures v.None? <==> forall j :: 0 <= j < |group| ==> c !in group[j].fields
    ensures v.Some? ==> exists j :: 0 <= j < |group| && c in group[j].fields && group[j].fields[c] == v.value &&
                          forall k :: j < k < |group| ==> c !in group[k].fields
  {
    if |group| == 0 then None
    else if c in group[|group| - 1].fields then Some(group[|group| - 1].fields[c])
    else LastNonNull(group[..|group| - 1], c)
  }

  /** Reference definition: the last non-null internal id in `group`. */
  function LastId(group: seq<ProteinRow>): (v: Option<Id>)
    ensures v.None? <==> forall j :: 0 <= j < |group| ==> group[j].id.None?
    ensures v.Some? ==> exists j :: 0 <= j < |group| && group[j].id == v &&
                          forall k :: j < k < |group| ==> group[k].id.None?
  {
    if |group| == 0 then None
    else if group[|group| - 1].id.Some? then group[|group| - 1].id
    else LastId(group[..|group| - 1])
  }

  /** The OR of every flag across `group`. */
  function AnyFlags(group: seq<ProteinRow>): (fs: set<Flag>)
    ensures forall f :: f in fs <==> exists j :: 0 <= j < |group| && f in group[j].flags
  {
    if |group| == 0 then {}
    else
      assert forall j :: 0 <= j < |group| - 1 ==> group[..|group| - 1][j] == group[j];
      AnyFlags(group[..|group| - 1]) + group[|group| - 1].flags
  }

  /** `merge_protein_values`: fold the group into `row`, then OR the flags.
      The merged row takes the key of the group and keeps every cell of
      `row`; a flag is set exactly when some member sets it. */
  function MergeProteinValues(row: ProteinRow, group: seq<ProteinRow>): (r: ProteinRow)
    ensures |group| > 0 ==> r.uniprot == group[|group| - 1].uniprot
    ensures forall c :: c in row.fields ==> c in r.fields
    ensures forall f :: f in r.flags <==> exists j :: 0 <= j < |group| && f in group[j].flags
  {
    Overlay(row, group).(flags := AnyFlags(group))
  }

  /** After the fold, a column holds the group's last non-null cell, or the
      starting row's cell when the whole group is null there. */
  lemma {:induction false} OverlayIsLastNonNull(row: ProteinRow, group: seq<ProteinRow>, c: Column)
    ensures Lookup(Overlay(row, group).fields, c) ==
            if LastNonNull(group, c).Some? then LastNonNull(group, c) else Lookup(row.fields, c)
  {
    if |group| > 0 {
      OverlayIsLastNonNull(row, group[..|group| - 1], c);
    }
  }

  /** After the fold, the id is the group's last non-null id, or the
      starting row's id when every id in the group is null. */
  lemma {:induction false} OverlayIsLastId(row: ProteinRow, group: seq<ProteinRow>)
    ensures Overlay(row, group).id == if LastId(group).Some? then LastId(group) else row.id
  {
    if |group| > 0 {
      OverlayIsLastId(row, group[..|group| - 1]);
    }
  }

  /** Splitting a group: the last non-null cell of `a + b` comes from `b`
      unless `b` is null throughout. */
  lemma {:induction false} LastNonNullConcat(a: seq<ProteinRow>, b: seq<ProteinRow>, c: Column)
    ensures LastNonNull(a + b, c) == if LastNonNull(b, c).Some? then LastNonNull(b, c) else LastNonNull(a, c)
  {
    if |b| > 0 {
      assert (a + b)[..|a + b| - 1] == a + b[..|b| - 1];
      LastNonNullConcat(a, b[..|b| - 1], c);
    } else {
      assert a + b == a;
    }
  }

  /** Splitting a group: the last non-null id of `a + b` comes from `b`
      unless every id of `b` is null. */
  lemma {:induction false} LastIdConcat(a: seq<ProteinRow>, b: seq<ProteinRow>)
    ensures LastId(a + b) == if LastId(b).Some? then LastId(b) else LastId(a)
  {
    if |b| > 0 {
      assert (a + b)[..|a + b| - 1] == a + b[..|b| - 1];
      LastIdConcat(a, b[..|b| - 1]);
    } else {
      assert a + b == a;
    }
  }

  /** Merging a group from its own first row: each descriptive column is the
      last non-null cell of the group, null only if null in every row. */
  lemma MergeFromFirstRow(group: seq<ProteinRow>, c: Column)
    requires |group| > 0
    ensures Lookup(MergeProteinValues(group[0], group).fields, c) == LastNonNull(group, c)
  {
    OverlayIsLastNonNull(group[0], group, c);
    if c in group[0].fields {
      assert LastNonNull(group, c).Some?;
    }
  }

  /** Merging a group from its own first row: the id is the last non-null
      id of the group and each flag is the OR over the group. */
  lemma MergedIdAndFlags(group: seq<ProteinRow>)
    requires |group| > 0
    ensures MergeProteinValues(group[0], group).id == LastId(group)
    ensures MergeProteinValues(group[0], group).flags == AnyFlags(group)
  {
    OverlayIsLastId(group[0], group);
    if group[0].id.Some? {
      assert LastId(group).Some?;
    }
  }

  /** The flags OR-ed over two consecutive parts of a group are the union of
      the parts' flags. */
  lemma AnyFlagsConcat(a: seq<ProteinRow>, b: seq<ProteinRow>)
    ensures AnyFlags(a + b) == AnyFlags(a) + AnyFlags(b)
  {
    forall f | f in AnyFlags(a + b)
      ensures f in AnyFlags(a) + AnyFlags(b)
    {
      var j :| 0 <= j < |a + b| && f in (a + b)[j].flags;
      if j < |a| {
        assert f in a[j].flags;
      } else {
        assert f in b[j - |a|].flags;
      }
    }
    forall f | f in AnyFlags(a) + AnyFlags(b)
      ensures f in AnyFlags(a + b)
    {
      if f in AnyFlags(a) {
        var j :| 0 <= j < |a| && f in a[j].flags;
        assert (a + b)[j] == a[j];
      } else {
        var j :| 0 <= j < |b| && f in b[j].flags;
        assert (a + b)[|a| + j] == b[j];
      }
    }
  }

  /** The order the reconciler folds in, incoming rows first, then the
      stored rows: a stored non-null cell beats every incoming cell, and a
      stored null is filled from the last non-null incoming cell. */
  lemma IncomingThenStored(incoming: seq<ProteinRow>, stored: seq<ProteinRow>, c: Column)
    requires |incoming| > 0
    ensures var m := MergeProteinValues(incoming[0], incoming + stored);
            && (LastNonNull(stored, c).Some? ==> Lookup(m.fields, c) == LastNonNull(stored, c))
            && (LastNonNull(stored, c).None? ==> Lookup(m.fields, c) == LastNonNull(incoming, c))
  {
    var g := incoming + stored;
    assert g[0] == incoming[0];
    MergeFromFirstRow(g, c);
    LastNonNullConcat(incoming, stored, c);
  }

  /** The same order for the flags and the id: the flags are the OR over
      both parts (so a flag stored as true stays true), and, incoming ids
      being null, the id is the stored one. */
  lemma IncomingThenStoredIdFlags(incoming: seq<ProteinRow>, stored: seq<ProteinRow>)
    requires |incoming| > 0
    ensures var m := MergeProteinValues(incoming[0], incoming + stored);
            && m.flags == AnyFlags(incoming) + AnyFlags(stored)
            && (forall r <- stored :: r.flags <= m.flags)
    ensures (forall r <- incoming :: r.id.None?) ==>
              MergeProteinValues(incoming[0], incoming + stored).id == LastId(stored)
  {
    var g := incoming + stored;
    assert g[0] == incoming[0];
    MergedIdAndFlags(g);
    LastIdConcat(incoming, stored);
    AnyFlagsConcat(incoming, stored);
    if forall r <- incoming :: r.id.None? {
      assert LastId(incoming).None?;
    }
  }

  /** Re-import is a no-op on the merged row: fold the same incoming rows
      against any row that carries the cells and flags an earlier import
      merged (the stored row of that accession, whatever id the store gave
      it, or null), and that row comes back unchanged. */
  lemma MergeIdempotent(incoming: seq<ProteinRow>, stored: seq<ProteinRow>, s: ProteinRow)
    requires |incoming| > 0
    requires forall r <- incoming :: r.id.None?
    requires var m := MergeProteinValues(incoming[0], incoming + stored);
             s.fields == m.fields && s.flags == m.flags
    ensures MergeProteinValues(incoming[0], incoming + [s]) == s
  {
    var m := MergeProteinValues(incoming[0], incoming + stored);
    var m' := MergeProteinValues(incoming[0], incoming + [s]);
    assert (incoming + [s])[0] == incoming[0];
    assert (incoming + stored)[0] == incoming[0];
    assert LastId(incoming).None?;
    forall c
      ensures Lookup(m'.fields, c) == Lookup(s.fields, c)
    {
      MergeFromFirstRow(incoming + [s], c);
      MergeFromFirstRow(incoming + stored, c);
      LastNonNullConcat(incoming, [s], c);
      LastNonNullConcat(incoming, stored, c);
    }
    LookupExtensional(m'.fields, s.fields);
    MergedIdAndFlags(incoming + [s]);
    MergedIdAndFlags(incoming + stored);
    LastIdConcat(incoming, [s]);
    AnyFlagsConcat(incoming, [s]);
    AnyFlagsConcat(incoming, stored);
    assert AnyFlags([s]) == s.flags;
    assert m'.uniprot == s.uniprot;
  }
}
