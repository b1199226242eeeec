/** Complex reconciliation (`Collector.complex`).

    Every incoming complex row names up to four member proteins by
    accession. A row whose non-null members all resolve through the
    uniprot -> id index is complete: its name is mapped to the resolved ids
    (a later complete row with the same name overwrites the list), and it is
    inserted unless its name is already stored. Afterwards one composition
    edge is emitted per member of every name in that map, using the
    name -> id map re-read from the store. */
module ComplexReconcile {
  import opened Common

  /** Natural key of a complex. */
  type ComplexName = string

  /** One row of the complex file: the name, member slots 1..4, and the
      complex-level descriptive cells and flags. */
  datatype ComplexRow = ComplexRow(
    name: ComplexName,
    protein1: Option<Uniprot>, protein2: Option<Uniprot>, protein3: Option<Uniprot>, protein4: Option<Uniprot>,
    fields: map<Column, Value>, flags: set<Flag>)

  /** A complex record appended to the table. */
  datatype NewComplex = NewComplex(name: ComplexName, fields: map<Column, Value>, flags: set<Flag>)

  /** One `complex_composition` row. */
  datatype Edge = Edge(complexId: Id, proteinId: Id)

  /** `complex_map`: a dictionary from name to member ids; `names` is its
      key order (first insertion). */
  datatype ComplexMap = ComplexMap(names: seq<ComplexName>, members: map<ComplexName, seq<Id>>)

  /** What one complex import does: the complexes it appends, then either
      the composition edges or the name whose id lookup raised. The inserts
      happen before the edges are built, so they stand even on failure. */
  datatype ComplexOutcome = ComplexOutcome(inserts: seq<NewComplex>, edges: Result<seq<Edge>, ComplexName>)

  /** The member slots in slot order 1..4. */
  function Slots(row: ComplexRow): seq<Option<Uniprot>>
  {
    [row.protein1, row.protein2, row.protein3, row.protein4]
  }

  /** Which slots are non-null. */
  function NonNullMask(slots: seq<Option<Uniprot>>): (mask: seq<bool>)
    ensures |mask| == |slots|
    ensures forall i :: 0 <= i < |slots| ==> (mask[i] <==> slots[i].Some?)
  {
    seq(|slots|, i requires 0 <= i < |slots| => slots[i].Some?)
  }

  /** The member-resolution loop: null slots are skipped; the row is
      complete only if every non-null slot resolves, and then its members
      are the resolved ids of the non-null slots, in slot order, duplicates
      kept. */
  function ResolveSlots(slots: seq<Option<Uniprot>>, proteins: map<Uniprot, Id>): (r: Option<seq<Id>>)
    ensures r.Some? <==> forall i :: 0 <= i < |slots| && slots[i].Some? ==> slots[i].value in proteins
    ensures r.Some? ==>
              var ix := Positions(NonNullMask(slots));
              |r.value| == |ix| && forall k :: 0 <= k < |ix| ==> r.value[k] == proteins[slots[ix[k]].value]
  {
    if |slots| == 0 then Some([])
    else
      var n := |slots| - 1;
      assert NonNullMask(slots)[..n] == NonNullMask(slots[..n]);
      var r := ResolveSlots(slots[..n], proteins);
      if slots[n].None? then r
      else if slots[n].value !in proteins then None
      else if r.None? then None
      else Some(r.value + [proteins[slots[n].value]])
  }

  predicate Complete(row: ComplexRow, proteins: map<Uniprot, Id>)
  {
    ResolveSlots(Slots(row), proteins).Some?
  }

  /** `complete_indices` as a row mask. */
  function CompleteMask(rows: seq<ComplexRow>, proteins: map<Uniprot, Id>): (mask: seq<bool>)
    ensures |mask| == |rows|
    ensures forall i :: 0 <= i < |rows| ==> (mask[i] <==> Complete(rows[i], proteins))
  {
    seq(|rows|, i requires 0 <= i < |rows| => Complete(rows[i], proteins))
  }

  /** The names of the complete rows, in row order. */
  function CompleteNames(rows: seq<ComplexRow>, proteins: map<Uniprot, Id>): (names: seq<ComplexName>)
    ensures var ix := Positions(CompleteMask(rows, proteins));
            |names| == |ix| && forall k :: 0 <= k < |ix| ==> names[k] == rows[ix[k]].name
  {
    if |rows| == 0 then []
    else
      var n := |rows| - 1;
      assert CompleteMask(rows, proteins)[..n] == CompleteMask(rows[..n], proteins);
      var names := CompleteNames(rows[..n], proteins);
      if Complete(rows[n], proteins) then names + [rows[n].name] else names
  }

  /** `complex_map[name] = ids`: a new name is appended to the key order, an
      existing one keeps its place and gets the new list. */
  function Assign(m: ComplexMap, name: ComplexName, ids: seq<Id>): (r: ComplexMap)
    ensures name in r.members && r.members[name] == ids
    ensures forall n :: n != name ==> (n in r.members <==> n in m.members)
    ensures forall n :: n != name && n in m.members ==> r.members[n] == m.members[n]
    // keys already present keep their place in the order
    ensures |m.names| <= |r.names| && r.names[..|m.names|] == m.names
    // an existing key adds no entry, a new one adds exactly one
    ensures |r.names| == |m.names| + (if name in m.members then 0 else 1)
    ensures (forall n :: n in m.members <==> n in m.names) && NoDups(m.names) ==> NoDups(r.names)
    ensures (forall n :: n in m.members <==> n in m.names) ==> (forall n :: n in r.members <==> n in r.names)
  {
    ComplexMap(if name in m.members then m.names else m.names + [name], m.members[name := ids])
  }

  /** A name's entry in `complex_map` after the first `rows`: it comes from
      the last complete row with that name. */
  ghost predicate FromLastComplete(rows: seq<ComplexRow>, proteins: map<Uniprot, Id>, n: ComplexName, ids: seq<Id>)
  {
    exists i :: 0 <= i < |rows| && rows[i].name == n && Complete(rows[i], proteins) &&
      ids == ResolveSlots(Slots(rows[i]), proteins).value &&
      forall j :: i < j < |rows| && rows[j].name == n ==> !Complete(rows[j], proteins)
  }

  /** The composition loop over the incoming rows. */
  function BuildComplexMap(rows: seq<ComplexRow>, proteins: map<Uniprot, Id>): (m: ComplexMap)
    // the key order is the order in which complete names first occur
    ensures m.names == Dedupe(CompleteNames(rows, proteins))
    ensures forall n :: n in m.members <==> n in m.names
    // a name's members come from the last complete row with that name
    ensures forall n <- m.members :: FromLastComplete(rows, proteins, n, m.members[n])
  {
    if |rows| == 0 then ComplexMap([], map[])
    else
      var n := |rows| - 1;
      var m := BuildComplexMap(rows[..n], proteins);
      BuildStep(rows, proteins, m);
      var r := ResolveSlots(Slots(rows[n]), proteins);
      if r.None? then m else Assign(m, rows[n].name, r.value)
  }

  /** The inductive step of `BuildComplexMap`. */
  lemma BuildStep(rows: seq<ComplexRow>, proteins: map<Uniprot, Id>, m: ComplexMap)
    requires |rows| > 0
    requires m.names == Dedupe(CompleteNames(rows[..|rows| - 1], proteins))
    requires forall n :: n in m.members <==> n in m.names
    requires forall n <- m.members :: FromLastComplete(rows[..|rows| - 1], proteins, n, m.members[n])
    ensures var last := rows[|rows| - 1];
            var r := ResolveSlots(Slots(last), proteins);
            var m' := if r.None? then m else Assign(m, last.name, r.value);
            && m'.names == Dedupe(CompleteNames(rows, proteins))
            && (forall n :: n in m'.members <==> n in m'.names)
            && (forall n <- m'.members :: FromLastComplete(rows, proteins, n, m'.members[n]))
  {
    BuildNamesStep(rows, proteins, m);
    BuildMembersStep(rows, proteins, m);
  }

  lemma BuildNamesStep(rows: seq<ComplexRow>, proteins: map<Uniprot, Id>, m: ComplexMap)
    requires |rows| > 0
    requires m.names == Dedupe(CompleteNames(rows[..|rows| - 1], proteins))
    requires forall n :: n in m.members <==> n in m.names
    ensures var last := rows[|rows| - 1];
            var r := ResolveSlots(Slots(last), proteins);
            var m' := if r.None? then m else Assign(m, last.name, r.value);
            && m'.names == Dedupe(CompleteNames(rows, proteins))
            && (forall n :: n in m'.members <==> n in m'.names)
  {
    var k := |rows| - 1;
    var last := rows[k];
    var prefixNames := CompleteNames(rows[..k], proteins);
    if Complete(last, proteins) {
      assert CompleteNames(rows, proteins) == prefixNames + [last.name];
      AssignKeepsOrder(m, prefixNames, last.name, ResolveSlots(Slots(last), proteins).value);
    } else {
      assert CompleteNames(rows, proteins) == prefixNames;
    }
  }

  /** `Assign` keeps the key order equal to the first-occurrence order of
      the names assigned so far. */
  lemma AssignKeepsOrder(m: ComplexMap, seen: seq<ComplexName>, name: ComplexName, ids: seq<Id>)
    requires m.names == Dedupe(seen)
    requires forall n :: n in m.members <==> n in m.names
    ensures Assign(m, name, ids).names == Dedupe(seen + [name])
    ensures forall n :: n in Assign(m, name, ids).members <==> n in Assign(m, name, ids).names
  {
    assert (seen + [name])[..|seen|] == seen;
  }

  lemma BuildMembersStep(rows: seq<ComplexRow>, proteins: map<Uniprot, Id>, m: ComplexMap)
    requires |rows| > 0
    requires forall n <- m.members :: FromLastComplete(rows[..|rows| - 1], proteins, n, m.members[n])
    ensures var last := rows[|rows| - 1];
            var r := ResolveSlots(Slots(last), proteins);
            var m' := if r.None? then m else Assign(m, last.name, r.value);
            forall n <- m'.members :: FromLastComplete(rows, proteins, n, m'.members[n])
  {
    var k := |rows| - 1;
    var last := rows[k];
    var r := ResolveSlots(Slots(last), proteins);
    var m' := if r.None? then m else Assign(m, last.name, r.value);
    forall n | n in m'.members
      ensures FromLastComplete(rows, proteins, n, m'.members[n])
    {
      if r.Some? && n == last.name {
        assert rows[k].name == n && Complete(rows[k], proteins);
      } else {
        FromLastCompleteExtend(rows, proteins, n, m.members[n]);
      }
    }
  }

  /** A row that is incomplete or carries another name leaves a name's
      entry as it was. */
  lemma FromLastCompleteExtend(rows: seq<ComplexRow>, proteins: map<Uniprot, Id>, n: ComplexName, ids: seq<Id>)
    requires |rows| > 0
    requires FromLastComplete(rows[..|rows| - 1], proteins, n, ids)
    requires rows[|rows| - 1].name != n || !Complete(rows[|rows| - 1], proteins)
    ensures FromLastComplete(rows, proteins, n, ids)
  {
    var k := |rows| - 1;
    var prefix := rows[..k];
    var i :| 0 <= i < |prefix| && prefix[i].name == n && Complete(prefix[i], proteins) &&
             ids == ResolveSlots(Slots(prefix[i]), proteins).value &&
             forall j :: i < j < |prefix| && prefix[j].name == n ==> !Complete(prefix[j], proteins);
    assert rows[i] == prefix[i];
    forall j | i < j < |rows| && rows[j].name == n
      ensures !Complete(rows[j], proteins)
    {
      if j < k {
        assert rows[j] == prefix[j];
      }
    }
  }

  /** Which rows are appended: complete rows whose name is not stored. */
  function InsertMask(rows: seq<ComplexRow>, existing: set<ComplexName>, proteins: map<Uniprot, Id>): (mask: seq<bool>)
    ensures |mask| == |rows|
    ensures forall i :: 0 <= i < |rows| ==>
              (mask[i] <==> Complete(rows[i], proteins) && rows[i].name !in existing)
  {
    seq(|rows|, i requires 0 <= i < |rows| => Complete(rows[i], proteins) && rows[i].name !in existing)
  }

  /** The complexes appended: the complete rows whose name is not already
      stored, in row order, without their member slots. */
  function ComplexInserts(rows: seq<ComplexRow>, existing: set<ComplexName>, proteins: map<Uniprot, Id>): (inserts: seq<NewComplex>)
    ensures var ix := Positions(InsertMask(rows, existing, proteins));
            |inserts| == |ix| &&
            forall k :: 0 <= k < |ix| ==>
              inserts[k] == NewComplex(rows[ix[k]].name, rows[ix[k]].fields, rows[ix[k]].flags)
  {
    if |rows| == 0 then []
    else
      var n := |rows| - 1;
      assert InsertMask(rows, existing, proteins)[..n] == InsertMask(rows[..n], existing, proteins);
      var inserts := ComplexInserts(rows[..n], existing, proteins);
      if Complete(rows[n], proteins) && rows[n].name !in existing
      then inserts + [NewComplex(rows[n].name, rows[n].fields, rows[n].flags)]
      else inserts
  }

  /** The edges of one complex: its id paired with each member, in order. */
  function Fan(complexId: Id, members: seq<Id>): (es: seq<Edge>)
    ensures |es| == |members|
    ensures forall k :: 0 <= k < |members| ==> es[k] == Edge(complexId, members[k])
  {
    if |members| == 0 then [] else Fan(complexId, members[..|members| - 1]) + [Edge(complexId, members[|members| - 1])]
  }

  /** The edge loop over `complex_map`: every name's id is looked up in the
      re-read name -> id map, and the first name missing there raises. */
  function CompositionEdges(names: seq<ComplexName>, members: map<ComplexName, seq<Id>>, refetched: map<ComplexName, Id>)
    : (r: Result<seq<Edge>, ComplexName>)
    requires forall n <- names :: n in members
    ensures EdgesSpec(names, members, refetched, r)
  {
    if |names| == 0 then Success([])
    else
      var n := |names| - 1;
      var r := CompositionEdges(names[..n], members, refetched);
      var r' := if r.Failure? then r
                else if names[n] !in refetched then Failure(names[n])
                else Success(r.value + Fan(refetched[names[n]], members[names[n]]));
      EdgesStep(names, members, refetched, r);
      r'
  }

  /** What the edge loop promises: it succeeds exactly when every name has
      an id, otherwise it fails on the first name without one; every edge
      pairs some name's id with one of that name's members. */
  ghost predicate EdgesSpec(names: seq<ComplexName>, members: map<ComplexName, seq<Id>>, refetched: map<ComplexName, Id>,
                            r: Result<seq<Edge>, ComplexName>)
    requires forall n <- names :: n in members
  {
    && (r.Success? <==> forall n <- names :: n in refetched)
    && (r.Failure? ==>
          exists i :: 0 <= i < |names| && names[i] == r.error && r.error !in refetched &&
            forall j :: 0 <= j < i ==> names[j] in refetched)
    && (r.Success? ==>
          forall e <- r.value :: exists n <- names :: e.complexId == refetched[n] && e.proteinId in members[n])
  }

  /** The inductive step of `CompositionEdges`. */
  lemma EdgesStep(names: seq<ComplexName>, members: map<ComplexName, seq<Id>>, refetched: map<ComplexName, Id>,
                  r: Result<seq<Edge>, ComplexName>)
    requires |names| > 0
    requires forall n <- names :: n in members
    requires EdgesSpec(names[..|names| - 1], members, refetched, r)
    ensures var n := |names| - 1;
            EdgesSpec(names, members, refetched,
                      if r.Failure? then r
                      else if names[n] !in refetched then Failure(names[n])
                      else Success(r.value + Fan(refetched[names[n]], members[names[n]])))
  {
    var n := |names| - 1;
    var prefix := names[..n];
    assert names == prefix + [names[n]];
    if r.Failure? {
      var i :| 0 <= i < |prefix| && prefix[i] == r.error && r.error !in refetched &&
               forall j :: 0 <= j < i ==> prefix[j] in refetched;
      assert names[i] == prefix[i];
    } else if names[n] !in refetched {
      assert forall j :: 0 <= j < n ==> names[j] == prefix[j];
    } else {
      var fan := Fan(refetched[names[n]], members[names[n]]);
      var es := r.value + fan;
      forall e | e in es
        ensures exists x <- names :: e.complexId == refetched[x] && e.proteinId in members[x]
      {
        if e in r.value {
          var x :| x in prefix && e.complexId == refetched[x] && e.proteinId in members[x];
          assert x in names;
        } else {
          var k :| 0 <= k < |fan| && fan[k] == e;
          assert names[n] in names;
        }
      }
    }
  }

  /** One complex import: `existing` is the set of stored names, `proteins`
      the uniprot -> id index and `refetched` the name -> id map read back
      after the inserts. */
  function Complex(rows: seq<ComplexRow>, existing: set<ComplexName>, proteins: map<Uniprot, Id>,
                   refetched: map<ComplexName, Id>): (out: ComplexOutcome)
    ensures forall c <- out.inserts :: c.name !in existing
    // the lookup that raises is for a name stored before or inserted now
    ensures out.edges.Failure? ==>
              out.edges.error !in refetched &&
              (out.edges.error in existing || exists c <- out.inserts :: c.name == out.edges.error)
  {
    var m := BuildComplexMap(rows, proteins);
    var inserts := ComplexInserts(rows, existing, proteins);
    var edges := CompositionEdges(m.names, m.members, refetched);
    ComplexInsertRule(rows, existing, proteins);
    if edges.Failure? then
      MapNamesStoredOrInserted(rows, existing, proteins, edges.error);
      ComplexOutcome(inserts, edges)
    else
      ComplexOutcome(inserts, edges)
  }

  /** Every name in `complex_map` reaches the store: it was stored before
      the import or is one of the complexes the import appends. */
  lemma MapNamesStoredOrInserted(rows: seq<ComplexRow>, existing: set<ComplexName>, proteins: map<Uniprot, Id>,
                                 n: ComplexName)
    requires n in BuildComplexMap(rows, proteins).names
    ensures n in existing || exists c <- ComplexInserts(rows, existing, proteins) :: c.name == n
  {
    var names := CompleteNames(rows, proteins);
    var ix := Positions(CompleteMask(rows, proteins));
    var d := Dedupe(names);
    var k :| 0 <= k < |d| && d[k] == n;
    assert n in names;
    var j :| 0 <= j < |names| && names[j] == n;
    var i := ix[j];
    assert CompleteMask(rows, proteins)[i];
    ComplexInsertRule(rows, existing, proteins);
    if n !in existing {
      assert NewComplex(rows[i].name, rows[i].fields, rows[i].flags) in ComplexInserts(rows, existing, proteins);
    }
  }

  /** The protein ids of the edges of one complex, in edge order. */
  function MembersOf(es: seq<Edge>, complexId: Id): seq<Id>
  {
    if |es| == 0 then []
    else
      var ps := MembersOf(es[..|es| - 1], complexId);
      if es[|es| - 1].complexId == complexId then ps + [es[|es| - 1].proteinId] else ps
  }

  lemma {:induction false} MembersOfConcat(a: seq<Edge>, b: seq<Edge>, complexId: Id)
    ensures MembersOf(a + b, complexId) == MembersOf(a, complexId) + MembersOf(b, complexId)
  {
    if |b| == 0 {
      assert a + b == a;
    } else {
      assert (a + b)[..|a + b| - 1] == a + b[..|b| - 1];
      MembersOfConcat(a, b[..|b| - 1], complexId);
    }
  }

  /** The edges of one complex hold exactly its members for its own id and
      nothing for any other id. */
  lemma {:induction false} MembersOfFan(c: Id, ps: seq<Id>, complexId: Id)
    ensures MembersOf(Fan(c, ps), complexId) == if c == complexId then ps else []
  {
    if |ps| > 0 {
      var n := |ps| - 1;
      MembersOfFan(c, ps[..n], complexId);
      assert Fan(c, ps)[..n] == Fan(c, ps[..n]);
      assert ps[..n] + [ps[n]] == ps;
    }
  }

  lemma {:induction false} MembersOfNone(es: seq<Edge>, complexId: Id)
    requires forall e <- es :: e.complexId != complexId
    ensures MembersOf(es, complexId) == []
  {
    if |es| > 0 {
      MembersOfNone(es[..|es| - 1], complexId);
    }
  }

  /** Distinct stored names have distinct ids (the id is the table's key). */
  ghost predicate InjectiveOn(names: seq<ComplexName>, refetched: map<ComplexName, Id>)
  {
    forall i, j :: 0 <= i < j < |names| && names[i] in refetched && names[j] in refetched ==>
      refetched[names[i]] != refetched[names[j]]
  }

  /** No edge of the names in `names` carries the id of `last` when `last`
      is a further name whose id differs from theirs. */
  lemma EdgesAvoidOtherId(names: seq<ComplexName>, members: map<ComplexName, seq<Id>>, refetched: map<ComplexName, Id>,
                          id: Id)
    requires forall n <- names :: n in members
    requires CompositionEdges(names, members, refetched).Success?
    requires forall n <- names :: refetched[n] != id
    ensures MembersOf(CompositionEdges(names, members, refetched).value, id) == []
  {
    var es := CompositionEdges(names, members, refetched).value;
    forall e | e in es
      ensures e.complexId != id
    {
      var x :| x in names && e.complexId == refetched[x] && e.proteinId in members[x];
    }
    MembersOfNone(es, id);
  }

  /** Composition fan-out: when the edge loop succeeds, the edges carrying a
      name's id are exactly that name's members, in slot order, one edge
      per member; no edge pairs that id with another complex's members. */
  lemma {:induction false} EdgeFanOut(names: seq<ComplexName>, members: map<ComplexName, seq<Id>>, refetched: map<ComplexName, Id>)
    requires forall n <- names :: n in members
    requires NoDups(names)
    requires InjectiveOn(names, refetched)
    requires CompositionEdges(names, members, refetched).Success?
    ensures forall n <- names :: MembersOf(CompositionEdges(names, members, refetched).value, refetched[n]) == members[n]
  {
    if |names| > 0 {
      var k := |names| - 1;
      var prefix := names[..k];
      var last := names[k];
      assert names == prefix + [last];
      var r := CompositionEdges(prefix, members, refetched);
      assert r.Success?;
      EdgeFanOut(prefix, members, refetched);
      var fan := Fan(refetched[last], members[last]);
      var es := CompositionEdges(names, members, refetched).value;
      assert es == r.value + fan;
      forall n | n in names
        ensures MembersOf(es, refetched[n]) == members[n]
      {
        MembersOfConcat(r.value, fan, refetched[n]);
        MembersOfFan(refetched[last], members[last], refetched[n]);
        if n == last {
          forall x | x in prefix
            ensures refetched[x] != refetched[last]
          {
            var i :| 0 <= i < k && prefix[i] == x;
            assert names[i] == x;
          }
          EdgesAvoidOtherId(prefix, members, refetched, refetched[last]);
        } else {
          var i :| 0 <= i < |names| && names[i] == n;
          assert refetched[names[i]] != refetched[names[k]];
        }
      }
    }
  }

  /** Every complete name gets its edges, including a name that was already
      stored (and therefore not inserted again), with the member list of the
      last complete row carrying the name. */
  lemma ComplexEdges(rows: seq<ComplexRow>, existing: set<ComplexName>, proteins: map<Uniprot, Id>,
                     refetched: map<ComplexName, Id>)
    requires forall a, b :: a in refetched && b in refetched && a != b ==> refetched[a] != refetched[b]
    requires Complex(rows, existing, proteins, refetched).edges.Success?
    ensures var m := BuildComplexMap(rows, proteins);
            var es := Complex(rows, existing, proteins, refetched).edges.value;
            forall n <- m.members :: n in refetched && MembersOf(es, refetched[n]) == m.members[n]
  {
    var m := BuildComplexMap(rows, proteins);
    EdgeFanOut(m.names, m.members, refetched);
  }

  /** All-or-nothing membership: a name none of whose rows resolves
      completely is neither inserted nor entered in `complex_map`, so no edge
      carries its id. */
  lemma AllOrNothing(rows: seq<ComplexRow>, existing: set<ComplexName>, proteins: map<Uniprot, Id>,
                     refetched: map<ComplexName, Id>, n: ComplexName)
    requires forall i :: 0 <= i < |rows| && rows[i].name == n ==> !Complete(rows[i], proteins)
    requires forall a, b :: a in refetched && b in refetched && a != b ==> refetched[a] != refetched[b]
    ensures var out := Complex(rows, existing, proteins, refetched);
            && (forall c <- out.inserts :: c.name != n)
            && n !in BuildComplexMap(rows, proteins).members
            && (out.edges.Success? && n in refetched ==> forall e <- out.edges.value :: e.complexId != refetched[n])
  {
    var out := Complex(rows, existing, proteins, refetched);
    var m := BuildComplexMap(rows, proteins);
    var ix := Positions(InsertMask(rows, existing, proteins));
    forall c | c in out.inserts
      ensures c.name != n
    {
      var k :| 0 <= k < |out.inserts| && out.inserts[k] == c;
      assert InsertMask(rows, existing, proteins)[ix[k]];
    }
    if out.edges.Success? && n in refetched {
      forall e | e in out.edges.value
        ensures e.complexId != refetched[n]
      {
        var x :| x in m.names && e.complexId == refetched[x] && e.proteinId in m.members[x];
      }
    }
  }

  /** Which complexes are appended: exactly the complete rows whose name is
      not stored. Two complete rows with the same new name are both
      appended: names are not de-duplicated within one file. */
  lemma ComplexInsertRule(rows: seq<ComplexRow>, existing: set<ComplexName>, proteins: map<Uniprot, Id>)
    ensures var inserts := ComplexInserts(rows, existing, proteins);
            && (forall c <- inserts :: c.name !in existing &&
                  exists i :: 0 <= i < |rows| && Complete(rows[i], proteins) &&
                    c == NewComplex(rows[i].name, rows[i].fields, rows[i].flags))
            && (forall i :: 0 <= i < |rows| && Complete(rows[i], proteins) && rows[i].name !in existing ==>
                  NewComplex(rows[i].name, rows[i].fields, rows[i].flags) in inserts)
    ensures var inserts := ComplexInserts(rows, existing, proteins);
            forall i, j :: 0 <= i < j < |rows| && rows[i].name == rows[j].name && rows[i].name !in existing &&
                           Complete(rows[i], proteins) && Complete(rows[j], proteins) ==>
              exists a, b :: 0 <= a < b < |inserts| && inserts[a].name == rows[i].name && inserts[b].name == rows[i].name
  {
    var inserts := ComplexInserts(rows, existing, proteins);
    var mask := InsertMask(rows, existing, proteins);
    var ix := Positions(mask);
    forall c | c in inserts
      ensures c.name !in existing &&
              exists i :: 0 <= i < |rows| && Complete(rows[i], proteins) &&
                c == NewComplex(rows[i].name, rows[i].fields, rows[i].flags)
    {
      var k :| 0 <= k < |inserts| && inserts[k] == c;
      assert mask[ix[k]];
    }
    forall i | 0 <= i < |rows| && Complete(rows[i], proteins) && rows[i].name !in existing
      ensures NewComplex(rows[i].name, rows[i].fields, rows[i].flags) in inserts
    {
      assert mask[i];
      var k :| 0 <= k < |ix| && ix[k] == i;
    }
    forall i, j | 0 <= i < j < |rows| && rows[i].name == rows[j].name && rows[i].name !in existing &&
                  Complete(rows[i], proteins) && Complete(rows[j], proteins)
      ensures exists a, b :: 0 <= a < b < |inserts| && inserts[a].name == rows[i].name && inserts[b].name == rows[i].name
    {
      assert mask[i] && mask[j];
      var a :| 0 <= a < |ix| && ix[a] == i;
      var b :| 0 <= b < |ix| && ix[b] == j;
      IncreasingOrder(ix, a, b);
      assert inserts[a].name == rows[i].name && inserts[b].name == rows[j].name;
    }
  }

  /** The code's normal path: when the re-read name -> id map covers the
      stored names and the appended complexes, and ids are distinct, the
      edge loop succeeds and every name in `complex_map`, stored before or
      not, gets exactly its members as edges. */
  lemma ComplexEdgesAfterReread(rows: seq<ComplexRow>, existing: set<ComplexName>, proteins: map<Uniprot, Id>,
                                refetched: map<ComplexName, Id>)
    requires forall n :: n in existing ==> n in refetched
    requires forall c <- ComplexInserts(rows, existing, proteins) :: c.name in refetched
    requires forall a, b :: a in refetched && b in refetched && a != b ==> refetched[a] != refetched[b]
    ensures Complex(rows, existing, proteins, refetched).edges.Success?
    ensures var m := BuildComplexMap(rows, proteins);
            var es := Complex(rows, existing, proteins, refetched).edges.value;
            forall n <- m.members :: n in refetched && MembersOf(es, refetched[n]) == m.members[n]
  {
    var m := BuildComplexMap(rows, proteins);
    forall n | n in m.names
      ensures n in refetched
    {
      MapNamesStoredOrInserted(rows, existing, proteins, n);
    }
    ComplexEdges(rows, existing, proteins, refetched);
  }
}
