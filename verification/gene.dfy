/** Gene import (`Collector.gene`): incoming gene rows whose Ensembl id is
    not yet stored are emitted with their protein reference resolved to an
    internal protein id, or to null when the reference does not resolve. */
module GeneImport {
  import opened Common

  /** Natural key of a gene (an Ensembl id). */
  type Ensembl = string

  /** One row of the gene file; the gene name may be null. */
  datatype GeneRow = GeneRow(ensembl: Ensembl, name: Option<string>, proteinUniprot: Option<Uniprot>)

  /** One record appended to the gene table: `(ensembl, name, protein_id)`. */
  datatype NewGene = NewGene(ensembl: Ensembl, name: Option<string>, proteinId: Option<Id>)

  /** The protein id a gene's protein reference resolves to through the
      uniprot -> id index; null for a null or unknown reference. */
  function ProteinIdOf(ref: Option<Uniprot>, proteins: map<Uniprot, Id>): Option<Id>
  {
    if ref.Some? && ref.value in proteins then Some(proteins[ref.value]) else None
  }

  /** Which rows survive the "already stored" filter. */
  function NotStored(rows: seq<GeneRow>, existing: set<Ensembl>): (mask: seq<bool>)
    ensures |mask| == |rows|
    ensures forall i :: 0 <= i < |rows| ==> (mask[i] <==> rows[i].ensembl !in existing)
  {
    seq(|rows|, i requires 0 <= i < |rows| => rows[i].ensembl !in existing)
  }

  /** The gene records one import appends, given the stored Ensembl ids and
      the stored uniprot -> protein id index. */
  function Gene(rows: seq<GeneRow>, existing: set<Ensembl>, proteins: map<Uniprot, Id>): (out: seq<NewGene>)
    // the k-th record comes from the k-th row that is not yet stored
    ensures var ix := Positions(NotStored(rows, existing));
            |out| == |ix| &&
            forall k :: 0 <= k < |out| ==>
              out[k].ensembl == rows[ix[k]].ensembl && out[k].name == rows[ix[k]].name
    // its protein id is the indexed id when the reference resolves, null otherwise
    ensures var ix := Positions(NotStored(rows, existing));
            forall k :: 0 <= k < |out| ==>
              var ref := rows[ix[k]].proteinUniprot;
              (ref.Some? && ref.value in proteins ==> out[k].proteinId == Some(proteins[ref.value])) &&
              (ref.None? || ref.value !in proteins ==> out[k].proteinId.None?)
  {
    if |rows| == 0 then []
    else
      var n := |rows| - 1;
      assert NotStored(rows, existing)[..n] == NotStored(rows[..n], existing);
      var out := Gene(rows[..n], existing, proteins);
      var r := rows[n];
      if r.ensembl in existing then out
      else out + [NewGene(r.ensembl, r.name, ProteinIdOf(r.proteinUniprot, proteins))]
  }

  /** No stored Ensembl id is emitted again, and every row that is not stored
      is emitted, even when its protein reference does not resolve. */
  lemma GeneFilterAndResolution(rows: seq<GeneRow>, existing: set<Ensembl>, proteins: map<Uniprot, Id>)
    ensures forall g <- Gene(rows, existing, proteins) :: g.ensembl !in existing
    ensures forall r <- rows :: r.ensembl !in existing ==>
              NewGene(r.ensembl, r.name, ProteinIdOf(r.proteinUniprot, proteins)) in Gene(rows, existing, proteins)
    ensures forall r <- rows :: r.ensembl !in existing && (r.proteinUniprot.None? || r.proteinUniprot.value !in proteins) ==>
              NewGene(r.ensembl, r.name, None) in Gene(rows, existing, proteins)
  {
    var out := Gene(rows, existing, proteins);
    var mask := NotStored(rows, existing);
    var ix := Positions(mask);
    assert |out| == |ix|;
    forall g | g in out
      ensures g.ensembl !in existing
    {
      var k :| 0 <= k < |out| && out[k] == g;
      assert ix[k] < |rows| && mask[ix[k]];
    }
    forall i | 0 <= i < |rows| && rows[i].ensembl !in existing
      ensures NewGene(rows[i].ensembl, rows[i].name, ProteinIdOf(rows[i].proteinUniprot, proteins)) in out
    {
      UnstoredRowEmitted(rows, existing, proteins, i);
    }
  }

  /** One unstored row is emitted, with its resolved protein id. */
  lemma UnstoredRowEmitted(rows: seq<GeneRow>, existing: set<Ensembl>, proteins: map<Uniprot, Id>, i: nat)
    requires i < |rows| && rows[i].ensembl !in existing
    ensures NewGene(rows[i].ensembl, rows[i].name, ProteinIdOf(rows[i].proteinUniprot, proteins)) in Gene(rows, existing, proteins)
  {
    var out := Gene(rows, existing, proteins);
    var ix := Positions(NotStored(rows, existing));
    assert NotStored(rows, existing)[i];
    var k :| 0 <= k < |ix| && ix[k] == i;
    assert out[k] == NewGene(rows[i].ensembl, rows[i].name, ProteinIdOf(rows[i].proteinUniprot, proteins));
  }
}
