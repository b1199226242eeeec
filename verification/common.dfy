/** Shared vocabulary of the reconciliation model: optional cells, results,
    cell values, and two sequence tools used to state "in input order" and
    "one per key" properties. */
module Common {

  /** A nullable cell or reference. */
  datatype Option<+T> = None | Some(value: T)

  /** The outcome of a step that can raise. */
  datatype Result<+R, +E> = Success(value: R) | Failure(error: E)

  /** Column name of a tabular frame. */
  type Column = string

  /** Internal (auto-increment) identifier assigned by the store. */
  type Id = nat

  /** Natural key of a protein (a UniProt accession). */
  type Uniprot = string

  /** A non-null descriptive cell. A null cell is represented by the
      column being absent from a row's field map. */
  datatype Value = Text(text: string) | Number(number: int)

  /** The boolean capability flags a protein row carries. Complexes carry
      a subset of the same flags. */
  datatype Flag =
    | Transmembrane | Secretion | Peripheral | Receptor | ReceptorHighlight
    | Adhesion | Other | Transporter | SecretedHighlight

  /** The cell of column `c` in a field map, null when absent. */
  function Lookup<K, V>(m: map<K, V>, k: K): Option<V>
  {
    if k in m then Some(m[k]) else None
  }

  /** Two field maps with the same cell in every column are the same map. */
  lemma LookupExtensional<K, V>(a: map<K, V>, b: map<K, V>)
    requires forall k :: Lookup(a, k) == Lookup(b, k)
    ensures a == b
  {
    forall k | k in a
      ensures k in b && a[k] == b[k]
    {
      assert Lookup(a, k) == Lookup(b, k);
    }
    forall k | k in b
      ensures k in a
    {
      assert Lookup(a, k) == Lookup(b, k);
    }
  }

  predicate NoDups<T(==)>(s: seq<T>)
  {
    forall i, j :: 0 <= i < j < |s| ==> s[i] != s[j]
  }

  ghost predicate StrictlyIncreasing(ix: seq<nat>)
  {
    forall i, j :: 0 <= i < j < |ix| ==> ix[i] < ix[j]
  }

  /** Entries picked from a duplicate-free sequence at strictly increasing
      positions are duplicate-free. */
  lemma PickedDistinct<T>(s: seq<T>, ix: seq<nat>, picked: seq<T>)
    requires NoDups(s) && StrictlyIncreasing(ix)
    requires |picked| == |ix|
    requires forall k :: 0 <= k < |ix| ==> ix[k] < |s| && picked[k] == s[ix[k]]
    ensures NoDups(picked)
  {
    forall i, j | 0 <= i < j < |picked|
      ensures picked[i] != picked[j]
    {
      assert ix[i] < ix[j];
    }
  }

  /** In a strictly increasing list, a smaller entry sits earlier. */
  lemma IncreasingOrder(ix: seq<nat>, a: nat, b: nat)
    requires StrictlyIncreasing(ix)
    requires a < |ix| && b < |ix| && ix[a] < ix[b]
    ensures a < b
  {
  }

  /** The positions at which `mask` holds, in increasing order: the row
      indices a boolean row filter keeps. */
  function Positions(mask: seq<bool>): (ix: seq<nat>)
    ensures StrictlyIncreasing(ix)
    ensures forall k :: 0 <= k < |ix| ==> ix[k] < |mask| && mask[ix[k]]
    ensures forall i :: 0 <= i < |mask| && mask[i] ==> i in ix
  {
    if |mask| == 0 then []
    else
      var ix := Positions(mask[..|mask| - 1]);
      if mask[|mask| - 1] then ix + [|mask| - 1] else ix
  }

  /** The distinct elements of `s` in order of first occurrence. */
  function Dedupe<T(==)>(s: seq<T>): (r: seq<T>)
    ensures NoDups(r)
    ensures forall k :: 0 <= k < |r| ==> r[k] in s
    ensures forall i :: 0 <= i < |s| ==> s[i] in r
  {
    if |s| == 0 then []
    else
      var r := Dedupe(s[..|s| - 1]);
      if s[|s| - 1] in r then r else r + [s[|s| - 1]]
  }

  /** Which positions of `s` hold the first occurrence of their element. */
  function FirstMask<T(==)>(s: seq<T>): (mask: seq<bool>)
    ensures |mask| == |s|
    ensures forall i :: 0 <= i < |s| ==> (mask[i] <==> s[i] !in s[..i])
  {
    seq(|s|, i requires 0 <= i < |s| => s[i] !in s[..i])
  }

  /** `Dedupe` keeps exactly the first occurrences, in their order in `s`. */
  lemma {:induction false} DedupeIsFirstOccurrences<T>(s: seq<T>)
    ensures var ix := Positions(FirstMask(s));
            |Dedupe(s)| == |ix| && forall k :: 0 <= k < |ix| ==> Dedupe(s)[k] == s[ix[k]]
  {
    if |s| > 0 {
      var n := |s| - 1;
      var front := s[..n];
      DedupeIsFirstOccurrences(front);
      var ix0 := Positions(FirstMask(front));
      var d0 := Dedupe(front);
      FirstMaskPrefix(s);
      var isNew := s[n] !in front;
      assert Positions(FirstMask(s)) == if isNew then ix0 + [n] else ix0;
      assert s[n] in front <==> s[n] in d0;
      assert Dedupe(s) == if isNew then d0 + [s[n]] else d0;
      forall k | 0 <= k < |ix0|
        ensures ix0[k] < |s| && d0[k] == s[ix0[k]]
      {
        assert front[ix0[k]] == s[ix0[k]];
      }
      PickedSnoc(s, ix0, d0, isNew);
    }
  }

  /** Extending a picking of `s` by its last element, or not at all. */
  lemma PickedSnoc<T>(s: seq<T>, ix0: seq<nat>, d0: seq<T>, b: bool)
    requires |s| > 0 && |d0| == |ix0|
    requires forall k :: 0 <= k < |ix0| ==> ix0[k] < |s| && d0[k] == s[ix0[k]]
    ensures var ix := if b then ix0 + [|s| - 1] else ix0;
            var d := if b then d0 + [s[|s| - 1]] else d0;
            |d| == |ix| && forall k :: 0 <= k < |ix| ==> d[k] == s[ix[k]]
  {
  }

  /** The first-occurrence mask of a prefix is the prefix of the mask. */
  lemma FirstMaskPrefix<T>(s: seq<T>)
    requires |s| > 0
    ensures FirstMask(s)[..|s| - 1] == FirstMask(s[..|s| - 1])
  {
    var front := s[..|s| - 1];
    forall i | 0 <= i < |front|
      ensures FirstMask(s)[i] == FirstMask(front)[i]
    {
      assert front[..i] == s[..i];
    }
  }

  /** Two complementary filters split a frame: together they keep every row once. */
  lemma {:induction false} PositionsComplement(a: seq<bool>, b: seq<bool>)
    requires |a| == |b|
    requires forall i :: 0 <= i < |a| ==> (a[i] <==> !b[i])
    ensures |Positions(a)| + |Positions(b)| == |a|
  {
    if |a| > 0 {
      PositionsComplement(a[..|a| - 1], b[..|b| - 1]);
    }
  }

  /** Concatenating two duplicate-free sequences with no common element. */
  lemma NoDupsConcat<T>(a: seq<T>, b: seq<T>)
    requires NoDups(a) && NoDups(b)
    requires forall x <- b :: x !in a
    ensures NoDups(a + b)
  {
    forall i, j | 0 <= i < j < |a + b|
      ensures (a + b)[i] != (a + b)[j]
    {
      if i < |a| <= j {
        assert (a + b)[i] == a[i];
        assert (a + b)[j] == b[j - |a|];
        assert b[j - |a|] in b;
      } else if |a| <= i {
        assert (a + b)[i] == b[i - |a|] && (a + b)[j] == b[j - |a|];
      }
    }
  }
}
