/** Column projection of an incoming frame onto the columns the target table
    defines (`Collector._remove_not_defined_columns`). */
module Columns {
  import opened Common

  /** Which header positions name a defined column. */
  function DefinedMask(keys: seq<Column>, defined: set<Column>): (mask: seq<bool>)
    ensures |mask| == |keys|
    ensures forall i :: 0 <= i < |keys| ==> (mask[i] <==> keys[i] in defined)
  {
    seq(|keys|, i requires 0 <= i < |keys| => keys[i] in defined)
  }

  /** The header after every column that the table does not define has been
      dropped: the surviving columns, in their original order. */
  function RemoveNotDefinedColumns(keys: seq<Column>, defined: set<Column>): (kept: seq<Column>)
    ensures var ix := Positions(DefinedMask(keys, defined));
            |kept| == |ix| && forall k :: 0 <= k < |kept| ==> kept[k] == keys[ix[k]]
    ensures forall c :: c in kept <==> c in keys && c in defined
  {
    if |keys| == 0 then []
    else
      var n := |keys| - 1;
      assert DefinedMask(keys, defined)[..n] == DefinedMask(keys[..n], defined);
      var kept := RemoveNotDefinedColumns(keys[..n], defined);
      assert forall c :: c in keys <==> c in keys[..n] || c == keys[n] by {
        assert keys == keys[..n] + [keys[n]];
      }
      if keys[n] in defined then kept + [keys[n]] else kept
  }
}
