/** MeshEdgeTable: a two-level table from ordered vertex pairs to lists of
    signed face indices, and the iterator over its entries. */
module EdgeTable {

  datatype TableEdge = TableEdge(i1: int, faceIndexArray: seq<int>)

  type Row = seq<TableEdge>

  ghost predicate DistinctRow(row: Row) {
    forall p, q :: 0 <= p < q < |row| ==> row[p].i1 != row[q].i1
  }

  /** The list stored for v1 in a row; empty where there is none. */
  function RowList(row: Row, v1: int): seq<int> {
    if row == [] then [] else if row[0].i1 == v1 then row[0].faceIndexArray else RowList(row[1..], v1)
  }

  function ListOf(table: seq<Row>, v0: int, v1: int): seq<int> {
    if 0 <= v0 < |table| then RowList(table[v0], v1) else []
  }

  ghost predicate DistinctRows(table: seq<Row>) {
    forall v :: 0 <= v < |table| ==> DistinctRow(table[v])
  }

  /** Row v only holds pairs (v, w) with v <= w. */
  ghost predicate Ascending(table: seq<Row>) {
    forall v, p :: 0 <= v < |table| && 0 <= p < |table[v]| ==> v <= table[v][p].i1
  }

  lemma {:induction false} RowListMissing(row: Row, v1: int)
    requires forall p :: 0 <= p < |row| ==> row[p].i1 != v1
    ensures RowList(row, v1) == []
  {
    if row != [] {
      RowListMissing(row[1..], v1);
    }
  }

  lemma {:induction false} RowListAt(row: Row, p: nat)
    requires DistinctRow(row) && p < |row|
    ensures RowList(row, row[p].i1) == row[p].faceIndexArray
  {
    if p > 0 {
      RowListAt(row[1..], p - 1);
    }
  }

  lemma {:induction false} RowListAppend(row: Row, entry: TableEdge, v1: int)
    requires forall p :: 0 <= p < |row| ==> row[p].i1 != entry.i1
    ensures RowList(row + [entry], v1) == if v1 == entry.i1 then entry.faceIndexArray else RowList(row, v1)
  {
    if row != [] {
      assert (row + [entry])[1..] == row[1..] + [entry];
      RowListAppend(row[1..], entry, v1);
    }
  }

  lemma {:induction false} RowListUpdate(row: Row, p: nat, list: seq<int>, v1: int)
    requires DistinctRow(row) && p < |row|
    ensures RowList(row[p := TableEdge(row[p].i1, list)], v1) == if v1 == row[p].i1 then list else RowList(row, v1)
  {
    if p == 0 {
      assert row[0 := TableEdge(row[0].i1, list)][1..] == row[1..];
    } else {
      assert row[p := TableEdge(row[p].i1, list)][1..] == row[1..][p - 1 := TableEdge(row[p].i1, list)];
      RowListUpdate(row[1..], p - 1, list, v1);
    }
  }

  /** A non-empty list is stored in some entry of its row. */
  lemma {:induction false} RowListStored(row: Row, v1: int) returns (p: nat)
    requires RowList(row, v1) != []
    ensures p < |row| && row[p].i1 == v1
  {
    if row[0].i1 == v1 {
      p := 0;
    } else {
      p := RowListStored(row[1..], v1);
      p := p + 1;
    }
  }

  /** The entries of t keep their places in u, where the pair (v0, v1) may have a new last one. */
  ghost predicate RowGrown(t: seq<Row>, u: seq<Row>, v0: int, v1: int) {
    && |t| == |u|
    && forall v :: 0 <= v < |t| ==>
      && |t[v]| <= |u[v]| <= |t[v]| + 1
      && (forall p :: 0 <= p < |t[v]| ==> u[v][p].i1 == t[v][p].i1)
      && (|u[v]| == |t[v]| + 1 ==>
            v == v0 && u[v][|t[v]|].i1 == v1 && forall p :: 0 <= p < |t[v]| ==> t[v][p].i1 != v1)
  }

  class MeshEdgeTable {
    var table: seq<Row>

    constructor (maxV: nat)
      ensures |table| == maxV && DistinctRows(table) && Ascending(table)
      ensures forall a, b :: ListOf(table, a, b) == []
      ensures forall v :: 0 <= v < maxV ==> table[v] == []
    {
      table := seq(maxV, _ => []);
    }

    /** Appends the face index to the list of the pair (v0, v1). */
    method Insert(v0: int, v1: int, faceIndex: int)
      requires 0 <= v0 < |table| && v0 <= v1
      requires DistinctRows(table) && Ascending(table)
      modifies this
      ensures |table| == old(|table|) && DistinctRows(table) && Ascending(table)
      ensures forall a, b ::
        ListOf(table, a, b) == old(ListOf(table, a, b)) + (if a == v0 && b == v1 then [faceIndex] else [])
      ensures RowGrown(old(table), table, v0, v1)
    {
      var edgeArray := table[v0];
      assert DistinctRow(edgeArray);
      for i := 0 to |edgeArray|
        invariant table == old(table)
        invariant forall k :: 0 <= k < i ==> edgeArray[k].i1 != v1
      {
        if edgeArray[i].i1 == v1 {
          var list := edgeArray[i].faceIndexArray + [faceIndex];
          var row := edgeArray[i := TableEdge(v1, list)];
          table := table[v0 := row];
          RowListAt(edgeArray, i);
          forall b ensures RowList(row, b) == if b == v1 then list else RowList(edgeArray, b) {
            RowListUpdate(edgeArray, i, list, b);
          }
          assert DistinctRow(row);
          return;
        }
      }
      var entry := TableEdge(v1, [faceIndex]);
      table := table[v0 := edgeArray + [entry]];
      RowListMissing(edgeArray, v1);
      forall b ensures RowList(edgeArray + [entry], b) == if b == v1 then [faceIndex] else RowList(edgeArray, b) {
        RowListAppend(edgeArray, entry, b);
      }
      assert DistinctRow(edgeArray + [entry]);
    }

    /** What is left in the list of one entry after its faces have been paired. */
    method StoreList(i0: int, p: int, list: seq<int>)
      requires 0 <= i0 < |table| && 0 <= p < |table[i0]|
      requires DistinctRows(table) && Ascending(table)
      modifies this
      ensures DistinctRows(table) && Ascending(table)
      ensures SameShape(old(table), table)
      ensures forall a, b ::
        ListOf(table, a, b) == (if a == i0 && b == old(table[i0][p].i1) then list else old(ListOf(table, a, b)))
      ensures forall v, q :: IsEntry(table, v, q) ==>
        table[v][q].faceIndexArray == if v == i0 && q == p then list else old(table)[v][q].faceIndexArray
    {
      var row := table[i0];
      assert DistinctRow(row);
      var row' := row[p := row[p].(faceIndexArray := list)];
      forall b ensures RowList(row', b) == if b == row[p].i1 then list else RowList(row, b) {
        RowListUpdate(row, p, list, b);
      }
      assert DistinctRow(row');
      table := table[i0 := row'];
    }
  }

  /** The same entries for the same pairs, whatever their lists hold. */
  ghost predicate SameShape(t: seq<Row>, u: seq<Row>) {
    && |t| == |u|
    && forall v :: 0 <= v < |t| ==> |t[v]| == |u[v]| && forall p :: 0 <= p < |t[v]| ==> t[v][p].i1 == u[v][p].i1
  }

  /** Entry (i, p) comes before position (i0, p0) in table order. */
  predicate Precedes(i: int, p: int, i0: int, p0: int) {
    i < i0 || (i == i0 && p < p0)
  }

  predicate IsEntry(table: seq<Row>, i: int, p: int) {
    0 <= i < |table| && 0 <= p < |table[i]|
  }

  class Iterator {
    var i0: int
    var p: int
    const source: MeshEdgeTable
    var end: bool

    /** At an entry, or past the last one. */
    ghost predicate Valid()
      reads this, source
    {
      if end then i0 == |source.table| else IsEntry(source.table, i0, p)
    }

    constructor (t: MeshEdgeTable)
      ensures source == t && Valid()
      ensures forall i, q :: IsEntry(source.table, i, q) ==> !Precedes(i, q, i0, p)
    {
      source := t;
      i0, p, end := -1, -1, false;
      new;
      Advance();
    }

    /** operator++: steps to the next entry, skipping vertices without any. */
    method Advance()
      requires !end && (IsEntry(source.table, i0, p) || (i0 == -1 && p == -1))
      modifies this
      ensures Valid()
      ensures forall i, q :: IsEntry(source.table, i, q) ==>
        (Precedes(i, q, i0, p) <==> Precedes(i, q, old(i0), old(p)) || (i == old(i0) && q == old(p)))
    {
      if i0 >= 0 && p < |source.table[i0]| - 1 {
        p := p + 1;
      } else {
        while true
          invariant !end && -1 <= i0 < |source.table| && old(i0) <= i0
          invariant i0 == old(i0) ==> p == old(p)
          invariant i0 != old(i0) ==> p == 0 && |source.table[i0]| == 0
          invariant forall i :: old(i0) < i <= i0 ==> |source.table[i]| == 0
          decreases |source.table| - i0
        {
          i0 := i0 + 1;
          if i0 == |source.table| {
            end := true;
            return;
          }
          p := 0;
          if |source.table[i0]| != 0 {
            break;
          }
        }
      }
    }
  }
}
