/** The label tree of the report: a root marked "|" whose children are the header's
    label rows that have a length greater than 0, in header order. Rows are taken as
    the decoder hands them over (a row with only its padding is handed over empty). */
module Labels {

  newtype byte = x: int | 0 <= x < 256

  /** One label record of the header, as raw bytes. */
  type Row = seq<byte>

  /** The marker text of the tree's root. */
  const RootMarker: string := "|"

  datatype LabelTree = LabelTree(marker: string, children: seq<Row>)

  /** The rows the tree keeps, in order. */
  function NonEmptyRows(rows: seq<Row>): (kept: seq<Row>)
    ensures |kept| <= |rows|
  {
    if rows == [] then []
    else if |rows[|rows| - 1]| > 0 then NonEmptyRows(rows[..|rows| - 1]) + [rows[|rows| - 1]]
    else NonEmptyRows(rows[..|rows| - 1])
  }

  /** Number of zero-length rows. */
  function CountEmpty(rows: seq<Row>): (c: nat)
    ensures c <= |rows|
  {
    if rows == [] then 0 else (if |rows[0]| == 0 then 1 else 0) + CountEmpty(rows[1..])
  }

  /** The loop over `header.label`, adding each non-empty row to the tree. */
  method BuildLabelTree(rows: seq<Row>) returns (tree: LabelTree)
    ensures tree == LabelTree(RootMarker, NonEmptyRows(rows))
  {
    var children: seq<Row> := [];
    for i := 0 to |rows|
      invariant children == NonEmptyRows(rows[..i])
    {
      assert rows[..i + 1][..i] == rows[..i];
      if |rows[i]| > 0 {
        children := children + [rows[i]];
      }
    }
    assert rows[..|rows|] == rows;
    return LabelTree(RootMarker, children);
  }

  /** Filtering a concatenation filters each part: the kept rows keep their
      relative order, and no placeholder marks a dropped row. */
  lemma {:induction false} NonEmptyRowsAppend(a: seq<Row>, b: seq<Row>)
    ensures NonEmptyRows(a + b) == NonEmptyRows(a) + NonEmptyRows(b)
    decreases |b|
  {
    if b == [] {
      assert a + b == a;
    } else {
      var b' := b[..|b| - 1];
      assert (a + b)[..|a + b| - 1] == a + b';
      NonEmptyRowsAppend(a, b');
    }
  }

  /** The tree holds a row exactly when the header has it and it is not empty. */
  lemma {:induction false} NonEmptyRowsMembers(rows: seq<Row>)
    ensures forall r :: r in NonEmptyRows(rows) <==> r in rows && |r| > 0
  {
    if rows != [] {
      var init := rows[..|rows| - 1];
      NonEmptyRowsMembers(init);
      assert rows == init + [rows[|rows| - 1]];
    }
  }

  /** A single row is kept exactly when it is not empty. */
  lemma NonEmptyRowsSingle(r: Row)
    ensures NonEmptyRows([r]) == if |r| > 0 then [r] else []
  {
    assert [r][..0] == [];
  }

  /** Every kept row is non-empty, and the rows dropped are exactly the empty ones. */
  lemma {:induction false} NonEmptyRowsCount(rows: seq<Row>)
    ensures |NonEmptyRows(rows)| == |rows| - CountEmpty(rows)
    ensures forall i :: 0 <= i < |NonEmptyRows(rows)| ==> |NonEmptyRows(rows)[i]| > 0
  {
    if rows != [] {
      NonEmptyRowsCount(rows[1..]);
      NonEmptyRowsSingle(rows[0]);
      assert rows == [rows[0]] + rows[1..];
      NonEmptyRowsAppend([rows[0]], rows[1..]);
    }
  }

  /** Building the tree from its own children changes nothing. */
  lemma {:induction false} NonEmptyRowsIdempotent(rows: seq<Row>)
    ensures NonEmptyRows(NonEmptyRows(rows)) == NonEmptyRows(rows)
  {
    if rows != [] {
      var init := rows[..|rows| - 1];
      var last := rows[|rows| - 1];
      NonEmptyRowsIdempotent(init);
      if |last| > 0 {
        NonEmptyRowsAppend(NonEmptyRows(init), [last]);
        NonEmptyRowsSingle(last);
      }
    }
  }

  /** The header positions of the rows the tree keeps, in order. */
  function KeptPositions(rows: seq<Row>): (pos: seq<nat>)
    ensures forall i :: 0 <= i < |pos| ==> pos[i] < |rows|
  {
    if rows == [] then []
    else if |rows[|rows| - 1]| > 0 then KeptPositions(rows[..|rows| - 1]) + [|rows| - 1]
    else KeptPositions(rows[..|rows| - 1])
  }

  /** The kept positions are exactly the positions of the non-empty rows. */
  lemma {:induction false} KeptPositionsExact(rows: seq<Row>)
    ensures forall j :: 0 <= j < |rows| ==> (j in KeptPositions(rows) <==> |rows[j]| > 0)
  {
    if rows != [] {
      var init := rows[..|rows| - 1];
      KeptPositionsExact(init);
      assert forall j :: 0 <= j < |init| ==> rows[j] == init[j];
    }
  }

  /** Kept positions strictly increase. */
  lemma {:induction false} KeptPositionsIncreasing(rows: seq<Row>)
    ensures forall i :: 0 < i < |KeptPositions(rows)| ==>
      KeptPositions(rows)[i - 1] < KeptPositions(rows)[i]
  {
    if rows != [] {
      KeptPositionsIncreasing(rows[..|rows| - 1]);
    }
  }

  /** The i-th child is the row at the i-th kept position: together with
      KeptPositionsIncreasing, the children keep the header's relative order. */
  lemma {:induction false} NonEmptyRowsOrdered(rows: seq<Row>)
    ensures |KeptPositions(rows)| == |NonEmptyRows(rows)|
    ensures forall i :: 0 <= i < |KeptPositions(rows)| ==>
      rows[KeptPositions(rows)[i]] == NonEmptyRows(rows)[i]
  {
    if rows != [] {
      var init := rows[..|rows| - 1];
      NonEmptyRowsOrdered(init);
      var pos, kept := KeptPositions(init), NonEmptyRows(init);
      if |rows[|rows| - 1]| > 0 {
        var pos', kept' := pos + [|rows| - 1], kept + [rows[|rows| - 1]];
        forall i | 0 <= i < |pos'| ensures rows[pos'[i]] == kept'[i] {
          if i < |pos| {
            assert rows[pos[i]] == init[pos[i]];
          }
        }
      } else {
        forall i | 0 <= i < |pos| ensures rows[pos[i]] == kept[i] {
          assert rows[pos[i]] == init[pos[i]];
        }
      }
    }
  }

  /** Worked value: the zero-length rows are dropped, every other row is kept,
      including one made only of spaces. */
  lemma LabelExample(first: Row, blank: Row, second: Row)
    requires |first| > 0 && |second| > 0 && blank == [32, 32]
    ensures NonEmptyRows([first, [], blank, second]) == [first, blank, second]
  {
    var rows: seq<Row> := [first, [], blank, second];
    assert rows[..3] == [first, [], blank];
    assert [first, [], blank][..2] == [first, []];
    assert [first, []][..1] == [first];
    assert [first][..0] == [];
    assert NonEmptyRows([first, []]) == [first];
    assert NonEmptyRows([first, [], blank]) == [first, blank];
  }
}
