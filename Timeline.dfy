/**
  One column of a timeline's key-group table (`TimelineTree.KeyGroupColumn`):
  a named list of values that grows at the end and prints the value of a row,
  or a placeholder for a row it has no value for.
*/
module Timeline {
  import Heap

  /** How a column prints a value: the default `PlainTextCell`, or a printer the caller supplied. */
  datatype Printer = PlainTextCell | Supplied(id: nat)

  /** What `PrintValueAt` puts in a cell: a value through the column's printer, or `...`. */
  datatype Cell<T> = ValueCell(printer: Printer, value: T) | Placeholder

  /** The cell of row `i` for a column holding `values`. */
  function CellAt<T>(values: seq<T>, printer: Printer, i: nat): (c: Cell<T>)
    ensures c.Placeholder? <==> i >= |values|
    ensures c.ValueCell? ==> c.printer == printer && c.value == values[i]
  {
    if i < |values| then ValueCell(printer, values[i]) else Placeholder
  }

  /**
    Appending a value fills exactly the first empty row: that row now shows
    the new value and every earlier row shows what it showed before.
  */
  lemma {:induction false} AppendFillsNextRow<T>(values: seq<T>, printer: Printer, x: T, i: nat)
    ensures CellAt(values + [x], printer, |values|) == ValueCell(printer, x)
    ensures i != |values| ==> CellAt(values + [x], printer, i) == CellAt(values, printer, i)
  {
    var vs := values + [x];
    assert vs[|values|] == x;
    if i < |values| {
      assert vs[i] == values[i];
    }
  }

  class KeyGroupColumn<T> {
    var name: string
    const width: real
    var printFunc: Printer
    var values: seq<T>

    /** A new column: empty, 50 wide, printing with `PlainTextCell` unless a printer is given. */
    constructor(name: string, printFunc: Heap.Option<Printer>)
      ensures this.name == name && width == 50.0 && values == []
      ensures this.printFunc == if printFunc.Some? then printFunc.value else PlainTextCell
    {
      this.name := name;
      this.printFunc := if printFunc.Some? then printFunc.value else PlainTextCell;
      values := [];
      width := 50.0;
    }

    /** `Count`: the number of values. */
    function Count(): (n: nat)
      reads this
      ensures n == |values|
    {
      |values|
    }

    /** `Add`: the value goes at the end and nothing else changes. */
    method Add(val: T)
      modifies this
      ensures values == old(values) + [val]
      ensures name == old(name) && printFunc == old(printFunc)
    {
      values := values + [val];
    }

    /**
      `PrintValueAt`: the value of row `i` through the column's printer when
      the column has more than `i` values, otherwise the placeholder.  The row
      is never negative: the `Count > i` test alone would let a negative `i`
      through to the list indexer.
    */
    method PrintValueAt(i: int) returns (c: Cell<T>)
      requires i >= 0
      ensures c == CellAt(values, printFunc, i)
    {
      if |values| > i {
        c := ValueCell(printFunc, values[i]);
      } else {
        c := Placeholder;
      }
    }
  }
}
