/**
 A dataframe's cells over its one data block: typed lookup through the header kept
 in front of the columns, and rows added by flattening scalars, arrays and tuples.
 Memory is in 4-byte words; an 8-byte value is two of them.
 */
module Dataframe {
  import opened Wrappers
  import opened Bits
  import opened DataframeLayout

  datatype Atype = Category | Timestamp | I8 | F8 | I4 | F4

  datatype FrameError = InvalidInput | OutOfBounds | TypeMismatch

  predicate IsWide(a: Atype) {
    a == Timestamp || a == I8 || a == F8
  }

  /** A scalar argument: its C++ type is an integer or floating type of 4 or 8 bytes. */
  datatype Value = Narrow(floating: bool, word: int) | Wide(floating: bool, low: int, high: int)

  /** `castable<T>::atypes` */
  predicate Castable(v: Value, a: Atype) {
    match v
    case Narrow(floating, _) => if floating then a == F4 else a == Category || a == I4
    case Wide(floating, _, _) => if floating then a == F8 else a == Timestamp || a == I8
  }

  function WordsOf(v: Value): seq<int> {
    match v
    case Narrow(_, w) => [w]
    case Wide(_, low, high) => [low, high]
  }

  /** An argument of `add_row`: a scalar, or an array or tuple of arguments. */
  datatype Arg = Scalar(value: Value) | Group(items: seq<Arg>)

  function Flatten(arg: Arg): seq<Value>
    decreases arg, 1
  {
    match arg
    case Scalar(v) => [v]
    case Group(items) => FlattenAll(items)
  }

  /** "the array/tuple is flattened out" */
  function FlattenAll(args: seq<Arg>): seq<Value>
    decreases args, 0
  {
    if args == [] then [] else Flatten(args[0]) + FlattenAll(args[1..])
  }

  lemma {:induction false} FlattenConcat(a: seq<Arg>, b: seq<Arg>)
    ensures FlattenAll(a + b) == FlattenAll(a) + FlattenAll(b)
    decreases |a|
  {
    if a == [] {
      assert a + b == b;
    } else {
      assert (a + b)[0] == a[0] && (a + b)[1..] == a[1..] + b;
      FlattenConcat(a[1..], b);
      assert FlattenAll(a + b) == Flatten(a[0]) + (FlattenAll(a[1..]) + FlattenAll(b));
    }
  }

  /** Flattening keeps every scalar, in order, whatever the grouping. */
  lemma FlattenKeepsScalars(v: Value, x: Arg, a: seq<Arg>, b: seq<Arg>)
    ensures Flatten(Scalar(v)) == [v]
    ensures FlattenAll([x]) == Flatten(x) == Flatten(Group([x]))
    ensures FlattenAll(a) == Flatten(Group(a)) && Flatten(Group([])) == []
    ensures FlattenAll(a + b) == FlattenAll(a) + FlattenAll(b)
    ensures Flatten(Group(a + b)) == Flatten(Group(a)) + Flatten(Group(b))
  {
    FlattenConcat(a, b);
    assert [x][1..] == [];
  }

  /** `arg_width`: the number of columns an argument fills. */
  function ArgWidth(arg: Arg): nat
    decreases arg, 1
  {
    match arg
    case Scalar(_) => 1
    case Group(items) => ArgsWidth(items)
  }

  /** `tuple_arg_width` and `col_count_impl` */
  function ArgsWidth(args: seq<Arg>): nat
    decreases args, 0
  {
    if args == [] then 0 else ArgWidth(args[0]) + ArgsWidth(args[1..])
  }

  lemma {:induction false} WidthIsLength(arg: Arg)
    ensures ArgWidth(arg) == |Flatten(arg)|
    decreases arg, 1
  {
    if arg.Group? {
      WidthsAddUp(arg.items);
    }
  }

  lemma {:induction false} WidthsAddUp(args: seq<Arg>)
    ensures ArgsWidth(args) == |FlattenAll(args)|
    decreases args, 0
  {
    if args != [] {
      WidthIsLength(args[0]);
      WidthsAddUp(args[1..]);
    }
  }

  function WideBits(schema: seq<Atype>): (wide: seq<bool>)
    ensures |wide| == |schema| && forall c {:trigger wide[c]} | 0 <= c < |wide| :: wide[c] == IsWide(schema[c])
  {
    seq(|schema|, c requires 0 <= c < |schema| => IsWide(schema[c]))
  }

  /** Where the cell in a row of a column starts, and how many words it takes. */
  function CellStart(wide: seq<bool>, log2Rows: nat, c: nat, row: nat): int
    requires c < |wide|
  {
    ColumnStart(wide, log2Rows, c) + if wide[c] then 2 * row else row
  }

  function CellWords(wide: seq<bool>, c: nat): nat
    requires c < |wide|
  {
    if wide[c] then 2 else 1
  }

  lemma CellInColumn(wide: seq<bool>, log2Rows: nat, c: nat, row: nat)
    requires c < |wide| && row < Shl(1, log2Rows)
    ensures 2 * BlockCount(|wide|) <= ColumnStart(wide, log2Rows, c) <= CellStart(wide, log2Rows, c, row)
    ensures CellStart(wide, log2Rows, c, row) + CellWords(wide, c)
            <= ColumnStart(wide, log2Rows, c) + ColumnWords(wide, log2Rows, c) <= TotalWords(wide, log2Rows)
  {
    ColumnInside(wide, log2Rows, c);
    ShlAdd(1, 1, log2Rows);
  }

  /** Different cells share no word. */
  lemma CellsDisjoint(wide: seq<bool>, log2Rows: nat, c: nat, row: nat, d: nat, other: nat)
    requires c < |wide| && d < |wide| && row < Shl(1, log2Rows) && other < Shl(1, log2Rows)
    requires c != d || row != other
    ensures CellStart(wide, log2Rows, c, row) + CellWords(wide, c) <= CellStart(wide, log2Rows, d, other)
         || CellStart(wide, log2Rows, d, other) + CellWords(wide, d) <= CellStart(wide, log2Rows, c, row)
  {
    CellInColumn(wide, log2Rows, c, row);
    CellInColumn(wide, log2Rows, d, other);
    if c < d {
      ColumnsDisjoint(wide, log2Rows, c, d);
    } else if d < c {
      ColumnsDisjoint(wide, log2Rows, d, c);
    }
  }

  /** The words of a cell in the data block. */
  ghost function CellOf(data: seq<int>, wide: seq<bool>, log2Rows: nat, c: nat, row: nat): seq<int>
    requires |data| == TotalWords(wide, log2Rows) && c < |wide| && row < Shl(1, log2Rows)
  {
    CellInColumn(wide, log2Rows, c, row);
    data[CellStart(wide, log2Rows, c, row)..CellStart(wide, log2Rows, c, row) + CellWords(wide, c)]
  }

  lemma CellIs(data: seq<int>, wide: seq<bool>, log2Rows: nat, c: nat, row: nat)
    requires |data| == TotalWords(wide, log2Rows) && c < |wide| && row < Shl(1, log2Rows)
    ensures 0 <= CellStart(wide, log2Rows, c, row) <= CellStart(wide, log2Rows, c, row) + CellWords(wide, c) <= |data|
    ensures CellOf(data, wide, log2Rows, c, row)
         == data[CellStart(wide, log2Rows, c, row)..CellStart(wide, log2Rows, c, row) + CellWords(wide, c)]
  {
    CellInColumn(wide, log2Rows, c, row);
  }

  /** What a cell that holds a value looks like in memory: 4-byte values are one word apart, 8-byte values two. */
  lemma CellShows(data: seq<int>, schema: seq<Atype>, log2Rows: nat, c: nat, row: nat, v: Value)
    requires |data| == TotalWords(WideBits(schema), log2Rows) && c < |schema| && row < Shl(1, log2Rows)
    requires CellOf(data, WideBits(schema), log2Rows, c, row) == WordsOf(v)
    ensures var start := ColumnStart(WideBits(schema), log2Rows, c);
      match v
      case Narrow(_, word) => 0 <= start + row < |data| && data[start + row] == word
      case Wide(_, low, high) =>
        0 <= start + 2 * row < |data| - 1 && data[start + 2 * row] == low && data[start + 2 * row + 1] == high
  {
    var wide := WideBits(schema);
    var at, cell := CellStart(wide, log2Rows, c, row), CellOf(data, wide, log2Rows, c, row);
    CellIs(data, wide, log2Rows, c, row);
    assert cell[0] == data[at] && (wide[c] ==> cell[1] == data[at + 1]);
  }

  /** Only the words of one cell may differ. */
  ghost predicate SameButCell(before: seq<int>, after: seq<int>, wide: seq<bool>, log2Rows: nat, c: nat, row: nat)
    requires c < |wide|
  {
    && |after| == |before|
    && forall i {:trigger after[i]} | 0 <= i < |before| &&
         !(CellStart(wide, log2Rows, c, row) <= i < CellStart(wide, log2Rows, c, row) + CellWords(wide, c)) ::
         after[i] == before[i]
  }

  /** Memory that differs in one cell at most keeps its header and all other cells. */
  lemma OtherCellsSame(before: seq<int>, after: seq<int>, wide: seq<bool>, log2Rows: nat, c: nat, row: nat)
    requires c < |wide| && row < Shl(1, log2Rows) && |before| == TotalWords(wide, log2Rows)
    requires IsHeader(before, wide, log2Rows) && SameButCell(before, after, wide, log2Rows, c, row)
    ensures IsHeader(after, wide, log2Rows)
    ensures SameOutside(before, after, wide, log2Rows, row, c, 1)
  {
    CellInColumn(wide, log2Rows, c, row);
    HeaderFrame(before, after, wide, log2Rows);
    forall d, other | 0 <= d < |wide| && 0 <= other < Shl(1, log2Rows) && !(other == row && c <= d < c + 1)
      ensures CellOf(after, wide, log2Rows, d, other) == CellOf(before, wide, log2Rows, d, other)
    {
      CellsDisjoint(wide, log2Rows, c, row, d, other);
      CellInColumn(wide, log2Rows, d, other);
    }
  }

  /** One block of memory: the header, and room for the columns behind it. */
  method NewData(wide: seq<bool>, log2Rows: nat) returns (words: array<int>)
    ensures fresh(words) && words.Length == TotalWords(wide, log2Rows)
    ensures IsHeader(words[..], wide, log2Rows)
  {
    var header, sz := AllocateData(wide, log2Rows);
    BlocksInOrder(wide, log2Rows, 0, BlockCount(|wide|));
    words := new int[sz];
    ghost var h := header[..];
    for i := 0 to header.Length
      invariant header[..] == h && forall k | 0 <= k < i :: words[k] == header[k]
    {
      words[i] := header[i];
    }
    HeaderFrame(h, words[..], wide, log2Rows);
  }

  class Frame {
    const schema: seq<Atype>
    const log2Rows: nat
    var rowCount: nat
    const data: array<int>

    ghost predicate Valid()
      reads this, data
    {
      && data.Length == TotalWords(WideBits(schema), log2Rows)
      && IsHeader(data[..], WideBits(schema), log2Rows)
      && rowCount <= Shl(1, log2Rows)
    }

    /** The words of a cell. */
    ghost function Cell(c: nat, row: nat): seq<int>
      reads this, data
      requires Valid() && c < |schema| && row < Shl(1, log2Rows)
    {
      CellOf(data[..], WideBits(schema), log2Rows, c, row)
    }

    constructor (schema: seq<Atype>, log2Rows: nat)
      ensures Valid() && rowCount == 0 && this.schema == schema && this.log2Rows == log2Rows && fresh(data)
    {
      this.schema, this.log2Rows, rowCount := schema, log2Rows, 0;
      ShlGrows(1, log2Rows);
      var words := NewData(WideBits(schema), log2Rows);
      data := words;
    }

    /** The constructor as a caller sees it: the row capacity must be a power of two. */
    static method Create(rowCapacity: int, schema: seq<Atype>) returns (r: Result<Frame, FrameError>)
      ensures r.Ok? <==> IsPow2(rowCapacity)
      ensures r.Err? ==> r.error == InvalidInput
      ensures r.Ok? ==>
        && r.value.Valid() && r.value.rowCount == 0 && r.value.schema == schema
        && Shl(1, r.value.log2Rows) == rowCapacity && fresh(r.value) && fresh(r.value.data)
    {
      if rowCapacity <= 0 || rowCapacity != Pow2(Log2Floor(rowCapacity)) {
        Log2OfPow2(rowCapacity);
        return Err(InvalidInput);
      }
      ShlIsTimes(1, Log2Floor(rowCapacity));
      var frame := new Frame(schema, Log2Floor(rowCapacity));
      return Ok(frame);
    }

    /** `at_raw`: the offset of a column, read off the header in front of the data. */
    method AtRaw(index: int) returns (r: Result<nat, FrameError>)
      requires Valid()
      ensures r.Ok? <==> 0 <= index < |schema|
      ensures r.Ok? ==> r.value == ColumnStart(WideBits(schema), log2Rows, index)
      ensures r.Err? ==> r.error == OutOfBounds
    {
      if !(0 <= index < |schema|) {
        return Err(OutOfBounds);
      }
      LookupFindsColumn(data[..], WideBits(schema), log2Rows, index);
      ColumnInside(WideBits(schema), log2Rows, index);
      return Ok(Lookup(data[..], index, log2Rows));
    }

    /** `at<T>(index)[row] = v`: checks the column and its type, then writes the cell and nothing else. */
    method Put(index: int, row: nat, v: Value) returns (r: Result<(), FrameError>)
      requires Valid() && row < Shl(1, log2Rows)
      modifies data
      ensures Valid()
      ensures r.Err? && r.error == OutOfBounds <==> !(0 <= index < |schema|)
      ensures r.Ok? <==> (0 <= index < |schema| &&
        match schema[index]
        case Category => v.Narrow? && !v.floating
        case I4 => v.Narrow? && !v.floating
        case F4 => v.Narrow? && v.floating
        case Timestamp => v.Wide? && !v.floating
        case I8 => v.Wide? && !v.floating
        case F8 => v.Wide? && v.floating)
      ensures r.Ok? ==> Cell(index, row) == match v case Narrow(_, w) => [w] case Wide(_, low, high) => [low, high]
      ensures r.Ok? ==> SameOutside(old(data[..]), data[..], WideBits(schema), log2Rows, row, index, 1)
      ensures r.Err? ==> data[..] == old(data[..])
    {
      if !(0 <= index < |schema|) {
        return Err(OutOfBounds);
      }
      if !Castable(v, schema[index]) {
        return Err(TypeMismatch);
      }
      var start := AtRaw(index);
      WriteCell(start.value, index, row, v);
      return Ok(());
    }

    method WriteCell(start: nat, index: nat, row: nat, v: Value)
      requires Valid() && index < |schema| && row < Shl(1, log2Rows) && Castable(v, schema[index])
      requires start == ColumnStart(WideBits(schema), log2Rows, index)
      modifies data
      ensures Valid() && Cell(index, row) == WordsOf(v)
      ensures SameOutside(old(data[..]), data[..], WideBits(schema), log2Rows, row, index, 1)
    {
      hide CellOf, SameOutside, IsHeader, ColumnStart, TotalWords, ColumnWords;
      ghost var wide, before := WideBits(schema), data[..];
      CellInColumn(wide, log2Rows, index, row);
      StoreWords(if IsWide(schema[index]) then start + 2 * row else start + row, v);
      OtherCellsSame(before, data[..], wide, log2Rows, index, row);
      CellIs(data[..], wide, log2Rows, index, row);
    }

    method StoreWords(at: nat, v: Value)
      requires at + |WordsOf(v)| <= data.Length
      modifies data
      ensures data[at..at + |WordsOf(v)|] == WordsOf(v)
      ensures forall i | 0 <= i < data.Length && !(at <= i < at + |WordsOf(v)|) :: data[i] == old(data[i])
    {
      match v
      case Narrow(_, w) => data[at] := w;
      case Wide(_, low, high) => data[at], data[at + 1] := low, high;
    }

    /** Writes one argument from column `index` on, recursing into arrays and tuples. */
    method EmitArg(row: nat, index: nat, arg: Arg) returns (ok: bool)
      requires Valid() && row < Shl(1, log2Rows) && index + |Flatten(arg)| <= |schema|
      modifies data
      decreases arg, 1
      ensures Valid() && Emitted(old(data[..]), data[..], schema, log2Rows, row, index, Flatten(arg), ok)
    {
      match arg
      case Scalar(v) => ok := EmitScalar(row, index, v);
      case Group(items) => ok := EmitAll(row, index, items);
    }

    method EmitScalar(row: nat, index: nat, v: Value) returns (ok: bool)
      requires Valid() && row < Shl(1, log2Rows) && index < |schema|
      modifies data
      ensures Valid() && Emitted(old(data[..]), data[..], schema, log2Rows, row, index, [v], ok)
    {
      ghost var before := data[..];
      var r := Put(index, row, v);
      ok := r.Ok?;
      ScalarEmitted(before, data[..], schema, log2Rows, row, index, v, ok);
    }

    method EmitAll(row: nat, index: nat, args: seq<Arg>) returns (ok: bool)
      requires Valid() && row < Shl(1, log2Rows) && index + |FlattenAll(args)| <= |schema|
      modifies data
      decreases args, 0
      ensures Valid() && Emitted(old(data[..]), data[..], schema, log2Rows, row, index, FlattenAll(args), ok)
    {
      if args == [] {
        return true;
      }
      ghost var before := data[..];
      ok := EmitArg(row, index, args[0]);
      if ok {
        ok := EmitRest(row, index, args, before);
      } else {
        EmittedStop(before, data[..], schema, log2Rows, row, index, Flatten(args[0]), FlattenAll(args[1..]));
      }
    }

    /** The arguments after the first, whose cells were written since `before`. */
    method EmitRest(row: nat, index: nat, args: seq<Arg>, ghost before: seq<int>) returns (ok: bool)
      requires Valid() && row < Shl(1, log2Rows) && index + |FlattenAll(args)| <= |schema|
      requires args != [] && Emitted(before, data[..], schema, log2Rows, row, index, Flatten(args[0]), true)
      modifies data
      decreases args[1..], 1
      ensures Valid() && Emitted(before, data[..], schema, log2Rows, row, index, FlattenAll(args), ok)
    {
      hide Emitted, IsHeader, Flatten, TotalWords;
      ghost var first, rest, middle := Flatten(args[0]), FlattenAll(args[1..]), data[..];
      assert FlattenAll(args) == first + rest;
      WidthIsLength(args[0]);
      ok := EmitAll(row, index + ArgWidth(args[0]), args[1..]);
      EmittedConcat(before, middle, data[..], schema, log2Rows, row, index, first, rest, ok);
    }

    /** `add_row`: all arguments, flattened, become the cells of the next row. */
    method AddRow(args: seq<Arg>) returns (r: Result<nat, FrameError>)
      requires Valid()
      modifies this, data
      ensures Valid()
      ensures r.Ok? <==>
        && |FlattenAll(args)| == |schema| && old(rowCount) < Shl(1, log2Rows)
        && AllCastable(FlattenAll(args), schema, 0)
      ensures r.Ok? ==>
        && r.value == old(rowCount) && rowCount == old(rowCount) + 1
        && RowShows(data[..], WideBits(schema), log2Rows, old(rowCount), 0, FlattenAll(args))
      ensures r.Err? ==> rowCount == old(rowCount)
      ensures r.Err? ==>
        if |FlattenAll(args)| != |schema| then r.error == InvalidInput
        else r.error == if old(rowCount) == Shl(1, log2Rows) then OutOfBounds else TypeMismatch
      ensures forall c, row | 0 <= c < |schema| && 0 <= row < old(rowCount) :: Cell(c, row) == old(Cell(c, row))
    {
      var row := rowCount;
      WidthsAddUp(args);
      if ArgsWidth(args) != |schema| {
        return Err(InvalidInput);
      }
      if row == Shl(1, log2Rows) {
        return Err(OutOfBounds);
      }
      var ok := EmitAll(row, 0, args);
      OutsideRows(old(data[..]), data[..], WideBits(schema), log2Rows, row);
      if !ok {
        return Err(TypeMismatch);
      }
      rowCount := row + 1;
      return Ok(row);
    }

    method ResizeRowCount(rows: int) returns (r: Result<(), FrameError>)
      requires Valid()
      modifies `rowCount
      ensures Valid() && (r.Ok? <==> 0 <= rows <= Shl(1, log2Rows))
      ensures r.Ok? ==> rowCount == rows
      ensures r.Err? ==> r.error == OutOfBounds && rowCount == old(rowCount)
    {
      if !(0 <= rows <= Shl(1, log2Rows)) {
        return Err(OutOfBounds);
      }
      rowCount := rows;
      return Ok(());
    }
  }

  // ---- rows ----

  ghost predicate AllCastable(values: seq<Value>, schema: seq<Atype>, index: nat) {
    && index + |values| <= |schema|
    && forall i {:trigger values[i]} | 0 <= i < |values| :: Castable(values[i], schema[index + i])
  }

  /** The cells of a row from column `index` on hold the values. */
  ghost predicate RowShows(data: seq<int>, wide: seq<bool>, log2Rows: nat, row: nat, index: nat, values: seq<Value>) {
    && |data| == TotalWords(wide, log2Rows) && row < Shl(1, log2Rows) && index + |values| <= |wide|
    && forall i {:trigger values[i]} | 0 <= i < |values| ::
         CellOf(data, wide, log2Rows, index + i, row) == WordsOf(values[i])
  }

  /** No cell changed but those of `n` columns of a row. */
  ghost predicate SameOutside(before: seq<int>, after: seq<int>, wide: seq<bool>, log2Rows: nat,
                              row: nat, index: nat, n: nat) {
    && |before| == |after| == TotalWords(wide, log2Rows)
    && forall c, other {:trigger CellOf(after, wide, log2Rows, c, other)} |
         0 <= c < |wide| && 0 <= other < Shl(1, log2Rows) && !(other == row && index <= c < index + n) ::
         CellOf(after, wide, log2Rows, c, other) == CellOf(before, wide, log2Rows, c, other)
  }

  /** The outcome of writing values to a row: all of them if all types fit, and nothing elsewhere. */
  ghost predicate Emitted(before: seq<int>, after: seq<int>, schema: seq<Atype>, log2Rows: nat,
                          row: nat, index: nat, values: seq<Value>, ok: bool) {
    && (ok <==> AllCastable(values, schema, index))
    && (ok ==> RowShows(after, WideBits(schema), log2Rows, row, index, values))
    && SameOutside(before, after, WideBits(schema), log2Rows, row, index, |values|)
  }

  lemma ScalarEmitted(before: seq<int>, after: seq<int>, schema: seq<Atype>, log2Rows: nat,
                      row: nat, index: nat, v: Value, ok: bool)
    requires index < |schema| && row < Shl(1, log2Rows) && (ok <==> Castable(v, schema[index]))
    requires |after| == TotalWords(WideBits(schema), log2Rows)
    requires if ok then SameOutside(before, after, WideBits(schema), log2Rows, row, index, 1) else after == before
    requires ok ==> CellOf(after, WideBits(schema), log2Rows, index, row) == WordsOf(v)
    ensures Emitted(before, after, schema, log2Rows, row, index, [v], ok)
  {
    hide CellOf;
    OneCastable(v, schema, index);
    if !ok {
      NothingOutside(before, WideBits(schema), log2Rows, row, index);
    }
  }

  lemma NothingOutside(data: seq<int>, wide: seq<bool>, log2Rows: nat, row: nat, index: nat)
    requires |data| == TotalWords(wide, log2Rows)
    ensures SameOutside(data, data, wide, log2Rows, row, index, 1)
  {
  }

  lemma OneCastable(v: Value, schema: seq<Atype>, index: nat)
    requires index < |schema|
    ensures AllCastable([v], schema, index) <==> Castable(v, schema[index])
  {
    var values := [v];
    assert values[0] == v && schema[index + 0] == schema[index];
  }

  lemma EmittedConcat(d0: seq<int>, d1: seq<int>, d2: seq<int>, schema: seq<Atype>, log2Rows: nat,
                      row: nat, index: nat, first: seq<Value>, rest: seq<Value>, ok: bool)
    requires Emitted(d0, d1, schema, log2Rows, row, index, first, true)
    requires Emitted(d1, d2, schema, log2Rows, row, index + |first|, rest, ok)
    ensures Emitted(d0, d2, schema, log2Rows, row, index, first + rest, ok)
  {
    CastableConcat(first, rest, schema, index);
    OutsideConcat(d0, d1, d2, WideBits(schema), log2Rows, row, index, |first|, |rest|);
    if ok {
      RowConcat(d1, d2, WideBits(schema), log2Rows, row, index, first, rest);
    }
  }

  lemma EmittedStop(d0: seq<int>, d1: seq<int>, schema: seq<Atype>, log2Rows: nat,
                    row: nat, index: nat, first: seq<Value>, rest: seq<Value>)
    requires Emitted(d0, d1, schema, log2Rows, row, index, first, false)
    ensures Emitted(d0, d1, schema, log2Rows, row, index, first + rest, false)
  {
    CastableConcat(first, rest, schema, index);
    OutsideWider(d0, d1, WideBits(schema), log2Rows, row, index, |first|, |rest|);
  }

  lemma CastableConcat(first: seq<Value>, rest: seq<Value>, schema: seq<Atype>, index: nat)
    ensures AllCastable(first + rest, schema, index) <==>
      AllCastable(first, schema, index) && AllCastable(rest, schema, index + |first|)
  {
    var all := first + rest;
    if AllCastable(all, schema, index) {
      forall i | 0 <= i < |first| ensures Castable(first[i], schema[index + i]) {
        assert all[i] == first[i];
      }
      forall i | 0 <= i < |rest| ensures Castable(rest[i], schema[index + |first| + i]) {
        assert all[|first| + i] == rest[i];
      }
    }
  }

  lemma OutsideConcat(d0: seq<int>, d1: seq<int>, d2: seq<int>, wide: seq<bool>, log2Rows: nat,
                      row: nat, index: nat, m: nat, n: nat)
    requires SameOutside(d0, d1, wide, log2Rows, row, index, m)
    requires SameOutside(d1, d2, wide, log2Rows, row, index + m, n)
    ensures SameOutside(d0, d2, wide, log2Rows, row, index, m + n)
  {
    forall c, other | 0 <= c < |wide| && 0 <= other < Shl(1, log2Rows)
                      && !(other == row && index <= c < index + (m + n))
      ensures CellOf(d2, wide, log2Rows, c, other) == CellOf(d0, wide, log2Rows, c, other)
    {
      var x := CellOf(d1, wide, log2Rows, c, other);
    }
  }

  lemma OutsideWider(d0: seq<int>, d1: seq<int>, wide: seq<bool>, log2Rows: nat, row: nat, index: nat, m: nat, n: nat)
    requires SameOutside(d0, d1, wide, log2Rows, row, index, m)
    ensures SameOutside(d0, d1, wide, log2Rows, row, index, m + n)
  {
  }

  lemma OutsideRows(d0: seq<int>, d1: seq<int>, wide: seq<bool>, log2Rows: nat, row: nat)
    requires SameOutside(d0, d1, wide, log2Rows, row, 0, |wide|)
    ensures forall c, other | 0 <= c < |wide| && 0 <= other < Shl(1, log2Rows) && other < row ::
      CellOf(d1, wide, log2Rows, c, other) == CellOf(d0, wide, log2Rows, c, other)
  {
  }

  lemma RowConcat(d1: seq<int>, d2: seq<int>, wide: seq<bool>, log2Rows: nat,
                  row: nat, index: nat, first: seq<Value>, rest: seq<Value>)
    requires RowShows(d1, wide, log2Rows, row, index, first) && RowShows(d2, wide, log2Rows, row, index + |first|, rest)
    requires SameOutside(d1, d2, wide, log2Rows, row, index + |first|, |rest|)
    ensures RowShows(d2, wide, log2Rows, row, index, first + rest)
  {
    var all := first + rest;
    forall i | 0 <= i < |all| ensures CellOf(d2, wide, log2Rows, index + i, row) == WordsOf(all[i]) {
      if i < |first| {
        assert all[i] == first[i];
      } else {
        assert all[i] == rest[i - |first|];
      }
    }
  }
}
