/** The cells of a map, swapped between an array and a packed buffer under a set of users. */
module MapData {
  import opened Basics
  import opened Words

  /** Two's complement, sixteen bits. */
  type int16 = a: int | -0x8000 <= a < 0x8000

  datatype Cell = Cell(accessible: bool, altitude: int16)

  // ---- the byte form of the cells ----

  /** The j-th of a cell's three bytes: the flag, then the low and the high byte of the altitude. */
  function CellByte(c: Cell, j: nat): uint8
    requires j < 3
  {
    if j == 0 then (if c.accessible then 1 else 0)
    else if j == 1 then c.altitude % 0x100
    else (c.altitude / 0x100) % 0x100
  }

  /** A cell from its bytes: the two altitude bytes joined and read as a signed number. */
  function FromBytes(flag: uint8, low: uint8, high: uint8): Cell {
    var joined := high * 0x100 + low;
    Cell(flag != 0, if joined < 0x8000 then joined else joined - 0x1_0000)
  }

  lemma CellRoundTrip(c: Cell)
    ensures FromBytes(CellByte(c, 0), CellByte(c, 1), CellByte(c, 2)) == c
  {
  }

  /** The two altitude bytes are the altitude modulo 2^16, the low byte first. */
  lemma CellBytesAre(c: Cell)
    ensures CellByte(c, 0) == if c.accessible then 1 else 0
    ensures var n := CellByte(c, 1) + 256 * CellByte(c, 2); n == c.altitude || n == c.altitude + 0x1_0000
  {
  }

  function Serialize(cells: seq<Cell>): (bytes: seq<uint8>)
    ensures |bytes| == 3 * |cells|
  {
    seq(3 * |cells|, k requires 0 <= k < 3 * |cells| => CellByte(cells[k / 3], k % 3))
  }

  function Deserialize(bytes: seq<uint8>, n: nat): (cells: seq<Cell>)
    requires |bytes| == 3 * n
    ensures |cells| == n
  {
    seq(n, i requires 0 <= i < n => FromBytes(bytes[3 * i], bytes[3 * i + 1], bytes[3 * i + 2]))
  }

  lemma SerializedAt(cells: seq<Cell>, i: nat)
    requires i < |cells|
    ensures Serialize(cells)[3 * i] == CellByte(cells[i], 0)
    ensures Serialize(cells)[3 * i + 1] == CellByte(cells[i], 1)
    ensures Serialize(cells)[3 * i + 2] == CellByte(cells[i], 2)
  {
  }

  /** Every grid survives its byte form, negative altitudes included. */
  lemma SerializeRoundTrip(cells: seq<Cell>)
    ensures Deserialize(Serialize(cells), |cells|) == cells
  {
    hide CellByte, FromBytes;
    forall i | 0 <= i < |cells|
      ensures Deserialize(Serialize(cells), |cells|)[i] == cells[i]
    {
      CellRoundTrip(cells[i]);
      SerializedAt(cells, i);
    }
  }

  /** A compressor and a decompressor told the size to restore. */
  datatype Codec = Codec(compress: seq<uint8> -> seq<uint8>, decompress: (seq<uint8>, nat) -> seq<uint8>) {
    ghost predicate Lossless() {
      forall b :: decompress(compress(b), |b|) == b
    }
  }

  // ---- the states of a map's data ----

  datatype Store = Cells(cells: seq<Cell>) | Packed(data: seq<uint8>)

  /** What is in memory, whether packing is on, and who uses the cells. */
  datatype State<R> = State(store: Store, packing: bool, refs: set<R>)

  /** Packing suspended or a user present: the cells are there. */
  predicate Readable<R>(s: State<R>) {
    !s.packing || s.refs != {} ==> s.store.Cells?
  }

  /** The grid the state stands for. */
  function Logical<R>(codec: Codec, n: nat, s: State<R>): seq<Cell> {
    match s.store
    case Cells(cells) => cells
    case Packed(data) =>
      var bytes := codec.decompress(data, 3 * n);
      if |bytes| == 3 * n then Deserialize(bytes, n) else []
  }

  lemma LogicalOfPacked<R>(codec: Codec, grid: seq<Cell>, s: State<R>)
    requires codec.Lossless() && s.store == Packed(codec.compress(Serialize(grid)))
    ensures Logical(codec, |grid|, s) == grid
  {
    SerializeRoundTrip(grid);
  }

  function Packing<R>(codec: Codec, s: State<R>, caller: Option<R>): State<R> {
    var refs := if caller.Some? then s.refs - {caller.value} else s.refs;
    if s.packing && s.store.Cells? && refs == {}
    then State(Packed(codec.compress(Serialize(s.store.cells))), s.packing, refs)
    else s.(refs := refs)
  }

  function Unpacking<R>(codec: Codec, n: nat, s: State<R>, caller: Option<R>): State<R> {
    var refs := if caller.Some? then s.refs + {caller.value} else s.refs;
    if s.packing && s.store.Packed?
    then State(Cells(Logical(codec, n, s)), s.packing, refs)
    else s.(refs := refs)
  }

  /** What a caller may ask of a map's data; unpackAll suspends right after unpacking. */
  datatype Step<R> = Pack(caller: Option<R>) | Unpack(caller: Option<R>) | Resume | UnpackAndSuspend

  function After<R>(codec: Codec, n: nat, s: State<R>, step: Step<R>): State<R> {
    match step
    case Pack(caller) => Packing(codec, s, caller)
    case Unpack(caller) => Unpacking(codec, n, s, caller)
    case Resume => s.(packing := true)
    case UnpackAndSuspend => Unpacking(codec, n, s, None).(packing := false)
  }

  function Run<R>(codec: Codec, n: nat, s: State<R>, steps: seq<Step<R>>): State<R> {
    if steps == [] then s else After(codec, n, Run(codec, n, s, steps[..|steps| - 1]), steps[|steps| - 1])
  }

  lemma StepKeepsGrid<R>(codec: Codec, n: nat, s: State<R>, step: Step<R>)
    requires codec.Lossless() && Readable(s) && |Logical(codec, n, s)| == n
    ensures Readable(After(codec, n, s, step))
    ensures Logical(codec, n, After(codec, n, s, step)) == Logical(codec, n, s)
  {
    if s.store.Cells? {
      SerializeRoundTrip(s.store.cells);
    }
  }

  /** pack leaves the cells packed exactly when packing is on and no user is left; unpack always leaves them readable. */
  lemma PackedIffUnused<R>(codec: Codec, n: nat, s: State<R>, caller: Option<R>)
    requires Readable(s)
    ensures Packing(codec, s, caller).store.Packed? <==> s.packing && Packing(codec, s, caller).refs == {}
    ensures Unpacking(codec, n, s, caller).store.Cells?
  {
  }

  /** Over any run the grid stays the loaded one, and the cells are there whenever someone relies on them. */
  lemma {:induction false} RunKeepsGrid<R>(codec: Codec, grid: seq<Cell>, steps: seq<Step<R>>)
    requires codec.Lossless()
    ensures var s := Run(codec, |grid|, State(Cells(grid), true, {}), steps);
            Logical(codec, |grid|, s) == grid && Readable(s)
  {
    if steps == [] {
    } else {
      var front := steps[..|steps| - 1];
      RunKeepsGrid(codec, grid, front);
      StepKeepsGrid(codec, |grid|, Run(codec, |grid|, State(Cells(grid), true, {}), front), steps[|steps| - 1]);
    }
  }

  /** The users are those who unpacked last: nobody else's steps add or drop a user. */
  lemma {:induction false} RefsFollowLastCall<R>(codec: Codec, grid: seq<Cell>, steps: seq<Step<R>>, r: R)
    ensures var s := Run(codec, |grid|, State(Cells(grid), true, {}), steps);
            r in s.refs <==> exists k :: 0 <= k < |steps| && steps[k] == Unpack(Some(r))
                                         && forall j :: k < j < |steps| ==> steps[j] != Pack(Some(r))
  {
    var n := |steps| - 1;
    if steps == [] {
    } else {
      RefsFollowLastCall(codec, grid, steps[..n], r);
      var before := Run(codec, |grid|, State(Cells(grid), true, {}), steps[..n]);
      if r in before.refs && steps[n] != Pack(Some(r)) {
        var k :| 0 <= k < n && steps[..n][k] == Unpack(Some(r)) && forall j :: k < j < n ==> steps[..n][j] != Pack(Some(r));
        assert steps[k] == Unpack(Some(r));
      }
      if k :| 0 <= k < n && steps[k] == Unpack(Some(r)) && forall j :: k < j < |steps| ==> steps[j] != Pack(Some(r)) {
        assert steps[..n][k] == Unpack(Some(r));
      }
    }
  }

  // ---- unpackAll, while others go on ----

  /** What the other callers may do between unpackAll's two calls: packAll and unpackAll exclude each other. */
  predicate OthersOnly<R>(row: seq<Step<R>>) {
    forall k :: 0 <= k < |row| ==> row[k].Pack? || row[k].Unpack?
  }

  /** The users after a row of steps, from the calls alone. */
  function Users<R>(refs: set<R>, row: seq<Step<R>>): set<R> {
    if row == [] then refs
    else
      var before := Users(refs, row[..|row| - 1]);
      match row[|row| - 1]
      case Pack(Some(r)) => before - {r}
      case Unpack(Some(r)) => before + {r}
      case _ => before
  }

  /** The k-th step is a pack that left no user, and nobody unpacked after it. */
  predicate LastWord<R>(refs: set<R>, row: seq<Step<R>>, k: nat) {
    && k < |row| && row[k].Pack? && Users(refs, row[..k + 1]) == {}
    && forall j :: k < j < |row| ==> !row[j].Unpack?
  }

  ghost predicate EndsUnused<R>(refs: set<R>, row: seq<Step<R>>) {
    exists k :: LastWord(refs, row, k)
  }

  lemma LastWordBefore<R>(refs: set<R>, row: seq<Step<R>>, k: nat)
    requires k + 1 < |row|
    ensures LastWord(refs, row, k) <==> LastWord(refs, row[..|row| - 1], k) && !row[|row| - 1].Unpack?
  {
    hide Users;
    var front := row[..|row| - 1];
    assert front[..k + 1] == row[..k + 1];
    assert forall j :: k < j < |front| ==> front[j] == row[j];
  }

  lemma EndsUnusedStep<R>(refs: set<R>, row: seq<Step<R>>)
    requires row != []
    ensures var n := |row| - 1;
            EndsUnused(refs, row)
            <==> (row[n].Pack? && Users(refs, row) == {}) || (!row[n].Unpack? && EndsUnused(refs, row[..n]))
  {
    var n := |row| - 1;
    assert row[..n + 1] == row;
    assert LastWord(refs, row, n) <==> row[n].Pack? && Users(refs, row) == {};
    assert forall k: nat :: LastWord(refs, row, k) ==> k <= n;
    assert forall k: nat :: LastWord(refs, row[..n], k) ==> k < n;
    hide LastWord, Users;
    forall k: nat | k < n
      ensures LastWord(refs, row, k) <==> LastWord(refs, row[..n], k) && !row[n].Unpack?
    {
      LastWordBefore(refs, row, k);
    }
  }

  /** From cells in memory with packing on, a row of others' steps ends packed exactly when it ends unused. */
  lemma {:induction false} RowPacks<R>(codec: Codec, n: nat, s: State<R>, row: seq<Step<R>>)
    requires s.packing && s.store.Cells? && OthersOnly(row)
    ensures var s' := Run(codec, n, s, row);
            s'.packing && s'.refs == Users(s.refs, row) && (s'.store.Packed? <==> EndsUnused(s.refs, row))
  {
    if row == [] {
    } else {
      RowPacks(codec, n, s, row[..|row| - 1]);
      EndsUnusedStep(s.refs, row);
      hide EndsUnused, Logical;
    }
  }

  /** With packing suspended nothing is packed and nothing is unpacked. */
  lemma {:induction false} RowIdles<R>(codec: Codec, n: nat, s: State<R>, row: seq<Step<R>>)
    requires !s.packing && OthersOnly(row)
    ensures Run(codec, n, s, row) == State(s.store, false, Users(s.refs, row))
  {
    if row == [] {
    } else {
      RowIdles(codec, n, s, row[..|row| - 1]);
    }
  }

  /** unpackAll's two calls on one map's data, with a row of others' steps between them. */
  function UnpackThenSuspend<R>(codec: Codec, n: nat, s: State<R>, row: seq<Step<R>>): State<R> {
    Run(codec, n, Unpacking(codec, n, s, None), row).(packing := false)
  }

  /**
    * Whatever the others do between its two calls, unpackAll leaves the cells in memory if and only if packing was
    * suspended already, or no pack between them that left no user was the last word.
    */
  lemma UnpackAllWorksIff<R>(codec: Codec, n: nat, s: State<R>, row: seq<Step<R>>)
    requires Readable(s) && OthersOnly(row)
    ensures UnpackThenSuspend(codec, n, s, row).store.Cells? <==> !s.packing || !EndsUnused(s.refs, row)
    ensures UnpackThenSuspend(codec, n, s, row).refs == Users(s.refs, row)
  {
    hide EndsUnused, Users, Logical, Run;
    var unpacked := Unpacking(codec, n, s, None);
    if s.packing {
      RowPacks(codec, n, unpacked, row);
    } else {
      RowIdles(codec, n, unpacked, row);
    }
  }

  /** Once suspended without cells, no user gets them back before packing is resumed. */
  lemma SuspendedPackedStays<R>(codec: Codec, n: nat, s: State<R>, row: seq<Step<R>>, r: R)
    requires !s.packing && s.store.Packed? && OthersOnly(row)
    ensures var s' := Unpacking(codec, n, Run(codec, n, s, row), Some(r));
            s'.store == s.store && r in s'.refs && !Readable(s')
  {
    RowIdles(codec, n, s, row);
  }

  /** The last player leaves between unpackAll's two calls: the data is suspended packed. */
  lemma LastPlayerLeavesInBetween<R>(codec: Codec, grid: seq<Cell>, m: R)
    ensures var s := Run(codec, |grid|, State(Cells(grid), true, {}), [Unpack(Some(m))]);
            !UnpackThenSuspend(codec, |grid|, s, [Pack(Some(m))]).store.Cells?
  {
    var unpack: Step<R>, pack: Step<R> := Unpack(Some(m)), Pack(Some(m));
    var s0: State<R> := State(Cells(grid), true, {});
    assert [unpack][..0] == [];
    assert Run(codec, |grid|, s0, [unpack]) == After(codec, |grid|, s0, unpack);
    var s := After(codec, |grid|, s0, unpack);
    assert s.refs == {m};
    assert [pack][..0] == [] && [pack][..1] == [pack];
    assert Users(s.refs, [pack]) == Users(s.refs, []) - {m} == {};
    assert LastWord(s.refs, [pack], 0);
    UnpackAllWorksIff(codec, |grid|, s, [pack]);
  }

  // ---- positions ----

  function Pos2Idx(x: nat, y: nat, width: nat): nat {
    x + y * width
  }

  /** Cells lie row by row, each row from left to right. */
  lemma RowByRow(x: nat, y: nat, width: nat)
    ensures Pos2Idx(0, 0, width) == 0
    ensures Pos2Idx(x + 1, y, width) == Pos2Idx(x, y, width) + 1
    ensures Pos2Idx(0, y + 1, width) == Pos2Idx(0, y, width) + width
  {
    NextRow(y, width);
  }

  /** The cell an array access finds; the source does not check the index. */
  function LookAt(cells: seq<Cell>, width: nat, x: nat, y: nat): Option<Cell> {
    var i := Pos2Idx(x, y, width);
    if i < |cells| then Some(cells[i]) else None
  }

  /** Valid points fall on different cells inside the array. */
  lemma Pos2IdxInjective(x: nat, y: nat, x': nat, y': nat, width: nat, height: nat)
    requires x < width && y < height && x' < width && y' < height
    ensures Pos2Idx(x, y, width) < width * height
    ensures Pos2Idx(x, y, width) == Pos2Idx(x', y', width) <==> x == x' && y == y'
  {
    RowStart(y, height, width);
    RowStart(y, y', width);
    RowStart(y', y, width);
  }

  lemma RowStart(y: nat, z: nat, width: nat)
    ensures y < z ==> y * width + width <= z * width
  {
    RowsApart(z - y, width);
    assert (z - y) * width == z * width - y * width;
  }

  lemma NextRow(y: nat, width: nat)
    ensures (y + 1) * width == y * width + width
  {
  }

  lemma RowsApart(d: int, width: nat)
    ensures d >= 1 ==> d * width >= width
  {
  }

  // ---- the object ----

  function Caller(aCaller: object?): Option<object> {
    if aCaller == null then None else Some(aCaller as object)
  }

  class Data {
    const codec: Codec
    const mWidth: nat
    const mHeight: nat
    /** The cells as they were loaded. */
    ghost const grid: seq<Cell>
    var mCells: array?<Cell>
    var mIsPacking: bool
    var mRefs: set<object>
    var mPckData: array?<uint8>

    ghost predicate Valid()
      reads this, mCells, mPckData
    {
      && codec.Lossless() && |grid| == mWidth * mHeight
      && (mCells == null <==> mPckData != null)
      && (mCells != null ==> mCells[..] == grid)
      && (mPckData != null ==> mPckData[..] == codec.compress(Serialize(grid)))
      && (!mIsPacking || mRefs != {} ==> mCells != null)
    }

    ghost function Abs(): State<object>
      requires Valid()
      reads this, mCells, mPckData
    {
      State(if mCells != null then Cells(mCells[..]) else Packed(mPckData[..]), mIsPacking, mRefs)
    }

    /** Map data as loaded: the cells in memory, packing on, no user. */
    constructor (codec: Codec, width: nat, height: nat, cells: seq<Cell>)
      requires codec.Lossless() && |cells| == width * height
      ensures Valid() && this.codec == codec && mWidth == width && mHeight == height && grid == cells
      ensures Abs() == State(Cells(cells), true, {}) && fresh(mCells)
    {
      this.codec, mWidth, mHeight, grid := codec, width, height, cells;
      mCells := new Cell[|cells|](i requires 0 <= i < |cells| => cells[i]);
      mIsPacking, mRefs, mPckData := true, {}, null;
      new;
      assert mCells[..] == cells;
    }

    /** One row of cells, appended to the byte form of the rows before it. */
    method WriteRow(cells: array<Cell>, buf: array<uint8>, y: nat, ghost row: nat)
      requires row == y * mWidth && row + mWidth <= cells.Length && buf.Length == 3 * cells.Length
      requires buf[..3 * row] == Serialize(cells[..])[..3 * row]
      requires buf != cells as object
      modifies buf
      ensures buf[..3 * (row + mWidth)] == Serialize(cells[..])[..3 * (row + mWidth)]
    {
      hide CellByte, Serialize;
      ghost var bytes := Serialize(cells[..]);
      var ptr := 3 * (y * mWidth);
      for x := 0 to mWidth
        invariant ptr == 3 * (row + x)
        invariant cells[..] == old(cells[..])
        invariant buf[..ptr] == bytes[..ptr]
      {
        var i := Pos2Idx(x, y, mWidth);
        assert i == row + x;
        var cell := cells[i];
        SerializedAt(cells[..], i);
        buf[ptr], buf[ptr + 1], buf[ptr + 2] := CellByte(cell, 0), CellByte(cell, 1), CellByte(cell, 2);
        assert bytes[..ptr + 3] == bytes[..ptr] + [bytes[ptr], bytes[ptr + 1], bytes[ptr + 2]];
        assert buf[..ptr + 3] == buf[..ptr] + [buf[ptr], buf[ptr + 1], buf[ptr + 2]];
        ptr := ptr + 3;
      }
    }

    /** The byte form of the cells, row by row. */
    method WriteCells(cells: array<Cell>) returns (buf: array<uint8>)
      requires cells.Length == mWidth * mHeight
      ensures fresh(buf) && buf[..] == Serialize(cells[..])
    {
      hide Serialize;
      buf := new uint8[mWidth * mHeight * 3];
      ghost var row := 0;
      for y := 0 to mHeight
        invariant row == y * mWidth && 3 * row <= buf.Length
        invariant cells[..] == old(cells[..])
        invariant buf[..3 * row] == Serialize(cells[..])[..3 * row]
      {
        RowStart(y, mHeight, mWidth);
        WriteRow(cells, buf, y, row);
        row := row + mWidth;
        NextRow(y, mWidth);
      }
    }

    /** One row of cells read back. */
    method ReadRow(buf: array<uint8>, cells: array<Cell>, y: nat, ghost row: nat)
      requires row == y * mWidth && row + mWidth <= cells.Length && buf.Length == 3 * cells.Length
      requires cells[..row] == Deserialize(buf[..], cells.Length)[..row]
      requires buf != cells as object
      modifies cells
      ensures cells[..row + mWidth] == Deserialize(buf[..], cells.Length)[..row + mWidth]
    {
      hide FromBytes;
      var ptr := 3 * (y * mWidth);
      for x := 0 to mWidth
        invariant ptr == 3 * (row + x)
        invariant buf[..] == old(buf[..])
        invariant cells[..row + x] == Deserialize(buf[..], cells.Length)[..row + x]
      {
        var i := Pos2Idx(x, y, mWidth);
        assert i == row + x;
        cells[i] := FromBytes(buf[ptr], buf[ptr + 1], buf[ptr + 2]);
        assert cells[..i + 1] == cells[..i] + [cells[i]];
        ptr := ptr + 3;
      }
    }

    /** The cells read back from their byte form. */
    method ReadCells(buf: array<uint8>) returns (cells: array<Cell>)
      requires buf.Length == 3 * (mWidth * mHeight)
      ensures fresh(cells) && cells[..] == Deserialize(buf[..], mWidth * mHeight)
    {
      hide Deserialize;
      cells := new Cell[mWidth * mHeight];
      ghost var row := 0;
      for y := 0 to mHeight
        invariant row == y * mWidth && row <= cells.Length
        invariant buf[..] == old(buf[..])
        invariant cells[..row] == Deserialize(buf[..], cells.Length)[..row]
      {
        RowStart(y, mHeight, mWidth);
        ReadRow(buf, cells, y, row);
        row := row + mWidth;
        NextRow(y, mWidth);
      }
    }

    /** The byte form of the cells, packed. */
    method Compress(cells: array<Cell>) returns (packed: array<uint8>)
      requires cells.Length == mWidth * mHeight
      ensures fresh(packed) && packed[..] == codec.compress(Serialize(cells[..]))
    {
      hide Serialize;
      var buf := WriteCells(cells);
      var bytes := codec.compress(buf[..]);
      packed := new uint8[|bytes|](i requires 0 <= i < |bytes| => bytes[i]);
      assert packed[..] == bytes;
    }

    /** The cells out of their packed byte form. */
    method Decompress(packed: array<uint8>) returns (cells: array<Cell>)
      requires codec.Lossless() && |grid| == mWidth * mHeight && packed[..] == codec.compress(Serialize(grid))
      ensures fresh(cells) && cells[..] == grid
    {
      SerializeRoundTrip(grid);
      hide Serialize, Deserialize;
      var len := mWidth * mHeight * 3;
      var bytes := codec.decompress(packed[..], len);
      var buf := new uint8[len](i requires 0 <= i < len => bytes[i]);
      assert buf[..] == bytes == Serialize(grid);
      cells := ReadCells(buf);
    }

    method Pack(aCaller: object?)
      requires Valid()
      modifies this
      ensures Valid() && Abs() == Packing(codec, old(Abs()), Caller(aCaller))
      ensures mCells == old(mCells) || mCells == null
    {
      if aCaller != null {
        mRefs := mRefs - {aCaller};
      }
      if mIsPacking && mPckData == null && mRefs == {} {
        mPckData := Compress(mCells);
        mCells := null;
      }
    }

    method Unpack(aCaller: object?)
      requires Valid()
      modifies this
      ensures Valid() && Abs() == Unpacking(codec, mWidth * mHeight, old(Abs()), Caller(aCaller))
      ensures mCells != null && (mCells == old(mCells) || fresh(mCells))
      ensures aCaller == null ==> mRefs == old(mRefs)
    {
      hide Serialize, Codec.Lossless, Logical;
      if mPckData != null {
        LogicalOfPacked(codec, grid, Abs());
      }
      if aCaller != null {
        mRefs := mRefs + {aCaller};
      }
      if mIsPacking && mPckData != null {
        mCells := Decompress(mPckData);
        mPckData := null;
      }
    }

    /** unpackAll's two calls on one map's data. */
    method UnpackAndSuspend()
      requires Valid()
      modifies this
      ensures Valid() && Abs() == After(codec, mWidth * mHeight, old(Abs()), Step.UnpackAndSuspend)
      ensures mRefs == old(mRefs) && !mIsPacking && mCells != null && (mCells == old(mCells) || fresh(mCells))
    {
      hide Unpacking, Serialize, Codec.Lossless;
      Unpack(null);
      mIsPacking := false;
    }

    /** packAll's two calls on one map's data. */
    method ResumeAndPack()
      requires Valid()
      modifies this
      ensures Valid() && Abs() == Packing(codec, After(codec, mWidth * mHeight, old(Abs()), Resume), None)
      ensures mRefs == old(mRefs) && mIsPacking && (mCells == null <==> mRefs == {})
    {
      mIsPacking := true;
      Pack(null);
    }

    /** The cell the source's array access finds, if it stays inside the cells in memory. */
    ghost function Look(aPosX: nat, aPosY: nat): Option<Cell>
      reads `mCells
    {
      if mCells != null then LookAt(grid, mWidth, aPosX, aPosY) else None
    }

    /** The access is not checked; while the data is used, or packing suspended, it finds the loaded cell at every valid point. */
    method GetCell(aPosX: nat, aPosY: nat) returns (c: Option<Cell>)
      requires Valid()
      ensures c == Look(aPosX, aPosY)
      ensures (!mIsPacking || mRefs != {}) && aPosX < mWidth && aPosY < mHeight ==>
                Pos2Idx(aPosX, aPosY, mWidth) < |grid| && c == Some(grid[Pos2Idx(aPosX, aPosY, mWidth)])
    {
      if aPosX < mWidth && aPosY < mHeight {
        Pos2IdxInjective(aPosX, aPosY, aPosX, aPosY, mWidth, mHeight);
      }
      var i := Pos2Idx(aPosX, aPosY, mWidth);
      c := if mCells != null && i < mCells.Length then Some(mCells[i]) else None;
    }
  }

  ghost predicate AllValid(mData: map<string, Data>)
    reads mData.Values
    reads set d | d in mData.Values && d.mCells != null :: d.mCells
    reads set d | d in mData.Values && d.mPckData != null :: d.mPckData
  {
    forall path :: path in mData ==> mData[path].Valid()
  }

  /** MapManager::unpackAll: all cells in memory for good, whoever uses them. */
  method UnpackAll(mData: map<string, Data>)
    requires AllValid(mData)
    modifies mData.Values
    ensures AllValid(mData)
    ensures forall d :: d in mData.Values ==> d.mRefs == old(d.mRefs) && !d.mIsPacking && d.mCells != null
  {
    hide Packing, Unpacking, Logical, After, Data.Abs, Data.Valid;
    var rest := mData.Keys;
    while rest != {}
      invariant AllValid(mData) && rest <= mData.Keys
      invariant forall d :: d in mData.Values ==> d.mRefs == old(d.mRefs)
      invariant forall path :: path in mData && path !in rest ==> !mData[path].mIsPacking && mData[path].mCells != null
      decreases rest
    {
      var path :| path in rest;
      rest := rest - {path};
      mData[path].UnpackAndSuspend();
    }
  }

  /** MapManager::packAll: only the cells in use stay in memory. */
  method PackAll(mData: map<string, Data>)
    requires AllValid(mData)
    modifies mData.Values
    ensures AllValid(mData)
    ensures forall d :: d in mData.Values ==> d.mRefs == old(d.mRefs) && d.mIsPacking && (d.mCells == null <==> d.mRefs == {})
  {
    hide Packing, Unpacking, Logical, After, Data.Abs, Data.Valid;
    var rest := mData.Keys;
    while rest != {}
      invariant AllValid(mData) && rest <= mData.Keys
      invariant forall d :: d in mData.Values ==> d.mRefs == old(d.mRefs)
      invariant forall path :: path in mData && path !in rest ==>
                  mData[path].mIsPacking && (mData[path].mCells == null <==> mData[path].mRefs == {})
      decreases rest
    {
      var path :| path in rest;
      rest := rest - {path};
      mData[path].ResumeAndPack();
    }
  }
}
