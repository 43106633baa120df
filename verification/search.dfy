/**
 The binary search of `Query` over fixed-width rows. Rows are addressed by
 1-based uint32 file offsets; row i of a family starts at
 dataOffset + i * rowWidth (mod 2^32) and begins with its `ip_from`; the
 `ip_from` of row i + 1 is the exclusive end of row i's range. The bounds
 `low`, `high` and the midpoint are uint32, so their arithmetic wraps.
 */
module Search {
  import opened Words
  import opened Errors
  import opened Reader
  import opened Address

  /** What `scanner` selects for a family: row area, row count, row width, top address. */
  datatype Layout = Layout(dataOffset: uint32, rowCount: uint32, rowWidth: uint32, maxValue: nat)

  /**
   How the search loop ends: a row whose range holds the address (with its
   1-based offset), the bounds crossing, a failed read, or the step budget
   running out while the loop would still go on.
   */
  datatype Outcome = Found(row: uint32) | Exhausted | ReadFailed | Unfinished

  /** The `ip_from` column at a 0-based file offset: 4 bytes for IPv4, 16 for IPv6. */
  function ReadAddress(data: seq<byte>, fam: Family, off: uint32): (r: Result<nat>)
    ensures r.Ok? <==> off + (if fam == V4 then 4 else 16) <= |data|
    ensures r.Ok? && fam == V4 ==> r.value < Two32
    ensures r.Ok? ==> r.value < Two128
    ensures r.Ok? ==> r.value == LittleEndian(data[off..off + (if fam == V4 then 4 else 16)])
  {
    if fam == V4 then
      var v := ReadUint32(data, off);
      if v.Err? then Err(v.error)
      else
        LittleEndianOfFour(data[off..off + 4]);
        Ok(v.value)
    else
      var v := ReadUint128(data, off);
      if v.Err? then Err(v.error) else Ok(v.value)
  }

  /**
   The 1-based offset of row `i`: row 0 starts at the data offset and each
   row starts one row width after the one before, in uint32.
   */
  function RowOffset(layout: Layout, i: nat): uint32
  {
    if i == 0 then layout.dataOffset else Wrap32(RowOffset(layout, i - 1) + layout.rowWidth)
  }

  /** Row `i` starts at dataOffset + i * rowWidth, reduced modulo 2^32; `k` names the product. */
  lemma {:induction false} RowOffsetClosedForm(layout: Layout, i: nat, k: int)
    requires k == i * layout.rowWidth
    ensures RowOffset(layout, i) == Wrap32(layout.dataOffset + k)
  {
    if i > 0 {
      var o, w := layout.dataOffset, layout.rowWidth;
      MulSucc(i, w);
      RowOffsetClosedForm(layout, i - 1, k - w);
      WrapStep(o, k - w, w, k);
    }
  }

  /** The 0-based file offset of row `i`'s `ip_from`: its 1-based offset minus one, in uint32. */
  function RowStart(layout: Layout, i: nat): uint32
  {
    Wrap32(RowOffset(layout, i) - 1)
  }

  /** A read of the `ip_from` value at a 0-based file offset. */
  type AddressReader = uint32 -> Result<nat>

  /** The family's reader over the file: `readUint32` for IPv4, `readUint128` for IPv6. */
  function ReaderFor(data: seq<byte>, fam: Family): AddressReader
  {
    off => ReadAddress(data, fam, off)
  }

  /** The `ip_from` column of a table, row by row. */
  type Column = nat -> Result<nat>

  /** Row `i`'s `ip_from` is read at its 1-based offset minus one. */
  function ColumnOf(read: AddressReader, layout: Layout): Column
  {
    i => read(RowStart(layout, i))
  }

  /** Row `i` covers `ip`: ip_from(i) <= ip < ip_from(i + 1). */
  predicate Contains(col: Column, i: nat, ip: nat)
  {
    && col(i).Ok?
    && col(i + 1).Ok?
    && col(i).value <= ip < col(i + 1).value
  }

  /** The offsets the loop computes step by step are the offsets of rows `mid` and `mid + 1`. */
  lemma RowOffsetsAgree(layout: Layout, mid: nat)
    ensures Wrap32(layout.dataOffset + Wrap32(mid * layout.rowWidth)) == RowOffset(layout, mid)
    ensures Wrap32(RowOffset(layout, mid) + layout.rowWidth) == RowOffset(layout, mid + 1)
  {
    var o, w := layout.dataOffset, layout.rowWidth;
    RowOffsetClosedForm(layout, mid, mid * layout.rowWidth);
    WrapAdd(mid * w, o);
    assert Wrap32(o + Wrap32(mid * w)) == Wrap32(Wrap32(mid * w) + o);
  }

  /** The loop's midpoint, (low + high) >> 1 in uint32: the sum wraps before it is halved. */
  function Midpoint(low: uint32, high: uint32): uint32
  {
    Wrap32(low + high) / 2
  }

  /** What one iteration of the search loop does. */
  datatype StepResult = Hit(row: uint32) | Unreadable | Next(low: uint32, high: uint32)

  /**
   One iteration of the search loop: the midpoint is (low + high) >> 1 in
   uint32; rows `mid` and `mid + 1` are read; a row holding `ip` ends the
   loop, an address below the row's start moves `high` to mid - 1, and
   anything else moves `low` to mid + 1.
   */
  function Step(col: Column, ip: nat, low: uint32, high: uint32): StepResult
  {
    var mid := Midpoint(low, high);
    var from := col(mid);
    if from.Err? then Unreadable
    else
      var to := col(mid + 1);
      if to.Err? then Unreadable
      else Decide(from.value, to.value, ip, low, high, mid)
  }

  /**
   The comparison at the end of an iteration, once both starts are read:
   a hit when `ip` lies in [from, to), otherwise `high` moves to mid - 1 or
   `low` to mid + 1, in uint32.
   */
  function Decide(from: nat, to: nat, ip: nat, low: uint32, high: uint32, mid: uint32): StepResult
  {
    if from <= ip < to then Hit(mid)
    else if ip < from then Next(low, Wrap32(mid - 1))
    else Next(Wrap32(mid + 1), high)
  }

  /**
   What one iteration decides, in terms of the rows at the midpoint: it
   fails when either read fails, hits exactly when row `mid` holds the
   address, and otherwise moves `high` below `mid` for an address under the
   row's start and `low` above `mid` for one at or past the next row's start.
   */
  lemma StepCases(col: Column, ip: nat, low: uint32, high: uint32)
    ensures var s := Step(col, ip, low, high);
      var mid := Midpoint(low, high);
      && (s.Unreadable? <==> !(col(mid).Ok? && col(mid + 1).Ok?))
      && (s.Hit? <==> Contains(col, mid, ip))
      && (s.Hit? ==> s.row == mid)
      && (s.Next? ==>
            && col(mid).Ok? && col(mid + 1).Ok?
            && if ip < col(mid).value
               then s.low == low && s.high == Wrap32(mid - 1)
               else col(mid + 1).value <= ip && s.low == Wrap32(mid + 1) && s.high == high)
  {
  }

  /**
   The search loop from the bounds `low` and `high`, run for at most `steps`
   iterations; it stops when the bounds cross, a row holds `ip`, or a read
   fails.
   */
  function Bisect(col: Column, ip: nat, low: uint32, high: uint32, steps: nat): (r: Outcome)
    ensures r.Found? ==> Contains(col, r.row, ip)
    decreases steps
  {
    if low > high then Exhausted
    else if steps == 0 then Unfinished
    else
      match Step(col, ip, low, high)
      case Hit(row) => Found(row)
      case Unreadable => ReadFailed
      case Next(low', high') => Bisect(col, ip, low', high', steps - 1)
  }

  /** Rows `first` through `last` can be read. */
  ghost predicate Readable(col: Column, first: nat, last: nat)
  {
    forall i :: first <= i <= last ==> col(i).Ok?
  }

  /** Rows `first` through `last` can be read and their starts never decrease. */
  ghost predicate SortedRows(col: Column, first: nat, last: nat)
  {
    && Readable(col, first, last)
    && (forall i, j :: first <= i <= j <= last ==> col(i).value <= col(j).value)
  }

  /**
   The bounds bracket `ip` inside the row stretch `first`..`last`:
   ip_from(low) <= ip < ip_from(high + 1), and the stretch ends low enough
   that low + high and mid + 1 never wrap.
   */
  ghost predicate Brackets(col: Column, ip: nat, first: nat, last: nat, low: uint32, high: uint32)
  {
    && first <= low <= high && high < last <= 0x8000_0000
    && col(low).Ok? && col(high + 1).Ok?
    && col(low).value <= ip < col(high + 1).value
  }

  /** Sorted rows hold any address in at most one range: a later row cannot hold it too. */
  lemma ContainingRowUnique(col: Column, ip: nat, first: nat, last: nat, i: nat, j: nat)
    requires SortedRows(col, first, last)
    requires first <= i < j < last
    ensures !(Contains(col, i, ip) && Contains(col, j, ip))
  {
    assert col(i + 1).value <= col(j).value;
  }

  /** Narrowing to the lower half keeps the address bracketed. */
  lemma BracketsLowerHalf(col: Column, ip: nat, first: nat, last: nat, low: uint32, high: uint32, mid: uint32)
    requires Brackets(col, ip, first, last, low, high)
    requires low <= mid <= high
    requires col(mid).Ok? && ip < col(mid).value
    ensures low < mid
    ensures Brackets(col, ip, first, last, low, mid - 1)
  {
  }

  /** Narrowing to the upper half keeps the address bracketed. */
  lemma BracketsUpperHalf(col: Column, ip: nat, first: nat, last: nat, low: uint32, high: uint32, mid: uint32)
    requires Brackets(col, ip, first, last, low, high)
    requires low <= mid <= high
    requires col(mid + 1).Ok? && col(mid + 1).value <= ip
    ensures mid < high
    ensures Brackets(col, ip, first, last, mid + 1, high)
  {
  }

  /**
   One iteration on bracketing bounds in readable rows either hits a row
   between them or narrows them to a bracketing range at most half as large.
   */
  lemma StepNarrows(col: Column, ip: nat, first: nat, last: nat, low: uint32, high: uint32)
    requires Readable(col, first, last)
    requires Brackets(col, ip, first, last, low, high)
    ensures var s := Step(col, ip, low, high);
      || (s.Hit? && low <= s.row <= high)
      || (s.Next? && Brackets(col, ip, first, last, s.low, s.high)
          && s.high + 1 - s.low <= (high + 1 - low) / 2)
  {
    var mid := Midpoint(low, high);
    assert mid == (low + high) / 2 by {
      assert Wrap32(low + high) == low + high;
    }
    assert col(mid).Ok? && col(mid + 1).Ok?;
    if ip < col(mid).value {
      StepLower(col, ip, first, last, low, high, mid);
    } else if col(mid + 1).value <= ip {
      StepUpper(col, ip, first, last, low, high, mid);
    }
  }

  /** An address below the midpoint row's start moves `high` to mid - 1, keeping the bracket. */
  lemma StepLower(col: Column, ip: nat, first: nat, last: nat, low: uint32, high: uint32, mid: uint32)
    requires Brackets(col, ip, first, last, low, high)
    requires mid == Midpoint(low, high) == (low + high) / 2
    requires col(mid).Ok? && col(mid + 1).Ok? && ip < col(mid).value
    ensures low < mid
    ensures Step(col, ip, low, high) == Next(low, mid - 1)
    ensures Brackets(col, ip, first, last, low, mid - 1)
    ensures mid - low <= (high + 1 - low) / 2
  {
    BracketsLowerHalf(col, ip, first, last, low, high, mid);
  }

  /** An address at or past the next row's start moves `low` to mid + 1, keeping the bracket. */
  lemma StepUpper(col: Column, ip: nat, first: nat, last: nat, low: uint32, high: uint32, mid: uint32)
    requires Brackets(col, ip, first, last, low, high)
    requires mid == Midpoint(low, high) == (low + high) / 2
    requires col(mid).Ok? && col(mid + 1).Ok? && col(mid).value <= ip && col(mid + 1).value <= ip
    ensures mid < high
    ensures Step(col, ip, low, high) == Next(mid + 1, high)
    ensures Brackets(col, ip, first, last, mid + 1, high)
    ensures high - mid <= (high + 1 - low) / 2
  {
    BracketsUpperHalf(col, ip, first, last, low, high, mid);
  }

  /**
   When the bounds bracket the address in readable rows, the loop ends on
   a row between them that holds the address, within log2 of the range's
   size iterations. Sortedness is not needed for this: every narrowing
   keeps a bracket.
   */
  lemma {:induction false} BisectEndsInRange(col: Column, ip: nat, first: nat, last: nat,
                                             low: uint32, high: uint32, steps: nat)
    requires Readable(col, first, last)
    requires Brackets(col, ip, first, last, low, high)
    requires high + 1 - low < Pow2(steps)
    ensures Bisect(col, ip, low, high, steps).Found?
    ensures low <= Bisect(col, ip, low, high, steps).row <= high
    decreases steps
  {
    var s := Step(col, ip, low, high);
    StepNarrows(col, ip, first, last, low, high);
    if s.Next? {
      BisectEndsInRange(col, ip, first, last, s.low, s.high, steps - 1);
    }
  }

  /** In sorted rows, a row that holds the address is the only one in the stretch that does. */
  lemma OnlyContainingRow(col: Column, ip: nat, first: nat, last: nat, row: nat)
    requires SortedRows(col, first, last)
    requires first <= row < last && Contains(col, row, ip)
    ensures forall i :: first <= i < last ==> (Contains(col, i, ip) <==> i == row)
  {
    forall i | first <= i < last && i != row
      ensures !Contains(col, i, ip)
    {
      if i < row {
        ContainingRowUnique(col, ip, first, last, i, row);
      } else {
        ContainingRowUnique(col, ip, first, last, row, i);
      }
    }
  }

  /**
   Binary-search correctness: when the bounds bracket the address in sorted
   rows, the loop finds the one row of the stretch whose range holds it.
   */
  lemma BisectFindsRow(col: Column, ip: nat, first: nat, last: nat,
                       low: uint32, high: uint32, steps: nat)
    requires SortedRows(col, first, last)
    requires Brackets(col, ip, first, last, low, high)
    requires high + 1 - low < Pow2(steps)
    ensures var r := Bisect(col, ip, low, high, steps);
      && r.Found?
      && low <= r.row <= high
      && forall i :: first <= i < last ==> (Contains(col, i, ip) <==> i == r.row)
  {
    BisectEndsInRange(col, ip, first, last, low, high, steps);
    var r := Bisect(col, ip, low, high, steps);
    assert first <= low <= r.row <= high < last;
    assert Contains(col, r.row, ip);
    OnlyContainingRow(col, ip, first, last, r.row);
  }

  /**
   The offsets of rows `mid` and `mid + 1` as the loop computes them:
   dataOffset + mid * rowWidth, then one row width more, all in uint32.
   */
  method RowOffsets(layout: Layout, mid: uint32) returns (rowOffset: uint32, rowOffset2: uint32)
    ensures rowOffset == RowOffset(layout, mid)
    ensures rowOffset2 == RowOffset(layout, mid + 1)
  {
    rowOffset := Wrap32(layout.dataOffset + Wrap32(mid * layout.rowWidth));
    rowOffset2 := Wrap32(rowOffset + layout.rowWidth);
    RowOffsetsAgree(layout, mid);
  }

  /** The read of the `ip_from` of `row` at its 1-based offset minus one, in uint32. */
  method ReadRow(read: AddressReader, layout: Layout, ghost col: Column, rowOffset: uint32, row: nat)
    returns (v: Result<nat>)
    requires forall i: nat {:trigger RowStart(layout, i)} :: col(i) == read(RowStart(layout, i))
    requires rowOffset == RowOffset(layout, row)
    ensures v == col(row)
  {
    assert Wrap32(rowOffset as int - 1) == RowStart(layout, row);
    v := read(Wrap32(rowOffset as int - 1));
  }

  /**
   One iteration of the search loop as written: the offsets of rows `mid`
   and `mid + 1` are computed in uint32 from the midpoint, both values are
   read at those offsets minus one, stopping at the first failed read, and
   the two starts decide the step. Over any column that `read`
   realises at the rows' offsets, it does what `Step` does, and hands back
   the offset of row `mid`.
   */
  method Probe(read: AddressReader, layout: Layout, ghost col: Column, ip: nat, low: uint32, high: uint32)
    returns (s: StepResult, rowOffset: uint32)
    requires forall i: nat {:trigger RowStart(layout, i)} :: col(i) == read(RowStart(layout, i))
    ensures s == Step(col, ip, low, high)
    ensures rowOffset == RowOffset(layout, Midpoint(low, high))
  {
    var mid: uint32 := Midpoint(low, high);
    var rowOffset2;
    rowOffset, rowOffset2 := RowOffsets(layout, mid);
    var from := ReadRow(read, layout, col, rowOffset, mid);
    if from.Err? {
      return Unreadable, rowOffset;
    }
    var to := ReadRow(read, layout, col, rowOffset2, mid + 1);
    if to.Err? {
      return Unreadable, rowOffset;
    }
    s := Decide(from.value, to.value, ip, low, high, mid);
  }

  /**
   The search loop as written. Over any column that `read` realises at the
   rows' offsets, it stops where `Bisect` stops, with the same outcome, and
   hands back the offset of the row it found.
   */
  method SearchLoop(read: AddressReader, layout: Layout, ghost col: Column, ip: nat, low0: uint32, high0: uint32, budget: nat)
    returns (r: Outcome, rowOffset: uint32)
    requires forall i: nat {:trigger RowStart(layout, i)} :: col(i) == read(RowStart(layout, i))
    ensures r == Bisect(col, ip, low0, high0, budget)
    ensures r.Found? ==> Contains(col, r.row, ip) && rowOffset == RowOffset(layout, r.row)
  {
    var low, high, steps := low0, high0, budget;
    rowOffset := 0;
    while low <= high && steps > 0
      invariant Bisect(col, ip, low, high, steps) == Bisect(col, ip, low0, high0, budget)
      decreases steps
    {
      var s;
      s, rowOffset := Probe(read, layout, col, ip, low, high);
      match s
      case Hit(row) =>
        return Found(row), rowOffset;
      case Unreadable =>
        return ReadFailed, rowOffset;
      case Next(low', high') =>
        low, high := low', high';
      steps := steps - 1;
    }
    if low > high {
      r := Exhausted;
    } else {
      r := Unfinished;
    }
  }

  /**
   `mid - 1` wraps: when the loop probes row 0 and the address lies below
   that row's start, `high` becomes 2^32 - 1 and the loop goes on over the
   whole uint32 range instead of stopping.
   */
  lemma MissBelowRowZeroWraps(col: Column, ip: nat, high: uint32, steps: nat)
    requires high <= 1 && steps >= 1
    requires col(0).Ok? && col(1).Ok?
    requires ip < col(0).value
    ensures Bisect(col, ip, 0, high, steps) == Bisect(col, ip, 0, 0xFFFF_FFFF, steps - 1)
  {
    var s := Step(col, ip, 0, high);
    assert Midpoint(0, high) == 0;
    assert s == Next(0, 0xFFFF_FFFF);
  }
}
