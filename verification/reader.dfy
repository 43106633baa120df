/**
 The positioned byte reader of the database file. The file is an immutable
 byte sequence; every read takes an absolute uint32 offset, and a read that
 runs past the end is an I/O error carrying no value, as a short `ReadAt` is.
 */
module Reader {
  import opened Words
  import opened Errors
  import Text

  /** An open database file and the format byte read from its first byte. */
  datatype Reader = Reader(data: seq<byte>, format: byte)

  /** `os.File.ReadAt` of `k` bytes at `off`: a zero-length read always succeeds. */
  function ReadAt(data: seq<byte>, off: uint32, k: nat): (r: Result<seq<byte>>)
    ensures r.Ok? ==> |r.value| == k
  {
    if k == 0 then Ok([])
    else if off + k <= |data| then Ok(data[off..off + k])
    else Err(IOFailure)
  }

  /** Opens a reader: the format is the file's first byte. */
  function NewReader(data: seq<byte>): (r: Result<Reader>)
    ensures r.Ok? <==> |data| > 0
    ensures r.Ok? ==> r.value.data == data && r.value.format == data[0]
    ensures r.Err? ==> r.error == IOFailure
  {
    var format := ReadUint8(data, 0);
    if format.Err? then Err(format.error) else Ok(Reader(data, format.value))
  }

  /** One unsigned byte. */
  function ReadUint8(data: seq<byte>, idx: uint32): (r: Result<byte>)
    ensures r.Ok? <==> idx < |data|
    ensures r.Ok? ==> r.value == data[idx]
    ensures r.Err? ==> r.error == IOFailure
  {
    var buf := ReadAt(data, idx, 1);
    if buf.Err? then Err(buf.error) else Ok(buf.value[0])
  }

  /** A little-endian unsigned 32-bit integer. */
  function ReadUint32(data: seq<byte>, idx: uint32): (r: Result<uint32>)
    ensures r.Ok? <==> idx + 4 <= |data|
    ensures r.Ok? ==> r.value == data[idx] as int + 0x100 * data[idx + 1] as int
                                 + 0x1_0000 * data[idx + 2] as int + 0x100_0000 * data[idx + 3] as int
    ensures r.Err? ==> r.error == IOFailure
  {
    var buf := ReadAt(data, idx, 4);
    if buf.Err? then Err(buf.error)
    else
      var b := buf.value;
      LittleEndianOfFour(b);
      LittleEndianBound(b);
      Pow256Values();
      Ok(LittleEndian(b))
  }

  /**
   The in-place swap loop that turns the little-endian buffer into the
   big-endian one: two indices walk towards each other exchanging bytes.
   */
  method ReverseInPlace(buf: seq<byte>) returns (out: seq<byte>)
    ensures |out| == |buf|
    ensures forall k :: 0 <= k < |buf| ==> out[k] == buf[|buf| - 1 - k]
    ensures out == Reverse(buf)
  {
    out := buf;
    var i: int, j: int := 0, |buf| - 1;
    while i < j
      invariant 0 <= i && j == |buf| - 1 - i && i <= j + 2
      invariant |out| == |buf|
      invariant forall k :: 0 <= k < i ==> out[k] == buf[|buf| - 1 - k] && out[|buf| - 1 - k] == buf[k]
      invariant forall k :: i <= k <= j ==> out[k] == buf[k]
    {
      out := out[i := out[j]][j := out[i]];
      i, j := i + 1, j - 1;
    }
  }

  /** A 128-bit integer: sixteen bytes reversed and read big-endian (`big.Int.SetBytes`). */
  function ReadUint128(data: seq<byte>, idx: uint32): (r: Result<uint128>)
    ensures r.Ok? <==> idx + 16 <= |data|
    ensures r.Ok? ==> r.value == LittleEndian(data[idx..idx + 16])
    ensures r.Err? ==> r.error == IOFailure
  {
    var buf := ReadAt(data, idx, 16);
    if buf.Err? then Err(buf.error)
    else
      var v := BigEndian(Reverse(buf.value));
      BigEndianOfReverse(buf.value);
      LittleEndianBound(buf.value);
      Pow256Values();
      Ok(v)
  }

  /** A length-prefixed string: one length byte, then that many bytes from the next offset. */
  function ReadString(data: seq<byte>, idx: uint32): (r: Result<seq<byte>>)
    ensures r.Ok? <==> idx < |data| && Wrap32(idx + 1) + data[idx] <= |data|
    ensures r.Ok? ==> |r.value| == data[idx] <= 255
    ensures r.Ok? ==> r.value == data[Wrap32(idx + 1)..Wrap32(idx + 1) + data[idx]]
    ensures r.Err? ==> r.error == IOFailure
  {
    var lenbuf := ReadAt(data, idx, 1);
    if lenbuf.Err? then Err(lenbuf.error)
    else
      var len := lenbuf.value[0];
      var buf := ReadAt(data, Wrap32(idx + 1), len);
      if buf.Err? then Err(buf.error) else Ok(buf.value[..len])
  }

  /** The database version: bytes 2, 3 and 4 in decimal, joined by dashes. */
  function ReadVersion(data: seq<byte>): (r: Result<string>)
    ensures r.Ok? <==> |data| >= 5
    ensures r.Err? ==> r.error == IOFailure
    ensures r.Ok? ==>
      var fields := Text.Split(r.value, '-');
      && |fields| == 3
      && (forall i :: 0 <= i < 3 ==> Text.IsDigits(fields[i]))
      && (forall i :: 0 <= i < 3 ==> |fields[i]| >= 1 && (fields[i] == "0" || fields[i][0] != '0'))
      && Text.Atoi(fields[0]) == data[2]
      && Text.Atoi(fields[1]) == data[3]
      && Text.Atoi(fields[2]) == data[4]
  {
    var ymd := ReadAt(data, 2, 3);
    if ymd.Err? then Err(ymd.error)
    else
      var year := Text.Itoa(ymd.value[0]);
      var month := Text.Itoa(ymd.value[1]);
      var day := Text.Itoa(ymd.value[2]);
      VersionFields(year, month, day);
      Text.AtoiOfItoa(ymd.value[0]);
      Text.AtoiOfItoa(ymd.value[1]);
      Text.AtoiOfItoa(ymd.value[2]);
      Ok(year + "-" + month + "-" + day)
  }

  /** A version string made of three numerals splits back into those numerals. */
  lemma VersionFields(year: string, month: string, day: string)
    requires Text.IsDigits(year) && Text.IsDigits(month) && Text.IsDigits(day)
    ensures Text.Split(year + "-" + month + "-" + day, '-') == [year, month, day]
  {
    Text.DigitsHaveNoDash(year);
    Text.DigitsHaveNoDash(month);
    Text.DigitsHaveNoDash(day);
    assert year + "-" + month + "-" + day == year + ['-'] + (month + ['-'] + day);
    Text.SplitJoined(year, '-', month + ['-'] + day);
    Text.SplitJoined(month, '-', day);
    Text.SplitWithoutSeparator(day, '-');
  }

  /** Placing a little-endian encoding of `v` at `idx` makes `ReadUint32` return `v`. */
  lemma ReadUint32OfEncoding(data: seq<byte>, idx: uint32, v: uint32)
    requires idx + 4 <= |data|
    requires data[idx..idx + 4] == EncodeLittleEndian(v, 4)
    ensures ReadUint32(data, idx) == Ok(v)
  {
    Pow256Values();
    LittleEndianOfEncode(v, 4);
  }

  /** Placing a little-endian encoding of `v` at `idx` makes `ReadUint128` return `v`. */
  lemma ReadUint128OfEncoding(data: seq<byte>, idx: uint32, v: uint128)
    requires idx + 16 <= |data|
    requires data[idx..idx + 16] == EncodeLittleEndian(v, 16)
    ensures ReadUint128(data, idx) == Ok(v)
  {
    Pow256Values();
    LittleEndianOfEncode(v, 16);
  }

  /** Placing a length byte followed by `s` at `idx` makes `ReadString` return `s`. */
  lemma ReadStringOfEncoding(data: seq<byte>, idx: uint32, s: seq<byte>)
    requires |s| < 256
    requires idx < 0xFFFF_FFFF
    requires idx + 1 + |s| <= |data|
    requires data[idx..idx + 1 + |s|] == [|s|] + s
    ensures ReadString(data, idx) == Ok(s)
  {
    assert data[idx] == data[idx..idx + 1 + |s|][0];
    assert Wrap32(idx + 1) == idx + 1;
    assert data[idx + 1..idx + 1 + |s|] == data[idx..idx + 1 + |s|][1..];
  }
}
