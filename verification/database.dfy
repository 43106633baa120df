/**
 The database handle: opening checks the format byte and decodes the header;
 a query normalises the address, takes starting bounds from the index table
 (or the whole row area), bisects the family's rows and resolves the
 country strings the found row points at.
 */
module Database {
  import opened Words
  import opened Errors
  import opened Reader
  import opened Address
  import opened Search

  /** The country pointer is the second 4-byte column of a row, at 1-based column offset 4. */
  const CountryOffset: nat := 4

  /**
   Iterations the model lets the search loop run. The loop's whole state is
   the pair (low, high) of uint32 values, so a run longer than 2^64
   iterations has repeated a state and never ends.
   */
  const SearchSteps: nat := 0x1_0000_0000_0000_0001

  /** The header fields of an open database, as the handle keeps them. */
  datatype Meta = Meta(
    v4IndexOffset: uint32, v6IndexOffset: uint32,
    v4DataLen: uint32, v6DataLen: uint32,
    v4DataOffset: uint32, v6DataOffset: uint32,
    v4ColumnWidth: uint32, v6ColumnWidth: uint32)

  /** An open database: the reader over the file and its decoded header. */
  datatype DB = DB(reader: Reader, meta: Meta)

  /** The two strings a row resolves to. */
  datatype Country = Country(code: seq<byte>, name: seq<byte>)

  /**
   What `Query` gives back: a country, an error, or no answer at all when
   the search loop would run forever.
   */
  datatype QueryResult = Answer(country: Country) | Failed(error: Error) | Diverges

  /**
   The little-endian word at `off` as the code ends up holding it: the
   value of the four bytes there, or zero when the file ends before them.
   */
  function WordAt(data: seq<byte>, off: nat): uint32
  {
    if off + 4 <= |data| then
      data[off] as int + 0x100 * data[off + 1] as int + 0x1_0000 * data[off + 2] as int + 0x100_0000 * data[off + 3] as int
    else 0
  }

  /**
   `readMeta`: the column count at byte 1 gives both row widths, computed in
   uint8 (`col << 2` and `16 + ((col - 1) << 2)`); then six header words are
   read in order, stopping at the first read that fails and leaving the
   rest zero.
   */
  function ReadMeta(data: seq<byte>): (m: Meta)
    ensures m.v4DataLen == WordAt(data, 5)
    ensures m.v4DataOffset == WordAt(data, 9)
    ensures m.v6DataLen == WordAt(data, 13)
    ensures m.v6DataOffset == WordAt(data, 17)
    ensures m.v4IndexOffset == WordAt(data, 21)
    ensures m.v6IndexOffset == WordAt(data, 25)
    ensures |data| >= 2 ==> m.v4ColumnWidth == (4 * data[1] as int) % 256 && m.v6ColumnWidth == (4 * data[1] as int + 12) % 256
    ensures |data| < 2 ==> m.v4ColumnWidth == 0 && m.v6ColumnWidth == 0
  {
    var zero := Meta(0, 0, 0, 0, 0, 0, 0, 0);
    var col := ReadUint8(data, 1);
    if col.Err? then zero
    else
      var c := col.value;
      WidthArithmetic(c);
      var m0 := zero.(v4ColumnWidth := Wrap8(c * 4), v6ColumnWidth := Wrap8(16 + Wrap8(Wrap8(c - 1) * 4)));
      var a := ReadUint32(data, 5);
      if a.Err? then m0
      else
        var m1 := m0.(v4DataLen := a.value);
        var b := ReadUint32(data, 9);
        if b.Err? then m1
        else
          var m2 := m1.(v4DataOffset := b.value);
          var d := ReadUint32(data, 13);
          if d.Err? then m2
          else
            var m3 := m2.(v6DataLen := d.value);
            var e := ReadUint32(data, 17);
            if e.Err? then m3
            else
              var m4 := m3.(v6DataOffset := e.value);
              var f := ReadUint32(data, 21);
              if f.Err? then m4
              else
                var m5 := m4.(v4IndexOffset := f.value);
                var g := ReadUint32(data, 25);
                if g.Err? then m5
                else m5.(v6IndexOffset := g.value)
  }

  /** The uint8 width expressions reduce to plain arithmetic modulo 256. */
  lemma WidthArithmetic(c: byte)
    ensures Wrap8(c as int * 4) == (4 * c as int) % 256
    ensures Wrap8(16 + Wrap8(Wrap8(c as int - 1) * 4)) == (4 * c as int + 12) % 256
  {
    var t := Wrap8(c as int - 1) * 4;
    var k := t / 256;
    var low := t % 256;
    assert t == 256 * k + low;
    assert 16 + low + 256 * k == 16 + t;
    ModShift(16 + low, k);
    if c == 0 {
      assert t == 1020;
    } else {
      assert 16 + t == 4 * c as int + 12;
    }
  }

  /** Adding a multiple of 256 does not change a value modulo 256. */
  lemma ModShift(x: int, k: int)
    ensures (x + 256 * k) % 256 == x % 256
  {
    var q := x / 256;
    assert x + 256 * k == 256 * (q + k) + x % 256;
  }

  /**
   The uint8 width arithmetic is exact up to 60 columns; at 61 the IPv6
   width wraps to zero, at 64 the IPv4 width does, and a column count of
   zero gives an IPv6 width of 12.
   */
  lemma ColumnWidths(data: seq<byte>)
    requires |data| >= 2
    ensures 1 <= data[1] <= 60 ==>
      ReadMeta(data).v4ColumnWidth == 4 * data[1] as int && ReadMeta(data).v6ColumnWidth == 16 + 4 * (data[1] as int - 1)
    ensures data[1] == 61 ==> ReadMeta(data).v4ColumnWidth == 244 && ReadMeta(data).v6ColumnWidth == 0
    ensures data[1] == 64 ==> ReadMeta(data).v4ColumnWidth == 0 && ReadMeta(data).v6ColumnWidth == 12
    ensures data[1] == 0 ==> ReadMeta(data).v4ColumnWidth == 0 && ReadMeta(data).v6ColumnWidth == 12
  {
  }

  /**
   `New`: the file must have a first byte, and that format byte must be 1;
   the header is then decoded, and a header cut short is not an error.
   */
  function New(data: seq<byte>): (r: Result<DB>)
    ensures r == Err(IOFailure) <==> |data| == 0
    ensures r.Err? && r.error.UnsupportedFormat? <==> |data| > 0 && data[0] != 1
    ensures r.Err? && r.error.UnsupportedFormat? ==> r.error.found == data[0]
    ensures r.Ok? <==> |data| > 0 && data[0] == 1
    ensures r.Ok? ==> r.value.reader == Reader(data, 1) && r.value.meta == ReadMeta(data)
  {
    var reader := NewReader(data);
    if reader.Err? then Err(reader.error)
    else if reader.value.format != 1 then Err(UnsupportedFormat(reader.value.format))
    else Ok(DB(reader.value, ReadMeta(data)))
  }

  /** `scanner`: the family's row area, row count, row width and largest address. */
  function Scanner(meta: Meta, fam: Family): (layout: Layout)
    ensures layout.maxValue + 1 == (if fam == V4 then Two32 else Two128)
    ensures fam == V4 ==>
      layout.dataOffset == meta.v4DataOffset && layout.rowCount == meta.v4DataLen && layout.rowWidth == meta.v4ColumnWidth
    ensures fam == V6 ==>
      layout.dataOffset == meta.v6DataOffset && layout.rowCount == meta.v6DataLen && layout.rowWidth == meta.v6ColumnWidth
  {
    if fam == V4 then Layout(meta.v4DataOffset, meta.v4DataLen, meta.v4ColumnWidth, V4Max)
    else Layout(meta.v6DataOffset, meta.v6DataLen, meta.v6ColumnWidth, V6Max)
  }

  /**
   `ipIndex`: the 1-based offset of the address's index entry. IPv4 is
   bucketed by its top 16 bits, IPv6 by its top 16 of 128; each entry is 8
   bytes. The big-integer sum is cut to 64 and then to 32 bits. A family
   without an index table has offset 0.
   */
  function IpIndex(meta: Meta, fam: Family, ip: nat): (idx: uint32)
    ensures fam == V4 && meta.v4IndexOffset == 0 ==> idx == 0
    ensures fam == V6 && meta.v6IndexOffset == 0 ==> idx == 0
    ensures fam == V4 && meta.v4IndexOffset != 0 ==> idx == Wrap32(meta.v4IndexOffset + (ip / 0x1_0000) * 8)
    ensures fam == V6 && meta.v6IndexOffset != 0 ==> idx == Wrap32(meta.v6IndexOffset + (ip / Two112) * 8)
  {
    var offset := if fam == V4 then meta.v4IndexOffset else meta.v6IndexOffset;
    var shift := if fam == V4 then 0x1_0000 else Two112;
    if offset == 0 then 0
    else
      var sum := (ip / shift) * 8 + offset;
      Wrap32Of64(sum);
      Wrap32(sum % Two64)
  }

  /** Cutting to 64 bits before cutting to 32 bits changes nothing. */
  lemma Wrap32Of64(x: nat)
    ensures Wrap32(x % Two64) == Wrap32(x)
  {
    var q := x / Two64;
    assert x == q * Two32 * Two32 + x % Two64;
  }

  /** A valid address's index entry needs no truncation when the index table starts low enough. */
  lemma IndexExact(meta: Meta, fam: Family, ip: nat)
    requires ip <= Scanner(meta, fam).maxValue
    requires fam == V4 ==> 0 < meta.v4IndexOffset <= Two32 - 1 - 0x7_FFF8
    requires fam == V6 ==> 0 < meta.v6IndexOffset <= Two32 - 1 - 0x7_FFF8
    ensures fam == V4 ==> IpIndex(meta, fam, ip) == meta.v4IndexOffset + (ip / 0x1_0000) * 8
    ensures fam == V6 ==> IpIndex(meta, fam, ip) == meta.v6IndexOffset + (ip / Two112) * 8
  {
    var bucket := if fam == V4 then ip / 0x1_0000 else ip / Two112;
    assert bucket <= 0xFFFF;
    var offset := if fam == V4 then meta.v4IndexOffset else meta.v6IndexOffset;
    NoWrap(offset + bucket * 8);
  }

  lemma NoWrap(x: int)
    requires 0 <= x < Two32
    ensures Wrap32(x) == x
  {
  }

  /**
   The starting bounds: from the two index words at idx - 1 and idx + 3
   (1-based, uint32) when there is an index entry, otherwise 0 and the row
   count itself.
   */
  function InitialBounds(data: seq<byte>, idx: uint32, rowCount: uint32): (r: Result<(uint32, uint32)>)
    ensures idx == 0 ==> r == Ok((0, rowCount))
    ensures idx > 0 ==> (r.Ok? <==> idx + 3 <= |data| && Wrap32(idx + 3) + 4 <= |data|)
    ensures idx > 0 && r.Ok? ==>
      r.value.0 == WordAt(data, idx - 1) && r.value.1 == WordAt(data, Wrap32(idx + 3))
    ensures r.Err? ==> r.error == IOFailure
  {
    if idx > 0 then
      var low := ReadUint32(data, idx - 1);
      if low.Err? then Err(low.error)
      else
        var high := ReadUint32(data, Wrap32(idx + 3));
        if high.Err? then Err(high.error)
        else Ok((low.value, high.value))
    else Ok((0, rowCount))
  }

  /**
   The address the search looks for: the largest address `scanner` gives
   for the family (or anything above it) is moved down by one, since no
   row's range can end past the largest address.
   */
  function Clamp(maxValue: nat, ip: nat): (r: nat)
    requires maxValue >= 1
    ensures r == ip <==> ip < maxValue
    ensures r != ip ==> r + 1 == ip
    ensures ip <= maxValue ==> r < maxValue
  {
    if ip >= maxValue then ip - 1 else ip
  }

  /**
   The 0-based offset of the country pointer of the row at the 1-based
   `rowOffset`: past the `ip_from` column (4 bytes, or 16 for IPv6, hence
   12 more) at column offset 4, minus one, in uint32.
   */
  function CountryColumn(fam: Family, rowOffset: uint32): (off: uint32)
    ensures off == Wrap32(rowOffset + (if fam == V6 then 12 else 0) + CountryOffset - 1)
  {
    var start := if fam == V6 then Wrap32(rowOffset + 12) else rowOffset;
    WrapAdd(start + CountryOffset, -1);
    WrapAdd(rowOffset + 12, CountryOffset - 1);
    Wrap32(Wrap32(start + CountryOffset) - 1)
  }

  /**
   Country resolution for a found row: the row's country pointer, then the
   code string there and the name string three bytes further on.
   */
  function ResolveCountry(data: seq<byte>, fam: Family, rowOffset: uint32): (r: Result<Country>)
    ensures r.Err? ==> r.error == IOFailure
    ensures r.Ok? ==>
      var ci := ReadUint32(data, CountryColumn(fam, rowOffset));
      && ci.Ok?
      && ReadString(data, ci.value) == Ok(r.value.code)
      && ReadString(data, Wrap32(ci.value + 3)) == Ok(r.value.name)
    ensures var ci := ReadUint32(data, CountryColumn(fam, rowOffset));
      r.Ok? <==> ci.Ok? && ReadString(data, ci.value).Ok? && ReadString(data, Wrap32(ci.value + 3)).Ok?
  {
    var ci := ReadUint32(data, CountryColumn(fam, rowOffset));
    if ci.Err? then Err(ci.error)
    else
      var code := ReadString(data, ci.value);
      if code.Err? then Err(code.error)
      else
        var name := ReadString(data, Wrap32(ci.value + 3));
        if name.Err? then Err(name.error)
        else Ok(Country(code.value, name.value))
  }

  /**
   The layout the strings are stored in: a two-byte code with its length
   byte, directly followed by the length-prefixed name. A row pointing at
   such a record resolves to exactly that code and name.
   */
  lemma ResolveCountryOfRecord(data: seq<byte>, fam: Family, rowOffset: uint32, ci: uint32, c: Country)
    requires |c.code| == 2 && |c.name| < 256
    requires ReadUint32(data, CountryColumn(fam, rowOffset)) == Ok(ci)
    requires ci + 4 + |c.name| < Two32 && ci + 4 + |c.name| <= |data|
    requires data[ci..ci + 4 + |c.name|] == [2] + c.code + [|c.name|] + c.name
    ensures ResolveCountry(data, fam, rowOffset) == Ok(c)
  {
    RecordStrings(data, ci, c);
  }

  /** The two strings of a country record read back as its code and name. */
  lemma RecordStrings(data: seq<byte>, ci: uint32, c: Country)
    requires |c.code| == 2 && |c.name| < 256
    requires ci + 4 + |c.name| < Two32 && ci + 4 + |c.name| <= |data|
    requires data[ci..ci + 4 + |c.name|] == [2] + c.code + [|c.name|] + c.name
    ensures ReadString(data, ci) == Ok(c.code)
    ensures ReadString(data, Wrap32(ci + 3)) == Ok(c.name)
  {
    var rec := data[ci..ci + 4 + |c.name|];
    assert data[ci..ci + 3] == rec[..3] == [2] + c.code;
    ReadStringOfEncoding(data, ci, c.code);
    assert Wrap32(ci + 3) == ci + 3;
    assert data[ci + 3..ci + 4 + |c.name|] == rec[3..] == [|c.name|] + c.name;
    ReadStringOfEncoding(data, ci + 3, c.name);
  }

  /** The `ip_from` column of the family's rows in the file. */
  function TableColumn(data: seq<byte>, fam: Family, layout: Layout): Column
  {
    ColumnOf(ReaderFor(data, fam), layout)
  }

  /** The result of resolving the found row's strings. */
  function Resolved(r: Result<Country>): QueryResult
  {
    if r.Ok? then Answer(r.value) else Failed(r.error)
  }

  /**
   `Query` once the address is normalised: index lookup and scanner, the
   starting bounds, the clamp, the search loop, and country resolution.
   */
  function Lookup(db: DB, fam: Family, ip: nat): (r: QueryResult)
    ensures r != Failed(InvalidIP)
    ensures r.Failed? && r.error.UnsupportedFormat? ==> false
    ensures var layout := Scanner(db.meta, fam);
      var bounds := InitialBounds(db.reader.data, IpIndex(db.meta, fam, ip), layout.rowCount);
      && (bounds.Err? ==> r == Failed(IOFailure))
      && (bounds.Ok? && bounds.value.0 > bounds.value.1 ==> r == Failed(NoResults))
      && (bounds.Ok? ==>
            var b := Bisect(TableColumn(db.reader.data, fam, layout), Clamp(layout.maxValue, ip),
                            bounds.value.0, bounds.value.1, SearchSteps);
            && (r == Failed(NoResults) <==> b.Exhausted?)
            && (r == Diverges <==> b.Unfinished?)
            && (b.ReadFailed? ==> r == Failed(IOFailure))
            && (b.Found? ==>
                  var c := ResolveCountry(db.reader.data, fam, RowOffset(layout, b.row));
                  && (r.Answer? <==> c.Ok?)
                  && (c.Ok? ==> r.country == c.value)
                  && (c.Err? ==> r == Failed(c.error))))
    ensures r.Answer? ==>
      var layout := Scanner(db.meta, fam);
      exists row: uint32 :: && Contains(TableColumn(db.reader.data, fam, layout), row, Clamp(layout.maxValue, ip))
                            && ResolveCountry(db.reader.data, fam, RowOffset(layout, row)) == Ok(r.country)
  {
    var data := db.reader.data;
    var idx := IpIndex(db.meta, fam, ip);
    var layout := Scanner(db.meta, fam);
    var bounds := InitialBounds(data, idx, layout.rowCount);
    if bounds.Err? then Failed(bounds.error)
    else
      var target := Clamp(layout.maxValue, ip);
      match Bisect(TableColumn(data, fam, layout), target, bounds.value.0, bounds.value.1, SearchSteps)
      case Found(row) => Resolved(ResolveCountry(data, fam, RowOffset(layout, row)))
      case Exhausted => Failed(NoResults)
      case ReadFailed => Failed(IOFailure)
      case Unfinished => Diverges
  }

  /**
   `Query`: an address that does not normalise is rejected before any
   read; any other address is looked up in its family's table.
   */
  function Query(db: DB, lit: Literal): (r: QueryResult)
    ensures r == Failed(InvalidIP) <==> ParseIP(lit).Invalid?
    ensures ParseIP(lit).Addr? ==> r == Lookup(db, ParseIP(lit).family, ParseIP(lit).value)
  {
    var n := ParseIP(lit);
    if n.Invalid? then Failed(InvalidIP) else Lookup(db, n.family, n.value)
  }

  /** `Version`: the database date from the header. */
  function Version(db: DB): (r: Result<string>)
    ensures r.Ok? <==> |db.reader.data| >= 5
    ensures r == ReadVersion(db.reader.data)
  {
    ReadVersion(db.reader.data)
  }

  /**
   Query correctness: when the starting bounds bracket the clamped address
   in a sorted stretch of rows, the answer is the resolution of the one row
   of the stretch whose range holds it.
   */
  lemma LookupFindsRow(db: DB, fam: Family, ip: nat, first: nat, last: nat)
    requires var layout := Scanner(db.meta, fam);
      var bounds := InitialBounds(db.reader.data, IpIndex(db.meta, fam, ip), layout.rowCount);
      && bounds.Ok?
      && SortedRows(TableColumn(db.reader.data, fam, layout), first, last)
      && Brackets(TableColumn(db.reader.data, fam, layout), Clamp(layout.maxValue, ip), first, last, bounds.value.0, bounds.value.1)
    ensures var layout := Scanner(db.meta, fam);
      && (exists row: nat :: first <= row < last && Contains(TableColumn(db.reader.data, fam, layout), row, Clamp(layout.maxValue, ip)))
      && forall row: nat :: first <= row < last && Contains(TableColumn(db.reader.data, fam, layout), row, Clamp(layout.maxValue, ip)) ==>
           Lookup(db, fam, ip) == Resolved(ResolveCountry(db.reader.data, fam, RowOffset(layout, row)))
  {
    var data := db.reader.data;
    var layout := Scanner(db.meta, fam);
    var col := TableColumn(data, fam, layout);
    var bounds := InitialBounds(data, IpIndex(db.meta, fam, ip), layout.rowCount);
    var low, high := bounds.value.0, bounds.value.1;
    var target := Clamp(layout.maxValue, ip);
    Pow2Of32();
    Pow2Monotone(32, SearchSteps);
    BisectFindsRow(col, target, first, last, low, high, SearchSteps);
    var row := Bisect(col, target, low, high, SearchSteps).row;
    LookupOfFound(db, fam, ip);
    assert first <= row < last && Contains(col, row, target);
  }

  /** When the search ends on a row, the query's answer is that row's resolution. */
  lemma LookupOfFound(db: DB, fam: Family, ip: nat)
    ensures var layout := Scanner(db.meta, fam);
      var bounds := InitialBounds(db.reader.data, IpIndex(db.meta, fam, ip), layout.rowCount);
      bounds.Ok? ==>
        var r := Bisect(TableColumn(db.reader.data, fam, layout), Clamp(layout.maxValue, ip), bounds.value.0, bounds.value.1, SearchSteps);
        r.Found? ==> Lookup(db, fam, ip) == Resolved(ResolveCountry(db.reader.data, fam, RowOffset(layout, r.row)))
  {
  }

  /**
   A table without an index is searched from row 0 to the row count: when
   its rows 0 through rowCount + 1 are sorted and the clamped address lies
   between the first and the last of them, the query resolves the row that
   holds it.
   */
  lemma UnindexedLookupFindsRow(db: DB, fam: Family, ip: nat)
    requires fam == V4 ==> db.meta.v4IndexOffset == 0
    requires fam == V6 ==> db.meta.v6IndexOffset == 0
    requires var layout := Scanner(db.meta, fam);
      && layout.rowCount < 0x8000_0000
      && SortedRows(TableColumn(db.reader.data, fam, layout), 0, layout.rowCount + 1)
      && TableColumn(db.reader.data, fam, layout)(0).value <= Clamp(layout.maxValue, ip)
      && Clamp(layout.maxValue, ip) < TableColumn(db.reader.data, fam, layout)(layout.rowCount + 1).value
    ensures var layout := Scanner(db.meta, fam);
      forall row: nat :: row <= layout.rowCount && Contains(TableColumn(db.reader.data, fam, layout), row, Clamp(layout.maxValue, ip)) ==>
        Lookup(db, fam, ip) == Resolved(ResolveCountry(db.reader.data, fam, RowOffset(layout, row)))
    ensures Lookup(db, fam, ip) != Failed(NoResults) && Lookup(db, fam, ip) != Diverges
  {
    var layout := Scanner(db.meta, fam);
    LookupFindsRow(db, fam, ip, 0, layout.rowCount + 1);
  }

  /** The index entry of the family's largest address is that of its predecessor. */
  lemma IndexIgnoresClamp(meta: Meta, fam: Family)
    ensures var top := Scanner(meta, fam).maxValue;
      top >= 1 && IpIndex(meta, fam, top) == IpIndex(meta, fam, top - 1)
  {
    if fam == V4 {
      assert V4Max / 0x1_0000 == 0xFFFF == (V4Max - 1) / 0x1_0000;
    } else {
      assert V6Max / Two112 == 0xFFFF == (V6Max - 1) / Two112;
    }
  }

  /**
   The largest address of a family gets the same answer as the address just
   below it: the clamp moves it there, and its index entry is the same, so
   the clamp coming after the index lookup does not matter.
   */
  lemma TopAddressResolvesAsPredecessor(db: DB, fam: Family)
    ensures var top := Scanner(db.meta, fam).maxValue;
      top >= 1 && Lookup(db, fam, top) == Lookup(db, fam, top - 1)
  {
    var top := Scanner(db.meta, fam).maxValue;
    IndexIgnoresClamp(db.meta, fam);
    assert Clamp(top, top) == top - 1 == Clamp(top, top - 1);
    LookupDependsOnIndexAndTarget(db, fam, top, top - 1);
  }

  /** Two addresses with the same index entry and the same clamped value get the same answer. */
  lemma LookupDependsOnIndexAndTarget(db: DB, fam: Family, ip: nat, ip': nat)
    requires IpIndex(db.meta, fam, ip) == IpIndex(db.meta, fam, ip')
    requires Clamp(Scanner(db.meta, fam).maxValue, ip) == Clamp(Scanner(db.meta, fam).maxValue, ip')
    ensures Lookup(db, fam, ip) == Lookup(db, fam, ip')
  {
  }

  /**
   The IPv4-carrying IPv6 forms query the same as the IPv4 address they
   carry: the IPv4-mapped form, a 6to4 form with any low 80 bits, and a
   Teredo form with any server, flags and port.
   */
  lemma EmbeddedFormsAgree(db: DB, a: uint32, rest: nat, middle: nat)
    requires rest < Two80 && middle < Two64
    ensures Query(db, Parsed(EncodeBigEndian(MappedOf(a), 16))) == Query(db, Parsed(EncodeBigEndian(a, 4)))
    ensures Query(db, Parsed(EncodeBigEndian(SixToFourOf(a, rest), 16))) == Query(db, Parsed(EncodeBigEndian(a, 4)))
    ensures Query(db, Parsed(EncodeBigEndian(TeredoOf(a, middle), 16))) == Query(db, Parsed(EncodeBigEndian(a, 4)))
  {
    QueryOfFour(db, a);
    QueryOfSixteen(db, MappedOf(a));
    NormaliseMapped(a);
    QueryOfSixteen(db, SixToFourOf(a, rest));
    NormaliseSixToFour(a, rest);
    QueryOfSixteen(db, TeredoOf(a, middle));
    NormaliseTeredo(a, middle);
  }

  /** A 4-byte address queries the IPv4 table with its big-endian value. */
  lemma QueryOfFour(db: DB, a: uint32)
    ensures Query(db, Parsed(EncodeBigEndian(a, 4))) == Lookup(db, V4, a)
  {
    Pow256Values();
    BigEndianOfEncode(a, 4);
  }

  /** A 16-byte address queries the table its normalised value selects. */
  lemma QueryOfSixteen(db: DB, n: nat)
    requires n < Two128
    ensures Query(db, Parsed(EncodeBigEndian(n, 16))) == Lookup(db, Normalise(n).family, Normalise(n).value)
  {
    Pow256Values();
    BigEndianOfEncode(n, 16);
  }
}
