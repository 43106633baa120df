# ip2loc DB1 reader, modelled in Dafny

ip2loc reads IP2Location "DB1" databases, the binary files that map address
ranges to a country code and country name. A database is opened by path, and a
query takes an IPv4 or IPv6 address in text form. The query normalises the
address to an integer and picks that family's table. When the family has an
index table, it takes starting bounds from the index. It then runs a binary
search over the fixed-width rows, and reads the two length-prefixed strings
that the found row points at.

The model treats the file as an immutable byte sequence `seq<byte>`. Go's
uint8 and uint32 arithmetic is written out modulo 2^8 and 2^32, because the
code's offsets and bounds wrap. The modules follow the program:

- `Words`: bytes, uint32 and uint128 values, wrap-around, and the little- and
  big-endian readings of a byte string.
- `Errors`: the error kinds (invalid address, unsupported format, no
  results, I/O failure) and a `Result` type.
- `Text`: `strconv.Itoa` on small naturals, its inverse, and splitting at a
  separator. These are used for the version string.
- `Reader`: the positioned reader over the file (reader.go).
- `Address`: `parseIP` (db.go), including the folding of IPv4-mapped, 6to4
  and Teredo IPv6 addresses to IPv4.
- `Search`: one iteration of the search loop (`Step`) and the loop itself
  (`Bisect`), over an abstract column of `ip_from` values. It also holds the
  loop as the code writes it (`SearchLoop`, `Probe`), with its uint32 offset
  arithmetic, proved equal to `Bisect`.
- `Database`: `New`, `readMeta`, `scanner`, `ipIndex`, `Query` and `Version`.

The search loop in Go need not terminate: the bounds are uint32, and
`mid - 1` wraps to 2^32 - 1 at row 0. So `Bisect` carries a step budget.
`Lookup` runs it with a budget of 2^64 + 1. That is more than the number of
distinct `(low, high)` states, so a run that has not ended by then never
will. Such a run is reported as `Diverges`.

## Model

| member | source | states |
|---|---|---|
| Reader.NewReader | reader.go:14-30 | opening succeeds exactly when the file has a first byte, and the format is that byte |
| Reader.ReadUint8 | reader.go:54-63 | succeeds exactly when the offset is inside the file, and returns the byte there |
| Reader.ReadUint32 | reader.go:65-74 | succeeds exactly when four bytes are available, and returns b0 + 2^8 b1 + 2^16 b2 + 2^24 b3 |
| Reader.ReadUint32OfEncoding | reader.go:65-74 | reading back the 4-byte little-endian encoding of any uint32 gives that value |
| Reader.ReverseInPlace | reader.go:84-87 | the two-index swap loop leaves every byte at its mirrored position, so the buffer is reversed |
| Reader.ReadUint128 | reader.go:76-92 | reversing sixteen bytes and reading them big-endian is the little-endian value of the sixteen bytes |
| Reader.ReadUint128OfEncoding | reader.go:76-92 | reading back the 16-byte little-endian encoding of any uint128 gives that value |
| Words.BigEndianOfReverse | reader.go:84-90 | reading reversed bytes most-significant-first equals reading the bytes least-significant-first |
| Reader.ReadString | reader.go:38-52 | succeeds exactly when the length byte and that many bytes after offset+1 (in uint32) are in the file; the value is those bytes, at most 255 of them |
| Reader.ReadStringOfEncoding | reader.go:38-52 | a length byte followed by a string reads back as that string |
| Reader.ReadVersion | reader.go:94-106 | succeeds exactly when bytes 2-4 exist; the result splits at '-' into three numerals without leading zeros whose values are those bytes |
| Text.AtoiOfItoa | reader.go:101-103 | the decimal numeral of a byte reads back as the byte |
| Reader.VersionFields | reader.go:105 | joining three numerals with '-' and splitting again gives the three numerals |
| Address.Normalise | db.go:293-313 | each bracket maps to its IPv4 value: mapped gives n - min, 6to4 gives bits 80-111, Teredo gives the complemented low 32 bits; the result is IPv6 exactly when n is outside all three |
| Address.ParseIP | db.go:272-314 | invalid exactly when the text does not parse or has neither a 4- nor 16-byte form; 4 bytes are IPv4; 16 bytes are normalised; any IPv6 result lies outside every bracket |
| Address.MappedFormIsMappedBracket | db.go:280-296 | the `To4` shortcut accepts a 16-byte value exactly when it lies in the IPv4-mapped bracket, and gives the same IPv4 value, so the bracket check after it never decides anything |
| Address.MappedBracketIsPrefix | db.go:17-19 | the IPv4-mapped constants bound exactly the addresses with top 96 bits ::ffff |
| Address.SixToFourBracketIsPrefix | db.go:316-318 | the 6to4 constants bound exactly the addresses with top 16 bits 2002 |
| Address.TeredoBracketIsPrefix | db.go:320-321 | the Teredo constants bound exactly the addresses with top 32 bits 2001:0000 |
| Address.BracketsDisjoint | db.go:293-310 | no address lies in two brackets, so the order of the checks does not matter |
| Address.NormaliseMapped | db.go:293-296 | ::ffff:a normalises to IPv4 a |
| Address.NormaliseSixToFour | db.go:298-303 | 2002:a::/48, with any low 80 bits, normalises to IPv4 a |
| Address.NormaliseTeredo | db.go:305-310 | a Teredo address carrying the complemented client a, with any server, flags and port, normalises to IPv4 a |
| Address.TeredoExample | db.go:305-310 | the Teredo address 2001:0:4136:e378:8000:63bf:3fff:fdd2 normalises to 192.0.2.45 |
| Address.MappedExample | db.go:280-284 | the 16-byte form of ::ffff:8.8.8.8 parses as IPv4 8.8.8.8 |
| Database.New | db.go:61-80 | an empty file is an I/O error; a format byte other than 1 is an unsupported-format error carrying that byte; otherwise the handle holds the reader and the decoded header |
| Database.ReadMeta | db.go:219-258 | each of the six header words is the little-endian word at bytes 5, 9, 13, 17, 21 and 25, or zero when the file ends first; the widths are 4c and 4c + 12 modulo 256 for the column count c |
| Database.WidthArithmetic | db.go:224-225 | the uint8 expressions `c << 2` and `16 + ((c - 1) << 2)` equal 4c and 4c + 12 modulo 256 |
| Database.ColumnWidths | db.go:224-225 | the widths are exact for 1 to 60 columns; at 61 the IPv6 width wraps to 0, at 64 the IPv4 width does, and 0 columns give an IPv6 width of 12 |
| Database.Scanner | db.go:260-270 | each family gets its own data offset, row count, row width and largest address |
| Database.IpIndex | db.go:187-217 | zero without an index table; otherwise the index offset plus 8 times the address's top 16 bits, cut to 32 bits |
| Database.IndexExact | db.go:197-213 | for an index table starting at most 2^32 - 2^19 + 7, the index offset is exact, with no truncation |
| Database.IndexIgnoresClamp | db.go:94-114 | the largest address and its predecessor share an index entry |
| Database.InitialBounds | db.go:97-110 | without an index, the bounds are 0 and the row count; with one, the words at idx - 1 and idx + 3 (uint32), with an I/O error when either is past the end |
| Database.Clamp | db.go:112-114 | the address is unchanged exactly when it is below the largest address `scanner` gives, and otherwise moved down by one |
| Search.ReadAddress | db.go:124-147 | the `ip_from` read is the little-endian value of 4 bytes for IPv4 and of 16 for IPv6, and succeeds exactly when they are in the file |
| Search.RowOffsetClosedForm | db.go:118-119 | adding the row width i times to the data offset in uint32 reaches dataOffset + i * rowWidth modulo 2^32 |
| Search.RowOffsetsAgree | db.go:118-119 | the offsets computed from `mid` are those of rows mid and mid + 1 |
| Search.RowOffsets | db.go:117-119 | the loop's offset arithmetic yields the offsets of rows mid and mid + 1 |
| Search.StepCases | db.go:116-177 | an iteration fails exactly when a read fails, hits exactly when row mid holds the address, and otherwise moves high to mid - 1 or low to mid + 1 |
| Search.Probe | db.go:117-177 | one iteration as written, with its uint32 offsets and two reads, does what `Step` does and returns row mid's offset |
| Search.Bisect | db.go:116-178 | any row the loop ends on holds the address |
| Search.SearchLoop | db.go:116-178 | the loop as written ends with the same outcome as `Bisect`, and returns the found row's offset |
| Search.ContainingRowUnique | db.go:149 | in sorted rows, no two rows hold the same address |
| Search.BracketsLowerHalf | db.go:173-174 | moving high below a row that starts past the address keeps the address bracketed |
| Search.BracketsUpperHalf | db.go:175-176 | moving low above a row whose successor starts at or before the address keeps it bracketed |
| Search.StepLower | db.go:173-174 | on bracketing bounds, an address below row mid gives bounds (low, mid - 1) that still bracket it, in at most half the range |
| Search.StepUpper | db.go:175-176 | on bracketing bounds, an address at or past row mid + 1 gives bounds (mid + 1, high) that still bracket it, in at most half the range |
| Search.StepNarrows | db.go:116-177 | on bracketing bounds, an iteration either hits a row between them or halves the bracketed range |
| Search.BisectEndsInRange | db.go:116-178 | on bracketing bounds in readable rows, the loop ends on a row between the bounds within log2 of the range size iterations |
| Search.OnlyContainingRow | db.go:149 | in sorted rows, a row holding the address is the only one that does |
| Search.BisectFindsRow | db.go:116-178 | on bracketing bounds in sorted rows, in a table of at most 2^31 rows (so that the uint32 sum low + high cannot wrap), the loop finds the unique row whose range holds the address |
| Search.MissBelowRowZeroWraps | db.go:173-174 | an address below row 0's start, probed at row 0, sets high to 2^32 - 1 and the loop goes on |
| Database.CountryColumn | db.go:150-154 | the country pointer is read at row offset (+12 for IPv6) + 4 - 1, in uint32 |
| Database.ResolveCountry | db.go:149-172 | resolution succeeds exactly when the country pointer and both strings can be read; the code is the string at the pointer and the name the string three bytes further on; any failure is an I/O error |
| Database.RecordStrings | db.go:159-167 | a record made of a 2-byte code and a name, each length-prefixed, reads back as that code and name |
| Database.ResolveCountryOfRecord | db.go:149-172 | a row pointing at such a record resolves to exactly that code and name |
| Database.Lookup | db.go:94-180 | never reports an invalid address; failed index reads give an I/O error; otherwise the answer is "no results" exactly when the search loop leaves without a match, `Diverges` exactly when it would not stop, an I/O error when a row read fails, and for a found row an answer exactly when its strings resolve (that country) or else the resolution's error; any answer comes from a row holding the clamped address |
| Database.Query | db.go:88-92 | invalid exactly when the address does not normalise; otherwise the lookup in its family's table |
| Database.Version | db.go:183-185 | the version comes from the header bytes, present exactly when the file has five bytes |
| Database.LookupFindsRow | db.go:88-181 | when the starting bounds bracket the clamped address in sorted rows, the query's answer is the resolution of the unique row holding it |
| Database.LookupOfFound | db.go:149-172 | when the search ends on a row, the answer is that row's resolution |
| Database.UnindexedLookupFindsRow | db.go:100-116 | without an index and with fewer than 2^31 rows (so that the uint32 sum low + high cannot wrap), rows 0 to rowCount + 1 sorted and bracketing the address give the resolving row, never no-results and never a non-terminating loop |
| Database.LookupDependsOnIndexAndTarget | db.go:94-178 | the query depends on the address only through its index entry and its clamped value |
| Database.TopAddressResolvesAsPredecessor | db.go:112-114 | the family's largest address gets the same answer as the address just below it |
| Database.QueryOfFour | db.go:280-284 | a 4-byte value, standing for what `To4` returns, is looked up in the IPv4 table with its big-endian value |
| Database.QueryOfSixteen | db.go:286-313 | a 16-byte address is looked up in the table its normalised value selects |
| Database.EmbeddedFormsAgree | db.go:280-310 | the IPv4-mapped, 6to4 and Teredo forms of an IPv4 address get the same answer as the address itself |

## Left out

- Opening the file by path, closing it, and `os.File.ReadAt` are modelled as
  reads from an immutable byte sequence. Every failed read becomes the one
  error `IOFailure`, without the operating system's error value.
- `net.ParseIP` is not modelled as a text parser. A query receives either
  "did not parse" or the bytes of a parsed address (`Literal`), and `To4`
  and `To16` are modelled on those bytes. `net.ParseIP` itself returns 16
  bytes for IPv4 text too (the ::ffff:a.b.c.d form), so a 4-byte `Parsed`
  value is more than the parser produces. It stands for the `To4` path,
  which `Address.MappedFormIsMappedBracket` and the first clause of
  `Database.EmbeddedFormsAgree` show gives the same result as the 16-byte form.
- `math/big` values are unbounded integers. `Rsh`, `Lsh`, `And` and `Not`
  are written as division, multiplication, remainder and -x - 1.
- Reader.ReadUint32: Go combines the bytes with shifts and bitwise OR. The
  model adds them, which gives the same value because the shifted bytes do
  not overlap.
- Database.IpIndex: `big.Int.Uint64` is modelled as reduction modulo 2^64.
  The index offset is below 2^32 and eight times the bucket is below 2^19,
  so the sum is below 2^32 + 2^19 and the reduction never applies; only the
  cut to 32 bits does.
- Database.Lookup: the step budget of 2^64 + 1 is not proved to catch every
  non-terminating run. The argument is that the loop's state is a pair of
  uint32 values, so a longer run revisits a state and repeats forever.
  Reaching the budget is reported as `Diverges`.
- The index table's own correctness (that the bounds stored for a bucket
  bracket every address in it) is a property of the file, not of the code.
  `Database.LookupFindsRow` takes it as a precondition.
- Some behaviour of the code differs from what a reader of the IP2Location
  DB1 format might expect. The model follows the code:
  - without an index table, the initial high bound is the row count, not
    the row count minus one (db.go:95, 98);
  - the clamp applies to addresses at or above the largest address, not only
    to the largest address (db.go:112);
  - a v4-compatible address ::a.b.c.d stays IPv6, because `To4` accepts only
    the ::ffff: prefix (db.go:280);
  - a header cut short after the format byte is not an error: the fields
    whose four bytes lie past the cut read as zero, and the fields before it
    keep the values read, because `New` ignores the error of `readMeta`
    (db.go:77, db.go:227-255);
  - row widths are computed in uint8 and wrap (db.go:224-225).
- Error message formatting (errors.go) and the command-line program under
  cmd/ are not part of this model.
