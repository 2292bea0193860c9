# 1brc (Go) — fixed-point record parsing and buffer carving, in Dafny

This project models two integer-only pieces of a Go program for the "one
billion row challenge": it reads a huge file of `station;measurement`
lines and gives, per station, the minimum, mean and maximum measurement.

- **Records (`src/station.go`).** `parseMeasurement` turns a decimal field
  such as `-45.6` into an `int16` count of tenths (-456). It has no floating
  point. It skips the dot and negates the value when the field starts with
  `-`. `parseStationLine` scans backward for the last `;`. It splits the
  line into station name and field, and keys the record by a hash of the
  name. `minMeasurements` and `maxMeasurements` are branchless. They use
  the sign mask `(x) >> 15` of an `int16` difference. `avgMeasurements` is
  `(a + b) >> 1`.
- **Buffer boundaries (`src/main.go`).** `lastIndexOf` finds the last
  newline among the bytes a read delivered. `lineIdxs` finds the end of
  each line. The loop in `main` carves the complete lines out of the
  buffer, up to the last newline. When the buffer was filled, it also
  moves the file position back over the partial record after that newline.

Modules follow the source: `Consts` (the byte constants of `src/consts.go`),
`Int16` (Go's `int16` arithmetic), `Search` (the two byte searches as
reference functions), `Station` (`src/station.go`) and `Chunking` (the
buffer logic of `src/main.go`, over an `array<byte>`).

How Go's semantics are written out:
- `int16` is an integer subset type. Every addition, subtraction,
  multiplication and negation wraps modulo 2^16 through `Int16.Wrap`.
- `>>` on a signed value is the arithmetic shift, written as repeated
  halving that rounds toward negative infinity.
- `&` is a bitwise AND on two's-complement integers, defined bit by bit.
- `linePart[i] - '0'` is a byte subtraction. The model wraps it modulo 256
  before widening it to `int16`, as Go does.
- `gomaphash` wraps `hash/maphash` with a seed chosen at random per
  process. It is a parameter `hash: seq<byte> -> uint64`, so it is any
  deterministic function of the name bytes.

Edge-case behaviour of the code that the model reproduces:
- `parseMeasurement` does not reject a non-digit byte
  (src/station.go:36-41). Any byte other than `.` counts as a digit with
  the wrapped value `byte - '0'`: the field `/` parses to 255.
  `MeasurementOfCongruent` states the result for any bytes: the signed
  decimal value of those wrapped digits, modulo 2^16.
- `parseMeasurement` skips every `.` byte, not just one
  (src/station.go:37-39). `MeasurementDotSkipped` proves that a dot
  anywhere after the first byte leaves the value unchanged.
- `avgMeasurements` is `(a + b) >> 1` (src/station.go:53). The shift rounds
  toward negative infinity, so it differs from the truncating `(a + b) / 2`
  left in the comment at src/station.go:52 for negative odd sums
  (`AvgVersusTruncatingHalf`).
- A read that does not fill the buffer is never rewound (src/main.go:112),
  and carving stops at the last newline (src/main.go:119). So a final
  record without a newline is never carved. A full buffer with no newline
  is rewound by the whole read, so the next read starts at the same
  position (`RewindIsPartialTail`, last conjunct).
- `lineIdxs` is given the whole buffer, not just the bytes of the current
  read (src/main.go:120). `ScanBuffer` proves every carved line ends at or
  before the last newline of the current read. So bytes left over from an
  earlier read never reach a record.

## Model

| member | source | states |
|---|---|---|
| `Int16.Wrap` | src/station.go:40 | the int16 result of an integer operation agrees with it modulo 2^16, and equals it when it is in range |
| `Int16.ShiftRight` | src/station.go:53 | `x >> k` is the floor of x / 2^k, the arithmetic shift; also used at src/station.go:62 and 71 |
| `Int16.ShiftRightLeavesSign` | src/station.go:62 | shifting a (k+1)-bit signed value right by k leaves -1 for a negative value and 0 otherwise |
| `Int16.SignMask` | src/station.go:71 | `x >> 15` on an int16 is all ones (-1) exactly when x is negative, else zero |
| `Int16.BitAndRange` | src/station.go:62 | the AND of two k-bit signed values is again a k-bit signed value, so `&` on int16 stays int16 |
| `Int16.And16` | src/station.go:71 | AND with all ones returns the other operand; AND with zero returns zero |
| `Station.DigitValue` | src/station.go:40 | `int16(b - '0')` lies in 0..255, is below 10 exactly for a digit byte, and is the digit's value then |
| `Station.Step` | src/station.go:37-40 | one loop turn: a dot leaves the accumulator unchanged; any other byte gives `m*10 + digit` modulo 2^16 |
| `Station.AccumulateCongruent` | src/station.go:36-41 | for any bytes, the accumulator `Accumulate` reaches equals the decimal value of the wrapped digits modulo 2^16 |
| `Station.MeasurementOfCongruent` | src/station.go:29-48 | for any non-empty field, `MeasurementOf` (the parser's result) equals the signed decimal value of its digits modulo 2^16 |
| `Station.ParseMeasurement` | src/station.go:29-48 | the loop skips an optional leading '-' and every dot, accumulates `m*10 + digit` in int16 and negates at the end; the result is `MeasurementOf(linePart)`; non-empty input required because `linePart[0]` is read |
| `Station.AccumulateExact` | src/station.go:36-41 | with only digits and dots and at most four digits, the accumulator never wraps and holds the decimal value of the digits read |
| `Station.MeasurementOfWellFormed` | src/station.go:29-48 | a well-formed field parses to the decimal value of its digits (dots not counted), negated exactly when the first byte is '-' |
| `Station.DotSkipped` | src/station.go:37-39 | a dot inserted anywhere in the accumulated bytes does not change the accumulator |
| `Station.MeasurementDotSkipped` | src/station.go:37-39 | inserting a dot anywhere after the first byte of a field leaves its measurement unchanged |
| `Station.ParseDecimalText` | src/station.go:29-48 | every measurement from -999.9 to 999.9, written with one fractional digit, parses back to its tenths |
| `Station.MeasurementTable` | src/station_test.go:139-153 | "12.3" parses to 123, "-45.6" to -456 and "0" to 0 |
| `Station.StationLineOf` | src/station.go:19-27 | the name is the line before its last ';', which has at least one byte after it; the measurement is the parse of what follows; the key is the hash of exactly the name |
| `Station.ParseStationLine` | src/station.go:19-27 | the backward scan stops at the last ';' and returns the record `StationLineOf` describes; it requires a ';' that is not the line's last byte |
| `Station.StationLineSplit` | src/station.go:22-26 | a name, ';' and a non-empty field without ';' split back into that name and that field's measurement, even when the name contains ';' |
| `Station.StationLineRoundTrip` | src/station.go:19-27 | a line written as name;measurement-text gives back that name, that measurement and the name's hash |
| `Station.StationLineTable1` | src/station_test.go:87-92 | a name followed by ";12.3" (as in "Station1;12.3") gives back that name, its hash and 123 |
| `Station.StationLineTable2` | src/station_test.go:93-98 | a name followed by ";-45.6" gives back that name, its hash and -456 |
| `Station.StationLineTable3` | src/station_test.go:99-104 | a name followed by ";0" gives back that name, its hash and 0 |
| `Station.SameNameSameKey` | src/station.go:13-15 | two lines with the same name bytes get the same key under one hash function |
| `Station.MinMeasurements` | src/station.go:57-63 | when b - a fits in int16, the result is one of a and b and no greater than either |
| `Station.MinMask` | src/station.go:62 | the mask `(b - a) >> 15` is all ones exactly when b < a and zero otherwise |
| `Station.MinMeasurementsWraps` | src/station.go:62 | outside that range the trick fails: `minMeasurements(-20000, 20000)` is 20000 |
| `Station.MaxMeasurements` | src/station.go:66-72 | when a - b fits in int16, the result is one of a and b and no less than either; equal inputs give that value |
| `Station.MaxMask` | src/station.go:71 | the mask `(a - b) >> 15` is all ones exactly when a < b and zero otherwise |
| `Station.MaxMeasurementsWraps` | src/station.go:71 | outside that range `maxMeasurements(-20000, 20000)` is -20000 |
| `Station.MinMaxOfSmall` | src/station.go:57-72 | for arguments below 2^14 in magnitude the helpers are exactly min and max |
| `Station.WellFormedSmall` | src/station.go:29-48 | a well-formed field (optional '-', digits and dots, at most four digits) parses to a value strictly between -10000 and 10000, so below 2^14 in magnitude |
| `Station.MinMaxOfFields` | src/station.go:57-72 | on the measurements of two well-formed fields the helpers are exactly min and max |
| `Station.MinMaxTable` | src/station_test.go:186-250 | the six table cases of the min and max tests |
| `Station.AvgMeasurements` | src/station.go:51-54 | when a + b fits in int16, the result is floor((a + b) / 2) |
| `Station.AvgVersusTruncatingHalf` | src/station.go:52-53 | the shift equals Go's truncating `(a + b) / 2` except for negative odd sums, where it is one less |
| `Search.LastIndexBefore` | src/main.go:60-67 | the greatest i < n with s[i] == d, or -1 when none of the first n bytes (none at all for n <= 0) is d |
| `Search.LastIndexBeforeAbsent` | src/main.go:66 | the result is -1 exactly when d does not occur in s[..n] |
| `Search.LastIndexBeforeIs` | src/main.go:61-64 | a d at k with none after it below n is the answer |
| `Search.LastIndexBeforeNone` | src/main.go:66 | with no d below n the answer is -1 |
| `Search.NextIndexFrom` | src/main.go:69-78 | the least i >= from with s[i] == d, or len(s) when there is none; a start past the end is returned unchanged |
| `Search.NextIndexFromIs` | src/main.go:72-76 | a d at k (or the end) with none in [from, k) is the answer |
| `Chunking.LastIndexOf` | src/main.go:60-67 | the backward loop returns `LastIndexBefore(b, maxIdx, delym)`: the last delimiter before maxIdx or -1; requires maxIdx <= len(b) |
| `Chunking.LineIdxs` | src/main.go:69-78 | start is the given index; end is the first delimiter at or after it, or the slice length; requires a non-negative start |
| `Chunking.CarveLines` | src/main.go:119-128 | the carving loop, which runs while `bufLastReadIdx < lastNewLineIdx` and moves it to `lineEnd + 1`, returns exactly the spans `Carve` describes, and terminates |
| `Chunking.CarveUnfold` | src/main.go:120-121 | each carving step takes one line ending at a newline no later than lastNewLineIdx and resumes just past that newline |
| `Chunking.CarveLinesInRange` | src/main.go:119-123 | every carved line ends at a newline at index <= lastNewLineIdx and contains no newline, so no record reaches into the partial tail |
| `Chunking.CarveConsecutive` | src/main.go:119-122 | the first line starts at 0 and each next one starts just past the previous newline, so the start strictly increases |
| `Chunking.CarveStops` | src/main.go:119 | carving stops just past the last newline, or on it when the line ending there is empty |
| `Chunking.CarveJoin` | src/main.go:119-123 | the carved lines, each followed by a newline, are exactly the buffer bytes up to where carving stopped |
| `Chunking.JoinStep` | src/main.go:120-122 | a line ending at a newline, followed by lines that rejoin to the bytes just past that newline, rejoins to the bytes from the line's start |
| `Chunking.CarveSound` | src/main.go:110-128 | the previous four properties together, for the carving from index 0 that main performs |
| `Chunking.CarveReassembles` | src/main.go:119-123 | when no empty line ends at the last newline, the carved lines with their newlines reproduce `buf[0..lastNewLineIdx]` inclusive |
| `Chunking.ScanBuffer` | src/main.go:100-128 | zero bytes read ends the loop; otherwise the last newline is found among the bytes read, every carved line lies before it, the lines rejoin to the buffer prefix, and a seek is issued exactly when the buffer was full, with an offset <= 0 that puts the file position just past the last newline |
| `Chunking.RewindIsPartialTail` | src/main.go:110-116 | the rewind `lastNewLineIdx - bytesRead + 1` is <= 0; its magnitude is the number of bytes after the last newline, none of which is a newline; it is the whole read exactly when the read held no newline |

## Left out

- `gomaphash` internals (src/station.go:7-15): a call into `hash/maphash` with a seed chosen at random per process. The model takes the hash as a function parameter.
- `extractMeasurement`, `process` and `printMeasurement` (src/main.go:29-58): they use `strconv.ParseFloat`, `float32` running means and `%.1f` formatting. `CarveLines` returns the spans of the carved lines instead of passing each line to `extractMeasurement`.
- The I/O of `main` (src/main.go:80-99, 101-108, 113-116, 131-139): flag parsing, `os.Open`, `Read`, `Seek`, the error panics and the buffered output. `ScanBuffer` takes the number of bytes a read returned as a parameter. It returns the seek offset instead of applying it. The sequence of reads over a whole file is not modelled.
- The integer `printMeasurement` tested in src/main_test.go:24-67: its implementation is not part of this model. `DecimalText` is the record format, not that function.
- The worker counts and the concurrent pipeline (src/consts.go:4-5, `nrStations` at src/consts.go:7): nothing in src/main.go or src/station.go uses them.
- Station.MinMeasurements: the contract promises the minimum only when `b - a` fits in int16. Outside that range the model computes what the wrapped Go expression computes (`MinMeasurementsWraps`).
- Station.MaxMeasurements: the contract promises the maximum only when `a - b` fits in int16 (`MaxMeasurementsWraps`).
- Station.AvgMeasurements: the contract promises the floor of the mean only when `a + b` fits in int16. Otherwise the sum wraps first.
- `Chunking.BufferSize` (src/main.go:16) is a documented constant that no member uses: `ScanBuffer` compares `bytesRead` with the array's length, which main allocates as `bufferSize` bytes (src/main.go:112).
- Station.ParseStationLine: the returned station name is a copy. In Go, `line[:lastIdxStationName]` (src/station.go:25) is a sub-slice that shares the line's memory. The model does not capture that aliasing.
