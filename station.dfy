/** src/station.go: the fixed-point measurement parser, the station line
    splitter and the branchless int16 helpers the aggregators use. */
module Station {
  import opened Consts
  import opened Int16
  import opened Search

  type uint64 = x: int | 0 <= x < 0x1_0000_0000_0000_0000

  /** What parseStationLine returns: the hash of the station name (the
      table key), the measurement in tenths, and the name bytes. */
  datatype Record = Record(key: uint64, measurement: int16, name: seq<byte>)

  // ---------------------------------------------------------------------
  // parseMeasurement

  /** `int16(b - '0')`: the subtraction is on bytes and wraps modulo 256,
      so a byte below '0' gives a large value instead of a negative one. */
  function DigitValue(b: byte): (v: int16)
    ensures 0 <= v < 0x100
    ensures IsDigit(b) <==> v < 10
    ensures IsDigit(b) ==> v == b - DigitZero
  {
    (b - DigitZero) % 0x100
  }

  /** One turn of the parser's loop body: a dot is skipped, any other
      byte is taken as a digit, `m*10 + digit` in int16 arithmetic. */
  function Step(m: int16, b: byte): (r: int16)
    ensures b == Dot ==> r == m
    ensures b != Dot ==> (r - (m * 10 + DigitValue(b))) % 0x1_0000 == 0
  {
    if b == Dot then m else Add16(Mul16(m, 10), DigitValue(b))
  }

  /** The accumulator after the loop has consumed the bytes of `t`. */
  function Accumulate(t: seq<byte>): int16
    decreases |t|
  {
    if t == [] then 0 else Step(Accumulate(t[..|t| - 1]), t[|t| - 1])
  }

  /** The value parseMeasurement returns for a non-empty field: the
      accumulated bytes after an optional leading minus, negated when the
      minus is there. */
  function MeasurementOf(s: seq<byte>): int16
    requires |s| > 0
  {
    if s[0] == MinusSymb then Neg16(Accumulate(s[1..])) else Accumulate(s)
  }

  /** The signed decimal value of a field: the digits after an optional
      minus, negated when the minus is there. */
  function FieldValue(s: seq<byte>): int
    requires |s| > 0
  {
    if s[0] == MinusSymb then -DecimalValue(DigitsOf(s[1..])) else DecimalValue(DigitsOf(s))
  }

  method ParseMeasurement(linePart: seq<byte>) returns (measurement: int16)
    requires |linePart| > 0
    ensures measurement == MeasurementOf(linePart)
  {
    measurement := 0;
    var numberStartIdx := 0;
    if linePart[0] == MinusSymb {
      numberStartIdx := numberStartIdx + 1;
    }
    for i := numberStartIdx to |linePart|
      invariant measurement == Accumulate(linePart[numberStartIdx..i])
    {
      assert linePart[numberStartIdx..i + 1][..i - numberStartIdx] == linePart[numberStartIdx..i];
      if linePart[i] == Dot {
        continue;
      }
      measurement := Add16(Mul16(measurement, 10), DigitValue(linePart[i]));
    }
    assert linePart[numberStartIdx..|linePart|] == linePart[numberStartIdx..];
    if numberStartIdx == 1 {
      return Neg16(measurement);
    }
  }

  // ---------------------------------------------------------------------
  // The decimal reading of a measurement field.

  /** The digit values of `t`, dots removed. */
  function DigitsOf(t: seq<byte>): seq<int>
    decreases |t|
  {
    if t == [] then []
    else DigitsOf(t[..|t| - 1]) + (if t[|t| - 1] == Dot then [] else [DigitValue(t[|t| - 1]) as int])
  }

  /** The number a string of decimal digits denotes. */
  function DecimalValue(ds: seq<int>): int
    decreases |ds|
  {
    if ds == [] then 0 else DecimalValue(ds[..|ds| - 1]) * 10 + ds[|ds| - 1]
  }

  function Pow10(k: nat): (p: int)
    ensures p >= 1
  {
    if k == 0 then 1 else 10 * Pow10(k - 1)
  }

  predicate DigitsAndDots(t: seq<byte>) {
    forall i :: 0 <= i < |t| ==> IsDigit(t[i]) || t[i] == Dot
  }

  /** The part of a field after an optional leading minus. */
  function Unsigned(s: seq<byte>): seq<byte> {
    if |s| > 0 && s[0] == MinusSymb then s[1..] else s
  }

  /** A field of the input format: an optional minus, then digits and
      dots, with at most four digits (values up to 999.9). */
  predicate WellFormedMeasurement(s: seq<byte>) {
    |s| > 0 && DigitsAndDots(Unsigned(s)) && |DigitsOf(Unsigned(s))| <= 4
  }

  lemma {:induction false} DecimalValueBound(ds: seq<int>)
    requires forall i :: 0 <= i < |ds| ==> 0 <= ds[i] < 10
    ensures 0 <= DecimalValue(ds) < Pow10(|ds|)
    decreases |ds|
  {
    if ds != [] {
      DecimalValueBound(ds[..|ds| - 1]);
    }
  }

  lemma {:induction false} DigitsOfAreDigits(t: seq<byte>)
    ensures forall i :: 0 <= i < |DigitsOf(t)| ==> 0 <= DigitsOf(t)[i] < 0x100
    ensures DigitsAndDots(t) ==> forall i :: 0 <= i < |DigitsOf(t)| ==> 0 <= DigitsOf(t)[i] < 10
    decreases |t|
  {
    if t != [] {
      DigitsOfAreDigits(t[..|t| - 1]);
      assert DigitsAndDots(t) ==> DigitsAndDots(t[..|t| - 1]);
    }
  }

  /** Four decimal digits are below 10000, three below 1000. */
  lemma DecimalValueSmall(ds: seq<int>)
    requires forall i :: 0 <= i < |ds| ==> 0 <= ds[i] < 10
    ensures 0 <= DecimalValue(ds)
    ensures |ds| <= 3 ==> DecimalValue(ds) < 1000
    ensures |ds| <= 4 ==> DecimalValue(ds) < 10000
  {
    DecimalValueBound(ds);
    var n := |ds|;
    if n == 0 {
    } else if n == 1 {
    } else if n == 2 {
      assert Pow10(2) == 100;
    } else if n == 3 {
      assert Pow10(3) == 1000;
    } else if n == 4 {
      assert Pow10(4) == 10000;
    }
  }

  /** With digits and dots only and at most four digits, the int16
      accumulator never wraps: every prefix holds the exact decimal value
      of the digits read so far. */
  lemma {:induction false} AccumulateExact(t: seq<byte>)
    requires DigitsAndDots(t) && |DigitsOf(t)| <= 4
    ensures Accumulate(t) == DecimalValue(DigitsOf(t))
    decreases |t|
  {
    if t != [] {
      var init, last := t[..|t| - 1], t[|t| - 1];
      assert DigitsAndDots(init);
      var ds := DigitsOf(init);
      assert DigitsOf(t) == ds + (if last == Dot then [] else [DigitValue(last) as int]);
      AccumulateExact(init);
      if last != Dot {
        var m := Accumulate(init);
        var d := DigitValue(last);
        DigitsOfAreDigits(init);
        DecimalValueSmall(ds);
        assert 0 <= m < 1000;
        assert 0 <= m * 10 < 10000;
        assert Mul16(m, 10) == m * 10;
        assert Accumulate(t) == m * 10 + d;
        assert (ds + [d as int])[..|ds|] == ds;
        assert DecimalValue(ds + [d as int]) == DecimalValue(ds) * 10 + d;
      } else {
        assert DigitsOf(t) == ds;
        assert Accumulate(t) == Accumulate(init);
      }
    }
  }

  /** parseMeasurement reads a well-formed field as its decimal digits
      scaled to an integer (the dot is not counted), negated exactly when
      the field starts with '-'. */
  lemma MeasurementOfWellFormed(s: seq<byte>)
    requires WellFormedMeasurement(s)
    ensures MeasurementOf(s) == FieldValue(s)
  {
    var t := Unsigned(s);
    AccumulateExact(t);
    DigitsOfAreDigits(t);
    DecimalValueSmall(DigitsOf(t));
  }

  /** For any bytes at all, the int16 accumulator is the decimal value of
      the (wrapped) digits modulo 2^16: overflow loses high bits only. */
  lemma {:induction false} AccumulateCongruent(t: seq<byte>)
    ensures (Accumulate(t) - DecimalValue(DigitsOf(t))) % 0x1_0000 == 0
    decreases |t|
  {
    if t != [] {
      var init, last := t[..|t| - 1], t[|t| - 1];
      AccumulateCongruent(init);
      var m := Accumulate(init);
      var v := DecimalValue(DigitsOf(init));
      assert Accumulate(t) == Step(m, last);
      if last != Dot {
        var d := DigitValue(last) as int;
        assert DigitsOf(t) == DigitsOf(init) + [d];
        DecimalValueSnoc(DigitsOf(init), d);
        CongruentStep(Accumulate(t), m, v, d);
      } else {
        assert DigitsOf(t) == DigitsOf(init);
      }
    }
  }

  /** m*10 + d modulo 2^16 is determined by m modulo 2^16. */
  lemma CongruentStep(r: int, m: int, v: int, d: int)
    requires (r - (m * 10 + d)) % 0x1_0000 == 0 && (m - v) % 0x1_0000 == 0
    ensures (r - (v * 10 + d)) % 0x1_0000 == 0
  {
    var i, j := (r - (m * 10 + d)) / 0x1_0000, (m - v) / 0x1_0000;
    assert r - (v * 10 + d) == 0x1_0000 * (i + 10 * j);
  }

  /** Whatever the bytes of a field, its measurement agrees with its
      signed decimal value modulo 2^16. */
  lemma MeasurementOfCongruent(s: seq<byte>)
    requires |s| > 0
    ensures (MeasurementOf(s) - FieldValue(s)) % 0x1_0000 == 0
  {
    if s[0] == MinusSymb {
      var a := Accumulate(s[1..]);
      var v := DecimalValue(DigitsOf(s[1..]));
      AccumulateCongruent(s[1..]);
      assert MeasurementOf(s) == Neg16(a) && FieldValue(s) == -v;
      CongruentNegation(Neg16(a), a, v);
    } else {
      AccumulateCongruent(s);
    }
  }

  /** The negation of a value congruent to v is congruent to -v. */
  lemma CongruentNegation(r: int, a: int, v: int)
    requires (r + a) % 0x1_0000 == 0 && (a - v) % 0x1_0000 == 0
    ensures (r + v) % 0x1_0000 == 0
  {
    var i, j := (r + a) / 0x1_0000, (a - v) / 0x1_0000;
    assert r + v == 0x1_0000 * (i - j);
  }

  /** A dot contributes nothing to the accumulator, wherever it stands. */
  lemma {:induction false} DotSkipped(p: seq<byte>, q: seq<byte>)
    ensures Accumulate(p + [Dot] + q) == Accumulate(p + q)
    decreases |q|
  {
    if q == [] {
      assert p + [Dot] + q == p + [Dot];
      assert (p + [Dot])[..|p|] == p;
      assert p + q == p;
    } else {
      var q' := q[..|q| - 1];
      DotSkipped(p, q');
      assert (p + [Dot] + q)[..|p + [Dot] + q| - 1] == p + [Dot] + q';
      assert (p + q)[..|p + q| - 1] == p + q';
    }
  }

  /** Inserting a dot anywhere after the first byte of a field leaves its
      measurement unchanged. */
  lemma MeasurementDotSkipped(s: seq<byte>, i: nat)
    requires 0 < i <= |s|
    ensures MeasurementOf(s[..i] + [Dot] + s[i..]) == MeasurementOf(s)
  {
    var s' := s[..i] + [Dot] + s[i..];
    assert s'[0] == s[0];
    if s[0] == MinusSymb {
      assert s'[1..] == s[1..i] + [Dot] + s[i..];
      assert s[1..] == s[1..i] + s[i..];
      DotSkipped(s[1..i], s[i..]);
    } else {
      assert s == s[..i] + s[i..];
      DotSkipped(s[..i], s[i..]);
    }
  }

  // ---------------------------------------------------------------------
  // The input format's rendering of a measurement, as the partner of the
  // parser: tenths written with one fractional digit.

  /** The decimal digits of n, without leading zeros ("0" for zero). */
  function IntText(n: nat): (t: seq<byte>)
    ensures |t| > 0 && forall i :: 0 <= i < |t| ==> IsDigit(t[i])
    decreases n
  {
    if n < 10 then [DigitZero + n] else IntText(n / 10) + [DigitZero + n % 10]
  }

  /** A measurement of tenths as it appears in a record: an optional '-',
      the integer part, '.', and one fractional digit. */
  function DecimalText(v: int): (t: seq<byte>)
    requires -9999 <= v <= 9999
  {
    var n := if v < 0 then -v else v;
    (if v < 0 then [MinusSymb] else []) + IntText(n / 10) + [Dot, DigitZero + n % 10]
  }

  lemma DigitsOfSnoc(p: seq<byte>, b: byte)
    ensures DigitsOf(p + [b]) == DigitsOf(p) + (if b == Dot then [] else [DigitValue(b) as int])
  {
    assert (p + [b])[..|p|] == p;
  }

  lemma DecimalValueSnoc(ds: seq<int>, d: int)
    ensures DecimalValue(ds + [d]) == DecimalValue(ds) * 10 + d
  {
    assert (ds + [d])[..|ds|] == ds;
  }

  lemma {:induction false} IntTextValue(n: nat)
    ensures DecimalValue(DigitsOf(IntText(n))) == n
    ensures |DigitsOf(IntText(n))| == |IntText(n)|
    ensures n < 1000 ==> |IntText(n)| <= 3
    decreases n
  {
    if n < 10 {
      DigitsOfSnoc([], DigitZero + n);
      assert [] + [DigitZero + n] == [DigitZero + n];
      DecimalValueSnoc([], n);
      assert [] + [n] == [n];
    } else {
      IntTextValue(n / 10);
      var p := IntText(n / 10);
      var c: byte := DigitZero + n % 10;
      DigitsOfSnoc(p, c);
      assert DigitValue(c) as int == n % 10;
      DecimalValueSnoc(DigitsOf(p), n % 10);
    }
  }

  /** The unsigned text of n tenths: its digits denote n (the dot is not
      counted), and there are at most four of them. */
  lemma UnsignedTextValue(n: nat)
    requires n <= 9999
    ensures var t := IntText(n / 10) + [Dot, DigitZero + n % 10];
      DigitsAndDots(t) && |DigitsOf(t)| <= 4 && DecimalValue(DigitsOf(t)) == n
  {
    var p := IntText(n / 10);
    var c: byte := DigitZero + n % 10;
    var t := p + [Dot, c];
    IntTextValue(n / 10);
    var ds := DigitsOf(p);
    DigitsOfSnoc(p, Dot);
    assert p + [Dot] + [c] == t;
    DigitsOfSnoc(p + [Dot], c);
    assert DigitValue(c) as int == n % 10;
    assert DigitsOf(t) == ds + [n % 10];
    DecimalValueSnoc(ds, n % 10);
    assert DecimalValue(ds) * 10 + n % 10 == n;
    forall i | 0 <= i < |t| ensures IsDigit(t[i]) || t[i] == Dot {
      if i < |p| { assert t[i] == p[i]; }
    }
  }

  /** Parsing the text of a measurement gives the measurement back. */
  lemma ParseDecimalText(v: int)
    requires -9999 <= v <= 9999
    ensures MeasurementOf(DecimalText(v)) == v
  {
    var n := if v < 0 then -v else v;
    var p := IntText(n / 10);
    var t := p + [Dot, DigitZero + n % 10];
    var s := DecimalText(v);
    UnsignedTextValue(n);
    AccumulateExact(t);
    if v < 0 {
      assert s == [MinusSymb] + t;
      assert s[1..] == t;
    } else {
      assert s == t;
      assert s[0] == p[0];
    }
  }

  lemma DecimalTextTable()
    ensures DecimalText(123) == Ascii("12.3")
    ensures DecimalText(-456) == Ascii("-45.6")
  {
    assert IntText(1) == [DigitZero + 1];
    assert IntText(12) == [DigitZero + 1, DigitZero + 2];
    assert IntText(4) == [DigitZero + 4];
    assert IntText(45) == [DigitZero + 4, DigitZero + 5];
    assert Ascii("12.3") == [DigitZero + 1, DigitZero + 2, Dot, DigitZero + 3];
    assert Ascii("-45.6") == [MinusSymb, DigitZero + 4, DigitZero + 5, Dot, DigitZero + 6];
  }

  /** The table cases of the parser's tests: "12.3", "-45.6" and "0". */
  lemma MeasurementTable()
    ensures MeasurementOf(Ascii("12.3")) == 123
    ensures MeasurementOf(Ascii("-45.6")) == -456
    ensures MeasurementOf(Ascii("0")) == 0
  {
    DecimalTextTable();
    ParseDecimalText(123);
    ParseDecimalText(-456);
    assert Ascii("0") == [DigitZero];
    assert [DigitZero][..0] == [];
  }

  // ---------------------------------------------------------------------
  // parseStationLine

  /** The record of a line: the name is everything before the last ';',
      the measurement is the parse of everything after it, and the key is
      the hash of the name. */
  function StationLineOf(line: seq<byte>, hash: seq<byte> -> uint64): (r: Record)
    requires WordSeparator in line && line[|line| - 1] != WordSeparator
    ensures |r.name| < |line| - 1 && line[|r.name|] == WordSeparator
    ensures r.name == line[..|r.name|]
    ensures forall j :: |r.name| < j < |line| ==> line[j] != WordSeparator
    ensures r.key == hash(r.name)
    ensures r.measurement == MeasurementOf(line[|r.name| + 1..])
  {
    LastIndexBeforeAbsent(line, |line|, WordSeparator);
    assert line[..|line|] == line;
    var k := LastIndexBefore(line, |line|, WordSeparator);
    Record(hash(line[..k]), MeasurementOf(line[k + 1..]), line[..k])
  }

  method ParseStationLine(line: seq<byte>, hash: seq<byte> -> uint64)
    returns (key: uint64, measurement: int16, stationName: seq<byte>)
    requires WordSeparator in line && line[|line| - 1] != WordSeparator
    ensures Record(key, measurement, stationName) == StationLineOf(line, hash)
  {
    var lastIdxStationName := |line| - 1;
    while line[lastIdxStationName] != WordSeparator
      invariant 0 <= lastIdxStationName < |line|
      invariant exists j :: 0 <= j <= lastIdxStationName && line[j] == WordSeparator
      invariant forall j :: lastIdxStationName < j < |line| ==> line[j] != WordSeparator
      decreases lastIdxStationName
    {
      lastIdxStationName := lastIdxStationName - 1;
    }
    LastIndexBeforeIs(line, |line|, WordSeparator, lastIdxStationName);
    stationName := line[..lastIdxStationName];
    measurement := ParseMeasurement(line[lastIdxStationName + 1..]);
    key := hash(stationName);
  }

  /** A line made of a name, ';' and a non-empty field without ';' splits
      back into that name and the field's measurement, whatever bytes
      (';' included) the name holds. */
  lemma StationLineSplit(name: seq<byte>, field: seq<byte>, hash: seq<byte> -> uint64)
    requires |field| > 0 && WordSeparator !in field
    ensures var line := name + [WordSeparator] + field;
      WordSeparator in line && line[|line| - 1] != WordSeparator &&
      StationLineOf(line, hash) == Record(hash(name), MeasurementOf(field), name)
  {
    var line := name + [WordSeparator] + field;
    assert line[|name|] == WordSeparator;
    assert forall j :: |name| < j < |line| ==> line[j] == field[j - |name| - 1];
    var r := StationLineOf(line, hash);
    assert |r.name| == |name|;
    assert line[..|name|] == name;
    assert line[|name| + 1..] == field;
  }

  /** A line written as name, ';', measurement text gives back that name
      and measurement. */
  lemma StationLineRoundTrip(name: seq<byte>, v: int, hash: seq<byte> -> uint64)
    requires -9999 <= v <= 9999
    ensures var line := name + [WordSeparator] + DecimalText(v);
      WordSeparator in line && line[|line| - 1] != WordSeparator &&
      StationLineOf(line, hash) == Record(hash(name), v, name)
  {
    var text := DecimalText(v);
    assert WordSeparator !in text by {
      var n := if v < 0 then -v else v;
      var p := IntText(n / 10);
      assert text == (if v < 0 then [MinusSymb] else []) + p + [Dot, DigitZero + n % 10];
    }
    StationLineSplit(name, text, hash);
    ParseDecimalText(v);
  }

  /** The table cases of the line splitter's tests, for any station name. */
  lemma StationLineTable1(name: seq<byte>, hash: seq<byte> -> uint64)
    ensures StationLineOf(name + [WordSeparator] + Ascii("12.3"), hash) == Record(hash(name), 123, name)
  {
    MeasurementTable();
    StationLineSplit(name, Ascii("12.3"), hash);
  }

  lemma StationLineTable2(name: seq<byte>, hash: seq<byte> -> uint64)
    ensures StationLineOf(name + [WordSeparator] + Ascii("-45.6"), hash) == Record(hash(name), -456, name)
  {
    MeasurementTable();
    StationLineSplit(name, Ascii("-45.6"), hash);
  }

  lemma StationLineTable3(name: seq<byte>, hash: seq<byte> -> uint64)
    ensures StationLineOf(name + [WordSeparator] + Ascii("0"), hash) == Record(hash(name), 0, name)
  {
    MeasurementTable();
    StationLineSplit(name, Ascii("0"), hash);
  }

  /** The key depends on the name bytes alone: lines naming the same
      station get the same key under one hash function. */
  lemma SameNameSameKey(line1: seq<byte>, line2: seq<byte>, hash: seq<byte> -> uint64)
    requires WordSeparator in line1 && line1[|line1| - 1] != WordSeparator
    requires WordSeparator in line2 && line2[|line2| - 1] != WordSeparator
    ensures StationLineOf(line1, hash).name == StationLineOf(line2, hash).name ==>
      StationLineOf(line1, hash).key == StationLineOf(line2, hash).key
  {
  }

  // ---------------------------------------------------------------------
  // minMeasurements, maxMeasurements, avgMeasurements

  /** `a + ((b - a) & ((b - a) >> 15))`: the minimum, when b - a does not
      overflow int16. */
  function MinMeasurements(a: int16, b: int16): (r: int16)
    ensures -0x8000 <= b - a < 0x8000 ==> r <= a && r <= b && (r == a || r == b)
  {
    var d := Sub16(b, a);
    SignMask(d);
    Add16(a, And16(d, ShiftRight(d, 15)))
  }

  /** `a - ((a - b) & ((a - b) >> 15))`: the maximum, when a - b does not
      overflow int16. */
  function MaxMeasurements(a: int16, b: int16): (r: int16)
    ensures -0x8000 <= a - b < 0x8000 ==> r >= a && r >= b && (r == a || r == b)
  {
    var d := Sub16(a, b);
    SignMask(d);
    Sub16(a, And16(d, ShiftRight(d, 15)))
  }

  /** The mask of minMeasurements is all ones exactly when b < a. */
  lemma MinMask(a: int16, b: int16)
    requires -0x8000 <= b - a < 0x8000
    ensures ShiftRight(Sub16(b, a), 15) == if b < a then -1 else 0
  {
    SignMask(Sub16(b, a));
  }

  /** The mask of maxMeasurements is all ones exactly when a < b. */
  lemma MaxMask(a: int16, b: int16)
    requires -0x8000 <= a - b < 0x8000
    ensures ShiftRight(Sub16(a, b), 15) == if a < b then -1 else 0
  {
    SignMask(Sub16(a, b));
  }

  /** Without the range condition the trick fails: b - a wraps to a
      negative value and minMeasurements returns the larger argument. */
  lemma MinMeasurementsWraps()
    ensures MinMeasurements(-20000, 20000) == 20000
  {
    assert Sub16(20000, -20000) == -25536;
    SignMask(-25536);
    assert And16(-25536, -1) == -25536;
    assert Add16(-20000, -25536) == 20000;
  }

  /** Likewise maxMeasurements returns the smaller argument. */
  lemma MaxMeasurementsWraps()
    ensures MaxMeasurements(-20000, 20000) == -20000
  {
    assert Sub16(-20000, 20000) == 25536;
    SignMask(25536);
    assert And16(25536, 0) == 0;
    assert Sub16(-20000, 0) == -20000;
  }

  /** The table cases of the min and max tests. */
  lemma MinMaxTable()
    ensures MinMeasurements(-10, 10) == -10 && MinMeasurements(15, 8) == 8 && MinMeasurements(20, 20) == 20
    ensures MaxMeasurements(10, -10) == 10 && MaxMeasurements(8, 15) == 15 && MaxMeasurements(20, 20) == 20
  {
    MinMaxOfSmall(-10, 10);
    MinMaxOfSmall(15, 8);
    MinMaxOfSmall(20, 20);
    MinMaxOfSmall(10, -10);
    MinMaxOfSmall(8, 15);
  }

  /** For arguments of magnitude below 2^14, which covers every value a
      well-formed field parses to (`WellFormedSmall`), no difference overflows and the helpers
      are exactly min and max. */
  lemma MinMaxOfSmall(a: int16, b: int16)
    requires -0x4000 <= a < 0x4000 && -0x4000 <= b < 0x4000
    ensures MinMeasurements(a, b) == (if a <= b then a else b)
    ensures MaxMeasurements(a, b) == (if a <= b then b else a)
  {
  }

  /** A well-formed field has at most four digits, so its measurement
      lies strictly between -10000 and 10000, well inside 2^14. */
  lemma WellFormedSmall(s: seq<byte>)
    requires WellFormedMeasurement(s)
    ensures -10000 < MeasurementOf(s) < 10000
    ensures -0x4000 <= MeasurementOf(s) < 0x4000
  {
    MeasurementOfWellFormed(s);
    DigitsOfAreDigits(Unsigned(s));
    DecimalValueSmall(DigitsOf(Unsigned(s)));
  }

  /** On measurements of well-formed fields the branchless helpers are
      exactly min and max. */
  lemma MinMaxOfFields(s: seq<byte>, t: seq<byte>)
    requires WellFormedMeasurement(s) && WellFormedMeasurement(t)
    ensures var a, b := MeasurementOf(s), MeasurementOf(t);
      MinMeasurements(a, b) == (if a <= b then a else b) &&
      MaxMeasurements(a, b) == (if a <= b then b else a)
  {
    WellFormedSmall(s);
    WellFormedSmall(t);
    MinMaxOfSmall(MeasurementOf(s), MeasurementOf(t));
  }

  /** `(a + b) >> 1`: half the sum rounded toward negative infinity, when
      the sum does not overflow int16. */
  function AvgMeasurements(a: int16, b: int16): (r: int16)
    ensures -0x8000 <= a + b < 0x8000 ==> 2 * r <= a + b < 2 * r + 2
  {
    ShiftRight(Add16(a, b), 1)
  }

  /** Go's `/` on integers: the quotient truncated toward zero. */
  function GoQuotient(x: int, y: int): int
    requires y != 0
  {
    var q := (if x < 0 then -x else x) / (if y < 0 then -y else y);
    if (x < 0) == (y < 0) then q else -q
  }

  /** The shift differs from the truncating `(a + b) / 2` exactly for a
      negative odd sum, where it is one less. */
  lemma AvgVersusTruncatingHalf(a: int16, b: int16)
    requires -0x8000 <= a + b < 0x8000
    ensures AvgMeasurements(a, b) ==
      if a + b < 0 && (a + b) % 2 == 1 then GoQuotient(a + b, 2) - 1 else GoQuotient(a + b, 2)
  {
  }
}
