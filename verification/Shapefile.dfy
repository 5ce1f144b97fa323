/** The polyline reader for ESRI main files (.shp). A coordinate is kept as the eight bytes of its
    IEEE double; what number they denote plays no part in reading the file. */
module Shapefile {
  import opened Common

  type byte = x: int | 0 <= x < 256

  type Bytes = seq<byte>

  datatype Point = Point(x: Bytes, y: Bytes)

  type Line = seq<Point>

  /** InvalidRecord is the reader's own error; the other two are what unpacking raises. */
  datatype Failure = InvalidRecord | BadFormat | ShortBuffer

  const HEADER_BYTES := 100

  // ----- fixed-width integers -----

  function Signed(v: int): int {
    if v >= 0x8000_0000 then v - 0x1_0000_0000 else v
  }

  function Word(a: int, b: int, c: int, d: int): int {
    Signed(((a * 256 + b) * 256 + c) * 256 + d)
  }

  function BigInt(d: Bytes, o: nat): int
    requires o + 4 <= |d|
  {
    Word(d[o], d[o + 1], d[o + 2], d[o + 3])
  }

  function LittleInt(d: Bytes, o: nat): int
    requires o + 4 <= |d|
  {
    Word(d[o + 3], d[o + 2], d[o + 1], d[o])
  }

  predicate Fits(v: int) {
    -0x8000_0000 <= v < 0x8000_0000
  }

  function LittleBytes(v: int): (b: Bytes)
    requires Fits(v)
    ensures |b| == 4 && LittleInt(b, 0) == v
  {
    var u := if v < 0 then v + 0x1_0000_0000 else v;
    var u1 := u / 256;
    var u2 := u1 / 256;
    [u % 256, u1 % 256, u2 % 256, u2 / 256]
  }

  function BigBytes(v: int): (b: Bytes)
    requires Fits(v)
    ensures |b| == 4 && BigInt(b, 0) == v
  {
    var l := LittleBytes(v);
    [l[3], l[2], l[1], l[0]]
  }

  /** The digits of the encodings in base 256, least significant first and last; a negative integer is
      written as its two's complement. */
  lemma ByteOrders(v: int)
    requires Fits(v)
    ensures var l, b := LittleBytes(v), BigBytes(v);
      var u := if v < 0 then v + 0x1_0000_0000 else v;
      && l[0] as int + 0x100 * l[1] as int + 0x1_0000 * l[2] as int + 0x100_0000 * l[3] as int == u
      && b[3] as int + 0x100 * b[2] as int + 0x1_0000 * b[1] as int + 0x100_0000 * b[0] as int == u
  {
  }

  // ----- reading -----

  predicate HasParts(shape: int) {
    shape == 3 || shape == 5 || shape == 13 || shape == 15
  }

  function PointAt(d: Bytes, o: nat): Point
    requires o + 16 <= |d|
  {
    Point(d[o..o + 8], d[o + 8..o + 16])
  }

  /** A slice with the source language's rules: negative bounds count from the end, and bounds are
      clamped to the sequence. */
  function Slice<T>(s: seq<T>, from: int, to: int): seq<T> {
    var a := Clamp(from, |s|);
    var z := Clamp(to, |s|);
    if a <= z then s[a..z] else []
  }

  function Clamp(i: int, n: nat): (r: nat)
    ensures r <= n
  {
    if i < 0 then (if i + n < 0 then 0 else i + n) else if i > n then n else i
  }

  predicate Selected(k: nat, n: nat, from: int, to: int) {
    (if from < 0 then k >= n + from else k >= from) && (if to < 0 then k < n + to else k < to)
  }

  /** What a slice selects: a negative bound counts from the end, and a bound past either end is that
      end. */
  lemma SliceSelects<T>(s: seq<T>, from: int, to: int) returns (a: nat, z: nat)
    ensures a <= z <= |s| && Slice(s, from, to) == s[a..z]
    ensures forall k: nat | k < |s| :: Selected(k, |s|, from, to) <==> a <= k < z
  {
    a, z := Clamp(from, |s|), Clamp(to, |s|);
    if z < a {
      z := a;
    }
  }

  /** Where part k ends: at the next part, or at the last point. */
  function PartEnd(starts: seq<int>, points: int, k: nat): int
    requires k < |starts|
  {
    if k + 1 < |starts| then starts[k + 1] else points
  }

  /** The lines contributed by the first k parts. `count` is the declared number of points, which is
      negative in some malformed files. */
  function PartLines(starts: seq<int>, points: Line, count: int, k: nat): seq<Line>
    requires k <= |starts|
  {
    if k == 0 then []
    else
      var before := PartLines(starts, points, count, k - 1);
      var end := PartEnd(starts, count, k - 1);
      if end - starts[k - 1] >= 2 then before + [Slice(points, starts[k - 1], end)] else before
  }

  function Ints(d: Bytes, o: nat, n: nat): seq<int>
    requires o + 4 * n <= |d|
  {
    seq(n, i requires 0 <= i < n => LittleInt(d, o + 4 * i))
  }

  function Points(d: Bytes, o: nat, n: nat): Line
    requires o + 16 * n <= |d|
  {
    seq(n, i requires 0 <= i < n => PointAt(d, o + 16 * i))
  }

  /** The lines of the multi-part shape whose content starts at o. */
  function ShapeLines(d: Bytes, o: nat): Result<seq<Line>, Failure> {
    if o + 44 > |d| then Err(ShortBuffer)
    else
      var parts, count := LittleInt(d, o + 36), LittleInt(d, o + 40);
      if parts < 0 then Err(BadFormat)
      else if o + 44 + 4 * parts > |d| then Err(ShortBuffer)
      else if count > 0 && o + 44 + 4 * parts + 16 * count > |d| then Err(ShortBuffer)
      else
        var points := if count > 0 then Points(d, o + 44 + 4 * parts, count) else [];
        Ok(PartLines(Ints(d, o + 44, parts), points, count, parts))
  }

  function Prepend(lines: seq<Line>, r: Result<seq<Line>, Failure>): Result<seq<Line>, Failure> {
    match r case Err(e) => Err(e) case Ok(rest) => Ok(lines + rest)
  }

  lemma PrependTwice(a: seq<Line>, b: seq<Line>, r: Result<seq<Line>, Failure>)
    ensures Prepend(a, Prepend(b, r)) == Prepend(a + b, r)
    ensures Prepend([], r) == r
  {
    if r.Ok? {
      assert a + (b + r.value) == a + b + r.value;
      assert [] + r.value == r.value;
    }
  }

  /** The lines of every record from offset o on. */
  function LinesFrom(d: Bytes, o: nat): Result<seq<Line>, Failure>
    decreases |d| - o
  {
    if o + 8 > |d| then Ok([])
    else
      var bytes := BigInt(d, o + 4) * 2;
      if o + 8 + bytes > |d| || bytes < 4 then Err(InvalidRecord)
      else
        var lines := if HasParts(LittleInt(d, o + 8)) then ShapeLines(d, o + 8) else Ok([]);
        match lines
        case Err(e) => Err(e)
        case Ok(here) => Prepend(here, LinesFrom(d, o + 8 + bytes))
  }

  /** The lines of a file, whose header is skipped. */
  function FileLines(d: Bytes): Result<seq<Line>, Failure> {
    LinesFrom(d, HEADER_BYTES)
  }

  /** The multi-part branch of the loop body of `shapefile_lines`. */
  method ReadShape(d: Bytes, offset: nat) returns (r: Result<seq<Line>, Failure>)
    ensures r == ShapeLines(d, offset)
  {
    if offset + 44 > |d| {
      return Err(ShortBuffer);
    }
    var partCount, pointCount := LittleInt(d, offset + 36), LittleInt(d, offset + 40);
    var partsOffset := offset + 44;
    var pointsOffset := partsOffset + partCount * 4;
    if partCount < 0 {
      return Err(BadFormat);
    }
    if pointsOffset > |d| {
      return Err(ShortBuffer);
    }
    var partIndexes := Ints(d, partsOffset, partCount);
    var points: Line := [];
    var index := 0;
    while index < pointCount
      invariant 0 <= index && (index <= pointCount || index == 0)
      invariant pointsOffset + 16 * index <= |d|
      invariant points == Points(d, pointsOffset, index)
    {
      if pointsOffset + 16 * index + 16 > |d| {
        return Err(ShortBuffer);
      }
      points := points + [PointAt(d, pointsOffset + 16 * index)];
      index := index + 1;
    }
    var lines: seq<Line> := [];
    for part := 0 to |partIndexes|
      invariant lines == PartLines(partIndexes, points, pointCount, part)
    {
      var start := partIndexes[part];
      var end := if part + 1 < |partIndexes| then partIndexes[part + 1] else pointCount;
      if end - start >= 2 {
        lines := lines + [Slice(points, start, end)];
      }
    }
    return Ok(lines);
  }

  /** The loop of `shapefile_lines`. It ends on every byte string: an accepted record moves the offset
      by at least twelve. */
  method ReadLines(d: Bytes) returns (r: Result<seq<Line>, Failure>)
    ensures r == FileLines(d)
  {
    var lines: seq<Line> := [];
    var offset := HEADER_BYTES;
    PrependTwice([], [], LinesFrom(d, offset));
    while offset + 8 <= |d|
      invariant 0 <= offset
      invariant LinesFrom(d, HEADER_BYTES) == Prepend(lines, LinesFrom(d, offset))
      decreases (|d| - offset + 12) / 12
    {
      ghost var before := lines;
      var contentBytes := BigInt(d, offset + 4) * 2;
      offset := offset + 8;
      var recordEnd := offset + contentBytes;
      if recordEnd > |d| || contentBytes < 4 {
        return Err(InvalidRecord);
      }
      if HasParts(LittleInt(d, offset)) {
        var shape := ReadShape(d, offset);
        match shape {
          case Err(e) => return Err(e);
          case Ok(more) => lines := lines + more;
        }
      }
      offset := recordEnd;
      PrependTwice(before, [], LinesFrom(d, offset));
      PrependTwice(before, lines[|before|..], LinesFrom(d, offset));
    }
    assert lines + [] == lines;
    return Ok(lines);
  }

  // ----- writing, from the record layouts of the ESRI Shapefile Technical Description -----

  /** A polyline or polygon record carries its parts; `extra` holds the Z and M arrays of the
      three-dimensional shapes. Every other shape is opaque. */
  datatype Record =
    | Parts(number: int, shape: int, box: Bytes, parts: seq<Line>, extra: Bytes)
    | Other(number: int, shape: int, body: Bytes)

  function Concat<T>(ss: seq<seq<T>>): seq<T> {
    if ss == [] then [] else Concat(ss[..|ss| - 1]) + ss[|ss| - 1]
  }

  /** The index of the first point of each part. */
  function Starts(parts: seq<Line>): (r: seq<int>)
    ensures |r| == |parts|
  {
    seq(|parts|, i requires 0 <= i < |parts| => |Concat(parts[..i])|)
  }

  function IntBytes(vs: seq<int>): (r: Bytes)
    requires forall v | v in vs :: Fits(v)
    ensures |r| == 4 * |vs|
  {
    if vs == [] then [] else IntBytes(vs[..|vs| - 1]) + LittleBytes(vs[|vs| - 1])
  }

  predicate ValidPoints(l: Line) {
    forall p | p in l :: |p.x| == 8 && |p.y| == 8
  }

  function PointBytes(l: Line): (r: Bytes)
    requires ValidPoints(l)
    ensures |r| == 16 * |l|
  {
    if l == [] then []
    else
      var p := l[|l| - 1];
      assert p in l;
      PointBytes(l[..|l| - 1]) + (p.x + p.y)
  }

  function ContentLength(r: Record): nat {
    match r
    case Other(_, _, body) => 4 + |body|
    case Parts(_, _, box, parts, extra) => 12 + |box| + 4 * |parts| + 16 * |Concat(parts)| + |extra|
  }

  predicate Valid(r: Record) {
    && Fits(r.number) && Fits(r.shape)
    && ContentLength(r) % 2 == 0 && Fits(ContentLength(r) / 2)
    && match r
       case Other(_, shape, _) => shape !in {3, 5, 13, 15}
       case Parts(_, shape, box, parts, _) => shape in {3, 5, 13, 15} && |box| == 32 && ValidPoints(Concat(parts))
  }

  lemma {:induction false} ConcatPrefixes<T>(ss: seq<seq<T>>, k: nat)
    requires k <= |ss|
    ensures Concat(ss[..k]) <= Concat(ss)
    ensures k < |ss| ==> Concat(ss[..k]) + ss[k] <= Concat(ss)
    decreases |ss|
  {
    if k < |ss| {
      var init := ss[..|ss| - 1];
      ConcatPrefixes(init, k);
      assert init[..k] == ss[..k];
      assert init + [ss[|init|]] == ss;
    } else {
      assert ss[..k] == ss;
    }
  }

  lemma StartsFit(r: Record)
    requires r.Parts? && Valid(r)
    ensures forall v | v in Starts(r.parts) :: Fits(v)
  {
    forall i | 0 <= i < |r.parts| ensures Fits(|Concat(r.parts[..i])|) {
      ConcatPrefixes(r.parts, i);
    }
  }

  /** The content of a multi-part record, whatever its part table and point count say. */
  function Fields(shape: int, box: Bytes, starts: seq<int>, count: int, points: Line, extra: Bytes): (c: Bytes)
    requires Fits(shape) && Fits(|starts|) && Fits(count) && (forall v | v in starts :: Fits(v)) && ValidPoints(points)
    ensures |c| == 12 + |box| + 4 * |starts| + 16 * |points| + |extra|
    ensures |c| >= 4 && c[..4] == LittleBytes(shape)
  {
    hide LittleBytes, IntBytes, PointBytes;
    LittleBytes(shape) + (box + (LittleBytes(|starts|) + (LittleBytes(count)
      + (IntBytes(starts) + (PointBytes(points) + extra)))))
  }

  function Content(r: Record): (c: Bytes)
    requires Valid(r)
    ensures |c| == ContentLength(r)
  {
    match r
    case Other(_, shape, body) => LittleBytes(shape) + body
    case Parts(_, shape, box, parts, extra) =>
      hide Starts;
      StartsFit(r);
      Fields(shape, box, Starts(parts), |Concat(parts)|, Concat(parts), extra)
  }

  function RecordBytes(r: Record): Bytes
    requires Valid(r)
  {
    BigBytes(r.number) + (BigBytes(|Content(r)| / 2) + Content(r))
  }

  function RecordsBytes(rs: seq<Record>): Bytes
    requires forall r | r in rs :: Valid(r)
  {
    if rs == [] then [] else RecordBytes(rs[0]) + RecordsBytes(rs[1..])
  }

  function Kept(parts: seq<Line>): seq<Line> {
    if parts == [] then []
    else
      var last := parts[|parts| - 1];
      if |last| >= 2 then Kept(parts[..|parts| - 1]) + [last] else Kept(parts[..|parts| - 1])
  }

  function KeptLines(rs: seq<Record>): seq<Line> {
    if rs == [] then []
    else (if rs[0].Parts? then Kept(rs[0].parts) else []) + KeptLines(rs[1..])
  }

  // ----- reading back what was written -----

  /** The bytes s stand at offset o of d. */
  predicate Placed(d: Bytes, o: nat, s: Bytes) {
    o + |s| <= |d| && d[o..o + |s|] == s
  }

  lemma PlacedSplit(d: Bytes, o: nat, a: Bytes, b: Bytes)
    requires Placed(d, o, a + b)
    ensures Placed(d, o, a) && Placed(d, o + |a|, b)
  {
    var s := d[o..o + |a + b|];
    assert s[..|a|] == a && s[|a|..] == b;
  }

  lemma PlacedLast(header: Bytes, s: Bytes)
    ensures Placed(header + s, |header|, s)
  {
  }

  lemma PlacedLittle(d: Bytes, o: nat, v: int)
    requires Fits(v) && Placed(d, o, LittleBytes(v))
    ensures o + 4 <= |d| && LittleInt(d, o) == v
  {
  }

  lemma PlacedBig(d: Bytes, o: nat, v: int)
    requires Fits(v) && Placed(d, o, BigBytes(v))
    ensures BigInt(d, o) == v
  {
  }

  lemma {:induction false} PlacedInts(d: Bytes, o: nat, vs: seq<int>)
    requires forall v | v in vs :: Fits(v)
    requires Placed(d, o, IntBytes(vs))
    ensures o + 4 * |vs| <= |d| && Ints(d, o, |vs|) == vs
    decreases |vs|
  {
    if vs != [] {
      var k := |vs| - 1;
      PlacedSplit(d, o, IntBytes(vs[..k]), LittleBytes(vs[k]));
      PlacedInts(d, o, vs[..k]);
    }
  }

  lemma {:induction false} PlacedPoints(d: Bytes, o: nat, l: Line)
    requires ValidPoints(l)
    requires Placed(d, o, PointBytes(l))
    ensures o + 16 * |l| <= |d| && Points(d, o, |l|) == l
    decreases |l|
  {
    if l != [] {
      var k := |l| - 1;
      var p := l[k];
      PlacedSplit(d, o, PointBytes(l[..k]), p.x + p.y);
      PlacedPoints(d, o, l[..k]);
      PlacedSplit(d, o + 16 * k, p.x, p.y);
    }
  }

  lemma PartCut(parts: seq<Line>, k: nat)
    requires k < |parts|
    ensures var start, end := Starts(parts)[k], PartEnd(Starts(parts), |Concat(parts)|, k);
      end - start == |parts[k]| && Slice(Concat(parts), start, end) == parts[k]
  {
    ConcatPrefixes(parts, k);
    PrefixSlice(Concat(parts[..k]), parts[k], Concat(parts));
    ConcatStep(parts, k);
    hide Concat;
    assert k + 1 == |parts| ==> parts[..k + 1] == parts;
  }

  lemma PrefixSlice<T>(a: seq<T>, b: seq<T>, s: seq<T>)
    requires a + b <= s
    ensures s[|a|..|a| + |b|] == b
  {
    assert s[..|a + b|] == a + b;
  }

  lemma ConcatStep<T>(ss: seq<seq<T>>, k: nat)
    requires k < |ss|
    ensures Concat(ss[..k + 1]) == Concat(ss[..k]) + ss[k]
  {
    assert ss[..k + 1][..k] == ss[..k];
  }

  /** Cutting the concatenated points at the part starts gives the parts back. */
  lemma {:induction false} CutParts(parts: seq<Line>, k: nat)
    requires k <= |parts|
    ensures PartLines(Starts(parts), Concat(parts), |Concat(parts)|, k) == Kept(parts[..k])
  {
    hide Starts, PartEnd, Slice, Concat;
    if k > 0 {
      CutParts(parts, k - 1);
      PartCut(parts, k - 1);
      assert parts[..k][..k - 1] == parts[..k - 1];
    }
  }

  lemma PlacedFields(d: Bytes, o: nat, shape: Bytes, box: Bytes, parts: Bytes, points: Bytes,
                     starts: Bytes, coordinates: Bytes, extra: Bytes)
    requires |shape| == 4 && |box| == 32 && |parts| == 4 && |points| == 4
    requires Placed(d, o, shape + (box + (parts + (points + (starts + (coordinates + extra))))))
    ensures Placed(d, o + 36, parts) && Placed(d, o + 40, points) && Placed(d, o + 44, starts)
    ensures Placed(d, o + 44 + |starts|, coordinates)
  {
    var tail := coordinates + extra;
    PlacedSplit(d, o, shape, box + (parts + (points + (starts + tail))));
    PlacedSplit(d, o + 4, box, parts + (points + (starts + tail)));
    PlacedSplit(d, o + 36, parts, points + (starts + tail));
    PlacedSplit(d, o + 40, points, starts + tail);
    PlacedSplit(d, o + 44, starts, tail);
    PlacedSplit(d, o + 44 + |starts|, coordinates, extra);
  }

  /** Where the fields of a record content land. */
  lemma FieldsLayout(d: Bytes, o: nat, shape: int, box: Bytes, starts: seq<int>, count: int, points: Line,
                     extra: Bytes)
    requires Fits(shape) && Fits(|starts|) && Fits(count) && (forall v | v in starts :: Fits(v)) && ValidPoints(points)
    requires |box| == 32 && Placed(d, o, Fields(shape, box, starts, count, points, extra))
    ensures Placed(d, o + 36, LittleBytes(|starts|)) && Placed(d, o + 40, LittleBytes(count))
    ensures Placed(d, o + 44, IntBytes(starts)) && Placed(d, o + 44 + 4 * |starts|, PointBytes(points))
  {
    hide LittleBytes, IntBytes, PointBytes, Placed, Fits, ValidPoints;
    PlacedFields(d, o, LittleBytes(shape), box, LittleBytes(|starts|), LittleBytes(count),
                 IntBytes(starts), PointBytes(points), extra);
  }

  /** A record content reads back as its part table says, also when the table or the count is wrong. */
  lemma FieldsReadBack(d: Bytes, o: nat, shape: int, box: Bytes, starts: seq<int>, count: int, points: Line,
                       extra: Bytes)
    requires Fits(shape) && Fits(|starts|) && Fits(count) && (forall v | v in starts :: Fits(v)) && ValidPoints(points)
    requires |box| == 32 && |points| == (if count < 0 then 0 else count)
    requires Placed(d, o, Fields(shape, box, starts, count, points, extra))
    ensures ShapeLines(d, o) == Ok(PartLines(starts, points, count, |starts|))
  {
    hide *;
    FieldsLayout(d, o, shape, box, starts, count, points, extra);
    ReadFields(d, o, starts, count, points);
  }

  lemma ReadFields(d: Bytes, o: nat, starts: seq<int>, count: int, points: Line)
    requires Fits(|starts|) && Fits(count) && (forall v | v in starts :: Fits(v)) && ValidPoints(points)
    requires |points| == (if count < 0 then 0 else count)
    requires Placed(d, o + 36, LittleBytes(|starts|)) && Placed(d, o + 40, LittleBytes(count))
    requires Placed(d, o + 44, IntBytes(starts)) && Placed(d, o + 44 + 4 * |starts|, PointBytes(points))
    ensures ShapeLines(d, o) == Ok(PartLines(starts, points, count, |starts|))
  {
    hide ShapeLines, LittleInt, LittleBytes, PartLines, Ints, Points, IntBytes, PointBytes, Placed, Fits, ValidPoints;
    PlacedLittle(d, o + 36, |starts|);
    PlacedLittle(d, o + 40, count);
    PlacedInts(d, o + 44, starts);
    PlacedPoints(d, o + 44 + 4 * |starts|, points);
    ShapeFromFields(d, o, starts, count, points);
  }

  lemma ShapeReadBack(d: Bytes, o: nat, r: Record)
    requires r.Parts? && Valid(r) && Placed(d, o, Content(r))
    ensures ShapeLines(d, o) == Ok(Kept(r.parts))
  {
    StartsFit(r);
    var points := Concat(r.parts);
    FieldsReadBack(d, o, r.shape, r.box, Starts(r.parts), |points|, points, r.extra);
    CutParts(r.parts, |r.parts|);
    assert r.parts[..|r.parts|] == r.parts;
  }

  lemma ShapeFromFields(d: Bytes, o: nat, starts: seq<int>, count: int, points: Line)
    requires (o + 44 + 4 * |starts|) + 16 * |points| <= |d| && |points| == (if count < 0 then 0 else count)
    requires LittleInt(d, o + 36) == |starts| && LittleInt(d, o + 40) == count
    requires Ints(d, o + 44, |starts|) == starts
    requires Points(d, o + 44 + 4 * |starts|, |points|) == points
    ensures ShapeLines(d, o) == Ok(PartLines(starts, points, count, |starts|))
  {
  }

  lemma ContentLayout(d: Bytes, o: nat, number: int, shape: int, c: Bytes)
    requires Fits(number) && Fits(shape) && |c| >= 4 && c[..4] == LittleBytes(shape)
    requires |c| % 2 == 0 && Fits(|c| / 2) && Placed(d, o, BigBytes(number) + (BigBytes(|c| / 2) + c))
    ensures BigInt(d, o + 4) * 2 == |c|
    ensures Placed(d, o + 8, c) && LittleInt(d, o + 8) == shape
  {
    hide LittleInt, BigInt, LittleBytes, BigBytes;
    PlacedSplit(d, o, BigBytes(number), BigBytes(|c| / 2) + c);
    PlacedSplit(d, o + 4, BigBytes(|c| / 2), c);
    PlacedBig(d, o + 4, |c| / 2);
    assert c == c[..4] + c[4..];
    PlacedSplit(d, o + 8, c[..4], c[4..]);
    PlacedLittle(d, o + 8, shape);
  }

  /** Where the fields of a record land. */
  lemma RecordLayout(d: Bytes, o: nat, r: Record)
    requires Valid(r) && Placed(d, o, RecordBytes(r))
    ensures BigInt(d, o + 4) * 2 == |Content(r)|
    ensures Placed(d, o + 8, Content(r)) && LittleInt(d, o + 8) == r.shape
    ensures HasParts(r.shape) <==> r.Parts?
  {
    hide Starts;
    ContentLayout(d, o, r.number, r.shape, Content(r));
  }

  lemma {:induction false} RecordsReadBack(d: Bytes, o: nat, rs: seq<Record>)
    requires forall r | r in rs :: Valid(r)
    requires Placed(d, o, RecordsBytes(rs))
    requires |d| - (o + |RecordsBytes(rs)|) < 8
    ensures LinesFrom(d, o) == Ok(KeptLines(rs))
    decreases |rs|
  {
    hide BigInt, LittleInt, BigBytes, LittleBytes, Valid, Content, ShapeLines, Kept;
    if rs != [] {
      var r := rs[0];
      PlacedSplit(d, o, RecordBytes(r), RecordsBytes(rs[1..]));
      RecordLayout(d, o, r);
      var next := o + |RecordBytes(r)|;
      RecordsReadBack(d, next, rs[1..]);
      if r.Parts? {
        ShapeReadBack(d, o + 8, r);
      }
    }
  }

  /** Reading an encoded file yields exactly the parts with at least two points, in order; shapes of
      every other type, the header and fewer than eight trailing bytes leave no trace. */
  lemma ReadsBack(header: Bytes, rs: seq<Record>, trailer: Bytes)
    requires |header| == 100 && |trailer| < 8
    requires forall r | r in rs :: Valid(r)
    ensures FileLines(header + RecordsBytes(rs) + trailer) == Ok(KeptLines(rs))
  {
    var d := header + RecordsBytes(rs) + trailer;
    RecordsReadBack(d, HEADER_BYTES, rs);
  }

  // ----- lines of fewer than two points -----

  predicate LongLines(lines: seq<Line>) {
    forall l | l in lines :: |l| >= 2
  }

  /** The declared bounds of part k, if they are two or more apart, stay so after clamping to the n
      points that there are. */
  predicate BoundsHold(starts: seq<int>, n: nat, count: int, k: nat)
    requires k < |starts|
  {
    var start, end := starts[k], PartEnd(starts, count, k);
    end - start >= 2 ==> Clamp(end, n) - Clamp(start, n) >= 2
  }

  predicate TableHolds(starts: seq<int>, n: nat, count: int, k: nat)
    requires k <= |starts|
  {
    forall i | 0 <= i < k :: BoundsHold(starts, n, count, i)
  }

  lemma AppendedLong(lines: seq<Line>, l: Line)
    ensures LongLines(lines + [l]) <==> LongLines(lines) && |l| >= 2
  {
    assert l in lines + [l];
    assert forall m | m in lines :: m in lines + [l];
  }

  /** Whatever the part table and the count, a part table yields only lines of at least two points
      exactly when the bounds of every part hold. */
  lemma {:induction false} LinesLongEnough(starts: seq<int>, points: Line, count: int, k: nat)
    requires k <= |starts|
    ensures LongLines(PartLines(starts, points, count, k)) <==>
            TableHolds(starts, |points|, count, k)
  {
    if k > 0 {
      LinesLongEnough(starts, points, count, k - 1);
      var before := PartLines(starts, points, count, k - 1);
      var start, end := starts[k - 1], PartEnd(starts, count, k - 1);
      if end - start >= 2 {
        var slice := Slice(points, start, end);
        assert BoundsHold(starts, |points|, count, k - 1) <==> |slice| >= 2;
        AppendedLong(before, slice);
      }
    }
  }

  /** The shape at offset o has a part table, and the bounds of every part hold. */
  predicate ShapeHolds(d: Bytes, o: nat) {
    && o + 44 <= |d|
    && var parts, count := LittleInt(d, o + 36), LittleInt(d, o + 40);
       0 <= parts && o + 44 + 4 * parts <= |d| &&
       TableHolds(Ints(d, o + 44, parts), if count > 0 then count else 0, count, parts)
  }

  /** The offsets of the multi-part shapes, as far as the records can be read. */
  function ShapeOffsets(d: Bytes, o: nat): seq<nat>
    decreases |d| - o
  {
    if o + 8 > |d| then []
    else
      var bytes := BigInt(d, o + 4) * 2;
      if o + 8 + bytes > |d| || bytes < 4 then []
      else (if HasParts(LittleInt(d, o + 8)) then [o + 8] else []) + ShapeOffsets(d, o + 8 + bytes)
  }

  predicate AllHold(d: Bytes, offsets: seq<nat>) {
    forall at | at in offsets :: ShapeHolds(d, at)
  }

  lemma LongConcat(a: seq<Line>, b: seq<Line>)
    ensures LongLines(a + b) <==> LongLines(a) && LongLines(b)
  {
    assert forall l | l in a :: l in a + b;
    assert forall l | l in b :: l in a + b;
  }

  lemma AllHoldFirst(d: Bytes, o: nat, rest: seq<nat>)
    ensures AllHold(d, [o] + rest) <==> ShapeHolds(d, o) && AllHold(d, rest)
    ensures AllHold(d, [] + rest) <==> AllHold(d, rest)
  {
    hide ShapeHolds;
    assert o in [o] + rest && forall at | at in rest :: at in [o] + rest;
    assert [] + rest == rest;
  }

  /** Every line read from a file has at least two points exactly when all its part tables hold. */
  lemma {:induction false} FileLinesLongEnough(d: Bytes, o: nat)
    requires LinesFrom(d, o).Ok?
    ensures LongLines(LinesFrom(d, o).value) <==> AllHold(d, ShapeOffsets(d, o))
    decreases |d| - o
  {
    hide BigInt, LittleInt, ShapeLines, ShapeHolds, LongLines, AllHold;
    if o + 8 <= |d| {
      var next := o + 8 + BigInt(d, o + 4) * 2;
      FileLinesLongEnough(d, next);
      AllHoldFirst(d, o + 8, ShapeOffsets(d, next));
      if HasParts(LittleInt(d, o + 8)) {
        ShapeLinesLongEnough(d, o + 8);
        LongConcat(ShapeLines(d, o + 8).value, LinesFrom(d, next).value);
      } else {
        LongConcat([], LinesFrom(d, next).value);
        NoLines();
      }
    } else {
      NoLines();
      NoOffsets(d);
    }
  }

  lemma NoLines()
    ensures LongLines([])
  {
  }

  lemma NoOffsets(d: Bytes)
    ensures AllHold(d, [])
  {
  }

  lemma ShapeLinesLongEnough(d: Bytes, o: nat)
    requires ShapeLines(d, o).Ok?
    ensures LongLines(ShapeLines(d, o).value) <==> ShapeHolds(d, o)
  {
    var parts, count := LittleInt(d, o + 36), LittleInt(d, o + 40);
    var points := if count > 0 then Points(d, o + 44 + 4 * parts, count) else [];
    LinesLongEnough(Ints(d, o + 44, parts), points, count, parts);
  }

  /** A file with one record. */
  function OneRecordFile(header: Bytes, content: Bytes): Bytes
    requires Fits(|content| / 2)
  {
    header + (BigBytes(1) + (BigBytes(|content| / 2) + content))
  }

  lemma OneRecordRead(header: Bytes, shape: int, content: Bytes)
    requires |header| == HEADER_BYTES && Fits(shape) && HasParts(shape)
    requires |content| >= 4 && |content| % 2 == 0 && Fits(|content| / 2) && content[..4] == LittleBytes(shape)
    ensures var d := OneRecordFile(header, content);
      Placed(d, HEADER_BYTES + 8, content) && LinesFrom(d, HEADER_BYTES) == ShapeLines(d, HEADER_BYTES + 8)
  {
    hide LittleInt, BigInt, LittleBytes, BigBytes, ShapeLines;
    var d, o := OneRecordFile(header, content), HEADER_BYTES;
    PlacedLast(header, BigBytes(1) + (BigBytes(|content| / 2) + content));
    ContentLayout(d, o, 1, shape, content);
    PrependTwice([], [], LinesFrom(d, |d|));
    assert ShapeLines(d, o + 8).Ok? ==> ShapeLines(d, o + 8).value + [] == ShapeLines(d, o + 8).value;
  }

  /** A file with one polyline, whatever its part table and count say. */
  function PolylineFile(header: Bytes, box: Bytes, starts: seq<int>, count: int, points: Line): Bytes
    requires |box| == 32 && Fits(count) && (forall v | v in starts :: Fits(v)) && ValidPoints(points)
    requires Fits(44 + 4 * |starts| + 16 * |points|)
  {
    OneRecordFile(header, Fields(3, box, starts, count, points, []))
  }

  lemma PolylineSize(starts: nat, points: nat)
    requires Fits(44 + 4 * starts + 16 * points)
    ensures (44 + 4 * starts + 16 * points) % 2 == 0 && Fits((44 + 4 * starts + 16 * points) / 2)
    ensures Fits(starts) && Fits(3)
  {
    Halved(44 + 4 * starts + 16 * points, 22 + 2 * starts + 8 * points);
  }

  lemma Halved(n: nat, half: nat)
    requires n == half + half
    ensures n % 2 == 0 && n / 2 == half
  {
  }

  lemma PolylineRead(header: Bytes, box: Bytes, starts: seq<int>, count: int, points: Line)
    requires |header| == 100 && |box| == 32 && Fits(count) && ValidPoints(points)
    requires (forall v | v in starts :: Fits(v)) && Fits(44 + 4 * |starts| + 16 * |points|)
    requires |points| == (if count < 0 then 0 else count)
    ensures LinesFrom(PolylineFile(header, box, starts, count, points), HEADER_BYTES) ==
            Ok(PartLines(starts, points, count, |starts|))
  {
    PolylineSize(|starts|, |points|);
    hide LittleBytes, ShapeLines, PartLines, Fields, OneRecordFile, Placed, LinesFrom, Fits, ValidPoints;
    var content := Fields(3, box, starts, count, points, []);
    OneRecordRead(header, 3, content);
    FieldsReadBack(OneRecordFile(header, content), HEADER_BYTES + 8, 3, box, starts, count, points, []);
  }

  /** There are files whose tables do not hold: starts outside the points, or a negative count, pass the
      length test on the declared bounds and then select no point at all. */
  lemma OutOfRangePart(header: Bytes, box: Bytes, p: Point, q: Point)
    requires |header| == 100 && |box| == 32 && ValidPoints([p, q])
    ensures FileLines(PolylineFile(header, box, [3, 9], 2, [p, q])) == Ok([[]])
    ensures FileLines(PolylineFile(header, box, [-10], -5, [])) == Ok([[]])
  {
    PolylineRead(header, box, [3, 9], 2, [p, q]);
    PolylineRead(header, box, [-10], -5, []);
    assert PartLines([3, 9], [p, q], 2, 1) == [[]] by {
      assert Slice([p, q], 3, 9) == [];
    }
    assert PartLines([-10], [], -5, 1) == [[]];
  }
}
