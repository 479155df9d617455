/** The view definition record (src/view.rs): little-endian fields, length-prefixed
    strings, a checksum over everything before it. Strings are their UTF-8 bytes;
    the checksum and UTF-8 validity are functions the codec is given. */
module Records {
  import opened Log

  type U8 = x: int | 0 <= x < 256
  type Bytes = seq<U8>

  const POW32: nat := 0x1_0000_0000
  const POW63: nat := 0x8000_0000_0000_0000
  const POW64: nat := 0x1_0000_0000_0000_0000

  /** A join view's second source. */
  datatype JoinState = JoinState(dimension: Bytes, stamp: nat, ceiling: int)

  datatype Definition = Definition(stamp: nat, width: nat, source: Bytes, sql: Bytes, join: Option<JoinState>)

  datatype Part = Source | Sql | Dimension

  datatype Error =
    | Truncated
    | ChecksumMismatch
    | BadMagic
    | UnknownVersion(version: nat)
    | TruncatedWidth
    | TruncatedLength(part: Part)
    | TruncatedText(part: Part)
    | NotUtf8(part: Part)
    | TruncatedJoin

  datatype Result<T> = Ok(value: T) | Err(error: Error)

  // -------------------------------------------------------------- little-endian

  /** Byte `i` of a number, least significant first. */
  function Digit(v: nat, i: nat): U8
    decreases i, v
  {
    if i == 0 then v % 256 else Digit(v / 256, i - 1)
  }

  function Le(v: nat, n: nat): (b: Bytes)
    ensures |b| == n
  {
    seq(n, i requires 0 <= i < n => Digit(v, i))
  }

  function FromLe(b: Bytes): nat {
    if b == [] then 0 else b[0] + 256 * FromLe(b[1..])
  }

  ghost function Pow256(n: nat): nat { if n == 0 then 1 else 256 * Pow256(n - 1) }

  lemma {:induction false} FromLeOfLe(v: nat, n: nat)
    requires v < Pow256(n)
    ensures FromLe(Le(v, n)) == v
  {
    if n == 0 {
    } else {
      FromLeOfLe(v / 256, n - 1);
      assert Le(v, n)[1..] == Le(v / 256, n - 1);
    }
  }

  lemma {:induction false} LeOfFromLe(b: Bytes)
    ensures FromLe(b) < Pow256(|b|)
    ensures Le(FromLe(b), |b|) == b
  {
    if b == [] {
    } else {
      LeOfFromLe(b[1..]);
      assert FromLe(b) % 256 == b[0] && FromLe(b) / 256 == FromLe(b[1..]);
      forall i | 0 <= i < |b| ensures Le(FromLe(b), |b|)[i] == b[i] {
        if i > 0 { assert Le(FromLe(b[1..]), |b| - 1)[i - 1] == b[1..][i - 1]; }
      }
    }
  }

  lemma Widths()
    ensures Pow256(2) == 65536 && Pow256(4) == POW32 && Pow256(8) == POW64
  {
    assert Pow256(3) == 256 * Pow256(2);
    assert Pow256(5) == 256 * Pow256(4) && Pow256(6) == 256 * Pow256(5) && Pow256(7) == 256 * Pow256(6);
  }

  predicate InI64(c: int) { 0 - POW63 <= c < POW63 }

  /** An i64's 64 bits, two's complement. */
  function ToBits(c: int): nat
    requires InI64(c)
  {
    if c < 0 then c + POW64 else c
  }

  function FromBits(n: nat): int { if n >= POW63 then n - POW64 else n }

  // -------------------------------------------------------------------- encode

  const MAGIC: Bytes := [0x54, 0x44, 0x42, 0x56]

  /** Values the fields' types hold. */
  ghost predicate Typed(d: Definition, utf8: Bytes -> bool) {
    && d.stamp < POW64 && d.width < POW64 && utf8(d.source) && utf8(d.sql)
    && (d.join.Some? ==> d.join.value.stamp < POW64 && InI64(d.join.value.ceiling) && utf8(d.join.value.dimension))
  }

  /** Every string's length fits its four-byte prefix. */
  predicate LengthsFit(d: Definition) {
    && |d.source| < POW32 && |d.sql| < POW32
    && (d.join.Some? ==> |d.join.value.dimension| < POW32)
  }

  /** A length cast to 32 bits. */
  function AsU32(n: nat): (r: nat)
    ensures r < POW32
  {
    if n < POW32 then n else n % POW32
  }

  /** The length cast to 32 bits, then the bytes. */
  function Text(s: Bytes): Bytes { Le(AsU32(|s|), 4) + s }

  function JoinPart(join: Option<JoinState>): Bytes
    requires join.Some? ==> InI64(join.value.ceiling)
  {
    if join.None? then []
    else Le(join.value.stamp, 8) + Le(ToBits(join.value.ceiling), 8) + Text(join.value.dimension)
  }

  function Version(d: Definition): nat { if d.join.Some? then 3 else 2 }

  function Header(d: Definition): (h: Bytes)
    ensures |h| == 22
  {
    MAGIC + Le(Version(d), 2) + Le(d.stamp, 8) + Le(d.width, 8)
  }

  function Tail(d: Definition): Bytes
    requires d.join.Some? ==> InI64(d.join.value.ceiling)
  {
    Text(d.source) + Text(d.sql) + JoinPart(d.join)
  }

  function Body(d: Definition): Bytes
    requires d.join.Some? ==> InI64(d.join.value.ceiling)
  {
    Header(d) + Tail(d)
  }

  function Encode(d: Definition, crc: Bytes -> nat): Bytes
    requires d.join.Some? ==> InI64(d.join.value.ceiling)
  {
    Body(d) + Le(crc(Body(d)), 4)
  }

  /** A string's prefix is its length, low 32 bits only; the bytes follow whole. */
  lemma PrefixIsLength(s: Bytes)
    ensures FromLe(Text(s)[..4]) == |s| % 0x1_0000_0000 && Text(s)[4..] == s
  {
    Widths();
    FromLeOfLe(AsU32(|s|), 4);
    assert Text(s)[..4] == Le(AsU32(|s|), 4);
  }

  /** The fixed header, byte by byte: "TDBV", the version, then the stamp and the
      width, least significant byte first. */
  lemma HeaderLayout(d: Definition, crc: Bytes -> nat)
    requires d.join.Some? ==> InI64(d.join.value.ceiling)
    requires d.stamp < POW64 && d.width < POW64
    ensures var b := Encode(d, crc);
            && |b| >= 26 && b[..4] == [84, 68, 66, 86]
            && b[4] == (if d.join.Some? then 3 else 2) && b[5] == 0
            && FromLe(b[6..14]) == d.stamp && FromLe(b[14..22]) == d.width
            && b[6] == d.stamp % 256 && b[14] == d.width % 256
  {
    var b, h := Encode(d, crc), Header(d);
    Widths();
    FromLeOfLe(d.stamp, 8);
    FromLeOfLe(d.width, 8);
    assert h[4] == Le(Version(d), 2)[0] == Digit(Version(d), 0);
    assert h[5] == Le(Version(d), 2)[1] == Digit(Version(d), 1);
    assert b[..22] == h;
    assert b[6..14] == h[6..14] == Le(d.stamp, 8) && b[14..22] == h[14..22] == Le(d.width, 8);
    assert b[6] == Le(d.stamp, 8)[0] && b[14] == Le(d.width, 8)[0];
  }

  // -------------------------------------------------------------------- decode

  datatype Read = Read(text: Bytes, at: nat)

  /** The string at `at`: a four-byte length, then that many bytes. */
  function ReadText(payload: Bytes, at: nat, part: Part, utf8: Bytes -> bool): (r: Result<Read>)
    requires at <= |payload|
    ensures r.Ok? ==> at + 4 + |r.value.text| == r.value.at <= |payload| && |r.value.text| < POW32 && utf8(r.value.text)
  {
    var lenEnd := at + 4;
    if lenEnd > |payload| then Err(TruncatedLength(part))
    else
      var len := FromLe(payload[at..lenEnd]);
      Widths();
      LeOfFromLe(payload[at..lenEnd]);
      var end := lenEnd + len;
      if end > |payload| then Err(TruncatedText(part))
      else if !utf8(payload[lenEnd..end]) then Err(NotUtf8(part))
      else Ok(Read(payload[lenEnd..end], end))
  }

  function ReadJoin(payload: Bytes, at: nat, utf8: Bytes -> bool): (r: Result<JoinState>)
    requires at <= |payload|
  {
    var fixedEnd := at + 16;
    if fixedEnd > |payload| then Err(TruncatedJoin)
    else
      var stamp := FromLe(payload[at..at + 8]);
      var ceiling := FromBits(FromLe(payload[at + 8..fixedEnd]));
      match ReadText(payload, fixedEnd, Dimension, utf8)
      case Err(e) => Err(e)
      case Ok(dimension) => Ok(JoinState(dimension.text, stamp, ceiling))
  }

  /** Everything after the fixed header, the width already read. */
  function ReadRest(payload: Bytes, version: nat, stamp: nat, width: nat, at: nat,
                    utf8: Bytes -> bool): (r: Result<Definition>)
    requires at <= |payload|
  {
    match ReadText(payload, at, Source, utf8)
    case Err(e) => Err(e)
    case Ok(source) =>
      match ReadText(payload, source.at, Sql, utf8)
      case Err(e) => Err(e)
      case Ok(sql) =>
        if version != 3 then Ok(Definition(stamp, width, source.text, sql.text, None))
        else
          match ReadJoin(payload, sql.at, utf8)
          case Err(e) => Err(e)
          case Ok(join) => Ok(Definition(stamp, width, source.text, sql.text, Some(join)))
  }

  /** Decodes any byte sequence whatever, or says what is wrong with it. */
  function Decode(bytes: Bytes, crc: Bytes -> nat, utf8: Bytes -> bool): Result<Definition> {
    if |bytes| < 26 then Err(Truncated)
    else
      var payload := bytes[..|bytes| - 4];
      if crc(payload) != FromLe(bytes[|bytes| - 4..]) then Err(ChecksumMismatch)
      else if payload[..4] != MAGIC then Err(BadMagic)
      else
        var version := FromLe(payload[4..6]);
        if version < 1 || version > 3 then Err(UnknownVersion(version))
        else
          var stamp := FromLe(payload[6..14]);
          if version < 2 then ReadRest(payload, version, stamp, 0, 14, utf8)
          else if |payload| < 22 then Err(TruncatedWidth)
          else ReadRest(payload, version, stamp, FromLe(payload[14..22]), 22, utf8)
  }

  // ---------------------------------------------------------------- round trips

  /** A string written at `at` reads back when its length fits. */
  lemma TextReadsBack(payload: Bytes, at: nat, s: Bytes, part: Part, utf8: Bytes -> bool)
    requires |s| < POW32 && utf8(s) && at + 4 + |s| <= |payload|
    requires payload[at..at + 4 + |s|] == Text(s)
    ensures ReadText(payload, at, part, utf8) == Ok(Read(s, at + 4 + |s|))
  {
    TextAt(payload, at, s);
    ReadsWhereWritten(payload, at, s, part, utf8);
  }

  lemma TextAt(payload: Bytes, at: nat, s: Bytes)
    requires |s| < POW32 && at + 4 + |s| <= |payload| && payload[at..at + 4 + |s|] == Text(s)
    ensures payload[at..at + 4] == Le(|s|, 4) && payload[at + 4..at + 4 + |s|] == s
  {
    SplitAfter(payload, at, Le(|s|, 4), s);
  }

  lemma SplitAfter(payload: Bytes, at: nat, p: Bytes, s: Bytes)
    requires at + |p| + |s| <= |payload| && payload[at..at + |p| + |s|] == p + s
    ensures payload[at..at + |p|] == p && payload[at + |p|..at + |p| + |s|] == s
  {
    var t := payload[at..at + |p| + |s|];
    assert payload[at..at + |p|] == t[..|p|];
    assert payload[at + |p|..at + |p| + |s|] == t[|p|..];
  }

  lemma ReadsWhereWritten(payload: Bytes, at: nat, s: Bytes, part: Part, utf8: Bytes -> bool)
    requires |s| < POW32 && utf8(s) && at + 4 + |s| <= |payload|
    requires payload[at..at + 4] == Le(|s|, 4) && payload[at + 4..at + 4 + |s|] == s
    ensures ReadText(payload, at, part, utf8) == Ok(Read(s, at + 4 + |s|))
  {
    Widths();
    FromLeOfLe(|s|, 4);
  }

  /** What was read is what was written there. */
  lemma TextIsRead(payload: Bytes, at: nat, part: Part, utf8: Bytes -> bool)
    requires at <= |payload| && ReadText(payload, at, part, utf8).Ok?
    ensures var read := ReadText(payload, at, part, utf8).value; payload[at..read.at] == Text(read.text)
  {
    var read := ReadText(payload, at, part, utf8).value;
    Widths();
    LeOfFromLe(payload[at..at + 4]);
    assert payload[at..read.at] == payload[at..at + 4] + payload[at + 4..read.at];
  }

  lemma PrefixSlice(s: Bytes, t: Bytes, n: nat, m: nat)
    requires s <= t && n <= m <= |s|
    ensures t[n..m] == s[n..m]
  {
  }

  lemma PrefixRest(s: Bytes, t: Bytes, n: nat)
    requires s <= t && n <= |s|
    ensures s[n..] <= t[n..]
  {
  }

  lemma SliceOfRest(payload: Bytes, at: nat, n: nat, m: nat)
    requires at <= |payload| && n <= m <= |payload| - at
    ensures payload[at + n..at + m] == payload[at..][n..m] && payload[at + m..] == payload[at..][m..]
  {
  }

  /** What starts the payload at `at` is found there, piece by piece. */
  lemma Piece(s: Bytes, payload: Bytes, at: nat, n: nat, m: nat)
    requires at <= |payload| && s <= payload[at..] && n <= m <= |s|
    ensures payload[at + n..at + m] == s[n..m] && s[m..] <= payload[at + m..]
  {
    SliceOfRest(payload, at, n, m);
    PrefixSlice(s, payload[at..], n, m);
    PrefixRest(s, payload[at..], m);
  }

  lemma Parts(a: Bytes, b: Bytes, c: Bytes)
    ensures var s := a + b + c; s[0..|a|] == a && s[|a|..|a| + |b|] == b && s[|a| + |b|..] == c
  {
  }

  lemma JoinReadsBack(payload: Bytes, at: nat, j: JoinState, utf8: Bytes -> bool)
    requires j.stamp < POW64 && InI64(j.ceiling) && utf8(j.dimension) && |j.dimension| < POW32
    requires at <= |payload| && JoinPart(Some(j)) <= payload[at..]
    ensures ReadJoin(payload, at, utf8) == Ok(j)
  {
    Widths();
    FromLeOfLe(j.stamp, 8);
    FromLeOfLe(ToBits(j.ceiling), 8);
    var part := JoinPart(Some(j));
    Parts(Le(j.stamp, 8), Le(ToBits(j.ceiling), 8), Text(j.dimension));
    Piece(part, payload, at, 0, 8);
    Piece(part, payload, at, 8, 16);
    Piece(part, payload, at, 16, |part|);
    assert part[16..|part|] == part[16..];
    TextReadsBack(payload, at + 16, j.dimension, Dimension, utf8);
  }

  lemma TailPieces(payload: Bytes, at: nat, d: Definition, n: nat, m: nat)
    requires d.join.Some? ==> InI64(d.join.value.ceiling)
    requires at <= |payload| && Tail(d) <= payload[at..] && n == |Text(d.source)| && m == n + |Text(d.sql)|
    ensures at + m <= |payload| && payload[at..at + n] == Text(d.source) && payload[at + n..at + m] == Text(d.sql)
    ensures JoinPart(d.join) <= payload[at + m..]
  {
    Parts(Text(d.source), Text(d.sql), JoinPart(d.join));
    Piece(Tail(d), payload, at, 0, n);
    Piece(Tail(d), payload, at, n, m);
  }

  lemma RestReadsBack(payload: Bytes, at: nat, d: Definition, utf8: Bytes -> bool)
    requires Typed(d, utf8) && LengthsFit(d) && at <= |payload| && Tail(d) <= payload[at..]
    ensures ReadRest(payload, Version(d), d.stamp, d.width, at, utf8) == Ok(d)
  {
    var n := 4 + |d.source|;
    var m := n + 4 + |d.sql|;
    TailPieces(payload, at, d, n, m);
    TextReadsBack(payload, at, d.source, Source, utf8);
    TextReadsBack(payload, at + n, d.sql, Sql, utf8);
    if d.join.Some? { JoinReadsBack(payload, at + m, d.join.value, utf8); }
  }

  /** The header's fields, where the encoder puts them. */
  lemma HeaderReadsBack(d: Definition)
    requires d.stamp < POW64 && d.width < POW64
    ensures Header(d)[..4] == MAGIC && FromLe(Header(d)[4..6]) == Version(d)
    ensures FromLe(Header(d)[6..14]) == d.stamp && FromLe(Header(d)[14..22]) == d.width
  {
    Widths();
    FromLeOfLe(Version(d), 2);
    FromLeOfLe(d.stamp, 8);
    FromLeOfLe(d.width, 8);
    HeaderParts(MAGIC, Le(Version(d), 2), Le(d.stamp, 8), Le(d.width, 8));
  }

  lemma HeaderParts(magic: Bytes, version: Bytes, stamp: Bytes, width: Bytes)
    requires |magic| == 4 && |version| == 2 && |stamp| == 8 && |width| == 8
    ensures var h := magic + version + stamp + width;
            h[..4] == magic && h[4..6] == version && h[6..14] == stamp && h[14..22] == width
  {
  }

  lemma SliceOfHeader(h: Bytes, t: Bytes, n: nat, m: nat)
    requires n <= m <= |h|
    ensures (h + t)[n..m] == h[n..m]
  {
  }

  /** A payload that starts with a definition's body has its header's fields where
      the decoder looks, and its tail after them. */
  lemma BodyReadsBack(d: Definition, payload: Bytes, utf8: Bytes -> bool)
    requires Typed(d, utf8) && Body(d) <= payload
    ensures |payload| >= 30 && payload[..4] == MAGIC && FromLe(payload[4..6]) == Version(d)
    ensures FromLe(payload[6..14]) == d.stamp && FromLe(payload[14..22]) == d.width && Tail(d) <= payload[22..]
  {
    HeaderReadsBack(d);
    var h, t := Header(d), Tail(d);
    assert payload[0..] == payload;
    Piece(h + t, payload, 0, 0, 4);
    Piece(h + t, payload, 0, 4, 6);
    Piece(h + t, payload, 0, 6, 14);
    Piece(h + t, payload, 0, 14, 22);
    SliceOfHeader(h, t, 0, 4);
    SliceOfHeader(h, t, 4, 6);
    SliceOfHeader(h, t, 6, 14);
    SliceOfHeader(h, t, 14, 22);
    assert (h + t)[22..] == t;
  }

  /** Exactly which bytes decode to a definition, version 1 apart: the checksum
      matches, the payload starts with the definition's own encoding, and every
      string's length fits the four bytes it is written in. */
  lemma DecodesExactly(bytes: Bytes, d: Definition, crc: Bytes -> nat, utf8: Bytes -> bool)
    requires |bytes| >= 26 ==> FromLe(bytes[4..6]) != 1
    ensures Decode(bytes, crc, utf8) == Ok(d)
       <==> |bytes| >= 26 && crc(bytes[..|bytes| - 4]) == FromLe(bytes[|bytes| - 4..])
            && Typed(d, utf8) && LengthsFit(d) && Body(d) <= bytes[..|bytes| - 4]
  {
    if |bytes| >= 26 {
      var payload := bytes[..|bytes| - 4];
      if Decode(bytes, crc, utf8) == Ok(d) {
        DecodedIsPrefix(bytes, crc, utf8);
        DecodedLengthsFit(bytes, crc, utf8);
      } else if Typed(d, utf8) && LengthsFit(d) && Body(d) <= payload {
        BodyReadsBack(d, payload, utf8);
        RestReadsBack(payload, 22, d, utf8);
      }
    }
  }

  /** Decoding an encoded definition gives it back, exactly when every string's
      length fits. */
  lemma RoundTrip(d: Definition, crc: Bytes -> nat, utf8: Bytes -> bool)
    requires Typed(d, utf8) && crc(Body(d)) < POW32
    ensures Decode(Encode(d, crc), crc, utf8) == Ok(d) <==> LengthsFit(d)
  {
    var b, e := Body(d), Encode(d, crc);
    Widths();
    FromLeOfLe(crc(b), 4);
    assert e[..|e| - 4] == b && e[|e| - 4..] == Le(crc(b), 4);
    BodyReadsBack(d, b, utf8);
    assert e[4..6] == b[4..6];
    DecodesExactly(e, d, crc, utf8);
  }

  /** Whatever decodes has lengths its prefixes could hold. */
  lemma DecodedLengthsFit(bytes: Bytes, crc: Bytes -> nat, utf8: Bytes -> bool)
    ensures Decode(bytes, crc, utf8).Ok? ==> LengthsFit(Decode(bytes, crc, utf8).value)
  {
  }

  /** A record written before the width field decodes with width 0. */
  lemma LegacyReadsBack(d: Definition, crc: Bytes -> nat, utf8: Bytes -> bool)
    requires Typed(d, utf8) && LengthsFit(d) && d.join.None?
    requires crc(LegacyBody(d)) < POW32
    ensures Decode(LegacyBody(d) + Le(crc(LegacyBody(d)), 4), crc, utf8) == Ok(d.(width := 0))
  {
    var b, h, t := LegacyBody(d), MAGIC + Le(1, 2) + Le(d.stamp, 8), Tail(d);
    Widths();
    FromLeOfLe(1, 2);
    FromLeOfLe(d.stamp, 8);
    FromLeOfLe(crc(b), 4);
    assert h[4..6] == Le(1, 2) && h[6..14] == Le(d.stamp, 8);
    SliceOfHeader(h, t, 0, 4);
    SliceOfHeader(h, t, 4, 6);
    SliceOfHeader(h, t, 6, 14);
    assert b[14..] == t;
    RestReadsBack(b, 14, d, utf8);
    VersionOneReads(b, d, utf8);
    var e := b + Le(crc(b), 4);
    assert e[..|e| - 4] == b && e[|e| - 4..] == Le(crc(b), 4);
  }

  /** Version 1's layout: no width. */
  function LegacyBody(d: Definition): Bytes
    requires d.join.None?
  {
    MAGIC + Le(1, 2) + Le(d.stamp, 8) + Tail(d)
  }

  lemma VersionOneReads(payload: Bytes, d: Definition, utf8: Bytes -> bool)
    requires Typed(d, utf8) && d.join.None? && 14 <= |payload|
    requires ReadRest(payload, 2, d.stamp, d.width, 14, utf8) == Ok(d)
    ensures ReadRest(payload, 1, d.stamp, 0, 14, utf8) == Ok(d.(width := 0))
  {
  }

  lemma BitsBack(n: nat)
    requires n < POW64
    ensures InI64(FromBits(n)) && ToBits(FromBits(n)) == n
  {
  }

  lemma JoinIsPrefix(payload: Bytes, at: nat, utf8: Bytes -> bool)
    requires at <= |payload| && ReadJoin(payload, at, utf8).Ok?
    ensures var j := ReadJoin(payload, at, utf8).value;
            j.stamp < POW64 && InI64(j.ceiling) && utf8(j.dimension) && JoinPart(Some(j)) <= payload[at..]
  {
    var j := ReadJoin(payload, at, utf8).value;
    Widths();
    LeOfFromLe(payload[at..at + 8]);
    LeOfFromLe(payload[at + 8..at + 16]);
    BitsBack(FromLe(payload[at + 8..at + 16]));
    var end := ReadText(payload, at + 16, Dimension, utf8).value.at;
    TextIsRead(payload, at + 16, Dimension, utf8);
    JoinSplits(payload, at, end);
  }

  lemma JoinSplits(payload: Bytes, at: nat, end: nat)
    requires at + 16 <= end <= |payload|
    ensures payload[at..at + 8] + payload[at + 8..at + 16] + payload[at + 16..end] <= payload[at..]
  {
  }

  lemma RestIsPrefix(payload: Bytes, version: nat, stamp: nat, width: nat, at: nat, utf8: Bytes -> bool)
    requires at <= |payload| && ReadRest(payload, version, stamp, width, at, utf8).Ok?
    ensures var d := ReadRest(payload, version, stamp, width, at, utf8).value;
            d.stamp == stamp && d.width == width && (d.join.Some? <==> version == 3)
            && (stamp < POW64 && width < POW64 ==> Typed(d, utf8))
            && (d.join.Some? ==> InI64(d.join.value.ceiling)) && Tail(d) <= payload[at..]
  {
    var source := ReadText(payload, at, Source, utf8).value;
    var sql := ReadText(payload, source.at, Sql, utf8).value;
    TextIsRead(payload, at, Source, utf8);
    TextIsRead(payload, source.at, Sql, utf8);
    if version == 3 { JoinIsPrefix(payload, sql.at, utf8); }
    ThreeParts(payload, at, source.at, sql.at);
    var d := ReadRest(payload, version, stamp, width, at, utf8).value;
    StartsWith(Text(d.source), Text(d.sql), JoinPart(d.join), payload[sql.at..]);
  }

  lemma ThreeParts(payload: Bytes, a: nat, b: nat, c: nat)
    requires a <= b <= c <= |payload|
    ensures payload[a..] == payload[a..b] + payload[b..c] + payload[c..]
  {
  }

  lemma StartsWith(a: Bytes, b: Bytes, c: Bytes, rest: Bytes)
    requires c <= rest
    ensures a + b + c <= a + b + rest
  {
  }

  /** Nothing is misread: a current-format record that decodes is the encoding of
      what it decodes to, perhaps with bytes after it. */
  lemma DecodedIsPrefix(bytes: Bytes, crc: Bytes -> nat, utf8: Bytes -> bool)
    requires Decode(bytes, crc, utf8).Ok? && FromLe(bytes[4..6]) != 1
    ensures var d := Decode(bytes, crc, utf8).value;
            Typed(d, utf8) && Body(d) <= bytes[..|bytes| - 4]
  {
    var payload, d := bytes[..|bytes| - 4], Decode(bytes, crc, utf8).value;
    assert payload[4..6] == bytes[4..6];
    LeOfFromLe(payload[4..6]);
    LeOfFromLe(payload[6..14]);
    LeOfFromLe(payload[14..22]);
    Widths();
    RestIsPrefix(payload, FromLe(payload[4..6]), d.stamp, d.width, 22, utf8);
    assert payload[..22] == payload[..4] + payload[4..6] + payload[6..14] + payload[14..22];
    assert payload == payload[..22] + payload[22..];
  }
}
