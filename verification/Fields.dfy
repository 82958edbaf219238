/**
  One input parameter on the wire: ParameterField.prmSize and encodePrm
  (driver/internal/protocol/parameter.go) with the field encoders and sizes they use
  (driver/internal/protocol/encoding/encode.go, field.go).
 */
module Fields {
  import opened Bytes
  import opened Cesu8
  import opened Cesu8Text
  import opened Decimal
  import opened Datetime
  import opened LobWrite
  import opened Headers
  import opened FieldValues
  import DecimalFields
  import DecimalWire

  /** The type codes of input parameters. */
  datatype TypeCode =
    | TcTinyint | TcSmallint | TcInteger | TcBigint | TcDecimal | TcReal | TcDouble
    | TcChar | TcVarchar | TcNchar | TcNvarchar | TcBinary | TcVarbinary
    | TcDate | TcTime | TcTimestamp | TcClob | TcNclob | TcBlob | TcBoolean
    | TcString | TcNstring | TcLocator | TcNlocator | TcBstring
    | TcText | TcShorttext | TcBintext | TcAlphanum
    | TcLongdate | TcSeconddate | TcDaydate | TcSecondtime
    | TcStGeometry | TcStPoint | TcFixed16 | TcFixed8 | TcFixed12

  function Code(tc: TypeCode): (c: byte)
    ensures c < 0x80
  {
    match tc
    case TcTinyint => 0x01 case TcSmallint => 0x02 case TcInteger => 0x03 case TcBigint => 0x04
    case TcDecimal => 0x05 case TcReal => 0x06 case TcDouble => 0x07 case TcChar => 0x08
    case TcVarchar => 0x09 case TcNchar => 0x0A case TcNvarchar => 0x0B case TcBinary => 0x0C
    case TcVarbinary => 0x0D case TcDate => 0x0E case TcTime => 0x0F case TcTimestamp => 0x10
    case TcClob => 0x19 case TcNclob => 0x1A case TcBlob => 0x1B case TcBoolean => 0x1C
    case TcString => 0x1D case TcNstring => 0x1E case TcLocator => 0x1F case TcNlocator => 0x20
    case TcBstring => 0x21 case TcText => 0x33 case TcShorttext => 0x34 case TcBintext => 0x35
    case TcAlphanum => 0x37 case TcLongdate => 0x3D case TcSeconddate => 0x3E case TcDaydate => 0x3F
    case TcSecondtime => 0x40 case TcStGeometry => 0x4A case TcStPoint => 0x4B case TcFixed16 => 0x4C
    case TcFixed8 => 0x51 case TcFixed12 => 0x52
  }

  /** encTc: the code sent with a value. */
  function EncCode(tc: TypeCode): (c: byte)
    ensures c < 0x80
  {
    if tc in {TcText, TcBintext, TcLocator} then Code(TcNclob) else Code(tc)
  }

  /** The types in the order of their codes, in groups of consecutive ones. */
  const NUMBER_TYPES: seq<TypeCode> := [TcTinyint, TcSmallint, TcInteger, TcBigint, TcDecimal, TcReal, TcDouble]
  const STRING_TYPES: seq<TypeCode> := [TcChar, TcVarchar, TcNchar, TcNvarchar, TcBinary, TcVarbinary]
  const DATE_TYPES: seq<TypeCode> := [TcDate, TcTime, TcTimestamp]
  const LARGE_TYPES: seq<TypeCode> :=
    [TcClob, TcNclob, TcBlob, TcBoolean, TcString, TcNstring, TcLocator, TcNlocator, TcBstring]
  const TEXT_TYPES: seq<TypeCode> := [TcText, TcShorttext, TcBintext]
  const TIME_TYPES: seq<TypeCode> := [TcLongdate, TcSeconddate, TcDaydate, TcSecondtime]
  const GEO_TYPES: seq<TypeCode> := [TcStGeometry, TcStPoint, TcFixed16]

  lemma NumberCodes()
    ensures forall i :: 0 <= i < |NUMBER_TYPES| ==> Code(NUMBER_TYPES[i]) == 1 + i
  {
  }

  lemma StringCodes()
    ensures forall i :: 0 <= i < |STRING_TYPES| ==> Code(STRING_TYPES[i]) == 8 + i
  {
  }

  lemma DateCodes()
    ensures forall i :: 0 <= i < |DATE_TYPES| ==> Code(DATE_TYPES[i]) == 14 + i
    ensures forall i :: 0 <= i < |TIME_TYPES| ==> Code(TIME_TYPES[i]) == 61 + i
  {
  }

  lemma LargeCodes()
    ensures forall i :: 0 <= i < |LARGE_TYPES| ==> Code(LARGE_TYPES[i]) == 25 + i
  {
  }

  lemma OtherCodes()
    ensures forall i :: 0 <= i < |TEXT_TYPES| ==> Code(TEXT_TYPES[i]) == 51 + i
    ensures forall i :: 0 <= i < |GEO_TYPES| ==> Code(GEO_TYPES[i]) == 74 + i
    ensures Code(TcAlphanum) == 55 && Code(TcFixed8) == 81 && Code(TcFixed12) == 82
  {
  }

  /** Null sets the high bit of the code, but for times of day; three LOB types are sent as NCLOB. */
  lemma SentCodes(t: TypeCode)
    ensures NullCode(t) == if t == TcSecondtime then 176 else Code(t) + 128
    ensures EncCode(t) == if t == TcText || t == TcBintext || t == TcLocator then 26 else Code(t)
  {
  }

  /** nullValue: the code sent instead of a value. */
  function NullCode(tc: TypeCode): (c: byte)
    ensures c >= 0x80
  {
    if tc == TcSecondtime then 0xB0 else Code(tc) + 0x80
  }

  /** The encodings that the case distinctions of prmSize and encodePrm group the type codes into. */
  datatype Kind = Plain(width: nat) | DecimalKind | FixedKind(size: nat) | VarKind | Cesu8Kind | HexKind | LobKind

  function KindOf(tc: TypeCode): (k: Kind)
    ensures k.FixedKind? ==> DecimalWire.FixedSize(k.size)
  {
    match tc
    case TcBoolean | TcTinyint => Plain(1)
    case TcSmallint => Plain(2)
    case TcInteger | TcReal | TcDate | TcTime | TcDaydate | TcSecondtime => Plain(4)
    case TcBigint | TcDouble | TcTimestamp | TcLongdate | TcSeconddate => Plain(8)
    case TcDecimal => DecimalKind
    case TcFixed8 => FixedKind(8)
    case TcFixed12 => FixedKind(12)
    case TcFixed16 => FixedKind(16)
    case TcChar | TcVarchar | TcString | TcBstring | TcAlphanum | TcBinary | TcVarbinary => VarKind
    case TcNchar | TcNvarchar | TcNstring | TcShorttext => Cesu8Kind
    case TcStPoint | TcStGeometry => HexKind
    case TcBlob | TcClob | TcLocator | TcNclob | TcText | TcNlocator | TcBintext => LobKind
  }

  /** The types of text in CESU-8, of bytes, of hexadecimal digits and of LOBs; the others have a fixed width. */
  lemma KindsMean(tc: TypeCode)
    ensures KindOf(tc).Cesu8Kind? <==> tc in {TcNchar, TcNvarchar, TcNstring, TcShorttext}
    ensures KindOf(tc).VarKind? <==> tc in {TcChar, TcVarchar, TcString, TcBstring, TcAlphanum, TcBinary, TcVarbinary}
    ensures KindOf(tc).HexKind? <==> tc in {TcStPoint, TcStGeometry}
    ensures KindOf(tc).LobKind? <==> tc in {TcBlob, TcClob, TcLocator, TcNclob, TcText, TcNlocator, TcBintext}
    ensures KindOf(tc).DecimalKind? <==> tc == TcDecimal
    ensures KindOf(tc).FixedKind? ==>
              KindOf(tc).size == if tc == TcFixed8 then 8 else if tc == TcFixed12 then 12 else 16
  {
  }

  datatype ParameterField = ParameterField(tc: TypeCode, input: bool, prec: nat, scale: nat)

  /**
    A converted argument. A float is given by its IEEE 754 bits, as binary64 and rounded to binary32;
    `str` tells a string from a byte slice.
   */
  datatype Prm =
    | Nil | Bool(b: bool) | Int(i: int) | Float(bits64: nat, bits32: nat) | Instant(t: Time)
    | Number(x: Rat) | Data(p: seq<byte>, str: bool) | Lob(d: LobInDescr)

  predicate PlainTyped(tc: TypeCode, v: Prm)
  {
    if tc == TcBoolean then v.Bool?
    else if tc in {TcTinyint, TcSmallint, TcInteger, TcBigint} then v.Int?
    else if tc in {TcReal, TcDouble} then v.Float?
    else v.Instant? && Dated(v.t)
  }

  predicate KindTyped(k: Kind, v: Prm, prec: nat)
  {
    match k
    case Plain(_) => !v.Lob?
    case DecimalKind => v.Number? && v.x.den >= 1
    case FixedKind(size) =>
      && v.Number? && v.x.den >= 1 && DecimalWire.FixedSize(size)
      && prec <= if size == 8 then 18 else if size == 12 then 28 else 38
    case VarKind => v.Data?
    case Cesu8Kind => v.Data?
    case HexKind => v.Data? && |v.p| % 2 == 0
    case LobKind => v.Lob?
  }

  /** The Go types that the conversion of the arguments leaves for a type code; anything else panics. */
  predicate Typed(f: ParameterField, v: Prm)
  {
    v.Nil? || (KindTyped(KindOf(f.tc), v, f.prec) && (KindOf(f.tc).Plain? ==> PlainTyped(f.tc, v)))
  }

  function VarSize(size: nat): (n: int)
  {
    if size <= 245 then size + 1
    else if size <= MAX_INT16 then size + 3
    else if size <= MAX_INT32 then size + 5
    else -1
  }

  function TextSize(v: Prm): (n: nat)
    requires v.Data?
  {
    if v.str then CesuStringSize(v.p) else CesuSize(v.p)
  }

  const LOB_INPUT_PARAMETERS_SIZE: nat := 9

  function KindSize(k: Kind, v: Prm, ghost prec: nat): (n: int)
    requires k.Plain? || KindTyped(k, v, prec)
  {
    match k
    case Plain(width) => width
    case DecimalKind => DecimalWire.DEC_SIZE
    case FixedKind(size) => size
    case VarKind => VarSize(|v.p|)
    case Cesu8Kind => VarSize(TextSize(v))
    case HexKind => VarSize(|v.p| / 2)
    case LobKind => LOB_INPUT_PARAMETERS_SIZE
  }

  /** A value is sent as such; only the boolean null is a value of its type. */
  predicate Sent(f: ParameterField, v: Prm)
  {
    !v.Nil? || f.tc == TcBoolean
  }

  /** prmSize, without the byte for the type code. */
  function PrmSize(f: ParameterField, v: Prm): (n: int)
    requires Typed(f, v)
  {
    if Sent(f, v) then KindSize(KindOf(f.tc), v, f.prec) else 0
  }

  // ---------------------------------------------------------------- variable length fields

  /** varFieldInd of the encoder: the length indicator, in one, three or five bytes. */
  function VarInd(size: nat): (s: seq<byte>)
    requires size <= MAX_INT32
    ensures |s| + size == VarSize(size)
  {
    if size <= 245 then [size]
    else if size <= MAX_INT16 then [246] + LE(size, 2)
    else [247] + LE(size, 4)
  }

  /** Up to 245 the length itself; then 246 and two bytes, or 247 and four. */
  lemma IndBytes()
    ensures VarInd(0) == [0] && VarInd(245) == [245] && VarInd(246) == [246, 246, 0]
    ensures VarInd(0x7fff) == [246, 0xff, 0x7f] && VarInd(0x8000) == [247, 0, 0x80, 0, 0]
  {
    assert LE(0, 1) == [0] && LE(127, 1) == [127] && LE(128, 3) == [128] + LE(0, 2) && LE(0, 2) == [0] + LE(0, 1);
  }

  /** LIBytes and LIString. */
  function Prefixed(p: seq<byte>): (r: Option<seq<byte>>)
  {
    if |p| <= MAX_INT32 then Some(VarInd(|p|) + p) else None
  }

  /** varFieldInd of the decoder. */
  datatype Ind = Ind(n: nat, size: int, isNull: bool)

  function ReadInd(rd: seq<byte>): (r: Ind)
    requires |rd| >= 1
    requires rd[0] == 246 ==> |rd| >= 3
    requires rd[0] == 247 ==> |rd| >= 5
  {
    if rd[0] == 255 then Ind(1, 0, true)
    else if rd[0] <= 245 then Ind(1, rd[0], false)
    else if rd[0] == 246 then Ind(3, Signed(LEValue(rd[1..3]), 2), false)
    else if rd[0] == 247 then Ind(5, Signed(LEValue(rd[1..5]), 4), false)
    else Ind(1, 0, false)
  }

  /** The decoder reads the length that the encoder wrote, and never takes it for null. */
  lemma IndRoundTrip(size: nat, rest: seq<byte>)
    requires size <= MAX_INT32
    ensures var s := VarInd(size) + rest;
            && (s[0] == 246 ==> |s| >= 3) && (s[0] == 247 ==> |s| >= 5)
            && ReadInd(s) == Ind(|VarInd(size)|, size, false)
  {
    var s := VarInd(size) + rest;
    if 245 < size <= MAX_INT16 {
      assert s[1..3] == LE(size, 2);
      SmallPowers();
      SignedRoundTrip(size, 2);
    } else if MAX_INT16 < size {
      assert s[1..5] == LE(size, 4);
      SmallPowers();
      SignedRoundTrip(size, 4);
    }
  }

  lemma SmallPowers()
    ensures Pow256(2) == 65536 && Pow256(4) == 4294967296
  {
    assert Pow256(1) == 256 && Pow256(2) == 65536 && Pow256(3) == 16777216;
  }

  /** varFieldInd of the decoder, reading. */
  method DecodeInd(d: Decoder) returns (r: Ind)
    modifies d
    ensures var s := old(d.rd);
            !old(d.err) && |s| >= 1 && (s[0] == 246 ==> |s| >= 3) && (s[0] == 247 ==> |s| >= 5) ==>
              d.Advanced(ReadInd(s).n) && r == ReadInd(s)
  {
    ghost var s := d.rd;
    var ind := d.Uint(1);
    assert old(d.Has(1)) ==> s[..1] == [s[0]] && LEValue([s[0]]) == s[0];
    if ind == 255 {
      r := Ind(1, 0, true);
    } else if ind <= 245 {
      r := Ind(1, ind, false);
    } else if ind == 246 {
      var v := d.Int(2);
      assert old(d.Has(3)) ==> s[1..][..2] == s[1..3] && s[1..][2..] == s[3..];
      r := Ind(3, v, false);
    } else if ind == 247 {
      var v := d.Int(4);
      assert old(d.Has(5)) ==> s[1..][..4] == s[1..5] && s[1..][4..] == s[5..];
      r := Ind(5, v, false);
    } else {
      r := Ind(1, 0, false);
    }
  }

  /**
    LIBytes of the decoder: what LIBytes of the encoder wrote is read back, and the bytes after it are
    left. (A negative length makes the source's make panic; it is read as no bytes here.)
   */
  method DecodeLIBytes(d: Decoder, ghost p: seq<byte>, ghost rest: seq<byte>) returns (n: int, b: Option<seq<byte>>)
    modifies d
    ensures |p| <= MAX_INT32 && old(!d.err && d.rd == VarInd(|p|) + p + rest) ==>
              b == Some(p) && d.rd == rest && n == VarSize(|p|) && !d.err && d.cnt == old(d.cnt) + n
  {
    ghost var s := d.rd;
    ghost var good := |p| <= MAX_INT32 && !d.err && s == VarInd(|p|) + p + rest;
    if good {
      Assoc(VarInd(|p|), p, rest);
      IndRoundTrip(|p|, p + rest);
    }
    var ind := DecodeInd(d);
    assert good ==> d.rd == p + rest;
    if ind.isNull || ind.size < 0 {
      return ind.n, None;
    }
    var data := d.ReadFull(ind.size);
    n, b := ind.n + ind.size, Some(data);
  }

  // ---------------------------------------------------------------- encodePrm

  /** What the encoding of a LOB parameter shows of its descriptor. */
  datatype LobView = Absent | LobView(opt: byte, buf: seq<byte>, pos: int)

  function View(v: Prm): (w: LobView)
    reads if v.Lob? then {v.d} else {}
  {
    if v.Lob? then LobView(v.d.Opt(), v.d.buf, v.d.pos) else Absent
  }

  /** The fields of fixed width: booleans, integers, floats, dates and times. */
  function PlainBytes(f: ParameterField, v: Prm): (s: seq<byte>)
    requires Typed(f, v) && KindOf(f.tc).Plain? && Sent(f, v)
    ensures |s| == KindOf(f.tc).width
  {
    match f.tc
    case TcBoolean => [if v.Nil? then 1 else if v.b then 2 else 0]
    case TcTinyint => LE(v.i, 1)
    case TcSmallint => LE(v.i, 2)
    case TcInteger => LE(v.i, 4)
    case TcBigint => LE(v.i, 8)
    case TcReal => LE(v.bits32, 4)
    case TcDouble => LE(v.bits64, 8)
    case TcDate => DateBytes(v.t)
    case TcTime => TimeBytes(v.t)
    case TcTimestamp => DateBytes(v.t) + TimeBytes(v.t)
    case TcLongdate => LE(TimeToLongdate(v.t), 8)
    case TcSeconddate => LE(TimeToSeconddate(v.t), 8)
    case TcDaydate => LE(TimeToDaydate(v.t), 4)
    case TcSecondtime => LE(TimeToSecondtime(v.t), 4)
  }

  /** False is 0, null 1 and true 2. */
  lemma BooleanBytes(f: ParameterField)
    requires f.tc == TcBoolean
    ensures PlainBytes(f, Bool(false)) == [0] && PlainBytes(f, Nil) == [1] && PlainBytes(f, Bool(true)) == [2]
  {
  }

  // ---------------------------------------------------------------- what a reader of the field gets

  /** The decoder of a field of fixed width, applied to the bytes after the type code. */
  function ReadPlain(tc: TypeCode, s: seq<byte>): (g: Got)
    requires KindOf(tc).Plain? && |s| == KindOf(tc).width
  {
    match tc
    case TcBoolean => ReadBoolean(s[0])
    case TcTinyint => IntValue(s[0])
    case TcSmallint | TcInteger | TcBigint => FieldValues.ReadInt(s)
    case TcReal | TcDouble => ReadFloat(s)
    case TcDate => ReadDateField(s)
    case TcTime => ReadTimeField(s)
    case TcTimestamp => ReadTimestampField(s)
    case TcLongdate => ReadLongdate(s)
    case TcSeconddate => ReadSeconddate(s)
    case TcDaydate => ReadDaydate(s, false)
    case TcSecondtime => ReadSecondtime(s)
  }

  /** The value as its type holds it: floats by their bits, times to the precision of the type. */
  function PlainValue(tc: TypeCode, v: Prm): (g: Got)
    requires KindOf(tc).Plain? && ((v.Nil? && tc == TcBoolean) || PlainTyped(tc, v))
  {
    match tc
    case TcBoolean => if v.Nil? then NullValue else BoolValue(v.b)
    case TcTinyint | TcSmallint | TcInteger | TcBigint => IntValue(v.i)
    case TcReal => BitsValue(v.bits32)
    case TcDouble => BitsValue(v.bits64)
    case TcDate | TcDaydate => TimeValue(Time(v.t.date, 0, 0, 0, 0))
    case TcTime => TimeValue(TruncatedTo(v.t, 1000000).(date := FIRST_DATE))
    case TcTimestamp => TimeValue(TruncatedTo(v.t, 1000000))
    case TcLongdate => TimeValue(TruncatedTo(v.t, 100))
    case TcSeconddate => TimeValue(TruncatedTo(v.t, 1000000000))
    case TcSecondtime => TimeValue(Time(FIRST_DATE, v.t.hour, v.t.minute, v.t.second, 0))
  }

  /** The values that a type holds. */
  predicate PlainFits(tc: TypeCode, v: Prm)
    requires KindOf(tc).Plain? && ((v.Nil? && tc == TcBoolean) || PlainTyped(tc, v))
  {
    match tc
    case TcBoolean | TcTime | TcSecondtime => true
    case TcTinyint => 0 <= v.i < 0x100
    case TcSmallint => -0x8000 <= v.i < 0x8000
    case TcInteger => -0x8000_0000 <= v.i < 0x8000_0000
    case TcBigint => -0x8000_0000_0000_0000 <= v.i < 0x8000_0000_0000_0000
    case TcReal => v.bits32 < 0xffff_ffff
    case TcDouble => v.bits64 < 0xffff_ffff_ffff_ffff
    case TcDate | TcTimestamp => 0 <= v.t.date.year < 0x4000
    case TcLongdate | TcSeconddate | TcDaydate => !Skipped(v.t.date)
  }

  /** The types whose codes are modelled for the years 1 to 9999. */
  predicate InYears(tc: TypeCode, v: Prm)
  {
    tc in {TcLongdate, TcSeconddate, TcDaydate} && v.Instant? ==> InRange(v.t)
  }

  /** The bytes s of a value are read as that value exactly if its type holds it. */
  ghost predicate ReadsBack(tc: TypeCode, v: Prm, s: seq<byte>)
    requires KindOf(tc).Plain? && ((v.Nil? && tc == TcBoolean) || PlainTyped(tc, v)) && |s| == KindOf(tc).width
  {
    ReadPlain(tc, s) == PlainValue(tc, v) <==> PlainFits(tc, v)
  }

  lemma {:induction false} PlainReadBack(f: ParameterField, v: Prm)
    requires Typed(f, v) && KindOf(f.tc).Plain? && Sent(f, v) && InYears(f.tc, v)
    ensures ReadsBack(f.tc, v, PlainBytes(f, v))
  {
    Widths();
    match f.tc
    case TcBoolean =>
    case TcTinyint => ByteBack(v.i);
    case TcSmallint => IntBack(v.i, B2);
    case TcInteger => IntBack(v.i, B4);
    case TcBigint => IntBack(v.i, B8);
    case TcReal => FloatBack(v.bits32, B4);
    case TcDouble => FloatBack(v.bits64, B8);
    case TcDate => DateFieldBack(v.t);
    case TcTime => TimeFieldBack(v.t);
    case TcTimestamp => TimestampFieldBack(v.t, PlainBytes(f, v));
    case TcLongdate => LongdateFieldBack(v.t);
    case TcSeconddate => SeconddateFieldBack(v.t);
    case TcDaydate => DaydateFieldBack(v.t, false);
    case TcSecondtime => SecondtimeFieldBack(v.t);
  }

  function HexDigit(c: byte): (d: Option<byte>)
    ensures d.Some? ==> d.value < 16
  {
    if '0' as int <= c <= '9' as int then Some(c - '0' as int)
    else if 'a' as int <= c <= 'f' as int then Some(c - 'a' as int + 10)
    else if 'A' as int <= c <= 'F' as int then Some(c - 'A' as int + 10)
    else None
  }

  /** hex.DecodeString. */
  function HexValue(p: seq<byte>): (r: Option<seq<byte>>)
    ensures r.Some? ==> |p| == 2 * |r.value|
  {
    if |p| == 0 then Some([])
    else if |p| == 1 then None
    else
      var hi, lo, rest := HexDigit(p[0]), HexDigit(p[1]), HexValue(p[2..]);
      if hi.Some? && lo.Some? && rest.Some? then Some([16 * hi.value + lo.value] + rest.value) else None
  }

  /** A text field: length indicator and CESU-8; refused when too long or not valid UTF-8. */
  ghost function TextBytes(v: Prm): (r: Option<seq<byte>>)
    requires v.Data?
  {
    var full := RunFull(ToCesu8(true), v.p);
    if TextSize(v) <= MAX_INT32 && full.status == Done then Some(VarInd(TextSize(v)) + full.out) else None
  }

  ghost predicate FixedForm(x: Rat, size: nat, prec: nat, scale: nat, r: Option<seq<byte>>)
    requires x.den >= 1 && size >= 1
  {
    var m := DecimalFields.FixedValue(x, scale);
    && (r.None? <==> Abs(m) >= Pow10.Ten(prec))
    && (r.Some? ==> |r.value| == size && Signed(LEValue(r.value), size) == m)
  }

  /** Options, size and position of a LOB. */
  function LobHeader(lob: LobView): (s: seq<byte>)
    requires lob.LobView?
    ensures |s| == LOB_INPUT_PARAMETERS_SIZE
  {
    [lob.opt] + LE(|lob.buf|, 4) + LE(lob.pos, 4)
  }

  /** The bytes r of a value of variable or computed form, or its refusal. */
  ghost predicate KindForm(k: Kind, v: Prm, prec: nat, scale: nat, lob: LobView, r: Option<seq<byte>>)
    requires !k.Plain? && KindTyped(k, v, prec) && (v.Lob? ==> lob.LobView?)
  {
    match k
    case DecimalKind => DecimalFields.Outcome(v.x, r)
    case FixedKind(size) => FixedForm(v.x, size, prec, scale, r)
    case VarKind => r == Prefixed(v.p)
    case Cesu8Kind => r == TextBytes(v)
    case HexKind => r == (var b := HexValue(v.p); if b.Some? then Prefixed(b.value) else None)
    case LobKind => r == Some(LobHeader(lob))
  }

  /** The bytes r of a value after its type code, or its refusal. */
  ghost predicate BodyForm(f: ParameterField, v: Prm, lob: LobView, r: Option<seq<byte>>)
    requires Typed(f, v) && Sent(f, v) && (v.Lob? ==> lob.LobView?)
  {
    if KindOf(f.tc).Plain? then r == Some(PlainBytes(f, v))
    else KindForm(KindOf(f.tc), v, f.prec, f.scale, lob, r)
  }

  /** The bytes of a parameter with its type code, or its refusal. */
  ghost predicate PrmForm(f: ParameterField, v: Prm, lob: LobView, r: Option<seq<byte>>)
    requires Typed(f, v) && (v.Lob? ==> lob.LobView?)
  {
    if !Sent(f, v) then r == Some([NullCode(f.tc)])
    else if r.None? then BodyForm(f, v, lob, None)
    else |r.value| >= 1 && r.value[0] == EncCode(f.tc) && BodyForm(f, v, lob, Some(r.value[1..]))
  }

  // ---------------------------------------------------------------- what can be encoded

  predicate IsHex(p: seq<byte>)
  {
    |p| % 2 == 0 && forall i :: 0 <= i < |p| ==> HexDigit(p[i]).Some?
  }

  lemma {:induction false} HexIff(p: seq<byte>)
    ensures HexValue(p).Some? <==> IsHex(p)
  {
    if |p| >= 2 {
      HexIff(p[2..]);
      if IsHex(p[2..]) && HexDigit(p[0]).Some? && HexDigit(p[1]).Some? {
        HexFront(p);
      }
    }
  }

  lemma HexFront(p: seq<byte>)
    requires |p| >= 2 && IsHex(p[2..]) && HexDigit(p[0]).Some? && HexDigit(p[1]).Some?
    ensures IsHex(p)
  {
    forall i | 0 <= i < |p|
      ensures HexDigit(p[i]).Some?
    {
      if i >= 2 {
        assert p[i] == p[2..][i - 2];
      }
    }
  }

  /**
    The values that encodePrm accepts, in the caller's terms: nulls, plain values and LOBs always; text
    that is valid UTF-8, bytes and hexadecimal digits up to 2^31 - 1 bytes on the wire; numbers within the
    range of their type.
   */
  ghost predicate Encodable(f: ParameterField, v: Prm)
    requires Typed(f, v)
  {
    Sent(f, v) && !KindOf(f.tc).Plain? ==> KindEncodable(KindOf(f.tc), v, f.prec, f.scale)
  }

  ghost predicate KindEncodable(k: Kind, v: Prm, prec: nat, scale: nat)
    requires !k.Plain? && KindTyped(k, v, prec)
  {
    match k
    case DecimalKind => DecimalFields.DecimalFits(v.x)
    case FixedKind(size) => Abs(DecimalFields.FixedValue(v.x, scale)) < Pow10.Ten(prec)
    case VarKind => |v.p| <= MAX_INT32
    case Cesu8Kind => IsText(v.p) && TextSize(v) <= MAX_INT32
    case HexKind => IsHex(v.p) && |v.p| / 2 <= MAX_INT32
    case LobKind => true
  }

  /** A value is refused exactly when it is not encodable. */
  lemma KindEncodableIff(k: Kind, v: Prm, prec: nat, scale: nat, lob: LobView, r: Option<seq<byte>>)
    requires !k.Plain? && KindTyped(k, v, prec) && (v.Lob? ==> lob.LobView?)
    requires KindForm(k, v, prec, scale, lob, r)
    ensures r.Some? <==> KindEncodable(k, v, prec, scale)
  {
    match k
    case DecimalKind => DecimalFields.OutcomeIff(v.x, r);
    case FixedKind(size) =>
    case VarKind =>
    case Cesu8Kind => AcceptedIff(v.p, true);
    case HexKind => HexIff(v.p);
    case LobKind =>
  }

  // ---------------------------------------------------------------- what a reader gets of the other fields

  /** LIBytes of the decoder: the bytes after a length indicator; None is null. */
  function ReadLI(s: seq<byte>): (p: Option<seq<byte>>)
  {
    if |s| < 1 || (s[0] == 246 && |s| < 3) || (s[0] == 247 && |s| < 5) then None
    else
      var ind := ReadInd(s);
      if ind.isNull || ind.size < 0 || ind.n + ind.size > |s| then None else Some(s[ind.n..ind.n + ind.size])
  }

  lemma {:induction false} LIBack(p: seq<byte>, s: seq<byte>)
    requires |p| <= MAX_INT32 && s == VarInd(|p|) + p
    ensures ReadLI(s) == Some(p)
  {
    IndRoundTrip(|p|, p);
    var n := |VarInd(|p|)|;
    assert s[n..n + |p|] == p;
  }

  /** The digits 0 to 9 are the bytes from 48 on, a to f those from 97 or 65 on. */
  lemma HexDigitMeans(c: byte, d: nat)
    requires d < 16
    ensures HexDigit(c) == Some(d) <==> if d < 10 then c == 48 + d else c == 97 + (d - 10) || c == 65 + (d - 10)
  {
    assert '0' as int == 48 && '9' as int == 57;
    assert 'a' as int == 97 && 'f' as int == 102 && 'A' as int == 65 && 'F' as int == 70;
  }

  /** Every byte of b is made of two digits of p, the high one first. */
  ghost predicate HexPairs(p: seq<byte>, b: seq<byte>)
  {
    && |p| == 2 * |b|
    && forall i :: 0 <= i < |b| ==>
         && HexDigit(p[2 * i]).Some? && HexDigit(p[2 * i + 1]).Some?
         && b[i] == 16 * HexDigit(p[2 * i]).value + HexDigit(p[2 * i + 1]).value
  }

  lemma {:induction false} HexValueMeans(p: seq<byte>)
    ensures HexValue(p).Some? ==> HexPairs(p, HexValue(p).value)
  {
    if |p| >= 2 && HexValue(p).Some? {
      HexValueMeans(p[2..]);
      var b, rest := HexValue(p).value, HexValue(p[2..]).value;
      forall i | 0 <= i < |b|
        ensures && HexDigit(p[2 * i]).Some? && HexDigit(p[2 * i + 1]).Some?
                && b[i] == 16 * HexDigit(p[2 * i]).value + HexDigit(p[2 * i + 1]).value
      {
        if i > 0 {
          assert b[i] == rest[i - 1] && p[2..][2 * (i - 1)] == p[2 * i] && p[2..][2 * (i - 1) + 1] == p[2 * i + 1];
        }
      }
    }
  }

  /** What a reader gets of the bytes s of a value of variable length or of a LOB. */
  ghost predicate KindReads(k: Kind, v: Prm, prec: nat, lob: LobView, s: seq<byte>)
    requires !k.Plain? && KindTyped(k, v, prec) && (v.Lob? ==> lob.LobView?)
  {
    match k
    case VarKind => ReadLI(s) == Some(v.p)
    case Cesu8Kind =>
      ReadLI(s).Some? && RunFull(ToUtf8(true), ReadLI(s).value) == Outcome(v.p, |ReadLI(s).value|, Done)
    case HexKind => ReadLI(s).Some? && HexPairs(v.p, ReadLI(s).value)
    case LobKind => LobReads(lob, s)
    case _ => true
  }

  /** The options, the size of the first chunk and its position, in this order. */
  ghost predicate LobReads(lob: LobView, s: seq<byte>)
    requires lob.LobView?
  {
    && |s| == 9 && s[0] == lob.opt
    && (|lob.buf| < 0x8000_0000 ==> Headers.Int(s, 1, 4) == |lob.buf|)
    && (-0x8000_0000 <= lob.pos < 0x8000_0000 ==> Headers.Int(s, 5, 4) == lob.pos)
  }

  lemma {:induction false} LobBack(lob: LobView)
    requires lob.LobView?
    ensures LobReads(lob, LobHeader(lob))
  {
    Widths();
    LobFields(lob.opt, |lob.buf|, lob.pos, LobHeader(lob));
  }

  lemma {:induction false} LobFields(opt: byte, size: nat, pos: int, s: seq<byte>)
    requires s == [opt] + LE(size, B4) + LE(pos, B4)
    ensures |s| == 9 && s[0] == opt
    ensures 2 * size < Pow256(B4) ==> Headers.Int(s, 1, B4) == size
    ensures -2 * pos <= Pow256(B4) && 2 * pos < Pow256(B4) ==> Headers.Int(s, 5, B4) == pos
  {
    var b := LE(pos, B4);
    BehindOption(opt, LE(size, B4), b);
    assert b + [] == b;
    NumAt(s, 1, B4, size, b, 5);
    NumAt(s, 5, B4, pos, [], 9);
  }

  lemma BehindOption(opt: byte, a: seq<byte>, b: seq<byte>)
    ensures ([opt] + a + b)[1..] == a + b
  {
  }

  lemma {:induction false} TextBack(v: Prm, s: seq<byte>)
    requires v.Data? && TextBytes(v) == Some(s)
    ensures ReadLI(s).Some? && RunFull(ToUtf8(true), ReadLI(s).value) == Outcome(v.p, |ReadLI(s).value|, Done)
  {
    var out := RunFull(ToCesu8(true), v.p).out;
    TextSizeExact(v);
    LIBack(out, s);
    var t := AcceptedIsText(v.p, true);
    RoundTrip(t, true, out);
  }

  lemma {:induction false} KindReadBack(k: Kind, v: Prm, prec: nat, scale: nat, lob: LobView, s: seq<byte>)
    requires !k.Plain? && KindTyped(k, v, prec) && (v.Lob? ==> lob.LobView?)
    requires KindForm(k, v, prec, scale, lob, Some(s))
    ensures KindReads(k, v, prec, lob, s)
  {
    match k
    case DecimalKind =>
    case FixedKind(size) =>
    case VarKind => LIBack(v.p, s);
    case Cesu8Kind => TextBack(v, s);
    case HexKind =>
      HexValueMeans(v.p);
      LIBack(HexValue(v.p).value, s);
    case LobKind => LobBack(lob);
  }

  // ---------------------------------------------------------------- sizes of what is encoded

  /** Accepted text has the size that was computed for it. */
  lemma TextSizeExact(v: Prm)
    requires v.Data?
    ensures RunFull(ToCesu8(true), v.p).status == Done ==> |RunFull(ToCesu8(true), v.p).out| == TextSize(v)
  {
    if RunFull(ToCesu8(true), v.p).status == Done {
      var t := AcceptedIsText(v.p, true);
      EncodeText(t, true);
      SizesAgree(t);
    }
  }

  /** A value is encoded in as many bytes as prmSize says. */
  lemma KindFormSize(k: Kind, v: Prm, prec: nat, scale: nat, lob: LobView, s: seq<byte>)
    requires !k.Plain? && KindTyped(k, v, prec) && (v.Lob? ==> lob.LobView?)
    requires KindForm(k, v, prec, scale, lob, Some(s))
    ensures |s| == KindSize(k, v, prec)
  {
    match k
    case DecimalKind => DecimalFields.OutcomeIff(v.x, Some(s));
    case FixedKind(size) => FixedSize(v.x, size, prec, scale, s);
    case VarKind => PrefixedSize(v.p, s);
    case Cesu8Kind => TextFormSize(v, s);
    case HexKind => HexSize(v.p, s);
    case LobKind => assert s == LobHeader(lob);
  }

  lemma FixedSize(x: Rat, size: nat, prec: nat, scale: nat, s: seq<byte>)
    requires x.den >= 1 && size >= 1 && FixedForm(x, size, prec, scale, Some(s))
    ensures |s| == size
  {
  }

  lemma PrefixedSize(p: seq<byte>, s: seq<byte>)
    requires Prefixed(p) == Some(s)
    ensures |s| == VarSize(|p|)
  {
  }

  lemma {:induction false} HexSize(p: seq<byte>, s: seq<byte>)
    requires HexValue(p).Some? && Prefixed(HexValue(p).value) == Some(s)
    ensures |s| == VarSize(|p| / 2)
  {
    PrefixedSize(HexValue(p).value, s);
  }

  lemma TextFormSize(v: Prm, s: seq<byte>)
    requires v.Data? && TextBytes(v) == Some(s)
    ensures |s| == VarSize(TextSize(v))
  {
    TextSizeExact(v);
  }

  method EncodeKind(enc: Encoder, k: Kind, v: Prm, prec: nat, scale: nat, lob: LobView) returns (r: Option<seq<byte>>)
    requires !k.Plain? && !k.Cesu8Kind? && KindTyped(k, v, prec) && enc.b.Length >= 16 && (v.Lob? ==> lob.LobView?)
    modifies enc.b
    ensures KindForm(k, v, prec, scale, lob, r)
  {
    match k {
      case DecimalKind =>
        ghost var e, m, exp, df;
        r, e, m, exp, df := DecimalFields.DecimalField(enc.b, v.x);
        DecimalFields.IsOutcome(v.x, r, e, m, exp, df);
      case FixedKind(size) =>
        ghost var m;
        r, m := DecimalFields.FixedField(enc.b, v.x, size, prec, scale);
      case VarKind => r := Prefixed(v.p);
      case HexKind =>
        var b := HexValue(v.p);
        r := if b.Some? then Prefixed(b.value) else None;
      case LobKind => r := Some(LobHeader(lob));
    }
  }

  /** Cesu8Field: the computed size first, then the bytes through the scratch buffer. */
  method EncodeText8(enc: Encoder, v: Prm) returns (ok: bool)
    requires v.Data? && enc.b.Length >= CESU_MAX
    modifies enc, enc.b
    ensures ok <==> TextBytes(v).Some?
    ensures ok ==> enc.wr == old(enc.wr) + TextBytes(v).value
  {
    var size := TextSize(v);
    if size > MAX_INT32 {
      return false;
    }
    ghost var full := RunFull(ToCesu8(true), v.p);
    Assoc(enc.wr, VarInd(size), full.out);
    enc.wr := enc.wr + VarInd(size);
    var _, done := enc.CESU8Bytes(v.p);
    ok := done;
  }

  /** encodePrm. */
  method EncodePrm(enc: Encoder, f: ParameterField, v: Prm) returns (ok: bool, ghost s: Option<seq<byte>>)
    requires Typed(f, v) && enc.b.Length >= 16
    modifies enc, enc.b
    ensures ok == s.Some? && (ok <==> Encodable(f, v)) && (ok ==> |s.value| == 1 + PrmSize(f, v))
    ensures PrmForm(f, v, View(v), s)
    ensures ok && Sent(f, v) ==> BodyReads(f, v, View(v), s.value[1..])
    ensures ok ==> enc.wr == old(enc.wr) + s.value
  {
    if !Sent(f, v) {
      enc.wr := enc.wr + [NullCode(f.tc)];
      return true, Some([NullCode(f.tc)]);
    }
    ghost var w0, code := enc.wr, [EncCode(f.tc)];
    enc.wr := enc.wr + [EncCode(f.tc)];
    ghost var body;
    ok, body := EncodeBody(enc, f, v);
    if ok {
      Assoc(w0, code, body.value);
      assert (code + body.value)[1..] == body.value;
      s := Some(code + body.value);
    } else {
      s := None;
    }
  }

  /** A reader of the bytes s after the type code gets the value. */
  ghost predicate BodyReads(f: ParameterField, v: Prm, lob: LobView, s: seq<byte>)
    requires Typed(f, v) && Sent(f, v) && (v.Lob? ==> lob.LobView?)
  {
    if KindOf(f.tc).Plain?
    then |s| == KindOf(f.tc).width && (InYears(f.tc, v) ==> ReadsBack(f.tc, v, s))
    else KindReads(KindOf(f.tc), v, f.prec, lob, s)
  }

  method EncodeBody(enc: Encoder, f: ParameterField, v: Prm) returns (ok: bool, ghost s: Option<seq<byte>>)
    requires Typed(f, v) && Sent(f, v) && enc.b.Length >= 16
    modifies enc, enc.b
    ensures ok == s.Some? && (ok <==> Encodable(f, v)) && (ok ==> |s.value| == PrmSize(f, v))
    ensures BodyForm(f, v, View(v), s)
    ensures ok ==> BodyReads(f, v, View(v), s.value)
    ensures ok ==> enc.wr == old(enc.wr) + s.value
  {
    if KindOf(f.tc).Plain? {
      if InYears(f.tc, v) {
        PlainReadBack(f, v);
      }
      enc.wr := enc.wr + PlainBytes(f, v);
      return true, Some(PlainBytes(f, v));
    }
    ok, s := EncodeVaried(enc, KindOf(f.tc), v, f.prec, f.scale, View(v));
  }

  method EncodeVaried(enc: Encoder, k: Kind, v: Prm, prec: nat, scale: nat, lob: LobView)
      returns (ok: bool, ghost s: Option<seq<byte>>)
    requires !k.Plain? && KindTyped(k, v, prec) && enc.b.Length >= 16 && (v.Lob? ==> lob.LobView?)
    modifies enc, enc.b
    ensures ok == s.Some? && (ok <==> KindEncodable(k, v, prec, scale)) && (ok ==> |s.value| == KindSize(k, v, prec))
    ensures KindForm(k, v, prec, scale, lob, s)
    ensures ok ==> KindReads(k, v, prec, lob, s.value)
    ensures ok ==> enc.wr == old(enc.wr) + s.value
  {
    if k.Cesu8Kind? {
      ok := EncodeText8(enc, v);
      s := TextBytes(v);
    } else {
      var r := EncodeKind(enc, k, v, prec, scale, lob);
      if r.Some? {
        enc.wr := enc.wr + r.value;
      }
      ok, s := r.Some?, r;
    }
    KindEncodableIff(k, v, prec, scale, lob, s);
    if ok {
      KindFormSize(k, v, prec, scale, lob, s.value);
      KindReadBack(k, v, prec, scale, lob, s.value);
    }
  }
}
