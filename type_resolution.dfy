/** Choosing the Rust type that stands for a FIX field, in the two spellings
    the generator uses: the owned, path-qualified one of `suggested_type` and
    the borrowing one of `suggested_type_with_lifetime`.

    Beside the two resolvers, as the source writes them, stands a reference
    definition: one priority ladder (`Choose`) over one category table
    (`TableChoice`), spelled per mode by `Spell`. The lemmas
    `SuggestedTypeFollowsLadder` and `SuggestedTypeWithLifetimeFollowsLadder`
    tie each resolver to it, so the two tables of the source provably never
    drift apart. */
module TypeResolution {

  import opened Wrappers
  import opened Text
  import opened FixDictionary

  /** CheckSum <10>, the last field of the FIX standard message trailer. */
  const CheckSumTag: Tag := 10

  const DecimalType: string := "rust_decimal::Decimal"

  const OptionOpen: string := "::std::option::Option<"

  // ---------------------------------------------------------------------
  // Reference definition
  // ---------------------------------------------------------------------

  /** The array lengths the table uses: country and language codes (2),
      currency codes (3) and exchange codes (4). */
  type ArrayLen = n: nat | 2 <= n <= 4 witness 2

  /** What a field's type is, before it is spelled. */
  datatype TypeChoice =
    | EnumType(name: string)
    | CheckSum
    | Decimal
    | Bytes
    | Byte
    | Bool
    | ByteArray(len: ArrayLen)
    | Usize
    | U32
    | I64
    | U64
    | Date
    | Time
    | Timestamp

  /** `Owned(p)`: standalone constants, paths under the crate `p`;
      `Borrowed`: struct members with a lifetime `'a`, paths under `crate`. */
  datatype Mode = Owned(fefixPath: string) | Borrowed

  /** The single category table both resolvers share. */
  function TableChoice(dt: DataType): TypeChoice
  {
    match dt
    case String => Bytes
    case Char => Byte
    case Boolean => Bool
    case Country => ByteArray(2)
    case Currency => ByteArray(3)
    case Exchange => ByteArray(4)
    case Data => Bytes
    case Length => Usize
    case DayOfMonth => U32
    case Int => I64
    case Language => ByteArray(2)
    case SeqNum => U64
    case NumInGroup => Usize
    case UtcDateOnly => Date
    case UtcTimeOnly => Time
    case UtcTimestamp => Timestamp
    case _ => Bytes
  }

  /** The priority ladder: enum type name, then CheckSum <10>, then any
      floating-point base type, then the table. */
  function Choose(tag: Tag, dt: DataType, enumTypeName: Option<string>, baseType: DataType -> DataType): TypeChoice
  {
    if enumTypeName.Some? then EnumType(enumTypeName.value)
    else if tag == CheckSumTag then CheckSum
    else if baseType(dt) == Float then Decimal
    else TableChoice(dt)
  }

  /** A fixed-size byte array type, `[u8; n]`. */
  function ArrayType(n: ArrayLen): string
  {
    if n == 2 then "[u8; 2]"
    else if n == 3 then "[u8; 3]"
    else "[u8; 4]"
  }

  /** A type under the `dtf` module: under the crate path in owned mode, under
      `crate` in borrowed mode. */
  function DtfType(name: string, mode: Mode): string
  {
    match mode
    case Owned(p) => p + "::dtf::" + name
    case Borrowed => "crate::dtf::" + name
  }

  /** The Rust spelling of a choice in a mode. */
  function Spell(c: TypeChoice, mode: Mode): string
  {
    match c
    case EnumType(n) => n
    case CheckSum => DtfType("CheckSum", mode)
    case Decimal => DecimalType
    case Bytes => if mode.Owned? then "&[u8]" else "&'a [u8]"
    case Byte => "u8"
    case Bool => "bool"
    case ByteArray(n) => if mode.Owned? then "&" + ArrayType(n) else ArrayType(n)
    case Usize => "usize"
    case U32 => "u32"
    case I64 => "i64"
    case U64 => "u64"
    case Date => DtfType("Date", mode)
    case Time => DtfType("Time", mode)
    case Timestamp => DtfType("Timestamp", mode)
  }

  // ---------------------------------------------------------------------
  // The resolvers as the source writes them
  // ---------------------------------------------------------------------

  // The `dtf` paths and the array types are written as two literals joined
  // at `::dtf::` or after `&`; each is the same string as the source's single
  // literal, split where `Spell` composes it.

  /** `suggested_type`: the type parameter of a field's `FieldDef` constant. */
  function SuggestedType(
    tag: Tag, dataType: DataType, enumTypeName: Option<string>,
    fefixPath: string, baseType: DataType -> DataType): (r: string)
    ensures enumTypeName.Some? ==> r == enumTypeName.value
    ensures enumTypeName.None? && tag == CheckSumTag ==> r == fefixPath + "::dtf::" + "CheckSum"
    ensures enumTypeName.None? && tag != CheckSumTag && baseType(dataType) == Float ==> r == DecimalType
  {
    if enumTypeName.Some? then enumTypeName.value
    else if tag == 10 then fefixPath + "::dtf::" + "CheckSum"
    else if baseType(dataType) == Float then "rust_decimal::Decimal"
    else
      match dataType
      case String => "&[u8]"
      case Char => "u8"
      case Boolean => "bool"
      case Country => "&" + "[u8; 2]"
      case Currency => "&" + "[u8; 3]"
      case Exchange => "&" + "[u8; 4]"
      case Data => "&[u8]"
      case Length => "usize"
      case DayOfMonth => "u32"
      case Int => "i64"
      case Language => "&" + "[u8; 2]"
      case SeqNum => "u64"
      case NumInGroup => "usize"
      case UtcDateOnly => fefixPath + "::dtf::" + "Date"
      case UtcTimeOnly => fefixPath + "::dtf::" + "Time"
      case UtcTimestamp => fefixPath + "::dtf::" + "Timestamp"
      case _ => "&[u8]"
  }

  /** `suggested_type_with_lifetime`: the type of a message struct member.
      It has no enum rung: it climbs the same ladder with no enum name. */
  function SuggestedTypeWithLifetime(tag: Tag, dataType: DataType, baseType: DataType -> DataType): (r: string)
    ensures tag == CheckSumTag ==> r == "crate::dtf::" + "CheckSum"
    ensures tag != CheckSumTag && baseType(dataType) == Float ==> r == DecimalType
  {
    if tag == 10 then "crate::dtf::" + "CheckSum"
    else if baseType(dataType) == Float then "rust_decimal::Decimal"
    else
      match dataType
      case String => "&'a [u8]"
      case Char => "u8"
      case Boolean => "bool"
      case Country => "[u8; 2]"
      case Currency => "[u8; 3]"
      case Exchange => "[u8; 4]"
      case Data => "&'a [u8]"
      case Length => "usize"
      case DayOfMonth => "u32"
      case Int => "i64"
      case Language => "[u8; 2]"
      case SeqNum => "u64"
      case NumInGroup => "usize"
      case UtcDateOnly => "crate::dtf::" + "Date"
      case UtcTimeOnly => "crate::dtf::" + "Time"
      case UtcTimestamp => "crate::dtf::" + "Timestamp"
      case _ => "&'a [u8]"
  }

  // ---------------------------------------------------------------------
  // Properties of the resolvers
  // ---------------------------------------------------------------------

  /** `suggested_type` is the owned spelling of the ladder's choice. */
  lemma SuggestedTypeFollowsLadder(
    tag: Tag, dataType: DataType, enumTypeName: Option<string>,
    fefixPath: string, baseType: DataType -> DataType)
    ensures SuggestedType(tag, dataType, enumTypeName, fefixPath, baseType)
         == Spell(Choose(tag, dataType, enumTypeName, baseType), Owned(fefixPath))
  {
  }

  /** `suggested_type_with_lifetime` is the borrowed spelling of the same
      ladder's choice, climbed with no enum name. */
  lemma SuggestedTypeWithLifetimeFollowsLadder(tag: Tag, dataType: DataType, baseType: DataType -> DataType)
    ensures SuggestedTypeWithLifetime(tag, dataType, baseType) == Spell(Choose(tag, dataType, None, baseType), Borrowed)
  {
  }

  /** The data types the table names explicitly. */
  predicate Listed(dt: DataType)
  {
    !dt.Other? && !dt.Float?
  }

  /** Both resolvers are total, and a data type the table does not list
      falls back to a byte slice (borrowed for `'a` in lifetime mode). */
  lemma UnlistedFallsBackToBytes(tag: Tag, dt: DataType, fefixPath: string, baseType: DataType -> DataType)
    requires !Listed(dt) && tag != CheckSumTag && baseType(dt) != Float
    ensures SuggestedType(tag, dt, None, fefixPath, baseType) == "&[u8]"
    ensures SuggestedTypeWithLifetime(tag, dt, baseType) == "&'a [u8]"
  {
  }

  lemma AppendRightCancel(p: string, q: string, x: string)
    ensures p + x == q + x <==> p == q
  {
    if p + x == q + x {
      assert |p| == |q|;
      assert p == (p + x)[..|p|];
      assert q == (q + x)[..|q|];
    }
  }

  /** A `dtf` path reads alike in both modes exactly for the crate path `crate`. */
  lemma DtfSameSpelling(name: string, fefixPath: string)
    ensures DtfType(name, Owned(fefixPath)) == DtfType(name, Borrowed) <==> fefixPath == "crate"
  {
    AppendRightCancel(fefixPath, "crate", "::dtf::" + name);
    assert fefixPath + "::dtf::" + name == fefixPath + ("::dtf::" + name);
    assert "crate::dtf::" + name == "crate" + ("::dtf::" + name);
  }

  /** A choice is spelled alike in both modes exactly when its spelling holds
      no borrow and no crate path, or the owned crate path is `crate`
      itself and the choice is spelled by path. */
  lemma {:induction false} SameSpellingInBothModes(c: TypeChoice, fefixPath: string)
    ensures Spell(c, Owned(fefixPath)) == Spell(c, Borrowed) <==>
      (c.EnumType? || c.Decimal? || c.Byte? || c.Bool? || c.Usize? || c.U32? || c.I64? || c.U64?
       || (fefixPath == "crate" && (c.CheckSum? || c.Date? || c.Time? || c.Timestamp?)))
  {
    match c
    case CheckSum => DtfSameSpelling("CheckSum", fefixPath);
    case Date => DtfSameSpelling("Date", fefixPath);
    case Time => DtfSameSpelling("Time", fefixPath);
    case Timestamp => DtfSameSpelling("Timestamp", fefixPath);
    case Bytes => assert |Spell(c, Owned(fefixPath))| != |Spell(c, Borrowed)|;
    case ByteArray(n) => assert |Spell(c, Owned(fefixPath))| != |Spell(c, Borrowed)|;
    case _ =>
  }

  /** Without an enum name, the two resolvers make the same choice and differ
      only in its spelling: they agree exactly on CheckSum and the date/time
      types when the crate path is `crate`, on decimals, and on the
      integer, byte and boolean entries of the table (Char, Boolean, Length,
      DayOfMonth, Int, SeqNum, NumInGroup). */
  lemma ResolversAgreeExactly(tag: Tag, dt: DataType, fefixPath: string, baseType: DataType -> DataType)
    ensures var c := Choose(tag, dt, None, baseType);
      (SuggestedType(tag, dt, None, fefixPath, baseType) == SuggestedTypeWithLifetime(tag, dt, baseType)) <==>
      (c.Decimal? || c.Byte? || c.Bool? || c.Usize? || c.U32? || c.I64? || c.U64?
       || (fefixPath == "crate" && (c.CheckSum? || c.Date? || c.Time? || c.Timestamp?)))
  {
    SuggestedTypeFollowsLadder(tag, dt, None, fefixPath, baseType);
    SuggestedTypeWithLifetimeFollowsLadder(tag, dt, baseType);
    SameSpellingInBothModes(Choose(tag, dt, None, baseType), fefixPath);
  }

  /** The table entries spelled identically in both modes. */
  lemma SharedSpellings(tag: Tag, dt: DataType, fefixPath: string, baseType: DataType -> DataType)
    requires tag != CheckSumTag && baseType(dt) != Float
    requires dt in {Char, Boolean, Length, DayOfMonth, Int, SeqNum, NumInGroup}
    ensures SuggestedType(tag, dt, None, fefixPath, baseType) == SuggestedTypeWithLifetime(tag, dt, baseType)
  {
    ResolversAgreeExactly(tag, dt, fefixPath, baseType);
  }

  // ---------------------------------------------------------------------
  // Optional wrapping
  // ---------------------------------------------------------------------

  /** The inverse of wrapping: the type inside `::std::option::Option<…>`,
      or `None` for a type that is not spelled as such a wrapper. */
  function UnwrapOptional(t: string): Option<string>
  {
    if |t| >= |OptionOpen| + 1 && t[..|OptionOpen|] == OptionOpen && t[|t| - 1] == '>'
    then Some(t[|OptionOpen|..|t| - 1])
    else None
  }

  /** `make_type_optional`: a required member keeps its type; any other is
      wrapped exactly once in `::std::option::Option<…>`. */
  function MakeTypeOptional(required: bool, typ: string): (r: string)
    ensures required ==> r == typ
    ensures !required ==> UnwrapOptional(r) == Some(typ) && |r| == |typ| + |OptionOpen| + 1
  {
    if required then typ
    else
      var r := "::std::option::Option<" + typ + ">";
      assert r[..|OptionOpen|] == OptionOpen && r[|OptionOpen|..|r| - 1] == typ;
      r
  }

  /** Unwrapping then wrapping gives back the original spelling. */
  lemma {:induction false} WrapUnwrapRoundTrip(u: string)
    requires UnwrapOptional(u).Some?
    ensures MakeTypeOptional(false, UnwrapOptional(u).value) == u
  {
    var t := UnwrapOptional(u).value;
    assert u == u[..|OptionOpen|] + t + [u[|u| - 1]];
  }

  /** For a type that is not already optional, the result is an optional type
      exactly when the member is not required. */
  lemma OptionalIffNotRequired(required: bool, typ: string)
    requires UnwrapOptional(typ).None?
    ensures UnwrapOptional(MakeTypeOptional(required, typ)).Some? <==> !required
  {
  }
}
