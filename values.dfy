/**
 * Column values as the temporal viewer sees them once a row has been read
 * or a lookup string has been coerced. Equality on `Value` is structural and
 * tag-sensitive: `Text("1")` is never equal to `Int(1)`.
 */
module Values {

  datatype Option<+T> = None | Some(value: T)

  /** .NET `int`: a 32-bit signed integer. */
  newtype int32 = x: int | -0x8000_0000 <= x < 0x8000_0000

  /** .NET `long`: a 64-bit signed integer. */
  newtype int64 = x: int | -0x8000_0000_0000_0000 <= x < 0x8000_0000_0000_0000

  /** .NET `decimal`: a sign, an unsigned mantissa and a power-of-ten scale. */
  datatype DecimalValue = DecimalValue(negative: bool, mantissa: nat, scale: nat)

  datatype Value =
    | Null
    | Text(s: string)
    | Int(i: int32)
    | Long(l: int64)
    | Decimal(d: DecimalValue)
    | Double(doubleBits: bv64)
    | Single(singleBits: bv32)
    | Bit(b: bool)
    | DateTime(ticks: int)
    | DateTimeOffset(offsetTicks: int, offsetMinutes: int)
    | TimeSpan(spanTicks: int)

  /** `DateTime.MinValue`, the default `StartDate` of a fresh `DeltaInfo`. */
  const MinDateTime: Value := DateTime(0)

  /** `DateTime.MaxValue`, the default `EndDate` of a fresh `DeltaInfo`. */
  const MaxDateTime: Value := DateTime(3_155_378_975_999_999_999)
}
