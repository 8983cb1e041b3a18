/**
 * Type-directed coercion of a raw lookup string into a typed value,
 * dispatching on the lower-cased SQL type name, and the messages a failed
 * coercion adds.
 */
module Coercion {
  import opened Values
  import opened Schema

  /**
   * The framework parsers the coercion delegates to (`int.TryParse`,
   * `long.TryParse`, `decimal.TryParse`, `double.TryParse`,
   * `float.TryParse`, `DateTime.TryParse`, `DateTimeOffset.TryParse`,
   * `TimeSpan.TryParse`). Their grammars are not modelled; `None` is a
   * failed parse. The integer parsers' result types carry their width.
   */
  datatype Parsers = Parsers(
    parseInt: string -> Option<int32>,
    parseLong: string -> Option<int64>,
    parseDecimal: string -> Option<DecimalValue>,
    parseDouble: string -> Option<bv64>,
    parseSingle: string -> Option<bv32>,
    parseDateTime: string -> Option<int>,
    parseDateTimeOffset: string -> Option<(int, int)>,
    parseTimeSpan: string -> Option<int>)

  function LowerChar(c: char): char
  {
    if 'A' <= c <= 'Z' then (c as int + 32) as char else c
  }

  /** `String.ToLower()` on ASCII letters. */
  function Lower(s: string): (r: string)
    ensures |r| == |s|
  {
    seq(|s|, i requires 0 <= i < |s| => LowerChar(s[i]))
  }

  /** The UTF-16 code units one character takes: two above the Basic Multilingual Plane (a surrogate pair), else one. */
  function CodeUnits(c: char): nat
  {
    if c as int >= 0x1_0000 then 2 else 1
  }

  /** `String.Length`: .NET strings count UTF-16 code units, not characters. */
  function Utf16Length(s: string): nat
  {
    if s == [] then 0 else CodeUnits(s[0]) + Utf16Length(s[1..])
  }

  /** A string has `Length` at most one exactly when it is empty or one character below U+10000. */
  lemma AtMostOneCodeUnit(s: string)
    ensures Utf16Length(s) <= 1 <==> s == [] || (|s| == 1 && s[0] as int < 0x1_0000)
  {
    if |s| == 1 {
      assert s[1..] == [];
    }
  }

  /** The `case` group of the type switch a lower-cased type name falls into. */
  datatype TypeFamily =
    | TextFamily | CharFamily | IntFamily | BigIntFamily | DecimalFamily | BitFamily
    | FloatFamily | RealFamily | DateTimeFamily | DateTimeOffsetFamily | TimeFamily
    | UnknownFamily

  /** The text family is spelled with "narchar"; "nvarchar" is in no list. */
  const TextTypeNames: seq<string> := ["varchar", "narchar", "text", "ntext", "uniqueidentifier"]
  const CharTypeNames: seq<string> := ["char", "nchar"]
  const IntTypeNames: seq<string> := ["int", "smallint", "tinyint"]
  const DecimalTypeNames: seq<string> := ["numeric", "decimal", "smallmoney", "money"]
  const DateTimeTypeNames: seq<string> := ["date", "datetime2", "smalldatetime", "datetime"]
  /** The spellings `bit` accepts, compared after lower-casing the input. */
  const BitSpellings: seq<string> := ["true", "false", "0", "1"]

  function Family(lowered: string): TypeFamily
  {
    if lowered in TextTypeNames then TextFamily
    else if lowered in CharTypeNames then CharFamily
    else if lowered in IntTypeNames then IntFamily
    else if lowered == "bigint" then BigIntFamily
    else if lowered in DecimalTypeNames then DecimalFamily
    else if lowered == "bit" then BitFamily
    else if lowered == "float" then FloatFamily
    else if lowered == "real" then RealFamily
    else if lowered in DateTimeTypeNames then DateTimeFamily
    else if lowered == "datetimeoffset" then DateTimeOffsetFamily
    else if lowered == "time" then TimeFamily
    else UnknownFamily
  }

  function MapInt(r: Option<int32>): Option<Value>
  {
    match r
    case Some(n) => Some(Int(n))
    case None => None
  }

  function MapLong(r: Option<int64>): Option<Value>
  {
    match r
    case Some(n) => Some(Long(n))
    case None => None
  }

  /** The coerced value of `input` for a column declared `columnType`, or `None` when it does not parse. */
  function Coerce(p: Parsers, columnType: string, input: string): Option<Value>
  {
    match Family(Lower(columnType))
    case TextFamily => Some(Text(input))
    case CharFamily => if Utf16Length(input) <= 1 then Some(Text(input)) else None
    case IntFamily => MapInt(p.parseInt(input))
    case BigIntFamily => MapLong(p.parseLong(input))
    case DecimalFamily =>
      (match p.parseDecimal(input) case Some(d) => Some(Decimal(d)) case None => None)
    case BitFamily =>
      var b := Lower(input);
      if b in BitSpellings then Some(Bit(b == "true" || b == "1")) else None
    case FloatFamily =>
      (match p.parseDouble(input) case Some(x) => Some(Double(x)) case None => None)
    case RealFamily =>
      (match p.parseSingle(input) case Some(x) => Some(Single(x)) case None => None)
    case DateTimeFamily =>
      (match p.parseDateTime(input) case Some(t) => Some(DateTime(t)) case None => None)
    case DateTimeOffsetFamily =>
      (match p.parseDateTimeOffset(input) case Some(t) => Some(DateTimeOffset(t.0, t.1)) case None => None)
    case TimeFamily =>
      (match p.parseTimeSpan(input) case Some(t) => Some(TimeSpan(t)) case None => None)
    case UnknownFamily => None
  }

  /** The message for a type name the switch does not know (it names the type twice, as the code does). */
  function UnexpectedTypeMessage(columnType: string): string
  {
    "Unexpected Column Type " + columnType + " for column " + columnType + "."
  }

  function ParseFailureMessage(col: PrimaryKeyColumnInput): string
  {
    "Could not parse value for column \"" + col.columnName + "\".  Expected type \""
      + col.columnType + "\", got \"" + col.inputValue + "\"."
  }

  /** The messages one coercion adds: the unknown-type message first, then the parse failure. */
  function CoercionMessages(p: Parsers, col: PrimaryKeyColumnInput): seq<string>
  {
    (if Family(Lower(col.columnType)) == UnknownFamily then [UnexpectedTypeMessage(col.columnType)] else [])
      + (if Coerce(p, col.columnType, col.inputValue).None? then [ParseFailureMessage(col)] else [])
  }

  /** varchar, narchar, text, ntext and uniqueidentifier always succeed with the raw string. */
  lemma TextTypesPassThrough(p: Parsers, columnType: string, input: string)
    requires Lower(columnType) in TextTypeNames
    ensures Coerce(p, columnType, input) == Some(Text(input))
  {
  }

  /** "nvarchar", in any letter case, is not in the text list and fails like an unknown type. */
  lemma NvarcharIsNotAccepted(p: Parsers, columnType: string, input: string)
    requires Lower(columnType) == "nvarchar"
    ensures Family(Lower(columnType)) == UnknownFamily
    ensures Coerce(p, columnType, input) == None
  {
    var n := Lower(columnType);
    assert n[1] == 'v';
    assert n !in TextTypeNames by {
      forall m | m in TextTypeNames ensures n != m { assert |m| != 8; }
    }
    assert n !in CharTypeNames + IntTypeNames by {
      forall m | m in CharTypeNames + IntTypeNames ensures n != m { assert |m| != 8 || m[1] != 'v'; }
    }
    assert n !in DecimalTypeNames + DateTimeTypeNames by {
      forall m | m in DecimalTypeNames + DateTimeTypeNames ensures n != m { assert |m| != 8 || m[1] != 'v'; }
    }
  }

  lemma CharNamesAreCharFamily(n: string)
    requires n in CharTypeNames
    ensures Family(n) == CharFamily
  {
    assert n == "char" || n == "nchar";
  }

  /** char and nchar accept exactly the inputs whose `Length` is at most one, unchanged. */
  lemma CharTypesAcceptAtMostOneChar(p: Parsers, columnType: string, input: string)
    requires Lower(columnType) in CharTypeNames
    ensures Coerce(p, columnType, input).Some? <==> Utf16Length(input) <= 1
    ensures Coerce(p, columnType, input).Some? ==> Coerce(p, columnType, input).value == Text(input)
  {
    CharNamesAreCharFamily(Lower(columnType));
  }

  /**
   * In characters: char and nchar accept the empty string and a single
   * character of the Basic Multilingual Plane, and nothing else. One
   * character above U+FFFF is a surrogate pair, `Length` 2, and fails.
   */
  lemma CharTypesAcceptEmptyOrOneBmpChar(p: Parsers, columnType: string, input: string)
    requires Lower(columnType) in CharTypeNames
    ensures Coerce(p, columnType, input).Some? <==> input == [] || (|input| == 1 && input[0] as int < 0x1_0000)
  {
    CharTypesAcceptAtMostOneChar(p, columnType, input);
    AtMostOneCodeUnit(input);
  }

  /** Example: "nchar" rejects a single emoji, whose `Length` is 2, and accepts "A". */
  lemma NcharExamples(p: Parsers)
    ensures Coerce(p, "nchar", "\U{1F600}") == None
    ensures Coerce(p, "nchar", "A") == Some(Text("A"))
  {
    assert Lower("nchar") == "nchar";
    CharTypesAcceptAtMostOneChar(p, "nchar", "\U{1F600}");
    CharTypesAcceptAtMostOneChar(p, "nchar", "A");
  }

  /** bit accepts "true", "false", "0" and "1" in any letter case: "true"/"1" give true, "false"/"0" give false. */
  lemma BitAcceptsFourSpellings(p: Parsers, columnType: string, input: string)
    requires Lower(columnType) == "bit"
    ensures Coerce(p, columnType, input) ==
      if Lower(input) == "true" || Lower(input) == "1" then Some(Bit(true))
      else if Lower(input) == "false" || Lower(input) == "0" then Some(Bit(false))
      else None
  {
    var n := Lower(columnType);
    assert n[0] == 'b';
    assert forall m :: m in TextTypeNames + CharTypeNames + IntTypeNames ==> n != m by {
      forall m | m in TextTypeNames + CharTypeNames + IntTypeNames ensures n != m {
        assert |m| != 3 || m[0] != 'b';
      }
    }
    assert n != "bigint";
    assert forall m :: m in DecimalTypeNames ==> n != m;
  }

  /** int, smallint and tinyint give a 32-bit Int, bigint a 64-bit Long, failing when the parser fails. */
  lemma IntegerTypesUseParsers(p: Parsers, columnType: string, input: string)
    ensures Lower(columnType) in IntTypeNames ==>
      (Coerce(p, columnType, input).Some? <==> p.parseInt(input).Some?) &&
      (p.parseInt(input).Some? ==> Coerce(p, columnType, input) == Some(Int(p.parseInt(input).value)))
    ensures Lower(columnType) == "bigint" ==>
      (Coerce(p, columnType, input).Some? <==> p.parseLong(input).Some?) &&
      (p.parseLong(input).Some? ==> Coerce(p, columnType, input) == Some(Long(p.parseLong(input).value)))
  {
    var n := Lower(columnType);
    if n == "bigint" {
      assert forall m :: m in TextTypeNames + CharTypeNames + IntTypeNames ==> n != m by {
        forall m | m in TextTypeNames + CharTypeNames + IntTypeNames ensures n != m {
          assert |m| != |n|;
        }
      }
    }
  }

  /**
   * The other parsed families: each succeeds exactly when its .NET parser
   * does, and yields that parser's result in its own `Value` variant.
   */
  lemma ParsedTypesUseParsers(p: Parsers, columnType: string, input: string)
    ensures Lower(columnType) in DecimalTypeNames ==>
      Coerce(p, columnType, input) == if p.parseDecimal(input).Some? then Some(Decimal(p.parseDecimal(input).value)) else None
    ensures Lower(columnType) == "float" ==>
      Coerce(p, columnType, input) == if p.parseDouble(input).Some? then Some(Double(p.parseDouble(input).value)) else None
    ensures Lower(columnType) == "real" ==>
      Coerce(p, columnType, input) == if p.parseSingle(input).Some? then Some(Single(p.parseSingle(input).value)) else None
    ensures Lower(columnType) in DateTimeTypeNames ==>
      Coerce(p, columnType, input) == if p.parseDateTime(input).Some? then Some(DateTime(p.parseDateTime(input).value)) else None
    ensures Lower(columnType) == "datetimeoffset" ==>
      Coerce(p, columnType, input) ==
        if p.parseDateTimeOffset(input).Some?
        then Some(DateTimeOffset(p.parseDateTimeOffset(input).value.0, p.parseDateTimeOffset(input).value.1))
        else None
    ensures Lower(columnType) == "time" ==>
      Coerce(p, columnType, input) == if p.parseTimeSpan(input).Some? then Some(TimeSpan(p.parseTimeSpan(input).value)) else None
  {
    var n := Lower(columnType);
    if n in DecimalTypeNames {
      assert n == "numeric" || n == "decimal" || n == "smallmoney" || n == "money";
      assert Family(n) == DecimalFamily;
    } else if n in DateTimeTypeNames {
      assert n == "date" || n == "datetime2" || n == "smalldatetime" || n == "datetime";
      assert Family(n) == DateTimeFamily;
    }
  }

  /** A successful coercion adds no message, a failed one exactly one, an unknown type name two. */
  lemma CoercionMessageCount(p: Parsers, col: PrimaryKeyColumnInput)
    ensures Coerce(p, col.columnType, col.inputValue).Some? ==> CoercionMessages(p, col) == []
    ensures Coerce(p, col.columnType, col.inputValue).None? && Family(Lower(col.columnType)) != UnknownFamily ==>
      CoercionMessages(p, col) == [ParseFailureMessage(col)]
    ensures Family(Lower(col.columnType)) == UnknownFamily ==>
      CoercionMessages(p, col) == [UnexpectedTypeMessage(col.columnType), ParseFailureMessage(col)]
  {
  }

  /** Examples: "TRUE", "true" and "1" give true, "False" and "0" give false, "yes" fails. */
  lemma BitExamples(p: Parsers)
    ensures Coerce(p, "bit", "TRUE") == Some(Bit(true))
    ensures Coerce(p, "bit", "true") == Some(Bit(true))
    ensures Coerce(p, "BIT", "1") == Some(Bit(true))
    ensures Coerce(p, "bit", "False") == Some(Bit(false))
    ensures Coerce(p, "bit", "0") == Some(Bit(false))
    ensures Coerce(p, "bit", "yes") == None
  {
    assert Lower("bit") == "bit";
    assert Lower("BIT") == "bit";
    assert Lower("TRUE") == "true";
    assert Lower("true") == "true";
    assert Lower("False") == "false";
    assert Lower("1") == "1";
    assert Lower("0") == "0";
    assert Lower("yes") == "yes";
    BitAcceptsFourSpellings(p, "bit", "TRUE");
    BitAcceptsFourSpellings(p, "bit", "true");
    BitAcceptsFourSpellings(p, "BIT", "1");
    BitAcceptsFourSpellings(p, "bit", "False");
    BitAcceptsFourSpellings(p, "bit", "0");
    BitAcceptsFourSpellings(p, "bit", "yes");
  }
}
