/** Java values as the server meets them: parameter values parsed from the request JSON,
    values converted for JPA, and the column values Hibernate returns. */
module JavaValues {

  /** A point in time, by epoch milliseconds: `java.util.Date` and its `java.sql` subclasses. */
  datatype Temporal =
    | UtilDate(millis: int)
    | SqlDate(millis: int)
    | SqlTime(millis: int)
    | SqlTimestamp(millis: int)

  datatype Value =
    | Null
    | Str(s: string)
    /** `java.lang.Integer`, `java.lang.Long` and `java.math.BigInteger`, by their value. */
    | Int32(i: int)
    | Int64(i: int)
    | Big(i: int)
    /** `java.math.BigDecimal`: `unscaled` times ten to the power `-scale`. */
    | Decimal(unscaled: int, scale: int)
    /** Any other `java.lang.Number` (`Double`, `Float`, `Short`, `Byte`, …), by its text. */
    | OtherNumber(text: string)
    | Bool(b: bool)
    | Character(c: char)
    | Uuid(text: string)
    | Time(t: Temporal)
    | Calendar(millis: int)
    | EnumConstant(name: string)
    /** A Java array of a reference type (an `Object[]`, `String[]`, …); an array of a primitive
        type (`byte[]`, `int[]`, …), which is an array but not an `Object[]`; and a
        `java.util.Collection`. */
    | ObjectArray(items: seq<Value>)
    | PrimitiveArray(items: seq<Value>)
    | Collection(items: seq<Value>)
    /** Any other object, by its `toString`. */
    | Object(text: string)

  /** `value.getClass().isArray()`. */
  predicate IsArray(v: Value) {
    v.ObjectArray? || v.PrimitiveArray?
  }

  predicate IsNumber(v: Value) {
    v.Int32? || v.Int64? || v.Big? || v.Decimal? || v.OtherNumber?
  }

  /** The values JSON can carry as they are: null, strings, numbers and booleans. */
  predicate IsPlain(v: Value) {
    v.Null? || v.Str? || IsNumber(v) || v.Bool?
  }
}
