/**
 * The few .NET runtime notions the settings tool relies on: nullable results,
 * exceptions with an optional inner exception, and the boxed values that the
 * settings store hands back as `object`.
 */
module DotNet {

  datatype Option<+T> = None | Some(value: T)

  /** A thrown exception: its `Message` and its `InnerException`, if any. */
  datatype Exception = Exception(message: string, inner: Option<Exception>)

  /** The outcome of a call that may throw. */
  datatype Result<+T> = Ok(value: T) | Err(error: Exception)

  /** The value of C#'s `int`. */
  newtype Int32 = x: int | -0x8000_0000 <= x < 0x8000_0000

  /** A boxed value as the store returns it; `Null` is the null reference. */
  datatype Object =
    | Null
    | BoolObj(b: bool)
    | Int32Obj(i: Int32)
    | StringObj(s: string)
    | OtherObj(typeName: string, text: string)  // any other type, with its ToString() text

  /** `e.InnerException ?? e`: one level of unwrapping, no more. */
  function InnerOrSelf(e: Exception): (r: Exception)
    ensures e.inner.Some? ==> r == e.inner.value
    ensures e.inner.None? ==> r == e
  {
    match e.inner
    case Some(inner) => inner
    case None => e
  }

  /** The decimal digits of a natural number, most significant first. */
  function NatToDecimal(n: nat): (s: string)
    ensures |s| >= 1 && IsDecimal(s)
    ensures n > 0 ==> s[0] != '0'
    decreases n
  {
    if n < 10 then [DigitChar(n)] else NatToDecimal(n / 10) + [DigitChar(n % 10)]
  }

  function DigitChar(d: nat): (c: char)
    requires d < 10
    ensures '0' <= c <= '9'
  {
    ['0', '1', '2', '3', '4', '5', '6', '7', '8', '9'][d]
  }

  function DigitValue(c: char): (d: nat)
    requires '0' <= c <= '9'
    ensures d < 10
  {
    (c as int - '0' as int) as nat
  }

  predicate IsDecimal(s: string)
  {
    forall k :: 0 <= k < |s| ==> '0' <= s[k] <= '9'
  }

  /** Reads back a string of decimal digits. */
  function DecimalToNat(s: string): nat
    requires IsDecimal(s)
  {
    if s == [] then 0 else 10 * DecimalToNat(s[..|s| - 1]) + DigitValue(s[|s| - 1])
  }

  lemma {:induction false} DecimalRoundTrip(n: nat)
    ensures DecimalToNat(NatToDecimal(n)) == n
    decreases n
  {
    if n >= 10 {
      var s := NatToDecimal(n);
      assert s[..|s| - 1] == NatToDecimal(n / 10);
      DecimalRoundTrip(n / 10);
    }
  }

  /**
   * `Int32.ToString()`: an optional '-' and the digits. The program formats with
   * the current culture, whose negative sign is taken to be '-'.
   */
  function Int32ToString(i: Int32): (s: string)
    ensures |s| >= 1
    ensures i < 0 <==> s[0] == '-'
  {
    if i < 0 then "-" + NatToDecimal(-(i as int)) else NatToDecimal(i as int)
  }

  /** `Object.ToString()` for a non-null value. */
  function ToString(o: Object): (s: string)
    requires o != Null
    ensures o.StringObj? ==> s == o.s
    ensures o.BoolObj? ==> s == (if o.b then "True" else "False")
  {
    match o
    case BoolObj(b) => if b then "True" else "False"
    case Int32Obj(i) => Int32ToString(i)
    case StringObj(s) => s
    case OtherObj(_, text) => text
  }

  /** The integer text that `ToString` gives a boxed `int` is an optional '-' and digits that read back as its magnitude. */
  lemma Int32ToStringRoundTrip(i: Int32)
    ensures var s := ToString(Int32Obj(i));
            var digits := if i < 0 then s[1..] else s;
            && (s[0] == '-' <==> i < 0)
            && IsDecimal(digits)
            && DecimalToNat(digits) == if i < 0 then -(i as int) else i as int
  {
    var s := ToString(Int32Obj(i));
    var n := if i < 0 then -(i as int) else i as int;
    var digits := if i < 0 then s[1..] else s;
    assert digits == NatToDecimal(n);
    DecimalRoundTrip(n);
  }
}
