/** The values that flow through the cleaning script: the cells of a data
    frame after the CSV has been read, and Python's `str()` of a cell. */
module Values {

  datatype Option<T> = None | Some(value: T)

  /** A `datetime.date`. */
  datatype Date = Date(year: nat, month: nat, day: nat)

  /** A `datetime.time`. */
  datatype Time = Time(hour: nat, minute: nat, second: nat)

  /** One cell of the data frame. `Null` stands for every missing value the
      script meets: NaN, NaT and None. */
  datatype Cell =
    | Null
    | Str(s: string)
    | Int(i: int)
    | Bool(b: bool)
    | Day(d: Date)
    | Clock(t: Time)

  /** The decimal digit for `d`. */
  function DigitChar(d: nat): (r: char)
    requires d < 10
    ensures '0' <= r <= '9' && r as int - '0' as int == d
  {
    ('0' as int + d) as char
  }

  predicate IsDigits(s: string) {
    forall k :: 0 <= k < |s| ==> '0' <= s[k] <= '9'
  }

  /** The number a string of decimal digits denotes, as `int(s)` reads it. */
  function DigitsValue(s: string): int {
    if s == [] then 0 else 10 * DigitsValue(s[..|s| - 1]) + (s[|s| - 1] as int - '0' as int)
  }

  /** Decimal digits of `n`: digits only, reading back as `n`, with no
      leading zero, and zero itself is the single digit "0". */
  function NatToString(n: nat): (r: string)
    ensures |r| > 0 && IsDigits(r)
    ensures DigitsValue(r) == n
    ensures r[0] == '0' <==> n == 0
    ensures n == 0 ==> r == "0"
    decreases n
  {
    if n < 10 then [DigitChar(n)]
    else
      var r := NatToString(n / 10) + [DigitChar(n % 10)];
      assert r[..|r| - 1] == NatToString(n / 10);
      r
  }

  /** `n` in decimal, left-padded with zeros to `width` characters. */
  function ZeroPad(n: nat, width: nat): string {
    var digits := NatToString(n);
    if |digits| >= width then digits else seq(width - |digits|, _ => '0') + digits
  }

  /** Python's `str()` of a cell: text is its own `str`, a missing value
      reads "None", and an integer is its optional minus sign followed by
      decimal digits that read back as its magnitude. */
  function Show(c: Cell): (r: string)
    ensures c.Str? ==> r == c.s
    ensures c.Null? ==> r == "None"
    ensures c.Int? ==> |r| > 0 && (r[0] == '-' <==> c.i < 0)
    ensures c.Int? && c.i >= 0 ==> IsDigits(r) && DigitsValue(r) == c.i
    ensures c.Int? && c.i < 0 ==> IsDigits(r[1..]) && DigitsValue(r[1..]) == -c.i
  {
    match c
    case Null => "None"
    case Str(s) => s
    case Int(i) => if i < 0 then "-" + NatToString(-i) else NatToString(i)
    case Bool(b) => if b then "True" else "False"
    case Day(d) => ZeroPad(d.year, 4) + "-" + ZeroPad(d.month, 2) + "-" + ZeroPad(d.day, 2)
    case Clock(t) => ZeroPad(t.hour, 2) + ":" + ZeroPad(t.minute, 2) + ":" + ZeroPad(t.second, 2)
  }
}
