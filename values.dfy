/** Python 2 scalar values as the ORM sees them: what `str(v)` prints and
    whether `if v:` takes the branch. */
module Values {

  datatype Option<T> = None | Some(value: T)

  /** A scalar held in a row or an object dict.  `Float` keeps only what the
      ORM looks at: whether it is zero, and the text `str()` prints for it.
      `Null` is Python's `None`; values of other types are not modelled. */
  datatype Value =
    | Str(s: string)
    | Int(i: int)
    | Long(l: int)
    | Float(zero: bool, text: string)
    | Null

  /** Python truthiness: empty strings, zero numbers and `None` are false. */
  predicate Truthy(v: Value)
  {
    match v
    case Str(s) => s != ""
    case Int(i) => i != 0
    case Long(l) => l != 0
    case Float(zero, _) => !zero
    case Null => false
  }

  predicate IsNumeric(v: Value)
  {
    v.Int? || v.Long? || v.Float?
  }

  function DigitChar(d: nat): (c: char)
    requires d < 10
    ensures '0' <= c <= '9'
  {
    ('0' as int + d) as char
  }

  predicate AllDigits(s: string)
  {
    forall j :: 0 <= j < |s| ==> '0' <= s[j] <= '9'
  }

  /** The number a string of decimal digits denotes, most significant first. */
  function DigitsValue(s: string): nat
    requires AllDigits(s)
    decreases |s|
  {
    if s == [] then 0 else DigitsValue(s[..|s| - 1]) * 10 + (s[|s| - 1] as int - '0' as int)
  }

  /** Decimal digits of a natural number, most significant first, without
      leading zeros: they read back as the number. */
  function Digits(n: nat): (r: string)
    ensures |r| > 0 && AllDigits(r)
    ensures |r| > 1 ==> r[0] != '0'
    ensures DigitsValue(r) == n
    decreases n
  {
    if n < 10 then
      assert [DigitChar(n)][..0] == [];
      [DigitChar(n)]
    else
      var high := Digits(n / 10);
      var r := high + [DigitChar(n % 10)];
      assert r[..|r| - 1] == high;
      r
  }

  /** `str(i)` for an int or long (Python 2 `str` drops the `L` of a long):
      a minus sign exactly for a negative number, then the digits of its
      magnitude, which read back as that magnitude. */
  function Decimal(i: int): (r: string)
    ensures |r| > 0
    ensures (i < 0) == (r[0] == '-')
    ensures i < 0 ==> |r| > 1 && AllDigits(r[1..]) && DigitsValue(r[1..]) == -i && (|r| > 2 ==> r[1] != '0')
    ensures i >= 0 ==> AllDigits(r) && DigitsValue(r) == i && (|r| > 1 ==> r[0] != '0')
  {
    if i < 0 then
      var m := Digits(-i);
      assert ("-" + m)[1..] == m;
      "-" + m
    else Digits(i)
  }

  /** `str(v)`, the text that `'%s' % v` substitutes. */
  function PyStr(v: Value): string
  {
    match v
    case Str(s) => s
    case Int(i) => Decimal(i)
    case Long(l) => Decimal(l)
    case Float(_, text) => text
    case Null => "None"
  }

  /** The text of a number never holds a quote character, so only strings
      (and float texts) can break a quoted SQL literal. */
  lemma DecimalHasNoQuote(i: int)
    ensures '\'' !in Decimal(i)
  {
    var r := Decimal(i);
    assert forall j :: 0 <= j < |r| ==> r[j] == '-' || '0' <= r[j] <= '9';
  }

  /** `__ifornot__(e, t, f)`: `t` when `e` is truthy, else `f`. */
  function IfOrNot<T>(e: Value, t: T, f: T): (r: T)
    ensures Truthy(e) ==> r == t
    ensures !Truthy(e) ==> r == f
  {
    if Truthy(e) then t else f
  }
}
