/**
 * The values a book record holds and JavaScript's `<` on them, as the sort
 * comparator of the books table uses it (`a[orderBy] < b[orderBy]`).
 *
 * A record is a map from field name to value; a field the map does not hold
 * reads as `undefined` (`Absent`). Under `<` both operands are first turned
 * into primitives: an array of strings becomes its comma-joined string. Two
 * strings compare lexicographically by character; any other pair compares as
 * numbers, where a string that is not a number, and `undefined`, become NaN
 * and every comparison with NaN is false.
 */
module JsValue {
  import opened Wrappers

  /** A field value of a book record as the catalog search returns it or an edit writes it. */
  datatype Value =
    | Str(s: string)              // title, author_birth_date, author_top_work, or any edited field
    | Num(n: int)                 // first_publish_year, ratings
    | StrList(items: seq<string>) // author_name, subject
    | Absent                      // undefined

  type Record = map<string, Value>

  /** `r[key]` in JavaScript: a missing field reads as undefined. */
  function Field(r: Record, key: string): Value {
    if key in r then r[key] else Absent
  }

  /** The result of ToPrimitive on a value. */
  datatype Primitive = PString(s: string) | PNumber(n: int) | PUndefined

  /** `Array.prototype.join` with the default separator ",". */
  function Join(items: seq<string>): string
    decreases |items|
  {
    if |items| == 0 then ""
    else if |items| == 1 then items[0]
    else items[0] + "," + Join(items[1..])
  }

  /** ToPrimitive with hint number: an array becomes its `toString()`, that is, its join. */
  function ToPrimitive(v: Value): Primitive {
    match v
    case Str(s) => PString(s)
    case Num(n) => PNumber(n)
    case StrList(items) => PString(Join(items))
    case Absent => PUndefined
  }

  predicate IsDigit(c: char) {
    '0' <= c <= '9'
  }

  predicate AllDigits(s: string) {
    forall i | 0 <= i < |s| :: IsDigit(s[i])
  }

  /** The value of a string of decimal digits. */
  function DigitsValue(s: string): nat
    requires AllDigits(s)
    decreases |s|
  {
    if |s| == 0 then 0
    else 10 * DigitsValue(s[..|s| - 1]) + (s[|s| - 1] as int - '0' as int)
  }

  /**
   * StringToNumber on the strings this model gives a number to: the empty
   * string is 0 and a string of decimal digits is its value; anything else is NaN.
   */
  function StringToNumber(s: string): (r: Option<int>)
    ensures r.Some? <==> AllDigits(s)
    ensures s == "" ==> r == Some(0)
    ensures r.Some? ==> 0 <= r.value
  {
    if AllDigits(s) then Some(DigitsValue(s)) else None
  }

  /** The decimal digit character for 0 through 9. */
  function DigitChar(d: nat): char
    requires d < 10
  {
    ('0' as int + d) as char
  }

  /** The decimal rendering of a natural number, as `String(n)` writes it. */
  function Decimal(n: nat): string
    decreases n
  {
    if n < 10 then [DigitChar(n)] else Decimal(n / 10) + [DigitChar(n % 10)]
  }

  lemma {:induction false} DecimalDigits(n: nat)
    ensures AllDigits(Decimal(n)) && DigitsValue(Decimal(n)) == n
    decreases n
  {
    var s := Decimal(n);
    if n < 10 {
      assert s[..0] == [];
    } else {
      DecimalDigits(n / 10);
      assert s[..|s| - 1] == Decimal(n / 10);
    }
  }

  /** Reading back the decimal rendering of a number gives the number. */
  lemma StringToNumberDecimal(n: nat)
    ensures StringToNumber(Decimal(n)) == Some(n)
  {
    DecimalDigits(n);
  }

  /** ToNumber on a primitive; None is NaN. */
  function ToNumber(p: Primitive): Option<int> {
    match p
    case PNumber(n) => Some(n)
    case PString(s) => StringToNumber(s)
    case PUndefined => None
  }

  /** String `<`: the first differing character decides, and a proper prefix is smaller. */
  predicate StrLess(a: string, b: string)
    decreases |a|
  {
    if |b| == 0 then false
    else if |a| == 0 then true
    else if a[0] != b[0] then a[0] < b[0]
    else StrLess(a[1..], b[1..])
  }

  /** JavaScript's `x < y` on two field values. */
  predicate Less(x: Value, y: Value) {
    var px, py := ToPrimitive(x), ToPrimitive(y);
    if px.PString? && py.PString? then StrLess(px.s, py.s)
    else
      match (ToNumber(px), ToNumber(py))
      case (Some(m), Some(n)) => m < n
      case _ => false
  }

  lemma {:induction false} StrLessIrreflexive(a: string)
    ensures !StrLess(a, a)
    decreases |a|
  {
    if |a| > 0 {
      StrLessIrreflexive(a[1..]);
    }
  }

  lemma {:induction false} StrLessAsymmetric(a: string, b: string)
    ensures !(StrLess(a, b) && StrLess(b, a))
    decreases |a|
  {
    if |a| > 0 && |b| > 0 && a[0] == b[0] {
      StrLessAsymmetric(a[1..], b[1..]);
    }
  }

  lemma {:induction false} StrLessTransitive(a: string, b: string, c: string)
    requires StrLess(a, b) && StrLess(b, c)
    ensures StrLess(a, c)
    decreases |a|
  {
    if |a| > 0 && a[0] == b[0] && b[0] == c[0] {
      StrLessTransitive(a[1..], b[1..], c[1..]);
    }
  }

  lemma {:induction false} StrLessTotal(a: string, b: string)
    ensures a == b || StrLess(a, b) || StrLess(b, a)
    decreases |a|
  {
    if |a| > 0 && |b| > 0 && a[0] == b[0] {
      StrLessTotal(a[1..], b[1..]);
      assert a == [a[0]] + a[1..] && b == [b[0]] + b[1..];
    }
  }

  /** `<` on field values is never true both ways, whatever the types. */
  lemma LessAsymmetric(x: Value, y: Value)
    ensures !(Less(x, y) && Less(y, x))
  {
    var px, py := ToPrimitive(x), ToPrimitive(y);
    if px.PString? && py.PString? {
      StrLessAsymmetric(px.s, py.s);
    }
  }

  lemma LessIrreflexive(x: Value)
    ensures !Less(x, x)
  {
    LessAsymmetric(x, x);
  }

  /** A missing field is neither smaller nor larger than anything. */
  lemma LessAbsent(x: Value)
    ensures !Less(Absent, x) && !Less(x, Absent)
  {
  }

  /** Values that compare as text: strings and lists of strings. */
  predicate IsText(v: Value) {
    v.Str? || v.StrList?
  }

  /** The text a textual value compares by. */
  function Text(v: Value): string
    requires IsText(v)
  {
    if v.Str? then v.s else Join(v.items)
  }

  /**
   * On a column whose values are all numbers, or all text, "not less than"
   * is transitive: `<` there is a strict weak order.
   */
  lemma LessNegativelyTransitive(x: Value, y: Value, z: Value)
    requires (x.Num? && y.Num? && z.Num?) || (IsText(x) && IsText(y) && IsText(z))
    requires !Less(y, x) && !Less(z, y)
    ensures !Less(z, x)
  {
    if IsText(x) {
      var a, b, c := Text(x), Text(y), Text(z);
      assert Less(z, x) == StrLess(c, a);
      StrLessTotal(a, b);
      StrLessTotal(b, c);
      if a != b && b != c {
        StrLessTransitive(a, b, c);
        StrLessAsymmetric(a, c);
      }
    }
  }

  /**
   * A number field that an edit has rewritten as the text of the same number
   * ties with the stored number: neither is `<` the other.
   */
  lemma EditedNumberTies(n: nat)
    ensures !Less(Str(Decimal(n)), Num(n)) && !Less(Num(n), Str(Decimal(n)))
  {
    StringToNumberDecimal(n);
  }

  /** A string that is not a decimal number ties with every number. */
  lemma NonNumericTextTiesNumbers(s: string, n: int)
    requires !AllDigits(s)
    ensures !Less(Str(s), Num(n)) && !Less(Num(n), Str(s))
  {
  }

  /**
   * Once a column mixes numbers with strings (an edit writes every field as a
   * string), `<` is no longer a strict weak order: "10" < "9" as text and
   * "9" < 10 as numbers, yet "10" and 10 tie; a string that is not a number
   * ties with every number.
   */
  lemma MixedComparisons()
    ensures Less(Str("1997"), Num(2001))
    ensures Less(Str("10"), Str("9")) && Less(Str("9"), Num(10)) && !Less(Num(10), Num(9))
    ensures !Less(Str("10"), Num(10)) && !Less(Num(10), Str("10"))
    ensures !Less(Str("N/A"), Num(1)) && !Less(Num(1), Str("N/A"))
    ensures Less(StrList([]), Num(1))
  {
    assert "1997"[..3] == "199" && "199"[..2] == "19" && "19"[..1] == "1" && "1"[..0] == "";
    assert DigitsValue("1997") == 1997;
    assert "10"[..1] == "1";
    assert DigitsValue("10") == 10;
    assert !IsDigit('N');
    assert Join([]) == "";
  }
}
