/** Grouping keys: the value a row's record yields for the grouping field, and
    JavaScript's loose equality `!=` / `==` on such values, which decides where a
    new group starts. */
module Keys {

  datatype Option<T> = None | Some(value: T)

  /** A record field value as JavaScript sees it: `null`, `undefined`, a string
      or an integral number. */
  datatype Key = Null | Undefined | Str(s: string) | Num(n: int)

  /** A data record: its named fields. */
  type Record = map<string, Key>

  /** `record.getData(field)`: a field the record does not hold reads as `undefined`. */
  function GetData(record: Record, field: string): (r: Key)
    ensures field in record ==> r == record[field]
    ensures field !in record ==> IsNullish(r) && LooseEq(r, Null)
  {
    if field in record then record[field] else Undefined
  }

  predicate IsNullish(k: Key)
  {
    k.Null? || k.Undefined?
  }

  predicate IsDigit(c: char)
  {
    '0' <= c <= '9'
  }

  predicate AllDigits(s: string)
  {
    forall i :: 0 <= i < |s| ==> IsDigit(s[i])
  }

  /** The value of a string of decimal digits, most significant first. */
  function DigitsValue(s: string): nat
    requires AllDigits(s)
  {
    if s == [] then 0
    else DigitsValue(s[..|s| - 1]) * 10 + (s[|s| - 1] as int - '0' as int)
  }

  /** The integral value JavaScript's ToNumber gives a string: the empty string
      is 0, an optional sign followed by decimal digits is that number, and every
      other string gives no integer (see README for what is left out). */
  function StringToNumber(s: string): Option<int>
  {
    if s == [] then Some(0)
    else if (s[0] == '-' || s[0] == '+') && |s| > 1 && AllDigits(s[1..]) then
      Some(if s[0] == '-' then 0 - DigitsValue(s[1..]) else DigitsValue(s[1..]) as int)
    else if AllDigits(s) then Some(DigitsValue(s))
    else None
  }

  /** JavaScript's abstract (loose) equality `a == b` on keys: `null` and
      `undefined` equal each other and nothing else, values of one type compare
      by value, and a string compares with a number through ToNumber. */
  predicate LooseEq(a: Key, b: Key)
    ensures LooseEq(a, b) ==> (IsNullish(a) <==> IsNullish(b))
    ensures a == b ==> LooseEq(a, b)
  {
    if IsNullish(a) || IsNullish(b) then IsNullish(a) && IsNullish(b)
    else match (a, b)
      case (Str(x), Str(y)) => x == y
      case (Num(x), Num(y)) => x == y
      case (Str(x), Num(y)) => StringToNumber(x) == Some(y)
      case (Num(x), Str(y)) => StringToNumber(y) == Some(x)
      case _ => false
  }

  /** A key is loosely equal to `null` exactly when it is `null` or `undefined`:
      the marker a pass starts from. */
  lemma NullishLooseEqNull(k: Key)
    ensures LooseEq(k, Null) <==> IsNullish(k)
    ensures LooseEq(k, Undefined) <==> IsNullish(k)
  {
  }

  lemma LooseEqSymmetric(a: Key, b: Key)
    ensures LooseEq(a, b) <==> LooseEq(b, a)
  {
  }

  /** Loose equality is not transitive: "0" == 0 and 0 == "00", yet "0" != "00". */
  lemma LooseEqNotTransitive()
    ensures LooseEq(Str("0"), Num(0))
    ensures LooseEq(Num(0), Str("00"))
    ensures !LooseEq(Str("0"), Str("00"))
  {
    assert AllDigits("0") && AllDigits("00");
    assert "00"[..1] == "0";
    assert DigitsValue("00") == 0;
  }

  /** The empty string is loosely equal to the number 0. */
  lemma EmptyStringLooseEqZero()
    ensures LooseEq(Str(""), Num(0))
    ensures !LooseEq(Str(""), Null)
  {
  }
}
