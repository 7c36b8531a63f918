/**
 * JavaScript's conversion of a value used as a property key, as the
 * `get` fixture `m[k]` needs it: numbers become their decimal text, and
 * an array or a string is indexed by the canonical decimal text of a
 * natural number ("0", "1", ..., never "01").
 */
module PropertyKeys {
  import opened Terms

  datatype Option<T> = None | Some(value: T)

  predicate IsDigit(c: char) {
    '0' <= c <= '9'
  }

  predicate AllDigits(s: string) {
    forall i :: 0 <= i < |s| ==> IsDigit(s[i])
  }

  /** Decimal text without a superfluous leading zero. */
  predicate IsCanonical(s: string) {
    |s| > 0 && AllDigits(s) && (|s| == 1 || s[0] != '0')
  }

  function DigitChar(d: nat): (c: char)
    requires d < 10
    ensures IsDigit(c) && c as int - '0' as int == d
  {
    ('0' as int + d) as char
  }

  /** `String(n)` for a natural number `n`. */
  function NatToString(n: nat): (s: string)
    ensures IsCanonical(s)
    ensures n >= 10 ==> |s| >= 2
  {
    if n < 10 then [DigitChar(n)] else NatToString(n / 10) + [DigitChar(n % 10)]
  }

  /** `String(i)` for an integer `i`. */
  function IntToString(i: int): (s: string)
    ensures i >= 0 ==> s == NatToString(i)
    ensures i < 0 ==> |s| > 0 && s[0] == '-'
  {
    if i < 0 then "-" + NatToString(-i) else NatToString(i)
  }

  /** The number a string of decimal digits denotes. */
  function DigitsValue(s: string): nat
    requires AllDigits(s)
  {
    if s == [] then 0 else DigitsValue(s[..|s| - 1]) * 10 + (s[|s| - 1] as int - '0' as int)
  }

  /** The array index a property key names, if it is one. */
  function ParseIndex(key: string): (r: Option<nat>)
    ensures r.Some? <==> IsCanonical(key)
  {
    if IsCanonical(key) then Some(DigitsValue(key)) else None
  }

  /**
   * `ToPropertyKey(k)` for the keys the model covers: strings are taken
   * as they are, numbers as their decimal text, `undefined` as the text
   * "undefined". Other values have no key in the model.
   */
  function PropertyKey(k: Value): (r: Option<string>)
    ensures k.Str? ==> r == Some(k.s)
    ensures k.Num? ==> r.Some? && (k.n >= 0 <==> ParseIndex(r.value).Some?)
    ensures r.Some? <==> k.Str? || k.Num? || k.Undef?
  {
    match k
    case Str(s) => Some(s)
    case Num(n) =>
      if n < 0 then
        assert !IsCanonical(IntToString(n)) by { assert IntToString(n)[0] == '-'; }
        Some(IntToString(n))
      else Some(IntToString(n))
    case Undef => Some("undefined")
    case _ => None
  }

  /** Reading the digits back gives the number. */
  lemma {:induction false} DigitsValueOfNatToString(n: nat)
    ensures DigitsValue(NatToString(n)) == n
  {
    var s := NatToString(n);
    if n >= 10 {
      DigitsValueOfNatToString(n / 10);
      assert s[..|s| - 1] == NatToString(n / 10);
    }
  }

  /** Parsing the text of an index gives the index back. */
  lemma ParseNatToString(n: nat)
    ensures ParseIndex(NatToString(n)) == Some(n)
  {
    DigitsValueOfNatToString(n);
  }

  /** A canonical digit string of two or more digits denotes a number of at least 10. */
  lemma {:induction false} CanonicalValueLowerBound(s: string)
    requires IsCanonical(s)
    ensures DigitsValue(s) >= 1 || s == "0"
    ensures |s| >= 2 ==> DigitsValue(s) >= 10
  {
    if |s| >= 2 {
      var t := s[..|s| - 1];
      assert t[0] == s[0];
      assert IsCanonical(t);
      CanonicalValueLowerBound(t);
    }
  }

  /** The text of the index a canonical key parses to is that key: canonical keys and indices correspond one to one. */
  lemma {:induction false} NatToStringOfParse(s: string)
    requires IsCanonical(s)
    ensures NatToString(DigitsValue(s)) == s
  {
    var d := s[|s| - 1] as int - '0' as int;
    if |s| == 1 {
      assert DigitsValue(s) == d;
      assert NatToString(d) == [DigitChar(d)];
      assert DigitChar(d) == s[0];
    } else {
      var t := s[..|s| - 1];
      assert t[0] == s[0];
      assert IsCanonical(t);
      CanonicalValueLowerBound(t);
      NatToStringOfParse(t);
      var v := DigitsValue(s);
      assert v == DigitsValue(t) * 10 + d;
      assert v / 10 == DigitsValue(t) && v % 10 == d;
      assert DigitChar(d) == s[|s| - 1];
      assert s == t + [s[|s| - 1]];
    }
  }

  /** A key names an array index exactly when it is the text of that index. */
  lemma ParseIndexIff(key: string, n: nat)
    ensures ParseIndex(key) == Some(n) <==> key == NatToString(n)
  {
    ParseNatToString(n);
    if ParseIndex(key) == Some(n) {
      NatToStringOfParse(key);
    }
  }
}
