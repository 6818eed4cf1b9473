/** The slice of JavaScript value semantics the client relies on: plain
    objects as maps from keys to values, object spread with one computed key,
    and the `Number(v) || 0` coercion applied to form inputs. Floating-point
    numbers are not modelled: a number is an integer. */
module Js {
  import opened Wrappers

  /** A JSON-like value. An absent key (JavaScript `undefined`) is an absent
      map entry, not a `Value`. */
  datatype Value = Num(n: int) | Text(s: string) | Null

  /** A plain object. */
  type Obj = map<string, Value>

  /** Property access `o[key]`; `None` is `undefined`. */
  function Get(o: Obj, key: string): (r: Option<Value>)
    ensures r.Some? <==> key in o
    ensures r.Some? ==> r.value == o[key]
  {
    if key in o then Some(o[key]) else None
  }

  /** `{ ...o, [key]: v }`: the key is set to `v`, every other key keeps its
      value, and no other key appears. */
  function Assign(o: Obj, key: string, v: Value): (r: Obj)
    ensures r.Keys == o.Keys + {key}
    ensures r[key] == v
    ensures forall k :: k in o && k != key ==> r[k] == o[k]
  {
    o[key := v]
  }

  function DigitValue(c: char): (d: int)
  {
    if '0' <= c <= '9' then c as int - '0' as int else 0
  }

  predicate IsDigits(s: string)
  {
    |s| > 0 && forall i :: 0 <= i < |s| ==> '0' <= s[i] <= '9'
  }

  /** The value of a run of decimal digits, most significant first. */
  function DigitsValue(s: string): (r: nat)
  {
    if |s| == 0 then 0
    else 10 * DigitsValue(s[..|s| - 1]) + DigitValue(s[|s| - 1])
  }

  /** An optional sign followed by at least one decimal digit. */
  predicate IsDecimal(s: string)
  {
    IsDigits(s) || (|s| > 0 && (s[0] == '+' || s[0] == '-') && IsDigits(s[1..]))
  }

  /** The integer a decimal string denotes; anything that is not an
      optionally signed run of digits is not a number. */
  function ParseDecimal(s: string): (r: Option<int>)
    ensures r.Some? <==> IsDecimal(s)
    ensures IsDigits(s) ==> r == Some(DigitsValue(s))
    ensures r.Some? && !IsDigits(s) ==>
      r.value == if s[0] == '-' then -(DigitsValue(s[1..]) as int) else DigitsValue(s[1..])
  {
    if |s| == 0 then None
    else if s[0] == '-' || s[0] == '+' then
      if IsDigits(s[1..]) then
        var v: int := DigitsValue(s[1..]);
        Some(if s[0] == '-' then -v else v)
      else None
    else if IsDigits(s) then Some(DigitsValue(s))
    else None
  }

  /** A leading `+` does not change the value of a run of digits. */
  lemma PlusSignKeepsValue(d: string)
    requires IsDigits(d)
    ensures ParseDecimal("+" + d) == ParseDecimal(d) == Some(DigitsValue(d))
  {
    assert ("+" + d)[1..] == d;
  }

  /** Leading zeros do not change the value of a run of digits. */
  lemma LeadingZerosKeepValue(zeros: nat, d: string)
    requires IsDigits(d)
    ensures ParseDecimal(seq(zeros, _ => '0') + d) == ParseDecimal(d)
  {
    var z := seq(zeros, _ => '0');
    assert IsDigits(z + d);
    ZerosPrefixValue(z, d);
  }

  lemma {:induction false} ZerosPrefixValue(z: string, d: string)
    requires forall i :: 0 <= i < |z| ==> z[i] == '0'
    ensures DigitsValue(z + d) == DigitsValue(d)
    decreases |d|
  {
    if |d| == 0 {
      assert z + d == z;
      AllZerosValue(z);
    } else {
      var d' := d[..|d| - 1];
      assert (z + d)[..|z + d| - 1] == z + d';
      assert (z + d)[|z + d| - 1] == d[|d| - 1];
      ZerosPrefixValue(z, d');
    }
  }

  lemma {:induction false} AllZerosValue(z: string)
    requires forall i :: 0 <= i < |z| ==> z[i] == '0'
    ensures DigitsValue(z) == 0
    decreases |z|
  {
    if |z| > 0 {
      AllZerosValue(z[..|z| - 1]);
    }
  }

  /** A character that is not a digit, after the optional sign, makes the
      string not a number. */
  lemma NonDigitIsNaN(s: string, k: int)
    requires 0 <= k < |s| && !('0' <= s[k] <= '9')
    requires k > 0 || (s[0] != '+' && s[0] != '-')
    ensures ParseDecimal(s) == None
  {
    if k > 0 {
      assert s[1..][k - 1] == s[k];
    }
  }

  /** The canonical decimal spelling of a natural number. */
  function ShowNat(n: nat): (r: string)
    ensures IsDigits(r)
    decreases n
  {
    var d := ['0' + (n % 10) as char];
    if n < 10 then d else ShowNat(n / 10) + d
  }

  /** The canonical decimal spelling of an integer, as a number input shows it. */
  function ShowInt(n: int): (r: string)
  {
    if n < 0 then "-" + ShowNat(-n) else ShowNat(n)
  }

  lemma {:induction false} DigitsShowNat(n: nat)
    ensures DigitsValue(ShowNat(n)) == n
    decreases n
  {
    var d := ['0' + (n % 10) as char];
    if n >= 10 {
      DigitsShowNat(n / 10);
      var s := ShowNat(n / 10) + d;
      assert s[..|s| - 1] == ShowNat(n / 10);
      assert s[|s| - 1] == d[0];
    }
  }

  /** Reading back a canonical decimal spelling gives the number. */
  lemma ParseShow(n: int)
    ensures ParseDecimal(ShowInt(n)) == Some(n)
  {
    if n < 0 {
      var s := "-" + ShowNat(-n);
      assert s[1..] == ShowNat(-n);
      DigitsShowNat(-n);
    } else {
      DigitsShowNat(n);
    }
  }

  /** `Number(v)`: `None` stands for NaN. */
  function ToNumber(v: Option<Value>): (r: Option<int>)
    ensures v.None? ==> r.None?
    ensures v == Some(Null) ==> r == Some(0)
    ensures v.Some? && v.value.Num? ==> r == Some(v.value.n)
    ensures v.Some? && v.value.Text? ==>
      r == if v.value.s == "" then Some(0) else ParseDecimal(v.value.s)
  {
    match v
    case None => None
    case Some(Null) => Some(0)
    case Some(Num(n)) => Some(n)
    case Some(Text(s)) => if s == "" then Some(0) else ParseDecimal(s)
  }

  /** `Number(v) || 0`: the number `v` denotes, or 0 when it is not a number. */
  function NumberOrZero(v: Option<Value>): (r: int)
    ensures ToNumber(v).Some? ==> r == ToNumber(v).value
    ensures ToNumber(v).None? ==> r == 0
  {
    match ToNumber(v)
    case None => 0
    case Some(n) => if n != 0 then n else 0
  }

  /** A typed canonical decimal, or a number, coerces to itself. */
  lemma CoerceTyped(n: int)
    ensures NumberOrZero(Some(Text(ShowInt(n)))) == n
    ensures NumberOrZero(Some(Num(n))) == n
  {
    ParseShow(n);
    assert ShowInt(n) != "" by {
      if n < 0 { assert |ShowInt(n)| > 0; } else { assert IsDigits(ShowNat(n)); }
    }
  }
}
