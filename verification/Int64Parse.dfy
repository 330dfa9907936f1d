// Decimal integers of json-c: printing an int64, and json_parse_int64, which does not
// trust sscanf on values out of range.
module Int64Parse {
  import opened Bytes

  const INT64_MIN: int := -0x8000_0000_0000_0000
  const INT64_MAX: int := 0x7FFF_FFFF_FFFF_FFFF
  const ZERO: byte := 48
  const MINUS: byte := 45

  predicate IsDigit(c: byte)
  {
    48 <= c <= 57
  }

  predicate AllDigits(s: seq<byte>)
  {
    forall i :: 0 <= i < |s| ==> IsDigit(s[i])
  }

  function Digit(d: nat): byte
    requires d < 10
  {
    (48 + d) as byte
  }

  // The value of a string of digits.
  function Value(s: seq<byte>): (v: nat)
    requires AllDigits(s)
  {
    if s == [] then 0 else 10 * Value(s[..|s| - 1]) + (s[|s| - 1] as int - 48)
  }

  // The digits of n, with no leading zero except for 0 itself.
  function Digits(n: nat): (s: seq<byte>)
    ensures s != [] && AllDigits(s)
  {
    if n < 10 then [Digit(n)] else Digits(n / 10) + [Digit(n % 10)]
  }

  // What %PRId64 prints.
  function Decimal(n: int): (s: seq<byte>)
    ensures s != []
  {
    if n < 0 then [MINUS] + Digits(-n) else Digits(n)
  }

  lemma {:induction false} ValueDigits(n: nat)
    ensures Value(Digits(n)) == n
    ensures n != 0 ==> Digits(n)[0] != ZERO
  {
    var s := Digits(n);
    if n >= 10 {
      ValueDigits(n / 10);
      assert s[..|s| - 1] == Digits(n / 10);
    } else {
      assert Value(s) == 10 * Value(s[..0]) + n;
    }
  }

  // A string of digits without leading zeros is the digits of its value.
  lemma {:induction false} DigitsValue(s: seq<byte>)
    requires AllDigits(s) && s != [] && (s[0] != ZERO || |s| == 1)
    ensures Digits(Value(s)) == s
    ensures |s| > 1 ==> Value(s) > 0
  {
    var t := s[..|s| - 1];
    var d := s[|s| - 1] as int - 48;
    if |s| == 1 {
      assert t == [];
      assert Value(s) == d;
    } else {
      assert t[0] == s[0];
      DigitsValue(t);
      assert Value(t) > 0 by {
        if |t| == 1 {
          assert Value(t) == t[0] as int - 48 by { assert t[..0] == []; }
        }
      }
      assert Value(s) / 10 == Value(t) && Value(s) % 10 == d;
      assert s == t + [s[|s| - 1]];
    }
  }

  lemma {:induction false} ValueLeadingZero(s: seq<byte>)
    requires AllDigits(s) && s != [] && s[0] == ZERO
    ensures Value(s) == Value(s[1..])
  {
    if |s| == 1 {
      assert s[1..] == [] && s[..0] == [];
    } else {
      var t := s[..|s| - 1];
      ValueLeadingZero(t);
      assert s[1..][..|s| - 2] == t[1..];
    }
  }

  // ---- json_parse_int64 ------------------------------------------------------------

  // An optional minus sign and at least one digit.
  predicate IsInteger(s: seq<byte>)
  {
    var body := if s != [] && s[0] == MINUS then s[1..] else s;
    body != [] && AllDigits(body)
  }

  function Body(s: seq<byte>): seq<byte>
  {
    if s != [] && s[0] == MINUS then s[1..] else s
  }

  // The number such a string writes down.
  function IntegerValue(s: seq<byte>): int
    requires IsInteger(s)
  {
    var v: int := Value(Body(s));
    if s[0] == MINUS then -v else v
  }

  predicate InRange(n: int)
  {
    INT64_MIN <= n <= INT64_MAX
  }

  function Clamp(n: int): int
  {
    if n < INT64_MIN then INT64_MIN else if n > INT64_MAX then INT64_MAX else n
  }

  // What sscanf reports: the converted value and whether errno is ERANGE.
  datatype Scan = Scan(num: int, erange: bool)

  // The C library as the standard asks for.
  predicate Correct(s: seq<byte>, r: Scan)
    requires IsInteger(s)
  {
    r == Scan(Clamp(IntegerValue(s)), !InRange(IntegerValue(s)))
  }

  // A library that is right on values in range; on others it leaves errno alone and
  // returns any non-zero value.
  predicate Broken(s: seq<byte>, r: Scan)
    requires IsInteger(s)
  {
    !r.erange && InRange(r.num) &&
    (if InRange(IntegerValue(s)) then r.num == IntegerValue(s) else r.num != 0)
  }

  // The end of a C string reads as NUL.
  function CharAt(s: seq<byte>, i: nat): byte
  {
    if i < |s| then s[i] else 0
  }

  // json_parse_int64 after a successful sscanf with result r. (Leading spaces, which
  // the function skips first, do not occur in s.)
  method ParseInt64(s: seq<byte>, r: Scan, isBroken: bool) returns (num: int)
    requires IsInteger(s) && (if isBroken then Broken(s, r) else Correct(s, r))
    ensures num == Clamp(IntegerValue(s))
  {
    num := r.num;
    var erange, digits, neg := r.erange, s, false;
    if CharAt(digits, 0) == MINUS {
      digits, neg := digits[1..], true;
    }
    ghost var body := digits;
    if isBroken && !erange {
      while CharAt(digits, 0) == ZERO && CharAt(digits, 1) != 0
        invariant digits != [] && AllDigits(digits) && Value(digits) == Value(body)
        decreases |digits|
      {
        ValueLeadingZero(digits);
        digits := digits[1..];
      }
      if num == 0 {
        neg := false;
      }
      var cmp, cmpNeg := Decimal(num), false;
      if cmp[0] == MINUS {
        cmp, cmpNeg := cmp[1..], true;
      }
      var same := StrNCmp(digits, cmp);
      Recheck(digits, num, neg, same);
      if neg != cmpNeg || !same || (|digits| != |cmp| && IsDigit(CharAt(digits, |cmp|))) {
        erange := true;
      }
    }
    if erange {
      num := if neg then INT64_MIN else INT64_MAX;
    }
  }

  // strncmp(s, t, strlen(t)) == 0
  method StrNCmp(s: seq<byte>, t: seq<byte>) returns (same: bool)
    ensures same <==> t <= s
  {
    same := |t| <= |s| && s[..|t|] == t;
  }

  // The printed digits agree with the digits read exactly if the values agree.
  lemma Recheck(digits: seq<byte>, num: int, neg: bool, same: bool)
    requires digits != [] && AllDigits(digits) && (digits[0] != ZERO || |digits| == 1)
    requires var cmp := Digits(if num < 0 then -num else num); same <==> cmp <= digits
    ensures Decimal(num)[0] == MINUS <==> num < 0
    ensures var cmp := Digits(if num < 0 then -num else num);
      && (same && (|digits| == |cmp| || !IsDigit(CharAt(digits, |cmp|))) <==>
        Value(digits) == if num < 0 then -num else num)
      && (num < 0 ==> Decimal(num)[1..] == cmp)
  {
    var m := if num < 0 then -num else num;
    ValueDigits(m);
    DigitsValue(digits);
    var cmp := Digits(m);
    if same && (|digits| == |cmp| || !IsDigit(CharAt(digits, |cmp|))) {
      assert digits == cmp;
    }
    assert Decimal(num)[0] == if num < 0 then MINUS else cmp[0];
    assert IsDigit(cmp[0]);
  }
}
