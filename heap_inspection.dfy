/**
  The inline helpers of the heap histogram: the width of a number column
  (julong_width, col_width), the padded printing of a number
  (print_julong), and the byte counts of metadata objects (count,
  count_array, and their copies count_bytes, count_bytes_array).
*/
module HeapInspection {
  import opened Decimal

  /** julong: an unsigned 64-bit integer. */
  type julong = n: nat | n < 0x1_0000_0000_0000_0000

  const IntMax: int := 0x7FFF_FFFF

  function Pow10(k: nat): (p: nat)
    ensures p >= 1
  {
    if k == 0 then 1 else 10 * Pow10(k - 1)
  }

  lemma {:induction false} Pow10Monotone(a: nat, b: nat)
    requires a <= b
    ensures Pow10(a) <= Pow10(b)
    decreases b
  {
    if a < b {
      Pow10Monotone(a, b - 1);
    }
  }

  /** The number of decimal digits of n; 0 has one. */
  function DigitCount(n: nat): (w: nat)
    ensures w >= 1
  {
    if n < 10 then 1 else 1 + DigitCount(n / 10)
  }

  /** DigitCount(n) is the digit count: 10^(w-1) <= n < 10^w for n > 0. */
  lemma {:induction false} DigitCountBounds(n: nat)
    ensures n < Pow10(DigitCount(n))
    ensures n > 0 ==> Pow10(DigitCount(n) - 1) <= n
  {
    if n >= 10 {
      DigitCountBounds(n / 10);
      var w := DigitCount(n / 10);
      assert n / 10 + 1 <= Pow10(w);
      assert n < 10 * (n / 10 + 1);
    }
  }

  /** The bounds single out the count: no other width fits n. */
  lemma DigitCountUnique(n: nat, w: nat)
    requires w >= 1 && n < Pow10(w)
    requires if n == 0 then w == 1 else Pow10(w - 1) <= n
    ensures w == DigitCount(n)
  {
    var d := DigitCount(n);
    DigitCountBounds(n);
    if n > 0 {
      if w < d {
        Pow10Monotone(w, d - 1);
      } else if w > d {
        Pow10Monotone(d, w - 1);
      }
    } else {
      assert d == 1;
    }
  }

  /** julong_width: how many decimal digits n prints as. */
  method JulongWidth(n: julong) returns (w: int)
    ensures w == DigitCount(n)
    ensures w >= 1 && n < Pow10(w) && (n > 0 ==> Pow10(w - 1) <= n)
  {
    DigitCountBounds(n);
    if n == 0 {
      return 1;
    }
    w := 0;
    var m: julong := n;
    while m > 0
      invariant 0 <= w
      invariant m > 0 ==> w + DigitCount(m) == DigitCount(n)
      invariant m == 0 ==> w == DigitCount(n)
      decreases m
    {
      m := m / 10;
      w := w + 1;
    }
  }

  function Max(a: int, b: int): int
  {
    if a < b then b else a
  }

  /** col_width: the wider of the number and the column name, plus one
      leading space. The name's length is cast to int, so names shorter than
      2^31 are the ones it measures. */
  method ColWidth(n: julong, name: string) returns (w: int)
    requires |name| <= IntMax
    ensures w == Max(DigitCount(n), |name|) + 1
    ensures w > DigitCount(n) && w > |name|
  {
    w := JulongWidth(n);
    var min := |name| as int;
    if w < min {
      w := min;
    }
    return w + 1;
  }

  function DigitChar(d: nat): (c: char)
    requires d < 10
    ensures IsDigit(c) && c as int - '0' as int == d
  {
    ('0' as int + d) as char
  }

  /** JULONG_FORMAT: the decimal digits of n, most significant first. */
  function Digits(n: nat): (s: string)
    decreases n
  {
    if n < 10 then [DigitChar(n)] else Digits(n / 10) + [DigitChar(n % 10)]
  }

  /** The digits of n are DigitCount(n) digits without a leading zero, and
      they spell n. */
  lemma {:induction false} DigitsFacts(n: nat)
    ensures |Digits(n)| == DigitCount(n) && AllDigits(Digits(n))
    ensures DigitsValue(Digits(n)) == n
    ensures n > 0 ==> Digits(n)[0] != '0'
    decreases n
  {
    if n >= 10 {
      DigitsFacts(n / 10);
      var s := Digits(n);
      assert s[..|s| - 1] == Digits(n / 10);
      assert Digits(n / 10)[0] == s[0];
    }
  }

  /** k spaces, none when k is not positive. */
  function Spaces(k: int): (s: string)
    ensures |s| == Max(k, 0) && forall i :: 0 <= i < |s| ==> s[i] == ' '
  {
    if k <= 0 then [] else seq(k, i => ' ')
  }

  /** print_julong: the number right-aligned in width columns: as many
      spaces as the width exceeds its digits, then the digits. The output is
      never shorter than the digits. */
  method PrintJulong(width: int, n: julong) returns (out: string)
    ensures out == Spaces(width - DigitCount(n)) + Digits(n)
    ensures |out| == Max(width, DigitCount(n))
  {
    var w := JulongWidth(n);
    var numSpaces := width - w;
    out := [];
    if numSpaces > 0 {
      out := Spaces(numSpaces);
    }
    assert |Digits(n)| == w by {
      DigitsFacts(n);
    }
    out := out + Digits(n);
  }

  // ------------------------------------------------------------------
  // Byte counts

  /** HeapWordSize on a 64-bit VM. */
  const HeapWordSize: int := 8

  /** A C pointer: null or an object. */
  datatype Ptr<T> = Null | To(target: T)

  /** A metadata object, by its size() in heap words. */
  datatype Obj = Obj(size: nat)

  /** A metadata array, by its length() and its size() in heap words. */
  datatype Arr = Arr(length: nat, size: nat)

  /** The int product HeapWordSize * size() does not overflow. */
  predicate CountFits(size: nat)
  {
    HeapWordSize * size <= IntMax
  }

  /** count / count_bytes: the bytes of an object, 0 for null. */
  function Count(x: Ptr<Obj>): (r: int)
    requires x.To? ==> CountFits(x.target.size)
    ensures 0 <= r <= IntMax && r % HeapWordSize == 0
    ensures r == 0 <==> x.Null? || x.target.size == 0
    ensures x.To? ==> r == HeapWordSize * x.target.size
  {
    HeapWordSize * (if x.To? then x.target.size else 0)
  }

  /** count_array / count_bytes_array: the bytes of an array, 0 for null and
      for the shared empty arrays, which are not counted again. */
  function CountArray(x: Ptr<Arr>): (r: int)
    requires x.To? ==> CountFits(x.target.size)
    ensures 0 <= r <= IntMax && r % HeapWordSize == 0
    ensures r == 0 <==> x.Null? || x.target.length == 0 || x.target.size == 0
    ensures x.To? && x.target.length > 0 ==> r == HeapWordSize * x.target.size
  {
    if x.Null? then 0
    else if x.target.length == 0 then 0
    else HeapWordSize * x.target.size
  }

  /** An array counts as the object of its size, except that an empty one
      counts nothing. */
  lemma CountArrayAsObject(x: Ptr<Arr>)
    requires x.To? ==> CountFits(x.target.size)
    ensures CountArray(x) ==
      if x.To? && x.target.length == 0 then 0
      else Count(if x.Null? then Null else To(Obj(x.target.size)))
    ensures CountArray(x) <= Count(if x.Null? then Null else To(Obj(x.target.size)))
  {
  }
}
