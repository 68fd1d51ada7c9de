/** The integer part of `formatSize`: which unit a byte count is shown in
    and by what the count is divided. The `%.2f` rendering of the quotient
    is floating point and is not modelled; the label keeps the whole part
    of the quotient instead. */
module SizeFormat {

  /** Go's `int64`. */
  newtype int64 = x: int | -0x8000_0000_0000_0000 <= x < 0x8000_0000_0000_0000

  /** The `unit` constant of `formatSize`. */
  const Unit: int64 := 1024

  /** `maxUploadSize`, 5 << 30 bytes. */
  const MaxUploadSize: int64 := 5 * 0x4000_0000

  /** The unit letters, indexed by the exponent the loop computes. */
  const UnitLetters: string := "KMGTPE"

  /** What `formatSize` renders: the count itself with `B`, or the count
      divided by a power of 1024 with that power's letter. */
  datatype SizeLabel =
    | Bytes(count: int)
    | Scaled(whole: int, divisor: int, letter: char)

  function Pow1024(k: nat): (p: nat)
    ensures p >= 1
  {
    if k == 0 then 1 else 1024 * Pow1024(k - 1)
  }

  lemma {:induction false} Pow1024Monotonic(j: nat, k: nat)
    requires j <= k
    ensures Pow1024(j) <= Pow1024(k)
    decreases k
  {
    if j < k {
      Pow1024Monotonic(j, k - 1);
    }
  }

  /** The exponent of the unit for `b` bytes: one less than the number of
      times 1024 can be taken out of `b`. */
  function UnitExponent(b: int): (e: nat)
    requires b >= 1024
    ensures Pow1024(e + 1) <= b < Pow1024(e + 2)
    decreases b
  {
    if b < 1024 * 1024 then 0 else 1 + UnitExponent(b / 1024)
  }

  /** The unit is the largest power of 1024 that does not exceed `b`: any
      exponent bracketing `b` the same way is `UnitExponent(b)`. */
  lemma UnitExponentUnique(b: int, e: nat)
    requires b >= 1024
    requires Pow1024(e + 1) <= b < Pow1024(e + 2)
    ensures e == UnitExponent(b)
  {
    var u := UnitExponent(b);
    if e < u {
      Pow1024Monotonic(e + 2, u + 1);
    } else if u < e {
      Pow1024Monotonic(u + 2, e + 1);
    }
  }

  /** No `int64` reaches 1024^7 = 2^70, so the exponent indexes `KMGTPE`. */
  lemma ExponentFitsLetters(b: int, e: nat)
    requires b < 0x8000_0000_0000_0000
    requires Pow1024(e + 1) <= b
    ensures e < |UnitLetters|
  {
    if e >= 6 {
      Pow1024Monotonic(7, e + 1);
    }
  }

  /** The label `formatSize` chooses for `bytes`. */
  function Label(bytes: int64): (r: SizeLabel)
    ensures r.Bytes? <==> bytes < Unit
    ensures r.Scaled? ==> r.letter in UnitLetters && 1 <= r.whole < 1024
  {
    if bytes < Unit then Bytes(bytes as int)
    else
      var e := UnitExponent(bytes as int);
      ExponentFitsLetters(bytes as int, e);
      QuotientInRange(bytes as int, Pow1024(e + 1));
      Scaled(bytes as int / Pow1024(e + 1), Pow1024(e + 1), UnitLetters[e])
  }

  /** The integer arithmetic of `formatSize`: the plain-bytes branch for
      counts under 1024, otherwise the loop that divides by 1024 until the
      quotient is under 1024. */
  method FormatSize(bytes: int64) returns (r: SizeLabel)
    ensures r.Bytes? <==> bytes < Unit
    ensures r.Bytes? ==> r.count == bytes as int
    ensures r.Scaled? ==>
              exists e: nat :: e < |UnitLetters| && r.letter == UnitLetters[e] &&
                r.divisor == Pow1024(e + 1) &&
                Pow1024(e + 1) <= bytes as int < Pow1024(e + 2) &&
                r.whole == bytes as int / r.divisor && 1 <= r.whole < 1024
    ensures r == Label(bytes)
  {
    if bytes < Unit {
      return Bytes(bytes as int);
    }
    var div, exp := Unit, 0;
    var n := bytes / Unit;
    while n >= Unit
      invariant div as int == Pow1024(exp + 1)
      invariant n as int == bytes as int / div as int
      invariant 1 <= n && div as int <= bytes as int
      decreases n
    {
      DivStep(bytes as int, div as int);
      div, exp := div * Unit, exp + 1;
      n := n / Unit;
    }
    DivBelow(bytes as int, div as int);
    assert Pow1024(exp + 2) == 1024 * (div as int);
    QuotientInRange(bytes as int, div as int);
    ExponentFitsLetters(bytes as int, exp);
    UnitExponentUnique(bytes as int, exp);
    r := Scaled(n as int, div as int, UnitLetters[exp]);
  }

  /** On loop exit the quotient is under 1024, so the count is under the
      next power. */
  lemma DivBelow(b: int, d: int)
    requires 0 < d && 0 <= b && b / d < 1024
    ensures b < 1024 * d
  {
  }

  /** One turn of the loop: dividing the quotient by 1024 is dividing the
      count by the next power, and that power still fits the count. */
  lemma DivStep(b: int, d: int)
    requires 0 < d && 0 <= b && b / d >= 1024
    ensures (b / d) / 1024 == b / (d * 1024)
    ensures d * 1024 <= b
  {
    var q, r := b / d, b % d;
    var q', r' := q / 1024, q % 1024;
    var dd := d * 1024;
    assert b == q * d + r;
    assert q == q' * 1024 + r';
    MulSign(q - 1024, d);
    Distrib(q, 1024, d);
    Distrib(q' * 1024, r', d);
    assert q' * 1024 * d == q' * dd;
    MulSign(r', d);
    MulSign(1024 - r', d);
    Distrib(1024, r', d);
    DivUnique(b, dd, q', r' * d + r);
  }

  lemma QuotientInRange(b: int, d: int)
    requires 0 < d <= b < 1024 * d
    ensures 1 <= b / d < 1024
  {
  }

  lemma DivUnique(b: int, d: int, q: int, r: int)
    requires d > 0 && 0 <= r < d && b == q * d + r
    ensures b / d == q
  {
    var q0, r0 := b / d, b % d;
    assert q0 * d + r0 == q * d + r;
    Distrib(q, q0, d);
    Distrib(q0, q, d);
    MulSign(q - q0, d);
    MulSign(q0 - q, d);
  }

  lemma MulSign(a: int, d: int)
    requires d > 0
    ensures a >= 1 ==> a * d >= d
    ensures a >= 0 ==> a * d >= 0
    ensures a <= 0 ==> a * d <= 0
  {
  }

  lemma Distrib(x: int, y: int, d: int)
    ensures (x + y) * d == x * d + y * d
    ensures (x - y) * d == x * d - y * d
  {
  }

  /** The banner's "Max upload size": 5 << 30 bytes is shown as `5.00 GB`,
      the exponent 2 with divisor 2^30. */
  lemma MaxUploadSizeLabel()
    ensures Label(MaxUploadSize) == Scaled(5, 0x4000_0000, 'G')
  {
  }
}
