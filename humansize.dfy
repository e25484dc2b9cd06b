/** `human_readable_size`: which unit a byte count is shown in, and the
    exact magnitude that is then rendered with one decimal. */
module HumanSize {
  import opened Text

  datatype Unit = KB | MB | GB | TB | PB

  /** Under 1024 bytes the exact text "<n> B"; from 1024 on, a magnitude
      and the unit it is expressed in. */
  datatype Readable = Bytes(text: string) | Scaled(magnitude: real, unit: Unit)

  /** Number of times 1024 divides into one of the unit. */
  function Exponent(u: Unit): nat
  {
    match u
    case KB => 1
    case MB => 2
    case GB => 3
    case TB => 4
    case PB => 5
  }

  function Pow1024(k: nat): (p: nat)
    ensures p >= 1
  {
    if k == 0 then 1 else 1024 * Pow1024(k - 1)
  }

  /** The first unit in which the count is below 1024, capped at PB. */
  function UnitFor(n: nat): (u: Unit)
    requires n >= 1024
    ensures Pow1024(Exponent(u)) <= n
    ensures u != PB ==> n < Pow1024(Exponent(u) + 1)
  {
    if n < Pow1024(2) then KB
    else if n < Pow1024(3) then MB
    else if n < Pow1024(4) then GB
    else if n < Pow1024(5) then TB
    else PB
  }

  /** Exactly one unit brackets each count of at least 1024 bytes. */
  lemma UnitForUnique(n: nat, u: Unit)
    requires n >= 1024
    requires Pow1024(Exponent(u)) <= n
    requires u != PB ==> n < Pow1024(Exponent(u) + 1)
    ensures u == UnitFor(n)
  {
  }

  /** A larger count never gets a smaller unit. */
  lemma UnitForMonotone(n: nat, m: nat)
    requires 1024 <= n <= m
    ensures Exponent(UnitFor(n)) <= Exponent(UnitFor(m))
  {
  }

  /** Dividing by a power at most the count gives at least 1, and below
      1024 when the count is below the next power. */
  lemma ScaledBounds(n: real, p: real)
    requires 1.0 <= p <= n
    ensures (n / p) * p == n
    ensures 1.0 <= n / p
    ensures n < 1024.0 * p <==> n / p < 1024.0
  {
    var x := n / p;
    assert x * p == n;
    assert (1.0 - x) * p == p - n;
    assert (x - 1024.0) * p == n - 1024.0 * p;
  }

  lemma MagnitudeBounds(n: nat, k: nat)
    requires Pow1024(k) <= n
    ensures var x := n as real / Pow1024(k) as real;
      && x * Pow1024(k) as real == n as real
      && 1.0 <= x
      && (n < Pow1024(k + 1) <==> x < 1024.0)
  {
    assert Pow1024(k + 1) as real == 1024.0 * Pow1024(k) as real;
    ScaledBounds(n as real, Pow1024(k) as real);
  }

  /** `human_readable_size` with the last unit scaled like the others:
      the count in bytes below 1024, otherwise the count divided by the
      chosen unit, which lies in [1, 1024) except beyond 1024 PB. */
  function ReadableFor(n: nat): (r: Readable)
    ensures r.Bytes? <==> n < 1024
    ensures r.Scaled? ==> r.unit == UnitFor(n)
    ensures r.Scaled? ==> r.magnitude * Pow1024(Exponent(r.unit)) as real == n as real
    ensures r.Scaled? ==> 1.0 <= r.magnitude && (r.unit != PB ==> r.magnitude < 1024.0)
  {
    if n < 1024 then Bytes(Decimal(n) + " B")
    else
      var u := UnitFor(n);
      MagnitudeBounds(n, Exponent(u));
      Scaled(n as real / Pow1024(Exponent(u)) as real, u)
  }

  /** How many times the unit loop divides by 1024 before it stops at
      a unit: once per unit up to TB, and no fifth time for PB. */
  function Divisions(u: Unit): (k: nat)
    ensures k <= 4 && (u != PB ==> k == Exponent(u))
  {
    if u == PB then 4 else Exponent(u)
  }

  /** `human_readable_size` as written: the loop divides once per unit
      from KB to TB, and the count that is still 1024 or more after the
      TB step is labelled PB without a fifth division. The magnitude is
      still at least 1, but from PB on it is 1024 or more. */
  function ReadableAsWritten(n: nat): (r: Readable)
    ensures r.Bytes? <==> n < 1024
    ensures r.Scaled? ==> r.unit == UnitFor(n)
    ensures r.Scaled? ==> r.magnitude * Pow1024(Divisions(r.unit)) as real == n as real
    ensures r.Scaled? ==> 1.0 <= r.magnitude && (r.unit != PB <==> r.magnitude < 1024.0)
  {
    if n < 1024 then Bytes(Decimal(n) + " B")
    else
      var u := UnitFor(n);
      var k := Divisions(u);
      MagnitudeBounds(n, k);
      Scaled(n as real / Pow1024(k) as real, u)
  }

  /** The two agree below 1024^5 bytes; from there on the written
      version shows a magnitude 1024 times too large, so exactly 1024^5
      bytes reads "1024.0 PB" instead of "1.0 PB". */
  lemma PetabyteMagnitude(n: nat)
    ensures n < Pow1024(5) ==> ReadableAsWritten(n) == ReadableFor(n)
    ensures n >= Pow1024(5) ==> ReadableAsWritten(n).unit == ReadableFor(n).unit == PB
    ensures n >= Pow1024(5) ==>
      ReadableAsWritten(n).magnitude == 1024.0 * ReadableFor(n).magnitude >= 1024.0
    ensures ReadableAsWritten(Pow1024(5)) == Scaled(1024.0, PB)
    ensures ReadableFor(Pow1024(5)) == Scaled(1.0, PB)
  {
    if n >= Pow1024(5) {
      var p4 := Pow1024(4) as real;
      var x := n as real / (1024.0 * p4);
      assert Pow1024(5) as real == 1024.0 * p4;
      assert n as real / p4 == 1024.0 * x;
      MagnitudeBounds(n, 5);
    }
    var n5 := Pow1024(5);
    assert n5 as real / Pow1024(4) as real == 1024.0;
    assert n5 as real / Pow1024(5) as real == 1.0;
  }

  lemma QuotientStep(n: real, p: real)
    requires 1.0 <= p && 0.0 <= n
    ensures (n / p) / 1024.0 == n / (1024.0 * p)
    ensures n / (1024.0 * p) < 1024.0 <==> n < 1024.0 * (1024.0 * p)
  {
    var q := 1024.0 * p;
    var x := n / q;
    assert x * q == n;
    assert (x * 1024.0) * p == n;
    assert n / p == x * 1024.0;
    assert (x - 1024.0) * q == n - 1024.0 * q;
  }

  /** One more division by 1024 moves the quotient to the next power,
      and the quotient is below 1024 exactly when the count is below the
      power after that. */
  lemma DivideStep(n: nat, k: nat)
    requires 1 <= k
    ensures (n as real / Pow1024(k - 1) as real) / 1024.0 == n as real / Pow1024(k) as real
    ensures n as real / Pow1024(k) as real < 1024.0 <==> n < Pow1024(k + 1)
  {
    var p := Pow1024(k - 1) as real;
    assert Pow1024(k) as real == 1024.0 * p;
    assert Pow1024(k + 1) as real == 1024.0 * (1024.0 * p);
    QuotientStep(n as real, p);
  }

  /** The unit whose powers bracket the count gives the written
      rendering, divided as many times as the loop divides. */
  lemma ReadableAt(n: nat, u: Unit)
    requires n >= 1024 && Pow1024(Exponent(u)) <= n
    requires u != PB ==> n < Pow1024(Exponent(u) + 1)
    ensures ReadableAsWritten(n) == Scaled(n as real / Pow1024(Divisions(u)) as real, u)
  {
    UnitForUnique(n, u);
  }

  /** `human_readable_size`, unit loop included, as the source writes it. */
  method HumanReadableSize(nbytes: nat) returns (r: Readable)
    ensures r == ReadableAsWritten(nbytes)
  {
    if nbytes < 1024 {
      return Bytes(Decimal(nbytes) + " B");
    }
    var x: real := nbytes as real;
    var units := [KB, MB, GB, TB];
    for i := 0 to |units|
      invariant Pow1024(i + 1) <= nbytes
      invariant x == nbytes as real / Pow1024(i) as real
    {
      assert Exponent(units[i]) == i + 1;
      DivideStep(nbytes, i + 1);
      x := x / 1024.0;
      if x < 1024.0 {
        ReadableAt(nbytes, units[i]);
        return Scaled(x, units[i]);
      }
    }
    ReadableAt(nbytes, PB);
    return Scaled(x, PB);
  }
}
