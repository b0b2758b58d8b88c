/** Conversion between units of measurement, over exact numbers (Units.h). */
module Units {

  // A unit as the templates build it: num / den is the factor, the offset or the power.
  datatype Unit =
    | Base(id: nat)
    | Scale(unit: Unit, num: int, den: int)
    | Translate(unit: Unit, num: int, den: int)
    | Compose(left: Unit, right: Unit)
    | Pow(unit: Unit, num: int, den: int)
  {
    // No factor is zero, no denominator either.
    predicate Valid() {
      match this
      case Base(_) => true
      case Scale(u, n, d) => u.Valid() && n != 0 && d != 0
      case Translate(u, _, d) => u.Valid() && d != 0
      case Compose(a, b) => a.Valid() && b.Valid()
      case Pow(u, _, d) => u.Valid() && d != 0
    }
  }

  function Ratio(num: int, den: int): real
    requires den != 0
  {
    num as real / den as real
  }

  // ---------- powers ----------

  function RaiseNat(x: real, n: nat): real {
    if n == 0 then 1.0 else x * RaiseNat(x, n - 1)
  }

  lemma {:induction false} RaiseNonZero(x: real, n: nat)
    requires x != 0.0
    ensures RaiseNat(x, n) != 0.0
  {
    if n > 0 {
      RaiseNonZero(x, n - 1);
    }
  }

  function Raise(x: real, n: int): (r: real)
    requires x != 0.0
    ensures r != 0.0
  {
    if n >= 0 then RaiseNonZero(x, n); RaiseNat(x, n)
    else RaiseNonZero(x, -n); 1.0 / RaiseNat(x, -n)
  }

  // A number counted in parts of the unit, and the reverse.
  function Scaled(v: real, num: int, den: int): real
    requires den != 0
  {
    v * num as real / den as real
  }

  function Unscaled(v: real, num: int, den: int): real
    requires num != 0
  {
    v * den as real / num as real
  }

  // A number carried over from one scaling factor to another.
  function Rescaled(v: real, to: real, from: real): real
    requires from != 0.0
  {
    v * to / from
  }

  lemma ScaledNonZero(v: real, num: int, den: int)
    requires v != 0.0 && num != 0 && den != 0
    ensures Scaled(v, num, den) != 0.0
  {
    Unscale(v, num, den);
  }

  // ---------- scaling factors and conversion, as the templates compute them ----------

  // std::pow: the power num / den of a number. All that is asked of it is that powers of positive numbers are positive.
  type Power = (real, int, int) -> real

  ghost predicate IsPower(power: Power) {
    forall x, n, d {:trigger power(x, n, d)} :: x > 0.0 && d != 0 ==> power(x, n, d) > 0.0
  }

  // A unit with a scaling factor: no factor is zero, and only positive ones have powers that are not whole.
  ghost predicate Usable(power: Power, u: Unit)
    decreases u, 0
  {
    IsPower(power) &&
    match u
    case Base(_) => true
    case Scale(v, n, d) => Usable(power, v) && n != 0 && d != 0
    case Translate(v, _, d) => Usable(power, v) && d != 0
    case Compose(a, b) => Usable(power, a) && Usable(power, b)
    case Pow(v, n, d) => Usable(power, v) && d != 0 && (n % d == 0 || ScalingFactor(power, v) > 0.0)
  }

  function ScalingFactor(power: Power, u: Unit): (r: real)
    requires Usable(power, u)
    ensures r != 0.0
    decreases u, 1
  {
    match u
    case Base(_) => 1.0
    case Compose(a, b) => ScalingFactor(power, a) * ScalingFactor(power, b)
    case Scale(v, n, d) => ScaledNonZero(ScalingFactor(power, v), n, d); Scaled(ScalingFactor(power, v), n, d)
    case Pow(v, n, d) =>
      if n % d == 0 then Raise(ScalingFactor(power, v), n / d) else power(ScalingFactor(power, v), n, d)
    case Translate(v, _, _) => ScalingFactor(power, v)
  }

  // The same unit needs no conversion; otherwise the layers of the first unit are taken off.
  function Convert(power: Power, t1: Unit, t2: Unit, v: real): real
    requires Usable(power, t1) && Usable(power, t2)
    decreases t1, t2, 1
  {
    if t1 == t2 then v
    else
      match t1
      case Scale(u, n, d) => Convert(power, u, t2, Unscaled(v, n, d))
      case Translate(u, n, d) => Convert(power, u, t2, v - Ratio(n, d))
      case _ => Convert3(power, t1, t2, v)
  }

  // Then those of the second are put on, and in between the scaling factors decide.
  function Convert3(power: Power, t1: Unit, t2: Unit, v: real): real
    requires Usable(power, t1) && Usable(power, t2) && !t1.Scale? && !t1.Translate?
    decreases t1, t2, 0
  {
    match t2
    case Scale(u, n, d) => Scaled(Convert(power, t1, u, v), n, d)
    case Translate(u, n, d) => Convert(power, t1, u, v) + Ratio(n, d)
    case _ => Rescaled(v, ScalingFactor(power, t2), ScalingFactor(power, t1))
  }

  // ---------- what a value stands for ----------

  // The quantity that the value v in the unit u stands for, in the base units.
  function Quantity(power: Power, u: Unit, v: real): real
    requires Usable(power, u)
  {
    match u
    case Scale(w, n, d) => Quantity(power, w, Unscaled(v, n, d))
    case Translate(w, n, d) => Quantity(power, w, v - Ratio(n, d))
    case _ => Rescaled(v, 1.0, ScalingFactor(power, u))
  }

  // Different values stand for different quantities.
  lemma {:induction false} QuantityInjective(power: Power, u: Unit, v: real, w: real)
    requires Usable(power, u) && Quantity(power, u, v) == Quantity(power, u, w)
    ensures v == w
  {
    match u
    case Scale(x, n, d) =>
      QuantityInjective(power, x, Unscaled(v, n, d), Unscaled(w, n, d));
      UnscaledInjective(v, w, n, d);
    case Translate(x, n, d) =>
      QuantityInjective(power, x, v - Ratio(n, d), w - Ratio(n, d));
    case _ =>
      RescaledInjective(v, w, ScalingFactor(power, u));
  }

  lemma UnscaledInjective(v: real, w: real, n: int, d: int)
    requires n != 0 && d != 0 && Unscaled(v, n, d) == Unscaled(w, n, d)
    ensures v == w
  {
    Unscale(v, n, d);
    Unscale(w, n, d);
  }

  lemma RescaledInjective(v: real, w: real, f: real)
    requires f != 0.0 && Rescaled(v, 1.0, f) == Rescaled(w, 1.0, f)
    ensures v == w
  {
    Undivide(v, f, Rescaled(v, 1.0, f));
    Undivide(w, f, Rescaled(w, 1.0, f));
  }

  // Taking a scale off undoes putting it on, and the other way round.
  lemma Unscale(v: real, n: int, d: int)
    requires n != 0 && d != 0
    ensures Scaled(Unscaled(v, n, d), n, d) == v && Unscaled(Scaled(v, n, d), n, d) == v
  {
    ScaleBack(v, n as real, d as real, v * d as real / n as real);
    ScaleBack(v, d as real, n as real, v * n as real / d as real);
  }

  lemma ScaleBack(v: real, n: real, d: real, w: real)
    requires n != 0.0 && d != 0.0 && w == v * d / n
    ensures w * n / d == v
  {
    Undivide(v * d, n, w);
    assert w * n == v * d;
    assert v * d / d == v;
  }

  lemma Undivide(v: real, f: real, q: real)
    requires f != 0.0 && q == v / f
    ensures q * f == v
  {
  }

  // A conversion keeps the quantity - so, by the lemma before, it is the one value that does.
  lemma {:induction false} ConvertKeepsQuantity(power: Power, t1: Unit, t2: Unit, v: real)
    requires Usable(power, t1) && Usable(power, t2)
    ensures Quantity(power, t2, Convert(power, t1, t2, v)) == Quantity(power, t1, v)
    decreases t1, t2, 1
  {
    if t1 == t2 {
    } else {
      match t1
      case Scale(u, n, d) =>
        ConvertKeepsQuantity(power, u, t2, Unscaled(v, n, d));
      case Translate(u, n, d) =>
        ConvertKeepsQuantity(power, u, t2, v - Ratio(n, d));
      case _ =>
        Convert3KeepsQuantity(power, t1, t2, v);
    }
  }

  lemma {:induction false} Convert3KeepsQuantity(power: Power, t1: Unit, t2: Unit, v: real)
    requires Usable(power, t1) && Usable(power, t2) && !t1.Scale? && !t1.Translate?
    ensures Quantity(power, t2, Convert3(power, t1, t2, v)) == Quantity(power, t1, v)
    decreases t1, t2, 0
  {
    match t2
    case Scale(u, n, d) =>
      var w := Convert(power, t1, u, v);
      ConvertKeepsQuantity(power, t1, u, v);
      Unscale(w, n, d);
    case Translate(u, n, d) =>
      ConvertKeepsQuantity(power, t1, u, v);
    case _ =>
      var f, g := ScalingFactor(power, t1), ScalingFactor(power, t2);
      FactorsCancel(v, f, g, Rescaled(v, 1.0, f), Rescaled(v, g, f));
  }

  lemma FactorsCancel(v: real, f: real, g: real, q: real, w: real)
    requires f != 0.0 && g != 0.0 && q == Rescaled(v, 1.0, f) && w == Rescaled(v, g, f)
    ensures Rescaled(w, 1.0, g) == q
  {
    Undivide(v, f, q);
    Undivide(v * g, f, w);
    SameFactor(w, q * g, f) by {
      assert q * g * f == q * f * g;
    }
    Divide(q, g, w);
  }

  lemma SameFactor(a: real, b: real, f: real)
    requires f != 0.0 && a * f == b * f
    ensures a == b
  {
    assert (a - b) * f == 0.0;
  }

  lemma Divide(q: real, f: real, v: real)
    requires f != 0.0 && v == q * f
    ensures v / f == q
  {
  }

  // By way of another unit, whichever it is, the result is the same.
  lemma PathIndependent(power: Power, t1: Unit, t2: Unit, t3: Unit, v: real)
    requires Usable(power, t1) && Usable(power, t2) && Usable(power, t3)
    ensures Convert(power, t2, t3, Convert(power, t1, t2, v)) == Convert(power, t1, t3, v)
  {
    var w := Convert(power, t1, t2, v);
    ConvertKeepsQuantity(power, t1, t2, v);
    ConvertKeepsQuantity(power, t2, t3, w);
    ConvertKeepsQuantity(power, t1, t3, v);
    QuantityInjective(power, t3, Convert(power, t2, t3, w), Convert(power, t1, t3, v));
  }

  // And back is where it started.
  lemma RoundTrip(power: Power, t1: Unit, t2: Unit, v: real)
    requires Usable(power, t1) && Usable(power, t2)
    ensures Convert(power, t2, t1, Convert(power, t1, t2, v)) == v
  {
    PathIndependent(power, t1, t2, t1, v);
  }

  // ---------- units without offsets ----------

  // No offset outside a product or a power; those inside count for nothing.
  predicate Linear(u: Unit) {
    match u
    case Scale(w, _, _) => Linear(w)
    case Translate(_, _, _) => false
    case _ => true
  }

  // A product by name, so that a proof can pass it on without multiplying out.
  predicate IsProduct(r: real, p: real, q: real) {
    r == p * q
  }

  // Then the scaling factor is all there is to a unit.
  lemma {:induction false} LinearQuantity(power: Power, u: Unit, v: real)
    requires Usable(power, u) && Linear(u)
    ensures IsProduct(v, Quantity(power, u, v), ScalingFactor(power, u))
  {
    if u.Scale? {
      var x := Unscaled(v, u.num, u.den);
      LinearQuantity(power, u.unit, x);
      ScaleFactor(v, ScalingFactor(power, u.unit), u.num, u.den, x, ScalingFactor(power, u), Quantity(power, u.unit, x));
    } else {
      DivideOut(v, ScalingFactor(power, u), Quantity(power, u, v));
    }
  }

  lemma DivideOut(v: real, f: real, q: real)
    requires f != 0.0 && q == Rescaled(v, 1.0, f)
    ensures IsProduct(v, q, f)
  {
  }

  lemma ScaleFactor(v: real, f: real, n: int, d: int, x: real, g: real, q: real)
    requires n != 0 && d != 0 && x == Unscaled(v, n, d) && g == Scaled(f, n, d) && IsProduct(x, q, f)
    ensures IsProduct(v, q, g)
  {
    var m, e := n as real, d as real;
    Undivide(v * e, m, x);
    Undivide(f * m, e, g);
    SameFactor(q * g, v, e) by {
      assert q * g * e == q * (f * m) == x * m;
    }
  }

  // The product of two values in the product of their units stands for the product of the quantities.
  lemma ProductQuantity(power: Power, a: Unit, b: Unit, x: real, y: real)
    requires Usable(power, a) && Usable(power, b) && Linear(a) && Linear(b)
    ensures IsProduct(Quantity(power, Compose(a, b), x * y), Quantity(power, a, x), Quantity(power, b, y))
  {
    var xy, u := x * y, Compose(a, b);
    LinearQuantity(power, a, x);
    LinearQuantity(power, b, y);
    LinearQuantity(power, u, xy);
    FactorsMultiply(Quantity(power, a, x), ScalingFactor(power, a), x, Quantity(power, b, y), ScalingFactor(power, b), y,
                    Quantity(power, u, xy), ScalingFactor(power, u), xy);
  }

  lemma Exchange(p: real, f: real, q: real, g: real)
    ensures (p * f) * (q * g) == (p * q) * (f * g)
  {
    assert (p * f) * (q * g) == p * (f * (q * g));
    assert f * (q * g) == q * (f * g);
    assert p * (q * (f * g)) == (p * q) * (f * g);
  }

  lemma FactorsMultiply(p: real, f: real, x: real, q: real, g: real, y: real, r: real, h: real, z: real)
    requires h != 0.0 && h == f * g && z == x * y && IsProduct(x, p, f) && IsProduct(y, q, g) && IsProduct(z, r, h)
    ensures IsProduct(r, p, q)
  {
    Exchange(p, f, q, g);
    SameFactor(r, p * q, h);
  }

  // ---------- scales, offsets and powers ----------

  // A value of u counted in the unit scale<u, n, d> is n / d times as large, and in translate<u, n, d> it is n / d larger.
  lemma LayersMean(power: Power, u: Unit, n: int, d: int, v: real)
    requires Usable(power, u) && n != 0 && d != 0
    ensures Convert(power, u, Scale(u, n, d), v) == v * (n as real / d as real)
    ensures Convert(power, Scale(u, n, d), u, v * (n as real / d as real)) == v
    ensures Convert(power, u, Translate(u, n, d), v) == v + n as real / d as real
    ensures Convert(power, Translate(u, n, d), u, v + n as real / d as real) == v
  {
    var scaled, moved := Scale(u, n, d), Translate(u, n, d);
    Unscale(v, n, d);
    assert v * (n as real / d as real) == v * n as real / d as real;
    ConvertKeepsQuantity(power, u, scaled, v);
    ConvertKeepsQuantity(power, u, moved, v);
    QuantityInjective(power, scaled, Convert(power, u, scaled, v), Scaled(v, n, d));
    QuantityInjective(power, moved, Convert(power, u, moved, v), v + Ratio(n, d));
    RoundTrip(power, u, scaled, v);
    RoundTrip(power, u, moved, v);
  }

  lemma {:induction false} RaiseMore(x: real, n: int)
    requires x != 0.0
    ensures Raise(x, n + 1) == x * Raise(x, n)
  {
    if n < 0 {
      RaiseNonZero(x, -n);
      RaiseNonZero(x, -n - 1);
      LessRaised(x, RaiseNat(x, -n - 1), RaiseNat(x, -n));
    }
  }

  lemma LessRaised(x: real, a: real, b: real)
    requires x != 0.0 && a != 0.0 && b == x * a
    ensures 1.0 / a == x * (1.0 / b)
  {
    var q := 1.0 / b;
    assert q * (x * a) == 1.0;
    Divide(x * q, a, 1.0);
  }

  // Two units without offsets and with the same scaling factor stand for the same quantities.
  lemma SameQuantity(power: Power, a: Unit, b: Unit, v: real)
    requires Usable(power, a) && Usable(power, b) && Linear(a) && Linear(b) && ScalingFactor(power, a) == ScalingFactor(power, b)
    ensures Quantity(power, a, v) == Quantity(power, b, v)
  {
    LinearQuantity(power, a, v);
    LinearQuantity(power, b, v);
    SameProduct(v, Quantity(power, a, v), Quantity(power, b, v), ScalingFactor(power, a));
  }

  lemma SameProduct(v: real, p: real, q: real, f: real)
    requires f != 0.0 && IsProduct(v, p, f) && IsProduct(v, q, f)
    ensures p == q
  {
    SameFactor(p, q, f);
  }

  // A power is a product of units: one more factor is one more quantity, whether the power is positive or negative.
  lemma PowerQuantity(power: Power, u: Unit, n: int, x: real, y: real)
    requires Usable(power, u) && Linear(u)
    ensures Usable(power, Pow(u, n, 1)) && Usable(power, Pow(u, n + 1, 1))
    ensures IsProduct(Quantity(power, Pow(u, n + 1, 1), x * y), Quantity(power, u, x), Quantity(power, Pow(u, n, 1), y))
  {
    ProductQuantity(power, u, Pow(u, n, 1), x, y);
    var xy := x * y;
    PowerAsProduct(power, u, n, xy);
  }

  lemma PowerAsProduct(power: Power, u: Unit, n: int, v: real)
    requires Usable(power, u) && Linear(u)
    ensures Usable(power, Compose(u, Pow(u, n, 1))) && Usable(power, Pow(u, n + 1, 1))
    ensures Quantity(power, Pow(u, n + 1, 1), v) == Quantity(power, Compose(u, Pow(u, n, 1)), v)
  {
    PowerFactor(power, u, n);
    SameQuantity(power, Pow(u, n + 1, 1), Compose(u, Pow(u, n, 1)), v);
  }

  lemma PowerFactor(power: Power, u: Unit, n: int)
    requires Usable(power, u)
    ensures Usable(power, Compose(u, Pow(u, n, 1))) && Usable(power, Pow(u, n + 1, 1))
    ensures ScalingFactor(power, Pow(u, n + 1, 1)) == ScalingFactor(power, Compose(u, Pow(u, n, 1)))
  {
    var f := ScalingFactor(power, u);
    RaiseMore(f, n);
    assert ScalingFactor(power, Pow(u, n, 1)) == Raise(f, n);
    assert ScalingFactor(power, Pow(u, n + 1, 1)) == Raise(f, n + 1);
  }

  // The first power is the unit itself, and the power zero no unit at all.
  lemma PowerStarts(power: Power, u: Unit, x: real)
    requires Usable(power, u) && Linear(u)
    ensures Usable(power, Pow(u, 1, 1)) && Quantity(power, Pow(u, 1, 1), x) == Quantity(power, u, x)
    ensures Usable(power, Pow(u, 0, 1)) && Quantity(power, Pow(u, 0, 1), x) == x
  {
    RaiseMore(ScalingFactor(power, u), 0);
    SameQuantity(power, Pow(u, 1, 1), u, x);
  }

  // So a unit and its inverse cancel, and a fraction that is a whole number counts as that.
  lemma InverseQuantity(power: Power, u: Unit, n: int, d: int, x: real)
    requires Usable(power, u) && Linear(u) && d != 0
    ensures Usable(power, Pow(u, -1, 1)) && Quantity(power, Compose(u, Pow(u, -1, 1)), x) == x
    ensures Usable(power, Pow(u, n * d, d)) && Usable(power, Pow(u, n, 1))
    ensures Quantity(power, Pow(u, n * d, d), x) == Quantity(power, Pow(u, n, 1), x)
  {
    RaiseMore(ScalingFactor(power, u), -1);
    assert ScalingFactor(power, Compose(u, Pow(u, -1, 1))) == 1.0;
    WholeFraction(n, d);
    SameQuantity(power, Pow(u, n * d, d), Pow(u, n, 1), x);
  }

  lemma WholeFraction(n: int, d: int)
    requires d != 0
    ensures (n * d) % d == 0 && (n * d) / d == n
  {
    var q, r := (n * d) / d, (n * d) % d;
    assert n * d == q * d + r;
    assert (n - q) * d == r;
    if n - q != 0 {
      NoSmallMultiple(n - q, d);
    }
  }

  lemma NoSmallMultiple(k: int, d: int)
    requires k != 0 && d != 0
    ensures k * d >= (if d < 0 then -d else d) || k * d < 0
  {
  }

  // A million cubic centimetres are one cubic metre.
  lemma CubicMetre(power: Power, m: Unit)
    requires IsPower(power) && m.Base?
    ensures Usable(power, Pow(Scale(m, 100, 1), 3, 1)) && Usable(power, Pow(m, 3, 1))
    ensures Convert(power, Pow(Scale(m, 100, 1), 3, 1), Pow(m, 3, 1), 1000000.0) == 1.0
  {
    RaiseThree(100.0);
    RaiseThree(1.0);
    assert ScalingFactor(power, Scale(m, 100, 1)) == 100.0;
    assert ScalingFactor(power, Pow(Scale(m, 100, 1), 3, 1)) == 1000000.0 && ScalingFactor(power, Pow(m, 3, 1)) == 1.0;
  }

  lemma RaiseThree(x: real)
    requires x != 0.0
    ensures Raise(x, 3) == x * x * x
  {
    RaiseMore(x, 2);
    RaiseMore(x, 1);
    RaiseMore(x, 0);
  }

  // ---------- which units convert ----------

  // A fraction as the templates leave it: not reduced, and of either sign.
  datatype Fraction = Fraction(num: int, den: int)

  // The power of a base unit in a unit, counted in fractions.
  function CountTerms(id: nat, u: Unit): Fraction {
    match u
    case Base(b) => if b == id then Fraction(1, 1) else Fraction(0, 1)
    case Scale(w, _, _) => CountTerms(id, w)
    case Translate(w, _, _) => CountTerms(id, w)
    case Compose(a, b) =>
      var p, q := CountTerms(id, a), CountTerms(id, b);
      Fraction(p.num * q.den + p.den * q.num, p.den * q.den)
    case Pow(w, n, d) =>
      var p := CountTerms(id, w);
      Fraction(n * p.num, d * p.den)
  }

  predicate EqualFractions(p: Fraction, q: Fraction) {
    p.num * q.den == p.den * q.num
  }

  // For every base unit inside the term, whether its counts in the two units are equal fractions.
  predicate CheckTermsEqual(term: Unit, t1: Unit, t2: Unit) {
    match term
    case Base(id) =>
      EqualFractions(CountTerms(id, t1), CountTerms(id, t2))
    case Scale(w, _, _) => CheckTermsEqual(w, t1, t2)
    case Translate(w, _, _) => CheckTermsEqual(w, t1, t2)
    case Compose(a, b) => CheckTermsEqual(a, t1, t2) && CheckTermsEqual(b, t1, t2)
    case Pow(w, _, _) => CheckTermsEqual(w, t1, t2)
  }

  predicate Convertible(t1: Unit, t2: Unit) {
    CheckTermsEqual(t1, t1, t2) && CheckTermsEqual(t2, t1, t2)
  }

  // The power as a number.
  function Exponent(id: nat, u: Unit): real
    requires u.Valid()
  {
    match u
    case Base(b) => if b == id then 1.0 else 0.0
    case Scale(w, _, _) => Exponent(id, w)
    case Translate(w, _, _) => Exponent(id, w)
    case Compose(a, b) => Exponent(id, a) + Exponent(id, b)
    case Pow(w, n, d) => Exponent(id, w) * Ratio(n, d)
  }

  // Two units measure the same thing: every base unit has the same power in both.
  ghost predicate SameDimension(t1: Unit, t2: Unit)
    requires t1.Valid() && t2.Valid()
  {
    forall id: nat :: Exponent(id, t1) == Exponent(id, t2)
  }

  // The fraction stands for the number.
  predicate StandsFor(p: Fraction, x: real) {
    p.den != 0 && p.num as real == x * p.den as real
  }

  lemma {:induction false} CountIsExponent(id: nat, u: Unit)
    requires u.Valid()
    ensures StandsFor(CountTerms(id, u), Exponent(id, u))
  {
    match u
    case Base(_) =>
    case Scale(w, _, _) =>
      CountIsExponent(id, w);
    case Translate(w, _, _) =>
      CountIsExponent(id, w);
    case Compose(a, b) =>
      CountIsExponent(id, a);
      CountIsExponent(id, b);
      AddFractions(CountTerms(id, a), CountTerms(id, b), Exponent(id, a), Exponent(id, b), CountTerms(id, u));
    case Pow(w, n, d) =>
      CountIsExponent(id, w);
      TimesFraction(CountTerms(id, w), Exponent(id, w), n, d, CountTerms(id, u), Exponent(id, u));
  }

  lemma AddFractions(p: Fraction, q: Fraction, x: real, y: real, r: Fraction)
    requires StandsFor(p, x) && StandsFor(q, y)
    requires r.num == p.num * q.den + p.den * q.num && r.den == p.den * q.den
    ensures StandsFor(r, x + y)
  {
    var e, f := p.den as real, q.den as real;
    ProductAsReal(p.num, q.den);
    ProductAsReal(p.den, q.num);
    ProductAsReal(p.den, q.den);
    assert r.num as real == (x * e) * f + e * (y * f);
    assert (x * e) * f == x * (e * f) && e * (y * f) == y * (e * f);
  }

  lemma TimesFraction(p: Fraction, x: real, n: int, d: int, r: Fraction, z: real)
    requires StandsFor(p, x) && d != 0 && r.num == n * p.num && r.den == d * p.den && z == x * Ratio(n, d)
    ensures StandsFor(r, z)
  {
    var q, e, f := Ratio(n, d), d as real, p.den as real;
    Undivide(n as real, e, q);
    ProductAsReal(n, p.num);
    ProductAsReal(d, p.den);
    assert r.num as real == (q * e) * (x * f);
    Exchange(q, e, x, f);
    assert z * (e * f) == (q * x) * (e * f);
  }

  lemma ProductAsReal(a: int, b: int)
    ensures (a * b) as real == a as real * b as real
  {
  }

  // Crossing out compares the numbers.
  lemma CrossMultiply(p: Fraction, q: Fraction, x: real, y: real)
    requires StandsFor(p, x) && StandsFor(q, y)
    ensures EqualFractions(p, q) <==> x == y
  {
    var e, f := p.den as real, q.den as real;
    ProductAsReal(p.num, q.den);
    ProductAsReal(p.den, q.num);
    assert (p.num * q.den) as real == x * (e * f) by {
      assert (x * e) * f == x * (e * f);
    }
    assert (p.den * q.num) as real == y * (e * f) by {
      assert e * (y * f) == y * (e * f);
    }
    if EqualFractions(p, q) {
      SameFactor(x, y, e * f);
    }
  }

  // The base units inside a unit.
  function Bases(u: Unit): set<nat> {
    match u
    case Base(b) => {b}
    case Scale(w, _, _) => Bases(w)
    case Translate(w, _, _) => Bases(w)
    case Compose(a, b) => Bases(a) + Bases(b)
    case Pow(w, _, _) => Bases(w)
  }

  lemma {:induction false} NoOccurrence(id: nat, u: Unit)
    requires u.Valid() && id !in Bases(u)
    ensures Exponent(id, u) == 0.0
  {
    match u
    case Base(_) =>
    case Scale(w, _, _) =>
      NoOccurrence(id, w);
    case Translate(w, _, _) =>
      NoOccurrence(id, w);
    case Compose(a, b) =>
      NoOccurrence(id, a);
      NoOccurrence(id, b);
    case Pow(w, _, _) =>
      NoOccurrence(id, w);
  }

  // Two units agree in the powers of these base units.
  predicate AgreeOn(ids: set<nat>, t1: Unit, t2: Unit)
    requires t1.Valid() && t2.Valid()
  {
    forall id <- ids :: Exponent(id, t1) == Exponent(id, t2)
  }

  // The walk over a term compares the powers of just the base units in it.
  lemma {:induction false} ChecksOccurring(term: Unit, t1: Unit, t2: Unit)
    requires t1.Valid() && t2.Valid()
    ensures CheckTermsEqual(term, t1, t2) <==> AgreeOn(Bases(term), t1, t2)
  {
    match term
    case Base(id) =>
      CountIsExponent(id, t1);
      CountIsExponent(id, t2);
      CrossMultiply(CountTerms(id, t1), CountTerms(id, t2), Exponent(id, t1), Exponent(id, t2));
    case Scale(w, _, _) =>
      ChecksOccurring(w, t1, t2);
    case Translate(w, _, _) =>
      ChecksOccurring(w, t1, t2);
    case Compose(a, b) =>
      ChecksOccurring(a, t1, t2);
      ChecksOccurring(b, t1, t2);
      AgreeOnBoth(Bases(a), Bases(b), t1, t2);
    case Pow(w, _, _) =>
      ChecksOccurring(w, t1, t2);
  }

  lemma AgreeOnBoth(a: set<nat>, b: set<nat>, t1: Unit, t2: Unit)
    requires t1.Valid() && t2.Valid()
    ensures AgreeOn(a + b, t1, t2) <==> AgreeOn(a, t1, t2) && AgreeOn(b, t1, t2)
  {
  }

  // Walking over both units is enough: a base unit in neither has the power zero in both.
  lemma ConvertibleIff(t1: Unit, t2: Unit)
    requires t1.Valid() && t2.Valid()
    ensures Convertible(t1, t2) <==> SameDimension(t1, t2)
  {
    ChecksOccurring(t1, t1, t2);
    ChecksOccurring(t2, t1, t2);
    if Convertible(t1, t2) {
      forall id: nat ensures Exponent(id, t1) == Exponent(id, t2) {
        if id !in Bases(t1) && id !in Bases(t2) {
          NoOccurrence(id, t1);
          NoOccurrence(id, t2);
        }
      }
    }
  }

  // So units fall into classes, and whatever conversion exists in two steps exists in one.
  lemma ConvertibleIsEquivalence(t1: Unit, t2: Unit, t3: Unit)
    requires t1.Valid() && t2.Valid() && t3.Valid()
    ensures Convertible(t1, t1)
    ensures Convertible(t1, t2) ==> Convertible(t2, t1)
    ensures Convertible(t1, t2) && Convertible(t2, t3) ==> Convertible(t1, t3)
  {
    ConvertibleIff(t1, t1);
    ConvertibleIff(t1, t2);
    ConvertibleIff(t2, t1);
    ConvertibleIff(t2, t3);
    ConvertibleIff(t1, t3);
  }

  // What the powers of a unit convert to, and what they do not: base units are all different, scales and
  // offsets do not matter, and a power is a product with one factor more.
  lemma PowersConvert(u: Unit, w: Unit, n: int, d: int)
    requires u.Valid() && w.Valid() && d != 0
    ensures Convertible(Pow(u, n + 1, 1), Compose(u, Pow(u, n, 1))) && Convertible(Pow(u, 1, 1), u)
    ensures Convertible(Compose(w, Pow(u, 0, 1)), w) && Convertible(Compose(w, Compose(u, Pow(u, -1, 1))), w)
    ensures Convertible(Pow(Pow(u, n, d), d, 1), Pow(u, n, 1))
    ensures (n != 0 ==> Convertible(Scale(u, n, d), u)) && Convertible(Translate(u, n, d), u)
    ensures Convertible(Compose(u, w), Compose(w, u))
  {
    LawsOfExponents(u, w, n, d);
    ConvertibleIff(Pow(u, n + 1, 1), Compose(u, Pow(u, n, 1)));
    ConvertibleIff(Pow(u, 1, 1), u);
    ConvertibleIff(Compose(w, Pow(u, 0, 1)), w);
    ConvertibleIff(Compose(w, Compose(u, Pow(u, -1, 1))), w);
    ConvertibleIff(Pow(Pow(u, n, d), d, 1), Pow(u, n, 1));
    ConvertibleIff(Compose(u, w), Compose(w, u));
    ConvertibleIff(Translate(u, n, d), u);
    if n != 0 {
      ConvertibleIff(Scale(u, n, d), u);
    }
  }

  // The same as laws of the powers of base units.
  lemma LawsOfExponents(u: Unit, w: Unit, n: int, d: int)
    requires u.Valid() && w.Valid() && d != 0
    ensures SameDimension(Pow(u, n + 1, 1), Compose(u, Pow(u, n, 1))) && SameDimension(Pow(u, 1, 1), u)
    ensures SameDimension(Compose(w, Pow(u, 0, 1)), w) && SameDimension(Compose(w, Compose(u, Pow(u, -1, 1))), w)
    ensures SameDimension(Pow(Pow(u, n, d), d, 1), Pow(u, n, 1))
    ensures (n != 0 ==> SameDimension(Scale(u, n, d), u)) && SameDimension(Translate(u, n, d), u)
    ensures SameDimension(Compose(u, w), Compose(w, u))
  {
    forall id: nat
      ensures Exponent(id, Pow(u, n + 1, 1)) == Exponent(id, Compose(u, Pow(u, n, 1)))
      ensures Exponent(id, Pow(Pow(u, n, d), d, 1)) == Exponent(id, Pow(u, n, 1))
      ensures Exponent(id, Pow(u, 1, 1)) == Exponent(id, u) && Exponent(id, Compose(w, Pow(u, 0, 1))) == Exponent(id, w)
      ensures Exponent(id, Compose(w, Compose(u, Pow(u, -1, 1)))) == Exponent(id, w)
    {
      PowerExponents(id, u, n, d);
    }
  }

  lemma PowerExponents(id: nat, u: Unit, n: int, d: int)
    requires u.Valid() && d != 0
    ensures Exponent(id, Pow(u, n + 1, 1)) == Exponent(id, u) + Exponent(id, Pow(u, n, 1))
    ensures Exponent(id, Pow(Pow(u, n, d), d, 1)) == Exponent(id, Pow(u, n, 1))
    ensures Exponent(id, Pow(u, 1, 1)) == Exponent(id, u) && Exponent(id, Pow(u, 0, 1)) == 0.0
    ensures Exponent(id, u) + Exponent(id, Pow(u, -1, 1)) == 0.0
  {
    var e := Exponent(id, u);
    OneMore(e, n);
    PowerOfPower(e, n, d);
    SmallRatios(e);
  }

  lemma SmallRatios(e: real)
    ensures e * Ratio(1, 1) == e && e * Ratio(0, 1) == 0.0 && e + e * Ratio(-1, 1) == 0.0
  {
  }

  lemma PowerOfPower(e: real, n: int, d: int)
    requires d != 0
    ensures e * Ratio(n, d) * Ratio(d, 1) == e * Ratio(n, 1)
  {
    var q := Ratio(n, d);
    Undivide(n as real, d as real, q);
    assert e * q * d as real == e * (q * d as real);
  }

  lemma OneMore(e: real, n: int)
    ensures e * Ratio(n + 1, 1) == e + e * Ratio(n, 1)
  {
    assert (n + 1) as real == n as real + 1.0;
  }

  lemma BasesConvert(a: nat, b: nat)
    ensures Convertible(Base(a), Base(b)) <==> a == b
  {
    ConvertibleIff(Base(a), Base(b));
    assert Exponent(a, Base(a)) == 1.0;
  }
}
