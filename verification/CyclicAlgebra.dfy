/** The finite cyclic algebra pack: its answers are the true ones, for every modulus. */
module CyclicAlgebra {
  import opened Wrappers
  import opened NumberTheory

  // ----- what the operations are about -----

  /** x -> multiplier * x as a map from Z/source to Z/target: equal residues have equal images. */
  ghost predicate WellDefined(source: nat, target: nat, multiplier: nat)
    requires source > 0 && target > 0
  {
    forall x: int, y: int :: SameResidue(source, x, y) ==> SameResidue(target, multiplier * x, multiplier * y)
  }

  predicate SameResidue(n: nat, x: int, y: int)
    requires n > 0
  {
    x % n == y % n
  }

  function Kernel(source: nat, target: nat, multiplier: nat): set<nat>
    requires target > 0
  {
    set x: nat | 0 <= x < source && (multiplier * x) % target == 0
  }

  function Image(source: nat, target: nat, multiplier: nat): set<nat>
    requires target > 0
  {
    set x: nat | 0 <= x < source :: (multiplier * x) % target
  }

  ghost predicate IsUnit(modulus: nat, element: nat)
    requires modulus > 0
  {
    exists x: int :: Prod(element, x) % modulus == 1
  }

  // ----- counting multiples -----

  function Multiples(d: nat, n: nat): set<nat>
    requires d > 0
  {
    set x: nat | 0 <= x < n && x % d == 0
  }

  lemma {:induction false} MultiplesCount(d: nat, k: nat)
    requires d > 0
    ensures |Multiples(d, d * k)| == k
  {
    if k == 0 {
      assert Multiples(d, d * k) == {};
    } else {
      MultiplesCount(d, k - 1);
      var low := d * (k - 1);
      assert d * k == low + d;
      forall x: nat | low <= x < low + d ensures x % d == 0 <==> x == low {
        DividesModulo(d, x);
        if x % d == 0 {
          var j := Cofactor(d, x);
          assert x - low == d * (j - (k - 1));
          SmallMultiple(d, j - (k - 1));
        }
        if x == low { DividesBy(d, k - 1, low); }
      }
      assert Multiples(d, d * k) == Multiples(d, low) + {low};
    }
  }

  // ----- when a product vanishes modulo t -----

  /** t divides m * x exactly when t / gcd(m, t) divides x. */
  lemma ProductVanishes(m: nat, t: nat, x: int)
    requires t > 0
    ensures Gcd(m, t) > 0 && Divides(Gcd(m, t), t)
    ensures Divides(t, m * x) <==> Divides(t / Gcd(m, t), x)
  {
    var g := Gcd(m, t);
    GcdPositive(m, t);
    GcdDivides(m, t);
    var a := Cofactor(g, m);
    var b := Cofactor(g, t);
    CofactorIsNat(g, a, m);
    CofactorIsNat(g, b, t);
    QuotientOf(g, b, t);
    ReducedCoprime(m, t, a, b);
    if Divides(t, m * x) {
      var k := Cofactor(t, m * x);
      CancelFactor(g, a, b, x, k);
      DividesBy(b, k, a * x);
      EuclidsLemma(a, b, x);
    }
    if Divides(b, x) {
      var k := Cofactor(b, x);
      RestoreFactor(g, a, b, k);
      DividesBy(t, a * k, m * x);
    }
  }

  lemma NegativeProduct(g: int, k: int)
    requires g > 0
    ensures k < 0 ==> g * k < 0
  {
  }

  lemma CofactorIsNat(g: int, k: int, n: int)
    requires g > 0 && n >= 0 && n == g * k
    ensures k >= 0
  {
    NegativeProduct(g, k);
  }

  lemma QuotientOf(g: int, b: int, t: int)
    requires g > 0 && t == g * b
    ensures t / g == b
  {
    assert g * (t / g - b) == -(t % g);
    SmallMultiple(g, b - t / g);
  }

  lemma CancelFactor(g: int, a: int, b: int, x: int, k: int)
    requires g > 0 && (g * a) * x == (g * b) * k
    ensures a * x == b * k
  {
    assert (g * a) * x == g * (a * x) && (g * b) * k == g * (b * k);
    assert g * (a * x - b * k) == 0;
    SmallMultiple(g, a * x - b * k);
  }

  lemma RestoreFactor(g: int, a: int, b: int, k: int)
    ensures (g * a) * (b * k) == (g * b) * (a * k)
  {
    assert (g * a) * (b * k) == g * (a * (b * k)) && (g * b) * (a * k) == g * (b * (a * k));
    assert a * (b * k) == b * (a * k);
  }

  // ----- homomorphisms -----

  lemma SameResidueDivides(n: nat, x: int, y: int)
    requires n > 0
    ensures SameResidue(n, x, y) <==> Divides(n, x - y)
  {
    if SameResidue(n, x, y) {
      assert x - y == n * (x / n) - n * (y / n) == n * (x / n - y / n);
      DividesBy(n, x / n - y / n, x - y);
    }
    if Divides(n, x - y) {
      var k := Cofactor(n, x - y);
      var j := k - x / n + y / n;
      assert x % n - y % n == n * k - n * (x / n) + n * (y / n) == n * j;
      SmallMultiple(n, j);
      SmallMultiple(n, -j);
      assert n * -j == -(n * j);
    }
  }

  /** The test the program makes is exactly well-definedness. */
  lemma WellDefinedExactly(source: nat, target: nat, multiplier: nat)
    requires source > 0 && target > 0
    ensures WellDefined(source, target, multiplier) <==> (multiplier * source) % target == 0
  {
    DividesModulo(target, multiplier * source);
    if WellDefined(source, target, multiplier) {
      DividesBy(source, 1, source);
      SameResidueDivides(source, source, 0);
      assert SameResidue(target, multiplier * source, multiplier * 0);
      SameResidueDivides(target, multiplier * source, multiplier * 0);
    }
    if Divides(target, multiplier * source) {
      var c := Cofactor(target, multiplier * source);
      forall x: int, y: int | SameResidue(source, x, y)
        ensures SameResidue(target, multiplier * x, multiplier * y)
      {
        SameResidueDivides(source, x, y);
        var k := Cofactor(source, x - y);
        ScaledDifference(multiplier, source, target, x, y, k, c);
        DividesBy(target, c * k, multiplier * x - multiplier * y);
        SameResidueDivides(target, multiplier * x, multiplier * y);
      }
    }
  }

  lemma ScaledDifference(m: int, s: int, t: int, x: int, y: int, k: int, c: int)
    requires x - y == s * k && m * s == t * c
    ensures m * x - m * y == t * (c * k)
  {
    assert m * x - m * y == m * (s * k) == (m * s) * k == (t * c) * k;
  }

  /** The kernel consists of the multiples of target / gcd. */
  lemma KernelIsMultiples(s: nat, t: nat, m: nat)
    requires s > 0 && t > 0 && (m * s) % t == 0
    ensures Gcd(m, t) > 0 && t / Gcd(m, t) > 0 && Divides(t / Gcd(m, t), s)
    ensures Kernel(s, t, m) == Multiples(t / Gcd(m, t), s)
  {
    var g := Gcd(m, t);
    DividesModulo(t, m * s);
    ProductVanishes(m, t, s);
    var b := t / g;
    DivisorBound(g, t);
    var j := Cofactor(g, t);
    QuotientOf(g, j, t);
    forall x: nat ensures (m * x) % t == 0 <==> x % b == 0 {
      DividesModulo(t, m * x);
      ProductVanishes(m, t, x);
      DividesModulo(b, x);
    }
  }

  /** The image consists of the multiples of gcd. */
  lemma ImageIsMultiples(s: nat, t: nat, m: nat)
    requires s > 0 && t > 0 && (m * s) % t == 0
    ensures Gcd(m, t) > 0 && Image(s, t, m) == Multiples(Gcd(m, t), t)
  {
    var g := Gcd(m, t);
    GcdPositive(m, t);
    forall y: nat | y in Image(s, t, m) ensures y in Multiples(g, t) {
      var x: nat :| 0 <= x < s && (m * x) % t == y;
      ImageIsMultiple(t, m, x, y);
    }
    forall y: nat | y in Multiples(g, t) ensures y in Image(s, t, m) {
      var x := Preimage(s, t, m, y);
    }
  }

  lemma ImageIsMultiple(t: nat, m: nat, x: nat, y: nat)
    requires t > 0 && (m * x) % t == y && Gcd(m, t) > 0
    ensures y % Gcd(m, t) == 0
  {
    GcdDivides(m, t);
    DividesCombination(Gcd(m, t), m, t, x, -((m * x) / t));
    assert x * m + -((m * x) / t) * t == y;
    DividesModulo(Gcd(m, t), y);
  }

  lemma Preimage(s: nat, t: nat, m: nat, y: nat) returns (x: nat)
    requires s > 0 && t > 0 && (m * s) % t == 0 && Gcd(m, t) > 0
    requires y < t && y % Gcd(m, t) == 0
    ensures x < s && (m * x) % t == y
  {
    var g := Gcd(m, t);
    DividesModulo(g, y);
    var j := Cofactor(g, y);
    var u, v := Bezout(m, t);
    BezoutMultiple(g, u, m, v, t, j, y);
    x := (u * j) % s;
    PreimageAt(s, t, m, y, u * j, -(v * j));
  }

  lemma PreimageAt(s: nat, t: nat, m: nat, y: nat, z: int, w: int)
    requires s > 0 && t > 0 && (m * s) % t == 0 && y < t && m * z - y == t * w
    ensures (m * (z % s)) % t == y
  {
    ReducedArgument(s, t, m, z);
    CongruentTo(t, m * z, y, w);
    ResidueIs(t, m * (z % s), m * z, y);
  }

  lemma CongruentTo(t: nat, p: int, y: int, w: int)
    requires t > 0 && p - y == t * w
    ensures SameResidue(t, p, y)
  {
    DividesBy(t, w, p - y);
    SameResidueDivides(t, p, y);
  }

  lemma ResidueIs(t: nat, p: int, q: int, y: nat)
    requires t > 0 && SameResidue(t, p, q) && SameResidue(t, q, y) && y < t
    ensures p % t == y
  {
  }

  /** A well-defined map may be applied to the representative of a residue. */
  lemma ReducedArgument(s: nat, t: nat, m: nat, z: int)
    requires s > 0 && t > 0 && (m * s) % t == 0
    ensures SameResidue(t, m * (z % s), m * z)
  {
    WellDefinedExactly(s, t, m);
    assert SameResidue(s, z % s, z);
  }

  lemma BezoutMultiple(g: int, u: int, m: int, v: int, t: int, j: int, y: int)
    requires g == u * m + v * t && y == g * j
    ensures m * (u * j) - y == t * -(v * j)
  {
    assert (u * m + v * t) * j == (u * m) * j + (v * t) * j;
    assert (u * m) * j == m * (u * j) && (v * t) * j == t * (v * j);
  }

  /**
    The reported sizes are the cardinalities of the kernel and the image, the division
    that computes the first is exact, and their product is the order of the source.
    */
  lemma KernelAndImageSizes(s: nat, t: nat, m: nat)
    requires s > 0 && t > 0 && (m * s) % t == 0
    ensures var g := Gcd(m, t);
            && g > 0
            && (s * g) % t == 0
            && |Kernel(s, t, m)| == s * g / t
            && |Image(s, t, m)| == t / g
            && |Kernel(s, t, m)| * |Image(s, t, m)| == s
  {
    var g := Gcd(m, t);
    KernelIsMultiples(s, t, m);
    ImageIsMultiples(s, t, m);
    GcdDivides(m, t);
    var b := Cofactor(g, t);
    QuotientOf(g, b, t);
    var k := Cofactor(b, s);
    CofactorIsNat(b, k, s);
    MultiplesCount(b, k);
    MultiplesCount(g, b);
    assert s * g == t * k by {
      assert (b * k) * g == (g * b) * k;
    }
    DividesBy(t, k, s * g);
    DividesModulo(t, s * g);
    QuotientOf(t, k, s * g);
    assert k * b == s;
  }

  // ----- orders and units -----

  /** j * element vanishes exactly when modulus / gcd divides j. */
  lemma MultipleVanishes(modulus: nat, element: nat, j: nat)
    requires modulus > 0
    ensures Gcd(modulus, element) > 0
    ensures (j * element) % modulus == 0 <==> Divides(modulus / Gcd(modulus, element), j)
  {
    GcdSymmetric(modulus, element);
    ProductVanishes(element, modulus, j);
    DividesModulo(modulus, element * j);
    assert j * element == element * j;
  }

  /** modulus / gcd(modulus, element) is the least positive multiple count that reaches 0. */
  lemma AdditiveOrderIsLeast(modulus: nat, element: nat)
    requires modulus > 0
    ensures Gcd(modulus, element) > 0
    ensures var k := modulus / Gcd(modulus, element);
            && k >= 1 && (k * element) % modulus == 0
            && forall j: nat | 1 <= j < k :: (j * element) % modulus != 0
  {
    var g := Gcd(modulus, element);
    GcdPositive(modulus, element);
    GcdDivides(modulus, element);
    var b := Cofactor(g, modulus);
    QuotientOf(g, b, modulus);
    CofactorIsNat(g, b, modulus);
    MultipleVanishes(modulus, element, b);
    DividesBy(b, 1, b);
    forall j: nat | 1 <= j < b ensures (j * element) % modulus != 0 {
      MultipleVanishes(modulus, element, j);
      if Divides(b, j) { DivisorBound(b, j); }
    }
  }

  lemma GcdSymmetric(a: nat, b: nat)
    ensures Gcd(a, b) == Gcd(b, a)
  {
    GcdDivides(a, b);
    GcdDivides(b, a);
    GcdGreatest(a, b, Gcd(b, a));
    GcdGreatest(b, a, Gcd(a, b));
    if a > 0 || b > 0 {
      GcdPositive(a, b);
      GcdPositive(b, a);
      DivisorBound(Gcd(a, b), Gcd(b, a));
      DivisorBound(Gcd(b, a), Gcd(a, b));
    }
  }

  /** The gcd test holds exactly for the invertible residues. */
  lemma UnitExactly(modulus: nat, element: nat)
    requires modulus >= 2
    ensures IsUnit(modulus, element) <==> Gcd(modulus, element) == 1
  {
    if IsUnit(modulus, element) {
      var x :| Prod(element, x) % modulus == 1;
      UnitIsCoprime(modulus, element, x);
    }
    if Gcd(modulus, element) == 1 {
      var x := InverseOf(modulus, element);
      assert Prod(element, x) % modulus == 1;
    }
  }

  lemma UnitIsCoprime(modulus: nat, element: nat, x: int)
    requires modulus >= 2 && (element * x) % modulus == 1
    ensures Gcd(modulus, element) == 1
  {
    var g := Gcd(modulus, element);
    GcdDivides(modulus, element);
    GcdPositive(modulus, element);
    var q := (element * x) / modulus;
    DividesCombination(g, element, modulus, x, -q);
    RemainderOne(modulus, element * x);
    assert x * element + -q * modulus == 1;
    DivisorBound(g, 1);
  }

  lemma RemainderOne(modulus: int, z: int)
    requires modulus >= 2 && z % modulus == 1
    ensures z + -(z / modulus) * modulus == 1
  {
  }

  lemma InverseOf(modulus: nat, element: nat) returns (x: int)
    requires modulus >= 2 && Gcd(modulus, element) == 1
    ensures (element * x) % modulus == 1
  {
    var u, v := Bezout(modulus, element);
    x := v;
    assert element * v - 1 == modulus * -u by { assert modulus * -u == -(u * modulus) && element * v == v * element; }
    CongruentTo(modulus, element * v, 1, -u);
    ResidueIs(modulus, element * v, element * v, 1);
  }

  // ----- composition -----

  /** The reduced product of the multipliers acts as the two maps one after the other. */
  lemma CompositionExact(source: nat, middle: nat, target: nat, first: nat, second: nat)
    requires source > 0 && middle > 0 && target > 0
    requires (first * source) % middle == 0 && (second * middle) % target == 0
    ensures var composed := (first * second) % target;
            && WellDefined(source, target, composed)
            && forall x: nat :: (second * ((first * x) % middle)) % target == (composed * x) % target
  {
    var composed := (first * second) % target;
    WellDefinedExactly(middle, target, second);
    forall x: nat ensures (second * ((first * x) % middle)) % target == (composed * x) % target {
      ComposedAt(middle, target, first, second, x);
    }
    ComposedAt(middle, target, first, second, source);
    assert (second * 0) % target == 0;
    WellDefinedExactly(source, target, composed);
  }

  lemma ComposedAt(middle: nat, target: nat, first: nat, second: nat, x: nat)
    requires middle > 0 && target > 0 && WellDefined(middle, target, second)
    ensures (second * ((first * x) % middle)) % target == (((first * second) % target) * x) % target
  {
    var composed := (first * second) % target;
    var q := (first * second) / target;
    assert SameResidue(middle, (first * x) % middle, first * x);
    assert SameResidue(target, second * ((first * x) % middle), second * (first * x));
    ComposedDifference(first, second, target, composed, q, x);
    DividesBy(target, q * x, second * (first * x) - composed * x);
    SameResidueDivides(target, second * (first * x), composed * x);
  }

  lemma ComposedDifference(first: int, second: int, target: int, composed: int, q: int, x: int)
    requires first * second == target * q + composed
    ensures second * (first * x) - composed * x == target * (q * x)
  {
    assert second * (first * x) == (first * second) * x;
    assert (target * q + composed) * x == target * (q * x) + composed * x;
  }

  // ----- requests -----

  datatype Operation =
    | ConstructCyclicGroup
    | ConstructModularRing
    | CheckCyclicHomomorphism
    | ComposeCyclicHomomorphisms
    | KernelImage
    | AdditiveOrder
    | CheckUnit

  datatype Status = Complete | Missing | Ambiguous | Unsupported | InvalidDomain | Inconsistent

  datatype Artifact =
    | CyclicGroup(order: nat)
    | ModularRing(modulus: nat)
    | CyclicHomomorphism(source: nat, target: nat, multiplier: nat)
    | Sizes(kernelSize: nat, imageSize: nat)
    | Boolean(holds: bool)
    | Scalar(value: nat)

  datatype Request = Request(
    operation: Operation,
    modulus: Option<nat>,
    sourceModulus: Option<nat>,
    targetModulus: Option<nat>,
    element: Option<nat>,
    multiplier: Option<nat>,
    secondMultiplier: Option<nat>,
    domain: string,
    ambiguity: Option<string>)

  datatype Answer = Answer(status: Status, artifact: Option<Artifact>)

  const MAX_MODULUS := 64
  const DOMAIN := "finite_exact_abstract_algebra"

  predicate InRange(n: nat) {
    1 <= n <= MAX_MODULUS
  }

  function Failed(status: Status): Answer {
    Answer(status, None)
  }

  function Done(artifact: Artifact): Answer {
    Answer(Complete, Some(artifact))
  }

  function KernelImageAnswer(source: nat, target: nat, multiplier: nat): Answer
    requires target > 0
  {
    var common := Gcd(multiplier, target);
    GcdPositive(multiplier, target);
    if (source * common) % target != 0 then Failed(Inconsistent)
    else Done(Sizes(source * common / target, target / common))
  }

  function OrderOf(modulus: nat, element: nat): nat
    requires modulus > 0
  {
    GcdPositive(modulus, element);
    modulus / Gcd(modulus, element)
  }

  /** `evaluate_abstract_algebra`: the status and the artifact of the result. */
  function EvaluateRequest(r: Request): Answer {
    if r.domain != DOMAIN then Failed(InvalidDomain)
    else if r.ambiguity.Some? then Failed(Ambiguous)
    else match r.operation
      case ConstructCyclicGroup =>
        if r.modulus.None? then Failed(Missing)
        else if !InRange(r.modulus.value) then Failed(Unsupported)
        else Done(CyclicGroup(r.modulus.value))
      case ConstructModularRing =>
        if r.modulus.None? then Failed(Missing)
        else if !InRange(r.modulus.value) || r.modulus.value < 2 then Failed(Unsupported)
        else Done(ModularRing(r.modulus.value))
      case CheckCyclicHomomorphism =>
        if r.sourceModulus.None? || r.targetModulus.None? || r.multiplier.None? then Failed(Missing)
        else if !InRange(r.sourceModulus.value) || !InRange(r.targetModulus.value) then Failed(Unsupported)
        else Done(Boolean((r.multiplier.value * r.sourceModulus.value) % r.targetModulus.value == 0))
      case ComposeCyclicHomomorphisms =>
        if r.sourceModulus.None? || r.modulus.None? || r.targetModulus.None? || r.multiplier.None?
           || r.secondMultiplier.None? then Failed(Missing)
        else
          var source, middle, target := r.sourceModulus.value, r.modulus.value, r.targetModulus.value;
          var first, second := r.multiplier.value, r.secondMultiplier.value;
          if !InRange(source) || !InRange(middle) || !InRange(target) then Failed(Unsupported)
          else if (first * source) % middle != 0 || (second * middle) % target != 0 then Failed(Inconsistent)
          else Done(CyclicHomomorphism(source, target, (first * second) % target))
      case KernelImage =>
        if r.sourceModulus.None? || r.targetModulus.None? || r.multiplier.None? then Failed(Missing)
        else
          var source, target, multiplier := r.sourceModulus.value, r.targetModulus.value, r.multiplier.value;
          if !InRange(source) || !InRange(target) then Failed(Unsupported)
          else if (multiplier * source) % target != 0 then Failed(Inconsistent)
          else KernelImageAnswer(source, target, multiplier)
      case AdditiveOrder =>
        if r.modulus.None? || r.element.None? then Failed(Missing)
        else if !InRange(r.modulus.value) then Failed(Unsupported)
        else if r.element.value >= r.modulus.value then Failed(Inconsistent)
        else Done(Scalar(OrderOf(r.modulus.value, r.element.value)))
      case CheckUnit =>
        if r.modulus.None? || r.element.None? then Failed(Missing)
        else if !InRange(r.modulus.value) || r.modulus.value < 2 then Failed(Unsupported)
        else if r.element.value >= r.modulus.value then Failed(Inconsistent)
        else Done(Boolean(Gcd(r.modulus.value, r.element.value) == 1))
  }

  /** The fields that the operation needs are given. */
  predicate HasFields(r: Request) {
    match r.operation
    case ConstructCyclicGroup => r.modulus.Some?
    case ConstructModularRing => r.modulus.Some?
    case CheckCyclicHomomorphism => r.sourceModulus.Some? && r.targetModulus.Some? && r.multiplier.Some?
    case ComposeCyclicHomomorphisms =>
      && r.sourceModulus.Some? && r.modulus.Some? && r.targetModulus.Some?
      && r.multiplier.Some? && r.secondMultiplier.Some?
    case KernelImage => r.sourceModulus.Some? && r.targetModulus.Some? && r.multiplier.Some?
    case AdditiveOrder => r.modulus.Some? && r.element.Some?
    case CheckUnit => r.modulus.Some? && r.element.Some?
  }

  /** The moduli that matter are between 1 and 64, and between 2 and 64 where a ring is meant. */
  predicate IsSupported(r: Request)
    requires HasFields(r)
  {
    match r.operation
    case ConstructCyclicGroup => 1 <= r.modulus.value <= 64
    case ConstructModularRing => 2 <= r.modulus.value <= 64
    case CheckCyclicHomomorphism => 1 <= r.sourceModulus.value <= 64 && 1 <= r.targetModulus.value <= 64
    case ComposeCyclicHomomorphisms =>
      1 <= r.sourceModulus.value <= 64 && 1 <= r.modulus.value <= 64 && 1 <= r.targetModulus.value <= 64
    case KernelImage => 1 <= r.sourceModulus.value <= 64 && 1 <= r.targetModulus.value <= 64
    case AdditiveOrder => 1 <= r.modulus.value <= 64
    case CheckUnit => 2 <= r.modulus.value <= 64
  }

  /** The maps that are composed or studied are well defined, and elements are residues. */
  ghost predicate IsConsistent(r: Request)
    requires HasFields(r) && IsSupported(r)
  {
    match r.operation
    case ComposeCyclicHomomorphisms =>
      && WellDefined(r.sourceModulus.value, r.modulus.value, r.multiplier.value)
      && WellDefined(r.modulus.value, r.targetModulus.value, r.secondMultiplier.value)
    case KernelImage => WellDefined(r.sourceModulus.value, r.targetModulus.value, r.multiplier.value)
    case AdditiveOrder => r.element.value < r.modulus.value
    case CheckUnit => r.element.value < r.modulus.value
    case _ => true
  }

  /** Which status a request gets: the first of these things that is wrong with it, or completion. */
  lemma StatusExactly(r: Request)
    ensures EvaluateRequest(r).status ==
            if r.domain != DOMAIN then InvalidDomain
            else if r.ambiguity.Some? then Ambiguous
            else if !HasFields(r) then Missing
            else if !IsSupported(r) then Unsupported
            else if !IsConsistent(r) then Inconsistent
            else Complete
    ensures EvaluateRequest(r).artifact.Some? <==> EvaluateRequest(r).status == Complete
  {
    if HasFields(r) && IsSupported(r) {
      if r.operation == ComposeCyclicHomomorphisms {
        WellDefinedExactly(r.sourceModulus.value, r.modulus.value, r.multiplier.value);
        WellDefinedExactly(r.modulus.value, r.targetModulus.value, r.secondMultiplier.value);
      } else if r.operation == KernelImage {
        var s, t, m := r.sourceModulus.value, r.targetModulus.value, r.multiplier.value;
        WellDefinedExactly(s, t, m);
        if (m * s) % t == 0 { KernelAndImageSizes(s, t, m); }
      }
    }
  }

  /** Every completed request carries the true answer to its question. */
  ghost predicate IsAnswered(r: Request, a: Artifact)
    requires HasFields(r) && IsSupported(r)
  {
    match r.operation
    case ConstructCyclicGroup => a == CyclicGroup(r.modulus.value)
    case ConstructModularRing => a == ModularRing(r.modulus.value)
    case CheckCyclicHomomorphism =>
      a == Boolean(WellDefined(r.sourceModulus.value, r.targetModulus.value, r.multiplier.value))
    case ComposeCyclicHomomorphisms =>
      && a.CyclicHomomorphism? && a.source == r.sourceModulus.value && a.target == r.targetModulus.value
      && a.multiplier < a.target && WellDefined(a.source, a.target, a.multiplier)
      && forall x: nat :: IsComposedAt(r, a, x)
    case KernelImage =>
      a == Sizes(|Kernel(r.sourceModulus.value, r.targetModulus.value, r.multiplier.value)|,
                 |Image(r.sourceModulus.value, r.targetModulus.value, r.multiplier.value)|)
    case AdditiveOrder => a.Scalar? && IsLeastOrder(r.modulus.value, r.element.value, a.value)
    case CheckUnit => a == Boolean(IsUnit(r.modulus.value, r.element.value))
  }

  ghost predicate IsComposedAt(r: Request, a: Artifact, x: nat)
    requires r.operation == ComposeCyclicHomomorphisms && HasFields(r) && IsSupported(r)
    requires a.CyclicHomomorphism? && a.target == r.targetModulus.value
  {
    (a.multiplier * x) % a.target ==
    (r.secondMultiplier.value * ((r.multiplier.value * x) % r.modulus.value)) % a.target
  }

  /** k is the least positive number of copies of the element that add up to 0. */
  ghost predicate IsLeastOrder(modulus: nat, element: nat, k: nat)
    requires modulus > 0
  {
    k >= 1 && (k * element) % modulus == 0 && forall j: nat | 1 <= j < k :: (j * element) % modulus != 0
  }

  lemma AnswersTrue(r: Request)
    requires EvaluateRequest(r).status == Complete
    ensures HasFields(r) && IsSupported(r) && EvaluateRequest(r).artifact.Some?
    ensures IsAnswered(r, EvaluateRequest(r).artifact.value)
  {
    StatusExactly(r);
    match r.operation
    case ConstructCyclicGroup =>
    case ConstructModularRing =>
    case CheckCyclicHomomorphism =>
      WellDefinedExactly(r.sourceModulus.value, r.targetModulus.value, r.multiplier.value);
    case ComposeCyclicHomomorphisms => CompositionRequest(r);
    case KernelImage => KernelImageRequest(r);
    case AdditiveOrder => AdditiveOrderIsLeast(r.modulus.value, r.element.value);
    case CheckUnit => CheckUnitRequest(r);
  }

  /**
    A kernel and image request with moduli in range succeeds exactly when the map is
    well defined, and then reports the true sizes; the second inconsistency test never fires.
    */
  lemma KernelImageRequest(r: Request)
    requires r.domain == DOMAIN && r.ambiguity.None? && r.operation == KernelImage
    requires r.sourceModulus.Some? && r.targetModulus.Some? && r.multiplier.Some?
    requires InRange(r.sourceModulus.value) && InRange(r.targetModulus.value)
    ensures var s, t, m := r.sourceModulus.value, r.targetModulus.value, r.multiplier.value;
            EvaluateRequest(r) ==
            if WellDefined(s, t, m) then Done(Sizes(|Kernel(s, t, m)|, |Image(s, t, m)|)) else Failed(Inconsistent)
  {
    var s, t, m := r.sourceModulus.value, r.targetModulus.value, r.multiplier.value;
    WellDefinedExactly(s, t, m);
    if (m * s) % t == 0 { KernelAndImageSizes(s, t, m); }
  }

  /** A unit request answers whether an inverse exists. */
  lemma CheckUnitRequest(r: Request)
    requires r.operation == CheckUnit && EvaluateRequest(r).status == Complete
    ensures EvaluateRequest(r).artifact == Some(Boolean(IsUnit(r.modulus.value, r.element.value)))
  {
    UnitExactly(r.modulus.value, r.element.value);
  }

  /** A composition request answers with a map that is well defined and is the composite. */
  lemma CompositionRequest(r: Request)
    requires r.operation == ComposeCyclicHomomorphisms && EvaluateRequest(r).status == Complete
    ensures var h := EvaluateRequest(r).artifact.value;
            && h.source == r.sourceModulus.value && h.target == r.targetModulus.value
            && WellDefined(h.source, h.target, h.multiplier)
            && forall x: nat ::
                 (h.multiplier * x) % h.target ==
                 (r.secondMultiplier.value * ((r.multiplier.value * x) % r.modulus.value)) % h.target
  {
    CompositionExact(r.sourceModulus.value, r.modulus.value, r.targetModulus.value,
                     r.multiplier.value, r.secondMultiplier.value);
  }
}
