/**
 * The column capacity model of w_sections/columns.py: loads and the load
 * combination rule, the doubly symmetric column with its radius of gyration
 * and Euler load, and the steel column with its buckling capacity and
 * demand/capacity ratio.
 *
 * Floating-point numbers are modelled as reals. The constant pi and the
 * function math.sqrt are not computed: they are the fields of a `Numerics`
 * value that every formula receives, so the model fixes which quantities are
 * combined, in which order, and where the code raises, and leaves the two
 * transcendental values abstract.
 */
module Columns {
  import opened Results

  // ---------------------------------------------------------------------------
  // Loads
  // ---------------------------------------------------------------------------

  /** A load split over its five components; each defaults to zero in the source. */
  datatype Load = Load(dead: real, live: real, snow: real, wind: real, quake: real)

  /** `Load(dead, live)` with the three remaining components left at zero. */
  function DeadLive(dead: real, live: real): Load {
    Load(dead, live, 0.0, 0.0, 0.0)
  }

  /** The keys of the table of load factors. */
  datatype Component = Dead | Live | Snow | Wind | Quake

  /** The factor each component is multiplied by. */
  function Factor(c: Component): real {
    if c == Dead then 1.2 else 1.5
  }

  /** The component of `load` named by `c` (the `getattr` of the source). */
  function Magnitude(load: Load, c: Component): real {
    match c
    case Dead => load.dead
    case Live => load.live
    case Snow => load.snow
    case Wind => load.wind
    case Quake => load.quake
  }

  /** The keys of the factor table, in their order, with 'dead' removed. */
  const VariableComponents: seq<Component> := [Live, Snow, Wind, Quake]

  /** The factored value of every variable component, in key order. */
  function FactoredExternalLoads(load: Load): seq<real> {
    seq(|VariableComponents|, i requires 0 <= i < |VariableComponents| =>
      Factor(VariableComponents[i]) * Magnitude(load, VariableComponents[i]))
  }

  /** The largest element of a non-empty list (Python's `max`). */
  function Max(s: seq<real>): (r: real)
    requires |s| > 0
    ensures r in s
    ensures forall i :: 0 <= i < |s| ==> s[i] <= r
  {
    if |s| == 1 then s[0]
    else
      var rest := Max(s[1..]);
      if s[0] >= rest then s[0] else rest
  }

  /**
   * The factored design load: 1.2 times the dead load plus the largest of
   * the factored variable components.
   */
  function MaxFactoredLoad(load: Load): real {
    Factor(Dead) * load.dead + Max(FactoredExternalLoads(load))
  }

  /**
   * The factored load is at least 1.2 dead + 1.5 c for every variable
   * component c, and equals that sum for one of them.
   */
  lemma MaxFactoredLoadBounds(load: Load)
    ensures MaxFactoredLoad(load) >= 1.2 * load.dead + 1.5 * load.live
    ensures MaxFactoredLoad(load) >= 1.2 * load.dead + 1.5 * load.snow
    ensures MaxFactoredLoad(load) >= 1.2 * load.dead + 1.5 * load.wind
    ensures MaxFactoredLoad(load) >= 1.2 * load.dead + 1.5 * load.quake
    ensures var r := MaxFactoredLoad(load);
            r == 1.2 * load.dead + 1.5 * load.live || r == 1.2 * load.dead + 1.5 * load.snow
            || r == 1.2 * load.dead + 1.5 * load.wind || r == 1.2 * load.dead + 1.5 * load.quake
  {
    var external := FactoredExternalLoads(load);
    assert external == [1.5 * load.live, 1.5 * load.snow, 1.5 * load.wind, 1.5 * load.quake];
    var largest := Max(external);
    assert external[0] <= largest && external[1] <= largest && external[2] <= largest && external[3] <= largest;
    assert largest in external;
  }

  /** The largest of four reals, written out case by case. */
  function Max4(a: real, b: real, c: real, d: real): real {
    var ab := if a >= b then a else b;
    var cd := if c >= d then c else d;
    if ab >= cd then ab else cd
  }

  /** The combination rule agrees with the closed form 1.2 dead + max(1.5 live, 1.5 snow, 1.5 wind, 1.5 quake). */
  lemma MaxFactoredLoadClosedForm(load: Load)
    ensures MaxFactoredLoad(load)
         == 1.2 * load.dead + Max4(1.5 * load.live, 1.5 * load.snow, 1.5 * load.wind, 1.5 * load.quake)
  {
    MaxFactoredLoadBounds(load);
  }

  /** Without any variable load the factored load is 1.2 times the dead load. */
  lemma DeadLoadOnly(dead: real)
    ensures MaxFactoredLoad(Load(dead, 0.0, 0.0, 0.0, 0.0)) == 1.2 * dead
  {
    MaxFactoredLoadBounds(Load(dead, 0.0, 0.0, 0.0, 0.0));
  }

  /** Load(dead = 25.7, snow = 37.9, quake = 56.6) combines to 115.74: the quake governs. */
  lemma MaxFactoredLoadExample()
    ensures MaxFactoredLoad(Load(25.7, 0.0, 37.9, 0.0, 56.6)) == 115.74
  {
    MaxFactoredLoadBounds(Load(25.7, 0.0, 37.9, 0.0, 56.6));
  }

  /** Raising any of the five components never lowers the factored load. */
  lemma MaxFactoredLoadMonotone(load: Load, raised: Load)
    requires load.dead <= raised.dead && load.live <= raised.live && load.snow <= raised.snow
    requires load.wind <= raised.wind && load.quake <= raised.quake
    ensures MaxFactoredLoad(load) <= MaxFactoredLoad(raised)
  {
    MaxFactoredLoadBounds(load);
    MaxFactoredLoadBounds(raised);
  }

  // ---------------------------------------------------------------------------
  // Parsing of text rows
  // ---------------------------------------------------------------------------

  /**
   * `float(row[i])`: IndexError when the row is too short, ValueError when
   * the token is not a number. `parse` stands for Python's `float` on strings.
   */
  function ParseField(row: seq<string>, i: nat, parse: string -> Option<real>): (r: Result<real>)
    ensures r.Ok? <==> i < |row| && parse(row[i]).Some?
    ensures r.Ok? ==> r.value == parse(row[i]).value
    ensures r == Err(IndexOutOfRange) <==> i >= |row|
  {
    if i < |row| then
      match parse(row[i])
      case Some(x) => Ok(x)
      case None => Err(ParseFailure)
    else Err(IndexOutOfRange)
  }

  /** A Load with the dead and live parts read from the first two tokens. */
  function CreateLoad(line: seq<string>, parse: string -> Option<real>): (r: Result<Load>)
    ensures r.Ok? <==> |line| >= 2 && parse(line[0]).Some? && parse(line[1]).Some?
    ensures r.Ok? ==> r.value == Load(parse(line[0]).value, parse(line[1]).value, 0.0, 0.0, 0.0)
    ensures r == Err(ParseFailure)
        <==> (|line| >= 1 && parse(line[0]).None?) || (|line| >= 2 && parse(line[0]).Some? && parse(line[1]).None?)
  {
    var dead :- ParseField(line, 0, parse);
    var live :- ParseField(line, 1, parse);
    Ok(DeadLive(dead, live))
  }

  // ---------------------------------------------------------------------------
  // Axes
  // ---------------------------------------------------------------------------

  /** Lower-casing of one ASCII character. */
  function LowerChar(ch: char): char {
    if 'A' <= ch <= 'Z' then (ch as int + 32) as char else ch
  }

  /** The axis strings that name the strong axis. */
  predicate IsXAxis(axis: string) {
    axis == "x" || axis == "X"
  }

  /** The axis strings that name the weak axis. */
  predicate IsYAxis(axis: string) {
    axis == "y" || axis == "Y"
  }

  /**
   * `str.lower()`, restricted to the ASCII letters: a string lowers to "x"
   * exactly when it is "x" or "X", and to "y" exactly when it is "y" or "Y".
   */
  function Lower(s: string): (r: string)
    ensures |r| == |s|
    ensures r == "x" <==> IsXAxis(s)
    ensures r == "y" <==> IsYAxis(s)
  {
    var r := seq(|s|, i requires 0 <= i < |s| => LowerChar(s[i]));
    assert |s| == 1 ==> r[0] == LowerChar(s[0]) && s == [s[0]] && r == [r[0]];
    r
  }

  // ---------------------------------------------------------------------------
  // Abstract numerics
  // ---------------------------------------------------------------------------

  /** The value of pi and the function math.sqrt, left uninterpreted. */
  datatype Numerics = Numerics(pi: real, sqrt: real -> real)

  /** `math.sqrt(x)`: a ValueError for a negative argument. */
  function Sqrt(m: Numerics, x: real): (r: Result<real>)
    ensures r.Ok? <==> x >= 0.0
    ensures r.Err? ==> r.error == MathDomain
    ensures r.Ok? ==> r.value == m.sqrt(x)
  {
    if x < 0.0 then Err(MathDomain) else Ok(m.sqrt(x))
  }

  /** `m.sqrt` returns the non-negative square root of `x`. */
  predicate SqrtExactAt(m: Numerics, x: real) {
    0.0 <= m.sqrt(x) && m.sqrt(x) * m.sqrt(x) == x
  }

  /** pi^2 E MoI / (K height)^2. */
  function EulerLoad(pi: real, e: real, moi: real, k: real, height: real): (r: real)
    requires k * height != 0.0
    ensures r * ((k * height) * (k * height)) == pi * pi * e * moi
  {
    var length := k * height;
    (pi * pi * e * moi) / (length * length)
  }

  // ---------------------------------------------------------------------------
  // Doubly symmetric column
  // ---------------------------------------------------------------------------

  /** A prismatic, doubly symmetric column of one material; every field defaults to zero. */
  datatype ColumnDoublySymmetric = ColumnDoublySymmetric(
    height: real, area: real, moIx: real, moIy: real, kx: real, ky: real, e: real)
  {
    /**
     * The radius of gyration sqrt(MoI / area). The axis is not checked: the
     * strong axis for "x" and "X", the weak axis for every other string.
     */
    function CalcRadiusOfGyration(axis: string, m: Numerics): (r: Result<real>)
      ensures r == Err(ZeroArea) <==> area == 0.0
      ensures r != Err(InvalidAxis)
      ensures IsXAxis(axis) ==> r == if area == 0.0 then Err(ZeroArea) else Sqrt(m, moIx / area)
      ensures !IsXAxis(axis) ==> r == if area == 0.0 then Err(ZeroArea) else Sqrt(m, moIy / area)
    {
      var moi := if Lower(axis) == "x" then moIx else moIy;
      if area == 0.0 then Err(ZeroArea) else Sqrt(m, moi / area)
    }

    /**
     * The Euler load pi^2 E MoI / (K height)^2 about the x or the y axis,
     * chosen case-insensitively; any other axis string is an error.
     */
    function CalcEulerBucklingLoad(axis: string, m: Numerics): (r: Result<real>)
      ensures r == Err(InvalidAxis) <==> !IsXAxis(axis) && !IsYAxis(axis)
      ensures IsXAxis(axis) ==> (r.Ok? <==> kx * height != 0.0)
      ensures IsYAxis(axis) ==> (r.Ok? <==> ky * height != 0.0)
      ensures r.Err? ==> r.error == InvalidAxis || r.error == ZeroLength
      ensures r.Ok? && IsXAxis(axis) ==> r.value * ((kx * height) * (kx * height)) == m.pi * m.pi * e * moIx
      ensures r.Ok? && IsYAxis(axis) ==> r.value * ((ky * height) * (ky * height)) == m.pi * m.pi * e * moIy
    {
      if Lower(axis) == "x" then EulerAbout(moIx, kx, m)
      else if Lower(axis) == "y" then EulerAbout(moIy, ky, m)
      else Err(InvalidAxis)
    }

    /** The Euler load for one axis's moment of inertia and effective-length factor. */
    function EulerAbout(moi: real, k: real, m: Numerics): (r: Result<real>)
      ensures r.Ok? <==> k * height != 0.0
      ensures r.Err? ==> r.error == ZeroLength
      ensures r.Ok? ==> r.value * ((k * height) * (k * height)) == m.pi * m.pi * e * moi
    {
      if k * height == 0.0 then Err(ZeroLength) else Ok(EulerLoad(m.pi, e, moi, k, height))
    }

    /** The same column with its two principal axes exchanged. */
    function SwapAxes(): ColumnDoublySymmetric {
      ColumnDoublySymmetric(height, area, moIy, moIx, ky, kx, e)
    }
  }

  /** The Euler loads of the column used as a test case of the source (height 3000, area 120000). */
  lemma EulerBucklingLoadExample(m: Numerics)
    ensures ColumnDoublySymmetric(3000.0, 120000.0, 1600000000.0, 900000000.0, 1.0, 0.7, 20000.0)
              .CalcEulerBucklingLoad("x", m) == Ok(m.pi * m.pi * 20000.0 * 1600000000.0 / 9000000.0)
    ensures ColumnDoublySymmetric(3000.0, 120000.0, 1600000000.0, 900000000.0, 1.0, 0.7, 20000.0)
              .CalcEulerBucklingLoad("y", m) == Ok(m.pi * m.pi * 20000.0 * 900000000.0 / 4410000.0)
  {
  }

  /** A column of zero height and zero area fails both computations with a geometry error. */
  lemma DegenerateColumnFails(m: Numerics, axis: string)
    requires IsXAxis(axis) || IsYAxis(axis)
    ensures ColumnDoublySymmetric(0.0, 0.0, 1600000000.0, 900000000.0, 1.0, 0.7, 20000.0)
              .CalcRadiusOfGyration(axis, m) == Err(ZeroArea)
    ensures ColumnDoublySymmetric(0.0, 0.0, 1600000000.0, 900000000.0, 1.0, 0.7, 20000.0)
              .CalcEulerBucklingLoad(axis, m) == Err(ZeroLength)
  {
  }

  /** Exchanging the axes of a column exchanges its x and y Euler loads. */
  lemma EulerSwapAxes(g: ColumnDoublySymmetric, m: Numerics)
    ensures g.SwapAxes().CalcEulerBucklingLoad("y", m) == g.CalcEulerBucklingLoad("x", m)
    ensures g.SwapAxes().CalcEulerBucklingLoad("x", m) == g.CalcEulerBucklingLoad("y", m)
  {
  }

  // ---------------------------------------------------------------------------
  // Steel column capacity
  // ---------------------------------------------------------------------------

  /**
   * The imperfection factor: buckling curve b (0.34) only for the exact
   * string "x", curve c (0.49) for everything else, "X" included.
   */
  function ImperfectionFactor(axis: string): (r: real)
    ensures r == 0.34 <==> axis == "x"
    ensures r == 0.49 <==> axis != "x"
  {
    if axis == "x" then 0.34 else 0.49
  }

  /** The intermediate value rho = 0.5 (1 + alpha (lambda - 0.2) + lambda^2). */
  function Rho(alpha: real, lambda: real): real {
    0.5 * (1.0 + alpha * (lambda - 0.2) + lambda * lambda)
  }

  /** The reference slenderness lambda_1 = pi sqrt(E / f_y); the source computes it and does not use it. */
  function ReferenceSlenderness(e: real, fy: real, m: Numerics): (r: Result<real>)
    ensures r.Ok? <==> fy != 0.0 && e / fy >= 0.0
    ensures r == Err(ZeroDivision) <==> fy == 0.0
  {
    if fy == 0.0 then Err(ZeroDivision)
    else
      var root :- Sqrt(m, e / fy);
      Ok(m.pi * root)
  }

  /**
   * The relative slenderness sqrt(area f_y / N_cr), given the outcome of the
   * Euler load N_cr; a zero Euler load is a ZeroDivisionError.
   */
  function RelativeSlenderness(nCr: Result<real>, area: real, fy: real, m: Numerics): (r: Result<real>)
    ensures nCr.Err? ==> r == nCr
    ensures nCr.Ok? && nCr.value == 0.0 ==> r == Err(ZeroDivision)
    ensures r.Ok? <==> nCr.Ok? && nCr.value != 0.0 && area * fy / nCr.value >= 0.0
    ensures r.Ok? ==> r.value == m.sqrt(area * fy / nCr.value)
  {
    var load :- nCr;
    if load == 0.0 then Err(ZeroDivision) else Sqrt(m, area * fy / load)
  }

  /** The argument rho^2 - lambda^2 of the square root in the reduction factor. */
  function Radicand(alpha: real, lambda: real): real {
    Rho(alpha, lambda) * Rho(alpha, lambda) - lambda * lambda
  }

  /** The denominator rho + sqrt(rho^2 - lambda^2) of the reduction factor. */
  function ReductionDenominator(alpha: real, lambda: real, m: Numerics): real {
    Rho(alpha, lambda) + m.sqrt(Radicand(alpha, lambda))
  }

  /** The reduction factor xi = 1 / (rho + sqrt(rho^2 - lambda^2)). */
  function ReductionFactor(alpha: real, lambda: real, m: Numerics): (r: Result<real>)
    ensures r.Ok? <==> Radicand(alpha, lambda) >= 0.0 && ReductionDenominator(alpha, lambda, m) != 0.0
    ensures r == Err(MathDomain) <==> Radicand(alpha, lambda) < 0.0
    ensures r.Ok? ==> r.value * ReductionDenominator(alpha, lambda, m) == 1.0
  {
    var rho := Rho(alpha, lambda);
    var root :- Sqrt(m, Radicand(alpha, lambda));
    var denominator := rho + root;
    if denominator == 0.0 then Err(ZeroDivision) else Ok(1.0 / denominator)
  }

  /** The product of two non-negative reals is non-negative. */
  lemma ProductNonNegative(a: real, b: real)
    requires 0.0 <= a && 0.0 <= b
    ensures 0.0 <= a * b
  {
  }

  /** (a - b)^2 = a^2 - 2ab + b^2. */
  lemma SquareOfDifference(a: real, b: real)
    ensures (a - b) * (a - b) == a * a - 2.0 * a * b + b * b
  {
  }

  /** Squaring is monotone on the non-negative reals. */
  lemma SquareMonotone(a: real, b: real)
    requires 0.0 <= a && 0.0 <= b && a * a >= b * b
    ensures a >= b
  {
    if a < b {
      ProductNonNegative(b - a, a);
      assert false;
    }
  }

  /** Dividing both sides by a positive factor keeps a non-strict order. */
  lemma CancelPositive(a: real, b: real, g: real)
    requires 0.0 < g && a * g <= b * g
    ensures a <= b
  {
  }

  /** Dividing both sides by a positive factor keeps a strict order. */
  lemma CancelPositiveStrict(a: real, b: real, g: real)
    requires 0.0 < g && a * g < b * g
    ensures a < b
  {
  }

  /** If n gamma = x s with 0 < x <= 1 and s, gamma positive, then 0 < n <= s / gamma. */
  lemma ScaledQuotientBound(n: real, x: real, s: real, gamma: real)
    requires 0.0 < gamma && 0.0 < s && 0.0 < x <= 1.0 && n * gamma == x * s
    ensures 0.0 < n <= s / gamma
  {
    assert x * s <= s;
    assert n * gamma <= s;
    var bound := s / gamma;
    assert bound * gamma == s;
    assert n * gamma <= bound * gamma;
    CancelPositive(n, bound, gamma);
    assert 0.0 < x * s;
    assert 0.0 * gamma < n * gamma;
    CancelPositiveStrict(0.0, n, gamma);
  }

  /**
   * With a non-negative imperfection factor and a slenderness of at least
   * 0.2, rho + sqrt(rho^2 - lambda^2) is at least 1, so the reduction factor
   * is at most 1.
   */
  lemma ReductionDenominatorAtLeastOne(alpha: real, lambda: real, root: real)
    requires 0.0 <= alpha && 0.2 <= lambda
    requires 0.0 <= root && root * root == Rho(alpha, lambda) * Rho(alpha, lambda) - lambda * lambda
    ensures Rho(alpha, lambda) + root >= 1.0
  {
    var rho := Rho(alpha, lambda);
    var sq := lambda * lambda;
    ProductNonNegative(alpha, lambda - 0.2);
    assert 2.0 * rho >= 1.0 + sq;
    if rho < 1.0 {
      var gap := 1.0 - rho;
      SquareOfDifference(1.0, rho);
      assert gap * gap == 1.0 - 2.0 * rho + rho * rho;
      assert root * root >= gap * gap;
      SquareMonotone(root, gap);
    }
  }

  /**
   * From a slenderness of 0.2 on, rho is at least lambda, so the radicand
   * rho^2 - lambda^2 is not negative and math.sqrt does not raise.
   */
  lemma RadicandNonNegativeWhenSlender(alpha: real, lambda: real)
    requires 0.0 <= alpha && 0.2 <= lambda
    ensures Rho(alpha, lambda) >= lambda
    ensures Radicand(alpha, lambda) >= 0.0
  {
    var rho := Rho(alpha, lambda);
    ProductNonNegative(alpha, lambda - 0.2);
    SquareOfDifference(1.0, lambda);
    if lambda < 1.0 {
      ProductNonNegative(1.0 - lambda, 1.0 - lambda);
    } else {
      ProductNonNegative(lambda - 1.0, lambda - 1.0);
    }
    assert 2.0 * rho >= 1.0 + lambda * lambda >= 2.0 * lambda;
    ProductNonNegative(rho - lambda, rho + lambda);
    assert (rho - lambda) * (rho + lambda) == rho * rho - lambda * lambda;
  }

  /**
   * The source does not cap the reduction factor at 1: below a slenderness
   * of 0.2, rho + sqrt(rho^2 - lambda^2) lies in (0, 1) for every
   * imperfection factor in (0, 1], so xi exceeds 1.
   */
  lemma ReductionDenominatorBelowOneWhenStocky(alpha: real, lambda: real, root: real)
    requires 0.0 < alpha <= 1.0 && 0.0 <= lambda < 0.2
    requires 0.0 <= root && root * root == Rho(alpha, lambda) * Rho(alpha, lambda) - lambda * lambda
    ensures 0.0 < Rho(alpha, lambda) + root < 1.0
  {
    var rho := Rho(alpha, lambda);
    ProductNonNegative(alpha, lambda);
    assert alpha * (lambda - 0.2) == alpha * lambda - 0.2 * alpha;
    assert alpha * lambda < 0.2 * alpha by {
      CancelPositiveStrict(lambda, 0.2, alpha);
    }
    assert rho >= 0.4;
    assert lambda * lambda <= 0.2 * lambda;
    assert 2.0 * rho < 1.0 + lambda * lambda;
    var gap := 1.0 - rho;
    assert gap > 0.0;
    SquareOfDifference(1.0, rho);
    assert gap * gap == 1.0 - 2.0 * rho + rho * rho;
    assert root * root < gap * gap;
    if root >= gap {
      ProductNonNegative(root - gap, root + gap);
      assert false;
    }
  }

  /**
   * With an imperfection factor in (0, 1], a slenderness below 0.2 and an
   * exact square root, the reduction factor exceeds 1.
   */
  lemma ReductionFactorAboveOneWhenStocky(alpha: real, lambda: real, m: Numerics)
    requires 0.0 < alpha <= 1.0 && 0.0 <= lambda < 0.2 && SqrtExactAt(m, Radicand(alpha, lambda))
    requires ReductionFactor(alpha, lambda, m).Ok?
    ensures ReductionFactor(alpha, lambda, m).value > 1.0
  {
    var denominator := ReductionDenominator(alpha, lambda, m);
    ReductionDenominatorBelowOneWhenStocky(alpha, lambda, m.sqrt(Radicand(alpha, lambda)));
    var xi := ReductionFactor(alpha, lambda, m).value;
    assert xi * denominator == 1.0;
  }

  /**
   * The factored axial capacity N_b = xi area f_y / gamma_m with
   * f_y = yield_stress / gamma_m, following the source's order of
   * evaluation: the design yield stress, the radius of gyration, the
   * reference slenderness, the Euler load and the relative slenderness,
   * the reduction factor.
   */
  function AxialCapacity(g: ColumnDoublySymmetric, yieldStress: real, gammaM: real, axis: string, m: Numerics)
    : (r: Result<real>)
    ensures r.Ok? ==> (IsXAxis(axis) || IsYAxis(axis)) && g.area != 0.0 && gammaM != 0.0 && yieldStress != 0.0
    ensures !IsXAxis(axis) && !IsYAxis(axis) ==> r.Err?
    ensures gammaM == 0.0 ==> r == Err(ZeroDivision)
    ensures gammaM != 0.0 && g.area == 0.0 ==> r == Err(ZeroArea)
  {
    if gammaM == 0.0 then Err(ZeroDivision)
    else
      var fy := yieldStress / gammaM;
      CapacityFrom(g.CalcRadiusOfGyration(axis, m), ReferenceSlenderness(g.e, fy, m),
                   RelativeSlenderness(g.CalcEulerBucklingLoad(axis, m), g.area, fy, m),
                   ImperfectionFactor(axis), g.area, fy, gammaM, m)
  }

  /**
   * What factored_axial_capacity computes once gamma_m is non-zero (a zero
   * gamma_m is the ZeroDivisionError of the contract above): the radius of
   * gyration's error comes first, then that of lambda_1, then that of the
   * relative slenderness, then that of the reduction factor; on success
   * N_b gamma_m = xi area f_y with xi the reduction factor for the axis'
   * imperfection factor.
   */
  lemma AxialCapacityValue(g: ColumnDoublySymmetric, yieldStress: real, gammaM: real, axis: string, m: Numerics)
    requires gammaM != 0.0
    ensures var capacity := AxialCapacity(g, yieldStress, gammaM, axis, m);
            var fy := yieldStress / gammaM;
            var radius := g.CalcRadiusOfGyration(axis, m);
            var lambda1 := ReferenceSlenderness(g.e, fy, m);
            var lambdaRel := RelativeSlenderness(g.CalcEulerBucklingLoad(axis, m), g.area, fy, m);
            && (radius.Err? ==> capacity == radius)
            && (radius.Ok? && lambda1.Err? ==> capacity == lambda1)
            && (radius.Ok? && lambda1.Ok? && lambdaRel.Err? ==> capacity == Err(lambdaRel.error))
            && (radius.Ok? && lambda1.Ok? && lambdaRel.Ok? ==>
                  var xi := ReductionFactor(ImperfectionFactor(axis), lambdaRel.value, m);
                  && (xi.Err? ==> capacity == Err(xi.error))
                  && (xi.Ok? ==> capacity.Ok? && capacity.value * gammaM == xi.value * g.area * fy))
  {
    var fy := yieldStress / gammaM;
    assert AxialCapacity(g, yieldStress, gammaM, axis, m)
        == CapacityFrom(g.CalcRadiusOfGyration(axis, m), ReferenceSlenderness(g.e, fy, m),
                        RelativeSlenderness(g.CalcEulerBucklingLoad(axis, m), g.area, fy, m),
                        ImperfectionFactor(axis), g.area, fy, gammaM, m);
  }

  /**
   * The last steps of the capacity, given the radius of gyration, the
   * reference and relative slenderness (each possibly failed, checked in
   * that order), the imperfection factor, the area and f_y.
   */
  function CapacityFrom(radius: Result<real>, lambda1: Result<real>, lambdaRel: Result<real>,
                        alpha: real, area: real, fy: real, gammaM: real, m: Numerics): (r: Result<real>)
    requires gammaM != 0.0
    ensures radius.Err? ==> r == radius
    ensures radius.Ok? && lambda1.Err? ==> r == lambda1
    ensures r.Ok? ==> radius.Ok? && lambda1.Ok? && lambdaRel.Ok? && ReductionFactor(alpha, lambdaRel.value, m).Ok?
    ensures r.Ok? ==> r.value * gammaM == ReductionFactor(alpha, lambdaRel.value, m).value * area * fy
  {
    var _ :- radius;
    var _ :- lambda1;
    var lambda :- lambdaRel;
    var xi :- ReductionFactor(alpha, lambda, m);
    Ok(xi * area * fy / gammaM)
  }

  /**
   * The capacity depends on the axis string only through its lower-cased
   * form and its imperfection factor.
   */
  lemma CapacityDependsOnLowerAndCurve(g: ColumnDoublySymmetric, yieldStress: real, gammaM: real,
                                       axis: string, other: string, m: Numerics)
    requires Lower(axis) == Lower(other) && ImperfectionFactor(axis) == ImperfectionFactor(other)
    ensures AxialCapacity(g, yieldStress, gammaM, axis, m) == AxialCapacity(g, yieldStress, gammaM, other, m)
  {
    assert g.CalcRadiusOfGyration(axis, m) == g.CalcRadiusOfGyration(other, m);
    assert g.CalcEulerBucklingLoad(axis, m) == g.CalcEulerBucklingLoad(other, m);
  }

  /** "Y" and "y" give the same capacity; both use the weak axis and curve c. */
  lemma CapacityWeakAxisCaseInsensitive(g: ColumnDoublySymmetric, yieldStress: real, gammaM: real, m: Numerics)
    ensures AxialCapacity(g, yieldStress, gammaM, "Y", m) == AxialCapacity(g, yieldStress, gammaM, "y", m)
  {
    CapacityDependsOnLowerAndCurve(g, yieldStress, gammaM, "Y", "y", m);
  }

  /**
   * "X" uses the strong axis's section properties with curve c: its capacity
   * is the weak-axis capacity of the column with its axes exchanged.
   */
  lemma CapacityUpperXUsesCurveC(g: ColumnDoublySymmetric, yieldStress: real, gammaM: real, m: Numerics)
    ensures AxialCapacity(g, yieldStress, gammaM, "X", m) == AxialCapacity(g.SwapAxes(), yieldStress, gammaM, "y", m)
  {
    var h := g.SwapAxes();
    assert g.CalcRadiusOfGyration("X", m) == h.CalcRadiusOfGyration("y", m);
    EulerSwapAxes(g, m);
    assert g.CalcEulerBucklingLoad("X", m) == h.CalcEulerBucklingLoad("y", m);
    assert h.area == g.area && h.e == g.e;
  }

  /**
   * With a non-negative imperfection factor, a slenderness of at least 0.2
   * and an exact square root, the reduction factor lies in (0, 1].
   */
  lemma ReductionFactorInUnitInterval(alpha: real, lambda: real, m: Numerics)
    requires 0.0 <= alpha && 0.2 <= lambda && SqrtExactAt(m, Radicand(alpha, lambda))
    requires ReductionFactor(alpha, lambda, m).Ok?
    ensures 0.0 < ReductionFactor(alpha, lambda, m).value <= 1.0
  {
    var denominator := ReductionDenominator(alpha, lambda, m);
    ReductionDenominatorAtLeastOne(alpha, lambda, m.sqrt(Radicand(alpha, lambda)));
    var xi := ReductionFactor(alpha, lambda, m).value;
    assert xi * denominator == 1.0;
    assert 1.0 * denominator >= 1.0;
    if xi > 1.0 {
      ProductNonNegative(xi - 1.0, denominator - 1.0);
      assert false;
    }
    if xi <= 0.0 {
      ProductNonNegative(-xi, denominator);
      assert false;
    }
  }

  /** If N_b gamma_m = xi area (f_y / gamma_m) with 0 < xi <= 1, then 0 < N_b <= area f_y / gamma_m^2. */
  lemma CapacityBound(nb: real, xi: real, area: real, yieldStress: real, gammaM: real)
    requires area > 0.0 && yieldStress > 0.0 && gammaM > 0.0 && 0.0 < xi <= 1.0
    requires nb * gammaM == xi * area * (yieldStress / gammaM)
    ensures 0.0 < nb <= area * yieldStress / (gammaM * gammaM)
  {
    var squash := area * (yieldStress / gammaM);
    assert squash > 0.0;
    assert xi * area * (yieldStress / gammaM) == xi * squash;
    ScaledQuotientBound(nb, xi, squash, gammaM);
    assert squash / gammaM == area * yieldStress / (gammaM * gammaM);
  }

  /** The bound of CapacityAtMostSquashLoad for the last steps of the capacity. */
  lemma CapacityFromAtMostSquashLoad(radius: Result<real>, lambda1: Result<real>, lambdaRel: Result<real>,
                                     alpha: real, area: real, yieldStress: real, gammaM: real, m: Numerics)
    requires area > 0.0 && yieldStress > 0.0 && gammaM > 0.0 && 0.0 <= alpha
    requires CapacityFrom(radius, lambda1, lambdaRel, alpha, area, yieldStress / gammaM, gammaM, m).Ok?
    requires lambdaRel.Ok? && lambdaRel.value >= 0.2 && SqrtExactAt(m, Radicand(alpha, lambdaRel.value))
    ensures 0.0 < CapacityFrom(radius, lambda1, lambdaRel, alpha, area, yieldStress / gammaM, gammaM, m).value
    ensures CapacityFrom(radius, lambda1, lambdaRel, alpha, area, yieldStress / gammaM, gammaM, m).value
              <= area * yieldStress / (gammaM * gammaM)
  {
    ReductionFactorInUnitInterval(alpha, lambdaRel.value, m);
    var xi := ReductionFactor(alpha, lambdaRel.value, m).value;
    var nb := CapacityFrom(radius, lambda1, lambdaRel, alpha, area, yieldStress / gammaM, gammaM, m).value;
    assert nb * gammaM == xi * area * (yieldStress / gammaM);
    CapacityBound(nb, xi, area, yieldStress, gammaM);
  }

  /** The same below the plateau: there the capacity exceeds area yield_stress / gamma_m^2. */
  lemma CapacityFromAboveSquashLoad(radius: Result<real>, lambda1: Result<real>, lambdaRel: Result<real>,
                                    alpha: real, area: real, yieldStress: real, gammaM: real, m: Numerics)
    requires area > 0.0 && yieldStress > 0.0 && gammaM > 0.0 && 0.0 < alpha <= 1.0
    requires CapacityFrom(radius, lambda1, lambdaRel, alpha, area, yieldStress / gammaM, gammaM, m).Ok?
    requires lambdaRel.Ok? && 0.0 <= lambdaRel.value < 0.2 && SqrtExactAt(m, Radicand(alpha, lambdaRel.value))
    ensures CapacityFrom(radius, lambda1, lambdaRel, alpha, area, yieldStress / gammaM, gammaM, m).value
              > area * yieldStress / (gammaM * gammaM)
  {
    ReductionFactorAboveOneWhenStocky(alpha, lambdaRel.value, m);
    var xi := ReductionFactor(alpha, lambdaRel.value, m).value;
    var nb := CapacityFrom(radius, lambda1, lambdaRel, alpha, area, yieldStress / gammaM, gammaM, m).value;
    assert nb * gammaM == xi * area * (yieldStress / gammaM);
    CapacityAboveBound(nb, xi, area, yieldStress, gammaM);
  }

  /**
   * For positive inputs, a relative slenderness of at least 0.2 and an exact
   * square root, the capacity lies in (0, area yield_stress / gamma_m^2]:
   * the material factor divides the squash load twice.
   */
  lemma CapacityAtMostSquashLoad(g: ColumnDoublySymmetric, yieldStress: real, gammaM: real, axis: string, m: Numerics)
    requires g.area > 0.0 && yieldStress > 0.0 && gammaM > 0.0
    requires AxialCapacity(g, yieldStress, gammaM, axis, m).Ok?
    requires var lambda := RelativeSlenderness(g.CalcEulerBucklingLoad(axis, m), g.area, yieldStress / gammaM, m);
      lambda.Ok? && lambda.value >= 0.2 && SqrtExactAt(m, Radicand(ImperfectionFactor(axis), lambda.value))
    ensures 0.0 < AxialCapacity(g, yieldStress, gammaM, axis, m).value
    ensures AxialCapacity(g, yieldStress, gammaM, axis, m).value <= g.area * yieldStress / (gammaM * gammaM)
  {
    var fy := yieldStress / gammaM;
    var radius := g.CalcRadiusOfGyration(axis, m);
    var lambda1 := ReferenceSlenderness(g.e, fy, m);
    var slenderness := RelativeSlenderness(g.CalcEulerBucklingLoad(axis, m), g.area, fy, m);
    var capacity := CapacityFrom(radius, lambda1, slenderness, ImperfectionFactor(axis), g.area, fy, gammaM, m);
    assert AxialCapacity(g, yieldStress, gammaM, axis, m) == capacity;
    CapacityFromAtMostSquashLoad(radius, lambda1, slenderness, ImperfectionFactor(axis), g.area, yieldStress, gammaM, m);
    assert 0.0 < capacity.value <= g.area * yieldStress / (gammaM * gammaM);
  }

  /** If N_b gamma_m = xi area (f_y / gamma_m) with xi > 1, then N_b > area f_y / gamma_m^2. */
  lemma CapacityAboveBound(nb: real, xi: real, area: real, yieldStress: real, gammaM: real)
    requires area > 0.0 && yieldStress > 0.0 && gammaM > 0.0 && xi > 1.0
    requires nb * gammaM == xi * area * (yieldStress / gammaM)
    ensures nb > area * yieldStress / (gammaM * gammaM)
  {
    var squash := area * (yieldStress / gammaM);
    assert squash > 0.0;
    assert xi * area * (yieldStress / gammaM) == xi * squash;
    assert nb * gammaM == xi * squash;
    assert xi * squash > squash;
    var bound := squash / gammaM;
    calc {
      bound * gammaM;
    ==
      squash;
    <
      xi * squash;
    ==
      nb * gammaM;
    }
    CancelPositiveStrict(bound, nb, gammaM);
    assert bound == area * yieldStress / (gammaM * gammaM);
  }

  /**
   * For positive inputs, a relative slenderness below 0.2 and an exact
   * square root, the capacity exceeds area yield_stress / gamma_m^2: the
   * missing cap on the reduction factor shows in the resistance.
   */
  lemma CapacityAboveSquashLoadWhenStocky(g: ColumnDoublySymmetric, yieldStress: real, gammaM: real, axis: string,
                                          m: Numerics)
    requires g.area > 0.0 && yieldStress > 0.0 && gammaM > 0.0
    requires AxialCapacity(g, yieldStress, gammaM, axis, m).Ok?
    requires var lambda := RelativeSlenderness(g.CalcEulerBucklingLoad(axis, m), g.area, yieldStress / gammaM, m);
      lambda.Ok? && 0.0 <= lambda.value < 0.2 && SqrtExactAt(m, Radicand(ImperfectionFactor(axis), lambda.value))
    ensures AxialCapacity(g, yieldStress, gammaM, axis, m).value > g.area * yieldStress / (gammaM * gammaM)
  {
    var fy := yieldStress / gammaM;
    var radius := g.CalcRadiusOfGyration(axis, m);
    var lambda1 := ReferenceSlenderness(g.e, fy, m);
    var slenderness := RelativeSlenderness(g.CalcEulerBucklingLoad(axis, m), g.area, fy, m);
    var capacity := CapacityFrom(radius, lambda1, slenderness, ImperfectionFactor(axis), g.area, fy, gammaM, m);
    assert AxialCapacity(g, yieldStress, gammaM, axis, m) == capacity;
    CapacityFromAboveSquashLoad(radius, lambda1, slenderness, ImperfectionFactor(axis), g.area, yieldStress, gammaM, m);
    assert capacity.value > g.area * yieldStress / (gammaM * gammaM);
  }

  /** Demand over capacity: a ZeroDivisionError when the capacity is zero. */
  function Ratio(demand: real, capacity: real): (r: Result<real>)
    ensures r.Ok? <==> capacity != 0.0
    ensures r.Err? ==> r.error == ZeroDivision
    ensures r.Ok? ==> r.value * capacity == demand
  {
    if capacity == 0.0 then Err(ZeroDivision) else Ok(demand / capacity)
  }

  /** For a positive capacity the ratio is at most 1 exactly when the demand is at most the capacity. */
  lemma RatioAtMostOne(demand: real, capacity: real)
    requires capacity > 0.0
    ensures Ratio(demand, capacity).value <= 1.0 <==> demand <= capacity
  {
    var q := Ratio(demand, capacity).value;
    if q <= 1.0 {
      assert q * capacity <= capacity;
    } else {
      assert q * capacity > capacity;
    }
  }

  /**
   * The ratio of the factored load of an optional axial load to the outcome
   * of a capacity: the load is evaluated first, then the capacity, then the
   * division.
   */
  function DemandCapacityRatio(load: Option<Load>, capacity: Result<real>): (r: Result<real>)
    ensures r.Ok? <==> load.Some? && capacity.Ok? && capacity.value != 0.0
    ensures load.None? ==> r == Err(MissingLoad)
    ensures load.Some? && capacity.Err? ==> r == Err(capacity.error)
    ensures load.Some? && capacity == Ok(0.0) ==> r == Err(ZeroDivision)
    ensures r.Ok? ==> r.value * capacity.value == MaxFactoredLoad(load.value)
  {
    match load
    case None => Err(MissingLoad)
    case Some(l) =>
      var c :- capacity;
      Ratio(MaxFactoredLoad(l), c)
  }

  /**
   * A steel column: the doubly symmetric column it is built on, its tag,
   * yield stress and material factor (never reassigned), and its axial
   * load, which callers replace.
   */
  class SteelColumn {
    const geometry: ColumnDoublySymmetric
    const columnTag: string
    const yieldStress: real
    const gammaM: real
    var axialLoad: Option<Load>

    constructor (geometry: ColumnDoublySymmetric, columnTag: string := "", axialLoad: Option<Load> := None,
                 yieldStress: real := 235.0, gammaM: real := 1.0)
      ensures this.geometry == geometry && this.columnTag == columnTag && this.axialLoad == axialLoad
      ensures this.yieldStress == yieldStress && this.gammaM == gammaM
    {
      this.geometry := geometry;
      this.columnTag := columnTag;
      this.axialLoad := axialLoad;
      this.yieldStress := yieldStress;
      this.gammaM := gammaM;
    }

    /** The combined design load of the current axial load; an AttributeError while it is None. */
    function FactoredAxialLoad(): (r: Result<real>)
      reads this
      ensures r.Ok? <==> axialLoad.Some?
      ensures r.Err? ==> r.error == MissingLoad
      ensures r.Ok? ==> r.value == MaxFactoredLoad(axialLoad.value)
    {
      match axialLoad
      case None => Err(MissingLoad)
      case Some(load) => Ok(MaxFactoredLoad(load))
    }

    /** The buckling capacity about `axis`; it depends on the constant fields only. */
    function FactoredAxialCapacity(axis: string, m: Numerics): Result<real>
    {
      AxialCapacity(geometry, yieldStress, gammaM, axis, m)
    }

    /** The demand/capacity ratio about `axis`. */
    function FactoredDcr(axis: string, m: Numerics): (r: Result<real>)
      reads this
      ensures r.Ok? <==> axialLoad.Some? && FactoredAxialCapacity(axis, m).Ok? && FactoredAxialCapacity(axis, m).value != 0.0
      ensures axialLoad.None? ==> r == Err(MissingLoad)
      ensures r.Ok? ==> r.value * FactoredAxialCapacity(axis, m).value == FactoredAxialLoad().value
    {
      DemandCapacityRatio(axialLoad, FactoredAxialCapacity(axis, m))
    }
  }

  /**
   * A steel column from eleven text tokens: tag, area, height, MoIx, MoIy,
   * yield stress, E, K_x, K_y, dead load and live load. Tokens are read in
   * order, so the first missing or malformed one decides the error.
   */
  method ConvertRowToColData(row: seq<string>, parse: string -> Option<real>) returns (r: Result<SteelColumn>)
    ensures r.Ok? <==> |row| >= 11 && forall i | 1 <= i < 11 :: parse(row[i]).Some?
    ensures r == Err(ParseFailure) <==> exists i | 1 <= i < 11 && i < |row| :: parse(row[i]).None?
    ensures r == Err(IndexOutOfRange) <==> |row| < 11 && forall i | 1 <= i < |row| :: parse(row[i]).Some?
    ensures r.Ok? ==> fresh(r.value)
    ensures r.Ok? ==> r.value.columnTag == row[0]
    ensures r.Ok? ==> r.value.geometry == ColumnDoublySymmetric(
      parse(row[2]).value, parse(row[1]).value, parse(row[3]).value, parse(row[4]).value,
      parse(row[7]).value, parse(row[8]).value, parse(row[6]).value)
    ensures r.Ok? ==> r.value.yieldStress == parse(row[5]).value && r.value.gammaM == 1.0
    ensures r.Ok? ==> r.value.axialLoad == Some(DeadLive(parse(row[9]).value, parse(row[10]).value))
  {
    if |row| == 0 {
      return Err(IndexOutOfRange);
    }
    var columnTag := row[0];
    var area :- ParseField(row, 1, parse);
    var height :- ParseField(row, 2, parse);
    var moIx :- ParseField(row, 3, parse);
    var moIy :- ParseField(row, 4, parse);
    var fy :- ParseField(row, 5, parse);
    var e :- ParseField(row, 6, parse);
    var kx :- ParseField(row, 7, parse);
    var ky :- ParseField(row, 8, parse);
    var deadLoad :- ParseField(row, 9, parse);
    var liveLoad :- ParseField(row, 10, parse);
    var load := DeadLive(deadLoad, liveLoad);
    var column := new SteelColumn(ColumnDoublySymmetric(height, area, moIx, moIy, kx, ky, e),
                                  columnTag, Some(load), fy);
    r := Ok(column);
  }
}
