/** Shared vocabulary of the projection kernels: the tolerances, the error
    kinds, a result type for operations that can fail, and the numeric
    primitives the kernels call but which are not modelled here.

    Doubles are modelled as Dafny `real`s: there is no rounding, no infinity
    and no NaN. The trigonometric functions, `sqrt`, `hypot`, `atan2` and the
    meridian-arc series (`pj_enfn`, `pj_mlfn`, `pj_inv_mlfn`) are left
    uninterpreted: they are fields of a `Math` value passed to every kernel,
    and `Valid`, `Symmetric` and `ValidPolar` list the few facts about them
    that the proofs use. */
module ProjCommon {
  import opened Reals

  /** EPS10, the tolerance of every pole and degeneracy test. */
  const Eps10: real := 0.0000000001

  /** half_pi: a decimal just below pi/2, approximating the double half_pi. */
  const HalfPi: real := 1.5707963267948966

  /** pi: a decimal just below pi, approximating the double pi. */
  const Pi: real := 3.141592653589793

  /** The coefficient table `detail::en<T>` of the meridian-arc series. */
  type Coefficients = seq<real>

  /** The numeric collaborators of the kernels, as uninterpreted functions. */
  datatype Math = Math(
    sin: real -> real,
    cos: real -> real,
    tan: real -> real,
    sqrt: real -> real,
    hypot: (real, real) -> real,
    atan2: (real, real) -> real,
    // pj_enfn(es): the series coefficients for eccentricity squared es
    enfn: real -> Coefficients,
    // pj_mlfn(phi, sin phi, cos phi, en): meridian distance of latitude phi
    mlfn: (real, real, real, Coefficients) -> real,
    // pj_inv_mlfn(distance, es, en): latitude of a meridian distance
    invMlfn: (real, real, Coefficients) -> real)

  /** A geographic point (radians). */
  datatype LonLat = LonLat(lon: real, lat: real)

  /** A projected point. */
  datatype XY = XY(x: real, y: real)

  /** The Cartesian form (r sin e, r cos e) of the point at distance r and
      angle e, measured from the y axis, as the pseudo-conic kernels place
      a point on its parallel. */
  function Polar(m: Math, r: real, e: real): XY {
    XY(r * m.sin(e), r * m.cos(e))
  }

  /** The facts about the collaborators that every kernel relies on, each
      true of the real functions: the values of sine and cosine at zero;
      cosine is positive strictly between the poles, and tangent is non-zero
      there away from zero, so the divisions by `cos(lat)` and `tan(phi1)`
      are defined where the source performs them; and tangent is negative
      between the south pole and zero. */
  ghost predicate Valid(m: Math) {
    && m.sin(0.0) == 0.0
    && m.cos(0.0) == 1.0
    && (forall x :: -HalfPi < x < HalfPi ==> m.cos(x) > 0.0)
    && (forall x :: 0.0 < Abs(x) < HalfPi ==> m.tan(x) != 0.0)
    && (forall x :: -HalfPi < x < 0.0 ==> m.tan(x) < 0.0)
  }

  /** The symmetry facts the mirror properties rely on, true of the real
      functions: sine is odd and cosine is even. */
  ghost predicate Symmetric(m: Math) {
    && (forall x, y {:trigger m.sin(x), m.sin(y)} :: y == -x ==> m.sin(y) == -m.sin(x))
    && (forall x, y {:trigger m.cos(x), m.cos(y)} :: y == -x ==> m.cos(y) == m.cos(x))
  }

  /** The further facts the round trips rely on, again true of the real
      functions, about a point in polar form: hypot of its coordinates is
      |r| (since sin^2 + cos^2 = 1), and for a positive radius and an angle
      in (-Pi, Pi] atan2 of them (ordinate first) is the angle. */
  ghost predicate ValidPolar(m: Math) {
    && Valid(m)
    && (forall r, e :: m.hypot(Polar(m, r, e).x, Polar(m, r, e).y) == Abs(r))
    && (forall r, e :: r > 0.0 && -Pi < e <= Pi ==> m.atan2(Polar(m, r, e).x, Polar(m, r, e).y) == e)
  }

  /** The projection_exception codes raised by the core. */
  datatype ProjError =
    | Lat1IsZero          // error_lat1_is_zero, raised by setup
    | ToleranceCondition  // error_tolerance_condition, raised by an inverse
    | UnknownProjection   // the factory has no entry under the requested name

  /** The value of an operation that can throw a projection_exception. */
  datatype Result<T> = Success(value: T) | Failure(error: ProjError)
}
