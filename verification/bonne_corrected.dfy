/** The Bonne inverse kernels with the cone radius taken with its sign.

    Both forward kernels compute a signed cone radius rh (am1 + m1 - mlfn(lat)
    on the ellipsoid, cphi1 + phi1 - lat on the sphere) and place the point
    at (rh sin E, apex - rh cos E). With a southern standard parallel
    (phi1 < 0) both am1 and cphi1 are negative, and so is rh everywhere
    except in a sliver by the south pole. Both inverse kernels recover the
    radius as hypot(x, apex - y), which is never negative, and the angle as
    atan2(x, apex - y), so for such points they return another latitude (or
    fail) instead of undoing the forward map. The corrected kernels below
    give the recovered radius the sign of phi1 and flip both atan2 arguments
    with it; they agree with the source's kernels whenever phi1 >= 0. */
module BonneCorrected {
  import opened Reals
  import opened ProjCommon
  import opened Bonne

  /** v, negated when the standard parallel is southern. */
  function Signed(p: ParBonne, v: real): real {
    if p.phi1 < 0.0 then -v else v
  }

  /** The cone radius has the sign the corrected inverse gives it: negative
      exactly when the standard parallel is southern, and never zero. */
  predicate RadiusMatchesParallel(p: ParBonne, rh: real) {
    if p.phi1 < 0.0 then rh < 0.0 else rh > 0.0
  }

  /** Negating the radius of a polar point reflects it through the origin. */
  lemma PolarNegated(m: Math, r: real, e: real)
    ensures Polar(m, -r, e) == XY(-Polar(m, r, e).x, -Polar(m, r, e).y)
  {
  }

  // ---------------------------------------------------------------------
  // Spherical kernel

  /** The latitude the corrected spherical inverse recovers from `xy`. */
  function SpheroidInvCorrectedLat(m: Math, p: ParBonne, xy: XY): real {
    p.cphi1 + p.phi1 - Signed(p, m.hypot(xy.x, p.cphi1 - xy.y))
  }

  /** base_bonne_spheroid::inv with a signed cone radius. */
  function SpheroidInvCorrected(m: Math, p: ParBonne, xy: XY): (r: Result<LonLat>)
    requires Valid(m)
    ensures r.Failure? <==> Abs(SpheroidInvCorrectedLat(m, p, xy)) > HalfPi
    ensures r.Failure? ==> r.error == ToleranceCondition
    ensures r.Success? ==> r.value.lat == SpheroidInvCorrectedLat(m, p, xy)
    ensures r.Success? && Abs(r.value.lat) >= HalfPi - Eps10 ==> r.value.lon == 0.0
  {
    var lat := SpheroidInvCorrectedLat(m, p, xy);
    match SpheroidLatClass(lat)
    case OutOfRange =>
      Failure(ToleranceCondition)
    case AtPole =>
      Success(LonLat(0.0, lat))
    case Interior =>
      var yp := p.cphi1 - xy.y;
      var rh := Signed(p, m.hypot(xy.x, yp));
      Success(LonLat(SpheroidInvLon(m, rh, m.atan2(Signed(p, xy.x), Signed(p, yp)), lat), lat))
  }

  /** For a standard parallel on or north of the equator the corrected
      spherical inverse is the source's. */
  lemma SpheroidInvCorrectedAgreesNorth(m: Math, p: ParBonne, xy: XY)
    requires Valid(m)
    requires p.phi1 >= 0.0
    ensures SpheroidInvCorrected(m, p, xy) == SpheroidInv(m, p, xy)
  {
    assert SpheroidInvCorrectedLat(m, p, xy) == SpheroidInvLat(m, p, xy);
  }

  /** The corrected spherical inverse reads a point off its polar
      coordinates about (0, cphi1) for either sign of the radius. */
  lemma SpheroidInvCorrectedOfPolar(m: Math, p: ParBonne, rh: real, e: real)
    requires ValidPolar(m)
    requires RadiusMatchesParallel(p, rh) && -Pi < e <= Pi
    requires Abs(p.cphi1 + p.phi1 - rh) < HalfPi - Eps10
    ensures var q := Polar(m, rh, e);
      var lat := p.cphi1 + p.phi1 - rh;
      SpheroidInvCorrected(m, p, XY(q.x, p.cphi1 - q.y)) == Success(LonLat(SpheroidInvLon(m, rh, e, lat), lat))
  {
    var q := Polar(m, rh, e);
    assert p.cphi1 - (p.cphi1 - q.y) == q.y;
    assert m.hypot(q.x, q.y) == Abs(rh);
    if p.phi1 < 0.0 {
      PolarNegated(m, rh, e);
      var n := Polar(m, -rh, e);
      assert m.atan2(n.x, n.y) == e;
    } else {
      assert m.atan2(q.x, q.y) == e;
    }
  }

  /** The corrected spherical inverse undoes the spherical forward map for
      a point whose cone radius exceeds Eps10 in magnitude and has the sign
      of phi1, whose latitude is in the interior band and whose polar angle
      lies in (-Pi, Pi). */
  lemma SpheroidRoundTripCorrected(m: Math, p: ParBonne, lp: LonLat)
    requires ValidPolar(m)
    requires Abs(SpheroidRh(p, lp.lat)) > Eps10
    requires RadiusMatchesParallel(p, SpheroidRh(p, lp.lat))
    requires Abs(lp.lat) < HalfPi - Eps10
    requires Abs(SpheroidAngle(m, p, lp)) < Pi
    ensures SpheroidInvCorrected(m, p, SpheroidFwd(m, p, lp)) == Success(lp)
  {
    var q := Polar(m, SpheroidRh(p, lp.lat), SpheroidAngle(m, p, lp));
    assert SpheroidFwd(m, p, lp) == XY(q.x, p.cphi1 - q.y);
    assert p.cphi1 + p.phi1 - SpheroidRh(p, lp.lat) == lp.lat;
    SpheroidInvCorrectedOfPolar(m, p, SpheroidRh(p, lp.lat), SpheroidAngle(m, p, lp));
    SpheroidLonRecovered(m, SpheroidRh(p, lp.lat), lp.lon, lp.lat);
  }

  /** The source's spherical inverse does not undo the forward map at any
      point with a negative cone radius: it recovers the latitude
      lat + 2 rh instead of lat. */
  lemma SpheroidInvMissesNegativeRadius(m: Math, p: ParBonne, lp: LonLat)
    requires ValidPolar(m)
    requires SpheroidRh(p, lp.lat) < -Eps10
    ensures SpheroidInvLat(m, p, SpheroidFwd(m, p, lp)) == lp.lat + 2.0 * SpheroidRh(p, lp.lat)
    ensures SpheroidInv(m, p, SpheroidFwd(m, p, lp)) != Success(lp)
  {
    var q := Polar(m, SpheroidRh(p, lp.lat), SpheroidAngle(m, p, lp));
    assert SpheroidFwd(m, p, lp) == XY(q.x, p.cphi1 - q.y);
    assert p.cphi1 - (p.cphi1 - q.y) == q.y;
    assert m.hypot(q.x, q.y) == -SpheroidRh(p, lp.lat);
  }

  /** A concrete instance: on a sphere with a southern standard parallel,
      the point (0, 0) does not survive
      forward and then inverse projection. */
  lemma SouthernSphereMissesOrigin(par: Parameters, init: ParBonne, m: Math)
    requires ValidPolar(m)
    requires par.es == 0.0
    requires -HalfPi + Eps10 < Lat1(par) <= -Eps10
    ensures SetupBonne(par, init, m).Success?
    ensures var p := SetupBonne(par, init, m).value;
      SpheroidInv(m, p, SpheroidFwd(m, p, LonLat(0.0, 0.0))) != Success(LonLat(0.0, 0.0))
  {
    var p := SetupBonne(par, init, m).value;
    assert p.cphi1 * m.tan(p.phi1) == 1.0;
    assert p.cphi1 < 0.0;
    SpheroidInvMissesNegativeRadius(m, p, LonLat(0.0, 0.0));
  }

  // ---------------------------------------------------------------------
  // Ellipsoidal kernel

  /** The latitude the corrected ellipsoidal inverse recovers from `xy`. */
  function EllipsoidInvCorrectedLat(m: Math, es: real, p: ParBonne, xy: XY): real {
    m.invMlfn(p.am1 + p.m1 - Signed(p, m.hypot(xy.x, p.am1 - xy.y)), es, p.en)
  }

  /** base_bonne_ellipsoid::inv with a signed cone radius. */
  function EllipsoidInvCorrected(m: Math, es: real, p: ParBonne, xy: XY): (r: Result<LonLat>)
    requires Valid(m)
    ensures r.Failure? <==> Abs(EllipsoidInvCorrectedLat(m, es, p, xy)) > HalfPi + Eps10
    ensures r.Failure? ==> r.error == ToleranceCondition
    ensures r.Success? ==> r.value.lat == EllipsoidInvCorrectedLat(m, es, p, xy)
    ensures r.Success? && Abs(r.value.lat) >= HalfPi ==> r.value.lon == 0.0
  {
    var lat := EllipsoidInvCorrectedLat(m, es, p, xy);
    match EllipsoidLatClass(lat)
    case Interior =>
      var yp := p.am1 - xy.y;
      var rh := Signed(p, m.hypot(xy.x, yp));
      Success(LonLat(EllipsoidInvLon(m, es, rh, m.atan2(Signed(p, xy.x), Signed(p, yp)), lat), lat))
    case AtPole =>
      Success(LonLat(0.0, lat))
    case OutOfRange =>
      Failure(ToleranceCondition)
  }

  /** For a standard parallel on or north of the equator the corrected
      ellipsoidal inverse is the source's. */
  lemma EllipsoidInvCorrectedAgreesNorth(m: Math, es: real, p: ParBonne, xy: XY)
    requires Valid(m)
    requires p.phi1 >= 0.0
    ensures EllipsoidInvCorrected(m, es, p, xy) == EllipsoidInv(m, es, p, xy)
  {
    assert EllipsoidInvCorrectedLat(m, es, p, xy) == EllipsoidInvLat(m, es, p, xy);
  }

  /** The corrected ellipsoidal inverse reads a point off its polar
      coordinates about (0, am1) for either sign of the radius. */
  lemma EllipsoidInvCorrectedOfPolar(m: Math, es: real, p: ParBonne, rh: real, e: real)
    requires ValidPolar(m)
    requires RadiusMatchesParallel(p, rh) && -Pi < e <= Pi
    requires Abs(m.invMlfn(p.am1 + p.m1 - rh, es, p.en)) < HalfPi
    ensures var q := Polar(m, rh, e);
      var lat := m.invMlfn(p.am1 + p.m1 - rh, es, p.en);
      EllipsoidInvCorrected(m, es, p, XY(q.x, p.am1 - q.y)) == Success(LonLat(EllipsoidInvLon(m, es, rh, e, lat), lat))
  {
    var q := Polar(m, rh, e);
    assert p.am1 - (p.am1 - q.y) == q.y;
    assert m.hypot(q.x, q.y) == Abs(rh);
    if p.phi1 < 0.0 {
      PolarNegated(m, rh, e);
      var n := Polar(m, -rh, e);
      assert m.atan2(n.x, n.y) == e;
    } else {
      assert m.atan2(q.x, q.y) == e;
    }
  }

  /** The corrected ellipsoidal inverse undoes the ellipsoidal forward map
      for a point strictly inside the poles whose cone radius has the sign
      of phi1, whose polar angle lies in (-Pi, Pi) and whose meridian
      distance pj_inv_mlfn maps back to its latitude. */
  lemma EllipsoidRoundTripCorrected(m: Math, es: real, p: ParBonne, lp: LonLat)
    requires ValidPolar(m)
    requires EllipsoidFwdDefined(m, es, p, lp.lat)
    requires RadiusMatchesParallel(p, EllipsoidRh(m, p, lp.lat))
    requires Abs(lp.lat) < HalfPi
    requires Abs(EllipsoidAngle(m, es, p, lp)) < Pi
    requires m.invMlfn(m.mlfn(lp.lat, m.sin(lp.lat), m.cos(lp.lat), p.en), es, p.en) == lp.lat
    ensures EllipsoidInvCorrected(m, es, p, EllipsoidFwd(m, es, p, lp)) == Success(lp)
  {
    var q := Polar(m, EllipsoidRh(m, p, lp.lat), EllipsoidAngle(m, es, p, lp));
    assert EllipsoidFwd(m, es, p, lp) == XY(q.x, p.am1 - q.y);
    assert p.am1 + p.m1 - EllipsoidRh(m, p, lp.lat) == m.mlfn(lp.lat, m.sin(lp.lat), m.cos(lp.lat), p.en);
    assert m.invMlfn(p.am1 + p.m1 - EllipsoidRh(m, p, lp.lat), es, p.en) == lp.lat;
    EllipsoidInvCorrectedOfPolar(m, es, p, EllipsoidRh(m, p, lp.lat), EllipsoidAngle(m, es, p, lp));
    EllipsoidLonRecovered(m, es, EllipsoidRh(m, p, lp.lat), lp.lon, lp.lat);
  }

  /** The source's ellipsoidal inverse evaluates pj_inv_mlfn at the meridian
      distance mlfn(lat) + 2 rh when the cone radius rh is negative, so
      wherever pj_mlfn undoes pj_inv_mlfn at that distance it cannot return
      the original point. */
  lemma EllipsoidInvMissesNegativeRadius(m: Math, es: real, p: ParBonne, lp: LonLat)
    requires ValidPolar(m)
    requires EllipsoidFwdDefined(m, es, p, lp.lat)
    requires EllipsoidRh(m, p, lp.lat) < 0.0
    ensures EllipsoidInvLat(m, es, p, EllipsoidFwd(m, es, p, lp))
         == m.invMlfn(m.mlfn(lp.lat, m.sin(lp.lat), m.cos(lp.lat), p.en) + 2.0 * EllipsoidRh(m, p, lp.lat), es, p.en)
    ensures var d := m.mlfn(lp.lat, m.sin(lp.lat), m.cos(lp.lat), p.en) + 2.0 * EllipsoidRh(m, p, lp.lat);
      var lat := m.invMlfn(d, es, p.en);
      m.mlfn(lat, m.sin(lat), m.cos(lat), p.en) == d ==>
        EllipsoidInv(m, es, p, EllipsoidFwd(m, es, p, lp)) != Success(lp)
  {
    var q := Polar(m, EllipsoidRh(m, p, lp.lat), EllipsoidAngle(m, es, p, lp));
    assert EllipsoidFwd(m, es, p, lp) == XY(q.x, p.am1 - q.y);
    assert p.am1 - (p.am1 - q.y) == q.y;
    assert m.hypot(q.x, q.y) == -EllipsoidRh(m, p, lp.lat);
    assert p.am1 + p.m1 + EllipsoidRh(m, p, lp.lat)
        == m.mlfn(lp.lat, m.sin(lp.lat), m.cos(lp.lat), p.en) + 2.0 * EllipsoidRh(m, p, lp.lat);
  }
}
