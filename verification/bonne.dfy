/** The Bonne (Werner lat_1=90) pseudo-conic projection: the one-time
    parameter setup and the forward and inverse kernels of its ellipsoidal
    and spherical variants. */
module Bonne {
  import opened Reals
  import opened ProjCommon

  /** The user parameters a projection is built from: the named parameters,
      angles already in radians, and the eccentricity squared `es` of the
      ellipsoid (zero for a sphere). */
  datatype Parameters = Parameters(params: map<string, real>, es: real)

  /** par_bonne: the constants setup derives from the parameters. Setup
      writes `phi1` and then either `en`, `m1` and `am1` (ellipsoid) or
      `cphi1` (sphere); the other fields keep whatever they held before. */
  datatype ParBonne = ParBonne(phi1: real, cphi1: real, am1: real, m1: real, en: Coefficients)

  /** pj_get_param_r: the value of a named angle parameter, zero when the
      parameter is absent. */
  function GetParamR(params: map<string, real>, name: string): real {
    if name in params then params[name] else 0.0
  }

  /** The standard parallel `lat_1` that setup reads. */
  function Lat1(par: Parameters): real {
    GetParamR(par.params, "lat_1")
  }

  /** sqrt(1 - es sin^2 phi), the factor relating the radius of the
      parallel at latitude phi to cos phi on the ellipsoid. */
  function ScaleFactor(m: Math, es: real, phi: real): real {
    m.sqrt(1.0 - es * m.sin(phi) * m.sin(phi))
  }

  /** The divisor of `am1` in the ellipsoidal setup:
      sqrt(1 - es sin^2 phi1) * sin phi1. */
  function AmDivisor(m: Math, es: real, phi1: real): real {
    ScaleFactor(m, es, phi1) * m.sin(phi1)
  }

  /** Setup is defined over the reals when the collaborators are valid and,
      on the ellipsoidal branch, the unguarded divisor of `am1` is not zero
      (it is zero when sin phi1 is, e.g. for lat_1 = 180 degrees). */
  ghost predicate SetupDefined(par: Parameters, m: Math) {
    && Valid(m)
    && (Abs(Lat1(par)) >= Eps10 && par.es != 0.0 ==> AmDivisor(m, par.es, Lat1(par)) != 0.0)
  }

  /** setup_bonne, applied to the record `init` that holds the constants
      before setup runs. A standard parallel within Eps10 of the equator is
      rejected and no projection is produced. */
  function SetupBonne(par: Parameters, init: ParBonne, m: Math): (r: Result<ParBonne>)
    requires SetupDefined(par, m)
    ensures r.Failure? <==> Abs(Lat1(par)) < Eps10
    ensures r.Failure? ==> r.error == Lat1IsZero
    ensures r.Success? ==> r.value.phi1 == Lat1(par)
    // ellipsoid: only en, m1 and am1 are written
    ensures r.Success? && par.es != 0.0 ==>
      && r.value.cphi1 == init.cphi1
      && r.value.en == m.enfn(par.es)
      && r.value.m1 == m.mlfn(r.value.phi1, m.sin(r.value.phi1), m.cos(r.value.phi1), r.value.en)
      && r.value.am1 * AmDivisor(m, par.es, r.value.phi1) == m.cos(r.value.phi1)
    // sphere: only cphi1 is written
    ensures r.Success? && par.es == 0.0 ==>
      && r.value.en == init.en
      && r.value.m1 == init.m1
      && r.value.am1 == init.am1
      && (r.value.cphi1 == 0.0 <==> Abs(r.value.phi1) + Eps10 >= HalfPi)
      && (Abs(r.value.phi1) + Eps10 < HalfPi ==> r.value.cphi1 * m.tan(r.value.phi1) == 1.0)
  {
    var phi1 := Lat1(par);
    if Abs(phi1) < Eps10 then
      Failure(Lat1IsZero)
    else if par.es != 0.0 then
      var en := m.enfn(par.es);
      var s := m.sin(phi1);
      var c := m.cos(phi1);
      Success(init.(phi1 := phi1, en := en, m1 := m.mlfn(phi1, s, c, en),
                    am1 := c / AmDivisor(m, par.es, phi1)))
    else if Abs(phi1) + Eps10 >= HalfPi then
      Success(init.(phi1 := phi1, cphi1 := 0.0))
    else
      Success(init.(phi1 := phi1, cphi1 := 1.0 / m.tan(phi1)))
  }

  // ---------------------------------------------------------------------
  // Ellipsoidal kernel

  /** The cone radius of the ellipsoidal forward map for latitude `lat`. */
  function EllipsoidRh(m: Math, p: ParBonne, lat: real): real {
    p.am1 + p.m1 - m.mlfn(lat, m.sin(lat), m.cos(lat), p.en)
  }

  /** The ellipsoidal forward map divides by rh * sqrt(1 - es sin^2 lat)
      without checking it: it is defined only where neither factor is
      zero. */
  predicate EllipsoidFwdDefined(m: Math, es: real, p: ParBonne, lat: real) {
    EllipsoidRh(m, p, lat) != 0.0 && ScaleFactor(m, es, lat) != 0.0
  }

  /** The polar angle cos(lat) lon / (rh sqrt(1 - es sin^2 lat)) the
      ellipsoidal forward map gives a point at cone radius rh. */
  function EllipsoidAngleOf(m: Math, es: real, rh: real, lon: real, lat: real): real
    requires rh != 0.0 && ScaleFactor(m, es, lat) != 0.0
  {
    m.cos(lat) * lon / (rh * ScaleFactor(m, es, lat))
  }

  /** The polar angle E of the ellipsoidal forward map: zero on the central
      meridian and odd in the longitude. */
  function EllipsoidAngle(m: Math, es: real, p: ParBonne, lp: LonLat): (e: real)
    requires EllipsoidFwdDefined(m, es, p, lp.lat)
    ensures lp.lon == 0.0 ==> e == 0.0
  {
    EllipsoidAngleOf(m, es, EllipsoidRh(m, p, lp.lat), lp.lon, lp.lat)
  }

  /** base_bonne_ellipsoid::fwd. On the central meridian the point lands on
      the y axis, at the meridian distance from the standard parallel. */
  function EllipsoidFwd(m: Math, es: real, p: ParBonne, lp: LonLat): (xy: XY)
    requires Valid(m)
    requires EllipsoidFwdDefined(m, es, p, lp.lat)
    ensures lp.lon == 0.0 ==>
      xy == XY(0.0, m.mlfn(lp.lat, m.sin(lp.lat), m.cos(lp.lat), p.en) - p.m1)
  {
    var q := Polar(m, EllipsoidRh(m, p, lp.lat), EllipsoidAngle(m, es, p, lp));
    XY(q.x, p.am1 - q.y)
  }

  /** How an inverse map treats the latitude it recovered. */
  datatype LatClass =
    | Interior    // compute the longitude
    | AtPole      // the longitude is 0
    | OutOfRange  // fail with the tolerance error

  /** The latitude test of the ellipsoidal inverse: everything strictly
      inside HalfPi is interior, even within Eps10 of the pole, and a
      latitude up to Eps10 beyond HalfPi is still accepted as the pole. */
  function EllipsoidLatClass(lat: real): (c: LatClass)
    ensures c == Interior <==> Abs(lat) < HalfPi
    ensures c == AtPole <==> HalfPi <= Abs(lat) <= HalfPi + Eps10
    ensures c == OutOfRange <==> Abs(lat) > HalfPi + Eps10
  {
    var s := Abs(lat);
    if s < HalfPi then Interior
    else if Abs(s - HalfPi) <= Eps10 then AtPole
    else OutOfRange
  }

  /** The latitude the ellipsoidal inverse recovers from `xy`. */
  function EllipsoidInvLat(m: Math, es: real, p: ParBonne, xy: XY): real {
    m.invMlfn(p.am1 + p.m1 - m.hypot(xy.x, p.am1 - xy.y), es, p.en)
  }

  /** base_bonne_ellipsoid::inv. */
  function EllipsoidInv(m: Math, es: real, p: ParBonne, xy: XY): (r: Result<LonLat>)
    requires Valid(m)
    ensures r.Failure? <==> Abs(EllipsoidInvLat(m, es, p, xy)) > HalfPi + Eps10
    ensures r.Failure? ==> r.error == ToleranceCondition
    ensures r.Success? ==> r.value.lat == EllipsoidInvLat(m, es, p, xy)
    ensures r.Success? && Abs(r.value.lat) >= HalfPi ==> r.value.lon == 0.0
  {
    var lat := EllipsoidInvLat(m, es, p, xy);
    match EllipsoidLatClass(lat)
    case Interior =>
      var yp := p.am1 - xy.y;
      Success(LonLat(EllipsoidInvLon(m, es, m.hypot(xy.x, yp), m.atan2(xy.x, yp), lat), lat))
    case AtPole =>
      Success(LonLat(0.0, lat))
    case OutOfRange =>
      Failure(ToleranceCondition)
  }

  /** The longitude the ellipsoidal inverse computes strictly inside the
      poles, where cos lat is positive, from the distance rh of the point
      to the cone apex and its angle a from the y axis. */
  function EllipsoidInvLon(m: Math, es: real, rh: real, a: real, lat: real): real
    requires Valid(m)
    requires Abs(lat) < HalfPi
  {
    rh * a * ScaleFactor(m, es, lat) / m.cos(lat)
  }

  // ---------------------------------------------------------------------
  // Spherical kernel

  /** The cone radius of the spherical forward map for latitude `lat`. */
  function SpheroidRh(p: ParBonne, lat: real): real {
    p.cphi1 + p.phi1 - lat
  }

  /** The polar angle lon cos(lat) / rh the spherical forward map gives a
      point at cone radius rh. */
  function SpheroidAngleOf(m: Math, rh: real, lon: real, lat: real): real
    requires rh != 0.0
  {
    lon * m.cos(lat) / rh
  }

  /** The polar angle E of the spherical forward map, where the cone radius
      is not within Eps10 of zero. */
  function SpheroidAngle(m: Math, p: ParBonne, lp: LonLat): (e: real)
    requires Abs(SpheroidRh(p, lp.lat)) > Eps10
    ensures lp.lon == 0.0 ==> e == 0.0
  {
    SpheroidAngleOf(m, SpheroidRh(p, lp.lat), lp.lon, lp.lat)
  }

  /** base_bonne_spheroid::fwd. A point whose cone radius is within Eps10
      of zero collapses to the origin; otherwise a point on the central
      meridian lands on the y axis at its latitude difference from the
      standard parallel. */
  function SpheroidFwd(m: Math, p: ParBonne, lp: LonLat): (xy: XY)
    requires Valid(m)
    ensures Abs(p.cphi1 + p.phi1 - lp.lat) <= Eps10 ==> xy == XY(0.0, 0.0)
    ensures lp.lon == 0.0 && Abs(p.cphi1 + p.phi1 - lp.lat) > Eps10 ==>
      xy == XY(0.0, lp.lat - p.phi1)
  {
    var rh := SpheroidRh(p, lp.lat);
    if Abs(rh) > Eps10 then
      var q := Polar(m, rh, SpheroidAngle(m, p, lp));
      XY(q.x, p.cphi1 - q.y)
    else
      XY(0.0, 0.0)
  }

  /** The latitude test of the spherical inverse: anything beyond HalfPi
      fails, and the last Eps10 below HalfPi is treated as the pole. */
  function SpheroidLatClass(lat: real): (c: LatClass)
    ensures c == Interior <==> Abs(lat) < HalfPi - Eps10
    ensures c == AtPole <==> HalfPi - Eps10 <= Abs(lat) <= HalfPi
    ensures c == OutOfRange <==> Abs(lat) > HalfPi
  {
    if Abs(lat) > HalfPi then OutOfRange
    else if Abs(Abs(lat) - HalfPi) <= Eps10 then AtPole
    else Interior
  }

  /** The latitude the spherical inverse recovers from `xy`. */
  function SpheroidInvLat(m: Math, p: ParBonne, xy: XY): real {
    p.cphi1 + p.phi1 - m.hypot(xy.x, p.cphi1 - xy.y)
  }

  /** base_bonne_spheroid::inv. */
  function SpheroidInv(m: Math, p: ParBonne, xy: XY): (r: Result<LonLat>)
    requires Valid(m)
    ensures r.Failure? <==> Abs(SpheroidInvLat(m, p, xy)) > HalfPi
    ensures r.Failure? ==> r.error == ToleranceCondition
    ensures r.Success? ==> r.value.lat == SpheroidInvLat(m, p, xy)
    ensures r.Success? && Abs(r.value.lat) >= HalfPi - Eps10 ==> r.value.lon == 0.0
  {
    var lat := SpheroidInvLat(m, p, xy);
    match SpheroidLatClass(lat)
    case OutOfRange =>
      Failure(ToleranceCondition)
    case AtPole =>
      Success(LonLat(0.0, lat))
    case Interior =>
      var yp := p.cphi1 - xy.y;
      Success(LonLat(SpheroidInvLon(m, m.hypot(xy.x, yp), m.atan2(xy.x, yp), lat), lat))
  }

  /** The longitude the spherical inverse computes away from the poles,
      where cos lat is positive, from the distance rh of the point to the
      cone apex and its angle a from the y axis. */
  function SpheroidInvLon(m: Math, rh: real, a: real, lat: real): real
    requires Valid(m)
    requires Abs(lat) < HalfPi
  {
    rh * a / m.cos(lat)
  }

  // ---------------------------------------------------------------------
  // Properties

  /** With the constants setup derives, the ellipsoidal forward map sends the
      point (0, phi1) to the origin: there rh reduces to am1 and the angle to
      zero. */
  lemma EllipsoidOriginMapsToZero(par: Parameters, init: ParBonne, m: Math)
    requires SetupDefined(par, m)
    requires par.es != 0.0
    requires SetupBonne(par, init, m).Success?
    requires var p := SetupBonne(par, init, m).value;
      EllipsoidFwdDefined(m, par.es, p, p.phi1)
    ensures var p := SetupBonne(par, init, m).value;
      EllipsoidFwd(m, par.es, p, LonLat(0.0, p.phi1)) == XY(0.0, 0.0)
  {
    var p := SetupBonne(par, init, m).value;
    assert EllipsoidRh(m, p, p.phi1) == p.am1;
  }

  /** Whatever constants it holds, the spherical forward map sends (0, phi1)
      to the origin: rh reduces to cphi1, and either it is within Eps10 of
      zero or the angle is zero. */
  lemma SpheroidOriginMapsToZero(m: Math, p: ParBonne)
    requires Valid(m)
    ensures SpheroidFwd(m, p, LonLat(0.0, p.phi1)) == XY(0.0, 0.0)
  {
  }

  /** Reflecting the angle of a polar point reflects the point in the y
      axis. */
  lemma PolarMirror(m: Math, r: real, e: real)
    requires Valid(m) && Symmetric(m)
    ensures Polar(m, r, -e) == XY(-Polar(m, r, e).x, Polar(m, r, e).y)
  {
    NegatedProduct(r, m.sin(e), m.sin(-e));
    assert m.cos(-e) == m.cos(e);
  }

  /** Negating the longitude negates the polar angle of the ellipsoidal
      forward map. */
  lemma EllipsoidAngleMirror(m: Math, es: real, rh: real, lon: real, lat: real)
    requires rh != 0.0 && ScaleFactor(m, es, lat) != 0.0
    ensures EllipsoidAngleOf(m, es, rh, -lon, lat) == -EllipsoidAngleOf(m, es, rh, lon, lat)
  {
    NegatedQuotient(m.cos(lat), lon, rh * ScaleFactor(m, es, lat));
  }

  /** The ellipsoidal forward map is mirror-symmetric about the central
      meridian wherever it is defined. */
  lemma EllipsoidFwdMirror(m: Math, es: real, p: ParBonne, lon: real, lat: real)
    requires Valid(m) && Symmetric(m)
    requires EllipsoidFwdDefined(m, es, p, lat)
    ensures var a := EllipsoidFwd(m, es, p, LonLat(lon, lat));
      var b := EllipsoidFwd(m, es, p, LonLat(-lon, lat));
      b == XY(-a.x, a.y)
  {
    EllipsoidAngleMirror(m, es, EllipsoidRh(m, p, lat), lon, lat);
    PolarMirror(m, EllipsoidRh(m, p, lat), EllipsoidAngle(m, es, p, LonLat(lon, lat)));
  }

  /** Negating the longitude negates the polar angle of the spherical
      forward map. */
  lemma SpheroidAngleMirror(m: Math, rh: real, lon: real, lat: real)
    requires rh != 0.0
    ensures SpheroidAngleOf(m, rh, -lon, lat) == -SpheroidAngleOf(m, rh, lon, lat)
  {
    NegatedQuotient(m.cos(lat), lon, rh);
  }

  /** The spherical forward map is mirror-symmetric about the central
      meridian. */
  lemma SpheroidFwdMirror(m: Math, p: ParBonne, lon: real, lat: real)
    requires Valid(m) && Symmetric(m)
    ensures var a := SpheroidFwd(m, p, LonLat(lon, lat));
      var b := SpheroidFwd(m, p, LonLat(-lon, lat));
      b == XY(-a.x, a.y)
  {
    if Abs(SpheroidRh(p, lat)) > Eps10 {
      SpheroidAngleMirror(m, SpheroidRh(p, lat), lon, lat);
      PolarMirror(m, SpheroidRh(p, lat), SpheroidAngle(m, p, LonLat(lon, lat)));
    }
  }

  /** The two inverse maps disagree near the poles: just inside HalfPi the
      ellipsoid computes a longitude where the sphere returns 0, and just
      beyond HalfPi the ellipsoid accepts the pole where the sphere fails.
      Only at exactly HalfPi do both answer with the pole. */
  lemma NearPoleTreatmentsDiffer(lat: real)
    ensures HalfPi - Eps10 <= Abs(lat) < HalfPi ==>
      EllipsoidLatClass(lat) == Interior && SpheroidLatClass(lat) == AtPole
    ensures HalfPi < Abs(lat) <= HalfPi + Eps10 ==>
      EllipsoidLatClass(lat) == AtPole && SpheroidLatClass(lat) == OutOfRange
    ensures Abs(lat) == HalfPi ==>
      EllipsoidLatClass(lat) == AtPole && SpheroidLatClass(lat) == AtPole
    ensures Abs(lat) < HalfPi - Eps10 ==>
      EllipsoidLatClass(lat) == Interior && SpheroidLatClass(lat) == Interior
    ensures Abs(lat) > HalfPi + Eps10 ==>
      EllipsoidLatClass(lat) == OutOfRange && SpheroidLatClass(lat) == OutOfRange
  {
  }

  /** The spherical forward map reads only phi1 and cphi1, the constants
      setup writes on the spherical branch. */
  lemma SpheroidFwdReadsOnlyItsConstants(m: Math, p: ParBonne, q: ParBonne, lp: LonLat)
    requires Valid(m)
    requires p.phi1 == q.phi1 && p.cphi1 == q.cphi1
    ensures SpheroidFwd(m, p, lp) == SpheroidFwd(m, q, lp)
  {
  }

  /** The spherical inverse map reads only phi1 and cphi1. */
  lemma SpheroidInvReadsOnlyItsConstants(m: Math, p: ParBonne, q: ParBonne, xy: XY)
    requires Valid(m)
    requires p.phi1 == q.phi1 && p.cphi1 == q.cphi1
    ensures SpheroidInv(m, p, xy) == SpheroidInv(m, q, xy)
  {
    assert SpheroidInvLat(m, p, xy) == SpheroidInvLat(m, q, xy);
  }

  /** The ellipsoidal forward map reads only am1, m1 and en, the constants
      setup writes on the ellipsoidal branch. */
  lemma EllipsoidFwdReadsOnlyItsConstants(m: Math, es: real, p: ParBonne, q: ParBonne, lp: LonLat)
    requires Valid(m)
    requires p.am1 == q.am1 && p.m1 == q.m1 && p.en == q.en
    requires EllipsoidFwdDefined(m, es, p, lp.lat)
    ensures EllipsoidFwdDefined(m, es, q, lp.lat)
    ensures EllipsoidFwd(m, es, p, lp) == EllipsoidFwd(m, es, q, lp)
  {
    assert EllipsoidRh(m, p, lp.lat) == EllipsoidRh(m, q, lp.lat);
  }

  /** The ellipsoidal inverse map reads only am1, m1 and en. */
  lemma EllipsoidInvReadsOnlyItsConstants(m: Math, es: real, p: ParBonne, q: ParBonne, xy: XY)
    requires Valid(m)
    requires p.am1 == q.am1 && p.m1 == q.m1 && p.en == q.en
    ensures EllipsoidInv(m, es, p, xy) == EllipsoidInv(m, es, q, xy)
  {
    assert EllipsoidInvLat(m, es, p, xy) == EllipsoidInvLat(m, es, q, xy);
  }

  /** The spherical inverse undoes the spherical forward map for a point
      whose cone radius exceeds Eps10, whose latitude is in the interior
      band of the spherical latitude test and whose polar angle E lies in
      (-Pi, Pi): the point lies on the circle of radius rh about
      (0, cphi1), at angle E from the y axis. */
  lemma SpheroidRoundTrip(m: Math, p: ParBonne, lp: LonLat)
    requires ValidPolar(m)
    requires SpheroidRh(p, lp.lat) > Eps10
    requires Abs(lp.lat) < HalfPi - Eps10
    requires Abs(SpheroidAngle(m, p, lp)) < Pi
    ensures SpheroidInv(m, p, SpheroidFwd(m, p, lp)) == Success(lp)
  {
    var q := Polar(m, SpheroidRh(p, lp.lat), SpheroidAngle(m, p, lp));
    assert SpheroidFwd(m, p, lp) == XY(q.x, p.cphi1 - q.y);
    assert p.cphi1 + p.phi1 - SpheroidRh(p, lp.lat) == lp.lat;
    SpheroidInvOfPolar(m, p, SpheroidRh(p, lp.lat), SpheroidAngle(m, p, lp));
    SpheroidLonRecovered(m, SpheroidRh(p, lp.lat), lp.lon, lp.lat);
  }

  /** The spherical inverse reads a point off its polar coordinates about
      the cone apex (0, cphi1): from distance rh > 0 and angle e in
      (-Pi, Pi] it recovers the latitude cphi1 + phi1 - rh and, when that
      is in the interior band, computes the longitude from rh and e. */
  lemma SpheroidInvOfPolar(m: Math, p: ParBonne, rh: real, e: real)
    requires ValidPolar(m)
    requires rh > 0.0 && -Pi < e <= Pi
    requires Abs(p.cphi1 + p.phi1 - rh) < HalfPi - Eps10
    ensures var q := Polar(m, rh, e);
      var lat := p.cphi1 + p.phi1 - rh;
      SpheroidInv(m, p, XY(q.x, p.cphi1 - q.y)) == Success(LonLat(SpheroidInvLon(m, rh, e, lat), lat))
  {
    var q := Polar(m, rh, e);
    assert p.cphi1 - (p.cphi1 - q.y) == q.y;
    assert m.hypot(q.x, q.y) == rh;
    assert m.atan2(q.x, q.y) == e;
  }

  /** The longitude formula of the spherical inverse undoes the angle
      formula of the spherical forward map: from a cone radius rh and the
      angle lon cos(lat) / rh it recovers lon. */
  lemma SpheroidLonRecovered(m: Math, rh: real, lon: real, lat: real)
    requires Valid(m)
    requires rh != 0.0
    requires Abs(lat) < HalfPi
    ensures SpheroidInvLon(m, rh, SpheroidAngleOf(m, rh, lon, lat), lat) == lon
  {
    assert SpheroidInvLon(m, rh, SpheroidAngleOf(m, rh, lon, lat), lat)
        == rh * SpheroidAngleOf(m, rh, lon, lat) / m.cos(lat);
    assert rh * SpheroidAngleOf(m, rh, lon, lat) == lon * m.cos(lat);
  }

  /** The ellipsoidal inverse undoes the ellipsoidal forward map wherever
      the meridian-arc series does: for a point strictly inside the poles,
      with a positive cone radius and a polar angle E in (-Pi, Pi), whose
      meridian distance pj_inv_mlfn maps back to its latitude. */
  lemma EllipsoidRoundTrip(m: Math, es: real, p: ParBonne, lp: LonLat)
    requires ValidPolar(m)
    requires EllipsoidFwdDefined(m, es, p, lp.lat)
    requires EllipsoidRh(m, p, lp.lat) > 0.0
    requires Abs(lp.lat) < HalfPi
    requires Abs(EllipsoidAngle(m, es, p, lp)) < Pi
    requires m.invMlfn(m.mlfn(lp.lat, m.sin(lp.lat), m.cos(lp.lat), p.en), es, p.en) == lp.lat
    ensures EllipsoidInv(m, es, p, EllipsoidFwd(m, es, p, lp)) == Success(lp)
  {
    var q := Polar(m, EllipsoidRh(m, p, lp.lat), EllipsoidAngle(m, es, p, lp));
    assert EllipsoidFwd(m, es, p, lp) == XY(q.x, p.am1 - q.y);
    assert p.am1 + p.m1 - EllipsoidRh(m, p, lp.lat) == m.mlfn(lp.lat, m.sin(lp.lat), m.cos(lp.lat), p.en);
    assert m.invMlfn(p.am1 + p.m1 - EllipsoidRh(m, p, lp.lat), es, p.en) == lp.lat;
    EllipsoidInvOfPolar(m, es, p, EllipsoidRh(m, p, lp.lat), EllipsoidAngle(m, es, p, lp));
    EllipsoidLonRecovered(m, es, EllipsoidRh(m, p, lp.lat), lp.lon, lp.lat);
  }

  /** The ellipsoidal inverse reads a point off its polar coordinates about
      the cone apex (0, am1): from distance rh > 0 and angle e in (-Pi, Pi]
      it recovers the latitude of meridian distance am1 + m1 - rh and, when
      that is strictly inside the poles, computes the longitude from rh and
      e. */
  lemma EllipsoidInvOfPolar(m: Math, es: real, p: ParBonne, rh: real, e: real)
    requires ValidPolar(m)
    requires rh > 0.0 && -Pi < e <= Pi
    requires Abs(m.invMlfn(p.am1 + p.m1 - rh, es, p.en)) < HalfPi
    ensures var q := Polar(m, rh, e);
      var lat := m.invMlfn(p.am1 + p.m1 - rh, es, p.en);
      EllipsoidInv(m, es, p, XY(q.x, p.am1 - q.y)) == Success(LonLat(EllipsoidInvLon(m, es, rh, e, lat), lat))
  {
    var q := Polar(m, rh, e);
    assert p.am1 - (p.am1 - q.y) == q.y;
    assert m.hypot(q.x, q.y) == rh;
    assert m.atan2(q.x, q.y) == e;
  }

  /** The longitude formula of the ellipsoidal inverse undoes the angle
      formula of the ellipsoidal forward map: from a cone radius rh and the
      angle cos(lat) lon / (rh sqrt(1 - es sin^2 lat)) it recovers lon. */
  lemma EllipsoidLonRecovered(m: Math, es: real, rh: real, lon: real, lat: real)
    requires Valid(m)
    requires rh != 0.0 && ScaleFactor(m, es, lat) != 0.0
    requires Abs(lat) < HalfPi
    ensures EllipsoidInvLon(m, es, rh, EllipsoidAngleOf(m, es, rh, lon, lat), lat) == lon
  {
    assert EllipsoidInvLon(m, es, rh, EllipsoidAngleOf(m, es, rh, lon, lat), lat)
        == rh * EllipsoidAngleOf(m, es, rh, lon, lat) * ScaleFactor(m, es, lat) / m.cos(lat);
    assert (rh * ScaleFactor(m, es, lat)) * EllipsoidAngleOf(m, es, rh, lon, lat) == m.cos(lat) * lon;
  }
}
