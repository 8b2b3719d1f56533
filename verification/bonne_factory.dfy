/** Run-time construction of a Bonne projection: the factory entry that
    chooses the ellipsoidal or the spherical variant from the eccentricity,
    its registration under the name "bonne", and the dispatch of the object
    it builds to its class's forward and inverse kernels. */
module BonneFactory {
  import opened Reals
  import opened ProjCommon
  import opened Bonne
  import opened BonneCorrected

  /** The two concrete projection classes. */
  datatype Variant = BonneEllipsoid | BonneSpheroid

  /** A constructed projection object: its class, the parameters it was
      built from and the constants its setup derived. */
  datatype Projection = Projection(variant: Variant, par: Parameters, proj: ParBonne)

  /** The contents of par_bonne before setup runs. The source leaves them
      uninitialised; the kernels never read the fields setup does not write
      for their variant (see the ReadsOnlyItsConstants lemmas of module
      Bonne), so any value does here. */
  const Blank: ParBonne := ParBonne(0.0, 0.0, 0.0, 0.0, [])

  /** bonne_entry::create_new: builds the ellipsoidal class exactly when es
      is non-zero and the spherical class otherwise; the constructor runs
      setup, whose failure means no object is produced. */
  function CreateNew(par: Parameters, m: Math): (r: Result<Projection>)
    requires SetupDefined(par, m)
    ensures r.Failure? <==> Abs(Lat1(par)) < Eps10
    ensures r.Failure? ==> r.error == Lat1IsZero
    ensures r.Success? ==> r.value.par == par
    ensures r.Success? ==> (r.value.variant == BonneEllipsoid <==> par.es != 0.0)
    ensures r.Success? ==> r.value.proj.phi1 == Lat1(par)
    ensures r.Success? ==> SetupBonne(par, Blank, m) == Success(r.value.proj)
  {
    var variant := if par.es != 0.0 then BonneEllipsoid else BonneSpheroid;
    match SetupBonne(par, Blank, m)
    case Failure(e) => Failure(e)
    case Success(p) => Success(Projection(variant, par, p))
  }

  /** The forward map of a projection object is defined everywhere for the
      spherical class and where the cone radius does not vanish for the
      ellipsoidal class. */
  predicate ForwardDefined(pr: Projection, m: Math, lp: LonLat) {
    pr.variant == BonneEllipsoid ==> EllipsoidFwdDefined(m, pr.par.es, pr.proj, lp.lat)
  }

  /** The object's kernel dispatch for the forward map. */
  function Forward(pr: Projection, m: Math, lp: LonLat): (xy: XY)
    requires Valid(m)
    requires ForwardDefined(pr, m, lp)
    ensures lp.lon == 0.0 ==> xy.x == 0.0
  {
    match pr.variant
    case BonneEllipsoid => EllipsoidFwd(m, pr.par.es, pr.proj, lp)
    case BonneSpheroid => SpheroidFwd(m, pr.proj, lp)
  }

  /** The object's kernel dispatch for the inverse map.
      With pj_inv_mlfn taken to converge, the only error either kernel
      reports is the tolerance condition. */
  function Inverse(pr: Projection, m: Math, xy: XY): (r: Result<LonLat>)
    requires Valid(m)
    ensures r.Failure? ==> r.error == ToleranceCondition
    ensures r.Success? && Abs(r.value.lat) >= HalfPi ==> r.value.lon == 0.0
  {
    match pr.variant
    case BonneEllipsoid => EllipsoidInv(m, pr.par.es, pr.proj, xy)
    case BonneSpheroid => SpheroidInv(m, pr.proj, xy)
  }

  /** The inverse of a projection object undoes its forward map for a point
      whose cone radius is positive (a spherical radius above Eps10), whose
      latitude is inside the interior band of the class's latitude test and
      whose polar angle lies in (-Pi, Pi); on the ellipsoid pj_inv_mlfn must
      also map the point's meridian distance back to its latitude. */
  lemma InverseUndoesForward(pr: Projection, m: Math, lp: LonLat)
    requires ValidPolar(m)
    requires pr.variant == BonneSpheroid ==>
      && SpheroidRh(pr.proj, lp.lat) > Eps10
      && Abs(lp.lat) < HalfPi - Eps10
      && Abs(SpheroidAngle(m, pr.proj, lp)) < Pi
    requires pr.variant == BonneEllipsoid ==>
      && EllipsoidFwdDefined(m, pr.par.es, pr.proj, lp.lat)
      && EllipsoidRh(m, pr.proj, lp.lat) > 0.0
      && Abs(lp.lat) < HalfPi
      && Abs(EllipsoidAngle(m, pr.par.es, pr.proj, lp)) < Pi
      && m.invMlfn(m.mlfn(lp.lat, m.sin(lp.lat), m.cos(lp.lat), pr.proj.en), pr.par.es, pr.proj.en) == lp.lat
    ensures ForwardDefined(pr, m, lp)
    ensures Inverse(pr, m, Forward(pr, m, lp)) == Success(lp)
  {
    match pr.variant
    case BonneEllipsoid =>
      EllipsoidRoundTrip(m, pr.par.es, pr.proj, lp);
    case BonneSpheroid =>
      SpheroidRoundTrip(m, pr.proj, lp);
  }

  /** The dispatched inverse with the corrected kernels of module
      BonneCorrected, which take the cone radius with the sign of phi1. */
  function InverseCorrected(pr: Projection, m: Math, xy: XY): (r: Result<LonLat>)
    requires Valid(m)
    ensures r.Failure? ==> r.error == ToleranceCondition
    ensures r.Success? && Abs(r.value.lat) >= HalfPi ==> r.value.lon == 0.0
  {
    match pr.variant
    case BonneEllipsoid => EllipsoidInvCorrected(m, pr.par.es, pr.proj, xy)
    case BonneSpheroid => SpheroidInvCorrected(m, pr.proj, xy)
  }

  /** For a standard parallel on or north of the equator the corrected
      dispatched inverse is the projection object's inverse. */
  lemma InverseCorrectedAgreesNorth(pr: Projection, m: Math, xy: XY)
    requires Valid(m)
    requires pr.proj.phi1 >= 0.0
    ensures InverseCorrected(pr, m, xy) == Inverse(pr, m, xy)
  {
    match pr.variant
    case BonneEllipsoid =>
      EllipsoidInvCorrectedAgreesNorth(m, pr.par.es, pr.proj, xy);
    case BonneSpheroid =>
      SpheroidInvCorrectedAgreesNorth(m, pr.proj, xy);
  }

  /** Every projection the factory builds maps the point (0, lat_1) to the
      origin, whichever class it chose. */
  lemma CreatedProjectionMapsOriginToZero(par: Parameters, m: Math)
    requires SetupDefined(par, m)
    requires CreateNew(par, m).Success?
    requires var pr := CreateNew(par, m).value;
      ForwardDefined(pr, m, LonLat(0.0, Lat1(par)))
    ensures Forward(CreateNew(par, m).value, m, LonLat(0.0, Lat1(par))) == XY(0.0, 0.0)
  {
    var pr := CreateNew(par, m).value;
    if par.es != 0.0 {
      EllipsoidOriginMapsToZero(par, Blank, m);
    } else {
      SpheroidOriginMapsToZero(m, pr.proj);
    }
  }

  /** The factory's entries; this model knows only the Bonne entry. */
  datatype Entry = BonneEntry

  /** The name-keyed registry of factory entries. */
  type Registry = map<string, Entry>

  /** bonne_init: registers the Bonne entry under "bonne" and leaves every
      other name as it was. */
  function BonneInit(f: Registry): (r: Registry)
    ensures "bonne" in r && r["bonne"] == BonneEntry
    ensures forall name :: name != "bonne" ==> (name in r <==> name in f)
    ensures forall name :: name in f && name != "bonne" ==> r[name] == f[name]
  {
    f["bonne" := BonneEntry]
  }

  /** Looks a name up in the registry and runs that entry's create_new. */
  function Create(f: Registry, name: string, par: Parameters, m: Math): (r: Result<Projection>)
    requires SetupDefined(par, m)
    ensures name !in f ==> r == Failure(UnknownProjection)
    ensures name in f ==> r.Failure? ==> r.error == Lat1IsZero
  {
    if name !in f then
      Failure(UnknownProjection)
    else
      match f[name]
      case BonneEntry => CreateNew(par, m)
  }

  /** After registration, creating "bonne" is the Bonne entry's create_new:
      it yields the ellipsoidal class exactly when es is non-zero. */
  lemma CreateBonneAfterInit(f: Registry, par: Parameters, m: Math)
    requires SetupDefined(par, m)
    ensures Create(BonneInit(f), "bonne", par, m) == CreateNew(par, m)
    ensures var r := Create(BonneInit(f), "bonne", par, m);
      r.Success? ==> (r.value.variant == BonneEllipsoid <==> par.es != 0.0)
  {
  }
}
