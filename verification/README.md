# Bonne projection and semi-static sign filter, modelled in Dafny

This project models two small pieces of Boost.Geometry.

**The Bonne (Werner lat_1=90) pseudo-conic map projection** is modelled from
`bonne.hpp`, covering:

- `setup_bonne`, which derives the constants `phi1`, `cphi1`, `am1`, `m1`
  and `en` from the standard parallel `lat_1`;
- the forward and inverse kernels of the ellipsoidal and the spherical
  variant;
- the factory entry that picks the variant from the eccentricity squared
  `es`;
- its registration under the name `"bonne"`.

Doubles are modelled as Dafny `real`s. These collaborators are uninterpreted
function values collected in a `Math` record:

- `sin`, `cos`, `tan`, `sqrt`, `hypot` and `atan2`;
- the meridian-arc functions `pj_enfn`, `pj_mlfn` and `pj_inv_mlfn`.

Three predicates list the facts about them that the proofs use, each true
of the real functions:

- `ProjCommon.Valid`: sine and cosine at zero; cosine is positive strictly
  between the poles; tangent is non-zero away from zero inside the poles,
  and negative between the south pole and zero.
- `ProjCommon.Symmetric`: sine is odd and cosine is even. Only the mirror
  properties need it.
- `ProjCommon.ValidPolar`: `Valid`, and for a point (r sin e, r cos e)
  `hypot` gives |r| and, when r > 0 and -pi < e <= pi, `atan2` gives e.
  Only the round trips need it.

Two further facts appear only as hypotheses of single lemmas. The
ellipsoidal round trips assume that `pj_inv_mlfn` maps the meridian distance
of the point's latitude back to that latitude.
`BonneCorrected.EllipsoidInvMissesNegativeRadius` draws its second
conclusion only where `pj_mlfn` undoes `pj_inv_mlfn` at the distance the
inverse evaluates.

A thrown `projection_exception` becomes the `Failure` case of a `Result`.

**The decision rule of `semi_static_filter`** is modelled from
`semi_static_filter.hpp`. The filter reduces a computed value `det` and its
computed error bound to a sign of 1, -1 or 0, or to "sign uncertain".
Three pieces are modelled:

- the decision rule itself, over reals;
- `arg_count`;
- the compile-time evaluation list.

Type-level lists are modelled as sequences. `mp_unique`, `mp_remove_if`,
`mp_set_difference` and `mp_append` become the functions `Unique`,
`RemoveIf`, `SetDifference` and sequence concatenation.

Modules:

- `Reals`: the absolute value and two arithmetic helper lemmas.
- `ProjCommon`: shared tolerances, errors, `Result` and `Math`.
- `Bonne`: setup and the four kernels, as written.
- `BonneCorrected`: the two inverse kernels with the correction described
  under Findings.
- `BonneFactory`: variant dispatch and registration.
- `SemiStaticFilter`: `apply` and `arg_count`.
- `EvalList`: the evaluation list.

Where the code and its comment disagree, the model follows the code. The
comment above `semi_static_filter` says that a sign may be returned when
|det| is "larger than or equal to" the error bound. The code compares
strictly. `SemiStaticFilter.BoundaryIsUncertain` shows that the strict
comparison is the right one: at |det| = bound > 0, the exact value could be
zero.

Two properties of the code show up as contracts:

- **Unguarded division in the ellipsoidal forward map.** The map divides by
  `rh * sqrt(1 - es sin^2 lat)` without a guard, so it carries the
  precondition `EllipsoidFwdDefined`. The ellipsoidal setup likewise divides
  by `sqrt(1 - es sin^2 phi1) * sin phi1`, so it carries `SetupDefined`.
- **The two inverse maps classify near-pole latitudes differently.**
  `Bonne.NearPoleTreatmentsDiffer` states how.

Inverse after forward returns the point, as the round-trip lemmas state.
Their hypotheses are the ones the kernels need: a positive cone radius
(above 1e-10 on the sphere; for the corrected kernels, one with the sign of
phi1 instead), a latitude inside the interior band of the inverse's latitude test,
and a polar angle in (-pi, pi), where `atan2` can recover it. On the
ellipsoid, `pj_inv_mlfn` must also map the meridian distance of the
latitude back to it.

The source's inverse kernels recover the cone radius as a `hypot`, which is
never negative. When the standard parallel is southern, the forward
kernels' radius is negative everywhere except in a sliver by the south
pole, so for such a projection the inverse does not undo the forward map
(see Findings). `BonneFactory.Inverse` models the object's inverse as
written. `BonneFactory.InverseCorrected` dispatches to the corrected kernels
of `BonneCorrected` instead; it coincides with `BonneFactory.Inverse`
when `lat_1 >= 0`.

## Model

| member | source | states |
|---|---|---|
| Bonne.SetupBonne | include/boost/geometry/srs/projections/proj/bonne.hpp:190-211 | setup fails with lat-1-is-zero exactly when \|lat_1\| < 1e-10. Otherwise phi1 = lat_1. With es != 0 it writes only en = enfn(es), m1 = mlfn(phi1, ...) and an am1 with am1 · sqrt(1 - es sin²phi1) · sin phi1 = cos phi1, and leaves cphi1 as it was. With es = 0 it writes only cphi1: zero exactly when \|phi1\| + 1e-10 >= half_pi, and otherwise the reciprocal of tan phi1 |
| Bonne.EllipsoidAngle | include/boost/geometry/srs/projections/proj/bonne.hpp:100-101 | the polar angle E of the ellipsoidal forward map is 0 on the central meridian |
| Bonne.EllipsoidFwd | include/boost/geometry/srs/projections/proj/bonne.hpp:96-104 | where rh · sqrt(1 - es sin²lat) is non-zero, a point on the central meridian maps to x = 0, y = mlfn(lat) - m1 |
| Bonne.EllipsoidLatClass | include/boost/geometry/srs/projections/proj/bonne.hpp:116-123 | the ellipsoidal latitude test: interior iff \|lat\| < half_pi, pole iff half_pi <= \|lat\| <= half_pi + 1e-10, failure iff beyond |
| Bonne.EllipsoidInv | include/boost/geometry/srs/projections/proj/bonne.hpp:108-124 | fails with the tolerance error exactly when the recovered latitude exceeds half_pi + 1e-10 in magnitude. Otherwise it returns that latitude, with longitude 0 whenever \|lat\| >= half_pi |
| Bonne.SpheroidAngle | include/boost/geometry/srs/projections/proj/bonne.hpp:156 | the polar angle E of the spherical forward map is 0 on the central meridian |
| Bonne.SpheroidFwd | include/boost/geometry/srs/projections/proj/bonne.hpp:150-160 | returns exactly (0, 0) when \|cphi1 + phi1 - lat\| <= 1e-10. Otherwise a point on the central meridian maps to (0, lat - phi1) |
| Bonne.SpheroidLatClass | include/boost/geometry/srs/projections/proj/bonne.hpp:172-178 | the spherical latitude test: failure iff \|lat\| > half_pi, pole iff half_pi - 1e-10 <= \|lat\| <= half_pi, interior iff below |
| Bonne.SpheroidInv | include/boost/geometry/srs/projections/proj/bonne.hpp:164-179 | fails with the tolerance error exactly when \|cphi1 + phi1 - hypot(x, cphi1 - y)\| > half_pi. Otherwise it returns that latitude, with longitude 0 whenever it lies within 1e-10 of half_pi |
| Bonne.EllipsoidOriginMapsToZero | include/boost/geometry/srs/projections/proj/bonne.hpp:100-103 | after ellipsoidal setup, forward of (0, phi1) is the origin, because rh reduces to am1 and E to 0 |
| Bonne.SpheroidOriginMapsToZero | include/boost/geometry/srs/projections/proj/bonne.hpp:154-159 | for any constants, spherical forward of (0, phi1) is the origin, because rh reduces to cphi1 |
| Bonne.EllipsoidFwdMirror | include/boost/geometry/srs/projections/proj/bonne.hpp:100-103 | where it is defined, ellipsoidal forward of (-lon, lat) is (-x, y) of forward of (lon, lat) |
| Bonne.SpheroidFwdMirror | include/boost/geometry/srs/projections/proj/bonne.hpp:154-159 | spherical forward of (-lon, lat) is (-x, y) of forward of (lon, lat), including the collapsed case |
| Bonne.NearPoleTreatmentsDiffer | include/boost/geometry/srs/projections/proj/bonne.hpp:116-123 | for \|lat\| in [half_pi - 1e-10, half_pi) the ellipsoid computes a longitude where the sphere returns the pole. For \|lat\| in (half_pi, half_pi + 1e-10] the ellipsoid returns the pole where the sphere fails. They agree elsewhere |
| Bonne.SpheroidFwdReadsOnlyItsConstants | include/boost/geometry/srs/projections/proj/bonne.hpp:154-157 | the spherical forward map depends on the constants only through phi1 and cphi1 |
| Bonne.SpheroidInvReadsOnlyItsConstants | include/boost/geometry/srs/projections/proj/bonne.hpp:170-178 | the spherical inverse map depends on the constants only through phi1 and cphi1 |
| Bonne.EllipsoidFwdReadsOnlyItsConstants | include/boost/geometry/srs/projections/proj/bonne.hpp:100-103 | the ellipsoidal forward map depends on the constants only through am1, m1 and en, so setup's untouched fields are never read |
| Bonne.EllipsoidInvReadsOnlyItsConstants | include/boost/geometry/srs/projections/proj/bonne.hpp:114-119 | the ellipsoidal inverse map depends on the constants only through am1, m1 and en |
| Bonne.PolarMirror | include/boost/geometry/srs/projections/proj/bonne.hpp:155-158 | reflecting the polar angle reflects the placed point (r sin E, r cos E) in the y axis |
| Bonne.EllipsoidAngleMirror | include/boost/geometry/srs/projections/proj/bonne.hpp:101 | negating the longitude negates the ellipsoidal polar angle E |
| Bonne.SpheroidAngleMirror | include/boost/geometry/srs/projections/proj/bonne.hpp:156 | negating the longitude negates the spherical polar angle E |
| Bonne.SpheroidRoundTrip | include/boost/geometry/srs/projections/proj/bonne.hpp:150-179 | spherical inverse of spherical forward returns the point when its cone radius exceeds 1e-10, \|lat\| < half_pi - 1e-10 and \|E\| < pi |
| Bonne.SpheroidInvOfPolar | include/boost/geometry/srs/projections/proj/bonne.hpp:164-179 | a point at distance rh > 0 and angle e in (-pi, pi] from the apex (0, cphi1) is read back as latitude cphi1 + phi1 - rh and longitude rh · e / cos(lat), away from the poles |
| Bonne.SpheroidLonRecovered | include/boost/geometry/srs/projections/proj/bonne.hpp:156-178 | the inverse's longitude formula rh · E / cos(lat) undoes the forward's angle E = lon cos(lat) / rh |
| Bonne.EllipsoidRoundTrip | include/boost/geometry/srs/projections/proj/bonne.hpp:96-124 | ellipsoidal inverse of ellipsoidal forward returns the point when its cone radius is positive, \|lat\| < half_pi, \|E\| < pi and pj_inv_mlfn maps the point's meridian distance back to its latitude |
| Bonne.EllipsoidInvOfPolar | include/boost/geometry/srs/projections/proj/bonne.hpp:108-124 | a point at distance rh > 0 and angle e in (-pi, pi] from the apex (0, am1) is read back as the latitude of meridian distance am1 + m1 - rh, with the longitude computed from rh and e strictly inside the poles |
| Bonne.EllipsoidLonRecovered | include/boost/geometry/srs/projections/proj/bonne.hpp:101-119 | the inverse's longitude formula rh · E · sqrt(1 - es sin²lat) / cos(lat) undoes the forward's angle E = cos(lat) lon / (rh sqrt(1 - es sin²lat)) |
| BonneCorrected.SpheroidInvCorrected | include/boost/geometry/srs/projections/proj/bonne.hpp:164-179 | the corrected spherical inverse fails with the tolerance error exactly when \|cphi1 + phi1 - rh\| > half_pi for the signed radius rh, and otherwise returns that latitude, with longitude 0 within 1e-10 of half_pi |
| BonneCorrected.SpheroidInvCorrectedAgreesNorth | include/boost/geometry/srs/projections/proj/bonne.hpp:164-179 | for lat_1 >= 0 the corrected spherical inverse equals the source's on every point |
| BonneCorrected.SpheroidInvCorrectedOfPolar | include/boost/geometry/srs/projections/proj/bonne.hpp:164-179 | for a radius with the sign of phi1, a point at signed distance rh and angle e in (-pi, pi] from (0, cphi1) is read back as latitude cphi1 + phi1 - rh, with longitude rh · e / cos(lat) |
| BonneCorrected.SpheroidRoundTripCorrected | include/boost/geometry/srs/projections/proj/bonne.hpp:150-179 | the corrected spherical inverse undoes the spherical forward map for a cone radius of magnitude above 1e-10 and the sign of phi1, \|lat\| < half_pi - 1e-10 and \|E\| < pi, so also for a southern standard parallel |
| BonneCorrected.SpheroidInvMissesNegativeRadius | include/boost/geometry/srs/projections/proj/bonne.hpp:150-179 | the source's spherical inverse recovers latitude lat + 2 rh from the forward image of a point with cone radius rh < -1e-10, so it never returns that point |
| BonneCorrected.SouthernSphereMissesOrigin | include/boost/geometry/srs/projections/proj/bonne.hpp:150-211 | on a sphere with -half_pi + 1e-10 < lat_1 <= -1e-10, setup succeeds and the source's inverse of the forward image of (0, 0) is not (0, 0) |
| BonneCorrected.EllipsoidInvCorrected | include/boost/geometry/srs/projections/proj/bonne.hpp:108-124 | the corrected ellipsoidal inverse fails with the tolerance error exactly when the latitude of meridian distance am1 + m1 - rh, for the signed radius rh, exceeds half_pi + 1e-10 in magnitude, and otherwise returns that latitude, with longitude 0 at \|lat\| >= half_pi |
| BonneCorrected.EllipsoidInvCorrectedAgreesNorth | include/boost/geometry/srs/projections/proj/bonne.hpp:108-124 | for lat_1 >= 0 the corrected ellipsoidal inverse equals the source's on every point |
| BonneCorrected.EllipsoidInvCorrectedOfPolar | include/boost/geometry/srs/projections/proj/bonne.hpp:108-124 | for a radius with the sign of phi1, a point at signed distance rh and angle e in (-pi, pi] from (0, am1) is read back as the latitude of meridian distance am1 + m1 - rh, with the longitude computed from rh and e |
| BonneCorrected.EllipsoidRoundTripCorrected | include/boost/geometry/srs/projections/proj/bonne.hpp:96-124 | the corrected ellipsoidal inverse undoes the ellipsoidal forward map for a cone radius with the sign of phi1, \|lat\| < half_pi, \|E\| < pi and a meridian distance pj_inv_mlfn maps back to the latitude |
| BonneCorrected.EllipsoidInvMissesNegativeRadius | include/boost/geometry/srs/projections/proj/bonne.hpp:96-124 | for a point with negative cone radius rh the source's ellipsoidal inverse evaluates pj_inv_mlfn at mlfn(lat) + 2 rh instead of mlfn(lat), so wherever pj_mlfn undoes pj_inv_mlfn there it does not return the point |
| BonneFactory.CreateNew | include/boost/geometry/srs/projections/proj/bonne.hpp:276-282 | builds the ellipsoidal class iff es != 0 and runs setup. No object results exactly when \|lat_1\| < 1e-10, with lat-1-is-zero; a built object keeps the parameters and holds exactly the constants setup_bonne derives from an unwritten record, so phi1 = lat_1 |
| BonneFactory.Forward | include/boost/geometry/srs/projections/proj/bonne.hpp:96-160 | the dispatched forward map sends the central meridian to x = 0 in either class |
| BonneFactory.Inverse | include/boost/geometry/srs/projections/proj/bonne.hpp:108-179 | the dispatched inverse of either class fails only with the tolerance error, and returns longitude 0 at \|lat\| >= half_pi |
| BonneFactory.InverseUndoesForward | include/boost/geometry/srs/projections/proj/bonne.hpp:96-179 | the object's inverse undoes its forward map in either class, for a positive cone radius (above 1e-10 on the sphere), a latitude inside the class's interior band, \|E\| < pi and, on the ellipsoid, pj_inv_mlfn mapping the point's meridian distance back to its latitude |
| BonneFactory.InverseCorrected | include/boost/geometry/srs/projections/proj/bonne.hpp:108-179 | the dispatch with the corrected kernels fails only with the tolerance error, and returns longitude 0 at \|lat\| >= half_pi |
| BonneFactory.InverseCorrectedAgreesNorth | include/boost/geometry/srs/projections/proj/bonne.hpp:108-179 | for lat_1 >= 0 the corrected dispatch equals the object's inverse on every point |
| BonneFactory.CreatedProjectionMapsOriginToZero | include/boost/geometry/srs/projections/proj/bonne.hpp:276-282 | every projection the entry builds maps (0, lat_1) to the origin, whichever class it chose |
| BonneFactory.BonneInit | include/boost/geometry/srs/projections/proj/bonne.hpp:286-289 | registers the Bonne entry under "bonne" and leaves every other name unchanged |
| BonneFactory.Create | include/boost/geometry/srs/projections/proj/bonne.hpp:276-289 | an unregistered name yields no projection. A registered entry fails only with lat-1-is-zero |
| BonneFactory.CreateBonneAfterInit | include/boost/geometry/srs/projections/proj/bonne.hpp:276-289 | after registration, creating "bonne" runs the Bonne entry's create_new, so the class is ellipsoidal iff es != 0 |
| SemiStaticFilter.SignOf | include/boost/geometry/extensions/generic_robust_predicates/strategies/cartesian/detail/semi_static_filter.hpp:31-37 | the true sign of a real: 1 iff positive, -1 iff negative, else 0 |
| SemiStaticFilter.Apply | include/boost/geometry/extensions/generic_robust_predicates/strategies/cartesian/detail/semi_static_filter.hpp:93-108 | returns 1 iff det > bound, -1 iff det <= bound and det < -bound, 0 iff bound = 0 = det, and uncertain in every other case. For bound >= 0 a definite answer is the sign of det and of every value within the bound, and \|det\| > bound always yields a definite answer |
| SemiStaticFilter.BoundaryIsUncertain | include/boost/geometry/extensions/generic_robust_predicates/strategies/cartesian/detail/semi_static_filter.hpp:34-35 | at \|det\| = bound > 0 the result is uncertain, and a definite answer there would contradict the exact value 0, which lies within the bound |
| SemiStaticFilter.ApplyNegation | include/boost/geometry/extensions/generic_robust_predicates/strategies/cartesian/detail/semi_static_filter.hpp:93-108 | for bound >= 0, negating det negates a definite result and keeps an uncertain one |
| SemiStaticFilter.ArgCount | include/boost/geometry/extensions/generic_robust_predicates/strategies/cartesian/detail/semi_static_filter.hpp:73-80 | arg_count is the larger of the two highest argument indices |
| EvalList.Unique | include/boost/geometry/extensions/generic_robust_predicates/strategies/cartesian/detail/semi_static_filter.hpp:56 | deduplication yields a duplicate-free list with exactly the input's elements |
| EvalList.RemoveIf | include/boost/geometry/extensions/generic_robust_predicates/strategies/cartesian/detail/semi_static_filter.hpp:57 | keeps exactly the elements that fail the test, and keeps a list duplicate-free |
| EvalList.SetDifference | include/boost/geometry/extensions/generic_robust_predicates/strategies/cartesian/detail/semi_static_filter.hpp:62-66 | keeps exactly the elements of the first list absent from the second |
| EvalList.Stack | include/boost/geometry/extensions/generic_robust_predicates/strategies/cartesian/detail/semi_static_filter.hpp:56 | `stack` holds every node of the expression exactly once |
| EvalList.Evals | include/boost/geometry/extensions/generic_robust_predicates/strategies/cartesian/detail/semi_static_filter.hpp:57 | `evals` holds every inner node of the expression exactly once |
| EvalList.ErrorEvalStack | include/boost/geometry/extensions/generic_robust_predicates/strategies/cartesian/detail/semi_static_filter.hpp:58-61 | `error_eval_stack` holds every node of the error expression exactly once |
| EvalList.ErrorEvalStackRemainder | include/boost/geometry/extensions/generic_robust_predicates/strategies/cartesian/detail/semi_static_filter.hpp:62-66 | holds exactly once each error-expression node that is not an inner node of the expression |
| EvalList.AllEvals | include/boost/geometry/extensions/generic_robust_predicates/strategies/cartesian/detail/semi_static_filter.hpp:67-71 | `all_evals` is duplicate-free, starts with `evals` and contains every element of `error_eval_stack`. Its elements are exactly the inner expression nodes and the error-expression nodes |
| EvalList.DisjointConcatenation | include/boost/geometry/extensions/generic_robust_predicates/strategies/cartesian/detail/semi_static_filter.hpp:67-71 | appending two duplicate-free lists with no shared element gives a duplicate-free list |
| EvalList.RemoveIfDistributes | include/boost/geometry/extensions/generic_robust_predicates/strategies/cartesian/detail/semi_static_filter.hpp:57 | filtering a concatenation filters each part |
| EvalList.UniqueOfNoDuplicates | include/boost/geometry/extensions/generic_robust_predicates/strategies/cartesian/detail/semi_static_filter.hpp:56 | deduplication leaves a duplicate-free list unchanged |
| EvalList.UniqueOfConcatenation | include/boost/geometry/extensions/generic_robust_predicates/strategies/cartesian/detail/semi_static_filter.hpp:56-71 | deduplicating s + t gives the deduplicated s followed by the new elements of t, in order of first occurrence |
| EvalList.SetDifferenceDistributes | include/boost/geometry/extensions/generic_robust_predicates/strategies/cartesian/detail/semi_static_filter.hpp:62-66 | the set difference of a concatenation is the concatenation of the set differences |
| EvalList.UniqueSnoc | include/boost/geometry/extensions/generic_robust_predicates/strategies/cartesian/detail/semi_static_filter.hpp:56 | deduplicating s + [x] appends x to the deduplicated s exactly when x is new |
| EvalList.UniqueOfConcatenationStep | include/boost/geometry/extensions/generic_robust_predicates/strategies/cartesian/detail/semi_static_filter.hpp:56-71 | the inductive step of UniqueOfConcatenation: the property for s and t carries over to s and t + [x] |
| EvalList.AllEvalsIsUniqueOfConcatenation | include/boost/geometry/extensions/generic_robust_predicates/strategies/cartesian/detail/semi_static_filter.hpp:56-71 | `all_evals` equals the deduplication of `evals` followed by the post-order error expression, an independent definition of the same list |

## Left out

- Floating point: all values are reals, with no rounding, overflow, infinities or NaN. Accuracy of the projection and the filter's guarantee that the error expression bounds the rounding error of `det` are not modelled.
- Bonne.SpheroidRoundTrip, Bonne.EllipsoidRoundTrip and their corrected counterparts: stated only under the hypotheses listed above, not for every point the forward map accepts. Points with a polar angle of magnitude pi or more, near the cone apex or in the near-pole bands are excluded, because `atan2` and the latitude tests lose them.
- `sin`, `cos`, `tan`, `sqrt`, `hypot`, `atan2`, `pj_enfn`, `pj_mlfn` and `pj_inv_mlfn`: uninterpreted. `ProjCommon.Valid`, `ProjCommon.Symmetric` and `ProjCommon.ValidPolar` list the facts used, apart from the two per-lemma hypotheses about `pj_mlfn` and `pj_inv_mlfn` described above, and `pj_mlfn` is deterministic because it is a function value.
- Bonne.SetupBonne: requires the ellipsoidal divisor sqrt(1 - es sin²phi1) · sin phi1 to be non-zero. The source divides unguarded there and would produce an infinity; that outcome is not modelled.
- Bonne.EllipsoidFwd: requires rh and sqrt(1 - es sin²lat) to be non-zero. The source divides unguarded and would produce an infinity or NaN; that outcome is not modelled.
- Bonne.EllipsoidAngle: carries the same precondition as `EllipsoidFwd`, for the same reason.
- BonneFactory.Forward: carries the same precondition for the ellipsoidal class. It is only the object's kernel dispatch: the library's `pj_fwd` wrapping around the kernel (latitude range check, subtracting the central meridian `lam0`, `adjlon` normalisation, scaling by `a`, adding `x0`/`y0`) is defined outside this header and is not modelled.
- The in-place overwrite of the input `y` by `am1 - y` (or `cphi1 - y`) in the inverse kernels: the kernels are modelled as pure functions returning a new point.
- BonneFactory.Inverse: the tolerance condition is its only error because `pj_inv_mlfn` is modelled as a total function that always converges. In the library `pj_inv_mlfn` can fail to converge and raise an error of its own; its definition is not part of this model. It is also only the object's kernel dispatch: the library's `pj_inv` wrapping (removing `x0`/`y0`, unscaling by `a`, adding back `lam0`, `adjlon` normalisation) is defined outside this header and is not modelled.
- Bonne.EllipsoidInv: reports only the tolerance condition, for the same reason.
- `pj_get_param_r` beyond a lookup that defaults to 0: degree-to-radian conversion and parameter parsing live outside this header.
- The static-projection macro, the `get_name` strings `bonne_ellipsoid` and `bonne_spheroid`, the CRTP and virtual-base plumbing, and heap allocation: C++ scaffolding. The plumbing routes calls through `pj_fwd`/`pj_inv`, whose behaviour is not modelled (see the BonneFactory.Forward and BonneFactory.Inverse lines).
- BonneFactory.Create: the factory's registry and its lookup are defined in factory.hpp, which is not part of this model. The lookup is modelled as a map lookup that fails on an unknown name.
- The numeric value of `sign_uncertain`: it is defined in a header that is not part of this model, so it is a separate constructor `SignUncertain`.
- `approximate_interim` and `get_approx`: expression evaluation is not modelled, so `det` and the error bound are inputs of `Apply`.
- `post_order`, `is_leaf` and `max_argn`: their results are inputs, namely post-order node sequences, a leaf predicate and natural numbers.
- The flags `stateful` and `updates`: constants with no behaviour.

## Findings

| source | as written | input that shows it | evidently intended | confidence | as-written member | corrected member |
|---|---|---|---|---|---|---|
| include/boost/geometry/srs/projections/proj/bonne.hpp:170-178 | the spherical inverse takes the cone radius as hypot(x, cphi1 - y) >= 0, but the forward map's radius cphi1 + phi1 - lat is negative when lat_1 < 0, for every latitude outside a sliver by the south pole | es = 0, lat_1 = -0.5 rad, point (0, 0): rh = cot(-0.5) - 0.5 < 0, and the inverse of the forward image recovers latitude 2 rh, below -half_pi, so it throws instead of returning (0, 0) | the radius and both atan2 arguments take the sign of phi1, so inverse undoes forward for a southern standard parallel as well | not executed; high | BonneCorrected.SpheroidInvMissesNegativeRadius | BonneCorrected.SpheroidRoundTripCorrected |
| include/boost/geometry/srs/projections/proj/bonne.hpp:114-119 | the ellipsoidal inverse takes the cone radius as hypot(x, am1 - y) >= 0, but the forward map's radius am1 + m1 - mlfn(lat) is negative near the standard parallel when lat_1 < 0, since am1 is then negative | es = 0.0067, lat_1 = -0.5 rad, point (0, lat_1): rh = am1 < 0, and the inverse evaluates pj_inv_mlfn at m1 + 2 am1 instead of m1, a latitude other than lat_1 | the radius and both atan2 arguments take the sign of phi1 | not executed; high | BonneCorrected.EllipsoidInvMissesNegativeRadius | BonneCorrected.EllipsoidRoundTripCorrected |
