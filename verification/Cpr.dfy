/** Compact Position Reporting: the NL table, the quantiser of section A.1.7 of
    RTCA DO-260B and the global and local decoders of `adsb.rs`, over the reals. */
module Cpr {
  import opened Wrappers
  import opened Products

  const SCALE: int := 131072
  const AIRBORNE_ZONE: real := 360.0
  const SURFACE_ZONE: real := 90.0

  // The table of latitudes at which the number of longitude zones drops by one, in four runs.
  const NL_A: seq<real> := [
    10.47047130, 14.82817437, 18.18626357, 21.02939493, 23.54504487, 25.82924707, 27.93898710, 29.91135686,
    31.77209708, 33.53993436, 35.22899598, 36.85025108, 38.41241892, 39.92256684, 41.38651832
  ]
  const NL_B: seq<real> := [
    42.80914012, 44.19454951, 45.54626723, 46.86733252, 48.16039128, 49.42776439, 50.67150166, 51.89342469,
    53.09516153, 54.27817472, 55.44378444, 56.59318756, 57.72747354, 58.84763776, 59.95459277
  ]
  const NL_C: seq<real> := [
    61.04917774, 62.13216659, 63.20427479, 64.26616523, 65.31845310, 66.36171008, 67.39646774, 68.42322022,
    69.44242631, 70.45451075, 71.45986473, 72.45884545, 73.45177442, 74.43893416, 75.42056257
  ]
  const NL_D: seq<real> := [
    76.39684391, 77.36789461, 78.33374083, 79.29428225, 80.24923213, 81.19801349, 82.13956981, 83.07199445,
    83.99173563, 84.89166191, 85.75541621, 86.53536998, 87.00000000
  ]
  const NL_BOUNDARIES: seq<real> := NL_A + NL_B + NL_C + NL_D

  /** A 17-bit encoded position and the sample it was received at. */
  datatype CprFix = CprFix(lat: nat, lon: nat, at: nat)

  ghost predicate ValidFix(fix: CprFix) {
    fix.lat < SCALE && fix.lon < SCALE
  }

  function Max(a: int, b: int): int {
    if a < b then b else a
  }

  function Modulo(a: real, b: real): real
    requires b > 0.0
  {
    a - b * (a / b).Floor as real
  }

  /** The position of the first table entry above `lat`, searching from `k`. */
  function FirstAbove(table: seq<real>, lat: real, k: nat): (z: nat)
    requires k <= |table|
    ensures k <= z <= |table|
    ensures forall i :: k <= i < z ==> table[i] <= lat
    ensures z < |table| ==> lat < table[z]
    decreases |table| - k
  {
    if k == |table| || lat < table[k] then k else FirstAbove(table, lat, k + 1)
  }

  /** The number of longitude zones at a latitude. */
  function CprNl(lat: real): (nl: int)
    ensures 1 <= nl <= 59
  {
    var zone := FirstAbove(NL_BOUNDARIES, Abs(lat), 0);
    if zone < |NL_BOUNDARIES| then 59 - zone else 1
  }

  function LatZones(odd: bool): int {
    if odd then 59 else 60
  }

  function LonZones(lat: real, odd: bool): (n: int)
    ensures 1 <= n <= 59
  {
    Max(CprNl(lat) - (if odd then 1 else 0), 1)
  }

  /** The width of one of `n` zones. */
  function Width(zone: real, n: int): (d: real)
    requires zone > 0.0 && n >= 1
    ensures d > 0.0
  {
    zone / n as real
  }

  /** The encoder's count of grid steps into the zone that holds `p`. */
  function Code(p: real, d: real): int
    requires d > 0.0
  {
    (SCALE as real * Modulo(p, d) / d + 0.5).Floor
  }

  /** The point `fraction` of the way into zone `zone` of width `d`. */
  function Place(d: real, zone: real, fraction: real): real {
    d * (zone + fraction)
  }

  /** The encoder: both coordinates as 17-bit fractions of their zone. */
  function CprEncode(lat: real, lon: real, odd: bool, zone: real): (int, int)
    requires zone > 0.0
  {
    var dlat := Width(zone, LatZones(odd));
    var yz := Code(lat, dlat);
    var rlat := Place(dlat, (lat / dlat).Floor as real, yz as real / SCALE as real);
    var dlon := Width(zone, LonZones(rlat, odd));
    var xz := Code(lon, dlon);
    (yz % SCALE, xz % SCALE)
  }

  predicate InLatitude(lat: real) {
    -90.0 <= lat <= 90.0
  }

  function WrapLatitude(lat: real): real {
    if lat >= 270.0 then lat - 360.0 else lat
  }

  function WrapLongitude(lon: real): real {
    if lon >= 180.0 then lon - 360.0 else lon
  }

  function Fraction(code: nat): real {
    code as real / SCALE as real
  }

  /** The zone-difference formula for `n` even and `n - 1` odd zones. */
  function ZoneOf(n: int, even: nat, odd: nat): int {
    ((n - 1) as real * Fraction(even) - n as real * Fraction(odd) + 0.5).Floor
  }

  function CprGlobal(even: CprFix, odd: CprFix, latestOdd: bool): Option<(real, real)> {
    var zone := ZoneOf(60, even.lat, odd.lat) as real;
    var rlatEven := WrapLatitude(Place(Width(AIRBORNE_ZONE, 60), Modulo(zone, 60.0), Fraction(even.lat)));
    var rlatOdd := WrapLatitude(Place(Width(AIRBORNE_ZONE, 59), Modulo(zone, 59.0), Fraction(odd.lat)));
    if !InLatitude(rlatEven) || !InLatitude(rlatOdd) then None else
    var nl := CprNl(rlatEven);
    if nl != CprNl(rlatOdd) then None else
    var ni := Max(nl - (if latestOdd then 1 else 0), 1);
    var m := ZoneOf(nl, even.lon, odd.lon) as real;
    var lonCpr := Fraction(if latestOdd then odd.lon else even.lon);
    var lon := Place(Width(AIRBORNE_ZONE, ni), Modulo(m, ni as real), lonCpr);
    Some((if latestOdd then rlatOdd else rlatEven, WrapLongitude(lon)))
  }

  /** One coordinate against a reference: the zone index and the fraction, times the zone. */
  function LocalCoordinate(reference: real, d: real, fraction: real): real
    requires d > 0.0
  {
    var j := (reference / d).Floor + (Modulo(reference, d) / d - fraction + 0.5).Floor;
    Place(d, j as real, fraction)
  }

  function CprLocal(fix: CprFix, odd: bool, refLat: real, refLon: real, zone: real): Option<(real, real)>
    requires zone > 0.0
  {
    var dlat := Width(zone, LatZones(odd));
    var lat := LocalCoordinate(refLat, dlat, Fraction(fix.lat));
    if !InLatitude(lat) then None else
    var dlon := Width(zone, LonZones(lat, odd));
    Some((lat, WrapLongitude(LocalCoordinate(refLon, dlon, Fraction(fix.lon)))))
  }

  // ---- Reference quantiser: a coordinate snapped to the grid of its zone ----

  /** The nearest grid line to `p` when a zone of width `d` holds `SCALE` of them. */
  function Grid(p: real, d: real): int
    requires d > 0.0
  {
    (SCALE as real * (p / d) + 0.5).Floor
  }

  function Snap(p: real, d: real): real
    requires d > 0.0
  {
    d * (Grid(p, d) as real / SCALE as real)
  }

  /** Half of one grid step of a zone of width `d`, 131072 steps to the zone. */
  function HalfStep(d: real): real {
    d / 262144.0
  }

  lemma FloorShift(x: real, k: int)
    ensures (x + k as real).Floor == x.Floor + k
  {}

  lemma FloorOf(x: real, k: int)
    requires k as real <= x < k as real + 1.0
    ensures x.Floor == k
  {}

  /** Snapping moves a point by at most half of one grid step. */
  lemma SnapIsNearest(p: real, d: real)
    requires d > 0.0
    ensures Abs(Snap(p, d) - p) <= HalfStep(d)
  {
    var s, t, g := SCALE as real, p / d, Grid(p, d) as real;
    assert -0.5 <= g - s * t <= 0.5;
    SnapDistance(p, d, g / s);
    Halves(d, s * (g / s - t));
    Rescale(d, g / s - t);
  }

  lemma SnapDistance(p: real, d: real, x: real)
    requires d > 0.0
    ensures d * x - p == Mul(d, x - p / d)
  {
    assert Mul(d, x) == d * x;
    hide Mul;
    Diff(d, x, p / d);
    Quotient(p, d);
  }

  lemma Rescale(d: real, x: real)
    ensures Mul(d, SCALE as real * x) == SCALE as real * Mul(d, x)
  {}

  /** `Modulo` divided by the modulus is the fractional part. */
  lemma FractionalPart(p: real, d: real)
    requires d > 0.0
    ensures Modulo(p, d) / d == p / d - (p / d).Floor as real
  {
    var k := (p / d).Floor as real;
    assert p - d * k == d * (p / d - k);
  }

  /** What the encoder sends for one coordinate is the grid line modulo a zone. */
  lemma EncodeIsGrid(p: real, d: real)
    requires d > 0.0
    ensures Code(p, d) % SCALE == Grid(p, d) % SCALE
    ensures Place(d, (p / d).Floor as real, Code(p, d) as real / SCALE as real) == Snap(p, d)
  {
    CodeAndZone(p, d);
    var k := (p / d).Floor;
    RemainderOf(Code(p, d), k, SCALE);
    assert Grid(p, d) == MulInt(SCALE, k) + Code(p, d);
    hide Grid, Code, MulInt;
    assert Grid(p, d) as real / SCALE as real == (p / d).Floor as real + Code(p, d) as real / SCALE as real;
  }

  lemma CodeAndZone(p: real, d: real)
    requires d > 0.0
    ensures Grid(p, d) == Code(p, d) + SCALE * (p / d).Floor
  {
    var s, k := SCALE as real, (p / d).Floor;
    FractionalPart(p, d);
    assert s * Modulo(p, d) / d == s * (Modulo(p, d) / d);
    hide Modulo;
    FloorShift(s * (Modulo(p, d) / d) + 0.5, SCALE * k);
  }

  // ---- Global decoding ----

  /** On whole numbers the real `Modulo` is the Euclidean remainder. */
  lemma ModuloOfInts(z: int, n: int)
    requires n >= 1
    ensures Modulo(z as real, n as real) == (z % n) as real
  {
    DivMod(z, n);
    AsReal(n, z / n);
    QuotientFloor(z as real, n as real, z / n, (z % n) as real);
  }

  lemma QuotientFloor(x: real, d: real, q: int, r: real)
    requires d > 0.0 && x == Mul(d, q as real) + r && 0.0 <= r < d
    ensures (x / d).Floor == q
  {
    hide Mul;
    Quotient(x, d);
    Diff(d, x / d, q as real);
    Diff(d, x / d - q as real, 1.0);
    assert Mul(d, 1.0) == d by { One(d); }
    Positive(d, x / d - q as real);
    Positive(d, x / d - q as real - 1.0);
    FloorOf(x / d, q);
  }

  lemma One(d: real)
    ensures Mul(d, 1.0) == d
  {}

  /** The zone-difference formula recovers both zone indices from the two fractions. */
  lemma ZoneDifference(n: int, g0: int, g1: int)
    requires n >= 1
    requires -SCALE <= 2 * (MulInt(n - 1, g0) - MulInt(n, g1)) < SCALE
    ensures ZoneOf(n, g0 % SCALE, g1 % SCALE) == MulInt(n, g1 / SCALE) - MulInt(n - 1, g0 / SCALE)
  {
    FractionTerm(n - 1, g0);
    FractionTerm(n, g1);
    var z := MulInt(n, g1 / SCALE) - MulInt(n - 1, g0 / SCALE);
    var x := (n - 1) as real * Fraction(g0 % SCALE) - n as real * Fraction(g1 % SCALE) + 0.5;
    hide Fraction, MulInt;
    FloorOf(x, z);
  }

  lemma FractionTerm(m: int, g: int)
    ensures m as real * Fraction(g % SCALE)
         == MulInt(m, g) as real / SCALE as real - MulInt(m, g / SCALE) as real
  {
    AsReal(m, g);
    AsReal(m, g / SCALE);
    var y, k := g as real / SCALE as real, (g / SCALE) as real;
    assert Fraction(g % SCALE) == y - k;
    Diff(m as real, y, k);
  }

  /** Quantisation noise cannot move the zone-difference formula to another zone. */
  lemma GridDifference(p: real, n: int)
    requires 2 <= n <= 60
    ensures var e := MulInt(n - 1, Grid(p, Width(360.0, n))) - MulInt(n, Grid(p, Width(360.0, n - 1)));
            -SCALE <= 2 * e < SCALE
  {
    GridNoise(p, n);
    GridNoise(p, n - 1);
    var g0, g1 := Grid(p, Width(360.0, n)), Grid(p, Width(360.0, n - 1));
    hide Grid, Width, Mul, MulInt;
    Noise(n as real, (n - 1) as real, SCALE as real * (p / 360.0), g0 as real, g1 as real);
    AsReal(n - 1, g0);
    AsReal(n, g1);
  }

  lemma Noise(a: real, b: real, t: real, x0: real, x1: real)
    requires a > 0.0 && b > 0.0
    requires -0.5 <= x0 - Mul(a, t) <= 0.5
    requires -0.5 <= x1 - Mul(b, t) <= 0.5
    ensures -0.5 * (a + b) <= Mul(b, x0) - Mul(a, x1) <= 0.5 * (a + b)
  {
    hide Mul;
    Halves(b, x0 - Mul(a, t));
    Halves(a, x1 - Mul(b, t));
    Diff(b, x0, Mul(a, t));
    Diff(a, x1, Mul(b, t));
    Exchange(a, b, t);
  }

  lemma GridNoise(p: real, n: int)
    requires n >= 1
    ensures -0.5 <= Grid(p, Width(360.0, n)) as real - Mul(n as real, SCALE as real * (p / 360.0)) <= 0.5
  {
    WidthQuotient(p, 360.0, n);
  }

  /** Dividing by a width of `zone / n` multiplies by `n`. */
  lemma WidthQuotient(p: real, zone: real, n: int)
    requires zone > 0.0 && n >= 1
    ensures SCALE as real * (p / Width(zone, n)) == Mul(n as real, SCALE as real * (p / zone))
  {
    var a := n as real;
    assert p / (zone / a) == a * (p / zone);
  }

  /** A zone index reduced modulo `n` puts the point back, up to whole turns. */
  lemma ZoneReassembles(n: int, g: int)
    requires n >= 1
    ensures var got := Place(Width(360.0, n), (g / SCALE % n) as real, Fraction(g % SCALE));
            && got == Width(360.0, n) * (g as real / SCALE as real) - 360.0 * (g / SCALE / n) as real
            && 0.0 <= got < 360.0
  {
    var k, d, a, f := g / SCALE, Width(360.0, n), n as real, Fraction(g % SCALE);
    var q, x := (k / n) as real, (k % n) as real + f;
    assert g as real / SCALE as real == k as real + f;
    DivMod(k, n);
    AsReal(n, k / n);
    assert d * x == Mul(d, x) && d * (k as real + f) == Mul(d, k as real + f) && Mul(d, a) == 360.0;
    assert Mul(d, Mul(a, q)) == 360.0 * q;
    assert Place(d, (k % n) as real, f) == Mul(d, x) && 0.0 <= f < 1.0;
    hide Mul, MulInt, Width, Fraction, Place;
    Diff(d, k as real + f, Mul(a, q));
    Diff(d, a, x);
    Positive(d, x);
    Positive(d, a - x);
  }

  lemma ZoneRemainders(n: int, k0: int, k1: int)
    requires n >= 2
    ensures var z := MulInt(n, k1) - MulInt(n - 1, k0);
            z % n == k0 % n && z % (n - 1) == k1 % (n - 1)
  {
    hide MulInt;
    ZoneForms(n, k0, k1);
    RemainderOf(k0, k1 - k0, n);
    RemainderOf(k1, k1 - k0, n - 1);
  }

  lemma ZoneForms(n: int, k0: int, k1: int)
    ensures var z := MulInt(n, k1) - MulInt(n - 1, k0);
            z == MulInt(n, k1 - k0) + k0 && z == MulInt(n - 1, k1 - k0) + k1
  {
    assert MulInt(1, k0) == k0 && MulInt(1, k1) == k1;
    hide MulInt;
    DiffInt(n, k1, k0);
    DiffInt(n - 1, k1, k0);
    DiffInt(k0, n, 1);
    DiffInt(k1, n, 1);
  }

  /** From the two fractions of one coordinate, each parity's zone index modulo its zone count. */
  lemma ZonesRecovered(p: real, n: int)
    requires 2 <= n <= 60
    ensures var g0, g1 := Grid(p, Width(360.0, n)), Grid(p, Width(360.0, n - 1));
            var z := ZoneOf(n, g0 % SCALE, g1 % SCALE) as real;
            && Modulo(z, n as real) == (g0 / SCALE % n) as real
            && Modulo(z, (n - 1) as real) == (g1 / SCALE % (n - 1)) as real
  {
    hide Grid, Width, ZoneOf, Modulo, MulInt;
    var g0, g1 := Grid(p, Width(360.0, n)), Grid(p, Width(360.0, n - 1));
    GridDifference(p, n);
    ZoneDifference(n, g0, g1);
    ZoneRemainders(n, g0 / SCALE, g1 / SCALE);
    ModuloOfInts(ZoneOf(n, g0 % SCALE, g1 % SCALE), n);
    ModuloOfInts(ZoneOf(n, g0 % SCALE, g1 % SCALE), n - 1);
  }

  lemma GridInRange(lat: real, n: int)
    requires InLatitude(lat) && 59 <= n <= 60
    ensures -n * SCALE <= 4 * Grid(lat, Width(360.0, n)) <= n * SCALE
  {
    WidthQuotient(lat, 360.0, n);
    assert n == 59 || n == 60;
  }

  /** A latitude's zone, reduced and wrapped, is the snapped latitude itself. */
  lemma LatitudeReassembles(n: int, g: int)
    requires 59 <= n <= 60
    requires -n * SCALE <= 4 * g <= n * SCALE
    ensures var d := Width(360.0, n);
            && WrapLatitude(Place(d, (g / SCALE % n) as real, Fraction(g % SCALE)))
               == d * (g as real / SCALE as real)
            && InLatitude(d * (g as real / SCALE as real))
  {
    assert n == 59 || n == 60;
    ZoneReassembles(n, g);
    var k := g / SCALE;
    UniqueRemainder(k, n, if k >= 0 then 0 else -1, if k >= 0 then k else k + n);
  }

  /** What the encoder sends: each coordinate's grid line modulo one zone. */
  lemma EncodeMeaning(lat: real, lon: real, odd: bool, zone: real)
    requires zone > 0.0
    ensures var dlat := Width(zone, LatZones(odd));
            var dlon := Width(zone, LonZones(Snap(lat, dlat), odd));
            CprEncode(lat, lon, odd, zone) == (Grid(lat, dlat) % SCALE, Grid(lon, dlon) % SCALE)
  {
    hide Width, Grid, Snap, Code, Place, LonZones;
    var dlat := Width(zone, LatZones(odd));
    EncodeIsGrid(lat, dlat);
    EncodeIsGrid(lon, Width(zone, LonZones(Snap(lat, dlat), odd)));
  }

  function EncodedFix(lat: real, lon: real, odd: bool, zone: real, at: nat): CprFix
    requires zone > 0.0
  {
    var (y, x) := CprEncode(lat, lon, odd, zone);
    CprFix(y, x, at)
  }

  /** The latitude a parity's airborne encoding stands for. */
  function SnappedLat(lat: real, odd: bool): real {
    Snap(lat, Width(AIRBORNE_ZONE, LatZones(odd)))
  }

  /** The width of a longitude zone for that parity at that latitude. */
  function LonWidth(lat: real, odd: bool): (d: real)
    ensures d > 0.0
  {
    Width(AIRBORNE_ZONE, LonZones(SnappedLat(lat, odd), odd))
  }

  predicate TurnsApart(a: real, b: real, turns: int) {
    a == b + 360.0 * turns as real
  }

  /** Both latitudes the global decoder forms are the snapped latitudes. */
  lemma GlobalLatitudes(lat: real)
    requires InLatitude(lat)
    ensures var g0, g1 := Grid(lat, Width(360.0, 60)), Grid(lat, Width(360.0, 59));
            var z := ZoneOf(60, g0 % SCALE, g1 % SCALE) as real;
            && WrapLatitude(Place(Width(360.0, 60), Modulo(z, 60.0), Fraction(g0 % SCALE))) == SnappedLat(lat, false)
            && WrapLatitude(Place(Width(360.0, 59), Modulo(z, 59.0), Fraction(g1 % SCALE))) == SnappedLat(lat, true)
            && InLatitude(SnappedLat(lat, false)) && InLatitude(SnappedLat(lat, true))
  {
    ZonesRecovered(lat, 60);
    LatitudeFromZone(lat, 60);
    LatitudeFromZone(lat, 59);
    assert SnappedLat(lat, false) == Snap(lat, Width(360.0, 60)) && SnappedLat(lat, true) == Snap(lat, Width(360.0, 59));
    hide Width, Grid, ZoneOf, Modulo, Fraction, WrapLatitude, InLatitude, Place, Snap, SnappedLat;
  }

  lemma LatitudeFromZone(lat: real, n: int)
    requires InLatitude(lat) && 59 <= n <= 60
    ensures var d := Width(360.0, n);
            var g := Grid(lat, d);
            && WrapLatitude(Place(d, (g / SCALE % n) as real, Fraction(g % SCALE))) == Snap(lat, d)
            && InLatitude(Snap(lat, d))
  {
    GridInRange(lat, n);
    LatitudeReassembles(n, Grid(lat, Width(360.0, n)));
    hide Width, Grid, Fraction, WrapLatitude, InLatitude, Place;
  }

  /** Wrapping a raw longitude of one turn puts it in [-180, 180), whole turns aside. */
  lemma WrappedLongitude(lon: real, n: int) returns (turns: int)
    requires n >= 1
    ensures var g := Grid(lon, Width(360.0, n));
            var got := WrapLongitude(Place(Width(360.0, n), (g / SCALE % n) as real, Fraction(g % SCALE)));
            && TurnsApart(got, Snap(lon, Width(360.0, n)), turns)
            && -180.0 <= got < 180.0
  {
    var g := Grid(lon, Width(360.0, n));
    ZoneReassembles(n, g);
    hide Width, Fraction, Grid, Place;
    var raw := Place(Width(360.0, n), (g / SCALE % n) as real, Fraction(g % SCALE));
    turns := -(g / SCALE / n) - (if raw >= 180.0 then 1 else 0);
  }

  /** Longitude: for either parity the reduced zone is that parity's own. */
  lemma LongitudeZone(lon: real, nl: int, latestOdd: bool)
    requires 1 <= nl <= 59
    ensures var n1 := Max(nl - 1, 1);
            var g0, g1 := Grid(lon, Width(360.0, nl)), Grid(lon, Width(360.0, n1));
            var ni, g := if latestOdd then n1 else nl, if latestOdd then g1 else g0;
            Modulo(ZoneOf(nl, g0 % SCALE, g1 % SCALE) as real, ni as real) == (g / SCALE % ni) as real
  {
    hide Width, Grid, ZoneOf, Modulo;
    var n1 := Max(nl - 1, 1);
    var g0, g1 := Grid(lon, Width(360.0, nl)), Grid(lon, Width(360.0, n1));
    if nl >= 2 {
      ZonesRecovered(lon, nl);
    } else {
      ModuloOfInts(ZoneOf(nl, g0 % SCALE, g1 % SCALE), 1);
    }
  }

  /** What the global decoder makes of the two codes of one point. */
  lemma GlobalSolves(lat: real, lon: real, latestOdd: bool, even: CprFix, odd: CprFix)
    requires InLatitude(lat)
    requires even.lat == Grid(lat, Width(360.0, 60)) % SCALE && odd.lat == Grid(lat, Width(360.0, 59)) % SCALE
    requires even.lon == Grid(lon, LonWidth(lat, false)) % SCALE && odd.lon == Grid(lon, LonWidth(lat, true)) % SCALE
    ensures var got, d := CprGlobal(even, odd, latestOdd), LonWidth(lat, latestOdd);
            var n, g := LonZones(SnappedLat(lat, latestOdd), latestOdd), Grid(lon, d);
            if CprNl(SnappedLat(lat, false)) == CprNl(SnappedLat(lat, true)) then
              got == Some((SnappedLat(lat, latestOdd),
                           WrapLongitude(Place(d, (g / SCALE % n) as real, Fraction(g % SCALE)))))
            else
              got == None
  {
    GlobalLatitudes(lat);
    hide CprNl, Width, Grid, ZoneOf, Modulo, Fraction, WrapLatitude, InLatitude, WrapLongitude, Place, SnappedLat;
    var nl := CprNl(SnappedLat(lat, false));
    if nl == CprNl(SnappedLat(lat, true)) {
      LongitudeZone(lon, nl, latestOdd);
    }
  }

  /** Global CPR is correct: a point's two encodings decode to the point, snapped to the grid of
      the parity received last, exactly when both parities see the same number of zones. */
  lemma GlobalRoundTrip(lat: real, lon: real, latestOdd: bool, evenAt: nat, oddAt: nat)
    returns (turns: int)
    requires InLatitude(lat)
    ensures var even := EncodedFix(lat, lon, false, AIRBORNE_ZONE, evenAt);
            var odd := EncodedFix(lat, lon, true, AIRBORNE_ZONE, oddAt);
            var got := CprGlobal(even, odd, latestOdd);
            && (got.Some? <==> CprNl(SnappedLat(lat, false)) == CprNl(SnappedLat(lat, true)))
            && (got.Some? ==>
                  && got.value.0 == SnappedLat(lat, latestOdd)
                  && Abs(got.value.0 - lat) <= HalfStep(Width(AIRBORNE_ZONE, LatZones(latestOdd)))
                  && TurnsApart(got.value.1, Snap(lon, LonWidth(lat, latestOdd)), turns)
                  && Abs(got.value.1 - (lon + 360.0 * turns as real)) <= HalfStep(LonWidth(lat, latestOdd)))
  {
    EncodeMeaning(lat, lon, false, AIRBORNE_ZONE);
    EncodeMeaning(lat, lon, true, AIRBORNE_ZONE);
    hide CprNl, Width, Grid, Fraction, WrapLongitude, HalfStep, CprEncode, Place, CprGlobal, InLatitude, LonZones, Snap;
    GlobalSolves(lat, lon, latestOdd, EncodedFix(lat, lon, false, AIRBORNE_ZONE, evenAt),
                 EncodedFix(lat, lon, true, AIRBORNE_ZONE, oddAt));
    turns := WrappedLongitude(lon, LonZones(SnappedLat(lat, latestOdd), latestOdd));
    SnapIsNearest(lat, Width(AIRBORNE_ZONE, LatZones(latestOdd)));
    SnapIsNearest(lon, LonWidth(lat, latestOdd));
  }

  /** On any two received codes a solved position is a place on the globe. */
  lemma GlobalRange(even: CprFix, odd: CprFix, latestOdd: bool)
    requires ValidFix(even) && ValidFix(odd)
    ensures var got := CprGlobal(even, odd, latestOdd);
            got.Some? ==> InLatitude(got.value.0) && -180.0 <= got.value.1 < 180.0
  {
    forall nl: int, ni: int, code: nat | 1 <= ni && code < SCALE
      ensures var m := ZoneOf(nl, even.lon, odd.lon) as real;
              -180.0 <= WrapLongitude(Place(Width(AIRBORNE_ZONE, ni), Modulo(m, ni as real), Fraction(code))) < 180.0
    {
      LongitudeRange(ZoneOf(nl, even.lon, odd.lon), ni, code);
    }
    hide CprNl, Width, ZoneOf, Modulo, Fraction, WrapLatitude, InLatitude, WrapLongitude, Place;
  }

  lemma LongitudeRange(m: int, n: int, code: nat)
    requires n >= 1 && code < SCALE
    ensures -180.0 <= WrapLongitude(Place(Width(360.0, n), Modulo(m as real, n as real), Fraction(code))) < 180.0
  {
    hide Width, Modulo, Fraction;
    ModuloOfInts(m, n);
    var r := m % n;
    UniqueRemainder(SCALE * r + code, SCALE, r, code);
    UniqueRemainder(r, n, 0, r);
    ZoneReassembles(n, SCALE * r + code);
  }

  // ---- Local decoding ----

  /** Against a reference the decoder returns the one point of the code's class that lies
      within half a zone: no other zone index does. */
  lemma LocalIsNearest(reference: real, d: real, fraction: real, k: int)
    requires d > 0.0
    ensures var got := LocalCoordinate(reference, d, fraction);
            && -d < 2.0 * (got - reference) <= d
            && (got == Place(d, k as real, fraction)
                <==> -d < 2.0 * (Place(d, k as real, fraction) - reference) <= d)
  {
    var x := reference / d;
    var j := (x - fraction + 0.5).Floor;
    FractionalPart(reference, d);
    FloorShift(x - x.Floor as real - fraction + 0.5, x.Floor);
    assert LocalCoordinate(reference, d, fraction) == Mul(d, j as real + fraction);
    assert Place(d, k as real, fraction) == Mul(d, k as real + fraction);
    hide Mul, LocalCoordinate, Place;
    WithinHalf(reference, d, j as real + fraction);
    WithinHalf(reference, d, k as real + fraction);
    NearestWhole(x, fraction, k);
    NearestWhole(x, fraction, j);
    Diff(d, k as real + fraction, j as real + fraction);
    Positive(d, (k - j) as real);
  }

  lemma NearestWhole(x: real, fraction: real, k: int)
    ensures -0.5 < k as real + fraction - x <= 0.5 <==> k == (x - fraction + 0.5).Floor
  {}

  lemma WithinHalf(reference: real, d: real, y: real)
    requires d > 0.0
    ensures -0.5 < y - reference / d <= 0.5 <==> -d < 2.0 * (Mul(d, y) - reference) <= d
  {
    assert Mul(d, 0.5) == 0.5 * d && Mul(d, -0.5) == -0.5 * d;
    hide Mul;
    var x := reference / d;
    Quotient(reference, d);
    Diff(d, y, x);
    Diff(d, y - x, -0.5);
    Diff(d, 0.5, y - x);
    Positive(d, y - x + 0.5);
    Positive(d, 0.5 - (y - x));
  }

  /** A grid line is its zone and the code sent for it. */
  lemma SnapIsPlaced(p: real, d: real)
    requires d > 0.0
    ensures Snap(p, d) == Place(d, (Grid(p, d) / SCALE) as real, Fraction(Grid(p, d) % SCALE))
  {
    var g := Grid(p, d);
    assert g as real / SCALE as real == (g / SCALE) as real + Fraction(g % SCALE);
    hide Grid;
  }

  /** Local CPR is correct: a point whose snapped position is within half a zone of the reference is recovered exactly
      from one encoding, for any zone size and parity: as snapped, its longitude one turn less from 180 on, and so
      within half a step of the point. */
  lemma LocalRoundTrip(lat: real, lon: real, odd: bool, refLat: real, refLon: real, zone: real, at: nat)
    requires zone > 0.0
    requires var dlat := Width(zone, LatZones(odd));
             var slat := Snap(lat, dlat);
             var dlon := Width(zone, LonZones(slat, odd));
             && InLatitude(slat)
             && -dlat < 2.0 * (slat - refLat) <= dlat
             && -dlon < 2.0 * (Snap(lon, dlon) - refLon) <= dlon
    ensures var dlat := Width(zone, LatZones(odd));
            var slat := Snap(lat, dlat);
            var dlon := Width(zone, LonZones(slat, odd));
            var slon := Snap(lon, dlon);
            var got := CprLocal(EncodedFix(lat, lon, odd, zone, at), odd, refLat, refLon, zone);
            && got == Some((slat, if slon < 180.0 then slon else slon - 360.0))
            && Abs(slat - lat) <= dlat / 262144.0 && Abs(slon - lon) <= dlon / 262144.0
  {
    var dlat := Width(zone, LatZones(odd));
    var dlon := Width(zone, LonZones(Snap(lat, dlat), odd));
    SnapIsNearest(lat, dlat);
    SnapIsNearest(lon, dlon);
    assert HalfStep(dlat) == dlat / 262144.0 && HalfStep(dlon) == dlon / 262144.0;
    hide Width, Grid, Snap, Place, Fraction, LonZones, InLatitude, CprEncode, LocalCoordinate, HalfStep;
    EncodeMeaning(lat, lon, odd, zone);
    SnapIsPlaced(lat, dlat);
    SnapIsPlaced(lon, dlon);
    LocalIsNearest(refLat, dlat, Fraction(Grid(lat, dlat) % SCALE), Grid(lat, dlat) / SCALE);
    LocalIsNearest(refLon, dlon, Fraction(Grid(lon, dlon) % SCALE), Grid(lon, dlon) / SCALE);
  }

  /** How far beyond the date line, going east, the first point of a code's class lies. */
  function EastOfDateLine(d: real, fraction: real): real
    requires d > 0.0
  {
    Modulo(d * fraction + 180.0, d)
  }

  lemma ModuloBounds(a: real, d: real)
    requires d > 0.0
    ensures 0.0 <= Modulo(a, d) < d && Modulo(a, d) == a - d * (a / d).Floor as real
  {
    var x := a / d;
    Quotient(a, d);
    Diff(d, x, x.Floor as real);
    Positive(d, x - x.Floor as real);
    Positive(d, 1.0 - (x - x.Floor as real));
    Diff(d, 1.0, x - x.Floor as real);
    One(d);
    assert d * x.Floor as real == Mul(d, x.Floor as real);
    hide Mul;
  }

  lemma EastIsWithinZone(d: real, fraction: real)
    requires d > 0.0
    ensures 0.0 <= EastOfDateLine(d, fraction) < d
  {
    ModuloBounds(d * fraction + 180.0, d);
  }

  /** The point of a class nearest a reference is west of the date line exactly when the reference is less than half a
      zone east of it and the first point of the class beyond it is more than half a zone from the reference. */
  lemma NearestEscapes(reference: real, d: real, fraction: real)
    requires d > 0.0 && -180.0 <= reference
    ensures LocalCoordinate(reference, d, fraction) < -180.0
       <==> EastOfDateLine(d, fraction) > reference + 180.0 + d / 2.0
    ensures var got := LocalCoordinate(reference, d, fraction);
            got < -180.0 ==> got == EastOfDateLine(d, fraction) - 180.0 - d
  {
    var q, m := ((d * fraction + 180.0) / d).Floor, EastOfDateLine(d, fraction);
    ModuloBounds(d * fraction + 180.0, d);
    var got, j := LocalCoordinate(reference, d, fraction), LocalZone(reference, d, fraction);
    assert got == Mul(d, j as real + fraction);
    PlaceFrom(d, fraction, q, j, m);
    LocalIsNearest(reference, d, fraction, -q - 1);
    PlaceFrom(d, fraction, q, -q - 1, m);
    hide Modulo, LocalCoordinate, EastOfDateLine, Place, Mul, LocalZone;
    if got < -180.0 {
      WholeZones(d, j + q);
    }
  }

  function LocalZone(reference: real, d: real, fraction: real): int
    requires d > 0.0
  {
    (reference / d).Floor + (Modulo(reference, d) / d - fraction + 0.5).Floor
  }

  lemma PlaceFrom(d: real, fraction: real, q: int, j: int, m: real)
    requires m == d * fraction + 180.0 - d * q as real
    ensures Mul(d, j as real + fraction) == Place(d, j as real, fraction) == m - 180.0 + Mul(d, (j + q) as real)
  {}

  lemma WholeZones(d: real, k: int)
    requires d > 0.0
    ensures k >= 0 ==> Mul(d, k as real) >= 0.0
    ensures k <= -2 ==> Mul(d, k as real) <= -2.0 * d
    ensures k == -1 ==> Mul(d, k as real) == -d
  {}

  /** On any code: a position is solved exactly when the latitude nearest the reference is one, and then the longitude
      is in [-180, 180) unless the reference is near the date line and the code points beyond it. */
  lemma LocalRange(fix: CprFix, odd: bool, refLat: real, refLon: real, zone: real)
    requires zone > 0.0 && -180.0 <= refLon <= 180.0
    ensures var got, dlat := CprLocal(fix, odd, refLat, refLon, zone), Width(zone, LatZones(odd));
            var lat := LocalCoordinate(refLat, dlat, Fraction(fix.lat));
            var dlon := Width(zone, LonZones(lat, odd));
            && -dlat < 2.0 * (lat - refLat) <= dlat
            && (got.Some? <==> InLatitude(lat))
            && (got.Some? && dlon <= 360.0 ==>
                  got.value.0 == lat
                  && (-180.0 <= got.value.1 < 180.0
                      <==> EastOfDateLine(dlon, Fraction(fix.lon)) <= refLon + 180.0 + dlon / 2.0))
  {
    hide Width, Fraction, LonZones, LocalCoordinate, Place, Modulo, EastOfDateLine;
    var dlat := Width(zone, LatZones(odd));
    var lat := LocalCoordinate(refLat, dlat, Fraction(fix.lat));
    LocalIsNearest(refLat, dlat, Fraction(fix.lat), 0);
    if InLatitude(lat) {
      var dlon := Width(zone, LonZones(lat, odd));
      LocalIsNearest(refLon, dlon, Fraction(fix.lon), 0);
      NearestEscapes(refLon, dlon, Fraction(fix.lon));
    }
  }

  /** A reference at least half a zone east of the date line never lets a longitude escape. */
  lemma LocalStaysInRange(fix: CprFix, odd: bool, refLat: real, refLon: real, zone: real)
    requires 0.0 < zone <= 360.0 && -180.0 + zone / 2.0 <= refLon <= 180.0
    ensures var got := CprLocal(fix, odd, refLat, refLon, zone);
            got.Some? ==> InLatitude(got.value.0) && -180.0 <= got.value.1 < 180.0
  {
    var lat := LocalCoordinate(refLat, Width(zone, LatZones(odd)), Fraction(fix.lat));
    var n := LonZones(lat, odd);
    var dlon := Width(zone, n);
    WidthShrinks(zone, n);
    EastIsWithinZone(dlon, Fraction(fix.lon));
    LocalRange(fix, odd, refLat, refLon, zone);
    hide *;
    assert EastOfDateLine(dlon, Fraction(fix.lon)) <= refLon + 180.0 + dlon / 2.0;
  }

  lemma WidthShrinks(zone: real, n: int)
    requires zone > 0.0 && n >= 1
    ensures Width(zone, n) <= zone
  {
    assert Width(zone, n) * n as real == zone;
    assert Width(zone, n) * (n - 1) as real >= 0.0;
  }

  // ---- The zone table ----

  ghost predicate Ascends(s: seq<real>) {
    forall i :: 0 < i < |s| ==> s[i - 1] < s[i]
  }

  lemma AscendsAppend(s: seq<real>, t: seq<real>)
    requires Ascends(s) && Ascends(t)
    requires s != [] && t != [] ==> s[|s| - 1] < t[0]
    ensures Ascends(s + t)
  {}

  lemma RunsAscend()
    ensures Ascends(NL_A) && Ascends(NL_B) && Ascends(NL_C) && Ascends(NL_D)
  {}

  lemma TableAscends()
    ensures Ascends(NL_BOUNDARIES)
  {
    RunsAscend();
    assert NL_A[14] < NL_B[0] && NL_B[14] < NL_C[0] && NL_C[14] < NL_D[0];
    AscendsAppend(NL_A, NL_B);
    AscendsAppend(NL_A + NL_B, NL_C);
    AscendsAppend(NL_A + NL_B + NL_C, NL_D);
  }

  lemma {:induction false} AscendsTo(s: seq<real>, i: nat, j: nat)
    requires Ascends(s) && i <= j < |s|
    ensures s[i] <= s[j]
    decreases j
  {
    if i < j {
      AscendsTo(s, i, j - 1);
    }
  }

  /** NL counts the table: it is 59 less the number of boundaries at or below the latitude,
      so it is even in the latitude and never grows towards a pole. */
  lemma NlCountsBoundaries(lat: real, i: nat)
    requires i < 58
    ensures NL_BOUNDARIES[i] <= Abs(lat) <==> i < 59 - CprNl(lat)
  {
    var z := FirstAbove(NL_BOUNDARIES, Abs(lat), 0);
    if z <= i {
      TableAscends();
      AscendsTo(NL_BOUNDARIES, z, i);
    }
  }

  lemma NlAntitone(a: real, b: real)
    requires Abs(a) <= Abs(b)
    ensures CprNl(b) <= CprNl(a)
  {
    var i := 59 - CprNl(a);
    if 0 < i {
      NlCountsBoundaries(a, i - 1);
      NlCountsBoundaries(b, i - 1);
    }
  }

  /** A latitude whose even and odd encodings fall on either side of the last zone boundary: no longitude solves it. */
  lemma StraddlingFails(lon: real, latestOdd: bool, evenAt: nat, oddAt: nat)
    ensures CprGlobal(EncodedFix(86.999978, lon, false, AIRBORNE_ZONE, evenAt),
                      EncodedFix(86.999978, lon, true, AIRBORNE_ZONE, oddAt), latestOdd) == None
  {
    StraddlingLatitudes();
    NlCountsBoundaries(SnappedLat(86.999978, false), 57);
    NlCountsBoundaries(SnappedLat(86.999978, true), 57);
    assert NL_BOUNDARIES[57] == 87.0;
    hide CprNl, CprGlobal, EncodedFix, SnappedLat, NL_BOUNDARIES;
    var turns := GlobalRoundTrip(86.999978, lon, latestOdd, evenAt, oddAt);
  }

  lemma StraddlingLatitudes()
    ensures SnappedLat(86.999978, false) == 87.0
    ensures 86.9 < SnappedLat(86.999978, true) < 87.0
  {
    FloorOf(131072.0 * (86.999978 / 6.0) + 0.5, 1900544);
    assert Grid(86.999978, Width(360.0, 60)) == 1900544;
    FloorOf(131072.0 * (86.999978 / (360.0 / 59.0)) + 0.5, 1868868);
    assert Grid(86.999978, Width(360.0, 59)) == 1868868;
    hide Grid;
  }

  /** The wrap is one-sided: this fix near the pole comes out at 225 degrees west. */
  lemma LocalLongitudeEscapes()
    ensures CprLocal(CprFix(98304, 49152, 0), false, 88.5, -180.0, AIRBORNE_ZONE) == Some((88.5, -225.0))
  {
    NlCountsBoundaries(88.5, 57);
    assert NL_BOUNDARIES[57] == 87.0;
    assert LonZones(88.5, false) == 1;
    NearPole();
    hide CprNl, LonZones, LocalCoordinate, NL_BOUNDARIES;
    assert Fraction(98304) == 0.75 && Fraction(49152) == 0.375 && Width(360.0, 60) == 6.0 && Width(360.0, 1) == 360.0;
  }

  lemma NearPole()
    ensures LocalCoordinate(88.5, 6.0, 0.75) == 88.5 && LocalCoordinate(-180.0, 360.0, 0.375) == -225.0
  {
    FloorOf(14.75, 14);
    assert Modulo(88.5, 6.0) == 4.5;
    FloorOf(0.5, 0);
    FloorOf(-0.5, -1);
    assert Modulo(-180.0, 360.0) == 180.0;
    FloorOf(0.625, 0);
    hide Modulo;
  }
}
