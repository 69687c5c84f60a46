/**
 * The `/geo` endpoint of the geolocation server: normalising the
 * connection's IP address, choosing the address to look up, and shaping the
 * database record into the JSON response.
 *
 * The database lookup is a parameter (`lookup`), returning a record, no
 * record, or a thrown error. Express, the proxy-aware `req.ip` and the
 * database opening at startup are not part of this model.
 */
module GeoLookup {
  import opened Wrappers
  import opened Strings

  /** The prefix of an IPv4-mapped IPv6 address. */
  const MappedPrefix: string := "::ffff:"
  const Loopback6: string := "::1"
  const Loopback4: string := "127.0.0.1"
  const CouldNotDetermineIp: string := "Could not determine IP"
  const NoDataMessage: string := "No data for this IP in DB"

  /** JavaScript truthiness of a possibly-absent string: present and non-empty. */
  predicate Truthy(v: Option<string>) {
    v.Some? && v.value != []
  }

  /**
   * `normalizeIP`: a falsy address gives null; otherwise the zone id (from the
   * first `%`) is cut off, an IPv4-mapped address is unwrapped to the second
   * piece of `split('::ffff:')`, and `::1` becomes `127.0.0.1`.
   */
  function NormalizeIP(ip: Option<string>): (r: Option<string>)
    ensures r.None? <==> !Truthy(ip)
  {
    if !Truthy(ip) then None
    else
      var percentIndex := IndexOf(ip.value, "%", 0);
      var unzoned := if percentIndex != -1 then ip.value[..percentIndex] else ip.value;
      if StartsWith(unzoned, MappedPrefix) then Some(Split(unzoned, MappedPrefix)[1])
      else if unzoned == Loopback6 then Some(Loopback4)
      else Some(unzoned)
  }

  /** Cutting at the first `%` leaves no `%`. */
  lemma UnzonedHasNoPercent(s: string)
    ensures var i := IndexOf(s, "%", 0);
            '%' !in (if i != -1 then s[..i] else s)
  {
    IndexOfChar(s, '%');
  }

  /** A normalised address never contains `%`. */
  lemma NormalizedHasNoPercent(ip: Option<string>)
    ensures NormalizeIP(ip).Some? ==> '%' !in NormalizeIP(ip).value
  {
    if Truthy(ip) {
      var s := ip.value;
      var i := IndexOf(s, "%", 0);
      var unzoned := if i != -1 then s[..i] else s;
      UnzonedHasNoPercent(s);
      if StartsWith(unzoned, MappedPrefix) {
        var pieces := Split(unzoned, MappedPrefix);
        if '%' in pieces[1] {
          CharsOfPieceInJoin(pieces, MappedPrefix, 1, '%');
        }
      }
    }
  }

  /** The first `%` of `a + "%" + z` is the one after `a` when `a` has none. */
  lemma FirstPercentAt(a: string, z: string)
    requires '%' !in a
    ensures IndexOf(a + "%" + z, "%", 0) == |a|
    ensures (a + "%" + z)[..|a|] == a
  {
    var s := a + "%" + z;
    IndexOfChar(s, '%');
    var i := IndexOf(s, "%", 0);
    assert s[|a|] == '%';
    assert s[..|a|] == a;
  }

  /** Everything from the first `%` on is discarded before any other rule applies. */
  lemma ZoneDiscarded(a: string, z: string)
    requires a != [] && '%' !in a
    ensures NormalizeIP(Some(a + "%" + z)) == NormalizeIP(Some(a))
  {
    FirstPercentAt(a, z);
    IndexOfChar(a, '%');
  }

  /** A zone id alone (`%eth0`) normalises to the empty string, not to null. */
  lemma ZoneOnlyIsEmpty(z: string)
    ensures NormalizeIP(Some("%" + z)) == Some([])
  {
    FirstPercentAt([], z);
  }

  /** `::ffff:` + X yields exactly X when X has no `%` and no further `::ffff:`, with or without a zone. */
  lemma MappedUnwrapped(x: string, z: string)
    requires '%' !in x && !Contains(x, MappedPrefix)
    ensures NormalizeIP(Some(MappedPrefix + x)) == Some(x)
    ensures NormalizeIP(Some(MappedPrefix + x + "%" + z)) == Some(x)
  {
    var s := MappedPrefix + x;
    IndexOfChar(s, '%');
    assert '%' !in s;
    assert StartsWith(s, MappedPrefix);
    assert MatchesAt(s, MappedPrefix, 0);
    var n := |MappedPrefix|;
    var next := IndexOf(s, MappedPrefix, n);
    if next != -1 {
      assert s[next..next + n] == x[next - n..next];
      assert MatchesAt(x, MappedPrefix, next - n);
    }
    assert s[n..] == x;
    assert SplitFrom(s, MappedPrefix, n) == [x];
    ZoneDiscarded(s, z);
  }

  /** `::1`, with or without a zone, becomes `127.0.0.1`. */
  lemma LoopbackMapped(z: string)
    ensures NormalizeIP(Some(Loopback6)) == Some(Loopback4)
    ensures NormalizeIP(Some(Loopback6 + "%" + z)) == Some(Loopback4)
  {
    IndexOfChar(Loopback6, '%');
    ZoneDiscarded(Loopback6, z);
  }

  /** Any other address without a zone is returned unchanged. */
  lemma OtherAddressUnchanged(s: string)
    requires s != [] && '%' !in s && !StartsWith(s, MappedPrefix) && s != Loopback6
    ensures NormalizeIP(Some(s)) == Some(s)
  {
    IndexOfChar(s, '%');
  }

  /**
   * Normalisation is not idempotent: `::ffff:::1` becomes `::1`, which a
   * second pass would turn into `127.0.0.1`.
   */
  lemma NotIdempotent()
    ensures NormalizeIP(Some("::ffff:::1")) == Some(Loopback6)
    ensures NormalizeIP(NormalizeIP(Some("::ffff:::1"))) == Some(Loopback4)
  {
    assert |Loopback6| < |MappedPrefix|;
    assert !Contains(Loopback6, MappedPrefix);
    assert '%' !in Loopback6;
    MappedUnwrapped(Loopback6, []);
    assert MappedPrefix + Loopback6 == "::ffff:::1";
    LoopbackMapped([]);
  }

  /**
   * Only the text up to the next `::ffff:` survives: for an X without `:`,
   * `::ffff:` + X + `::ffff:` + Y becomes X (so `::ffff:a::ffff:b` becomes `a`).
   */
  lemma MappedStopsAtNextPrefix(x: string, y: string)
    requires ':' !in x && '%' !in x && '%' !in y
    ensures NormalizeIP(Some(MappedPrefix + x + MappedPrefix + y)) == Some(x)
  {
    var s := MappedPrefix + x + MappedPrefix + y;
    var n, m := |MappedPrefix|, |MappedPrefix| + |x|;
    IndexOfChar(s, '%');
    assert '%' !in s;
    assert s[..n] == MappedPrefix;
    assert MatchesAt(s, MappedPrefix, 0);
    assert s[m..m + n] == MappedPrefix;
    assert MatchesAt(s, MappedPrefix, m);
    forall k: nat | n <= k < m
      ensures !MatchesAt(s, MappedPrefix, k)
    {
      assert s[k] == x[k - n];
    }
    assert IndexOf(s, MappedPrefix, n) == m;
    assert s[n..m] == x;
    assert SplitFrom(s, MappedPrefix, n)[0] == x;
  }

  /** The instance `::ffff:a::ffff:b`, which normalises to `a`. */
  lemma MappedStopsExample()
    ensures NormalizeIP(Some("::ffff:a::ffff:b")) == Some("a")
  {
    MappedStopsAtNextPrefix("a", "b");
    assert MappedPrefix + "a" + MappedPrefix + "b" == "::ffff:a::ffff:b";
  }

  // ----- the database record, as the lookup returns it -----

  /** Localised names; only the English one is read. */
  datatype Names = Names(en: Option<string>)
  datatype Country = Country(isoCode: Option<string>, names: Option<Names>)
  datatype Subdivision = Subdivision(isoCode: Option<string>, names: Option<Names>)
  datatype City = City(names: Option<Names>)
  /** Coordinates are copied, never computed with; `metroCode` stands for the fields the response drops. */
  datatype Location = Location(latitude: Option<real>, longitude: Option<real>, timeZone: Option<string>,
                               accuracyRadius: Option<int>, metroCode: Option<int>)
  datatype GeoRecord = GeoRecord(country: Option<Country>, subdivisions: Option<seq<Subdivision>>,
                                 city: Option<City>, location: Option<Location>)

  /** What one database lookup does: return a record, return nothing, or throw. */
  datatype LookupOutcome = Found(record: GeoRecord) | Absent | Threw

  /** The `location` object of a response. */
  datatype LocationView = LocationView(latitude: Option<real>, longitude: Option<real>,
                                       timeZone: Option<string>, accuracyRadius: Option<int>)

  /** The three responses of `/geo`. */
  datatype GeoResponse =
    | BadRequest(error: string)
    | NoData(ip: string, message: string)
    | Located(ip: string, country: Option<string>, region: Option<string>, city: Option<string>,
              location: Option<LocationView>, raw: GeoRecord)

  /** HTTP status of a response. */
  function StatusCode(r: GeoResponse): (code: int)
    ensures code == 400 <==> r.BadRequest?
    ensures code == 200 || code == 400
  {
    if r.BadRequest? then 400 else 200
  }

  /** `names?.en` */
  function EnglishName(names: Option<Names>): Option<string> {
    if names.Some? then names.value.en else None
  }

  /**
   * The chain `a || b || ... || null`: the first candidate that is a
   * non-empty string, or null when there is none.
   */
  function FirstTruthy(candidates: seq<Option<string>>): (r: Option<string>)
    ensures r.None? <==> forall i :: 0 <= i < |candidates| ==> !Truthy(candidates[i])
    ensures r.Some? ==> exists i :: 0 <= i < |candidates| && candidates[i] == r &&
                          forall j :: 0 <= j < i ==> !Truthy(candidates[j])
    ensures r.Some? ==> r.value != []
  {
    if candidates == [] then None
    else if Truthy(candidates[0]) then candidates[0]
    else
      var r := FirstTruthy(candidates[1..]);
      assert forall i :: 0 <= i < |candidates[1..]| ==> candidates[1..][i] == candidates[i + 1];
      r
  }

  /** `a || b || null` picks `a` when it is a non-empty string, else `b` when it is, else null. */
  lemma FirstTruthyOfTwo(a: Option<string>, b: Option<string>)
    ensures Truthy(a) ==> FirstTruthy([a, b]) == a
    ensures !Truthy(a) && Truthy(b) ==> FirstTruthy([a, b]) == b
    ensures !Truthy(a) && !Truthy(b) ==> FirstTruthy([a, b]) == None
  {
    assert [a, b][1..] == [b];
  }

  /** `info.country?.names?.en || info.country?.iso_code || null` */
  function CountryName(rec: GeoRecord): (r: Option<string>)
    ensures var en := if rec.country.Some? then EnglishName(rec.country.value.names) else None;
            var iso := if rec.country.Some? then rec.country.value.isoCode else None;
            && (Truthy(en) ==> r == en)
            && (!Truthy(en) && Truthy(iso) ==> r == iso)
            && (!Truthy(en) && !Truthy(iso) ==> r == None)
  {
    var en := if rec.country.Some? then EnglishName(rec.country.value.names) else None;
    var iso := if rec.country.Some? then rec.country.value.isoCode else None;
    FirstTruthyOfTwo(en, iso);
    FirstTruthy([en, iso])
  }

  /** `info.subdivisions?.[0]`: the first subdivision, if there is one. */
  function FirstSubdivision(rec: GeoRecord): Option<Subdivision> {
    if rec.subdivisions.Some? && |rec.subdivisions.value| > 0 then Some(rec.subdivisions.value[0]) else None
  }

  /** `(info.subdivisions && info.subdivisions[0]?.names?.en) || info.subdivisions?.[0]?.iso_code || null` */
  function RegionName(rec: GeoRecord): (r: Option<string>)
    ensures var sub := FirstSubdivision(rec);
            var en := if sub.Some? then EnglishName(sub.value.names) else None;
            var iso := if sub.Some? then sub.value.isoCode else None;
            && (Truthy(en) ==> r == en)
            && (!Truthy(en) && Truthy(iso) ==> r == iso)
            && (!Truthy(en) && !Truthy(iso) ==> r == None)
    ensures r.Some? ==> rec.subdivisions.Some? && |rec.subdivisions.value| > 0
  {
    var sub := FirstSubdivision(rec);
    var en := if rec.subdivisions.Some? && sub.Some? then EnglishName(sub.value.names) else None;
    var iso := if sub.Some? then sub.value.isoCode else None;
    FirstTruthyOfTwo(en, iso);
    FirstTruthy([en, iso])
  }

  /** `info.city?.names?.en || null` */
  function CityName(rec: GeoRecord): (r: Option<string>)
    ensures r.Some? <==> rec.city.Some? && Truthy(EnglishName(rec.city.value.names))
    ensures r.Some? ==> r == rec.city.value.names.value.en
  {
    FirstTruthy([if rec.city.Some? then EnglishName(rec.city.value.names) else None])
  }

  /** `info.location ? { latitude, longitude, time_zone, accuracy_radius } : null` */
  function LocationOf(rec: GeoRecord): (r: Option<LocationView>)
    ensures r.None? <==> rec.location.None?
    ensures r.Some? ==> var l := rec.location.value;
              r.value == LocationView(l.latitude, l.longitude, l.timeZone, l.accuracyRadius)
  {
    match rec.location
    case None => None
    case Some(l) => Some(LocationView(l.latitude, l.longitude, l.timeZone, l.accuracyRadius))
  }

  /**
   * The `/geo` handler. A non-empty `?ip=` is used verbatim; otherwise the
   * normalised connection address. No usable address gives 400; a lookup
   * that finds nothing or throws gives `found: false`; a record gives
   * `found: true` with the friendly fields and the record itself.
   */
  function HandleGeo(rawIp: Option<string>, queryIp: Option<string>, lookup: string -> LookupOutcome): (resp: GeoResponse)
    ensures resp.BadRequest? <==> !Truthy(queryIp) && !Truthy(NormalizeIP(rawIp))
    ensures resp.BadRequest? ==> resp.error == CouldNotDetermineIp
    ensures Truthy(queryIp) ==> !resp.BadRequest? && resp.ip == queryIp.value
    ensures !Truthy(queryIp) && !resp.BadRequest? ==> resp.ip == NormalizeIP(rawIp).value
    ensures resp.NoData? <==> !resp.BadRequest? && !lookup(resp.ip).Found?
    ensures resp.NoData? ==> resp.message == NoDataMessage
    ensures resp.Located? ==> && lookup(resp.ip) == Found(resp.raw)
                              && resp.country == CountryName(resp.raw)
                              && resp.region == RegionName(resp.raw)
                              && resp.city == CityName(resp.raw)
                              && resp.location == LocationOf(resp.raw)
  {
    var ip := NormalizeIP(rawIp);
    var lookupIp := if Truthy(queryIp) then queryIp else ip;
    if !Truthy(lookupIp) then BadRequest(CouldNotDetermineIp)
    else
      var info := lookup(lookupIp.value);
      match info
      case Absent => NoData(lookupIp.value, NoDataMessage)
      case Threw => NoData(lookupIp.value, NoDataMessage)
      case Found(rec) =>
        Located(lookupIp.value, CountryName(rec), RegionName(rec), CityName(rec), LocationOf(rec), rec)
  }

  /** A lookup that throws is answered exactly like one that finds nothing. */
  lemma ThrowLikeAbsent(rawIp: Option<string>, queryIp: Option<string>,
                        lookup1: string -> LookupOutcome, lookup2: string -> LookupOutcome)
    requires forall x :: lookup1(x).Found? == lookup2(x).Found?
    requires forall x :: lookup1(x).Found? ==> lookup1(x) == lookup2(x)
    ensures HandleGeo(rawIp, queryIp, lookup1) == HandleGeo(rawIp, queryIp, lookup2)
  {
  }

  /** The override is not normalised: `?ip=::1` is looked up as `::1`. */
  lemma OverrideNotNormalized(rawIp: Option<string>, lookup: string -> LookupOutcome)
    ensures HandleGeo(rawIp, Some(Loopback6), lookup).ip == Loopback6
    ensures NormalizeIP(Some(Loopback6)) != Some(Loopback6)
  {
    LoopbackMapped([]);
  }

  /**
   * Without an override, a connection address that normalises to the empty
   * string (`::ffff:` alone, or a zone id alone such as `%eth0`) is answered
   * with 400.
   */
  lemma EmptyNormalizationIsBadRequest(queryIp: Option<string>, z: string, lookup: string -> LookupOutcome)
    requires !Truthy(queryIp)
    ensures HandleGeo(Some(MappedPrefix), queryIp, lookup) == BadRequest(CouldNotDetermineIp)
    ensures HandleGeo(Some("%" + z), queryIp, lookup) == BadRequest(CouldNotDetermineIp)
  {
    assert !Contains([], MappedPrefix);
    MappedUnwrapped([], []);
    assert MappedPrefix + [] == MappedPrefix;
    ZoneOnlyIsEmpty(z);
  }
}
