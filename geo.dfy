/** `get_dist_between` and its memo `get_geo_ip` (utils.py). The module-level dictionary
    `GEO_DATA` becomes the field of a `GeoCache` object, keyed by request URL. The answers
    ip-api.com would give, the clock readings `time.time()` would return and the haversine
    computation are inputs: the network and floating-point trigonometry are not modelled.
    `Infinite` is the `float('inf')` every failure turns into. */
module Geo {

  import opened Wrappers

  const IpApi: string := "http://ip-api.com/json/"

  /** `f'{IP_API}{ip}'` */
  function Url(ip: string): string
  {
    IpApi + ip
  }

  /** What `GEO_DATA` holds for a URL: latitude, longitude and the `time.time()` of the fetch. */
  datatype GeoEntry = GeoEntry(lat: real, lon: real, ts: real)

  /** The decoded JSON answer of the API; a field absent from the object is `None`. */
  datatype ApiReply = ApiReply(status: string, lat: Option<real>, lon: Option<real>)

  /** The outcome of one `get_geo_ip` call: a location, the `None` it returns for an
      unsuccessful status, or an exception that escapes to `get_dist_between`'s handler. */
  datatype Lookup = Located(entry: GeoEntry) | NoLocation | Raised

  datatype Distance = Finite(meters: real) | Infinite

  /** An answer `get_geo_ip` can store: status `"success"` with both coordinates present. */
  predicate Usable(reply: Option<ApiReply>)
  {
    reply.Some? && reply.value.status == "success" && reply.value.lat.Some? && reply.value.lon.Some?
  }

  /** The result of `get_geo_ip(url)` against the memo `data`. `reply` is what the API would
      answer (`None` when `urlopen` or the JSON decoding raises) and `now` what `time.time()`
      would read; neither is consulted when `url` is already in the memo. On a hit whose
      time stamp exceeds 3600, `GEO_DATA.pop(ts)` looks up a number among URL keys and raises
      `KeyError`. */
  function LookupOf(data: map<string, GeoEntry>, url: string, reply: Option<ApiReply>, now: real)
    : (r: Lookup)
    ensures url in data ==> r == (if data[url].ts > 3600.0 then Raised else Located(data[url]))
    ensures url !in data && reply.None? ==> r == Raised
    ensures url !in data && reply.Some? && reply.value.status != "success" ==> r == NoLocation
    ensures url !in data && Usable(reply) ==>
              r == Located(GeoEntry(reply.value.lat.value, reply.value.lon.value, now))
    ensures url !in data && reply.Some? && reply.value.status == "success" && !Usable(reply) ==>
              r == Raised
    ensures url !in data && r.Located? ==>
              r.entry.ts == now && reply.Some? && reply.value.status == "success"
              && reply.value.lat == Some(r.entry.lat) && reply.value.lon == Some(r.entry.lon)
  {
    if url in data then
      var e := data[url];
      if e.ts > 3600.0 then Raised else Located(e)
    else
      match reply
      case None => Raised
      case Some(a) =>
        if a.status != "success" then NoLocation
        else if a.lat.None? || a.lon.None? then Raised
        else Located(GeoEntry(a.lat.value, a.lon.value, now))
  }

  /** The memo after `get_geo_ip(url)`: only a successful fetch stores anything, and it
      stores exactly what it returns. */
  function StoreAfter(data: map<string, GeoEntry>, url: string, reply: Option<ApiReply>, now: real)
    : (r: map<string, GeoEntry>)
    ensures url !in data && Usable(reply) ==>
              r == data[url := GeoEntry(reply.value.lat.value, reply.value.lon.value, now)]
    ensures url in data || !Usable(reply) ==> r == data
  {
    if url !in data && LookupOf(data, url, reply, now).Located? then
      data[url := LookupOf(data, url, reply, now).entry]
    else data
  }

  /** The distance `get_dist_between(ip1, ip2)` returns. The second lookup happens only when
      the first one produced a location, against the memo the first one left. `haversine`
      is the computation on the two coordinates; `None` is an exception such as the math
      domain error of `math.sqrt(1 - a)`. */
  function DistanceOf(data: map<string, GeoEntry>, ip1: string, ip2: string,
                      reply1: Option<ApiReply>, now1: real, reply2: Option<ApiReply>, now2: real,
                      haversine: (real, real, real, real) -> Option<real>): (r: Distance)
    ensures !LookupOf(data, Url(ip1), reply1, now1).Located? ==> r == Infinite
    ensures r.Finite? ==>
              var l1 := LookupOf(data, Url(ip1), reply1, now1);
              var l2 := LookupOf(StoreAfter(data, Url(ip1), reply1, now1), Url(ip2), reply2, now2);
              l1.Located? && l2.Located?
              && haversine(l1.entry.lat, l1.entry.lon, l2.entry.lat, l2.entry.lon) == Some(r.meters)
  {
    var l1 := LookupOf(data, Url(ip1), reply1, now1);
    if !l1.Located? then Infinite
    else
      var l2 := LookupOf(StoreAfter(data, Url(ip1), reply1, now1), Url(ip2), reply2, now2);
      if !l2.Located? then Infinite
      else
        match haversine(l1.entry.lat, l1.entry.lon, l2.entry.lat, l2.entry.lon)
        case None => Infinite
        case Some(m) => Finite(m)
  }

  /** The memo after `get_dist_between(ip1, ip2)`. */
  function StoreAfterDistance(data: map<string, GeoEntry>, ip1: string, ip2: string,
                              reply1: Option<ApiReply>, now1: real,
                              reply2: Option<ApiReply>, now2: real): (r: map<string, GeoEntry>)
    ensures data.Keys <= r.Keys <= data.Keys + {Url(ip1), Url(ip2)}
    ensures forall k :: k in data ==> r[k] == data[k]
    ensures !LookupOf(data, Url(ip1), reply1, now1).Located? ==> r == data
  {
    var data1 := StoreAfter(data, Url(ip1), reply1, now1);
    if !LookupOf(data, Url(ip1), reply1, now1).Located? then data1
    else StoreAfter(data1, Url(ip2), reply2, now2)
  }

  class GeoCache {
    var data: map<string, GeoEntry>

    constructor ()
      ensures data == map[]
    {
      data := map[];
    }

    method GetGeoIp(url: string, reply: Option<ApiReply>, now: real) returns (r: Lookup)
      modifies this
      ensures r == LookupOf(old(data), url, reply, now)
      ensures data == StoreAfter(old(data), url, reply, now)
    {
      if url in data {
        var e := data[url];
        if e.ts > 3600.0 {
          // GEO_DATA.pop(ts): the key is a time stamp, never a URL
          r := Raised;
          return;
        }
        r := Located(e);
        return;
      }
      if reply.None? {
        r := Raised;
        return;
      }
      var a := reply.value;
      if a.status == "success" {
        if a.lat.None? || a.lon.None? {
          r := Raised;
          return;
        }
        var result := GeoEntry(a.lat.value, a.lon.value, now);
        data := data[url := result];
        r := Located(result);
      } else {
        r := NoLocation;
      }
    }

    method GetDistBetween(ip1: string, ip2: string,
                          reply1: Option<ApiReply>, now1: real,
                          reply2: Option<ApiReply>, now2: real,
                          haversine: (real, real, real, real) -> Option<real>)
      returns (d: Distance)
      modifies this
      ensures d == DistanceOf(old(data), ip1, ip2, reply1, now1, reply2, now2, haversine)
      ensures data == StoreAfterDistance(old(data), ip1, ip2, reply1, now1, reply2, now2)
    {
      var data1 := GetGeoIp(Url(ip1), reply1, now1);
      if !data1.Located? {
        return Infinite;
      }
      var data2 := GetGeoIp(Url(ip2), reply2, now2);
      if !data2.Located? {
        return Infinite;
      }
      var m := haversine(data1.entry.lat, data1.entry.lon, data2.entry.lat, data2.entry.lon);
      if m.None? {
        return Infinite;
      }
      d := Finite(m.value);
    }
  }

  /** A lookup never removes or alters an entry: the memo only grows, and only at `url`. */
  lemma StoreOnlyGrows(data: map<string, GeoEntry>, url: string, reply: Option<ApiReply>, now: real)
    ensures var r := StoreAfter(data, url, reply, now);
      data.Keys <= r.Keys && r.Keys <= data.Keys + {url}
      && forall k :: k in data ==> r[k] == data[k]
  {
  }

  /** What the memo holds after a lookup is what that lookup returned. */
  lemma StoredIsReturned(data: map<string, GeoEntry>, url: string, reply: Option<ApiReply>, now: real)
    ensures var l := LookupOf(data, url, reply, now);
      url in StoreAfter(data, url, reply, now) <==> url in data || l.Located?
    ensures (url !in data && LookupOf(data, url, reply, now).Located?) ==>
              StoreAfter(data, url, reply, now)[url] == LookupOf(data, url, reply, now).entry
  {
  }

  /** A URL already in the memo is answered without the network and without a clock. */
  lemma HitIgnoresNetwork(data: map<string, GeoEntry>, url: string,
                          reply1: Option<ApiReply>, now1: real, reply2: Option<ApiReply>, now2: real)
    requires url in data
    ensures LookupOf(data, url, reply1, now1) == LookupOf(data, url, reply2, now2)
    ensures StoreAfter(data, url, reply1, now1) == data
  {
  }

  /** Once a URL has been fetched at a time past 3600 (every real clock reading), every later
      lookup of it raises: the memo turns a located address into the infinite sentinel. */
  lemma RepeatLookupRaises(data: map<string, GeoEntry>, url: string,
                           reply1: Option<ApiReply>, now1: real, reply2: Option<ApiReply>, now2: real)
    requires url !in data && LookupOf(data, url, reply1, now1).Located?
    requires now1 > 3600.0
    ensures LookupOf(StoreAfter(data, url, reply1, now1), url, reply2, now2) == Raised
  {
  }

  /** `get_dist_between` is finite exactly when both lookups located their address and the
      haversine computation did not raise, and then it is what the computation produced. */
  lemma FiniteExactly(data: map<string, GeoEntry>, ip1: string, ip2: string,
                      reply1: Option<ApiReply>, now1: real, reply2: Option<ApiReply>, now2: real,
                      haversine: (real, real, real, real) -> Option<real>, m: real)
    ensures DistanceOf(data, ip1, ip2, reply1, now1, reply2, now2, haversine) == Finite(m)
      <==> var l1 := LookupOf(data, Url(ip1), reply1, now1);
           var l2 := LookupOf(StoreAfter(data, Url(ip1), reply1, now1), Url(ip2), reply2, now2);
           l1.Located? && l2.Located?
           && haversine(l1.entry.lat, l1.entry.lon, l2.entry.lat, l2.entry.lon) == Some(m)
  {
  }

  /** The distance from an address not yet in the memo to itself, fetched at any real clock
      reading, is infinite: the second lookup hits the entry the first one stored. */
  lemma SameAddressIsInfinite(data: map<string, GeoEntry>, ip: string,
                              reply1: Option<ApiReply>, now1: real, reply2: Option<ApiReply>, now2: real,
                              haversine: (real, real, real, real) -> Option<real>)
    requires Url(ip) !in data
    requires now1 > 3600.0
    ensures DistanceOf(data, ip, ip, reply1, now1, reply2, now2, haversine) == Infinite
  {
    if LookupOf(data, Url(ip), reply1, now1).Located? {
      RepeatLookupRaises(data, Url(ip), reply1, now1, reply2, now2);
    }
  }

  /** Addresses whose entries carry time stamps of at most 3600 are served from the memo:
      the distance depends only on the stored coordinates, and the memo is left as it was. */
  lemma CachedDistance(data: map<string, GeoEntry>, ip1: string, ip2: string,
                       reply1: Option<ApiReply>, now1: real, reply2: Option<ApiReply>, now2: real,
                       haversine: (real, real, real, real) -> Option<real>)
    requires Url(ip1) in data && data[Url(ip1)].ts <= 3600.0
    requires Url(ip2) in data && data[Url(ip2)].ts <= 3600.0
    ensures var e1 := data[Url(ip1)];
      var e2 := data[Url(ip2)];
      DistanceOf(data, ip1, ip2, reply1, now1, reply2, now2, haversine)
        == match haversine(e1.lat, e1.lon, e2.lat, e2.lon)
           case None => Infinite
           case Some(m) => Finite(m)
    ensures StoreAfterDistance(data, ip1, ip2, reply1, now1, reply2, now2) == data
  {
  }

  /** Any failure of the first lookup makes the distance infinite whatever the second
      address, and it leaves the memo as it was. */
  lemma FirstFailureShortCircuits(data: map<string, GeoEntry>, ip1: string, ip2: string,
                                  reply1: Option<ApiReply>, now1: real,
                                  reply2: Option<ApiReply>, now2: real,
                                  haversine: (real, real, real, real) -> Option<real>)
    requires !LookupOf(data, Url(ip1), reply1, now1).Located?
    ensures DistanceOf(data, ip1, ip2, reply1, now1, reply2, now2, haversine) == Infinite
    ensures StoreAfterDistance(data, ip1, ip2, reply1, now1, reply2, now2) == data
  {
  }
}
