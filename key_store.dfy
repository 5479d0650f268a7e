/**
 * The two-level key store of `GrailRepository`: a sequence of region
 * buckets, each mapping site names to key handles.  The functions here say
 * what the store should be after `generateKey` and `deleteKey` and what
 * `get` should return; the methods of the repository class are proved
 * against them.  Key handles are a type parameter.
 */
module KeyStore {
  import opened Wrappers

  /** One region and the keys of its sites (`std::pair<std::string,
      std::unordered_map<std::string, AESEncDec*>>` in the source). */
  datatype Bucket<K> = Bucket(region: string, sites: map<string, K>)

  /** No two buckets are named after the same region. */
  predicate UniqueRegions<K>(s: seq<Bucket<K>>)
  {
    forall i, j :: 0 <= i < j < |s| ==> s[i].region != s[j].region
  }

  /** The first bucket named `region`, if any. */
  function RegionIndex<K>(s: seq<Bucket<K>>, region: string): (r: Option<nat>)
    ensures r.Some? ==> r.value < |s| && s[r.value].region == region
    ensures r.Some? ==> forall i :: 0 <= i < r.value ==> s[i].region != region
    ensures r.None? <==> forall i :: 0 <= i < |s| ==> s[i].region != region
  {
    if s == [] then None
    else if s[0].region == region then Some(0)
    else match RegionIndex(s[1..], region)
      case None => None
      case Some(i) => Some(i + 1)
  }

  /** The first bucket that holds a key for `site`, if any. */
  function SiteIndex<K>(s: seq<Bucket<K>>, site: string): (r: Option<nat>)
    ensures r.Some? ==> r.value < |s| && site in s[r.value].sites
    ensures r.Some? ==> forall i :: 0 <= i < r.value ==> site !in s[i].sites
    ensures r.None? <==> forall i :: 0 <= i < |s| ==> site !in s[i].sites
  {
    if s == [] then None
    else if site in s[0].sites then Some(0)
    else match SiteIndex(s[1..], site)
      case None => None
      case Some(i) => Some(i + 1)
  }

  /** What `get` finds: the key of `site` in the first bucket named
      `region`, or nothing (the source's null key) when there is no such
      bucket or it holds no key for the site. */
  function Lookup<K>(s: seq<Bucket<K>>, region: string, site: string): Option<K>
  {
    match RegionIndex(s, region)
    case None => None
    case Some(i) => if site in s[i].sites then Some(s[i].sites[site]) else None
  }

  /** The store after `generateKey`: the first bucket named `region` maps
      `site` to `key`; when there is none, a bucket for the region holding
      just that key is appended. */
  function WithKey<K>(s: seq<Bucket<K>>, region: string, site: string, key: K): seq<Bucket<K>>
  {
    match RegionIndex(s, region)
    case Some(i) => s[i := Bucket(region, s[i].sites[site := key])]
    case None => s + [Bucket(region, map[site := key])]
  }

  /** The store after `deleteKey`: the key of `site` is erased from the
      first bucket that holds one; nothing when no bucket does. */
  function WithoutSite<K>(s: seq<Bucket<K>>, site: string): Option<seq<Bucket<K>>>
  {
    match SiteIndex(s, site)
    case None => None
    case Some(i) => Some(s[i := Bucket(s[i].region, s[i].sites - {site})])
  }

  // ---------------------------------------------------------------------
  // Properties
  // ---------------------------------------------------------------------

  /** Two stores with the same regions in the same order agree on where
      each region is first found. */
  lemma {:induction false} RegionIndexSameRegions<K>(s: seq<Bucket<K>>, t: seq<Bucket<K>>, region: string)
    requires |s| == |t|
    requires forall i :: 0 <= i < |s| ==> s[i].region == t[i].region
    ensures RegionIndex(s, region) == RegionIndex(t, region)
  {
    if s != [] && s[0].region != region {
      RegionIndexSameRegions(s[1..], t[1..], region);
    }
  }

  /** Appending a bucket for another region does not move where a region
      is first found. */
  lemma {:induction false} RegionIndexAppend<K>(s: seq<Bucket<K>>, b: Bucket<K>, region: string)
    requires RegionIndex(s, region).Some? || b.region != region
    ensures RegionIndex(s + [b], region) == RegionIndex(s, region)
  {
    if s != [] && s[0].region != region {
      assert (s + [b])[1..] == s[1..] + [b];
      RegionIndexAppend(s[1..], b, region);
    }
  }

  /** generateKey adds a bucket only for a region that has none, and never
      renames or drops one: the regions before are the regions after, with
      at most the new one appended at the end. */
  lemma WithKeyRegions<K>(s: seq<Bucket<K>>, region: string, site: string, key: K)
    ensures var r := WithKey(s, region, site, key);
            |r| == (if RegionIndex(s, region).Some? then |s| else |s| + 1) &&
            (forall i :: 0 <= i < |s| ==> r[i].region == s[i].region) &&
            (|r| > |s| ==> r[|s|].region == region && forall i :: 0 <= i < |s| ==> s[i].region != region)
  {
  }

  /** generateKey keeps region names unique. */
  lemma WithKeyUnique<K>(s: seq<Bucket<K>>, region: string, site: string, key: K)
    requires UniqueRegions(s)
    ensures UniqueRegions(WithKey(s, region, site, key))
  {
    WithKeyRegions(s, region, site, key);
  }

  /** After generateKey, `get` finds the new key under its region and site
      and finds every other key (and every absence) as before. */
  lemma LookupWithKey<K>(s: seq<Bucket<K>>, region: string, site: string, key: K, a: string, n: string)
    ensures Lookup(WithKey(s, region, site, key), a, n) ==
            if a == region && n == site then Some(key) else Lookup(s, a, n)
  {
    var r := WithKey(s, region, site, key);
    match RegionIndex(s, region)
    case Some(i) =>
      RegionIndexSameRegions(s, r, a);
    case None =>
      if a == region {
        assert r[|s|].region == region;
        assert RegionIndex(r, a) == Some(|s|);
      } else {
        RegionIndexAppend(s, Bucket(region, map[site := key]), a);
      }
  }

  /** deleteKey fails exactly when no bucket holds a key for the site. */
  lemma WithoutSiteFails<K>(s: seq<Bucket<K>>, site: string)
    ensures WithoutSite(s, site).None? <==> forall i :: 0 <= i < |s| ==> site !in s[i].sites
  {
  }

  /** deleteKey keeps every region, so region names stay unique. */
  lemma WithoutSiteUnique<K>(s: seq<Bucket<K>>, site: string)
    requires UniqueRegions(s)
    requires WithoutSite(s, site).Some?
    ensures UniqueRegions(WithoutSite(s, site).value)
  {
  }

  /** After deleteKey the site's key is gone from the region it was erased
      from, and `get` finds every other key as before. */
  lemma LookupWithoutSite<K>(s: seq<Bucket<K>>, site: string, a: string, n: string)
    requires WithoutSite(s, site).Some?
    ensures var i := SiteIndex(s, site).value;
            Lookup(WithoutSite(s, site).value, a, n) ==
            if a == s[i].region && n == site then None else Lookup(s, a, n)
  {
    var i := SiteIndex(s, site).value;
    var t := WithoutSite(s, site).value;
    RegionIndexSameRegions(s, t, a);
  }
}
