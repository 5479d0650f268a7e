/**
 * `GrailRepository`: a secret byte buffer, the password it was unlocked
 * with, and the region/site key store, with the operations that wipe,
 * scramble, back up and restore the buffer and that add, remove and look
 * up keys.
 *
 * The key handle the source builds (`AESEncDec cipher(password)`) is
 * modelled by the password it is built from; encryption itself, the cloud
 * client and the image files are not part of this model.  The source's
 * defects (see the end of this file) are recorded there and the class
 * models the behaviour the code evidently intends.
 */
module Repository {
  import opened Wrappers
  import opened Steganography
  import opened KeyStore

  /** A key handle: the cipher built from the repository password. */
  datatype Cipher = Cipher(password: string)

  /** Why `DeleteKey` reports an error (the source prints
      "Error: Site: ... not in site list."). */
  datatype RepoError = SiteNotFound

  class GrailRepository {
    var bytes: array<bv8>
    var password: string
    var siteKeys: seq<Bucket<Cipher>>

    /** The store invariant: one bucket per region. */
    predicate Valid()
      reads this
    {
      UniqueRegions(siteKeys)
    }

    /** A repository whose buffer holds `size` zero bytes, with no password
        and no keys. */
    constructor (size: nat)
      ensures Valid()
      ensures fresh(bytes) && bytes.Length == size
      ensures forall k :: 0 <= k < size ==> bytes[k] == 0
      ensures password == "" && siteKeys == []
    {
      bytes := new bv8[size](_ => 0);
      password := "";
      siteKeys := [];
    }

    /** Adds the key built from the current password for `siteName` under
        `regionName`, replacing an earlier key of that site in that region;
        a region seen for the first time gets a bucket of its own. */
    method GenerateKey(regionName: string, siteName: string)
      requires Valid()
      modifies this
      ensures Valid()
      ensures siteKeys == WithKey(old(siteKeys), regionName, siteName, Cipher(password))
      ensures bytes == old(bytes) && password == old(password)
    {
      var cipher := Cipher(password);
      var i := 0;
      while i < |siteKeys| && siteKeys[i].region != regionName
        invariant 0 <= i <= |siteKeys|
        invariant forall j :: 0 <= j < i ==> siteKeys[j].region != regionName
      {
        i := i + 1;
      }
      WithKeyUnique(siteKeys, regionName, siteName, cipher);
      if i < |siteKeys| {
        siteKeys := siteKeys[i := Bucket(regionName, siteKeys[i].sites[siteName := cipher])];
        return;
      }
      siteKeys := siteKeys + [Bucket(regionName, map[siteName := cipher])];
    }

    /** Erases the key of `siteName` from the first region that has one.
        When no region has one, nothing changes and the error is reported. */
    method DeleteKey(siteName: string) returns (r: Outcome<RepoError>)
      requires Valid()
      modifies this
      ensures Valid()
      ensures r.Fail? <==> WithoutSite(old(siteKeys), siteName).None?
      ensures r.Fail? ==> r.error == SiteNotFound && siteKeys == old(siteKeys)
      ensures r.Pass? ==> siteKeys == WithoutSite(old(siteKeys), siteName).value
      ensures bytes == old(bytes) && password == old(password)
    {
      var i := 0;
      while i < |siteKeys| && siteName !in siteKeys[i].sites
        invariant 0 <= i <= |siteKeys|
        invariant forall j :: 0 <= j < i ==> siteName !in siteKeys[j].sites
      {
        i := i + 1;
      }
      if i == |siteKeys| {
        return Fail(SiteNotFound);
      }
      WithoutSiteUnique(siteKeys, siteName);
      siteKeys := siteKeys[i := Bucket(siteKeys[i].region, siteKeys[i].sites - {siteName})];
      return Pass;
    }

    /** The key of site `name` in the first region called `area`; None
        stands for the source's null key. */
    method Get(area: string, name: string) returns (key: Option<Cipher>)
      ensures key == Lookup(siteKeys, area, name)
    {
      var i := 0;
      while i < |siteKeys|
        invariant 0 <= i <= |siteKeys|
        invariant forall j :: 0 <= j < i ==> siteKeys[j].region != area
      {
        if siteKeys[i].region == area {
          if name in siteKeys[i].sites {
            return Some(siteKeys[i].sites[name]);
          }
          return None;
        }
        i := i + 1;
      }
      return None;
    }

    /** Records the password; keys generated from now on are built from it. */
    method Unlock(password: string, area: string)
      modifies this
      ensures this.password == password
      ensures bytes == old(bytes) && siteKeys == old(siteKeys)
    {
      this.password := password;
    }

    /** Overwrites every byte of the buffer with the next output of the
        byte generator; output k of the generator is `engine(k)`. */
    method Scramble(area: string, engine: nat -> bv8)
      modifies bytes
      ensures forall k :: 0 <= k < bytes.Length ==> bytes[k] == engine(k)
    {
      var k := 0;
      while k < bytes.Length
        invariant 0 <= k <= bytes.Length
        invariant forall j :: 0 <= j < k ==> bytes[j] == engine(j)
      {
        bytes[k] := engine(k);
        k := k + 1;
      }
    }

    /** Wipes the buffer: every byte becomes zero, the length stays. */
    method Destroy()
      modifies bytes
      ensures forall k :: 0 <= k < bytes.Length ==> bytes[k] == 0
    {
      var k := 0;
      while k < bytes.Length
        invariant 0 <= k <= bytes.Length
        invariant forall j :: 0 <= j < k ==> bytes[j] == 0
      {
        bytes[k] := 0;
        k := k + 1;
      }
    }

    /** Hides the buffer, read as a C string, in the decoded carrier image
        starting at `offset` with the given stride.  The carrier is left as
        it was when the buffer does not fit. */
    method BackupToCloud(offset: nat, stride: nat, carrier: array<bv8>) returns (r: Outcome<StegError>)
      requires stride >= 1
      requires carrier != bytes
      modifies carrier
      ensures r.Pass? <==> Fits(carrier.Length, offset, stride, |CString(bytes[..])|)
      ensures r.Pass? ==> carrier[..] == Embedded(old(carrier[..]), offset, stride, CString(bytes[..]))
      ensures r.Fail? ==> carrier[..] == old(carrier[..])
    {
      r := Hide(carrier, offset, stride, bytes[..]);
    }

    /** Replaces the buffer with the message recovered from the decoded
        carrier image. */
    method RestoreFromCloud(offset: nat, stride: nat, carrier: array<bv8>)
      requires stride >= 1
      modifies this
      ensures fresh(bytes)
      ensures bytes[..] == Recovered(carrier[..], offset, stride)
      ensures password == old(password) && siteKeys == old(siteKeys)
    {
      var s := Recover(carrier, offset, stride);
      bytes := new bv8[|s|](k requires 0 <= k < |s| => s[k]);
      assert bytes[..] == s;
    }

    /** Backing up and then restoring with the same offset and stride gives
        back a zero-free buffer whose message and sentinel fit the carrier.
        The carrier is left holding the embedded buffer, and the password and
        the key store are untouched. */
    method BackupThenRestore(offset: nat, stride: nat, carrier: array<bv8>)
      requires stride >= 1
      requires carrier != bytes
      requires NulFree(bytes[..])
      requires Fits(carrier.Length, offset, stride, bytes.Length)
      modifies this, carrier
      ensures fresh(bytes)
      ensures bytes[..] == old(bytes[..])
      ensures Fits(carrier.Length, offset, stride, |bytes[..]|)
      ensures carrier[..] == Embedded(old(carrier[..]), offset, stride, bytes[..])
      ensures password == old(password) && siteKeys == old(siteKeys)
    {
      ghost var buffer := bytes[..];
      CStringNulFree(buffer);
      ghost var before := carrier[..];
      var r := BackupToCloud(offset, stride, carrier);
      RoundTrip(before, offset, stride, buffer);
      RestoreFromCloud(offset, stride, carrier);
    }
  }

  // ---------------------------------------------------------------------
  // The source as written
  // ---------------------------------------------------------------------

  /** The member buffer as the source's constructor leaves it: the
      constructor fills a local vector of `size` zeros and drops it, so the
      member stays empty. */
  function ConstructedBufferAsWritten(size: nat): seq<bv8>
  {
    []
  }

  /** As written, a repository constructed with a positive size has no
      buffer of that size; the class constructor above has one. */
  lemma ConstructorAsWrittenLosesSize(size: nat)
    requires size > 0
    ensures |ConstructedBufferAsWritten(size)| != size
  {
  }

  /** The store as the source's `generateKey` leaves it: the loop copies
      each bucket, so the write into an existing region is lost, and a new
      region gets an empty bucket without the site. */
  function GenerateKeyAsWritten<K>(s: seq<Bucket<K>>, region: string, site: string, key: K): seq<Bucket<K>>
  {
    if RegionIndex(s, region).Some? then s else s + [Bucket(region, map[])]
  }

  /** As written, generateKey never makes a key retrievable: whatever `get`
      found for the region and site before, it finds after. */
  lemma GenerateKeyAsWrittenStoresNothing<K>(s: seq<Bucket<K>>, region: string, site: string, key: K)
    ensures Lookup(GenerateKeyAsWritten(s, region, site, key), region, site) == Lookup(s, region, site)
    ensures Lookup(WithKey(s, region, site, key), region, site) == Some(key)
  {
    LookupWithKey(s, region, site, key, region, site);
    if RegionIndex(s, region).None? {
      var r := GenerateKeyAsWritten(s, region, site, key);
      assert r[|s|].region == region;
      assert RegionIndex(r, region) == Some(|s|);
    }
  }

  /** The store as the source's `deleteKey` leaves it: the erase happens in
      a copy of the bucket, so the store is unchanged. */
  function DeleteKeyAsWritten<K>(s: seq<Bucket<K>>, site: string): seq<Bucket<K>>
  {
    s
  }

  /** As written, a key that deleteKey finds is still there afterwards,
      whereas the intended erase removes it. */
  lemma DeleteKeyAsWrittenKeepsKey<K>(s: seq<Bucket<K>>, site: string)
    requires UniqueRegions(s)
    requires WithoutSite(s, site).Some?
    ensures var region := s[SiteIndex(s, site).value].region;
            Lookup(DeleteKeyAsWritten(s, site), region, site).Some? &&
            Lookup(WithoutSite(s, site).value, region, site).None?
  {
    var i := SiteIndex(s, site).value;
    assert RegionIndex(s, s[i].region) == Some(i);
    LookupWithoutSite(s, site, s[i].region, site);
  }
}
