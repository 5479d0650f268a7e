# GrailGUI secret repository and LSB steganography, in Dafny

This project models two linked parts of GrailGUI's repository code and
proves properties of the model.

- **The steganographic codec** is `SteganographicImage::hide` / `recover`
  over the decoded RGB buffer of a WebP image.
  - `hide` writes a NUL-terminated string into the least-significant bits
    (LSBs) of the carrier bytes `start`, `start + stride`,
    `start + 2*stride`, …, most significant bit first.
  - In the model, eight zero bits follow the string. They form the
    sentinel byte. The source's sentinel loop instead clears every
    remaining slot below the end of the carrier, plus one slot past it
    when exactly eight remain. With fewer than eight left, the sentinel
    byte is incomplete (see Findings).
  - `recover` walks the same slots and packs every eight LSBs into a byte.
    It stops at the first zero byte.
- **`GrailRepository`** is a class holding a secret byte buffer, the
  password it was unlocked with, and a key store. The key store is a
  sequence of `(region, map<site, key>)` buckets.
  - The buffer can be wiped, scrambled, backed up into an image through
    `hide` and restored from one through `recover`.
  - Keys are added, removed and looked up per region and site.

Files:

- `wrappers.dfy`: `Option` and `Outcome`.
- `steganography.dfy`: module `Steganography`.
  - The carrier is an `array<bv8>`.
  - "Slot t" is carrier index `start + t*stride`, written `Slot(start, stride, t)`.
  - `Hide` is proved against the specification function `Embedded`:
    `Stamp` writes a bit stream into the slots. `Recover` is proved against
    the function `Recovered`.
  - The round trip and the layout of an embedded carrier are lemmas about
    these functions.
- `key_store.dfy`: module `KeyStore`. It holds the key store as values:
  - `Lookup` is what `get` returns;
  - `WithKey` is the store after `generateKey`;
  - `WithoutSite` is the store after `deleteKey`.
- `repository.dfy`: module `Repository`. It holds the class
  `GrailRepository`, whose methods are proved against those functions, and
  the members that model the defective source as written (see Findings).

A key handle (`AESEncDec cipher(password)`) is modelled as
`Cipher(password)`, the password it is built from. The null key `get`
returns is `None`.

## Model

| member | source | states |
|---|---|---|
| Steganography.Embedded | src/repo/stegano/steganography.cc:43-55 | Defines the carrier after a successful `hide`: the message bits and then eight zero bits, written one after another into the LSBs of the slots. The Embedded lemmas below and RoundTrip state what it guarantees. |
| Steganography.Hide | src/repo/stegano/steganography.cc:43-55 | Succeeds exactly when all 8*(len+1) slots of the message and its sentinel lie in the carrier. On success the carrier becomes `Embedded(old carrier, start, stride, CString(msg))`. Otherwise it reports `CapacityExceeded` and leaves the carrier byte for byte as it was. |
| Steganography.HideMessage | src/repo/stegano/steganography.cc:46-51 | The first loop writes every bit of every character before the terminator, MSB first, one slot after another. It returns the slot that follows the message. The carrier is the embedding minus only the sentinel writes, and every byte that is not a message slot, the sentinel slots included, is as it was. |
| Steganography.HideSentinel | src/repo/stegano/steganography.cc:52-54 | The sentinel loop clears the LSBs of exactly the eight slots after the message, which completes the embedding. |
| Steganography.WriteSlot | src/repo/stegano/steganography.cc:49 | The write changes `rgb[i]` only, to `SetLsb(old rgb[i], bit)`, and it is one step of writing the stream. |
| Steganography.SetLsb | src/repo/stegano/steganography.cc:49 | The written byte has the requested LSB and the same upper seven bits as before. |
| Steganography.ByteBitIsShift | src/repo/stegano/steganography.cc:49 | Message bit u of a character is the source's `c >> (7 - bit) & 1`. |
| Steganography.CString | src/repo/stegano/steganography.cc:44-50 | The string `hide` reads is a prefix of the memory, has no NUL, and is followed by a NUL when the memory goes on. Its length is `strlen`. |
| Steganography.SlotProduct | src/repo/stegano/steganography.cc:48 | Slot t, counted out by `i += stride`, is `start + t*stride`. |
| Steganography.FitsIffInBounds | src/repo/stegano/steganography.cc:44-45 | The corrected capacity test holds exactly when every slot of the message and its sentinel is inside the carrier. |
| Steganography.StampSpec | src/repo/stegano/steganography.cc:48-54 | After the stream is written, slot t holds bit t in its LSB. Every byte that is not a slot of the stream is unchanged. |
| Steganography.EmbeddedMessageBits | src/repo/stegano/steganography.cc:46-50 | Bit u (from the most significant) of message byte q is the LSB of slot 8*q + u. |
| Steganography.EmbeddedSentinel | src/repo/stegano/steganography.cc:52-54 | The eight slots after the message have LSB 0. |
| Steganography.EmbeddedKeepsUpper | src/repo/stegano/steganography.cc:49-54 | Hiding changes least-significant bits only. The upper seven bits of every carrier byte are preserved. |
| Steganography.EmbeddedElsewhere | src/repo/stegano/steganography.cc:48-54 | Every byte that is not one of the 8*(len+1) slots is unchanged. |
| Steganography.EmbeddedBelowStart | src/repo/stegano/steganography.cc:48 | Every byte below `start` is unchanged. |
| Steganography.Recovered | src/repo/stegano/steganography.cc:66-80 | Defines what `recover` returns: whole bytes packed from the slots, up to the first zero byte or the end of the carrier. RecoveredBytes, RecoveredStops and RecoveredNulFree state what it guarantees. |
| Steganography.Recover | src/repo/stegano/steganography.cc:66-80 | The loop only reads the carrier and returns `Recovered(carrier, start, stride)`. |
| Steganography.ReadBit | src/repo/stegano/steganography.cc:70 | Setting bit 0 of `c` when `rgb[i] & 1` extends the byte being packed by the LSB of the next slot. |
| Steganography.PackByte | src/repo/stegano/steganography.cc:70-77 | Packing eight slots whose LSBs are the bits of b, MSB first, gives back b. |
| Steganography.RecoveredBytes | src/repo/stegano/steganography.cc:69-77 | Recovered byte q is the eight LSBs of slots 8*q … 8*q+7 packed MSB first, and it is not zero. |
| Steganography.RecoveredStops | src/repo/stegano/steganography.cc:69-76 | Recovery ends where the next whole byte is zero or no longer fits. A trailing partial byte is dropped. |
| Steganography.RecoveredNulFree | src/repo/stegano/steganography.cc:72-75 | The recovered string contains no zero byte. |
| Steganography.RecoverSuffix | src/repo/stegano/steganography.cc:66-80 | On a carrier whose stream bytes spell a NUL-free message and then a zero byte, recovery from byte q on returns the rest of the message. |
| Steganography.RoundTrip | src/repo/stegano/steganography.cc:43-80 | Recovering with the same start and stride after hiding a NUL-free message that fits returns exactly that message. |
| Steganography.SourceCapacityCheck | src/repo/stegano/steganography.cc:44-45 | The source's capacity test never refuses a message that fits. SourceCheckAdmitsOverflow shows that it also accepts some that do not. |
| Steganography.SourceCheckAdmitsOverflow | src/repo/stegano/steganography.cc:44-45 | As written, the capacity test accepts a message whose span `start + len*stride` exactly reaches the end of the carrier, although that message and its sentinel do not fit. |
| Steganography.SentinelWritesAsWritten | src/repo/stegano/steganography.cc:53-54 | As written, the k-th write of the sentinel loop is at slot k counted from where the first loop stopped. Every write is inside the carrier except the one forced by `j == 8`. |
| Steganography.SentinelAsWrittenClearsAll | src/repo/stegano/steganography.cc:54 | As written, the sentinel loop clears every remaining slot up to the end of the carrier, not only eight. |
| Steganography.SentinelAsWrittenShort | src/repo/stegano/steganography.cc:54 | As written, when fewer than eight slots remain after the message, the loop makes fewer than eight writes, so the sentinel byte is incomplete. |
| Steganography.SentinelAsWrittenOverruns | src/repo/stegano/steganography.cc:54 | As written, when exactly eight slots remain the loop makes a ninth write, one slot past the end. |
| KeyStore.RegionIndex | src/repo/Repository.cc:14-15 | The result is the first bucket named after the region, or none when no bucket has that name. |
| KeyStore.SiteIndex | src/repo/Repository.cc:25-27 | The result is the first bucket holding a key for the site, or none when no bucket holds one. |
| KeyStore.Lookup | src/repo/Repository.cc:88-93 | Defines what `get` returns: the site's key in the first bucket named after the region, or `None`. LookupWithKey and LookupWithoutSite state how it changes. |
| KeyStore.WithKey | src/repo/Repository.cc:9-22 | Defines the intended store after generateKey. WithKeyRegions, WithKeyUnique and LookupWithKey state what it guarantees. |
| KeyStore.WithoutSite | src/repo/Repository.cc:24-35 | Defines the intended store after deleteKey, or `None` when no bucket holds the site. WithoutSiteFails, WithoutSiteUnique and LookupWithoutSite state what it guarantees. |
| KeyStore.WithKeyRegions | src/repo/Repository.cc:14-21 | generateKey keeps every region in place. It appends one bucket, for the requested region, only when no bucket has that name. |
| KeyStore.WithKeyUnique | src/repo/Repository.cc:14-21 | generateKey keeps region names unique. |
| KeyStore.LookupWithKey | src/repo/Repository.cc:14-17 | After generateKey, `get` returns the new key for that region and site, replacing any earlier one. Every other region and site returns what it returned before. |
| KeyStore.WithoutSiteFails | src/repo/Repository.cc:24-34 | deleteKey fails exactly when no region holds a key for the site. |
| KeyStore.WithoutSiteUnique | src/repo/Repository.cc:25-30 | deleteKey keeps region names unique. |
| KeyStore.LookupWithoutSite | src/repo/Repository.cc:25-30 | For any store, after deleteKey the site's key is gone from the first region that held one. Every other entry is found as before. |
| Repository.GrailRepository.constructor | src/repo/Repository.cc:3-5 | A new repository's buffer holds exactly `size` bytes, all zero. It has an empty password and no keys. |
| Repository.GrailRepository.GenerateKey | src/repo/Repository.cc:9-22 | The store becomes `WithKey(old store, region, site, Cipher(password))`. Regions stay unique, and the buffer and password are untouched. |
| Repository.GrailRepository.DeleteKey | src/repo/Repository.cc:24-35 | It fails with `SiteNotFound` and changes nothing exactly when no region holds the site. Otherwise the store becomes `WithoutSite(old store, site)`. Regions stay unique. |
| Repository.GrailRepository.Get | src/repo/Repository.cc:88-93 | The result is the key of `name` in the first region called `area`, or `None`. |
| Repository.GrailRepository.Unlock | src/repo/Repository.cc:62-67 | Records the password. The buffer and the store are unchanged. |
| Repository.GrailRepository.Scramble | src/repo/Repository.cc:69-73 | Every byte of the buffer becomes the generator's output for that position. The length is unchanged. |
| Repository.GrailRepository.Destroy | src/repo/Repository.cc:75 | Every byte of the buffer becomes 0. The length is unchanged. |
| Repository.GrailRepository.BackupToCloud | src/repo/Repository.cc:37-46 | Hides the buffer, read as a C string, in the carrier with the given offset and stride. It has the same success condition and failure behaviour as `Hide`. |
| Repository.GrailRepository.RestoreFromCloud | src/repo/Repository.cc:48-60 | The buffer is replaced by a fresh one holding what `recover` returns from the carrier. |
| Repository.GrailRepository.BackupThenRestore | src/repo/Repository.cc:43-56 | Backing up and then restoring with the same offset and stride gives back a zero-free buffer whose message and sentinel fit the carrier, in a fresh array. The carrier then holds `Embedded` of the old carrier and the buffer, and the password and key store are unchanged. |
| Repository.ConstructedBufferAsWritten | src/repo/Repository.cc:3-5 | Defines the member buffer as the source's constructor leaves it: empty, because the zero-filled vector is a local. |
| Repository.ConstructorAsWrittenLosesSize | src/repo/Repository.cc:3-5 | As written, the constructor leaves the member buffer empty whatever `size` is. |
| Repository.GenerateKeyAsWritten | src/repo/Repository.cc:14-21 | Defines the store as the source's generateKey leaves it: unchanged when the region exists, otherwise with an empty bucket for the region appended. |
| Repository.GenerateKeyAsWrittenStoresNothing | src/repo/Repository.cc:14-21 | As written, generateKey never changes what `get` returns for the region and site, whereas the intended store returns the new key. |
| Repository.DeleteKeyAsWritten | src/repo/Repository.cc:25-30 | Defines the store as the source's deleteKey leaves it: unchanged, because the erase acts on a copy of the bucket. |
| Repository.DeleteKeyAsWrittenKeepsKey | src/repo/Repository.cc:25-30 | As written, a key that deleteKey finds is still returned by `get` afterwards, whereas the intended erase removes it. |

## Left out

- Reading and decoding the WebP file, `write()`, and the command-line
  `main` are file I/O and libwebp calls. The decoded RGB buffer is the
  input of `Hide` and `Recover`, and of `BackupToCloud` and
  `RestoreFromCloud`.
- Steganography.Hide: every bound is the carrier's own length. The source
  bounds its loops and its capacity test by `s`, which the constructor sets
  to the size of the compressed file, not to the decoded length `w*h*3`.
- Steganography.Recover: likewise, its loop stops at the carrier's own
  length. The source's loop stops at `s`, the size of the compressed file.
- Steganography.Hide: requires `stride >= 1`. With stride 0 the source
  writes every bit into one byte, and its sentinel loop never ends.
- Steganography.Recover: requires `stride >= 1`. With stride 0 the source
  reads one byte forever unless that byte's LSB is 0.
- Integer widths are not modelled: `start` and `stride` are `int` and
  `uint32_t` in the source, and `start + i*stride` can overflow there.
- `char` is modelled as `bv8`. The shifts on the possibly signed `char` in
  the source act on its low eight bits the same way.
- `hide_secret`, which `backupToCloud` calls, is not part of this model.
  The backup is modelled with `hide`, which reads the buffer as a
  NUL-terminated string.
- Repository.GrailRepository.BackupToCloud: `write_webp` and
  `client.upload` are I/O and are not modelled. The service name, user id
  and password parameters are unused in the source and are dropped.
- Repository.GrailRepository.RestoreFromCloud: `client.download`, decoding
  the downloaded image, and the base64 printing of the buffer are I/O and
  are not modelled. The service name, user id and password parameters are
  unused in the source and are dropped.
- Repository.GrailRepository.Unlock: `cipher.decrypt_file(area, "tmp")` is
  foreign crypto and file I/O and is not modelled. The `Factor2` argument is
  not modelled either.
- `AESEncDec` is foreign code. A key is the password it is built from.
- Repository.GrailRepository.GenerateKey: the source stores a pointer to a
  local `AESEncDec` that dies when the call returns. The model stores the
  key value.
- Repository.GrailRepository.Get: the `userid` and `passwd` parameters are
  unused in the source and are dropped.
- Repository.GrailRepository.Get: when the region exists but holds no key
  for the site, the source's `operator[]` inserts a null pointer and
  dereferences it. The model returns `None` and inserts nothing.
- Repository.GrailRepository.DeleteKey: the source prints its error once for
  every region it scans without the site, even when a later region holds
  it. The model reports one error, and only when no region holds the site.
  On an empty store the source prints nothing, because its loop never
  runs, while the model returns `Fail(SiteNotFound)`.
- Repository.GrailRepository.Scramble: the quality of the random engine is
  not modelled. Output k of the default-seeded engine is the parameter
  `engine(k)`.
- `proveIdentity` always returns 0, and `recover2ndFactor` is empty. There
  is no behaviour to model.

## Findings

| source | as written | input that shows it | evidently intended | confidence | as-written member | corrected member |
|---|---|---|---|---|---|---|
| src/repo/stegano/steganography.cc:44 | `start + strlen(str) * stride > s` has no factor of 8 bits per character and no room for the sentinel. | start 0, stride 1, a one-character message, a one-byte carrier: the test passes, but 16 slots are needed. | Refuse unless slot `8*len + 7` is inside the carrier. | not executed | Steganography.SourceCheckAdmitsOverflow | Steganography.Hide |
| src/repo/stegano/steganography.cc:54 | The condition `i < s` or `j == 8` runs to the end of the carrier, and makes one more write when it stops at j == 8. | Exactly eight slots left after the message: the ninth write is at slot 8, past the end. | Clear exactly the eight sentinel slots. | not executed | Steganography.SentinelAsWrittenOverruns | Steganography.HideSentinel |
| src/repo/Repository.cc:4 | `std::vector<uint8_t> bytes(size, 0);` declares a local, so the member stays empty. | size 4: the member buffer has length 0. | The member buffer holds `size` zero bytes. | not executed | Repository.ConstructorAsWrittenLosesSize | Repository.GrailRepository.constructor |
| src/repo/Repository.cc:14-21 | The loop copies each bucket, so the write at :16 is lost. A new region gets an empty bucket without the site. | Empty store, generateKey("r", "s"), then get("r", "s"): the new bucket "r" holds no key for "s", so `operator[]` yields a null pointer, which `get` dereferences. | The site's key is stored in its region's bucket. | not executed | Repository.GenerateKeyAsWrittenStoresNothing | Repository.GrailRepository.GenerateKey |
| src/repo/Repository.cc:25-28 | The loop copies each bucket, so the erase at :28 is lost. | Store `[("r", {"s": k})]`, deleteKey("s"), then get("r", "s"): still k. | The site's key is erased from the stored bucket. | not executed | Repository.DeleteKeyAsWrittenKeepsKey | Repository.GrailRepository.DeleteKey |
