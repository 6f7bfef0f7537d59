/**
 * The part of the browser's Web Crypto API the client relies on, with the cipher and
 * the hash left abstract.
 *
 * AES-GCM and SHA-256 are fields of a `Provider`, a record of function values that
 * every operation takes as a parameter; `Provider.Sound()` is what the model assumes
 * of them (a 32-byte digest, a 16-byte tag, decryption undoing encryption).  Key
 * import, export and the usage checks are modelled as the Web Cryptography API
 * specifies them for AES-GCM.  `crypto.getRandomValues` draws from an `Entropy`
 * source whose stream of bytes is fixed in advance and consumed from the front.
 *
 * The contracts of `ImportKey` and `ExportKey` are the platform's own rules for raw
 * AES keys, stated as the API defines them; what the client builds on those rules is
 * proved elsewhere (`DownloadPage.UnwrapWrap`, `DownloadPage.SameWrappingKey`,
 * `CryptoUtils.WrapNeedsExtractableKey`).
 */
module WebCrypto {
  import opened Wrappers

  /** Length of the GCM authentication tag the client gets by default (128 bits). */
  const TagLength: nat := 16

  /** Length of SHA-256 output. */
  const DigestLength: nat := 32

  /** What a `CryptoKey` may be used for; only the two the client asks for. */
  datatype Usage = EncryptUse | DecryptUse

  /** An AES-GCM `CryptoKey`: its raw key material, whether `exportKey` may reveal it,
      and its permitted usages. */
  datatype Key = Key(raw: seq<byte>, extractable: bool, usages: set<Usage>)

  /** AES accepts 128-, 192- and 256-bit keys. */
  predicate IsAesKeyLength(n: nat) {
    n == 16 || n == 24 || n == 32
  }

  /** The cryptographic primitives the platform supplies.
      `sha256(m)` is the digest, `gcmSeal(k, iv, m)` the AES-GCM ciphertext with its tag
      appended, and `gcmOpen(k, iv, c)` the plaintext, or `None` when the tag does not verify. */
  datatype Provider = Provider(
    sha256: seq<byte> -> seq<byte>,
    gcmSeal: (seq<byte>, seq<byte>, seq<byte>) -> seq<byte>,
    gcmOpen: (seq<byte>, seq<byte>, seq<byte>) -> Option<seq<byte>>)
  {
    /** The properties of SHA-256 and AES-GCM the model relies on. */
    ghost predicate Sound() {
      && (forall m :: |sha256(m)| == DigestLength)
      && (forall k, iv, m :: |gcmSeal(k, iv, m)| == |m| + TagLength)
      && (forall k, iv, m :: gcmOpen(k, iv, gcmSeal(k, iv, m)) == Some(m))
    }
  }

  /** `crypto.subtle.digest('SHA-256', data)`. */
  function Digest(p: Provider, data: seq<byte>): (r: seq<byte>)
    ensures p.Sound() ==> |r| == DigestLength
  {
    p.sha256(data)
  }

  /** `crypto.subtle.importKey('raw', data, {name: 'AES-GCM'}, extractable, usages)`;
      `None` is the `DataError` raised for key material of a length AES does not accept. */
  function ImportKey(data: seq<byte>, extractable: bool, usages: set<Usage>): (r: Option<Key>)
    ensures r.Some? <==> IsAesKeyLength(|data|)
    ensures r.Some? ==> r.value == Key(data, extractable, usages)
  {
    if IsAesKeyLength(|data|) then Some(Key(data, extractable, usages)) else None
  }

  /** `crypto.subtle.exportKey('raw', key)`; `None` is the `InvalidAccessError` for a
      key that is not extractable. */
  function ExportKey(key: Key): (r: Option<seq<byte>>)
    ensures r.Some? <==> key.extractable
    ensures r.Some? ==> r.value == key.raw
  {
    if key.extractable then Some(key.raw) else None
  }

  /** `crypto.subtle.encrypt({name: 'AES-GCM', iv}, key, data)`; `None` is the
      `InvalidAccessError` for a key without the encrypt usage. */
  function Encrypt(p: Provider, key: Key, iv: seq<byte>, data: seq<byte>): (r: Option<seq<byte>>)
    ensures r.Some? <==> EncryptUse in key.usages
    ensures p.Sound() && r.Some? ==> |r.value| == |data| + TagLength
  {
    if EncryptUse in key.usages then Some(p.gcmSeal(key.raw, iv, data)) else None
  }

  /** `crypto.subtle.decrypt({name: 'AES-GCM', iv}, key, data)`; `None` is the
      `InvalidAccessError` for a key without the decrypt usage, or the `OperationError`
      for data shorter than the tag or whose tag does not verify. */
  function Decrypt(p: Provider, key: Key, iv: seq<byte>, data: seq<byte>): (r: Option<seq<byte>>)
    ensures DecryptUse !in key.usages ==> r == None
    ensures |data| < TagLength ==> r == None
  {
    if DecryptUse !in key.usages then None
    else if |data| < TagLength then None
    else p.gcmOpen(key.raw, iv, data)
  }

  /** Decrypting what was encrypted under the same key and IV gives the plaintext back. */
  lemma DecryptEncrypt(p: Provider, key: Key, iv: seq<byte>, data: seq<byte>)
    requires p.Sound()
    requires EncryptUse in key.usages && DecryptUse in key.usages
    ensures Encrypt(p, key, iv, data).Some?
    ensures Decrypt(p, key, iv, Encrypt(p, key, iv, data).value) == Some(data)
  {
  }

  /** The `n` bytes of `stream` from position `from` on. */
  function Window(stream: nat -> byte, from: nat, n: nat): (r: seq<byte>)
    ensures |r| == n
    ensures forall i :: 0 <= i < n ==> r[i] == stream(from + i)
  {
    seq(n, i requires 0 <= i < n => stream(from + i))
  }

  /** The platform's source of randomness: the bytes it will deliver are `stream`, and
      `drawn` of them have been handed out so far. */
  class Entropy {
    const stream: nat -> byte
    var drawn: nat

    constructor (stream: nat -> byte)
      ensures this.stream == stream && drawn == 0
    {
      this.stream := stream;
      drawn := 0;
    }

    /** `crypto.getRandomValues(a)`: fills the typed array in place with the next
        `a.Length` bytes of the stream. */
    method GetRandomValues(a: array<byte>)
      modifies this, a
      ensures drawn == old(drawn) + a.Length
      ensures a[..] == Window(stream, old(drawn), a.Length)
    {
      var i := 0;
      while i < a.Length
        invariant 0 <= i <= a.Length
        invariant drawn == old(drawn) + i
        invariant forall j :: 0 <= j < i ==> a[j] == stream(old(drawn) + j)
      {
        a[i] := stream(drawn);
        drawn := drawn + 1;
        i := i + 1;
      }
    }
  }

  /** A provider that meets `Sound()`: the assumptions are consistent. */
  function TrivialProvider(): Provider {
    Provider(
      m => seq(DigestLength, i => 0),
      (k, iv, m) => m + seq(TagLength, i => 0),
      (k, iv, c) => if |c| >= TagLength then Some(c[..|c| - TagLength]) else None)
  }

  lemma TrivialProviderSound()
    ensures TrivialProvider().Sound()
  {
    var p := TrivialProvider();
    forall k, iv, m ensures p.gcmOpen(k, iv, p.gcmSeal(k, iv, m)) == Some(m) {
      var c := m + seq(TagLength, i => 0);
      assert c[..|c| - TagLength] == m;
    }
  }
}
