/**
 * The sharer's side of the link envelope (client/src/utils/crypto.js).
 *
 * A link secret is 32 random bytes in URL-safe, unpadded Base64.  The wrapping key
 * is the SHA-256 digest of the secret's UTF-8 text, imported as an AES-GCM key.  A
 * file key is wrapped by encrypting its raw bytes under that key with a fresh 12-byte
 * IV, and the result travels as `base64(iv || ciphertext)`.
 */
module CryptoUtils {
  import opened Wrappers
  import Base64
  import Utf8
  import opened WebCrypto

  /** Length of the AES-GCM IV drawn for each wrap. */
  const IvLength: nat := 12

  /** Number of random bytes in a link secret. */
  const SecretBytes: nat := 32

  /** `strToBuffer`: the UTF-8 bytes of a string; one byte per character for ASCII text. */
  function StrToBuffer(s: string): (r: seq<byte>)
    ensures r == Utf8.Encode(s)
    ensures Utf8.IsAscii(s) ==> |r| == |s| && forall i :: 0 <= i < |s| ==> r[i] == s[i] as int
  {
    if Utf8.IsAscii(s) then Utf8.EncodeAscii(s); Utf8.Encode(s) else Utf8.Encode(s)
  }

  /** `bufferToBase64`: the padded standard Base64 text of the bytes, which `atob` reads back. */
  function BufferToBase64(b: seq<byte>): (r: string)
    ensures |r| == 4 * ((|b| + 2) / 3)
    ensures forall i :: 0 <= i < |r| ==> Base64.IsBase64Char(r[i]) || r[i] == '='
    ensures Base64.Decode(r) == Some(b)
  {
    Base64.EncodeShape(b);
    Base64.DecodeEncode(b);
    Base64.Encode(b)
  }

  // ---------------------------------------------------------------------------
  // The URL-safe rewriting of generateLinkSecret

  /** `s.replace(/x/g, y)`. */
  function ReplaceAll(s: string, x: char, y: char): (r: string)
    ensures |r| == |s|
    ensures forall i :: 0 <= i < |s| ==> r[i] == if s[i] == x then y else s[i]
  {
    if s == [] then [] else [if s[0] == x then y else s[0]] + ReplaceAll(s[1..], x, y)
  }

  /** `s.replace(/x/g, '')`. */
  function RemoveAll(s: string, x: char): (r: string)
    ensures forall i :: 0 <= i < |r| ==> r[i] != x
  {
    if s == [] then [] else (if s[0] == x then [] else [s[0]]) + RemoveAll(s[1..], x)
  }

  /** The three rewrites of generateLinkSecret: `+` to `-`, `/` to `_`, and `=` dropped. */
  function ToUrlSafe(s: string): string {
    RemoveAll(ReplaceAll(ReplaceAll(s, '+', '-'), '/', '_'), '=')
  }

  /** The URL-safe alphabet of section 5 of RFC 4648. */
  predicate IsUrlSafeChar(c: char) {
    ('A' <= c <= 'Z') || ('a' <= c <= 'z') || ('0' <= c <= '9') || c == '-' || c == '_'
  }

  /** The link secret made from the given random bytes. */
  function LinkSecretOf(random: seq<byte>): string {
    ToUrlSafe(BufferToBase64(random))
  }

  /** `generateLinkSecret`: draws 32 random bytes into a fresh array and returns their
      URL-safe Base64 text. */
  method GenerateLinkSecret(rng: Entropy) returns (secret: string)
    modifies rng
    ensures rng.drawn == old(rng.drawn) + SecretBytes
    ensures secret == LinkSecretOf(Window(rng.stream, old(rng.drawn), SecretBytes))
  {
    var randomBytes := new byte[SecretBytes];
    rng.GetRandomValues(randomBytes);
    secret := LinkSecretOf(randomBytes[..]);
  }

  lemma {:induction false} RemoveAllAbsent(s: string, x: char)
    requires forall i :: 0 <= i < |s| ==> s[i] != x
    ensures RemoveAll(s, x) == s
  {
    if s != [] {
      RemoveAllAbsent(s[1..], x);
      assert s == [s[0]] + s[1..];
    }
  }

  lemma {:induction false} RemoveAllAppend(s: string, t: string, x: char)
    ensures RemoveAll(s + t, x) == RemoveAll(s, x) + RemoveAll(t, x)
  {
    if s == [] {
      assert s + t == t;
    } else {
      assert (s + t)[1..] == s[1..] + t;
      RemoveAllAppend(s[1..], t, x);
    }
  }

  lemma {:induction false} ReplaceAllAppend(s: string, t: string, x: char, y: char)
    ensures ReplaceAll(s + t, x, y) == ReplaceAll(s, x, y) + ReplaceAll(t, x, y)
  {
    if s == [] {
      assert s + t == t;
    } else {
      assert (s + t)[1..] == s[1..] + t;
      ReplaceAllAppend(s[1..], t, x, y);
    }
  }

  /** The characters of the unpadded encoding, with `+` and `/` exchanged for `-` and `_`. */
  function UrlAlphabet(s: string): string {
    ReplaceAll(ReplaceAll(s, '+', '-'), '/', '_')
  }

  /** The padding characters pass the two exchanges unchanged and vanish in the third. */
  lemma PaddingRewrites(n: nat)
    ensures UrlAlphabet(Base64.Padding(n)) == Base64.Padding(n)
    ensures RemoveAll(Base64.Padding(n), '=') == []
  {
    var pad := Base64.Padding(n);
    if pad == "==" {
      assert pad[1..] == "=";
      assert RemoveAll("=", '=') == [] by { assert "="[1..] == []; }
    } else if pad == "=" {
      assert pad[1..] == [];
    }
  }

  /** The secret is the unpadded Base64 text with the two characters exchanged: the
      padding is exactly what the third rewrite removes. */
  lemma LinkSecretIsUnpadded(random: seq<byte>)
    ensures LinkSecretOf(random) == UrlAlphabet(Base64.EncodeUnpadded(random))
  {
    var u := Base64.EncodeUnpadded(random);
    var pad := Base64.Padding(|random|);
    assert BufferToBase64(random) == u + pad;
    ReplaceAllAppend(u, pad, '+', '-');
    ReplaceAllAppend(ReplaceAll(u, '+', '-'), ReplaceAll(pad, '+', '-'), '/', '_');
    PaddingRewrites(|random|);
    var w := UrlAlphabet(u);
    assert UrlAlphabet(u + pad) == w + pad;
    Base64.EncodeUnpaddedShape(random);
    assert forall i :: 0 <= i < |w| ==> w[i] != '=';
    RemoveAllAppend(w, pad, '=');
    RemoveAllAbsent(w, '=');
  }

  /** Every character of a link secret is from the base64url alphabet, so none is `+`,
      `/` or `=`; and it has ceil(4n/3) characters for n random bytes. */
  lemma LinkSecretAlphabet(random: seq<byte>)
    ensures |LinkSecretOf(random)| == Base64.UnpaddedLength(|random|)
    ensures forall i :: 0 <= i < |LinkSecretOf(random)| ==> IsUrlSafeChar(LinkSecretOf(random)[i])
    ensures forall i :: 0 <= i < |LinkSecretOf(random)| ==>
              LinkSecretOf(random)[i] !in {'+', '/', '='}
  {
    LinkSecretIsUnpadded(random);
    Base64.EncodeUnpaddedShape(random);
  }

  /** A secret made from 32 bytes has 43 characters: 44 Base64 characters less the one `=`. */
  lemma LinkSecretLength(random: seq<byte>)
    requires |random| == SecretBytes
    ensures |BufferToBase64(random)| == 44
    ensures |LinkSecretOf(random)| == 43
  {
    assert Base64.UnpaddedLength(32) == 43;
    LinkSecretAlphabet(random);
    SecretText(random);
  }

  /** Thirty-two bytes have a 44-character Base64 text. */
  lemma SecretText(b: seq<byte>)
    requires |b| == 32
    ensures |BufferToBase64(b)| == 44
  {
    assert (|b| + 2) / 3 == 11;
  }

  /** The inverse exchange, `-` back to `+` and `_` back to `/`. */
  function FromUrlSafe(s: string): string {
    ReplaceAll(ReplaceAll(s, '-', '+'), '_', '/')
  }

  /** The secret decodes back to exactly the random bytes it was made from. */
  lemma LinkSecretDecodes(random: seq<byte>)
    ensures Base64.Decode(FromUrlSafe(LinkSecretOf(random))) == Some(random)
  {
    LinkSecretIsUnpadded(random);
    var u := Base64.EncodeUnpadded(random);
    Base64.EncodeUnpaddedShape(random);
    assert FromUrlSafe(UrlAlphabet(u)) == u;
    Base64.DecodeEncodeWithoutPadding(random);
  }

  /** A link secret is ASCII text, so its UTF-8 bytes are its character codes. */
  lemma LinkSecretIsAscii(random: seq<byte>)
    ensures Utf8.IsAscii(LinkSecretOf(random))
  {
    LinkSecretAlphabet(random);
  }

  // ---------------------------------------------------------------------------
  // Wrapping

  /** `deriveWrappingKey`: SHA-256 of the secret's UTF-8 text, imported as an extractable
      AES-GCM key for encryption and decryption.  The text itself is hashed, not the
      bytes it encodes. */
  function DeriveWrappingKey(p: Provider, secret: string): (r: Option<Key>)
    ensures r.Some? ==> r.value.raw == Digest(p, StrToBuffer(secret))
    ensures r.Some? ==> r.value.usages == {EncryptUse, DecryptUse}
    ensures p.Sound() ==> r.Some? && |r.value.raw| == DigestLength
  {
    ImportKey(Digest(p, StrToBuffer(secret)), true, {EncryptUse, DecryptUse})
  }

  /** What `wrapFileKey(fileKey, secret)` resolves to when the IV drawn is `iv`:
      `base64(iv || encrypt(wrappingKey, iv, exportKey(fileKey)))`, or `None` when one of
      the Web Crypto calls rejects. */
  function WrappedKeyOf(p: Provider, fileKey: Key, secret: string, iv: seq<byte>): Option<string> {
    match DeriveWrappingKey(p, secret)
    case None => None
    case Some(wrappingKey) =>
      match ExportKey(fileKey)
      case None => None
      case Some(rawFileKey) =>
        match Encrypt(p, wrappingKey, iv, rawFileKey)
        case None => None
        case Some(ciphertext) => Some(BufferToBase64(iv + ciphertext))
  }

  /** `target.set(source, offset)` on a typed array: copies `source` in place from `offset` on. */
  method SetAt(target: array<byte>, source: seq<byte>, offset: nat)
    requires offset + |source| <= target.Length
    modifies target
    ensures target[..] == old(target[..offset]) + source + old(target[offset + |source|..])
  {
    var i := 0;
    while i < |source|
      invariant 0 <= i <= |source|
      invariant target[..offset] == old(target[..offset])
      invariant target[offset..offset + i] == source[..i]
      invariant target[offset + |source|..] == old(target[offset + |source|..])
    {
      target[offset + i] := source[i];
      i := i + 1;
      assert target[offset..offset + i] == target[offset..offset + i - 1] + [target[offset + i - 1]];
    }
    assert target[..] == target[..offset] + target[offset..offset + |source|] + target[offset + |source|..];
  }

  /** `wrapFileKey`: derives the wrapping key, draws a fresh 12-byte IV, exports and
      encrypts the file key, lays IV and ciphertext out in one new buffer and returns its
      Base64 text.  The IV is drawn only once the wrapping key exists. */
  method WrapFileKey(p: Provider, fileKey: Key, linkSecret: string, rng: Entropy) returns (wrapped: Option<string>)
    modifies rng
    ensures rng.drawn == old(rng.drawn) + (if DeriveWrappingKey(p, linkSecret).Some? then IvLength else 0)
    ensures wrapped == WrappedKeyOf(p, fileKey, linkSecret, Window(rng.stream, old(rng.drawn), IvLength))
  {
    var wrappingKey := DeriveWrappingKey(p, linkSecret);
    if wrappingKey.None? {
      return None;
    }
    var iv := new byte[IvLength];
    rng.GetRandomValues(iv);
    var rawFileKey := ExportKey(fileKey);
    if rawFileKey.None? {
      return None;
    }
    var wrappedKeyBuffer := Encrypt(p, wrappingKey.value, iv[..], rawFileKey.value);
    if wrappedKeyBuffer.None? {
      return None;
    }
    var ivAndCiphertext := new byte[iv.Length + |wrappedKeyBuffer.value|];
    SetAt(ivAndCiphertext, iv[..], 0);
    SetAt(ivAndCiphertext, wrappedKeyBuffer.value, iv.Length);
    assert ivAndCiphertext[..] == iv[..] + wrappedKeyBuffer.value;
    wrapped := Some(BufferToBase64(ivAndCiphertext[..]));
  }

  /** Each wrap draws its own IV: a second wrap uses the 12 bytes after the first's. */
  method WrapTwice(p: Provider, fileKey: Key, linkSecret: string, rng: Entropy)
    returns (first: Option<string>, second: Option<string>)
    requires p.Sound()
    modifies rng
    ensures first == WrappedKeyOf(p, fileKey, linkSecret, Window(rng.stream, old(rng.drawn), IvLength))
    ensures second == WrappedKeyOf(p, fileKey, linkSecret, Window(rng.stream, old(rng.drawn) + IvLength, IvLength))
  {
    ghost var start := rng.drawn;
    assert DeriveWrappingKey(p, linkSecret).Some?;
    first := WrapFileKey(p, fileKey, linkSecret, rng);
    assert rng.drawn == start + IvLength;
    second := WrapFileKey(p, fileKey, linkSecret, rng);
  }

  /** The decoded wrapped key is exactly the IV followed by the AES-GCM ciphertext of the
      raw file key under the key derived from the secret; it has 12 + |raw| + 16 bytes. */
  lemma WrappedKeyFraming(p: Provider, fileKey: Key, secret: string, iv: seq<byte>)
    requires p.Sound()
    requires fileKey.extractable
    requires |iv| == IvLength
    ensures WrappedKeyOf(p, fileKey, secret, iv).Some?
    ensures WrappedKeyOf(p, fileKey, secret, iv).value
            == BufferToBase64(iv + p.gcmSeal(p.sha256(Utf8.Encode(secret)), iv, fileKey.raw))
    ensures Base64.Decode(WrappedKeyOf(p, fileKey, secret, iv).value)
            == Some(iv + p.gcmSeal(p.sha256(Utf8.Encode(secret)), iv, fileKey.raw))
    ensures |iv + p.gcmSeal(p.sha256(Utf8.Encode(secret)), iv, fileKey.raw)|
            == IvLength + |fileKey.raw| + TagLength
  {
  }

  /** For a 256-bit file key the framed buffer has 60 bytes and its Base64 text 80 characters. */
  lemma WrappedKeySize(p: Provider, fileKey: Key, secret: string, iv: seq<byte>)
    requires p.Sound()
    requires fileKey.extractable && |fileKey.raw| == 32
    requires |iv| == IvLength
    ensures WrappedKeyOf(p, fileKey, secret, iv).Some?
    ensures |WrappedKeyOf(p, fileKey, secret, iv).value| == 80
    ensures |Base64.Decode(WrappedKeyOf(p, fileKey, secret, iv).value).value| == 60
  {
    WrappedKeyFraming(p, fileKey, secret, iv);
    FramedKeyText(iv + p.gcmSeal(p.sha256(Utf8.Encode(secret)), iv, fileKey.raw));
  }

  /** Sixty bytes have an 80-character Base64 text. */
  lemma FramedKeyText(b: seq<byte>)
    requires |b| == 60
    ensures |BufferToBase64(b)| == 80
  {
    assert (|b| + 2) / 3 == 20;
  }

  /** A file key that cannot be exported is never wrapped. */
  lemma WrapNeedsExtractableKey(p: Provider, fileKey: Key, secret: string, iv: seq<byte>)
    requires !fileKey.extractable
    ensures WrappedKeyOf(p, fileKey, secret, iv) == None
  {
  }
}
