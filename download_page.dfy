/**
 * The recipient's side of the link envelope (client/src/pages/DownloadPage.jsx).
 *
 * The helpers decode the wrapped key, derive the same wrapping key from the secret
 * in the URL fragment, split IV from ciphertext at byte 12 and decrypt.  The page
 * itself is a small state machine over `loading`, `ready`, `downloading`, `done`
 * and `error`, driven by the mount effect and the download button; the replies of
 * the two services are parameters of its methods.
 */
module DownloadPage {
  import opened Wrappers
  import Base64
  import Utf8
  import opened WebCrypto
  import CryptoUtils

  /** `base64ToBytes`: `atob`, with each character of the binary string read as a byte;
      `None` when `atob` throws. */
  function Base64ToBytes(b64: string): Option<seq<byte>> {
    Base64.Decode(b64)
  }

  /** `base64ToBytes` undoes `bufferToBase64` on every byte sequence. */
  lemma Base64ToBytesInverts(b: seq<byte>)
    ensures Base64ToBytes(CryptoUtils.BufferToBase64(b)) == Some(b)
  {
    Base64.DecodeEncode(b);
  }

  /** `deriveKey`: the raw SHA-256 digest of the secret's UTF-8 text. */
  function DeriveKey(p: Provider, secret: string): (r: seq<byte>)
    ensures p.Sound() ==> |r| == DigestLength
  {
    Digest(p, Utf8.Encode(secret))
  }

  /** `unwrapFileKey`: derive and import the wrapping key, decode the blob, split it at
      byte 12, decrypt the rest, import the plaintext as the file key.  Every failure
      along the way ends in the one `catch`, which returns `null`. */
  function UnwrapFileKey(p: Provider, wrappedKeyB64: string, linkSecret: string): Option<Key> {
    match ImportKey(DeriveKey(p, linkSecret), true, {DecryptUse})
    case None => None
    case Some(wrappingKey) =>
      match Base64ToBytes(wrappedKeyB64)
      case None => None
      case Some(wrappedKeyBytes) =>
        var iv := Take(wrappedKeyBytes, CryptoUtils.IvLength);
        var ciphertext := Drop(wrappedKeyBytes, CryptoUtils.IvLength);
        match Decrypt(p, wrappingKey, iv, ciphertext)
        case None => None
        case Some(fileKeyBuffer) => ImportKey(fileKeyBuffer, true, {DecryptUse})
  }

  /** `decryptFile`: the first 12 bytes are the IV, the rest the ciphertext; `None` when
      the decryption rejects. */
  function DecryptFile(p: Provider, encryptedBlob: seq<byte>, fileKey: Key): Option<seq<byte>> {
    Decrypt(p, fileKey, Take(encryptedBlob, CryptoUtils.IvLength), Drop(encryptedBlob, CryptoUtils.IvLength))
  }

  // ---------------------------------------------------------------------------
  // How the two sides fit together

  /** Both sides turn a secret into the same key material: the wrap side imports the
      digest for encryption and decryption, the unwrap side the same digest for
      decryption, and one import succeeds exactly when the other does. */
  lemma SameWrappingKey(p: Provider, secret: string)
    ensures CryptoUtils.DeriveWrappingKey(p, secret).Some?
            <==> ImportKey(DeriveKey(p, secret), true, {DecryptUse}).Some?
    ensures CryptoUtils.DeriveWrappingKey(p, secret).Some? ==>
            CryptoUtils.DeriveWrappingKey(p, secret).value.raw
            == ImportKey(DeriveKey(p, secret), true, {DecryptUse}).value.raw
            == DeriveKey(p, secret)
  {
  }

  /** Splitting `iv || ciphertext` at byte 12 gives back the two parts. */
  lemma SplitUndoesFraming(iv: seq<byte>, ciphertext: seq<byte>)
    requires |iv| == CryptoUtils.IvLength
    ensures Take(iv + ciphertext, CryptoUtils.IvLength) == iv
    ensures Drop(iv + ciphertext, CryptoUtils.IvLength) == ciphertext
  {
    assert (iv + ciphertext)[..CryptoUtils.IvLength] == iv;
    assert (iv + ciphertext)[CryptoUtils.IvLength..] == ciphertext;
  }

  /** Unwrapping what `wrapFileKey` produced, with the same secret, yields a key with the
      raw bytes of the original, extractable and usable for decryption. */
  lemma UnwrapWrap(p: Provider, fileKey: Key, secret: string, iv: seq<byte>)
    requires p.Sound()
    requires fileKey.extractable && IsAesKeyLength(|fileKey.raw|)
    requires |iv| == CryptoUtils.IvLength
    ensures CryptoUtils.WrappedKeyOf(p, fileKey, secret, iv).Some?
    ensures UnwrapFileKey(p, CryptoUtils.WrappedKeyOf(p, fileKey, secret, iv).value, secret)
            == Some(Key(fileKey.raw, true, {DecryptUse}))
  {
    var k := p.sha256(Utf8.Encode(secret));
    var ciphertext := p.gcmSeal(k, iv, fileKey.raw);
    CryptoUtils.WrappedKeyFraming(p, fileKey, secret, iv);
    SplitUndoesFraming(iv, ciphertext);
    assert Decrypt(p, Key(k, true, {DecryptUse}), iv, ciphertext) == Some(fileKey.raw);
  }

  /** Every cause of failure gives the same `None`: text `atob` rejects, a blob too short
      to hold IV and tag, a tag that does not verify (wrong secret or tampered data), or
      plaintext of a length AES does not accept as a key.  Conversely, a key is returned
      only when decryption succeeded and its plaintext is that key. */
  lemma UnwrapFailures(p: Provider, wrappedKeyB64: string, secret: string)
    requires p.Sound()
    ensures Base64ToBytes(wrappedKeyB64) == None ==> UnwrapFileKey(p, wrappedKeyB64, secret) == None
    ensures Base64ToBytes(wrappedKeyB64).Some? && |Base64ToBytes(wrappedKeyB64).value| < CryptoUtils.IvLength + TagLength
            ==> UnwrapFileKey(p, wrappedKeyB64, secret) == None
    ensures UnwrapFileKey(p, wrappedKeyB64, secret).Some? ==>
            var bytes := Base64ToBytes(wrappedKeyB64).value;
            && Base64ToBytes(wrappedKeyB64).Some?
            && |bytes| >= CryptoUtils.IvLength + TagLength
            && p.gcmOpen(DeriveKey(p, secret), bytes[..CryptoUtils.IvLength], bytes[CryptoUtils.IvLength..])
               == Some(UnwrapFileKey(p, wrappedKeyB64, secret).value.raw)
            && IsAesKeyLength(|UnwrapFileKey(p, wrappedKeyB64, secret).value.raw|)
  {
  }

  /** `decryptFile` reads the same framing: for a blob laid out as a 12-byte IV and the
      AES-GCM ciphertext under the file key, it returns the plaintext. */
  lemma DecryptFileFraming(p: Provider, fileKey: Key, iv: seq<byte>, plaintext: seq<byte>)
    requires p.Sound()
    requires DecryptUse in fileKey.usages
    requires |iv| == CryptoUtils.IvLength
    ensures DecryptFile(p, iv + p.gcmSeal(fileKey.raw, iv, plaintext), fileKey) == Some(plaintext)
  {
    SplitUndoesFraming(iv, p.gcmSeal(fileKey.raw, iv, plaintext));
  }

  /** The secret the page reads from `window.location.hash.substring(1)`. */
  function FragmentSecret(hash: string): string {
    if |hash| == 0 then "" else hash[1..]
  }

  /** End to end, for a link whose fragment is `#` followed by a secret made from random
      bytes (the page assumes this form; no client code here builds such a link): the
      recipient reads the secret back, unwraps the file key, and decrypts a blob framed as
      IV and ciphertext under that key into the plaintext the owner encrypted. */
  lemma ShareAndRedeem(p: Provider, fileKey: Key, random: seq<byte>, wrapIv: seq<byte>,
                       fileIv: seq<byte>, plaintext: seq<byte>)
    requires p.Sound()
    requires fileKey.extractable && IsAesKeyLength(|fileKey.raw|)
    requires |random| == CryptoUtils.SecretBytes && |wrapIv| == CryptoUtils.IvLength && |fileIv| == CryptoUtils.IvLength
    ensures var secret := CryptoUtils.LinkSecretOf(random);
            && FragmentSecret("#" + secret) == secret
            && CryptoUtils.WrappedKeyOf(p, fileKey, secret, wrapIv).Some?
            && var key := UnwrapFileKey(p, CryptoUtils.WrappedKeyOf(p, fileKey, secret, wrapIv).value, secret);
               && key.Some?
               && DecryptFile(p, fileIv + p.gcmSeal(fileKey.raw, fileIv, plaintext), key.value) == Some(plaintext)
  {
    var secret := CryptoUtils.LinkSecretOf(random);
    assert ("#" + secret)[1..] == secret;
    UnwrapWrap(p, fileKey, secret, wrapIv);
    DecryptFileFraming(p, Key(fileKey.raw, true, {DecryptUse}), fileIv, plaintext);
  }

  // ---------------------------------------------------------------------------
  // The page

  datatype Status = Loading | Ready | Downloading | Done | Error

  /** The moves the page's code makes: loading ends ready or in error, ready moves on
      to downloading, and downloading ends done or in error. */
  predicate Transition(from: Status, to: Status) {
    || (from == Loading && (to == Ready || to == Error))
    || (from == Ready && to == Downloading)
    || (from == Downloading && (to == Done || to == Error))
  }

  /** What the page shows once the link details and the public metadata are in. */
  datatype FileInfo = FileInfo(fileId: string, wrappedKey: string, filename: string, size: int)

  datatype LinkDetails = LinkDetails(fileId: string, wrappedKey: string)
  datatype PublicMeta = PublicMeta(filename: string, size: int)

  /** A reply from a service: its data, or a failure with the `msg` the reply carried, if any. */
  datatype Reply<T> = Ok(data: T) | Failed(msg: Option<string>)

  /** The requests the page sends, in the order sent. */
  datatype Request = DetailsRequest(shareId: string) | MetaRequest(fileId: string) | DownloadRequest(fileId: string)

  /** The file handed to the browser's download. */
  datatype SavedFile = SavedFile(filename: string, contents: seq<byte>)

  const NoSecretMsg: string := "No secret found in URL. This link is invalid."
  const LinkInvalidMsg: string := "This link is invalid or has expired."
  const DownloadFailedMsg: string := "Failed to download or decrypt the file."

  /** `err.response?.data?.msg || 'This link is invalid or has expired.'`. */
  function LoadErrorText(msg: Option<string>): (r: string)
    ensures r != ""
  {
    if msg.Some? && msg.value != "" then msg.value else LinkInvalidMsg
  }

  class Page {
    var status: Status
    var linkSecret: Option<string>
    var fileInfo: Option<FileInfo>
    var errorMsg: string
    /** Every request the page has sent. */
    var requests: seq<Request>
    /** The decrypted file handed to the browser, once there is one. */
    var saved: Option<SavedFile>
    /** Every status the page has been set to, in order. */
    ghost var trace: seq<Status>

    ghost predicate Valid()
      reads this
    {
      && (status == Ready || status == Downloading ==> fileInfo.Some? && linkSecret.Some?)
      && (status == Done ==> saved.Some?)
      && |trace| >= 1 && trace[|trace| - 1] == status
    }

    constructor ()
      ensures Valid()
      ensures status == Loading && linkSecret == None && fileInfo == None && errorMsg == ""
      ensures requests == [] && saved == None && trace == [Loading]
    {
      status := Loading;
      linkSecret := None;
      fileInfo := None;
      errorMsg := "";
      requests := [];
      saved := None;
      trace := [Loading];
    }

    method SetStatus(s: Status)
      modifies this`status, this`trace
      ensures status == s && trace == old(trace) + [s]
    {
      status := s;
      trace := trace + [s];
    }

    /** The mount effect: read the secret from the fragment; with none, fail without a
        request; otherwise fetch the link details, then the public metadata, and become
        ready, or fail with the service's message. */
    method Load(shareId: string, hash: string, details: Reply<LinkDetails>, meta: Reply<PublicMeta>)
      requires Valid()
      modifies this
      ensures Valid()
      ensures saved == old(saved)
      ensures FragmentSecret(hash) == "" ==>
                && status == Error && errorMsg == NoSecretMsg && trace == old(trace) + [Error]
                && requests == old(requests)
                && linkSecret == old(linkSecret) && fileInfo == old(fileInfo)
      ensures FragmentSecret(hash) != "" ==>
                && linkSecret == Some(FragmentSecret(hash))
                && requests == old(requests) + [DetailsRequest(shareId)]
                               + (if details.Ok? then [MetaRequest(details.data.fileId)] else [])
                && trace == old(trace) + [status]
                && (status == Ready <==> details.Ok? && meta.Ok?)
                && (status == Ready ==>
                      && errorMsg == old(errorMsg)
                      && fileInfo == Some(FileInfo(details.data.fileId, details.data.wrappedKey,
                                                meta.data.filename, meta.data.size)))
                && (status != Ready ==>
                      && status == Error && fileInfo == old(fileInfo)
                      && errorMsg == LoadErrorText(if details.Failed? then details.msg else meta.msg))
    {
      var secret := FragmentSecret(hash);
      if secret == "" {
        SetStatus(Error);
        errorMsg := NoSecretMsg;
        return;
      }
      linkSecret := Some(secret);
      requests := requests + [DetailsRequest(shareId)];
      if details.Failed? {
        SetStatus(Error);
        errorMsg := LoadErrorText(details.msg);
        return;
      }
      var fileId, wrappedKey := details.data.fileId, details.data.wrappedKey;
      requests := requests + [MetaRequest(fileId)];
      if meta.Failed? {
        SetStatus(Error);
        errorMsg := LoadErrorText(meta.msg);
        return;
      }
      fileInfo := Some(FileInfo(fileId, wrappedKey, meta.data.filename, meta.data.size));
      SetStatus(Ready);
    }

    /** The download button: show `downloading`, unwrap the file key (a `null` key is an
        error before anything is fetched), fetch the encrypted blob, decrypt it and hand
        it to the browser, then show `done`; any failure shows the one error message. */
    method HandleDownloadAndDecrypt(p: Provider, file: Reply<seq<byte>>)
      requires Valid() && status == Ready
      modifies this
      ensures Valid()
      ensures linkSecret == old(linkSecret) && fileInfo == old(fileInfo)
      ensures var key := UnwrapFileKey(p, old(fileInfo).value.wrappedKey, old(linkSecret).value);
              && trace == old(trace) + [Downloading, status]
              && (key == None ==> status == Error && requests == old(requests))
              && (key.Some? ==> requests == old(requests) + [DownloadRequest(old(fileInfo).value.fileId)])
              && (status == Done <==> key.Some? && file.Ok? && DecryptFile(p, file.data, key.value).Some?)
              && (status == Done ==>
                    && errorMsg == old(errorMsg)
                    && saved == Some(SavedFile(old(fileInfo).value.filename, DecryptFile(p, file.data, key.value).value)))
              && (status != Done ==> status == Error && errorMsg == DownloadFailedMsg && saved == old(saved))
    {
      SetStatus(Downloading);
      var info := fileInfo.value;
      var fileKey := UnwrapFileKey(p, info.wrappedKey, linkSecret.value);
      if fileKey == None {
        SetStatus(Error);
        errorMsg := DownloadFailedMsg;
        return;
      }
      requests := requests + [DownloadRequest(info.fileId)];
      if file.Failed? {
        SetStatus(Error);
        errorMsg := DownloadFailedMsg;
        return;
      }
      var decrypted := DecryptFile(p, file.data, fileKey.value);
      if decrypted == None {
        SetStatus(Error);
        errorMsg := DownloadFailedMsg;
        return;
      }
      saved := Some(SavedFile(info.filename, decrypted.value));
      SetStatus(Done);
    }
  }

  /** From a fresh page, the mount effect moves `loading` to `ready` or `error`, and
      the download then passes through `downloading` to `done` or `error`; every step is
      a `Transition`. */
  method LoadThenDownload(p: Provider, shareId: string, hash: string, details: Reply<LinkDetails>,
                          meta: Reply<PublicMeta>, file: Reply<seq<byte>>) returns (page: Page)
    ensures fresh(page) && page.Valid()
    ensures forall i :: 0 <= i < |page.trace| - 1 ==> Transition(page.trace[i], page.trace[i + 1])
    ensures FragmentSecret(hash) == "" ==> page.status == Error && page.requests == []
  {
    page := new Page();
    page.Load(shareId, hash, details, meta);
    assert Transition(page.trace[0], page.trace[1]);
    if page.status == Ready {
      page.HandleDownloadAndDecrypt(p, file);
      assert |page.trace| == 4;
    }
  }
}
