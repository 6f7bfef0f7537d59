# End-to-end encrypted file sharing: a Dafny model

This project models the core of a file-sharing system designed so that the browser encrypts every
file before upload and keeps the per-file AES-GCM key to itself. By the design, the owner's client
shares a file by drawing a random link secret and wrapping the file key under a key derived from
that secret. It sends only the wrapped key to an access service and puts the secret in the link's
`#fragment`. The recipient's download page reads the fragment, redeems the link once, unwraps the
file key, downloads the ciphertext and decrypts it. In the code, only the recipient's side is wired
up (see below).

The model covers five parts:

- **The client key envelope** (`client/src/utils/crypto.js`, `client/src/pages/DownloadPage.jsx`):
  - Modules `CryptoUtils` and `DownloadPage`.
  - Web Crypto and the browser's random source are in `WebCrypto`.
  - `btoa`/`atob` are in `Base64`; btoa is section 4 of RFC 4648, atob is the WHATWG forgiving decode.
  - `TextEncoder` is in `Utf8`.
  - AES-GCM and SHA-256 are function values of a `WebCrypto.Provider`, passed in as a parameter.
    `Provider.Sound()` names what the model relies on: a 32-byte digest, a 16-byte tag, and that
    decryption undoes encryption. `TrivialProviderSound` shows those assumptions are consistent.
  - `getRandomValues` reads consecutive windows of a fixed stream held by an `Entropy` object.
    Two draws therefore never share bytes.
  - The download page is a `Page` class whose status moves `Loading → Ready → Downloading → Done`,
    or to `Error`. Network replies are parameters.
- **The client key store** (`client/src/utils/db.js`): module `KeyStore`, an IndexedDB object
  store kept as a map from file id to key.
- **The access service** (`server/access_service/src/routes.py`): module `AccessService`. The Redis
  hashes of share links are a map, together with each key's time to live. A link redeems once.
- **The file service** (`server/file_service/src/routes.py`, `models.py`): modules `FileService` and
  `FileModels`.
  - The `File` record, its column limits, its `to_dict`, and the ISO timestamp text.
  - A table of rows with upload, listing newest first, status change, permanent delete and public metadata.
- **Authentication**:
  - `server/auth_service/src/routes.py` with its `utils.send_otp_email`, in module `AuthRoutes`.
  - The `auth` package's `VerificationService` and `auth_service`, in modules
    `VerificationService`, `AuthService` and `AuthModels`.
  - Password hashing is an abstract `Passwords.Hasher`. Its only property is that a hash checks
    against the password it was made from.

HTTP answers are `Http.Response(code, body)` with a small JSON value type. An exception that the
service does not catch becomes Flask's plain 500 answer, `ServerError`. The auth services' clock readings are integers
in microseconds. The file service's `utcnow()` is a `FileModels.DateTime` record, ordered through
`FileModels.Ticks`. Identifiers, tokens, one-time codes and salts that the source draws at random are
parameters.

Where the design description and the code differ, the model follows the code:

- No client code encrypts a file, so there is no `encryptFile`,
  and `DecryptFile` is proved against the framing `iv || AES-GCM(key, iv, plaintext)`.
- The sharing-side helpers `generateLinkSecret` and `wrapFileKey` of `client/src/utils/crypto.js`,
  and all of the key store in `client/src/utils/db.js`, are exported but never called. No page
  imports them, `client/src/pages/UploadFile.jsx:60-62` has the secret key commented out, and no
  client code builds a link with a secret in its fragment. The model proves these helpers on
  their own. `DownloadPage.ShareAndRedeem` assumes that a link's fragment is `#` followed by the
  secret, which is the only form the download page can read.
- The link lifetime is the fixed 86400 seconds of `server/access_service/src/routes.py:34`; the route reads no `expires_in` from the request.
- The download page also has a `done` status, set at `DownloadPage.jsx:116`, even though the comment
  at `DownloadPage.jsx:47` does not list it.

## Model

| member | source | states |
|---|---|---|
| `CryptoUtils.StrToBuffer` | client/src/utils/crypto.js:4-6 | UTF-8 encoding; on ASCII text, one byte per character equal to its code |
| `CryptoUtils.BufferToBase64` | client/src/utils/crypto.js:9-11 | padded Base64 of length 4⌈n/3⌉ over the Base64 alphabet and `=`, which `atob` decodes back to the same bytes |
| `Base64.EncodeShape` | client/src/utils/crypto.js:10 | the `btoa` text is the unpadded encoding followed by 0, 1 or 2 `=` as n mod 3 demands |
| `Base64.DecodeEncode` | client/src/utils/crypto.js:10 | `atob(btoa(b)) == b` for every byte string |
| `Base64.DecodeEncodeWithoutPadding` | client/src/utils/crypto.js:16 | the forgiving decode also accepts the text with its padding removed, giving the same bytes |
| `Utf8.EncodeAscii` | client/src/utils/crypto.js:5 | `TextEncoder` keeps ASCII text byte for byte |
| `Decimal.ParseIntToString` | auth/services/verification_service.py:13 | `int(str(n)) == n` for every integer |
| `WebCrypto.Digest` | client/src/utils/crypto.js:22 | SHA-256 yields 32 bytes |
| `WebCrypto.ImportKey` | client/src/utils/crypto.js:23 | a raw AES key imports iff it is 16, 24 or 32 bytes, with the extractability and usages asked for |
| `WebCrypto.ExportKey` | client/src/utils/crypto.js:32 | raw export succeeds iff the key is extractable and returns its bytes |
| `WebCrypto.Encrypt` | client/src/utils/crypto.js:34-38 | encryption succeeds iff the key allows `encrypt`, and the ciphertext is 16 bytes longer than the plaintext |
| `WebCrypto.Decrypt` | client/src/pages/DownloadPage.jsx:27 | decryption fails without the `decrypt` usage or on input shorter than the tag |
| `WebCrypto.DecryptEncrypt` | client/src/pages/DownloadPage.jsx:27 | decrypting with the key and IV that encrypted returns the plaintext |
| `WebCrypto.Entropy.GetRandomValues` | client/src/utils/crypto.js:15 | fills the whole array with the next window of the random stream and advances the cursor by its length |
| `CryptoUtils.GenerateLinkSecret` | client/src/utils/crypto.js:14-17 | draws exactly 32 fresh bytes and returns their URL-safe unpadded Base64 |
| `CryptoUtils.LinkSecretIsUnpadded` | client/src/utils/crypto.js:16 | the three rewrites equal the unpadded encoding with `+`→`-` and `/`→`_` |
| `CryptoUtils.LinkSecretAlphabet` | client/src/utils/crypto.js:16 | the secret has the unpadded length and uses only URL-safe characters, with no `+`, `/` or `=` |
| `CryptoUtils.LinkSecretLength` | client/src/utils/crypto.js:15-16 | 32 bytes give 44 characters of `btoa` and a 43-character secret |
| `CryptoUtils.LinkSecretDecodes` | client/src/utils/crypto.js:16 | undoing the URL-safe rewrite and decoding gives back the random bytes |
| `CryptoUtils.LinkSecretIsAscii` | client/src/utils/crypto.js:20-22 | the secret is ASCII, so its UTF-8 bytes are its characters |
| `CryptoUtils.DeriveWrappingKey` | client/src/utils/crypto.js:20-24 | the wrapping key is the SHA-256 of the secret's UTF-8 bytes, 32 bytes, usable to encrypt and decrypt |
| `CryptoUtils.SetAt` | client/src/utils/crypto.js:41-42 | `Uint8Array.set` copies the source at the offset and leaves the rest of the array unchanged |
| `CryptoUtils.WrapFileKey` | client/src/utils/crypto.js:27-45 | draws one 12-byte IV, and only when the wrapping key was derived; the result is `base64(iv ‖ AES-GCM(wrap key, iv, raw file key))` |
| `CryptoUtils.WrapTwice` | client/src/utils/crypto.js:29 | two wraps of one key draw their IVs from disjoint windows of the random stream |
| `CryptoUtils.WrappedKeyFraming` | client/src/utils/crypto.js:40-44 | an extractable key always wraps; the text decodes to the IV followed by the sealed raw key |
| `CryptoUtils.WrappedKeySize` | client/src/utils/crypto.js:40-44 | a 32-byte file key wraps to 60 bytes, which is 80 Base64 characters |
| `CryptoUtils.WrapNeedsExtractableKey` | client/src/utils/crypto.js:32 | a non-extractable file key cannot be wrapped |
| `DownloadPage.Base64ToBytesInverts` | client/src/pages/DownloadPage.jsx:9-12 | `base64ToBytes` recovers every byte string `bufferToBase64` encoded |
| `DownloadPage.DeriveKey` | client/src/pages/DownloadPage.jsx:14-17 | the derived key material is 32 bytes |
| `DownloadPage.SameWrappingKey` | client/src/pages/DownloadPage.jsx:14-22 | the recipient imports the same key bytes the owner wrapped with |
| `DownloadPage.SplitUndoesFraming` | client/src/pages/DownloadPage.jsx:24-25 | `slice(0, 12)` and `slice(12)` split `iv ‖ ciphertext` back into its parts |
| `DownloadPage.UnwrapWrap` | client/src/pages/DownloadPage.jsx:19-28 | unwrapping a wrapped key with the same secret gives back the raw file key (extractable, `decrypt` only) |
| `DownloadPage.UnwrapFailures` | client/src/pages/DownloadPage.jsx:19-33 | undecodable or too-short wrapped keys give `null`; any result is a key of valid AES length |
| `DownloadPage.DecryptFileFraming` | client/src/pages/DownloadPage.jsx:35-41 | a blob framed `iv ‖ AES-GCM(key, iv, p)` decrypts to `p` |
| `DownloadPage.ShareAndRedeem` | client/src/pages/DownloadPage.jsx:52-103 | for a link whose fragment is `#` followed by the secret, the page reads the secret back, and the unwrapped key decrypts the file back |
| `DownloadPage.LoadErrorText` | client/src/pages/DownloadPage.jsx:80 | the shown error is the server's `msg` if present, else the fixed text, never empty |
| `DownloadPage.Page.constructor` | client/src/pages/DownloadPage.jsx:44-48 | the page starts loading, with no secret, no file info and no error |
| `DownloadPage.Page.Load` | client/src/pages/DownloadPage.jsx:50-85 | no fragment: error and no request; otherwise details then metadata, ready on both replies and error with the server message otherwise |
| `DownloadPage.Page.HandleDownloadAndDecrypt` | client/src/pages/DownloadPage.jsx:87-123 | downloading, then done with the decrypted file saved, or error; a failed unwrap downloads nothing |
| `DownloadPage.LoadThenDownload` | client/src/pages/DownloadPage.jsx:50-123 | every status change taken by the page is one of the allowed transitions |
| `KeyStore.KeyDatabase.InitDB` | client/src/utils/db.js:9-18 | opening creates the store only when missing and keeps every record |
| `KeyStore.KeyDatabase.StoreFileKey` | client/src/utils/db.js:21-24 | `put` inserts or replaces the key under its file id |
| `KeyStore.KeyDatabase.GetFileKey` | client/src/utils/db.js:27-31 | the stored key, or `null` when there is none, changing nothing |
| `KeyStore.KeyDatabase.ClearAllKeys` | client/src/utils/db.js:34-37 | empties the store |
| `KeyStore.StoreThenGet` | client/src/utils/db.js:21-31 | a key stored under a file id is read back |
| `KeyStore.StoreTwiceThenGet` | client/src/utils/db.js:23 | storing again overwrites: the second key is read and no record is added |
| `KeyStore.GetNeverStored` | client/src/utils/db.js:29-30 | a file id never stored reads as `null` |
| `KeyStore.StoreLeavesOthers` | client/src/utils/db.js:23 | storing one file id leaves every other file id's key unchanged |
| `KeyStore.ClearThenGet` | client/src/utils/db.js:34-37 | nothing is read after a clear |
| `KeyStore.ReopenKeepsKeys` | client/src/utils/db.js:12-14 | reopening does not recreate the store, so stored keys survive |
| `AccessService.ShareRecord` | server/access_service/src/routes.py:28-33 | the four fields of a share: the given file id and wrapped key, `valid` set to "true", and `owner_id` as the decimal text that reads back as the user id |
| `AccessService.HashSet` | server/access_service/src/routes.py:28 | `HSET` with a mapping overwrites those fields and keeps the others |
| `AccessService.ShareStore.CreateShareLink` | server/access_service/src/routes.py:8-36 | 400 and no change without both fields; a failing `hset` is 500 with no change; a failing `expire` is 500 with the record stored and no TTL set; otherwise 201 with the share id, the record stored and a 24-hour TTL |
| `AccessService.CreateExpireFails` | server/access_service/src/routes.py:28-34 | a create whose `expire` fails answers 500, yet leaves a redeemable link with no time to live |
| `AccessService.ShareStore.GetLinkDetails` | server/access_service/src/routes.py:39-75 | 200 with file id and wrapped key only while `valid` is `"true"`, then flips it to `"false"`; 404 and 500 change nothing |
| `AccessService.CreateThenRedeemTwice` | server/access_service/src/routes.py:52-62 | a created link redeems once with what was stored, and the second try is 404 |
| `AccessService.RedeemKeepsFields` | server/access_service/src/routes.py:57-59 | redeeming keeps every field but `valid` |
| `AccessService.CreateMissingField` | server/access_service/src/routes.py:20-21 | an empty file id or wrapped key is 400 and stores nothing |
| `AccessService.RefusedRedeemChangesNothing` | server/access_service/src/routes.py:52-54 | a refused redemption leaves the store unchanged |
| `FileModels.IsoFormatLength` | server/file_service/src/models.py:27 | `isoformat()` is 19 characters, or 26 with microseconds |
| `FileModels.NewFile` | server/file_service/src/models.py:8-19 | a new row gets the generated id, the owner's fields and status `active` |
| `FileModels.ToDict` | server/file_service/src/models.py:21-29 | exactly the keys id, owner_user_id, filename, size, created_at and status |
| `FileModels.ToDictHidesStorage` | server/file_service/src/models.py:21-29 | the dict is the same whatever the storage path and content type |
| `FileModels.ToDictDetermines` | server/file_service/src/models.py:21-29 | two files with the same dict agree on every field it shows |
| `FileService.InsertNewestFirst` | server/file_service/src/routes.py:60 | insertion keeps the same files as a multiset |
| `FileService.InsertKeepsSorted` | server/file_service/src/routes.py:60 | inserting into a newest-first list keeps it newest first |
| `FileService.Dicts` | server/file_service/src/routes.py:62 | one dict per file, in order |
| `FileService.FileTable.UploadFile` | server/file_service/src/routes.py:14-52 | 400 without a file part or metadata; 500 and no row on a bad size, a taken id or a value over a column limit; otherwise 201 and the new row |
| `FileService.FileTable.GetMyFiles` | server/file_service/src/routes.py:54-62 | exactly the caller's files, each once, newest first |
| `FileService.FileTable.UpdateFileStatus` | server/file_service/src/routes.py:64-82 | 404 unless owned, 400 for an unknown status, else 200 with only the status changed |
| `FileService.FileTable.DeleteFilePermanently` | server/file_service/src/routes.py:84-111 | 404 unless owned, 403 unless trashed, else 200 and the row removed |
| `FileService.FileTable.GetPublicMeta` | server/file_service/src/routes.py:113-125 | filename and size of any file, whoever owns it, or 404 |
| `FileService.UploadThenList` | server/file_service/src/routes.py:37-62 | an uploaded file appears in its owner's listing |
| `FileService.TrashThenDelete` | server/file_service/src/routes.py:96-111 | deleting is refused until the file is trashed, then removes it |
| `FileService.OthersAreRefused` | server/file_service/src/routes.py:70-73 | another user can neither change nor delete the file |
| `AuthRoutes.SendOtpEmail` | server/auth_service/src/utils.py:11-20 | a call without the three arguments raises; otherwise the delivery outcome |
| `AuthRoutes.UserTable.PendingUser` | server/auth_service/src/routes.py:26-30 | an unverified user with the hash of the password and a code valid for 10 minutes |
| `AuthRoutes.UserTable.Register` | server/auth_service/src/routes.py:14-38 | 400, 409, 500 when the mail fails, each with no change; else 201, the pending user stored and the next id advanced by one |
| `AuthRoutes.UserTable.RegisterAsWritten` | server/auth_service/src/routes.py:32 | as written, the two-argument call raises and nothing is stored |
| `AuthRoutes.UserTable.VerifyOtp` | server/auth_service/src/routes.py:40-65 | 400, 404, already verified, expired, invalid; else 200 with the account verified and the code cleared |
| `AuthRoutes.UserTable.Login` | server/auth_service/src/routes.py:67-86 | 400, 401 on unknown email or wrong password, 403 unverified, else 200 with both tokens |
| `AuthRoutes.RegisterVerifyLogin` | server/auth_service/src/routes.py:14-86 | with the corrected call, register, verify with the mailed code and log in all succeed |
| `AuthRoutes.RegistrationNeverCompletes` | server/auth_service/src/routes.py:32 | as written, registration answers 500 and the later verification finds no user |
| `AuthRoutes.FailedMailStoresNothing` | server/auth_service/src/routes.py:32-36 | a failed mail leaves no user behind |
| `AuthRoutes.ExpiryBoundary` | server/auth_service/src/routes.py:55 | the code is accepted at its expiry instant and refused one microsecond later |
| `AuthRoutes.WrongPasswordIsUnauthorized` | server/auth_service/src/routes.py:78-79 | a wrong password is 401 whatever the account's verification state |
| `AuthModels.FindByEmail` | auth/services/auth_service.py:25 | finds a user iff one has the email, and returns one with that email |
| `VerificationService.GenerateOtp` | auth/services/verification_service.py:11-13 | six digits without a leading zero that read back as the number drawn |
| `VerificationService.Upserted` | auth/services/verification_service.py:25-32 | one entry per address, with the new code valid for ten minutes and the others untouched |
| `VerificationService.SendOtp` | auth/services/verification_service.py:15-39 | 409 and no change for an existing account, else 200 with the code upserted |
| `VerificationService.VerifyOtp` | auth/services/verification_service.py:41-66 | 404, expired 400 before the code is looked at, invalid 400 keeping the entry, else 200 with a token and the entry deleted |
| `VerificationService.SendTwiceThenVerifyTwice` | auth/services/verification_service.py:26-66 | re-sending replaces the code; it verifies once at the deadline and is then gone |
| `VerificationService.ExpiryBeforeCode` | auth/services/verification_service.py:51-55 | a lapsed entry reports expiry whatever the code; a wrong code within time keeps the entry |
| `AuthService.RegisterUser` | auth/services/auth_service.py:5-18 | 409 on a taken email or username, a failed commit without a username, else exactly one unverified user added and the next id advanced; the next id changes only on success |
| `AuthService.LoginUser` | auth/services/auth_service.py:20-32 | a token iff the email exists and the password checks, else 401 |
| `AuthService.RegisterThenLogin` | auth/services/auth_service.py:5-30 | a newly registered user logs in with the password given |
| `AuthService.RegisterTwice` | auth/services/auth_service.py:11-12 | the second registration of an email is 409 and adds no user |
| `AuthService.LoginIgnoresVerification` | auth/services/auth_service.py:20-32 | login answers the same whatever the verification flags |
| `AuthService.FindIgnoresVerification` | auth/services/auth_service.py:25 | lookup by email is blind to verification flags |

## Left out

- AES-GCM, SHA-256 and the random source are abstract. The model assumes their sizes and the decrypt-after-encrypt law, not their security.
- `encryptFile` does not exist in the code. Neither does any upload-side encryption, so there is nothing to round-trip with `DecryptFile`.
- JavaScript strings are UTF-16. A lone surrogate in a secret is not expressible as a Dafny `char`.
- Stack limits of `String.fromCharCode(...bytes)` on very large buffers are not modelled.
- All browser and server code is asynchronous; the model runs each handler to completion in one step.
- React's batched state updates, effect re-runs on a new `shareId`, and unmounting are not modelled.
- Toasts, console output, rendering, and the browser download trigger (`createObjectURL`, the anchor click) are left out.
- IndexedDB failures (quota, blocked upgrade) and structured cloning of `CryptoKey` objects are left out: a stored key is read back equal.
- In `get_link_details`, Redis `WATCH` conflicts and other Redis errors are one fault flag, answering 500 with no change. Concurrent redemptions are not modelled.
- In `create_share_link`, a Redis error is the `CreateFault` input. A failing `hset` answers 500 with no change. A failing `expire` answers 500 with the record stored and no new time to live. Other Redis commands' failures are not distinguished.
- Redis TTL expiry itself is left out: the TTL is recorded but keys never disappear.
- Request bodies hold only strings. Other JSON types, and a missing or non-JSON body (`get_json()` returning `None`), are not modelled.
- `int(get_jwt_identity())` failing on a non-numeric identity is not modelled. The caller's id is an integer input.
- JWT issuing and checking are left out; tokens are parameters. So are `uuid4()` and the salts of the password hashes.
- Saving, deleting and sending blobs on disk are left out. This covers `save`, `os.remove` and the `download_file` route, which serves bytes from disk.
- The mail server is left out: `send_otp_email`'s delivery outcome is a parameter. `utils.generate_otp` draws random digits; the code is a parameter.
- `FileService.FileTable.GetMyFiles`: rows with equal timestamps may come in any order in the database. The model proves only that its order is newest first.
- `FileModels.Ticks` orders timestamps as one integer count. It is not proved equal to Python's `datetime` comparison for every calendar field.
- The VARCHAR limits of the authentication tables are not modelled; only the file table's column limits are.
- A new `Verification` reads the clock twice: `__init__` for the expiry (`auth/models/verification.py:16`) and the `created_at` column default at insert (`auth/models/verification.py:11`). The model takes one reading for both, and expiry compares naive UTC times as integers.
- `Decimal.ParseInt`: accepts only ASCII digits and the six ASCII whitespace characters space, tab, line feed, carriage return, vertical tab and form feed. Python's `int` also accepts other Unicode decimal digits and Unicode whitespace, so `FileService.FileTable.UploadFile` answers 500 where the source would accept such a `size`. The upload page sends no `size` at all.
- The `auth` package's `/register` and `/login` guards are the preconditions of `AuthService.RegisterUser` and `AuthService.LoginUser`. A present but non-string email is not modelled.
- The `manage_files` service, the `dashboard`, and pages other than the download page are not part of this model.
- `WebCrypto.Decrypt`: on success the result is whatever the provider's open function gives. Only the failure cases are stated.

## Findings

| source | as written | input that shows it | evidently intended | confidence | as-written member | corrected member |
|---|---|---|---|---|---|---|
| server/auth_service/src/routes.py:32 | `send_otp_email(email, otp)` passes two arguments to a function declared with three (server/auth_service/src/utils.py:11), which raises `TypeError` before any mail is sent or user stored | any `/register` request with a new email and a non-empty password, e.g. `{"email": "a@b.c", "password": "pw"}`: the answer is 500 and a later `/verify-otp` finds no user | pass the ten-minute lifetime as the third argument, so a delivered mail stores the pending user and answers 201 | high, not executed | `AuthRoutes.UserTable.RegisterAsWritten`, shown by `AuthRoutes.RegistrationNeverCompletes` | `AuthRoutes.UserTable.Register`, proved by `AuthRoutes.RegisterVerifyLogin` |
