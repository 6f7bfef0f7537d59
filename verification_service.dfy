/**
 * `VerificationService` of the `auth` package (auth/services/verification_service.py):
 * a one-time code per email, stored as a pending verification, overwritten when asked
 * for again, and deleted once used.
 *
 * The number `random.randint` drew, the clock reading and the token issued on success
 * are parameters; printing the code to the console is not modelled.
 */
module VerificationService {
  import opened Wrappers
  import opened Http
  import Decimal
  import opened AuthModels

  const AccountExistsMsg: string := "An account with this email already exists."
  const NoPendingMsg: string := "No pending verification for this email."
  const CodeExpiredMsg: string := "OTP has expired. Please request a new one."
  const InvalidCodeMsg: string := "Invalid OTP."
  const EmailVerifiedMsg: string := "Email verified successfully."

  /** `_generate_otp`: `str(random.randint(100000, 999999))`, where `draw` is the number
      drawn.  The text is six decimal digits, without a leading zero, and reads back as
      the number. */
  function GenerateOtp(draw: int): (otp: string)
    requires 100000 <= draw <= 999999
    ensures |otp| == 6
    ensures forall i :: 0 <= i < 6 ==> Decimal.IsDigit(otp[i])
    ensures otp[0] != '0'
    ensures Decimal.ParseInt(otp) == Some(draw)
  {
    assert Decimal.Pow10(5) == 100000;
    assert Decimal.Pow10(6) == 1000000;
    Decimal.NatToStringShape(draw, 6);
    Decimal.ParseIntToString(draw);
    Decimal.NatToString(draw)
  }

  function SentMsg(email: string): string {
    "OTP has been sent to " + email + "."
  }

  /** The `verifications` table after `send_otp` for an address without an account: an
      existing entry gets the new code and a fresh expiry in place, otherwise a new
      entry is added; either way the code is good for ten minutes. */
  function Upserted(verifications: map<string, Pending>, email: string, otp: string, now: int)
    : (r: map<string, Pending>)
    ensures r.Keys == verifications.Keys + {email}
    ensures r[email].otp == otp && r[email].otpExpiry == now + CodeLifetime
    ensures email in verifications ==> r[email].createdAt == verifications[email].createdAt
    ensures forall e :: e in verifications && e != email ==> r[e] == verifications[e]
  {
    if email in verifications then
      verifications[email := verifications[email].(otp := otp, otpExpiry := now + CodeLifetime)]
    else
      verifications[email := Pending(otp, now + CodeLifetime, now)]
  }

  /** `send_otp`: refused (409) when the address already has an account; otherwise the
      code is stored for the address. */
  method SendOtp(db: AuthDb, email: string, draw: int, now: int) returns (resp: Response)
    requires db.Valid()
    requires 100000 <= draw <= 999999
    modifies db
    ensures db.Valid()
    ensures db.users == old(db.users) && db.nextUserId == old(db.nextUserId)
    ensures EmailTaken(old(db.users), email) ==>
              resp == Response(409, Message(AccountExistsMsg)) && db.verifications == old(db.verifications)
    ensures !EmailTaken(old(db.users), email) ==>
              && resp == Response(200, Message(SentMsg(email)))
              && db.verifications == Upserted(old(db.verifications), email, GenerateOtp(draw), now)
  {
    if FindByEmail(db.users, email).Some? {
      return Response(409, Message(AccountExistsMsg));
    }
    var otp := GenerateOtp(draw);
    if email in db.verifications {
      var entry := db.verifications[email];
      db.verifications := db.verifications[email := entry.(otp := otp, otpExpiry := now + CodeLifetime)];
    } else {
      db.verifications := db.verifications[email := Pending(otp, now + CodeLifetime, now)];
    }
    resp := Response(200, Message(SentMsg(email)));
  }

  /** `verify_otp`: no entry is 404; an entry whose expiry is before now is 400, checked
      before the code; a wrong code is 400 and keeps the entry; the right code deletes
      the entry and returns the verification token. */
  method VerifyOtp(db: AuthDb, email: string, otpProvided: Option<string>, now: int, token: string)
    returns (resp: Response)
    requires db.Valid()
    modifies db
    ensures db.Valid()
    ensures db.users == old(db.users) && db.nextUserId == old(db.nextUserId)
    ensures email !in old(db.verifications) ==>
              resp == Response(404, Message(NoPendingMsg)) && db.verifications == old(db.verifications)
    ensures email in old(db.verifications) ==>
              var entry := old(db.verifications)[email];
              && (entry.otpExpiry < now ==> resp == Response(400, Message(CodeExpiredMsg)))
              && (entry.otpExpiry >= now && otpProvided != Some(entry.otp) ==>
                    resp == Response(400, Message(InvalidCodeMsg)))
              && (resp.code == 200 <==> entry.otpExpiry >= now && otpProvided == Some(entry.otp))
              && (resp.code == 200 ==>
                    && resp == Response(200, JObject(map["message" := JStr(EmailVerifiedMsg),
                                                         "verification_token" := JStr(token)]))
                    && db.verifications == old(db.verifications) - {email})
              && (resp.code != 200 ==> db.verifications == old(db.verifications))
  {
    if email !in db.verifications {
      return Response(404, Message(NoPendingMsg));
    }
    var entry := db.verifications[email];
    if entry.otpExpiry < now {
      return Response(400, Message(CodeExpiredMsg));
    }
    if otpProvided != Some(entry.otp) {
      return Response(400, Message(InvalidCodeMsg));
    }
    db.verifications := db.verifications - {email};
    resp := Response(200, JObject(map["message" := JStr(EmailVerifiedMsg), "verification_token" := JStr(token)]));
  }

  /** Asking twice keeps one entry for the address, carrying the second code: the code
      verifies once, within ten minutes (the expiry instant included), and using it again
      finds nothing. */
  method SendTwiceThenVerifyTwice(users: seq<User>, nextUserId: nat, verifications: map<string, Pending>,
                                  email: string, firstDraw: int, secondDraw: int,
                                  sentAt: int, resentAt: int, token: string)
    returns (entries: nat, verified: Response, reused: Response)
    requires forall i :: 0 <= i < |users| ==> users[i].id < nextUserId
    requires forall i, j :: 0 <= i < j < |users| ==>
               users[i].id != users[j].id && users[i].email != users[j].email && users[i].username != users[j].username
    requires !EmailTaken(users, email)
    requires 100000 <= firstDraw <= 999999 && 100000 <= secondDraw <= 999999
    ensures entries == |verifications.Keys + {email}|
    ensures verified == Response(200, JObject(map["message" := JStr(EmailVerifiedMsg),
                                                  "verification_token" := JStr(token)]))
    ensures reused == Response(404, Message(NoPendingMsg))
  {
    var db := new AuthDb(users, nextUserId, verifications);
    var _ := SendOtp(db, email, firstDraw, sentAt);
    var _ := SendOtp(db, email, secondDraw, resentAt);
    entries := |db.verifications|;
    assert db.verifications.Keys == verifications.Keys + {email};
    verified := VerifyOtp(db, email, Some(GenerateOtp(secondDraw)), resentAt + CodeLifetime, token);
    reused := VerifyOtp(db, email, Some(GenerateOtp(secondDraw)), resentAt + CodeLifetime, token);
  }

  /** A lapsed entry reports expiry even when the code is also wrong, and a wrong code
      leaves the entry in place for another try. */
  method ExpiryBeforeCode(users: seq<User>, nextUserId: nat, verifications: map<string, Pending>,
                          email: string, wrong: string, now: int, token: string)
    returns (lapsed: Response, mistaken: Response, after: map<string, Pending>)
    requires forall i :: 0 <= i < |users| ==> users[i].id < nextUserId
    requires forall i, j :: 0 <= i < j < |users| ==>
               users[i].id != users[j].id && users[i].email != users[j].email && users[i].username != users[j].username
    requires email in verifications && verifications[email].otp != wrong
    requires verifications[email].otpExpiry >= now
    ensures lapsed == Response(400, Message(CodeExpiredMsg))
    ensures mistaken == Response(400, Message(InvalidCodeMsg))
    ensures after == verifications
  {
    var db := new AuthDb(users, nextUserId, verifications);
    lapsed := VerifyOtp(db, email, Some(wrong), verifications[email].otpExpiry + 1, token);
    mistaken := VerifyOtp(db, email, Some(wrong), now, token);
    after := db.verifications;
  }
}
