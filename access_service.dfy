/**
 * The one-time share-link table of the access service
 * (server/access_service/src/routes.py).
 *
 * Redis holds one hash per link under `share:<share_id>`, with the fields `file_id`,
 * `owner_id`, `wrapped_key` and `valid`; each hash has a time to live.  Values are
 * kept as text (Redis stores the UTF-8 bytes, which decoding gives back).  The share
 * id that `uuid4` would produce, the caller's identity from the token and which Redis
 * command raises, if any, are parameters.  The watched transaction of a redeem is one atomic step.
 */
module AccessService {
  import opened Wrappers
  import opened Http
  import Decimal

  /** Seconds a link lives before Redis expires it. */
  const LinkTtl: nat := 86400

  const MissingFieldsMsg: string := "Missing file_id or wrapped_key"
  const LinkUnusableMsg: string := "Link is invalid, expired, or has already been used"
  const NoLinkDataMsg: string := "Link data could not be retrieved"
  const RedisErrorMsg: string := "An error occurred. Please try again."

  type Hash = map<string, string>

  /** Which Redis command of `create_share_link` raises: none, the `hset`, or the
      `expire` that follows a successful `hset`. */
  datatype CreateFault = NoFault | HsetFails | ExpireFails

  function RedisKey(shareId: string): string {
    "share:" + shareId
  }

  /** The fields a create writes; `owner_id` is the decimal text of the user id. */
  function ShareRecord(fileId: string, ownerId: int, wrappedKey: string): (h: Hash)
    ensures h.Keys == {"file_id", "owner_id", "wrapped_key", "valid"}
    ensures h["file_id"] == fileId && h["wrapped_key"] == wrappedKey && h["valid"] == "true"
    ensures Decimal.ParseInt(h["owner_id"]) == Some(ownerId)
  {
    Decimal.ParseIntToString(ownerId);
    map["file_id" := fileId, "owner_id" := Decimal.IntToString(ownerId),
        "wrapped_key" := wrappedKey, "valid" := "true"]
  }

  /** `hset` with a mapping: sets those fields, keeps any others. */
  function HashSet(hashes: map<string, Hash>, key: string, fields: Hash): (r: map<string, Hash>)
    ensures r.Keys == hashes.Keys + {key}
    ensures forall f :: f in fields ==> f in r[key] && r[key][f] == fields[f]
    ensures forall f :: key in hashes && f in hashes[key] && f !in fields ==> f in r[key] && r[key][f] == hashes[key][f]
    ensures forall k :: k in hashes && k != key ==> r[k] == hashes[k]
  {
    hashes[key := (if key in hashes then hashes[key] else map[]) + fields]
  }

  /** A link can be redeemed when its hash has `valid` set to `true`; `hget` of a
      missing key or field gives nothing, which the route reads as invalid. */
  predicate Redeemable(hashes: map<string, Hash>, key: string) {
    key in hashes && "valid" in hashes[key] && hashes[key]["valid"] == "true"
  }

  /** `share_data.get(field, b'')`. */
  function FieldOr(h: Hash, field: string): string {
    if field in h then h[field] else ""
  }

  function DetailsBody(h: Hash): Json {
    JObject(map["file_id" := JStr(FieldOr(h, "file_id")), "wrapped_key" := JStr(FieldOr(h, "wrapped_key"))])
  }

  class ShareStore {
    var hashes: map<string, Hash>
    /** The time to live last set on each key, in seconds. */
    var ttl: map<string, nat>

    /** Redis as it stands. */
    constructor (hashes: map<string, Hash>, ttl: map<string, nat>)
      ensures this.hashes == hashes && this.ttl == ttl
    {
      this.hashes := hashes;
      this.ttl := ttl;
    }

    /** `create_share_link`: both fields must be present and non-empty; then the hash is
        written with `valid` set, given a day to live, and the new id returned.  The route
        catches no Redis error: a failing `hset` is a 500 with nothing written, and a
        failing `expire` is a 500 after the record was written, which then has no new
        time to live. */
    method CreateShareLink(currentUserId: int, fileId: Option<string>, wrappedKey: Option<string>,
                           shareId: string, fault: CreateFault)
      returns (resp: Response)
      modifies this
      ensures !(Present(fileId) && Present(wrappedKey)) ==>
                && resp == Response(400, Msg(MissingFieldsMsg))
                && hashes == old(hashes) && ttl == old(ttl)
      ensures Present(fileId) && Present(wrappedKey) && fault == HsetFails ==>
                resp == ServerError && hashes == old(hashes) && ttl == old(ttl)
      ensures Present(fileId) && Present(wrappedKey) && fault != HsetFails ==>
                && hashes == HashSet(old(hashes), RedisKey(shareId),
                                     ShareRecord(fileId.value, currentUserId, wrappedKey.value))
                && (fault == ExpireFails ==> resp == ServerError && ttl == old(ttl))
                && (fault == NoFault ==>
                      && resp == Response(201, JObject(map["share_id" := JStr(shareId)]))
                      && ttl == old(ttl)[RedisKey(shareId) := LinkTtl])
    {
      if !(Present(fileId) && Present(wrappedKey)) {
        return Response(400, Msg(MissingFieldsMsg));
      }
      var redisKey := RedisKey(shareId);
      if fault == HsetFails {
        return ServerError;
      }
      hashes := HashSet(hashes, redisKey, ShareRecord(fileId.value, currentUserId, wrappedKey.value));
      if fault == ExpireFails {
        return ServerError;
      }
      ttl := ttl[redisKey := LinkTtl];
      resp := Response(201, JObject(map["share_id" := JStr(shareId)]));
    }

    /** `get_link_details`: a link whose `valid` flag is not `true` is refused and left
        alone; otherwise its fields are read and `valid` set to `false` in the same
        transaction.  `fault` stands for any exception Redis raises, which aborts the
        transaction. */
    method GetLinkDetails(shareId: string, fault: bool) returns (resp: Response)
      modifies this
      ensures ttl == old(ttl)
      ensures fault ==> resp == Response(500, Msg(RedisErrorMsg)) && hashes == old(hashes)
      ensures !fault && !Redeemable(old(hashes), RedisKey(shareId)) ==>
                resp == Response(404, Msg(LinkUnusableMsg)) && hashes == old(hashes)
      ensures !fault && Redeemable(old(hashes), RedisKey(shareId)) ==>
                var h := old(hashes)[RedisKey(shareId)];
                && resp == Response(200, DetailsBody(h))
                && hashes == old(hashes)[RedisKey(shareId) := h["valid" := "false"]]
    {
      if fault {
        return Response(500, Msg(RedisErrorMsg));
      }
      var redisKey := RedisKey(shareId);
      if !Redeemable(hashes, redisKey) {
        return Response(404, Msg(LinkUnusableMsg));
      }
      // MULTI: hgetall, then hset valid false; EXEC
      var shareData := hashes[redisKey];
      hashes := hashes[redisKey := shareData["valid" := "false"]];
      if shareData == map[] {
        return Response(404, Msg(NoLinkDataMsg));
      }
      resp := Response(200, DetailsBody(shareData));
    }
  }

  /** A link made from a fresh share id can be redeemed once: the first redeem returns the
      file id and wrapped key that were stored, the second is refused. */
  method CreateThenRedeemTwice(hashes: map<string, Hash>, ttl: map<string, nat>, userId: int,
                               fileId: string, wrappedKey: string, shareId: string)
    returns (created: Response, first: Response, second: Response)
    requires fileId != "" && wrappedKey != ""
    ensures created == Response(201, JObject(map["share_id" := JStr(shareId)]))
    ensures first == Response(200, JObject(map["file_id" := JStr(fileId), "wrapped_key" := JStr(wrappedKey)]))
    ensures second == Response(404, Msg(LinkUnusableMsg))
  {
    var store := new ShareStore(hashes, ttl);
    var key := RedisKey(shareId);
    created := store.CreateShareLink(userId, Some(fileId), Some(wrappedKey), shareId, NoFault);
    ghost var h := store.hashes[key];
    assert h["file_id"] == fileId && h["wrapped_key"] == wrappedKey && h["valid"] == "true";
    assert DetailsBody(h) == JObject(map["file_id" := JStr(fileId), "wrapped_key" := JStr(wrappedKey)]);
    first := store.GetLinkDetails(shareId, false);
    assert store.hashes[key]["valid"] == "false";
    second := store.GetLinkDetails(shareId, false);
  }

  /** Redeeming changes only `valid`: the stored file id, owner and wrapped key survive,
      and the owner id still reads back as the creator's id. */
  method RedeemKeepsFields(hashes: map<string, Hash>, ttl: map<string, nat>, userId: int,
                           fileId: string, wrappedKey: string, shareId: string)
    returns (stored: Hash, expiry: nat)
    requires fileId != "" && wrappedKey != ""
    requires RedisKey(shareId) !in hashes
    ensures stored == map["file_id" := fileId, "owner_id" := Decimal.IntToString(userId),
                          "wrapped_key" := wrappedKey, "valid" := "false"]
    ensures Decimal.ParseInt(stored["owner_id"]) == Some(userId)
    ensures expiry == LinkTtl
  {
    var store := new ShareStore(hashes, ttl);
    var record := ShareRecord(fileId, userId, wrappedKey);
    var _ := store.CreateShareLink(userId, Some(fileId), Some(wrappedKey), shareId, NoFault);
    assert store.hashes[RedisKey(shareId)] == record by {
      assert map[] + record == record;
    }
    assert Redeemable(store.hashes, RedisKey(shareId));
    var _ := store.GetLinkDetails(shareId, false);
    stored := store.hashes[RedisKey(shareId)];
    assert stored == record["valid" := "false"];
    RecordInvalidated(fileId, userId, wrappedKey);
    expiry := store.ttl[RedisKey(shareId)];
  }

  /** A share record with `valid` turned off, written out field by field. */
  lemma RecordInvalidated(fileId: string, ownerId: int, wrappedKey: string)
    ensures ShareRecord(fileId, ownerId, wrappedKey)["valid" := "false"]
            == map["file_id" := fileId, "owner_id" := Decimal.IntToString(ownerId),
                   "wrapped_key" := wrappedKey, "valid" := "false"]
    ensures Decimal.ParseInt(Decimal.IntToString(ownerId)) == Some(ownerId)
  {
    Decimal.ParseIntToString(ownerId);
  }

  /** A create missing either field answers 400 and writes nothing. */
  method CreateMissingField(hashes: map<string, Hash>, ttl: map<string, nat>, userId: int,
                            fileId: Option<string>, wrappedKey: Option<string>, shareId: string,
                            fault: CreateFault)
    returns (resp: Response, after: map<string, Hash>)
    requires !Present(fileId) || !Present(wrappedKey)
    ensures resp.code == 400
    ensures after == hashes
  {
    var store := new ShareStore(hashes, ttl);
    resp := store.CreateShareLink(userId, fileId, wrappedKey, shareId, fault);
    after := store.hashes;
  }

  /** A create whose `expire` fails still answers 500, yet the link it wrote for a fresh
      share id is stored without a time to live and can be redeemed. */
  method CreateExpireFails(hashes: map<string, Hash>, ttl: map<string, nat>, userId: int,
                           fileId: string, wrappedKey: string, shareId: string)
    returns (created: Response, expiring: bool, redeemed: Response)
    requires fileId != "" && wrappedKey != ""
    requires RedisKey(shareId) !in hashes && RedisKey(shareId) !in ttl
    ensures created == ServerError
    ensures !expiring
    ensures redeemed == Response(200, JObject(map["file_id" := JStr(fileId), "wrapped_key" := JStr(wrappedKey)]))
  {
    var store := new ShareStore(hashes, ttl);
    var key := RedisKey(shareId);
    created := store.CreateShareLink(userId, Some(fileId), Some(wrappedKey), shareId, ExpireFails);
    expiring := key in store.ttl;
    ghost var h := store.hashes[key];
    assert h["file_id"] == fileId && h["wrapped_key"] == wrappedKey && h["valid"] == "true";
    assert DetailsBody(h) == JObject(map["file_id" := JStr(fileId), "wrapped_key" := JStr(wrappedKey)]);
    redeemed := store.GetLinkDetails(shareId, false);
  }

  /** A refused or failed redeem leaves every link as it was. */
  method RefusedRedeemChangesNothing(hashes: map<string, Hash>, ttl: map<string, nat>, shareId: string,
                                     fault: bool)
    returns (resp: Response, after: map<string, Hash>)
    requires fault || !Redeemable(hashes, RedisKey(shareId))
    ensures resp.code == 404 || resp.code == 500
    ensures resp.code == 500 <==> fault
    ensures after == hashes
  {
    var store := new ShareStore(hashes, ttl);
    resp := store.GetLinkDetails(shareId, fault);
    after := store.hashes;
  }
}
