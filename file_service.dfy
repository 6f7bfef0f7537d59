/**
 * The metadata routes of the file service (server/file_service/src/routes.py) over
 * the `files` table, keyed by primary key.
 *
 * The caller's user id (from the token), the form fields, the fresh `uuid4` text, the
 * storage path and the clock are parameters.  Saving, removing and serving the blob on
 * disk are not modelled.  An exception the route does not catch ends in Flask's
 * generic 500 page, `ServerError`.
 */
module FileService {
  import opened Wrappers
  import opened Http
  import Decimal
  import opened FileModels

  const NoFilePartMsg: string := "No file part"
  const MissingMetadataMsg: string := "Missing metadata"
  const UploadedMsg: string := "File uploaded successfully"
  const NotFoundOrDeniedMsg: string := "File not found or access denied"
  const InvalidStatusMsg: string := "Invalid status"
  const NotTrashedMsg: string := "File must be in the trash to be deleted permanently"
  const DeletedMsg: string := "File permanently deleted"
  const FileNotFoundMsg: string := "File not found"

  /** `order_by(File.created_at.desc())`. */
  predicate SortedNewestFirst(s: seq<File>) {
    forall i, j :: 0 <= i < j < |s| ==> Ticks(s[j].createdAt) <= Ticks(s[i].createdAt)
  }

  /** Places `f` before the first record strictly older than it. */
  function InsertNewestFirst(f: File, s: seq<File>): (r: seq<File>)
    ensures multiset(r) == multiset(s) + multiset{f}
  {
    if s == [] then [f]
    else if Ticks(s[0].createdAt) < Ticks(f.createdAt) then [f] + s
    else
      assert s == [s[0]] + s[1..];
      [s[0]] + InsertNewestFirst(f, s[1..])
  }

  /** Inserting adds no record newer than what was there and `f`. */
  lemma InsertBounded(f: File, s: seq<File>, bound: int)
    requires forall x :: x in s ==> Ticks(x.createdAt) <= bound
    requires Ticks(f.createdAt) <= bound
    ensures forall x :: x in InsertNewestFirst(f, s) ==> Ticks(x.createdAt) <= bound
  {
    forall x | x in InsertNewestFirst(f, s)
      ensures Ticks(x.createdAt) <= bound
    {
      assert x in multiset(InsertNewestFirst(f, s));
      assert x in multiset(s) || x == f;
    }
  }

  /** A record no older than any in a sorted list can go in front of it. */
  lemma ConsSorted(a: File, rest: seq<File>)
    requires SortedNewestFirst(rest)
    requires forall x :: x in rest ==> Ticks(x.createdAt) <= Ticks(a.createdAt)
    ensures SortedNewestFirst([a] + rest)
  {
    var r := [a] + rest;
    forall i, j | 0 <= i < j < |r|
      ensures Ticks(r[j].createdAt) <= Ticks(r[i].createdAt)
    {
      if i == 0 {
        assert r[j] in rest;
      } else {
        assert r[i] == rest[i - 1] && r[j] == rest[j - 1];
      }
    }
  }

  /** Inserting into a list sorted newest first keeps it sorted. */
  lemma {:induction false} InsertKeepsSorted(f: File, s: seq<File>)
    requires SortedNewestFirst(s)
    ensures SortedNewestFirst(InsertNewestFirst(f, s))
  {
    if s == [] {
    } else if Ticks(s[0].createdAt) < Ticks(f.createdAt) {
      forall x | x in s
        ensures Ticks(x.createdAt) <= Ticks(f.createdAt)
      {
        var k :| 0 <= k < |s| && s[k] == x;
        assert k == 0 || Ticks(s[k].createdAt) <= Ticks(s[0].createdAt);
      }
      ConsSorted(f, s);
    } else {
      assert SortedNewestFirst(s[1..]) by {
        forall i, j | 0 <= i < j < |s[1..]|
          ensures Ticks(s[1..][j].createdAt) <= Ticks(s[1..][i].createdAt)
        {
          assert s[1..][i] == s[i + 1] && s[1..][j] == s[j + 1];
        }
      }
      forall x | x in s[1..]
        ensures Ticks(x.createdAt) <= Ticks(s[0].createdAt)
      {
        var k :| 0 <= k < |s[1..]| && s[1..][k] == x;
        assert s[1..][k] == s[k + 1];
      }
      InsertKeepsSorted(f, s[1..]);
      InsertBounded(f, s[1..], Ticks(s[0].createdAt));
      ConsSorted(s[0], InsertNewestFirst(f, s[1..]));
    }
  }

  /** Inserting a record not yet present adds exactly that record, once. */
  lemma InsertFresh(f: File, s: seq<File>)
    requires f !in s
    requires forall g :: g in s ==> multiset(s)[g] == 1
    ensures forall g :: g in InsertNewestFirst(f, s) <==> g in s || g == f
    ensures forall g :: g in InsertNewestFirst(f, s) ==> multiset(InsertNewestFirst(f, s))[g] == 1
  {
    var r := InsertNewestFirst(f, s);
    forall g
      ensures g in r <==> g in s || g == f
    {
      assert g in r <==> g in multiset(r);
      assert g in s <==> g in multiset(s);
    }
  }

  /** The JSON list `[file.to_dict() for file in files]`. */
  function Dicts(files: seq<File>): (r: seq<Json>)
    ensures |r| == |files|
    ensures forall i :: 0 <= i < |files| ==> r[i] == JObject(ToDict(files[i]))
  {
    seq(|files|, i requires 0 <= i < |files| => JObject(ToDict(files[i])))
  }

  /** The caller owns the record with this id. */
  predicate Owns(rows: map<string, File>, userId: int, fileId: string) {
    fileId in rows && rows[fileId].ownerUserId == userId
  }

  class FileTable {
    var rows: map<string, File>

    /** Each row sits under its own id, fits its columns, and has a status the routes allow. */
    ghost predicate Valid()
      reads this
    {
      forall id :: id in rows ==> rows[id].id == id && Storable(rows[id]) && IsFileStatus(rows[id].status)
    }

    constructor (rows: map<string, File>)
      ensures this.rows == rows
    {
      this.rows := rows;
    }

    /** `upload_file`: a `file` part and all three metadata fields are required; `size`
        must read as an integer (`int()` raising ends in a 500), and the row must be
        accepted by the database (a duplicate key or a value too large for its column
        ends in a 500).  A new row is owned by the caller and starts `active`. */
    method UploadFile(currentUserId: int, hasFilePart: bool, filename: Option<string>,
                      contentType: Option<string>, size: Option<string>,
                      generatedId: string, storagePath: string, now: DateTime)
      returns (resp: Response)
      requires Valid()
      requires IsUuid4Text(generatedId)
      modifies this
      ensures Valid()
      ensures !hasFilePart ==> resp == Response(400, Msg(NoFilePartMsg)) && rows == old(rows)
      ensures hasFilePart && !(Present(filename) && Present(contentType) && Present(size)) ==>
                resp == Response(400, Msg(MissingMetadataMsg)) && rows == old(rows)
      ensures resp.code == 201 <==>
                && hasFilePart && Present(filename) && Present(contentType) && Present(size)
                && Decimal.ParseInt(size.value).Some?
                && generatedId !in old(rows)
                && Storable(NewFile(generatedId, currentUserId, filename.value, contentType.value,
                                    Decimal.ParseInt(size.value).value, now, storagePath))
      ensures resp.code == 201 ==>
                var f := NewFile(generatedId, currentUserId, filename.value, contentType.value,
                                 Decimal.ParseInt(size.value).value, now, storagePath);
                && rows == old(rows)[generatedId := f]
                && resp.body == JObject(map["msg" := JStr(UploadedMsg), "file" := JObject(ToDict(f))])
      ensures resp.code != 201 ==> rows == old(rows) && (resp.code == 400 || resp == ServerError)
    {
      if !hasFilePart {
        return Response(400, Msg(NoFilePartMsg));
      }
      if !(Present(filename) && Present(contentType) && Present(size)) {
        return Response(400, Msg(MissingMetadataMsg));
      }
      var parsedSize := Decimal.ParseInt(size.value);
      if parsedSize == None {
        return ServerError;
      }
      var newFile := NewFile(generatedId, currentUserId, filename.value, contentType.value,
                             parsedSize.value, now, storagePath);
      if generatedId in rows || !Storable(newFile) {
        return ServerError;
      }
      rows := rows[generatedId := newFile];
      resp := Response(201, JObject(map["msg" := JStr(UploadedMsg), "file" := JObject(ToDict(newFile))]));
    }

    /** `get_my_files`: the caller's rows, each once, newest first. */
    method GetMyFiles(currentUserId: int) returns (resp: Response, listed: seq<File>)
      requires Valid()
      ensures forall f :: f in listed <==> f in rows.Values && f.ownerUserId == currentUserId
      ensures forall f :: f in listed ==> multiset(listed)[f] == 1
      ensures SortedNewestFirst(listed)
      ensures resp == Response(200, JList(Dicts(listed)))
    {
      var remaining := rows.Keys;
      listed := [];
      while remaining != {}
        invariant remaining <= rows.Keys
        invariant forall f :: f in listed ==>
                    f.id in rows && f.id !in remaining && rows[f.id] == f && f.ownerUserId == currentUserId
        invariant forall id :: id in rows && id !in remaining && rows[id].ownerUserId == currentUserId ==>
                    rows[id] in listed
        invariant forall f :: f in listed ==> multiset(listed)[f] == 1
        invariant SortedNewestFirst(listed)
        decreases |remaining|
      {
        var id :| id in remaining;
        if rows[id].ownerUserId == currentUserId {
          var f := rows[id];
          InsertKeepsSorted(f, listed);
          InsertFresh(f, listed);
          listed := InsertNewestFirst(f, listed);
        }
        remaining := remaining - {id};
      }
      forall f | f in rows.Values && f.ownerUserId == currentUserId
        ensures f in listed
      {
        var id :| id in rows && rows[id] == f;
      }
      resp := Response(200, JList(Dicts(listed)));
    }

    /** `update_file_status`: ownership is checked first (404), then the new status
        (400); only the status changes. */
    method UpdateFileStatus(currentUserId: int, fileId: string, newStatus: Option<string>)
      returns (resp: Response)
      requires Valid()
      modifies this
      ensures Valid()
      ensures !Owns(old(rows), currentUserId, fileId) ==>
                resp == Response(404, Msg(NotFoundOrDeniedMsg)) && rows == old(rows)
      ensures Owns(old(rows), currentUserId, fileId) && !(newStatus.Some? && IsFileStatus(newStatus.value)) ==>
                resp == Response(400, Msg(InvalidStatusMsg)) && rows == old(rows)
      ensures Owns(old(rows), currentUserId, fileId) && newStatus.Some? && IsFileStatus(newStatus.value) ==>
                var updated := old(rows)[fileId].(status := newStatus.value);
                && rows == old(rows)[fileId := updated]
                && resp == Response(200, JObject(ToDict(updated)))
    {
      if !Owns(rows, currentUserId, fileId) {
        return Response(404, Msg(NotFoundOrDeniedMsg));
      }
      if !(newStatus.Some? && IsFileStatus(newStatus.value)) {
        return Response(400, Msg(InvalidStatusMsg));
      }
      var updated := rows[fileId].(status := newStatus.value);
      rows := rows[fileId := updated];
      resp := Response(200, JObject(ToDict(updated)));
    }

    /** `delete_file_permanently`: only the owner, and only from the trash. */
    method DeleteFilePermanently(currentUserId: int, fileId: string) returns (resp: Response)
      requires Valid()
      modifies this
      ensures Valid()
      ensures !Owns(old(rows), currentUserId, fileId) ==>
                resp == Response(404, Msg(NotFoundOrDeniedMsg)) && rows == old(rows)
      ensures Owns(old(rows), currentUserId, fileId) && old(rows)[fileId].status != Trashed ==>
                resp == Response(403, Msg(NotTrashedMsg)) && rows == old(rows)
      ensures Owns(old(rows), currentUserId, fileId) && old(rows)[fileId].status == Trashed ==>
                resp == Response(200, Msg(DeletedMsg)) && rows == old(rows) - {fileId}
    {
      if !Owns(rows, currentUserId, fileId) {
        return Response(404, Msg(NotFoundOrDeniedMsg));
      }
      if rows[fileId].status != Trashed {
        return Response(403, Msg(NotTrashedMsg));
      }
      rows := rows - {fileId};
      resp := Response(200, Msg(DeletedMsg));
    }

    /** `get_public_meta`: anyone may learn a file's name and size, and nothing more. */
    method GetPublicMeta(fileId: string) returns (resp: Response)
      ensures fileId !in rows ==> resp == Response(404, Msg(FileNotFoundMsg))
      ensures fileId in rows ==>
                resp == Response(200, JObject(map["filename" := JStr(rows[fileId].filename),
                                                  "size" := JInt(rows[fileId].size)]))
      ensures resp.code == 200 ==> resp.body.JObject? && resp.body.fields.Keys == {"filename", "size"}
    {
      if fileId !in rows {
        return Response(404, Msg(FileNotFoundMsg));
      }
      var f := rows[fileId];
      resp := Response(200, JObject(map["filename" := JStr(f.filename), "size" := JInt(f.size)]));
    }
  }

  /** An accepted upload is listed for its uploader, status `active`, with the size the
      form gave. */
  method UploadThenList(rows: map<string, File>, userId: int, filename: string, contentType: string,
                        size: string, generatedId: string, storagePath: string, now: DateTime)
    returns (uploaded: Response, listed: seq<File>)
    requires forall id :: id in rows ==> rows[id].id == id && Storable(rows[id]) && IsFileStatus(rows[id].status)
    requires IsUuid4Text(generatedId)
    ensures uploaded.code == 201 ==>
              exists f :: f in listed && f.id == generatedId && f.status == Active
                          && f.ownerUserId == userId && Some(f.size) == Decimal.ParseInt(size)
    ensures uploaded.code != 201 ==> forall f :: f in listed ==> f.id in rows
  {
    var table := new FileTable(rows);
    uploaded := table.UploadFile(userId, true, Some(filename), Some(contentType), Some(size),
                                 generatedId, storagePath, now);
    var _, l := table.GetMyFiles(userId);
    listed := l;
    if uploaded.code == 201 {
      assert table.rows[generatedId] in table.rows.Values;
    }
  }

  /** A file the owner has moved to the trash can then be deleted for good; before that,
      deletion is refused. */
  method TrashThenDelete(rows: map<string, File>, userId: int, fileId: string)
    returns (early: Response, trashed: Response, deleted: Response, after: map<string, File>)
    requires forall id :: id in rows ==> rows[id].id == id && Storable(rows[id]) && IsFileStatus(rows[id].status)
    requires Owns(rows, userId, fileId) && rows[fileId].status != Trashed
    ensures early.code == 403 && trashed.code == 200 && deleted.code == 200
    ensures after == rows - {fileId}
  {
    var table := new FileTable(rows);
    early := table.DeleteFilePermanently(userId, fileId);
    trashed := table.UpdateFileStatus(userId, fileId, Some(Trashed));
    deleted := table.DeleteFilePermanently(userId, fileId);
    after := table.rows;
    assert after == rows - {fileId};
  }

  /** Another user can neither change nor delete a file: both answer 404 and the table
      stays as it was. */
  method OthersAreRefused(rows: map<string, File>, otherId: int, fileId: string, newStatus: Option<string>)
    returns (updated: Response, deleted: Response, after: map<string, File>)
    requires forall id :: id in rows ==> rows[id].id == id && Storable(rows[id]) && IsFileStatus(rows[id].status)
    requires !Owns(rows, otherId, fileId)
    ensures updated.code == 404 && deleted.code == 404
    ensures after == rows
  {
    var table := new FileTable(rows);
    updated := table.UpdateFileStatus(otherId, fileId, newStatus);
    deleted := table.DeleteFilePermanently(otherId, fileId);
    after := table.rows;
  }
}
