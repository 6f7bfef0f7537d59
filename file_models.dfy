/**
 * The `files` table of the file service (server/file_service/src/models.py): the
 * record, its column defaults and limits, and `to_dict`.
 */
module FileModels {
  import opened Wrappers
  import opened Http
  import Decimal

  // ---------------------------------------------------------------------------
  // Timestamps

  /** A naive `datetime`, as `datetime.utcnow()` returns it. */
  datatype DateTime = DateTime(year: nat, month: nat, day: nat, hour: nat, minute: nat,
                               second: nat, microsecond: nat)

  predicate IsLeapYear(y: nat) {
    y % 4 == 0 && (y % 100 != 0 || y % 400 == 0)
  }

  function DaysInMonth(y: nat, m: nat): nat
    requires 1 <= m <= 12
  {
    if m == 2 then (if IsLeapYear(y) then 29 else 28)
    else if m == 4 || m == 6 || m == 9 || m == 11 then 30
    else 31
  }

  /** The ranges `datetime` enforces on its fields. */
  predicate ValidDateTime(t: DateTime) {
    && 1 <= t.year <= 9999
    && 1 <= t.month <= 12
    && 1 <= t.day <= DaysInMonth(t.year, t.month)
    && t.hour < 24 && t.minute < 60 && t.second < 60 && t.microsecond < 1000000
  }

  /** The instant as one number, most significant field first; for valid timestamps
      its order is the field-by-field order Python compares `datetime`s in. */
  function Ticks(t: DateTime): int {
    (((((t.year * 13 + t.month) * 32 + t.day) * 24 + t.hour) * 60 + t.minute) * 60 + t.second) * 1000000
    + t.microsecond
  }

  /** `n` in decimal, with zeros in front to make `width` digits (`%0<width>d`). */
  function ZeroPad(n: nat, width: nat): string {
    var digits := Decimal.NatToString(n);
    if |digits| >= width then digits else seq(width - |digits|, i => '0') + digits
  }

  lemma ZeroPadLength(n: nat, width: nat)
    requires 1 <= width
    requires n < Decimal.Pow10(width)
    ensures |ZeroPad(n, width)| == width
    ensures forall i :: 0 <= i < width ==> Decimal.IsDigit(ZeroPad(n, width)[i])
  {
    var k := DigitCount(n);
    DigitCountBelow(n, width);
    Decimal.NatToStringShape(n, k);
  }

  /** The number of decimal digits of `n`. */
  function DigitCount(n: nat): (k: nat)
    ensures 1 <= k
    ensures (if k == 1 then 0 else Decimal.Pow10(k - 1)) <= n < Decimal.Pow10(k)
    decreases n
  {
    if n < 10 then 1 else DigitCount(n / 10) + 1
  }

  lemma {:induction false} DigitCountBelow(n: nat, width: nat)
    requires 1 <= width && n < Decimal.Pow10(width)
    ensures DigitCount(n) <= width
    decreases width
  {
    if n >= 10 {
      assert width >= 2;
      DigitCountBelow(n / 10, width - 1);
    }
  }

  /** `datetime.isoformat()`: `YYYY-MM-DDTHH:MM:SS`, followed by `.ffffff` only when
      the microseconds are not zero. */
  function IsoFormat(t: DateTime): string {
    ZeroPad(t.year, 4) + "-" + ZeroPad(t.month, 2) + "-" + ZeroPad(t.day, 2) + "T"
    + ZeroPad(t.hour, 2) + ":" + ZeroPad(t.minute, 2) + ":" + ZeroPad(t.second, 2)
    + (if t.microsecond == 0 then "" else "." + ZeroPad(t.microsecond, 6))
  }

  /** A valid timestamp formats to 19 characters, or 26 with microseconds. */
  lemma IsoFormatLength(t: DateTime)
    requires ValidDateTime(t)
    ensures |IsoFormat(t)| == if t.microsecond == 0 then 19 else 26
  {
    assert Decimal.Pow10(2) == 100;
    assert Decimal.Pow10(4) == 10000;
    assert Decimal.Pow10(6) == 1000000 by {
      assert Decimal.Pow10(5) == 100000;
    }
    ZeroPadLength(t.year, 4);
    ZeroPadLength(t.month, 2);
    ZeroPadLength(t.day, 2);
    ZeroPadLength(t.hour, 2);
    ZeroPadLength(t.minute, 2);
    ZeroPadLength(t.second, 2);
    if t.microsecond != 0 {
      ZeroPadLength(t.microsecond, 6);
    }
  }

  // ---------------------------------------------------------------------------
  // The record

  const Active: string := "active"
  const Trashed: string := "trashed"
  const Archived: string := "archived"

  /** The statuses the routes allow. */
  predicate IsFileStatus(s: string) {
    s == Active || s == Trashed || s == Archived
  }

  datatype File = File(
    id: string,
    ownerUserId: int,
    filename: string,
    contentType: string,
    size: int,
    createdAt: DateTime,
    storagePath: string,
    status: string)

  /** The range of a PostgreSQL `BIGINT`. */
  predicate IsBigInt(n: int) {
    -0x8000_0000_0000_0000 <= n < 0x8000_0000_0000_0000
  }

  /** The range of a PostgreSQL `INTEGER`. */
  predicate IsInteger(n: int) {
    -0x8000_0000 <= n < 0x8000_0000
  }

  /** What the database accepts for a row: the `VARCHAR` lengths and the integer ranges. */
  predicate Storable(f: File) {
    && |f.id| <= 36
    && |f.filename| <= 255
    && |f.contentType| <= 100
    && IsBigInt(f.size)
    && |f.storagePath| <= 1024
    && |f.status| <= 20
    && IsInteger(f.ownerUserId)
  }

  /** `True` for the lower-case hex digits `uuid4` writes. */
  predicate IsHexDigit(c: char) {
    ('0' <= c <= '9') || ('a' <= c <= 'f')
  }

  /** `str(uuid.uuid4())`: 32 lower-case hex digits in groups of 8-4-4-4-12, version
      digit `4`, variant digit one of `8`, `9`, `a`, `b`. */
  predicate IsUuid4Text(s: string) {
    && |s| == 36
    && (forall i :: 0 <= i < 36 ==> if i == 8 || i == 13 || i == 18 || i == 23 then s[i] == '-' else IsHexDigit(s[i]))
    && s[14] == '4'
    && (s[19] == '8' || s[19] == '9' || s[19] == 'a' || s[19] == 'b')
  }

  /** A record as the `File(...)` call in the upload route builds it: the id is the
      default's fresh `uuid4` text, `created_at` the default's `utcnow()`, and the status
      the default `active`. */
  function NewFile(generatedId: string, ownerUserId: int, filename: string, contentType: string,
                   size: int, now: DateTime, storagePath: string): (f: File)
    requires IsUuid4Text(generatedId)
    ensures f.status == Active && IsFileStatus(f.status)
    ensures f.id == generatedId && |f.id| == 36
    ensures f.ownerUserId == ownerUserId && f.filename == filename && f.contentType == contentType
    ensures f.size == size && f.createdAt == now && f.storagePath == storagePath
  {
    File(generatedId, ownerUserId, filename, contentType, size, now, storagePath, Active)
  }

  /** `to_dict`. */
  function ToDict(f: File): (d: map<string, Json>)
    ensures d.Keys == {"id", "owner_user_id", "filename", "size", "created_at", "status"}
    ensures "storage_path" !in d && "content_type" !in d
  {
    map["id" := JStr(f.id),
        "owner_user_id" := JInt(f.ownerUserId),
        "filename" := JStr(f.filename),
        "size" := JInt(f.size),
        "created_at" := JStr(IsoFormat(f.createdAt)),
        "status" := JStr(f.status)]
  }

  /** `to_dict` reveals nothing of where the blob is kept or of its content type: two
      records that differ only there give the same dictionary. */
  lemma ToDictHidesStorage(f: File, g: File)
    requires f.(storagePath := g.storagePath, contentType := g.contentType) == g
    ensures ToDict(f) == ToDict(g)
  {
  }

  /** `to_dict` keeps every field it shows: records with equal dictionaries agree on
      id, owner, name, size, status and the text of the timestamp. */
  lemma ToDictDetermines(f: File, g: File)
    requires ToDict(f) == ToDict(g)
    ensures f.id == g.id && f.ownerUserId == g.ownerUserId && f.filename == g.filename
    ensures f.size == g.size && f.status == g.status
    ensures IsoFormat(f.createdAt) == IsoFormat(g.createdAt)
  {
    assert ToDict(f)["id"] == ToDict(g)["id"];
    assert ToDict(f)["owner_user_id"] == ToDict(g)["owner_user_id"];
    assert ToDict(f)["filename"] == ToDict(g)["filename"];
    assert ToDict(f)["size"] == ToDict(g)["size"];
    assert ToDict(f)["status"] == ToDict(g)["status"];
    assert ToDict(f)["created_at"] == ToDict(g)["created_at"];
  }
}
