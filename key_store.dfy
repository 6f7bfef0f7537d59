/**
 * The browser-side key store (client/src/utils/db.js): the IndexedDB database
 * `E2EE-FileKeys`, version 1, with one object store `keys` whose records are keyed by
 * their `id`.  The database outlives the page, so a `KeyDatabase` is opened on
 * whatever the profile already holds; every operation first runs `initDB`.
 */
module KeyStore {
  import opened Wrappers
  import opened WebCrypto

  class KeyDatabase {
    /** Whether the `keys` object store exists. */
    var hasStore: bool
    /** The records of the store: `{id, key}`, indexed by `id`. */
    var records: map<string, Key>

    ghost predicate Valid()
      reads this
    {
      !hasStore ==> records == map[]
    }

    /** The database as the profile holds it. */
    constructor (hasStore: bool, records: map<string, Key>)
      requires !hasStore ==> records == map[]
      ensures Valid()
      ensures this.hasStore == hasStore && this.records == records
    {
      this.hasStore := hasStore;
      this.records := records;
    }

    /** `initDB`: the upgrade creates the object store only when it is absent. */
    method InitDB()
      requires Valid()
      modifies this
      ensures Valid()
      ensures hasStore
      ensures records == old(records)
    {
      if !hasStore {
        hasStore := true;
        records := map[];
      }
    }

    /** `storeFileKey`: `put` of `{id: fileId, key}`, which replaces any record with that id. */
    method StoreFileKey(fileId: string, key: Key)
      requires Valid()
      modifies this
      ensures Valid() && hasStore
      ensures records == old(records)[fileId := key]
    {
      InitDB();
      records := records[fileId := key];
    }

    /** `getFileKey`: the stored key, or `null` when there is no record. */
    method GetFileKey(fileId: string) returns (r: Option<Key>)
      requires Valid()
      modifies this
      ensures Valid() && hasStore
      ensures records == old(records)
      ensures r == if fileId in records then Some(records[fileId]) else None
    {
      InitDB();
      if fileId in records {
        r := Some(records[fileId]);
      } else {
        r := None;
      }
    }

    /** `clearAllKeys`: removes every record, keeps the store. */
    method ClearAllKeys()
      requires Valid()
      modifies this
      ensures Valid() && hasStore
      ensures records == map[]
    {
      InitDB();
      records := map[];
    }
  }

  /** Whatever the profile held, a key just stored is the one read back. */
  method StoreThenGet(hasStore: bool, existing: map<string, Key>, fileId: string, key: Key)
    returns (r: Option<Key>)
    requires !hasStore ==> existing == map[]
    ensures r == Some(key)
  {
    var db := new KeyDatabase(hasStore, existing);
    db.StoreFileKey(fileId, key);
    r := db.GetFileKey(fileId);
  }

  /** Storing twice under one id keeps only the later key. */
  method StoreTwiceThenGet(hasStore: bool, existing: map<string, Key>, fileId: string,
                           first: Key, second: Key)
    returns (r: Option<Key>, count: nat)
    requires !hasStore ==> existing == map[]
    ensures r == Some(second)
    ensures count == |existing.Keys + {fileId}|
  {
    var db := new KeyDatabase(hasStore, existing);
    db.StoreFileKey(fileId, first);
    db.StoreFileKey(fileId, second);
    r := db.GetFileKey(fileId);
    count := |db.records|;
    assert db.records.Keys == existing.Keys + {fileId};
  }

  /** An id that was never stored reads as `null`. */
  method GetNeverStored(hasStore: bool, existing: map<string, Key>, fileId: string)
    returns (r: Option<Key>)
    requires !hasStore ==> existing == map[]
    requires fileId !in existing
    ensures r == None
  {
    var db := new KeyDatabase(hasStore, existing);
    r := db.GetFileKey(fileId);
  }

  /** Storing under one id leaves what another id reads unchanged. */
  method StoreLeavesOthers(hasStore: bool, existing: map<string, Key>, fileId: string, key: Key,
                           otherId: string)
    returns (before: Option<Key>, after: Option<Key>)
    requires !hasStore ==> existing == map[]
    requires otherId != fileId
    ensures before == after
    ensures after == if otherId in existing then Some(existing[otherId]) else None
  {
    var db := new KeyDatabase(hasStore, existing);
    before := db.GetFileKey(otherId);
    db.StoreFileKey(fileId, key);
    after := db.GetFileKey(otherId);
  }

  /** After `clearAllKeys` every id reads as `null`. */
  method ClearThenGet(hasStore: bool, existing: map<string, Key>, fileId: string)
    returns (r: Option<Key>)
    requires !hasStore ==> existing == map[]
    ensures r == None
  {
    var db := new KeyDatabase(hasStore, existing);
    db.ClearAllKeys();
    r := db.GetFileKey(fileId);
  }

  /** Opening the database again keeps what it holds. */
  method ReopenKeepsKeys(hasStore: bool, existing: map<string, Key>, fileId: string, key: Key)
    returns (r: Option<Key>)
    requires !hasStore ==> existing == map[]
    ensures r == Some(key)
  {
    var db := new KeyDatabase(hasStore, existing);
    db.StoreFileKey(fileId, key);
    db.InitDB();
    db.InitDB();
    r := db.GetFileKey(fileId);
  }
}
