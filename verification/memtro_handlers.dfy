/**
 * `handle_get` and `handle_put`: the two store operations. Each is one atomic
 * step on the table (the write lock makes `put` one step); the response is
 * returned as a message rather than as packed bytes.
 */
module Handlers {
  import opened Store
  import opened Messages

  /**
   * `handle_get`: looks the strlen content of the key up in the table. A hit
   * yields the stored bytes; a miss yields an absent value of length 0.
   */
  function HandleGet(db: Db, get: Get): (r: Response)
    ensures r.GetResponse?
    ensures r.hasValue <==> CString(get.key) in db
    ensures r.hasValue ==> r.value == db[CString(get.key)]
    ensures !r.hasValue ==> r.value == []
  {
    var key := CString(get.key);
    if key in db then GetResponse(true, db[key]) else GetResponse(false, [])
  }

  /** What `handle_put` leaves behind: the table, the response, and the (possibly cleared) `Put` envelope. */
  datatype PutOutcome = PutOutcome(db: Db, response: Response, envelope: Put)

  /**
   * `handle_put`: insert-if-absent under the strlen content of the key. A new
   * key is inserted with the payload of the request, and the envelope's key
   * and value pointers are cleared because the table now owns those buffers.
   * A present key leaves the table and the envelope as they were.
   */
  function HandlePut(db: Db, put: Put): (r: PutOutcome)
    requires put.key.Owned?
    ensures r.response.PutResponse?
    ensures var key := CString(put.key.data);
      && (r.response.isNew <==> key !in db)
      && Extends(db, r.db)
      && r.db.Keys == db.Keys + {key}
      && r.db[key] == (if r.response.isNew then Payload(put.value) else db[key])
    ensures Valid(db) ==> Valid(r.db)
    ensures r.response.isNew ==> r.envelope.key.Null? && r.envelope.value.Null?
    ensures !r.response.isNew ==> r.envelope == put && r.db == db
  {
    var key := CString(put.key.data);
    if key in db then
      PutOutcome(db, PutResponse(false), put)
    else
      PutOutcome(db[key := Payload(put.value)], PutResponse(true), Put(Null, Null))
  }

  /** A get right after a put of an absent key returns exactly the bytes that were put. */
  lemma GetAfterPut(db: Db, key: string, value: Bytes)
    requires CString(key) !in db
    ensures var put := HandlePut(db, Put(Owned(key), Owned(value)));
      && put.response == PutResponse(true)
      && HandleGet(put.db, Get(key)) == GetResponse(true, value)
  {
  }

  /**
   * First write wins: a second put of the same key reports `isNew == false`
   * and a later get still returns the first value.
   */
  lemma SecondPutIgnored(db: Db, key: string, v1: Bytes, v2: Bytes)
    requires CString(key) !in db
    ensures var first := HandlePut(db, Put(Owned(key), Owned(v1)));
      var second := HandlePut(first.db, Put(Owned(key), Owned(v2)));
      && second.response == PutResponse(false)
      && second.db == first.db
      && HandleGet(second.db, Get(key)) == GetResponse(true, v1)
  {
  }

  /** A key that was never inserted is reported absent with no value. */
  lemma GetOfAbsentKey(db: Db, key: string)
    requires CString(key) !in db
    ensures HandleGet(db, Get(key)) == GetResponse(false, [])
  {
  }

  /**
   * Two request keys that differ only after a NUL name the same entry: both
   * handlers see the key only up to its first NUL, so the replies and the
   * resulting table agree for any value.
   */
  lemma KeysCompareUpToNul(db: Db, k1: string, k2: string, v: Buffer<Bytes>)
    requires CString(k1) == CString(k2)
    ensures HandleGet(db, Get(k1)) == HandleGet(db, Get(k2))
    ensures HandlePut(db, Put(Owned(k1), v)).response == HandlePut(db, Put(Owned(k2), v)).response
    ensures HandlePut(db, Put(Owned(k1), v)).db == HandlePut(db, Put(Owned(k2), v)).db
  {
  }
}
