/**
 * The body of `cache_worker`: one decoded request is dispatched to
 * `handle_get` or `handle_put`, and the envelope is released afterwards.
 * Workers share one table. Each `put` holds the write lock for its whole
 * probe-then-insert, so puts are atomic and happen one after another. A `get`
 * takes no lock and can overlap a put's insertion; the model assumes each get
 * is atomic too, and `Serve` is a run under that assumption.
 */
module Worker {
  import opened Wrappers
  import opened Store
  import opened Messages
  import opened Handlers

  /** One served request: the table afterwards, the reply, and the envelope as it is released. */
  datatype Step = Step(db: Db, response: Response, leftover: MemtroRequest)

  /** The request is a put that inserted a new entry. */
  predicate Inserted(s: Step) {
    s.response.PutResponse? && s.response.isNew
  }

  /** The key a put request names, as the table compares it. */
  function PutKeyOf(req: MemtroRequest): (k: Key)
    requires req.put.Some? && req.put.value.key.Owned?
    ensures NUL !in k
  {
    CString(req.put.value.key.data)
  }

  /** The bytes a put request carries. */
  function PutPayload(req: MemtroRequest): Bytes
    requires req.put.Some?
  {
    Payload(req.put.value.value)
  }

  /** `req` is routed to `handle_put` and names `k`. */
  predicate IsPutOf(req: MemtroRequest, k: Key) {
    req.get.None? && req.put.Some? && req.put.value.key.Owned? && PutKeyOf(req) == k
  }

  /**
   * The dispatch of `cache_worker`: a request whose `get` member is set goes to
   * `handle_get` (even if `put` is set too); every other request goes to
   * `handle_put`. A get never changes the table; a put adds at most the one
   * key it names and changes no existing entry.
   */
  function Dispatch(db: Db, req: MemtroRequest): (r: Step)
    requires WellFormed(req)
    ensures r.response.GetResponse? <==> req.get.Some?
    ensures req.get.Some? ==> r.db == db && r.leftover == req
    ensures req.get.Some? ==> r.response == HandleGet(db, req.get.value)
    ensures req.get.None? ==> r.db.Keys == db.Keys + {PutKeyOf(req)}
    ensures req.get.None? ==> (r.response.isNew <==> PutKeyOf(req) !in db)
    ensures Extends(db, r.db)
    ensures Valid(db) ==> Valid(r.db)
    ensures Inserted(r) <==> r.db != db
    ensures Inserted(r) ==> r.db[PutKeyOf(req)] == PutPayload(req)
  {
    match req.get
    case Some(get) => Step(db, HandleGet(db, get), req)
    case None =>
      var out := HandlePut(db, req.put.value);
      assert PutKeyOf(req) in out.db;
      assert out.response.isNew ==> PutKeyOf(req) !in db;
      Step(out.db, out.response, req.(put := Some(out.envelope)))
  }

  /**
   * Ownership of the decoded buffers. When a put inserts, the key and value
   * buffers now belong to the table and the release of the envelope skips
   * them; in every other case the envelope is released in full, so nothing
   * leaks and nothing is freed twice.
   */
  lemma OwnershipTransfer(db: Db, req: MemtroRequest)
    requires WellFormed(req)
    ensures var r := Dispatch(db, req);
      && (Inserted(r) ==> Freed(r.leftover) == Freed(req) - {PutKey, PutValue})
      && (Inserted(r) ==> PutKey in Freed(req) && r.db[PutKeyOf(req)] == PutPayload(req))
      && (!Inserted(r) ==> r.leftover == req && Freed(r.leftover) == Freed(req))
  {
  }

  /** Every request of the sequence can be dispatched. */
  ghost predicate AllWellFormed(reqs: seq<MemtroRequest>) {
    forall i :: 0 <= i < |reqs| ==> WellFormed(reqs[i])
  }

  /** The table after a sequence of requests, and the reply to each. */
  datatype Trace = Trace(db: Db, responses: seq<Response>)

  /**
   * Serves `reqs` in order, one atomic step each. The table only grows: no
   * entry present at the start is changed by any request.
   */
  function Serve(db: Db, reqs: seq<MemtroRequest>): (t: Trace)
    requires AllWellFormed(reqs)
    ensures |t.responses| == |reqs|
    ensures Extends(db, t.db)
    ensures Valid(db) ==> Valid(t.db)
    decreases |reqs|
  {
    if |reqs| == 0 then Trace(db, [])
    else
      var before := Serve(db, reqs[..|reqs| - 1]);
      var step := Dispatch(before.db, reqs[|reqs| - 1]);
      Trace(step.db, before.responses + [step.response])
  }

  /** Some request of `reqs` is a put of `k`. */
  ghost predicate PutIn(reqs: seq<MemtroRequest>, k: Key) {
    exists j :: 0 <= j < |reqs| && IsPutOf(reqs[j], k)
  }

  /** `i` is the first put of `k` in `reqs`. */
  ghost predicate FirstPutOf(reqs: seq<MemtroRequest>, k: Key, i: int) {
    && 0 <= i < |reqs|
    && IsPutOf(reqs[i], k)
    && forall j :: 0 <= j < i ==> !IsPutOf(reqs[j], k)
  }

  /** The reply to request `i` is the reply it gets from the table the earlier requests built. */
  lemma {:induction false} ServeReplies(db: Db, reqs: seq<MemtroRequest>, i: int)
    requires AllWellFormed(reqs)
    requires 0 <= i < |reqs|
    ensures Serve(db, reqs).responses[i] == Dispatch(Serve(db, reqs[..i]).db, reqs[i]).response
    decreases |reqs|
  {
    var n := |reqs|;
    if i < n - 1 {
      var init := reqs[..n - 1];
      assert init[..i] == reqs[..i];
      assert init[i] == reqs[i];
      ServeReplies(db, init, i);
    } else {
      assert reqs[..i] == reqs[..n - 1];
    }
  }

  /** A key is in the final table iff it was there at the start or some request put it. */
  lemma {:induction false} ServeDomain(db: Db, reqs: seq<MemtroRequest>, k: Key)
    requires AllWellFormed(reqs)
    ensures k in Serve(db, reqs).db <==> k in db || PutIn(reqs, k)
    decreases |reqs|
  {
    var n := |reqs|;
    if n > 0 {
      var init := reqs[..n - 1];
      ServeDomain(db, init, k);
      assert forall j :: 0 <= j < n - 1 ==> init[j] == reqs[j];
      if IsPutOf(reqs[n - 1], k) {
        assert PutIn(reqs, k);
      }
    }
  }

  /**
   * First write wins over a whole sequence: for a key absent at the start,
   * the final table holds the payload of the first put of that key, whatever
   * puts of it follow.
   */
  lemma {:induction false} ServeFirstWriteWins(db: Db, reqs: seq<MemtroRequest>, k: Key, i: int)
    requires AllWellFormed(reqs)
    requires k !in db
    requires FirstPutOf(reqs, k, i)
    ensures k in Serve(db, reqs).db
    ensures Serve(db, reqs).db[k] == PutPayload(reqs[i])
    decreases |reqs|
  {
    var n := |reqs|;
    var init := reqs[..n - 1];
    var last := reqs[n - 1];
    assert AllWellFormed(init);
    var before := Serve(db, init);
    assert Serve(db, reqs).db == Dispatch(before.db, last).db;
    if i < n - 1 {
      assert FirstPutOf(init, k, i) by {
        assert forall j :: 0 <= j <= i ==> init[j] == reqs[j];
      }
      ServeFirstWriteWins(db, init, k, i);
    } else {
      assert !PutIn(init, k) by {
        assert forall j :: 0 <= j < n - 1 ==> init[j] == reqs[j];
      }
      ServeDomain(db, init, k);
      assert k !in before.db;
    }
  }

  /**
   * The reply to a put in a sequence: `isNew` holds exactly when the key was
   * absent at the start and no earlier request put it.
   */
  lemma PutReplyInSequence(db: Db, reqs: seq<MemtroRequest>, i: int)
    requires AllWellFormed(reqs)
    requires 0 <= i < |reqs| && reqs[i].get.None?
    ensures Serve(db, reqs).responses[i]
      == PutResponse(PutKeyOf(reqs[i]) !in db && !PutIn(reqs[..i], PutKeyOf(reqs[i])))
  {
    ServeReplies(db, reqs, i);
    assert AllWellFormed(reqs[..i]);
    ServeDomain(db, reqs[..i], PutKeyOf(reqs[i]));
  }

  /**
   * The reply to a get in a sequence: the value present at the start if there
   * was one, otherwise the payload of the first earlier put of the key, and
   * absent when neither exists.
   */
  lemma GetReplyInSequence(db: Db, reqs: seq<MemtroRequest>, i: int)
    requires AllWellFormed(reqs)
    requires 0 <= i < |reqs| && reqs[i].get.Some?
    ensures var k := CString(reqs[i].get.value.key);
      var reply := Serve(db, reqs).responses[i];
      && reply.GetResponse?
      && (reply.hasValue <==> k in db || PutIn(reqs[..i], k))
      && (k in db ==> reply.value == db[k])
      && (!reply.hasValue ==> reply.value == [])
  {
    var k := CString(reqs[i].get.value.key);
    ServeReplies(db, reqs, i);
    assert AllWellFormed(reqs[..i]);
    ServeDomain(db, reqs[..i], k);
  }

  /** The value a get returns for a key absent at the start is the payload of that key's first put. */
  lemma GetReplyAfterFirstPut(db: Db, reqs: seq<MemtroRequest>, i: int, j: int)
    requires AllWellFormed(reqs)
    requires 0 <= i < |reqs| && reqs[i].get.Some?
    requires CString(reqs[i].get.value.key) !in db
    requires FirstPutOf(reqs[..i], CString(reqs[i].get.value.key), j)
    ensures Serve(db, reqs).responses[i] == GetResponse(true, PutPayload(reqs[j]))
  {
    var k := CString(reqs[i].get.value.key);
    ServeReplies(db, reqs, i);
    assert AllWellFormed(reqs[..i]);
    ServeFirstWriteWins(db, reqs[..i], k, j);
  }

  /**
   * Racing puts of one new key: whatever order the write lock admits them in,
   * exactly the first reports `isNew`, every other reports `false`, and the
   * table ends up holding the first one's value untouched.
   */
  lemma {:induction false} RacingPuts(db: Db, k: Key, reqs: seq<MemtroRequest>)
    requires k !in db
    requires |reqs| > 0
    requires forall i :: 0 <= i < |reqs| ==> IsPutOf(reqs[i], k)
    ensures AllWellFormed(reqs) && IsPutOf(reqs[0], k)
    ensures forall i :: 0 <= i < |reqs| ==> Serve(db, reqs).responses[i] == PutResponse(i == 0)
    ensures Serve(db, reqs).db == db[k := PutPayload(reqs[0])]
  {
    assert AllWellFormed(reqs);
    var t := Serve(db, reqs);
    forall i | 0 <= i < |reqs|
      ensures t.responses[i] == PutResponse(i == 0)
    {
      PutReplyInSequence(db, reqs, i);
      if i > 0 {
        assert reqs[..i][0] == reqs[0];
        assert PutIn(reqs[..i], k);
      } else {
        assert !PutIn(reqs[..i], k);
      }
    }
    ServeFirstWriteWins(db, reqs, k, 0);
    forall k' | k' != k
      ensures k' in t.db <==> k' in db
    {
      ServeDomain(db, reqs, k');
    }
    assert t.db.Keys == db.Keys + {k};
  }

  /** Serving one more request continues from the table the earlier ones left. */
  lemma ServeSnoc(db: Db, reqs: seq<MemtroRequest>, req: MemtroRequest)
    requires AllWellFormed(reqs) && WellFormed(req)
    ensures AllWellFormed(reqs + [req])
    ensures var before := Serve(db, reqs);
      var step := Dispatch(before.db, req);
      Serve(db, reqs + [req]) == Trace(step.db, before.responses + [step.response])
  {
    assert (reqs + [req])[..|reqs|] == reqs;
  }

  /** The first three requests of the scenario below: insert, read back, refused overwrite. */
  lemma ScenarioPutGetPut(key: string, bar: Bytes, baz: Bytes)
    ensures var reqs := [PutRequest(key, bar), GetRequest(key), PutRequest(key, baz)];
      && AllWellFormed(reqs)
      && Serve(Empty, reqs)
         == Trace(map[CString(key) := bar], [PutResponse(true), GetResponse(true, bar), PutResponse(false)])
  {
    var stored := map[CString(key) := bar];
    var r0 := PutRequest(key, bar);
    var r1 := GetRequest(key);
    var r2 := PutRequest(key, baz);
    ServeSnoc(Empty, [], r0);
    assert [] + [r0] == [r0];
    assert Serve(Empty, [r0]) == Trace(stored, [PutResponse(true)]);
    ServeSnoc(Empty, [r0], r1);
    assert [r0] + [r1] == [r0, r1];
    assert Serve(Empty, [r0, r1]) == Trace(stored, [PutResponse(true), GetResponse(true, bar)]);
    ServeSnoc(Empty, [r0, r1], r2);
    assert [r0, r1] + [r2] == [r0, r1, r2];
  }

  /**
   * The client-visible scenario: putting "bar" under a key is new, a get
   * returns "bar", a put of "baz" is refused, the key still reads "bar", and a
   * key that was never put is absent.
   */
  lemma ScenarioFooBar(key: string, missing: string, bar: Bytes, baz: Bytes)
    requires CString(missing) != CString(key)
    ensures var reqs := [PutRequest(key, bar), GetRequest(key), PutRequest(key, baz),
                         GetRequest(key), GetRequest(missing)];
      && AllWellFormed(reqs)
      && Serve(Empty, reqs).responses
         == [PutResponse(true), GetResponse(true, bar), PutResponse(false),
             GetResponse(true, bar), GetResponse(false, [])]
  {
    var stored := map[CString(key) := bar];
    var first := [PutRequest(key, bar), GetRequest(key), PutRequest(key, baz)];
    var r3 := GetRequest(key);
    var r4 := GetRequest(missing);
    ScenarioPutGetPut(key, bar, baz);
    ServeSnoc(Empty, first, r3);
    var t4 := Serve(Empty, first + [r3]);
    assert t4.db == stored;
    ServeSnoc(Empty, first + [r3], r4);
    assert first + [r3] + [r4] == [PutRequest(key, bar), GetRequest(key), PutRequest(key, baz), r3, r4];
  }

  /** The scenario with the literal keys "foo" and "missing". */
  lemma ScenarioLiteralKeys(bar: Bytes, baz: Bytes)
    ensures var reqs := [PutRequest("foo", bar), GetRequest("foo"), PutRequest("foo", baz),
                         GetRequest("foo"), GetRequest("missing")];
      && AllWellFormed(reqs)
      && Serve(Empty, reqs).responses
         == [PutResponse(true), GetResponse(true, bar), PutResponse(false),
             GetResponse(true, bar), GetResponse(false, [])]
  {
    CStringOfPlainString("foo");
    CStringOfPlainString("missing");
    ScenarioFooBar("foo", "missing", bar, baz);
  }
}
