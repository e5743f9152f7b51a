/**
 * The decoded protobuf messages a worker handles: the request envelope
 * `MemtroRequest` with its optional `Get` and `Put` members, the two response
 * messages, and what `memtro_request__free_unpacked` releases afterwards.
 */
module Messages {
  import opened Wrappers
  import opened Store

  /**
   * A heap buffer referenced by a pointer field of a decoded message. `Null`
   * is a NULL pointer: the field owns nothing and releasing the message skips it.
   */
  datatype Buffer<T> = Null | Owned(data: T)

  /** The `Get` message: the key to look up. */
  datatype Get = Get(key: string)

  /**
   * The `Put` message. Its `key` and `value.data` pointers are cleared when
   * the store takes over the buffers, so both are modelled as buffers that can
   * become `Null`.
   */
  datatype Put = Put(key: Buffer<string>, value: Buffer<Bytes>)

  /**
   * The bytes a `value` field carries. A NULL data pointer stands for the empty
   * value (the decoder may leave the pointer NULL when the length is zero).
   */
  function Payload(value: Buffer<Bytes>): (r: Bytes)
    ensures value.Owned? ==> r == value.data
    ensures value.Null? ==> |r| == 0
  {
    match value
    case Owned(data) => data
    case Null => []
  }

  /** The decoded request envelope: a pointer to a `Get`, a pointer to a `Put`, each possibly NULL. */
  datatype MemtroRequest = MemtroRequest(get: Option<Get>, put: Option<Put>)

  /**
   * The requests the worker can process without dereferencing NULL: either
   * the `get` member is set, or the `put` member is set with a key
   * (`strlen` is applied to it).
   */
  predicate WellFormed(req: MemtroRequest) {
    req.get.Some? || (req.put.Some? && req.put.value.key.Owned?)
  }

  /** A request for `key`, as a client sends it. */
  function GetRequest(key: string): (req: MemtroRequest)
    ensures WellFormed(req) && req.get.Some?
  {
    MemtroRequest(Some(Get(key)), None)
  }

  /** A conditional insert of `value` under `key`, as a client sends it. */
  function PutRequest(key: string, value: Bytes): (req: MemtroRequest)
    ensures WellFormed(req) && req.get.None?
  {
    MemtroRequest(None, Some(Put(Owned(key), Owned(value))))
  }

  /**
   * The two response messages. In `GetResponse`, `hasValue` is the protobuf
   * presence flag of the optional `value` field; an absent value has length 0.
   */
  datatype Response =
    | GetResponse(hasValue: bool, value: Bytes)
    | PutResponse(isNew: bool)

  /** The heap buffers of a decoded request that hold message data. */
  datatype Allocation = GetKey | PutKey | PutValue

  /**
   * The buffers `memtro_request__free_unpacked` releases: every key and value
   * buffer whose pointer is still non-NULL.
   */
  function Freed(req: MemtroRequest): (r: set<Allocation>)
    ensures GetKey in r <==> req.get.Some?
    ensures PutKey in r <==> req.put.Some? && req.put.value.key.Owned?
    ensures PutValue in r <==> req.put.Some? && req.put.value.value.Owned?
  {
    (if req.get.Some? then {GetKey} else {})
    + (if req.put.Some? && req.put.value.key.Owned? then {PutKey} else {})
    + (if req.put.Some? && req.put.value.value.Owned? then {PutValue} else {})
  }
}
