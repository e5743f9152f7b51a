/**
 * The state of the memtro key-value store: the process-wide uthash table `db`
 * of `stored_value` records, seen as a map from key to value bytes.
 */
module Store {

  /** One byte of a value (`uint8_t`). */
  newtype uint8 = x: int | 0 <= x < 0x100

  /** An opaque value, as stored in `stored_value.value` with length `val_sz`. */
  type Bytes = seq<uint8>

  /** A key as it is hashed and compared: the characters up to the terminating NUL. */
  type Key = string

  const NUL: char := '\0'

  /**
   * The string `strlen` and the uthash lookup see in a C character buffer:
   * everything before the first NUL. A decoded protobuf string may contain a
   * NUL; the store only ever hashes and compares the part before it.
   */
  function CString(s: string): (r: Key)
    ensures NUL !in r
    ensures r <= s
    ensures |r| < |s| ==> s[|r|] == NUL
  {
    if |s| == 0 || s[0] == NUL then [] else [s[0]] + CString(s[1..])
  }

  /** A buffer without a NUL is read in full. */
  lemma CStringOfPlainString(s: string)
    requires NUL !in s
    ensures CString(s) == s
  {
  }

  /** The uthash table `db`: every key is the strlen content of the buffer it was inserted with. */
  type Db = map<Key, Bytes>

  /** The table invariant: no stored key contains a NUL, as every key went through `strlen`. */
  ghost predicate Valid(db: Db) {
    forall k :: k in db ==> NUL !in k
  }

  /**
   * `after` keeps every entry of `before` unchanged: the store never deletes
   * or overwrites an entry.
   */
  ghost predicate Extends(before: Db, after: Db) {
    forall k :: k in before ==> k in after && after[k] == before[k]
  }

  /** The empty table, as `db` starts out (a NULL head pointer). */
  const Empty: Db := map[]
}
