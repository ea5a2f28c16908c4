/**
 The jobs held in the request buffer of the dispatcher, and the one list
 operation every scheduling policy ends with: unlinking one position.

 A `request_node` of the C program is modelled without its `next` pointer;
 the linked list becomes a `seq<Job>` in list order (head first).
 */
module Jobs {

  /** A node pointer that may be NULL: `None` is NULL, `Some` carries the node. */
  datatype Option<+T> = None | Some(value: T)

  /** One admitted static-file request: the connection, the request line,
      the resolved file, and the two fields the schedulers read. */
  datatype Job = Job(
    fd: int,
    httpMethod: string,
    uri: string,
    version: string,
    filename: string,
    cgiargs: string,
    fileSize: nat,  // `size_t file_size`, used by shortest-file-first
    arrival: int    // `time_t arrival`, used by aging
  )

  /** `t` is `s` with exactly position `i` deleted and every other element
      kept in its original relative order. */
  ghost predicate IsDeletion<T>(s: seq<T>, t: seq<T>, i: int)
  {
    && 0 <= i < |s|
    && |t| == |s| - 1
    && (forall j :: 0 <= j < i ==> t[j] == s[j])
    && (forall j :: i <= j < |t| ==> t[j] == s[j + 1])
  }

  /** Unlinks the node at position `i`: the predecessor (or the head
      pointer) is made to point at the node's successor. */
  function RemoveAt<T>(s: seq<T>, i: nat): (t: seq<T>)
    requires i < |s|
    ensures IsDeletion(s, t, i)
    ensures multiset(t) + multiset{s[i]} == multiset(s)
  {
    assert s == s[..i] + [s[i]] + s[i + 1..];
    s[..i] + s[i + 1..]
  }
}
