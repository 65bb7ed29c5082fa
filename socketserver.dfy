/** The body of `run_socket_server`'s loop (main.py:102-108): for each
    accepted connection, read once with `recv(CHUNK_SIZE)`, and hand the text
    to `save_to_db` only when the read returned some bytes. Accepting,
    binding and closing sockets are not modelled: the connections are given
    as the bytes each peer sent, with the clock reading and the store's answer
    at the time it was served. */
module SocketServer {
  import opened Results
  import opened FormData
  import opened Timestamp
  import opened Database

  /** `CHUNK_SIZE` (main.py:13): the most one read returns. */
  const ChunkSize: nat := 1024

  newtype byte = x: int | 0 <= x < 256

  /** `conn.recv(CHUNK_SIZE)` when the peer has sent `sent`: the first
      ChunkSize bytes, or all of them when there are fewer. */
  function Recv(sent: seq<byte>): (data: seq<byte>)
    ensures |data| <= ChunkSize && |data| <= |sent|
    ensures data == sent[..|data|]
    ensures |data| == |sent| || |data| == ChunkSize
  {
    if |sent| <= ChunkSize then sent else sent[..ChunkSize]
  }

  /** `data.decode()`, each byte read as the character with its code (what
      UTF-8 decoding gives for ASCII bytes). */
  function Decode(data: seq<byte>): (text: string)
    ensures |text| == |data|
    ensures forall i :: 0 <= i < |data| ==> text[i] as int == data[i] as int
  {
    seq(|data|, i requires 0 <= i < |data| => data[i] as int as char)
  }

  /** The bytes a client writes for text whose characters are all below 256. */
  function Encode(text: string): seq<byte>
    requires forall i :: 0 <= i < |text| ==> text[i] as int < 256
  {
    seq(|text|, i requires 0 <= i < |text| => text[i] as int as byte)
  }

  /** The bytes a client writes for a text are read back as that text. */
  lemma DecodeEncode(text: string)
    requires forall i :: 0 <= i < |text| ==> text[i] as int < 256
    ensures Decode(Encode(text)) == text
  {
  }

  /** What one connection hands to `save_to_db`: the decoded first chunk, and
      nothing at all when the read is empty. */
  function Dispatch(sent: seq<byte>): (payload: Option<string>)
    ensures payload.Some? <==> sent != []
    ensures payload.Some? ==> |payload.value| == if |sent| < ChunkSize then |sent| else ChunkSize
    ensures payload.Some? ==> payload.value == Decode(sent[..|payload.value|])
  {
    var data := Recv(sent);
    if data != [] then Some(Decode(data)) else None
  }

  /** One accepted connection, with what the environment answers while it is
      served. */
  datatype Connection = Connection(sent: seq<byte>, now: DateTime, insertAccepted: bool)

  predicate ValidClocks(conns: seq<Connection>) {
    forall i :: 0 <= i < |conns| ==> conns[i].now.Valid()
  }

  /** The documents serving one connection adds to the store. */
  function StoredFor(c: Connection): seq<Record>
    requires c.now.Valid()
  {
    match Dispatch(c.sent)
    case None => []
    case Some(text) =>
      match RecordOf(text, c.now)
      case Err(_) => []
      case Ok(document) => if c.insertAccepted then [document] else []
  }

  /** The documents serving the connections in order adds to the store. */
  function Stored(conns: seq<Connection>): seq<Record>
    requires ValidClocks(conns)
    decreases |conns|
  {
    if conns == [] then []
    else Stored(conns[..|conns| - 1]) + StoredFor(conns[|conns| - 1])
  }

  /** The number of connections whose read returned bytes. */
  function Dispatches(conns: seq<Connection>): nat
    decreases |conns|
  {
    if conns == [] then 0
    else Dispatches(conns[..|conns| - 1]) + (if conns[|conns| - 1].sent != [] then 1 else 0)
  }

  /** Serving one accepted connection (main.py:105-108): one read, and one
      `save_to_db` call exactly when the read returned bytes. */
  method ServeConnection(store: Store, c: Connection) returns (dispatched: bool)
    requires store.Valid() && c.now.Valid()
    modifies store
    ensures store.Valid()
    ensures dispatched <==> c.sent != []
    ensures store.records == old(store.records) + StoredFor(c)
  {
    var data := Recv(c.sent);
    dispatched := data != [];
    if dispatched {
      var text := Decode(data);
      var outcome := store.SaveToDb(text, c.now, c.insertAccepted);
      RecordOfFields(text, c.now);
    }
  }

  lemma StoredStep(conns: seq<Connection>, i: nat)
    requires ValidClocks(conns) && i < |conns|
    ensures ValidClocks(conns[..i]) && ValidClocks(conns[..i + 1])
    ensures Stored(conns[..i + 1]) == Stored(conns[..i]) + StoredFor(conns[i])
    ensures Dispatches(conns[..i + 1]) == Dispatches(conns[..i]) + if conns[i].sent != [] then 1 else 0
  {
    assert conns[..i + 1][..i] == conns[..i];
  }

  /** The listener over a finite run of connections: one `save_to_db` call per
      connection with a non-empty read, none for an empty one. */
  method RunSocketServer(store: Store, conns: seq<Connection>) returns (saves: nat)
    requires store.Valid() && ValidClocks(conns)
    modifies store
    ensures store.Valid()
    ensures store.records == old(store.records) + Stored(conns)
    ensures saves == Dispatches(conns)
  {
    saves := 0;
    var i := 0;
    while i < |conns|
      invariant 0 <= i <= |conns|
      invariant store.Valid()
      invariant store.records == old(store.records) + Stored(conns[..i])
      invariant saves == Dispatches(conns[..i])
    {
      var dispatched := ServeConnection(store, conns[i]);
      if dispatched {
        saves := saves + 1;
      }
      StoredStep(conns, i);
      i := i + 1;
    }
    assert conns[..|conns|] == conns;
  }

  /** The last connection of a run is served after all the others. */
  lemma StoredLast(s: seq<Connection>, front: seq<Connection>, last: Connection)
    requires s == front + [last] && ValidClocks(s)
    ensures ValidClocks(front) && last.now.Valid()
    ensures Stored(s) == Stored(front) + StoredFor(last)
  {
    assert s[..|s| - 1] == front;
    assert s[|s| - 1] == last;
  }

  lemma ConcatAssoc(x: seq<Record>, y: seq<Record>, z: seq<Record>)
    ensures x + y + z == x + (y + z)
  {
  }

  /** Connections are served independently: a run's documents are those of
      its parts, in order. */
  lemma {:induction false} StoredAppend(a: seq<Connection>, b: seq<Connection>)
    requires ValidClocks(a) && ValidClocks(b)
    ensures ValidClocks(a + b)
    ensures Stored(a + b) == Stored(a) + Stored(b)
    decreases |b|
  {
    if b == [] {
      assert a + b == a;
    } else {
      var n := |b| - 1;
      var front, last := b[..n], b[n];
      assert b == front + [last];
      assert a + b == (a + front) + [last];
      StoredLast(b, front, last);
      StoredAppend(a, front);
      assert ValidClocks(a + b);
      StoredLast(a + b, a + front, last);
      ConcatAssoc(Stored(a), Stored(front), StoredFor(last));
    }
  }

  /** At most one document per dispatched connection, and none for a
      connection whose read was empty. */
  lemma {:induction false} StoredAtMostDispatches(conns: seq<Connection>)
    requires ValidClocks(conns)
    ensures |Stored(conns)| <= Dispatches(conns) <= |conns|
    decreases |conns|
  {
    if conns != [] {
      StoredAtMostDispatches(conns[..|conns| - 1]);
    }
  }

  /** Bytes past the first ChunkSize never reach the store: serving a
      connection stores what serving its first chunk alone would. */
  lemma OnlyFirstChunkStored(c: Connection)
    requires c.now.Valid() && |c.sent| > ChunkSize
    ensures StoredFor(c) == StoredFor(c.(sent := c.sent[..ChunkSize]))
  {
    assert Recv(c.sent[..ChunkSize]) == Recv(c.sent);
  }

  /** A well-formed submission of at most ChunkSize characters, sent raw over
      TCP, ends up as exactly one document when the store accepts it. */
  lemma ShortSubmissionStored(text: string, now: DateTime)
    requires now.Valid() && Parse(text).Ok?
    requires 0 < |text| <= ChunkSize && forall i :: 0 <= i < |text| ==> text[i] as int < 128
    ensures Stored([Connection(Encode(text), now, true)]) == [RecordOf(text, now).value]
  {
    var c := Connection(Encode(text), now, true);
    DecodeEncode(text);
    assert [c][..0] == [];
  }
}
