// The codis database server: 255 buckets of raw bytes that hold one string each.
// A bucket store with lengths beside it refines a sequence of strings.
module Codis {
  import opened Strings

  const N_BUCKETS: nat := 0xFF
  const BUCKET_SIZE: nat := 0x1000
  const COMMAND_IPC_IDX: nat := 0
  const COMMAND_BUCKET_IDX: nat := 1
  const COMMAND_DATA_START_IDX: nat := 2
  const READ_CMD: byte := 0
  const APPEND_CMD: byte := 1
  const DELETE_CMD: byte := 2
  const APPEND_CMD_MAX_PAYLOAD_LEN: nat := BUCKET_SIZE - 2

  // ---------- the map that is served ----------

  type Text = s: seq<byte> | 0 !in s

  datatype Command = ReadIt | Append(payload: Text) | Delete | Unknown

  datatype Request = Request(bucket: nat, command: Command)

  type Store = seq<Text>

  ghost predicate StoreOk(store: Store) {
    |store| == N_BUCKETS && forall b :: 0 <= b < N_BUCKETS ==> |store[b]| < BUCKET_SIZE
  }

  // A payload is taken if the text still fits with its NUL.
  predicate Fits(store: Store, b: nat, payload: Text)
    requires b < |store|
  {
    |store[b]| + |payload| + 1 <= BUCKET_SIZE
  }

  function Update(store: Store, request: Request): (store': Store)
    requires |store| == N_BUCKETS && request.bucket < N_BUCKETS
    ensures |store'| == N_BUCKETS
  {
    var b := request.bucket;
    match request.command
    case ReadIt => store
    case Append(payload) => if Fits(store, b, payload) then store[b := store[b] + payload] else store
    case Delete => store[b := []]
    case Unknown => store
  }

  function LittleEndian(n: nat): (reply: seq<byte>)
    requires n < 0x1_0000
    ensures |reply| == 2
  {
    [(n % 256) as byte, (n / 256) as byte]
  }

  // What the shared buffer starts with after the request; the rest of it is
  // left alone.
  function Reply(store: Store, request: Request): seq<byte>
    requires StoreOk(store) && request.bucket < N_BUCKETS
  {
    var text := store[request.bucket];
    match request.command
    case ReadIt => text + [0]
    case Append(payload) =>
      LittleEndian(if Fits(store, request.bucket, payload) then |text| + |payload| else 0)
    case Delete => LittleEndian(1)
    case Unknown => []
  }

  // The text behind the two command bytes of a shared buffer.
  function PayloadIn(ipc: seq<byte>): Text
    requires |ipc| == BUCKET_SIZE
  {
    ipc[COMMAND_DATA_START_IDX..][..IndexOf(ipc[COMMAND_DATA_START_IDX..], 0)]
  }

  // The request in a shared buffer.
  function Parse(ipc: seq<byte>): Request
    requires |ipc| == BUCKET_SIZE
  {
    Request(ipc[COMMAND_BUCKET_IDX] as nat,
            if ipc[COMMAND_IPC_IDX] == READ_CMD then ReadIt
            else if ipc[COMMAND_IPC_IDX] == APPEND_CMD then Append(PayloadIn(ipc))
            else if ipc[COMMAND_IPC_IDX] == DELETE_CMD then Delete
            else Unknown)
  }

  // A buffer that a client may send: its bucket exists and a payload ends.
  ghost predicate Wellformed(ipc: seq<byte>) {
    && |ipc| == BUCKET_SIZE
    && (ipc[COMMAND_BUCKET_IDX] as nat) < N_BUCKETS
    && (ipc[COMMAND_IPC_IDX] == APPEND_CMD ==> 0 in ipc[COMMAND_DATA_START_IDX..])
  }

  function Answered(ipc: seq<byte>, reply: seq<byte>): seq<byte>
    requires |reply| <= |ipc|
  {
    reply + ipc[|reply|..]
  }

  // ---------- runs of requests ----------

  function UpdateAll(store: Store, requests: seq<Request>): (store': Store)
    requires |store| == N_BUCKETS && forall i :: 0 <= i < |requests| ==> requests[i].bucket < N_BUCKETS
    ensures |store'| == N_BUCKETS
    decreases |requests|
  {
    if requests == [] then store
    else Update(UpdateAll(store, requests[..|requests| - 1]), requests[|requests| - 1])
  }

  // What a run of requests leaves in one bucket, computed from the requests
  // alone: only those for this bucket matter, and a delete makes all earlier
  // ones irrelevant.
  function Content(initial: Text, requests: seq<Request>, b: nat): Text
    decreases |requests|
  {
    if requests == [] then initial
    else
      var request := requests[|requests| - 1];
      if request.bucket != b then Content(initial, requests[..|requests| - 1], b)
      else
        match request.command
        case Delete => []
        case Append(payload) =>
          var text := Content(initial, requests[..|requests| - 1], b);
          if |text| + |payload| + 1 <= BUCKET_SIZE then text + payload else text
        case _ => Content(initial, requests[..|requests| - 1], b)
  }

  lemma {:induction false} BucketsAreIndependent(store: Store, requests: seq<Request>, b: nat)
    requires StoreOk(store) && b < N_BUCKETS && forall i :: 0 <= i < |requests| ==> requests[i].bucket < N_BUCKETS
    ensures UpdateAll(store, requests)[b] == Content(store[b], requests, b)
    ensures |UpdateAll(store, requests)[b]| < BUCKET_SIZE
    decreases |requests|
  {
    if requests != [] {
      BucketsAreIndependent(store, requests[..|requests| - 1], b);
    }
  }

  // Requests for other buckets can be left out.
  function For(requests: seq<Request>, b: nat): seq<Request>
    decreases |requests|
  {
    if requests == [] then []
    else
      var last := requests[|requests| - 1];
      For(requests[..|requests| - 1], b) + if last.bucket == b then [last] else []
  }

  lemma {:induction false} OnlyOwnRequestsMatter(initial: Text, requests: seq<Request>, b: nat)
    ensures Content(initial, requests, b) == Content(initial, For(requests, b), b)
    decreases |requests|
  {
    if requests != [] {
      var front := requests[..|requests| - 1];
      OnlyOwnRequestsMatter(initial, front, b);
      if requests[|requests| - 1].bucket == b {
        assert For(requests, b)[..|For(requests, b)| - 1] == For(front, b);
      } else {
        assert For(requests, b) == For(front, b);
      }
    }
  }

  // ---------- the reply to append ----------

  lemma ByteIsZero(x: nat)
    requires x < 256
    ensures x as byte == 0 <==> x == 0
  {
  }

  lemma HalvesAreZero(n: nat)
    ensures n % 256 == 0 && n / 256 == 0 <==> n == 0
  {
    assert n == 256 * (n / 256) + n % 256;
  }

  lemma LittleEndianIsZero(n: nat)
    requires n < 0x1_0000
    ensures LittleEndian(n) == [0, 0] <==> n == 0
  {
    ByteIsZero(n % 256);
    ByteIsZero(n / 256);
    HalvesAreZero(n);
  }

  // The protocol says that zero means a rejected append. It also is the reply
  // when nothing is appended to nothing, so a client that sees zero knows only
  // this.
  lemma AppendRepliesZeroExactlyWhen(store: Store, b: nat, payload: Text)
    requires StoreOk(store) && b < N_BUCKETS
    ensures Reply(store, Request(b, Append(payload))) == [0, 0]
            <==> !Fits(store, b, payload) || (store[b] == [] && payload == [])
  {
    var n := if Fits(store, b, payload) then |store[b]| + |payload| else 0;
    LittleEndianIsZero(n);
  }

  lemma EmptyAppendRepliesZero(store: Store, b: nat)
    requires StoreOk(store) && b < N_BUCKETS && store[b] == []
    ensures Fits(store, b, []) && Reply(store, Request(b, Append([]))) == [0, 0]
  {
    AppendRepliesZeroExactlyWhen(store, b, []);
  }

  lemma AppendCases(store: Store, b: nat, payload: Text)
    requires StoreOk(store) && b < N_BUCKETS
    ensures var request := Request(b, Append(payload));
            if |store[b]| + |payload| + 1 <= BUCKET_SIZE then
              && Update(store, request) == store[b := store[b] + payload]
              && Reply(store, request) == LittleEndian(|store[b]| + |payload|)
            else
              Update(store, request) == store && Reply(store, request) == LittleEndian(0)
  {
  }

  // ---------- what a client sends and gets ----------

  // A client writes a command, a bucket number and data at the front of the
  // shared buffer. What is behind them is left over from earlier.
  function Encode(cmd: byte, b: byte, data: seq<byte>): seq<byte> {
    [cmd, b] + data
  }

  // The 16-bit number that a reply starts with.
  function NumberIn(ipc: seq<byte>): nat
    requires 2 <= |ipc|
  {
    ipc[0] as nat + 256 * ipc[1] as nat
  }

  // The store has this bucket.
  predicate Has(store: Store, b: byte) {
    b as nat < N_BUCKETS && b as nat < |store|
  }

  // A read changes no bucket, and the buffer comes back with the text of the
  // bucket and its NUL.
  ghost predicate ReadServed(before: Store, ipc: seq<byte>, after: Store, ipc': seq<byte>) {
    forall b: byte :: Has(before, b) && Encode(READ_CMD, b, []) <= ipc ==>
      ReadsBack(before, ipc, after, ipc', b as nat)
  }

  ghost predicate ReadsBack(before: Store, ipc: seq<byte>, after: Store, ipc': seq<byte>, b: nat)
    requires b < |before|
  {
    after == before && |before[b]| < |ipc| && ipc' == before[b] + [0] + ipc[|before[b]| + 1..]
  }

  // An append makes exactly one bucket longer and comes back with its length, or
  // changes no bucket and comes back with zero if the text would not fit.
  ghost predicate AppendServed(before: Store, ipc: seq<byte>, after: Store, ipc': seq<byte>) {
    forall b: byte, payload: Text :: Has(before, b) && Encode(APPEND_CMD, b, payload + [0]) <= ipc ==>
      Appends(before, ipc, after, ipc', b as nat, payload)
  }

  ghost predicate Appends(before: Store, ipc: seq<byte>, after: Store, ipc': seq<byte>, b: nat, payload: Text)
    requires b < |before|
  {
    var length := |before[b]| + |payload|;
    && 2 <= |ipc'| == |ipc| && ipc'[2..] == ipc[2..]
    && after == (if length < 4096 then before[b := before[b] + payload] else before)
    && NumberIn(ipc') == (if length < 4096 then length else 0)
  }

  // A delete empties exactly one bucket and comes back with a flag that is set.
  ghost predicate DeleteServed(before: Store, ipc: seq<byte>, after: Store, ipc': seq<byte>) {
    forall b: byte :: Has(before, b) && Encode(DELETE_CMD, b, []) <= ipc ==>
      Deletes(before, ipc, after, ipc', b as nat)
  }

  ghost predicate Deletes(before: Store, ipc: seq<byte>, after: Store, ipc': seq<byte>, b: nat)
    requires b < |before|
  {
    && after == before[b := []]
    && 2 <= |ipc'| == |ipc| && ipc'[2..] == ipc[2..] && NumberIn(ipc') != 0
  }

  // Any other command changes nothing.
  ghost predicate UnknownServed(before: Store, ipc: seq<byte>, after: Store, ipc': seq<byte>) {
    forall cmd: byte, b: byte :: cmd > DELETE_CMD && Has(before, b) && Encode(cmd, b, []) <= ipc ==>
      after == before && ipc' == ipc
  }

  ghost predicate Served(before: Store, ipc: seq<byte>, after: Store, ipc': seq<byte>) {
    && ReadServed(before, ipc, after, ipc') && AppendServed(before, ipc, after, ipc')
    && DeleteServed(before, ipc, after, ipc') && UnknownServed(before, ipc, after, ipc')
  }

  lemma {:induction false} ByteOf(x: nat) returns (b: byte)
    requires x < 256
    ensures b as nat == x
  {
    if x == 0 {
      b := 0;
    } else {
      b := ByteOf(x - 1);
      b := b + 1;
    }
  }

  lemma ByteRoundTrip(x: nat)
    requires x < 256
    ensures (x as byte) as nat == x
  {
    var b := ByteOf(x);
    assert (b as nat) as byte == b;
  }

  lemma SentFront(cmd: byte, b: byte, data: seq<byte>, ipc: seq<byte>)
    requires |ipc| == BUCKET_SIZE && Encode(cmd, b, data) <= ipc
    ensures ipc[COMMAND_IPC_IDX] == cmd && ipc[COMMAND_BUCKET_IDX] == b && data <= ipc[COMMAND_DATA_START_IDX..]
  {
    assert ipc[0] == Encode(cmd, b, data)[0] && ipc[1] == Encode(cmd, b, data)[1];
    assert Encode(cmd, b, data)[2..] == data;
    assert ipc[..|data| + 2][2..] == ipc[2..][..|data|];
  }

  lemma SentPayload(b: byte, payload: Text, ipc: seq<byte>)
    requires |ipc| == BUCKET_SIZE && Encode(APPEND_CMD, b, payload + [0]) <= ipc
    ensures PayloadIn(ipc) == payload
  {
    SentFront(APPEND_CMD, b, payload + [0], ipc);
    var data := ipc[COMMAND_DATA_START_IDX..];
    assert data[..|payload| + 1] == payload + [0];
    assert data[|payload|] == data[..|payload| + 1][|payload|];
    assert forall j :: 0 <= j < |payload| ==> data[j] == data[..|payload| + 1][j] == payload[j];
    IndexOfIs(data, 0, |payload|);
    assert data[..|payload|] == payload;
  }

  lemma NumberOfLittleEndian(n: nat, rest: seq<byte>)
    requires n < 0x1_0000
    ensures NumberIn(LittleEndian(n) + rest) == n
  {
    ByteRoundTrip(n % 256);
    ByteRoundTrip(n / 256);
    HalvesAre(n);
    var reply := LittleEndian(n) + rest;
    assert reply[0] == LittleEndian(n)[0] && reply[1] == LittleEndian(n)[1];
  }

  lemma HalvesAre(n: nat)
    ensures n % 256 + 256 * (n / 256) == n
  {
  }

  lemma ReadIsServed(store: Store, ipc: seq<byte>, b: byte)
    requires StoreOk(store) && |ipc| == BUCKET_SIZE && Has(store, b) && Encode(READ_CMD, b, []) <= ipc
    ensures ReadsBack(store, ipc, Update(store, Parse(ipc)), Answered(ipc, Reply(store, Parse(ipc))), b as nat)
  {
    SentFront(READ_CMD, b, [], ipc);
    assert Parse(ipc) == Request(b as nat, ReadIt);
  }

  lemma SentAppend(b: byte, payload: Text, ipc: seq<byte>)
    requires |ipc| == BUCKET_SIZE && Encode(APPEND_CMD, b, payload + [0]) <= ipc
    ensures Parse(ipc) == Request(b as nat, Append(payload))
  {
    SentFront(APPEND_CMD, b, payload + [0], ipc);
    SentPayload(b, payload, ipc);
  }

  lemma AppendIsServed(store: Store, ipc: seq<byte>, b: byte, payload: Text)
    requires StoreOk(store) && |ipc| == BUCKET_SIZE && Has(store, b) && Encode(APPEND_CMD, b, payload + [0]) <= ipc
    ensures Appends(store, ipc, Update(store, Parse(ipc)), Answered(ipc, Reply(store, Parse(ipc))), b as nat, payload)
  {
    SentAppend(b, payload, ipc);
    AppendReplies(store, ipc, b as nat, payload);
  }

  lemma AppendReplies(store: Store, ipc: seq<byte>, b: nat, payload: Text)
    requires StoreOk(store) && |ipc| == BUCKET_SIZE && b < N_BUCKETS
    ensures var request := Request(b, Append(payload));
            Appends(store, ipc, Update(store, request), Answered(ipc, Reply(store, request)), b, payload)
  {
    var length := |store[b]| + |payload|;
    AppendCases(store, b, payload);
    hide Update, Reply, LittleEndian, NumberIn;
    NumberOfLittleEndian(if length < 4096 then length else 0, ipc[2..]);
  }

  lemma DeleteIsServed(store: Store, ipc: seq<byte>, b: byte)
    requires StoreOk(store) && |ipc| == BUCKET_SIZE && Has(store, b) && Encode(DELETE_CMD, b, []) <= ipc
    ensures Deletes(store, ipc, Update(store, Parse(ipc)), Answered(ipc, Reply(store, Parse(ipc))), b as nat)
  {
    SentFront(DELETE_CMD, b, [], ipc);
    assert Parse(ipc) == Request(b as nat, Delete);
    NumberOfLittleEndian(1, ipc[2..]);
  }

  lemma UnknownIsServed(store: Store, ipc: seq<byte>, cmd: byte, b: byte)
    requires StoreOk(store) && |ipc| == BUCKET_SIZE && cmd > DELETE_CMD && Has(store, b) && Encode(cmd, b, []) <= ipc
    ensures Update(store, Parse(ipc)) == store && Answered(ipc, Reply(store, Parse(ipc))) == ipc
  {
    SentFront(cmd, b, [], ipc);
    assert Parse(ipc) == Request(b as nat, Unknown);
  }

  // Updates and replies are what a client is promised for what it sent.
  lemma RequestsAreServed(store: Store, ipc: seq<byte>)
    requires StoreOk(store) && Wellformed(ipc)
    ensures Served(store, ipc, Update(store, Parse(ipc)), Answered(ipc, Reply(store, Parse(ipc))))
  {
    var after, ipc' := Update(store, Parse(ipc)), Answered(ipc, Reply(store, Parse(ipc)));
    hide Update, Reply, Parse, Answered, Encode, ReadsBack, Appends, Deletes;
    forall b: byte | Has(store, b) && Encode(READ_CMD, b, []) <= ipc
      ensures ReadsBack(store, ipc, after, ipc', b as nat)
    {
      ReadIsServed(store, ipc, b);
    }
    forall b: byte, payload: Text | Has(store, b) && Encode(APPEND_CMD, b, payload + [0]) <= ipc
      ensures Appends(store, ipc, after, ipc', b as nat, payload)
    {
      AppendIsServed(store, ipc, b, payload);
    }
    forall b: byte | Has(store, b) && Encode(DELETE_CMD, b, []) <= ipc
      ensures Deletes(store, ipc, after, ipc', b as nat)
    {
      DeleteIsServed(store, ipc, b);
    }
    forall cmd: byte, b: byte | cmd > DELETE_CMD && Has(store, b) && Encode(cmd, b, []) <= ipc
      ensures after == store && ipc' == ipc
    {
      UnknownIsServed(store, ipc, cmd, b);
    }
  }

  // The states between the requests of a run: each request is served from one to
  // the next.
  ghost predicate AllServed(stores: seq<Store>, requests: seq<seq<byte>>, replies: seq<seq<byte>>) {
    && |stores| == |requests| + 1 && |replies| == |requests|
    && (forall k :: 0 <= k < |requests| ==> Served(stores[k], requests[k], stores[k + 1], replies[k]))
  }

  // So a client that deletes, appends and reads gets back what it appended.
  lemma WhatWasAppendedIsRead(stores: seq<Store>, requests: seq<seq<byte>>, replies: seq<seq<byte>>, b: byte,
                              payload: Text)
    requires AllServed(stores, requests, replies) && |requests| == 3
    requires Has(stores[0], b) && |payload| < 4096
    requires Encode(DELETE_CMD, b, []) <= requests[0]
    requires Encode(APPEND_CMD, b, payload + [0]) <= requests[1]
    requires Encode(READ_CMD, b, []) <= requests[2]
    ensures 2 <= |replies[1]| && NumberIn(replies[1]) == |payload|
    ensures payload + [0] <= replies[2] && stores[3] == stores[0][b as nat := payload]
  {
    hide Served, NumberIn;
    DeleteThen(stores[0], requests[0], stores[1], replies[0], b);
    AppendThen(stores[1], requests[1], stores[2], replies[1], b, payload);
    assert [] + payload == payload;
    ReadThen(stores[2], requests[2], stores[3], replies[2], b);
  }

  lemma DeleteThen(before: Store, ipc: seq<byte>, after: Store, ipc': seq<byte>, b: byte)
    requires Served(before, ipc, after, ipc') && Has(before, b) && Encode(DELETE_CMD, b, []) <= ipc
    ensures after == before[b as nat := []]
  {
    hide NumberIn;
    assert Deletes(before, ipc, after, ipc', b as nat);
  }

  lemma AppendThen(before: Store, ipc: seq<byte>, after: Store, ipc': seq<byte>, b: byte, payload: Text)
    requires Served(before, ipc, after, ipc') && Has(before, b) && Encode(APPEND_CMD, b, payload + [0]) <= ipc
    requires |before[b as nat]| + |payload| < 4096
    ensures after == before[b as nat := before[b as nat] + payload]
    ensures 2 <= |ipc'| && NumberIn(ipc') == |before[b as nat]| + |payload|
  {
    hide NumberIn;
    assert Appends(before, ipc, after, ipc', b as nat, payload);
  }

  lemma ReadThen(before: Store, ipc: seq<byte>, after: Store, ipc': seq<byte>, b: byte)
    requires Served(before, ipc, after, ipc') && Has(before, b) && Encode(READ_CMD, b, []) <= ipc
    ensures after == before && before[b as nat] + [0] <= ipc'
  {
    hide NumberIn;
    assert ReadsBack(before, ipc, after, ipc', b as nat);
  }

  // ---------- the server ----------

  const DB_SIZE: nat := 0xFF * 0x1000

  // bucket_to_db_vaddr, relative to the database's base
  function BucketAt(b: nat): nat {
    b * 0x1000
  }

  function Bucket(db: seq<byte>, b: nat): seq<byte>
    requires |db| == DB_SIZE && b < N_BUCKETS
  {
    db[BucketAt(b)..BucketAt(b) + 0x1000]
  }

  // The recorded length is the index of the first NUL, and there is one.
  predicate Records(bucket: seq<byte>, length: int) {
    0 <= length < |bucket| && IndexOf(bucket, 0) == length
  }

  function TextIn(bucket: seq<byte>): Text {
    bucket[..IndexOf(bucket, 0)]
  }

  // strlen of a bucket, which may look beyond it, is the recorded length.
  lemma BucketLength(db: seq<byte>, b: nat)
    requires |db| == DB_SIZE && b < N_BUCKETS && Records(Bucket(db, b), IndexOf(Bucket(db, b), 0))
    ensures StringAt(db, BucketAt(b)) && IndexOf(db[BucketAt(b)..], 0) == IndexOf(Bucket(db, b), 0)
    ensures WithNul(db, BucketAt(b)) == TextIn(Bucket(db, b)) + [0]
  {
    var tail, bucket := db[BucketAt(b)..], Bucket(db, b);
    assert bucket == tail[..0x1000];
    var n := IndexOf(bucket, 0);
    assert tail[n] == bucket[n];
    assert forall i :: 0 <= i < n ==> tail[i] == bucket[i];
    IndexOfIs(tail, 0, n);
    assert tail[..n] == bucket[..n];
  }

  // A write that stays in one bucket is a write to that bucket...
  lemma WrittenHere(db: seq<byte>, b: nat, d: nat, src: seq<byte>)
    requires |db| == DB_SIZE && b < N_BUCKETS && d + |src| <= 0x1000
    ensures Bucket(Written(db, BucketAt(b) + d, src), b) == Written(Bucket(db, b), d, src)
  {
    var at := BucketAt(b);
    var db', bucket' := Written(db, at + d, src), Written(Bucket(db, b), d, src);
    forall i | 0 <= i < 0x1000 ensures Bucket(db', b)[i] == bucket'[i] {
      if i < d {
        assert db'[at + i] == db[at + i];
      } else if i < d + |src| {
        assert db'[at + i] == src[i - d];
      } else {
        assert db'[at + i] == db[at + i];
      }
    }
  }

  // ... and leaves the others alone.
  lemma WrittenElsewhere(db: seq<byte>, b: nat, d: nat, src: seq<byte>, other: nat)
    requires |db| == DB_SIZE && b < N_BUCKETS && other < N_BUCKETS && other != b && d + |src| <= 0x1000
    ensures Bucket(Written(db, BucketAt(b) + d, src), other) == Bucket(db, other)
  {
    var db', from, at := Written(db, BucketAt(b) + d, src), BucketAt(other), BucketAt(b);
    assert from + 0x1000 <= at || at + 0x1000 <= from;
    forall i | 0 <= i < 0x1000 ensures Bucket(db', other)[i] == Bucket(db, other)[i] {
      assert db'[from + i] == db[from + i];
    }
  }

  lemma WrittenInBucket(db: seq<byte>, b: nat, d: nat, src: seq<byte>)
    requires |db| == DB_SIZE && b < N_BUCKETS && d + |src| <= 0x1000
    ensures var db' := Written(db, BucketAt(b) + d, src);
            && |db'| == DB_SIZE
            && Bucket(db', b) == Written(Bucket(db, b), d, src)
            && (forall other: nat :: other < N_BUCKETS && other != b ==> Bucket(db', other) == Bucket(db, other))
  {
    var db' := Written(db, BucketAt(b) + d, src);
    WrittenHere(db, b, d, src);
    forall other: nat | other < N_BUCKETS && other != b ensures Bucket(db', other) == Bucket(db, other) {
      WrittenElsewhere(db, b, d, src, other);
    }
  }

  // Writing a text with its NUL behind the text of a bucket appends it.
  lemma AppendedText(bucket: seq<byte>, payload: Text)
    requires |bucket| == 0x1000 && IndexOf(bucket, 0) + |payload| + 1 <= 0x1000
    ensures var bucket' := Written(bucket, IndexOf(bucket, 0), payload + [0]);
            && Records(bucket', IndexOf(bucket, 0) + |payload|)
            && TextIn(bucket') == TextIn(bucket) + payload
  {
    hide IndexOf;
    var n := IndexOf(bucket, 0);
    var bucket' := Written(bucket, n, payload + [0]);
    assert bucket'[n + |payload|] == (payload + [0])[|payload|];
    forall i | 0 <= i < n + |payload| ensures bucket'[i] == (TextIn(bucket) + payload)[i] != 0 {
      if i >= n { assert bucket'[i] == payload[i - n]; }
    }
    IndexOfIs(bucket', 0, n + |payload|);
  }

  lemma EmptiedText(bucket: seq<byte>)
    requires 0 < |bucket|
    ensures Records(bucket[0 := 0], 0) && TextIn(bucket[0 := 0]) == []
  {
    IndexOfIs(bucket[0 := 0], 0, 0);
  }

  class Server {
    // the buckets, 4096 bytes each
    const db: array<byte>
    const dataLen: array<int>
    // the page-aligned address of the database
    const base: nat

    ghost predicate Sized() {
      db.Length == DB_SIZE && dataLen.Length == N_BUCKETS && base % 8 == 0
    }

    ghost predicate Valid()
      reads db, dataLen
    {
      && Sized()
      && (forall b :: 0 <= b < N_BUCKETS ==> Records(Bucket(db[..], b), dataLen[b]))
    }

    ghost function View(): (store: Store)
      requires Valid()
      reads db, dataLen
      ensures StoreOk(store)
    {
      seq(N_BUCKETS, b requires 0 <= b < N_BUCKETS && Valid() reads db, dataLen => TextIn(Bucket(db[..], b)))
    }

    // init: the zeroed database holds 255 empty strings.
    constructor (db: array<byte>, dataLen: array<int>, base: nat)
      requires db.Length == DB_SIZE && dataLen.Length == N_BUCKETS && base % 8 == 0
      requires forall b :: 0 <= b < N_BUCKETS ==> dataLen[b] == 0
      modifies db
      ensures this.db == db && this.dataLen == dataLen && this.base == base
      ensures Valid() && forall b :: 0 <= b < N_BUCKETS ==> View()[b] == []
    {
      this.db, this.dataLen, this.base := db, dataLen, base;
      new;
      Memzero(db, DB_SIZE);
      forall b | 0 <= b < N_BUCKETS ensures Records(Bucket(db[..], b), 0) && TextIn(Bucket(db[..], b)) == [] {
        assert Bucket(db[..], b)[0] == db[BucketAt(b)];
        IndexOfIs(Bucket(db[..], b), 0, 0);
      }
    }

    // One turn of the loop of client_handler, after the client's notification.
    method Handle(ipc: array<byte>, ipcBase: nat)
      requires Valid() && Wellformed(ipc[..]) && ipc != db
      modifies db, dataLen, ipc
      ensures Valid()
      ensures View() == Update(old(View()), Parse(old(ipc[..])))
      ensures ipc[..] == Answered(old(ipc[..]), Reply(old(View()), Parse(old(ipc[..]))))
      ensures Served(old(View()), old(ipc[..]), View(), ipc[..])
    {
      hide Served;
      RequestsAreServed(View(), ipc[..]);
      var cmd := ipc[COMMAND_IPC_IDX];
      var bucket := ipc[COMMAND_BUCKET_IDX] as nat;
      if cmd == READ_CMD {
        HandleRead(ipc, bucket);
      } else if cmd == APPEND_CMD {
        assert ipc[..][COMMAND_DATA_START_IDX..] == ipc[COMMAND_DATA_START_IDX..];
        HandleAppend(ipc, ipcBase, bucket, PayloadIn(ipc[..]));
      } else if cmd == DELETE_CMD {
        HandleDelete(ipc, bucket);
      } else {
        assert ipc[..] == Answered(ipc[..], []);
      }
    }

    lemma BucketBytes(b: nat)
      requires Valid() && b < N_BUCKETS
      ensures var at := BucketAt(b);
              && StringAt(db[..], at) && IndexOf(db[at..], 0) == dataLen[b]
              && db[at..at + dataLen[b] + 1] == View()[b] + [0]
    {
      BucketLength(db[..], b);
      var at := BucketAt(b);
      assert db[..][at..] == db[at..];
      assert db[at..at + dataLen[b] + 1] == WithNul(db[..], at);
    }

    method HandleRead(ipc: array<byte>, bucket: nat)
      requires Valid() && ipc.Length == BUCKET_SIZE && bucket < N_BUCKETS && ipc != db
      modifies ipc
      ensures ipc[..] == Answered(old(ipc[..]), View()[bucket] + [0])
    {
      BucketBytes(bucket);
      Strncpy(ipc, 0, db, BucketAt(bucket), dataLen[bucket] + 1);
    }

    method HandleAppend(ipc: array<byte>, ipcBase: nat, bucket: nat, ghost payload: Text)
      requires Valid() && Wellformed(ipc[..]) && ipc != db && bucket < N_BUCKETS
      requires 0 in ipc[COMMAND_DATA_START_IDX..]
      requires payload == PayloadIn(ipc[..])
      modifies db, dataLen, ipc
      ensures Valid()
      ensures View() == Update(old(View()), Request(bucket, Append(payload)))
      ensures ipc[..] == Answered(old(ipc[..]), Reply(old(View()), Request(bucket, Append(payload))))
    {
      var inputLen := InputLength(ipc, ipcBase, payload);
      var retval := AppendIfFits(ipc, bucket, inputLen, payload);
      StoreHalfword(ipc, retval);
    }

    method AppendIfFits(ipc: array<byte>, bucket: nat, inputLen: nat, ghost payload: Text) returns (retval: nat)
      requires Valid() && Wellformed(ipc[..]) && ipc != db && bucket < N_BUCKETS && inputLen == |payload|
      requires StringAt(ipc[..], COMMAND_DATA_START_IDX) && WithNul(ipc[..], COMMAND_DATA_START_IDX) == payload + [0]
      modifies db, dataLen
      ensures Valid() && retval < 0x1_0000
      ensures View() == Update(old(View()), Request(bucket, Append(payload)))
      ensures LittleEndian(retval) == Reply(old(View()), Request(bucket, Append(payload)))
    {
      ghost var before := View();
      AppendCases(before, bucket, payload);
      assert |before[bucket]| == dataLen[bucket] by { BucketBytes(bucket); }
      var newBucketLen := dataLen[bucket] + inputLen;
      var newBucketLenWithNull := dataLen[bucket] + inputLen + 1;
      retval := 0;
      if newBucketLenWithNull <= BUCKET_SIZE {
        AppendAndRecord(ipc, bucket, newBucketLen, payload);
        retval := newBucketLen;
      }
    }

    method InputLength(ipc: array<byte>, ipcBase: nat, ghost payload: Text) returns (inputLen: nat)
      requires Wellformed(ipc[..]) && 0 in ipc[COMMAND_DATA_START_IDX..] && payload == PayloadIn(ipc[..])
      ensures inputLen == |payload|
      ensures StringAt(ipc[..], COMMAND_DATA_START_IDX) && WithNul(ipc[..], COMMAND_DATA_START_IDX) == payload + [0]
    {
      ghost var data := ipc[COMMAND_DATA_START_IDX..];
      assert ipc[COMMAND_DATA_START_IDX..COMMAND_DATA_START_IDX + APPEND_CMD_MAX_PAYLOAD_LEN] == data;
      assert ipc[..][COMMAND_DATA_START_IDX..] == data;
      inputLen := Strnlen(ipc, ipcBase, COMMAND_DATA_START_IDX, APPEND_CMD_MAX_PAYLOAD_LEN);
    }

    method AppendAndRecord(ipc: array<byte>, bucket: nat, newBucketLen: int, ghost payload: Text)
      requires Valid() && Wellformed(ipc[..]) && ipc != db && bucket < N_BUCKETS
      requires StringAt(ipc[..], COMMAND_DATA_START_IDX) && WithNul(ipc[..], COMMAND_DATA_START_IDX) == payload + [0]
      requires newBucketLen == dataLen[bucket] + |payload| && newBucketLen + 1 <= BUCKET_SIZE
      modifies db, dataLen
      ensures Valid()
      ensures View() == old(View())[bucket := old(View())[bucket] + payload]
    {
      ghost var before := View();
      AppendText(ipc, bucket, payload);
      dataLen[bucket] := newBucketLen;
      assert View() == before[bucket := before[bucket] + payload];
    }

    // strcat of the payload to a bucket in which it fits.
    method AppendText(ipc: array<byte>, bucket: nat, ghost payload: Text)
      requires Valid() && Wellformed(ipc[..]) && ipc != db && bucket < N_BUCKETS
      requires StringAt(ipc[..], COMMAND_DATA_START_IDX) && WithNul(ipc[..], COMMAND_DATA_START_IDX) == payload + [0]
      requires dataLen[bucket] + |payload| + 1 <= BUCKET_SIZE
      modifies db
      ensures Records(Bucket(db[..], bucket), dataLen[bucket] + |payload|)
      ensures TextIn(Bucket(db[..], bucket)) == TextIn(Bucket(old(db[..]), bucket)) + payload
      ensures forall b: nat :: b < N_BUCKETS && b != bucket ==> Bucket(db[..], b) == Bucket(old(db[..]), b)
    {
      ghost var before := db[..];
      BucketLength(before, bucket);
      WrittenInBucket(before, bucket, dataLen[bucket], payload + [0]);
      AppendedText(Bucket(before, bucket), payload);
      assert before[BucketAt(bucket)..] == db[BucketAt(bucket)..];
      assert ipc[..][COMMAND_DATA_START_IDX..] == ipc[COMMAND_DATA_START_IDX..];
      Strcat(db, base, BucketAt(bucket), ipc, COMMAND_DATA_START_IDX);
    }

    method HandleDelete(ipc: array<byte>, bucket: nat)
      requires Valid() && ipc.Length == BUCKET_SIZE && bucket < N_BUCKETS && ipc != db
      modifies db, dataLen, ipc
      ensures Valid()
      ensures View() == Update(old(View()), Request(bucket, Delete))
      ensures ipc[..] == Answered(old(ipc[..]), LittleEndian(1))
    {
      ghost var before, bytes := View(), db[..];
      dataLen[bucket] := 0;
      db[BucketAt(bucket)] := 0;
      EmptiedText(Bucket(bytes, bucket));
      assert db[..] == Written(bytes, BucketAt(bucket) + 0, [0]);
      WrittenInBucket(bytes, bucket, 0, [0]);
      assert Written(Bucket(bytes, bucket), 0, [0]) == Bucket(bytes, bucket)[0 := 0];
      StoreHalfword(ipc, 1);
      assert View() == before[bucket := []];
    }

    // *(uint16_t *)ipc = n
    method StoreHalfword(ipc: array<byte>, n: nat)
      requires 2 <= ipc.Length && n < 0x1_0000
      modifies ipc
      ensures ipc[..] == Answered(old(ipc[..]), LittleEndian(n))
    {
      ipc[0] := (n % 256) as byte;
      ipc[1] := (n / 256) as byte;
    }

    // Any number of requests, each put into the shared buffer by the client.
    method Serve(requests: seq<seq<byte>>, ipc: array<byte>, ipcBase: nat)
      returns (ghost stores: seq<Store>, ghost replies: seq<seq<byte>>)
      requires Valid() && ipc != db && ipc.Length == BUCKET_SIZE
      requires forall k :: 0 <= k < |requests| ==> Wellformed(requests[k])
      modifies db, dataLen, ipc
      ensures Valid()
      ensures View() == UpdateAll(old(View()), ParseAll(requests))
      ensures AllServed(stores, requests, replies) && stores[0] == old(View()) && stores[|requests|] == View()
    {
      hide Served;
      ghost var start, all := View(), ParseAll(requests);
      stores, replies := [start], [];
      var k := 0;
      while k < |requests|
        invariant 0 <= k <= |requests| && Valid()
        invariant View() == UpdateAll(start, all[..k])
        invariant AllServed(stores, requests[..k], replies) && stores[0] == start && stores[k] == View()
      {
        forall i | 0 <= i < BUCKET_SIZE {
          ipc[i] := requests[k][i];
        }
        assert ipc[..] == requests[k];
        Handle(ipc, ipcBase);
        UpdateLast(start, all, k);
        OneMoreServed(stores, requests, replies, k, View(), ipc[..]);
        stores, replies := stores + [View()], replies + [ipc[..]];
        k := k + 1;
      }
      assert all[..k] == all && requests[..k] == requests;
    }
  }

  lemma OneMoreServed(stores: seq<Store>, requests: seq<seq<byte>>, replies: seq<seq<byte>>, k: nat, after: Store,
                      ipc': seq<byte>)
    requires k < |requests| && AllServed(stores, requests[..k], replies) && Served(stores[k], requests[k], after, ipc')
    ensures AllServed(stores + [after], requests[..k + 1], replies + [ipc'])
  {
    hide Served;
    forall i | 0 <= i < k + 1
      ensures Served((stores + [after])[i], requests[..k + 1][i], (stores + [after])[i + 1], (replies + [ipc'])[i])
    {
      if i < k {
        assert Served(stores[i], requests[..k][i], stores[i + 1], replies[i]);
      }
    }
  }

  lemma UpdateLast(store: Store, requests: seq<Request>, k: nat)
    requires |store| == N_BUCKETS && forall i :: 0 <= i < |requests| ==> requests[i].bucket < N_BUCKETS
    requires k < |requests|
    ensures UpdateAll(store, requests[..k + 1]) == Update(UpdateAll(store, requests[..k]), requests[k])
  {
    assert requests[..k + 1][..k] == requests[..k];
  }

  function ParseAll(requests: seq<seq<byte>>): (all: seq<Request>)
    requires forall k :: 0 <= k < |requests| ==> Wellformed(requests[k])
    ensures |all| == |requests|
    ensures forall k :: 0 <= k < |all| ==>
              Wellformed(requests[k]) && all[k] == Parse(requests[k]) && all[k].bucket < N_BUCKETS
  {
    seq(|requests|, k requires 0 <= k < |requests| && Wellformed(requests[k]) => Parse(requests[k]))
  }
}
