/** The in-process fakes of the Storage and Metadata services: commit a blob, publish a version of it, read it back in
    chunks. Every locked section is one step; calls interleave between them. */
module Upstreams {
  import opened Options
  import opened Octets

  type Bytes = seq<byte>

  const BUCKET: string := "fixture"
  const RETRIEVE_CHUNK_SIZE: nat := 0x10_0000

  datatype Meta = Meta(blobId: string, versionId: string, sizeBytes: int, etag: string, contentType: string)

  datatype Code = InvalidArgument | NotFound | FailedPrecondition | Injected(n: nat) | Broken

  datatype Outcome<+T> = Ok(value: T) | Err(code: Code)

  datatype StoredBlob = StoredBlob(blobId: string, checksum: string)

  // ----- blob names -----

  function Digit(n: nat): char
    requires n < 10
  {
    ('0' as int + n) as char
  }

  function Decimal(n: nat): string {
    if n < 10 then [Digit(n)] else Decimal(n / 10) + [Digit(n % 10)]
  }

  function BlobName(n: nat): string {
    "blob-" + Decimal(n)
  }

  function SeedName(key: string): string {
    "seed-" + key
  }

  lemma DecimalEnds(n: nat)
    ensures var d := Decimal(n);
            && |d| >= 1 && d[|d| - 1] == Digit(n % 10)
            && d[..|d| - 1] == if n < 10 then "" else Decimal(n / 10)
  {
  }

  lemma {:induction false} DecimalInjective(m: nat, n: nat)
    requires Decimal(m) == Decimal(n)
    ensures m == n
    decreases m
  {
    DecimalEnds(m);
    DecimalEnds(n);
    assert m % 10 == n % 10;
    DecimalEnds(m / 10);
    DecimalEnds(n / 10);
    if m >= 10 && n >= 10 {
      DecimalInjective(m / 10, n / 10);
    }
  }

  /** The number that a string of digits stands for. */
  function ValueOf(digits: string): int {
    if digits == "" then 0 else 10 * ValueOf(digits[..|digits| - 1]) + (digits[|digits| - 1] as int - '0' as int)
  }

  lemma {:induction false} DecimalValue(n: nat)
    ensures ValueOf(Decimal(n)) == n
    ensures forall k :: 0 <= k < |Decimal(n)| ==> '0' <= Decimal(n)[k] <= '9'
  {
    DecimalEnds(n);
    if n >= 10 {
      DecimalValue(n / 10);
    }
  }

  /** A blob's name is "blob-" and its number in decimal digits. */
  lemma BlobNameIs(n: nat)
    ensures var name := BlobName(n);
            && |name| > 5 && name[..5] == "blob-" && ValueOf(name[5..]) == n
            && forall k :: 5 <= k < |name| ==> '0' <= name[k] <= '9'
  {
    DecimalValue(n);
    DecimalEnds(n);
    assert BlobName(n)[5..] == Decimal(n);
  }

  lemma NamesDiffer(m: nat, n: nat, key: string)
    ensures BlobName(m) == BlobName(n) ==> m == n
    ensures BlobName(m) != SeedName(key)
  {
    if BlobName(m) == BlobName(n) {
      assert Decimal(m) == BlobName(m)[5..] && Decimal(n) == BlobName(n)[5..];
      DecimalInjective(m, n);
    }
    assert BlobName(m)[0] == 'b' && SeedName(key)[0] == 's';
  }

  lemma SeedNamesDiffer(a: string, b: string)
    ensures SeedName(a) == SeedName(b) ==> a == b
  {
    assert a == SeedName(a)[5..] && b == SeedName(b)[5..];
  }

  // ----- state and its steps -----

  /** What the fakes hold. */
  datatype Shelf = Shelf(blobs: map<string, Bytes>, meta: map<string, Meta>, storeCount: nat)

  function Seeded(shelf: Shelf, key: string, data: Bytes): Shelf {
    shelf.(blobs := shelf.blobs[SeedName(key) := data],
           meta := shelf.meta[key := Meta(SeedName(key), "version-1", |data|, "", "")])
  }

  function Committed(shelf: Shelf, content: Bytes): Shelf {
    shelf.(blobs := shelf.blobs[BlobName(shelf.storeCount + 1) := content], storeCount := shelf.storeCount + 1)
  }

  function Published(shelf: Shelf, key: string, meta: Meta): Shelf {
    shelf.(meta := shelf.meta[key := meta])
  }

  /** Blob names that a commit or a seed gave out. */
  ghost predicate GivenOut(shelf: Shelf, name: string) {
    (exists key :: name == SeedName(key)) || (exists n :: 1 <= n <= shelf.storeCount && name == BlobName(n))
  }

  /** Every published version points to a blob that exists. */
  ghost predicate Resolves(shelf: Shelf) {
    && (forall key :: key in shelf.meta ==> shelf.meta[key].blobId in shelf.blobs)
    && (forall name :: name in shelf.blobs ==> GivenOut(shelf, name))
  }

  lemma SeedKeeps(shelf: Shelf, key: string, data: Bytes)
    requires Resolves(shelf)
    ensures Resolves(Seeded(shelf, key, data))
  {
    var shelf' := Seeded(shelf, key, data);
    forall name | name in shelf'.blobs ensures GivenOut(shelf', name) {
      if name != SeedName(key) { assert GivenOut(shelf, name); }
    }
  }

  /** The name of the next blob is not in use. */
  lemma NextNameIsNew(shelf: Shelf)
    requires Resolves(shelf)
    ensures BlobName(shelf.storeCount + 1) !in shelf.blobs
  {
    var name := BlobName(shelf.storeCount + 1);
    forall key ensures SeedName(key) != name {
      NamesDiffer(shelf.storeCount + 1, 0, key);
    }
    forall n: nat | n <= shelf.storeCount ensures BlobName(n) != name {
      NamesDiffer(n, shelf.storeCount + 1, "");
    }
    assert !GivenOut(shelf, name);
  }

  lemma CommitKeeps(shelf: Shelf, content: Bytes)
    requires Resolves(shelf)
    ensures Resolves(Committed(shelf, content))
    ensures forall name :: name in shelf.blobs ==>
      name in Committed(shelf, content).blobs && Committed(shelf, content).blobs[name] == shelf.blobs[name]
  {
    NextNameIsNew(shelf);
    var shelf' := Committed(shelf, content);
    forall name | name in shelf'.blobs ensures GivenOut(shelf', name) {
      if name in shelf.blobs {
        assert GivenOut(shelf, name);
        if n: nat :| 1 <= n <= shelf.storeCount && name == BlobName(n) { assert n <= shelf'.storeCount; }
      } else {
        assert name == BlobName(shelf'.storeCount);
      }
    }
  }

  lemma PublishKeeps(shelf: Shelf, key: string, meta: Meta)
    requires Resolves(shelf) && meta.blobId in shelf.blobs
    ensures Resolves(Published(shelf, key, meta))
  {
    var shelf' := Published(shelf, key, meta);
    forall name | name in shelf'.blobs ensures GivenOut(shelf', name) {
      assert GivenOut(shelf, name);
    }
  }

  /** The locked sections that change something. */
  datatype Action = Seed(key: string, data: Bytes) | Commit(content: Bytes) | Publish(key: string, meta: Meta)

  ghost predicate Enabled(shelf: Shelf, a: Action) {
    a.Publish? ==> a.meta.blobId in shelf.blobs
  }

  function Step(shelf: Shelf, a: Action): Shelf {
    match a
    case Seed(key, data) => Seeded(shelf, key, data)
    case Commit(content) => Committed(shelf, content)
    case Publish(key, meta) => Published(shelf, key, meta)
  }

  /** Any interleaving of seeds, uploads and publications. */
  ghost predicate Run(states: seq<Shelf>, actions: seq<Action>) {
    && |states| == |actions| + 1 && Resolves(states[0])
    && forall k :: 0 <= k < |actions| ==> Enabled(states[k], actions[k]) && states[k + 1] == Step(states[k], actions[k])
  }

  /** The blob is seeded between two moments. */
  ghost predicate SeededBetween(actions: seq<Action>, i: nat, k: nat, name: string)
    requires k <= |actions|
  {
    exists m :: i <= m < k && actions[m].Seed? && SeedName(actions[m].key) == name
  }

  lemma StepResolves(shelf: Shelf, a: Action)
    requires Resolves(shelf) && Enabled(shelf, a)
    ensures Resolves(Step(shelf, a))
    ensures forall name :: name in shelf.blobs ==>
      && name in Step(shelf, a).blobs
      && (Step(shelf, a).blobs[name] == shelf.blobs[name] || (a.Seed? && SeedName(a.key) == name))
  {
    match a {
      case Seed(key, data) => SeedKeeps(shelf, key, data);
      case Commit(content) => CommitKeeps(shelf, content);
      case Publish(key, meta) => PublishKeeps(shelf, key, meta);
    }
  }

  /** Blobs are never lost, every published version resolves, and a blob's bytes change only if it is seeded again. */
  lemma {:induction false} BlobsAreStable(states: seq<Shelf>, actions: seq<Action>, i: nat, k: nat)
    requires Run(states, actions) && i <= k < |states|
    ensures Resolves(states[k])
    ensures forall name :: name in states[i].blobs ==>
      && name in states[k].blobs
      && (states[k].blobs[name] == states[i].blobs[name] || SeededBetween(actions, i, k, name))
    decreases k
  {
    if k > 0 {
      var shelf, a := states[k - 1], actions[k - 1];
      BlobsAreStable(states, actions, if i < k then i else k - 1, k - 1);
      assert states[k - 1 + 1] == Step(shelf, a) && Enabled(shelf, a);
      StepResolves(shelf, a);
      forall name | i < k && name in states[i].blobs
        ensures name in states[k].blobs
        ensures states[k].blobs[name] == states[i].blobs[name] || SeededBetween(actions, i, k, name)
      {
        if SeededBetween(actions, i, k - 1, name) {
          var m :| i <= m < k - 1 && actions[m].Seed? && SeedName(actions[m].key) == name;
          assert i <= m < k;
        }
      }
    }
  }

  /** The action gives the key a version. */
  ghost predicate Republishes(a: Action, key: string) {
    (a.Publish? || a.Seed?) && a.key == key
  }

  /** A key keeps its version until it is published or seeded again. */
  lemma {:induction false} VersionStays(states: seq<Shelf>, actions: seq<Action>, j: nat, k: nat, key: string)
    requires Run(states, actions) && j <= k < |states| && key in states[j].meta
    requires forall m :: j <= m < k ==> !Republishes(actions[m], key)
    ensures key in states[k].meta && states[k].meta[key] == states[j].meta[key]
  {
    if j < k {
      VersionStays(states, actions, j, k - 1, key);
      assert states[k - 1 + 1] == Step(states[k - 1], actions[k - 1]) && !Republishes(actions[k - 1], key);
    }
  }

  /** An upload, then a publication of its blob, then anything that does not publish or seed the key again: a look-up of
      the key leads to the uploaded bytes, and reading that blob gives them in non-empty pieces of at most a
      mebibyte. */
  lemma UploadIsReadable(states: seq<Shelf>, actions: seq<Action>, i: nat, j: nat, k: nat, content: Bytes,
                         key: string, meta: Meta)
    requires Run(states, actions) && i < j < k < |states|
    requires actions[i] == Commit(content) && actions[j] == Publish(key, meta)
    requires meta.blobId == BlobName(states[i].storeCount + 1)
    requires forall m :: j < m < k ==> !Republishes(actions[m], key)
    ensures key in states[k].meta && states[k].meta[key] == meta
    ensures meta.blobId in states[k].blobs && states[k].blobs[meta.blobId] == content
    ensures Concat(Chunks(states[k].blobs[meta.blobId], RETRIEVE_CHUNK_SIZE)) == content
    ensures FullPieces(Chunks(content, RETRIEVE_CHUNK_SIZE), 1048576)
  {
    CommitIsThere(states, actions, i, k);
    PublicationIsThere(states, actions, j, k);
    ChunksJoin(content, RETRIEVE_CHUNK_SIZE);
  }

  /** A seed, then anything that does not publish or seed the key again: a look-up of the key gives the size of the seeded
      bytes and leads to them, and reading them gives them in non-empty pieces of at most a mebibyte. */
  lemma SeedIsReadable(states: seq<Shelf>, actions: seq<Action>, i: nat, k: nat, key: string, data: Bytes)
    requires Run(states, actions) && i < k < |states| && actions[i] == Seed(key, data)
    requires forall m :: i < m < k ==> !Republishes(actions[m], key)
    ensures key in states[k].meta
    ensures var meta := states[k].meta[key];
            && meta.blobId == "seed-" + key && meta.sizeBytes == |data| && meta.versionId == "version-1"
            && meta.blobId in states[k].blobs && states[k].blobs[meta.blobId] == data
            && Concat(Chunks(states[k].blobs[meta.blobId], RETRIEVE_CHUNK_SIZE)) == data
            && FullPieces(Chunks(data, RETRIEVE_CHUNK_SIZE), 1048576)
  {
    assert states[i + 1] == Step(states[i], actions[i]);
    VersionStays(states, actions, i + 1, k, key);
    BlobsAreStable(states, actions, i + 1, k);
    forall m | i + 1 <= m < k && actions[m].Seed? ensures SeedName(actions[m].key) != SeedName(key) {
      SeedNamesDiffer(actions[m].key, key);
      assert !Republishes(actions[m], key);
    }
    ChunksJoin(data, RETRIEVE_CHUNK_SIZE);
  }

  /** No seed touches an uploaded blob. */
  lemma CommitIsThere(states: seq<Shelf>, actions: seq<Action>, i: nat, k: nat)
    requires Run(states, actions) && i < k < |states| && actions[i].Commit?
    ensures var name := BlobName(states[i].storeCount + 1);
            name in states[k].blobs && states[k].blobs[name] == actions[i].content
  {
    var n := states[i].storeCount + 1;
    assert states[i + 1] == Step(states[i], actions[i]);
    BlobsAreStable(states, actions, i + 1, k);
    if SeededBetween(actions, i + 1, k, BlobName(n)) {
      var m :| i + 1 <= m < k && actions[m].Seed? && SeedName(actions[m].key) == BlobName(n);
      NamesDiffer(n, n, actions[m].key);
    }
  }

  lemma PublicationIsThere(states: seq<Shelf>, actions: seq<Action>, j: nat, k: nat)
    requires Run(states, actions) && j < k < |states| && actions[j].Publish?
    requires forall m :: j < m < k ==> !Republishes(actions[m], actions[j].key)
    ensures actions[j].key in states[k].meta && states[k].meta[actions[j].key] == actions[j].meta
  {
    assert states[j + 1] == Step(states[j], actions[j]);
    VersionStays(states, actions, j + 1, k, actions[j].key);
  }

  // ----- chunks -----

  function Concat(pieces: seq<Bytes>): Bytes {
    if pieces == [] then [] else Concat(pieces[..|pieces| - 1]) + pieces[|pieces| - 1]
  }

  /** The pieces in which a blob is sent. */
  function Chunks(data: Bytes, size: nat): seq<Bytes>
    requires size > 0
    decreases |data|
  {
    if data == [] then []
    else if |data| <= size then [data]
    else [data[..size]] + Chunks(data[size..], size)
  }

  lemma {:induction false} ConcatPrepend(first: Bytes, rest: seq<Bytes>)
    ensures Concat([first] + rest) == first + Concat(rest)
  {
    if rest == [] {
      assert [first] + rest == [first];
    } else {
      var all := [first] + rest;
      assert all[..|all| - 1] == [first] + rest[..|rest| - 1];
      ConcatPrepend(first, rest[..|rest| - 1]);
    }
  }

  /** No piece is empty or longer than the size, and all but the last are full. */
  ghost predicate FullPieces(pieces: seq<Bytes>, size: nat) {
    && (forall k :: 0 <= k < |pieces| ==> 1 <= |pieces[k]| <= size)
    && (forall k :: 0 <= k < |pieces| - 1 ==> |pieces[k]| == size)
  }

  lemma PiecesPrepend(first: Bytes, rest: seq<Bytes>, size: nat)
    requires size > 0 && |first| == size && FullPieces(rest, size)
    ensures FullPieces([first] + rest, size)
  {
    var all := [first] + rest;
    assert forall k :: 1 <= k < |all| ==> all[k] == rest[k - 1];
  }

  /** The pieces join to the data, none is empty, and all but the last are full. */
  lemma {:induction false} ChunksJoin(data: Bytes, size: nat)
    requires size > 0
    ensures Concat(Chunks(data, size)) == data
    ensures FullPieces(Chunks(data, size), size)
    decreases |data|
  {
    if |data| > size {
      var first, rest := data[..size], Chunks(data[size..], size);
      ChunksJoin(data[size..], size);
      ConcatPrepend(first, rest);
      assert data == first + data[size..];
      PiecesPrepend(first, rest, size);
    } else if data != [] {
      ConcatPrepend(data, []);
      assert [data] + [] == [data];
    }
  }

  /** Sending from an offset sends the next piece, and then the rest. */
  lemma ChunksFrom(data: Bytes, offset: nat, size: nat)
    requires size > 0 && offset < |data|
    ensures var end := if offset + size <= |data| then offset + size else |data|;
            Chunks(data[offset..], size) == [data[offset..end]] + Chunks(data[end..], size)
  {
    var rest, end := data[offset..], if offset + size <= |data| then offset + size else |data|;
    assert rest[..end - offset] == data[offset..end];
    if |rest| > size {
      assert rest[size..] == data[end..];
    } else {
      assert data[end..] == [] && rest == data[offset..end];
      assert Chunks(rest, size) == [rest] + [];
    }
  }

  /** Sending the next piece leaves the rest to be sent. */
  lemma SendNext(all: seq<Bytes>, sent: seq<Bytes>, data: Bytes, offset: nat, size: nat)
    requires size > 0 && offset < |data| && all == sent + Chunks(data[offset..], size)
    ensures all[..|sent|] == sent && |sent| < |all|
    ensures var end := if offset + size <= |data| then offset + size else |data|;
            all == sent + [data[offset..end]] + Chunks(data[end..], size)
  {
    ChunksFrom(data, offset, size);
  }

  // ----- calls -----

  /** A message of an upload stream. */
  datatype Message = Header(size: Option<int>) | Chunk(data: Bytes)

  function Data(message: Message): Bytes {
    if message.Chunk? then message.data else []
  }

  function DataOf(messages: seq<Message>): seq<Bytes> {
    seq(|messages|, k requires 0 <= k < |messages| => Data(messages[k]))
  }

  /** The messages that carry these pieces. */
  function Chunked(pieces: seq<Bytes>): seq<Message> {
    seq(|pieces|, k requires 0 <= k < |pieces| => Chunk(pieces[k]))
  }

  lemma ChunkedData(pieces: seq<Bytes>)
    ensures DataOf(Chunked(pieces)) == pieces
  {
  }

  /** Why an upload is refused, if it is: the first reason in the order in which they come up. */
  function UploadRefusal(stream: seq<Message>, broken: bool, failStore: Option<Code>,
                         beforeCommit: Option<Code>): Option<Code> {
    if |stream| == 0 then Some(Broken)
    else if !stream[0].Header? then Some(InvalidArgument)
    else if failStore.Some? then failStore
    else if broken then Some(Broken)
    else if stream[0].size.Some? && stream[0].size.value != |Concat(DataOf(stream[1..]))| then Some(InvalidArgument)
    else beforeCommit
  }

  class Upstream {
    var blobs: map<string, Bytes>
    var meta: map<string, Meta>
    var storeCount: nat

    ghost function View(): Shelf
      reads this
    {
      Shelf(blobs, meta, storeCount)
    }

    constructor ()
      ensures View() == Shelf(map[], map[], 0) && Resolves(View())
    {
      blobs, meta, storeCount := map[], map[], 0;
    }

    /** Registers an object that both services know. */
    method Seed(key: string, data: Bytes)
      requires Resolves(View())
      modifies this
      ensures View() == Seeded(old(View()), key, data) && Resolves(View())
    {
      SeedKeeps(View(), key, data);
      var blobId := SeedName(key);
      blobs := blobs[blobId := data];
      meta := meta[key := Meta(blobId, "version-1", |data|, "", "")];
    }

    /** Publishes a version, but never one whose blob is not there. */
    method CreateObjectVersion(key: string, blobId: string, size: int, etag: string, contentType: string,
                               hook: Option<Code>)
      returns (result: Outcome<string>)
      requires Resolves(View())
      modifies this`meta
      ensures Resolves(View())
      ensures result ==
        if hook.Some? then Err(hook.value)
        else if blobId !in blobs then Err(FailedPrecondition) else Ok("version-1")
      ensures View() ==
        if result.Ok? then Published(old(View()), key, Meta(blobId, "version-1", size, etag, contentType)) else old(View())
    {
      if hook.Some? {
        return Err(hook.value);
      }
      if blobId !in blobs {
        return Err(FailedPrecondition);
      }
      PublishKeeps(View(), key, Meta(blobId, "version-1", size, etag, contentType));
      meta := meta[key := Meta(blobId, "version-1", size, etag, contentType)];
      return Ok("version-1");
    }

    /** A version that is found always leads to a blob. */
    method GetObjectMeta(bucket: string, key: string, hook: Option<Code>) returns (result: Outcome<Meta>)
      requires Resolves(View())
      ensures result ==
        if hook.Some? then Err(hook.value)
        else if bucket == BUCKET && key in meta then Ok(meta[key]) else Err(NotFound)
      ensures result.Ok? ==> result.value.blobId in blobs
    {
      if hook.Some? {
        return Err(hook.value);
      }
      if bucket != BUCKET || key !in meta {
        return Err(NotFound);
      }
      return Ok(meta[key]);
    }

    /** Receives an upload and commits it under a new name; any failure before the commit changes nothing. `broken` says
        that the stream ends with an error rather than at its end; `md5` is the checksum that goes into the response. */
    method StoreObject(stream: seq<Message>, broken: bool, failStore: Option<Code>, beforeCommit: Option<Code>,
                       md5: Bytes -> string)
      returns (result: Outcome<StoredBlob>)
      requires Resolves(View())
      modifies this
      ensures Resolves(View())
      ensures result.Ok? <==>
        && |stream| >= 1 && stream[0].Header? && failStore.None? && !broken && beforeCommit.None?
        && (stream[0].size.Some? ==> stream[0].size.value == |Concat(DataOf(stream[1..]))|)
      ensures result.Ok? ==>
        && View() == Committed(old(View()), Concat(DataOf(stream[1..])))
        && result.value == StoredBlob(BlobName(storeCount), md5(Concat(DataOf(stream[1..]))))
        && result.value.blobId !in old(blobs)
      ensures result.Err? ==> View() == old(View())
      ensures result.Err? ==> Some(result.code) == UploadRefusal(stream, broken, failStore, beforeCommit)
      ensures |stream| == 0 ==> result == Err(Broken)
      ensures |stream| > 0 && !stream[0].Header? ==> result == Err(InvalidArgument)
      ensures |stream| > 0 && stream[0].Header? ==>
        && (failStore.Some? ==> result == Err(failStore.value))
        && (failStore.None? && broken ==> result == Err(Broken))
        && (failStore.None? && !broken ==>
              if stream[0].size.Some? && stream[0].size.value != |Concat(DataOf(stream[1..]))| then
                result == Err(InvalidArgument)
              else beforeCommit.Some? ==> result == Err(beforeCommit.value))
    {
      if |stream| == 0 {
        return Err(Broken);
      }
      if !stream[0].Header? {
        return Err(InvalidArgument);
      }
      if failStore.Some? {
        return Err(failStore.value);
      }
      var content: Bytes := Receive(stream[1..]);
      if broken {
        return Err(Broken);
      }
      if stream[0].size.Some? && stream[0].size.value != |content| {
        return Err(InvalidArgument);
      }
      if beforeCommit.Some? {
        return Err(beforeCommit.value);
      }
      NextNameIsNew(View());
      CommitKeeps(View(), content);
      storeCount := storeCount + 1;
      var blobId := BlobName(storeCount);
      blobs := blobs[blobId := content];
      return Ok(StoredBlob(blobId, md5(content)));
    }

    /** Appends the data of every message; a message without data adds nothing. */
    method Receive(messages: seq<Message>) returns (content: Bytes)
      ensures content == Concat(DataOf(messages))
    {
      content := [];
      for k := 0 to |messages|
        invariant content == Concat(DataOf(messages[..k]))
      {
        var pieces := DataOf(messages[..k + 1]);
        assert pieces[..k] == DataOf(messages[..k]);
        content := content + Data(messages[k]);
      }
      assert messages[..|messages|] == messages;
    }

    /** Sends a blob chunk by chunk. `allowed` chunks get through before a hook or the stream fails with `failure`;
        `failRetrieve` is reported after the last chunk. */
    method RetrieveObject(blobId: string, allowed: nat, failure: Code, failRetrieve: Option<Code>)
      returns (sent: seq<Bytes>, result: Outcome<()>)
      ensures blobId !in blobs ==> sent == [] && result == Err(NotFound)
      ensures blobId in blobs ==>
        var all := Chunks(blobs[blobId], RETRIEVE_CHUNK_SIZE);
        if |all| <= allowed then sent == all
          && result == (if failRetrieve.Some? then Err(failRetrieve.value) else Ok(()))
        else sent == all[..allowed] && result == Err(failure)
    {
      sent := [];
      if blobId !in blobs {
        return sent, Err(NotFound);
      }
      var data := blobs[blobId];
      ghost var all := Chunks(data, RETRIEVE_CHUNK_SIZE);
      var offset := 0;
      assert data[0..] == data;
      while offset < |data|
        invariant offset <= |data| && |sent| <= allowed
        invariant all == sent + Chunks(data[offset..], RETRIEVE_CHUNK_SIZE)
        decreases |data| - offset
      {
        SendNext(all, sent, data, offset, RETRIEVE_CHUNK_SIZE);
        if |sent| == allowed {
          return sent, Err(failure);
        }
        var end := if offset + RETRIEVE_CHUNK_SIZE <= |data| then offset + RETRIEVE_CHUNK_SIZE else |data|;
        sent := sent + [data[offset..end]];
        offset := end;
      }
      result := if failRetrieve.Some? then Err(failRetrieve.value) else Ok(());
    }
  }

  /** An object is uploaded in pieces, published, looked up and retrieved: what comes back joins to the pieces. */
  method UploadAndRead(up: Upstream, pieces: seq<Bytes>, key: string, etag: string, contentType: string, md5: Bytes -> string)
    returns (sent: seq<Bytes>)
    requires Resolves(up.View())
    modifies up
    ensures Resolves(up.View())
    ensures Concat(sent) == Concat(pieces) && FullPieces(sent, 1048576)
  {
    var size := |Concat(pieces)|;
    var stream := [Header(Some(size))] + Chunked(pieces);
    assert stream[1..] == Chunked(pieces);
    ChunkedData(pieces);
    var stored := up.StoreObject(stream, false, None, None, md5);
    var blobId := stored.value.blobId;
    var published := up.CreateObjectVersion(key, blobId, size, etag, contentType, None);
    var meta := up.GetObjectMeta("fixture", key, None);
    ChunksJoin(Concat(pieces), RETRIEVE_CHUNK_SIZE);
    var allowed := |Chunks(Concat(pieces), RETRIEVE_CHUNK_SIZE)|;
    var result;
    sent, result := up.RetrieveObject(meta.value.blobId, allowed, Broken, None);
  }
}
