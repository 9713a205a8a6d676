/** The body reader as it runs, over reads of any size, proved to deliver the one-shot result. */
module HttpCode {
  import opened Bytes
  import opened HttpBody

  /** What one successful read returns. */
  type chunk = c: bytes | c != [] witness [0]

  function Joined(chunks: seq<chunk>): bytes {
    if chunks == [] then [] else chunks[0] + Joined(chunks[1..])
  }

  /** The reads still to come, and then how the stream ends. */
  class Transport {
    var incoming: seq<chunk>
    const ending: Ending

    constructor (incoming: seq<chunk>, ending: Ending)
      ensures this.incoming == incoming && this.ending == ending
    {
      this.incoming, this.ending := incoming, ending;
    }

    ghost function Unread(): bytes
      reads this
    {
      Joined(incoming)
    }

    /** None at the end of the stream or on an error. */
    method Read() returns (data: Option<chunk>)
      modifies this
      ensures data.None? <==> old(incoming) == []
      ensures data.None? ==> incoming == []
      ensures data.Some? ==> old(Unread()) == data.value + Unread() && |incoming| < |old(incoming)|
    {
      if incoming == [] {
        return None;
      }
      data := Some(incoming[0]);
      incoming := incoming[1..];
    }
  }

  const WRITE_FAILED := "short write to body file"
  const FLUSH_FAILED := "flush body file"

  /** A response body in memory or a file; `appends` is how many writes the file still takes, None for any number. */
  class BodySink {
    var body: bytes
    var sinkBytes: nat
    var error: string
    var failed: bool
    var appends: Option<nat>
    const flushes: bool

    /** The count reported is the number of bytes appended. */
    ghost predicate Valid()
      reads this
    {
      sinkBytes == |body|
    }

    constructor (appends: Option<nat>, flushes: bool)
      ensures Valid() && !failed && error == "" && body == [] && this.appends == appends && this.flushes == flushes
    {
      body, sinkBytes, error, failed := [], 0, "", false;
      this.appends, this.flushes := appends, flushes;
    }

    method Append(data: bytes) returns (ok: bool)
      requires Valid() && !failed && error == ""
      modifies `body, `sinkBytes, `error, `failed, `appends
      ensures Valid() && ok == !failed
      ensures body == if ok then old(body) + data else old(body)
      ensures error == if ok then "" else WRITE_FAILED
      ensures old(appends) == None ==> ok && appends == None
    {
      if appends == Some(0) {
        error, failed := WRITE_FAILED, true;
        return false;
      }
      if appends.Some? {
        appends := Some(appends.value - 1);
      }
      body := body + data;
      sinkBytes := sinkBytes + |data|;
      ok := true;
    }

    method Finish() returns (ok: bool)
      requires Valid() && !failed && error == ""
      modifies `error, `failed
      ensures ok == flushes == !failed
      ensures error == if ok then "" else FLUSH_FAILED
    {
      ok := flushes;
      if !ok {
        error, failed := FLUSH_FAILED, true;
      }
    }
  }

  class BodyReader {
    const transport: Transport
    const sink: BodySink
    var pending: bytes

    constructor (transport: Transport, sink: BodySink, pending: bytes)
      ensures this.transport == transport && this.sink == sink && this.pending == pending
    {
      this.transport, this.sink, this.pending := transport, sink, pending;
    }

    /** Everything not yet delivered, read or not. */
    ghost function Left(): bytes
      reads this, transport
    {
      pending + transport.Unread()
    }

    ghost predicate Ready()
      reads sink
    {
      sink.Valid() && !sink.failed && sink.error == ""
    }

    /** Read until `want` bytes are pending; it can be done exactly when there are that many. */
    method Fill(want: nat, what: string) returns (ok: bool)
      requires Ready()
      modifies this, transport, sink`error
      ensures Left() == old(Left())
      ensures ok == (|Left()| >= want)
      ensures ok ==> |pending| >= want && Ready()
      ensures !ok ==> pending == Left() && Some(sink.error) == Truncated(transport.ending, what)
    {
      while |pending| < want
        invariant Left() == old(Left()) && Ready()
        decreases |transport.incoming|
      {
        var data := transport.Read();
        if data.None? {
          sink.error := if transport.ending.Eof? then what
                        else if transport.ending.error == "" then "read timeout" else transport.ending.error;
          assert pending + [] == pending;
          return false;
        }
        assert pending + (data.value + transport.Unread()) == (pending + data.value) + transport.Unread();
        pending := pending + data.value;
      }
      ok := true;
    }

    /** Move what is pending, at most `limit` bytes of it, reading first if there is nothing. */
    method DeliverSome(limit: nat, what: string) returns (ok: bool, take: nat)
      requires Ready() && limit > 0
      modifies this, transport, sink
      ensures sink.Valid()
      ensures ok ==> Ready() && 0 < take <= Min(limit, |old(Left())|)
      ensures ok ==> Left() == old(Left())[take..] && sink.body == old(sink.body) + old(Left())[..take]
      ensures !ok ==> sink.body == old(sink.body)
      ensures !ok && !sink.failed ==> old(Left()) == [] && Some(sink.error) == Truncated(transport.ending, what)
      ensures sink.failed ==> sink.error == WRITE_FAILED
      ensures old(sink.appends) == None ==> sink.appends == None && !sink.failed
    {
      take := 0;
      if pending == [] {
        ok := Fill(1, what);
        if !ok {
          return;
        }
      }
      take := Min(limit, |pending|);
      Front(pending, transport.Unread(), take);
      ok := sink.Append(pending[..take]);
      if ok {
        pending := pending[take..];
      }
    }

    /** Move `n` bytes into the sink, as they come. */
    method Deliver(n: nat, what: string) returns (ok: bool)
      requires Ready()
      modifies this, transport, sink
      ensures sink.Valid()
      ensures ok ==> Ready() && |old(Left())| >= n && Left() == old(Left())[n..]
      ensures ok ==> sink.body == old(sink.body) + old(Left())[..n]
      ensures !ok && !sink.failed ==> |old(Left())| < n && sink.body == old(sink.body) + old(Left())
      ensures !ok && !sink.failed ==> Some(sink.error) == Truncated(transport.ending, what)
      ensures sink.failed ==> sink.error == WRITE_FAILED && Within(old(Left()), n, old(sink.body), sink.body)
      ensures old(sink.appends) == None ==> sink.appends == None && !sink.failed
    {
      hide Within;
      ghost var whole, body := Left(), sink.body;
      ghost var moved: nat := 0;
      var remaining := n;
      NothingMoved(whole, body);
      while remaining > 0
        invariant Ready() && moved + remaining == n && moved <= |whole|
        invariant Left() == whole[moved..] && sink.body == body + whole[..moved]
        invariant old(sink.appends) == None ==> sink.appends == None
      {
        var some, take := DeliverSome(remaining, what);
        if !some {
          Stopped(whole, moved, n, body);
          return false;
        }
        MoveOn(whole, moved, body, take);
        moved := moved + take;
        remaining := remaining - take;
      }
      ok := true;
    }

    // ---- chunked ----

    /** The text of the next size line, its CRLF gone. */
    method SizeLine() returns (ok: bool, line: bytes)
      requires Ready()
      modifies this, transport, sink`error
      ensures ok == FindCrlf(old(Left())).Some?
      ensures ok ==> Ready() && line == old(Left())[..FindCrlf(old(Left())).value]
      ensures ok ==> Left() == old(Left())[FindCrlf(old(Left())).value + 2..]
      ensures !ok ==> Some(sink.error) == Truncated(transport.ending, "truncated chunked body")
    {
      hide FindCrlf;
      line := [];
      var nl := FindCrlf(pending);
      while nl == None
        invariant Ready() && Left() == old(Left()) && nl == FindCrlf(pending)
        decreases |Left()| - |pending|
      {
        ghost var before := pending;
        ghost var unread := transport.Unread();
        ok := Fill(|pending| + 1, "truncated chunked body");
        if !ok {
          assert unread == [] && before + unread == before;
          return;
        }
        nl := FindCrlf(pending);
      }
      CrlfIsFirst(pending, transport.Unread());
      Front(pending, transport.Unread(), nl.value);
      Front(pending, transport.Unread(), nl.value + 2);
      line := pending[..nl.value];
      pending := pending[nl.value + 2..];
      ok := true;
    }

    /** The data of a chunk and the two bytes behind it. */
    method ChunkData(size: nat) returns (ok: bool)
      requires Ready()
      modifies this, transport, sink
      ensures sink.Valid()
      ensures var c := ReadData(old(Left()), size, 0, transport.ending);
        && (ok ==> Ready() && c.Chunk? && sink.body == old(sink.body) + c.data && Left() == old(Left())[c.n..])
        && (!ok && !sink.failed ==> c.Last? && sink.body == old(sink.body) + c.shot.delivered && c.shot.error == Some(sink.error))
      ensures sink.failed ==> sink.error == WRITE_FAILED && Within(old(Left()), size, old(sink.body), sink.body)
      ensures old(sink.appends) == None ==> sink.appends == None && !sink.failed
    {
      hide Within;
      ghost var whole := Left();
      ok := Deliver(size, "truncated chunk");
      if !ok {
        return;
      }
      assert |Left()| == |whole| - size;
      ok := Fill(2, "truncated chunk");
      if !ok {
        return;
      }
      Front(pending, transport.Unread(), 2);
      assert whole[size..][2..] == whole[size + 2..];
      pending := pending[2..];
    }

    ghost function Outcome(ok: bool): Result
      reads this, transport, sink
    {
      Result(ok, sink.body, Left(), sink.failed, sink.error)
    }

    /** One chunk, or the end of the body. */
    method OneChunk() returns (ok: bool, last: bool)
      requires Ready()
      modifies this, transport, sink
      ensures sink.Valid()
      ensures var c := ReadChunk(old(Left()), transport.ending);
        ok && !last ==> Ready() && c.Chunk? && sink.body == old(sink.body) + c.data && Left() == old(Left())[c.n..]
      ensures !ok || last ==> Reports(old(sink.body), old(Left()), ReadChunks(old(Left()), transport.ending), sink.flushes,
                                      Outcome(ok))
      ensures old(sink.appends) == None ==> sink.appends == None && (sink.flushes ==> !sink.failed)
    {
      hide ReadChunks, Within, Strtoul, FindCrlf, Reports, ReadData;
      ghost var whole, body := Left(), sink.body;
      OneStep(whole, transport.ending);
      last := false;
      var line;
      ok, line := SizeLine();
      if !ok {
        ShortReport(body, whole, ReadChunks(whole, transport.ending), sink.flushes, Outcome(ok));
        return;
      }
      var size: nat := Strtoul(line, 16);
      if size == 0 {
        ok := sink.Finish();
        last := true;
        EndReport(body, whole, ReadChunks(whole, transport.ending), sink.flushes, Outcome(ok));
        return;
      }
      ghost var rest := Left();
      ok := ChunkData(size);
      DataMoved(rest, size, |line| + 2, transport.ending);
      if !ok {
        if sink.failed {
          WithinReport(body, rest, size, |line| + 2, whole, transport.ending, sink.flushes, Outcome(ok));
        } else {
          ShortReport(body, whole, ReadChunks(whole, transport.ending), sink.flushes, Outcome(ok));
        }
      } else {
        assert rest == whole[|line| + 2..];
        assert rest[size + 2..] == whole[|line| + 2 + size + 2..];
      }
    }

    /** Chunk after chunk. */
    method ReadChunked() returns (ok: bool)
      requires Ready()
      modifies this, transport, sink
      ensures sink.Valid()
      ensures Reports(old(sink.body), old(Left()), ReadChunks(old(Left()), transport.ending), sink.flushes, Outcome(ok))
      ensures old(sink.appends) == None && sink.flushes ==> !sink.failed
    {
      hide ReadChunks, ReadChunk, Reports;
      ghost var whole, body, shot := Left(), sink.body, ReadChunks(Left(), transport.ending);
      ghost var done: bytes, used := [], 0;
      NothingAhead(whole, body, shot);
      while true
        invariant Ready() && 0 <= used <= |whole| && Left() == whole[used..] && sink.body == body + done
        invariant shot == Ahead(done, used, ReadChunks(Left(), transport.ending))
        invariant old(sink.appends) == None ==> sink.appends == None
        decreases |Left()|
      {
        ghost var left := Left();
        OneStep(left, transport.ending);
        var last;
        ok, last := OneChunk();
        if !ok || last {
          ReportAhead(body, whole, done, used, ReadChunks(left, transport.ending), sink.flushes, Outcome(ok));
          return;
        }
        ghost var c := ReadChunk(left, transport.ending);
        AheadTwice(done, used, c.data, c.n, ReadChunks(Left(), transport.ending));
        assert whole[used..][c.n..] == whole[used + c.n..];
        assert body + done + c.data == body + (done + c.data);
        done, used := done + c.data, used + c.n;
      }
    }

    // ---- the other framings ----

    method ReadLength(want: u64) returns (ok: bool)
      requires Ready()
      modifies this, transport, sink
      ensures sink.Valid()
      ensures Reports(old(sink.body), old(Left()), OneShot(Length(want), old(Left()), transport.ending), sink.flushes,
                      Outcome(ok))
      ensures old(sink.appends) == None && sink.flushes ==> !sink.failed
    {
      ok := Deliver(want, "truncated body");
      if ok {
        ok := sink.Finish();
      }
    }

    /** What is pending and every later read, up to the end. */
    method ReadToEof() returns (ok: bool)
      requires Ready()
      modifies this, transport, sink
      ensures sink.Valid()
      ensures Reports(old(sink.body), old(Left()), OneShot(ToEof, old(Left()), transport.ending), sink.flushes, Outcome(ok))
      ensures old(sink.appends) == None && sink.flushes ==> !sink.failed
    {
      hide Reports, OneShot;
      ghost var whole, body := Left(), sink.body;
      ghost var done: bytes := [];
      if pending != [] {
        ok := sink.Append(pending);
        if !ok {
          EofReport(body, whole, [], whole, transport.ending, sink.flushes, Outcome(ok));
          return;
        }
        done, pending := pending, [];
      }
      while true
        invariant Ready() && pending == []
        invariant whole == done + transport.Unread() && sink.body == body + done
        invariant old(sink.appends) == None ==> sink.appends == None
        decreases |transport.incoming|
      {
        var data := transport.Read();
        if data.None? {
          ok := false;
          if transport.ending.Eof? {
            ok := sink.Finish();
          } else {
            sink.error := if transport.ending.error == "" then "read timeout" else transport.ending.error;
          }
          EofReport(body, whole, done, [], transport.ending, sink.flushes, Outcome(ok));
          return;
        }
        Reassociate(done, data.value, transport.Unread());
        Reassociate(body, done, data.value);
        ok := sink.Append(data.value);
        if !ok {
          EofReport(body, whole, done, data.value + transport.Unread(), transport.ending, sink.flushes, Outcome(ok));
          return;
        }
        done := done + data.value;
      }
    }

    /** `read_body`: nothing if the sink could not be opened. */
    method ReadBody(framing: Framing) returns (ok: bool)
      requires sink.Valid() && (!sink.failed ==> sink.error == "")
      modifies this, transport, sink
      ensures sink.Valid()
      ensures old(sink.failed) ==> !ok && sink.body == old(sink.body) && Left() == old(Left())
      ensures old(!sink.failed) ==>
          Reports(old(sink.body), old(Left()), OneShot(framing, old(Left()), transport.ending), sink.flushes, Outcome(ok))
      ensures old(!sink.failed && sink.appends == None) && sink.flushes ==> !sink.failed
    {
      if sink.failed {
        return false;
      }
      hide Reports, ReadChunks;
      match framing {
        case Chunked => ok := ReadChunked();
        case Length(want) => ok := ReadLength(want);
        case ToEof => ok := ReadToEof();
      }
    }
  }

  /** What a caller sees afterwards. */
  datatype Result = Result(ok: bool, body: bytes, left: bytes, failed: bool, error: string)

  /** The outcome against the one-shot reading of everything that was left: the same success or failure and the same
      bytes, unless the sink itself gave up, and then a prefix of them. */
  ghost predicate Reports(body: bytes, whole: bytes, shot: Shot, flushes: bool, r: Result) {
    && (r.ok ==> shot.error.None? && flushes && !r.failed && r.error == "" && r.body == body + shot.delivered)
    && (r.ok ==> shot.used <= |whole| && r.left == whole[shot.used..])
    && (!r.ok && !r.failed ==> shot.error == Some(r.error) && r.body == body + shot.delivered)
    && (r.failed ==> body <= r.body <= body + shot.delivered)
    && (r.failed ==> r.error == WRITE_FAILED || (r.error == FLUSH_FAILED && shot.error.None? && r.body == body + shot.delivered))
  }

  lemma ShortReport(body: bytes, whole: bytes, shot: Shot, flushes: bool, r: Result)
    requires !r.ok && !r.failed && shot.error == Some(r.error) && r.body == body + shot.delivered
    ensures Reports(body, whole, shot, flushes, r)
  {}

  lemma EndReport(body: bytes, whole: bytes, shot: Shot, flushes: bool, r: Result)
    requires shot.error.None? && shot.delivered == [] && r.body == body && shot.used <= |whole| && r.left == whole[shot.used..]
    requires r.ok == flushes == !r.failed && r.error == if r.ok then "" else FLUSH_FAILED
    ensures Reports(body, whole, shot, flushes, r)
  {
    assert body + [] == body;
  }

  lemma NothingAhead(whole: bytes, body: bytes, shot: Shot)
    ensures whole[0..] == whole && body + [] == body && Ahead([], 0, shot) == shot
  {
    assert [] + shot.delivered == shot.delivered;
  }

  lemma AheadTwice(a: bytes, m: nat, b: bytes, n: nat, shot: Shot)
    ensures Ahead(a, m, Ahead(b, n, shot)) == Ahead(a + b, m + n, shot)
  {
    assert a + (b + shot.delivered) == (a + b) + shot.delivered;
  }

  lemma ReportAhead(body: bytes, whole: bytes, done: bytes, used: nat, shot: Shot, flushes: bool, r: Result)
    requires used <= |whole| && Reports(body + done, whole[used..], shot, flushes, r)
    ensures Reports(body, whole, Ahead(done, used, shot), flushes, r)
  {
    assert (body + done) + shot.delivered == body + (done + shot.delivered);
    if r.ok {
      assert whole[used..][shot.used..] == whole[used + shot.used..];
    }
  }

  lemma DataMoved(rest: bytes, size: nat, line: nat, ending: Ending)
    ensures var c, c0 := ReadData(rest, size, line, ending), ReadData(rest, size, 0, ending);
      && c.Chunk? == c0.Chunk?
      && (c.Chunk? ==> c.data == c0.data == rest[..size] && c.n == line + c0.n && c0.n == size + 2)
      && (c.Last? ==> c.shot.delivered == c0.shot.delivered == rest[..Min(size, |rest|)] && c.shot.error == c0.shot.error)
  {
    assert rest[..|rest|] == rest;
  }

  /** A sink that gives up inside a chunk has kept a prefix of the body. */
  lemma WithinReport(body: bytes, rest: bytes, size: nat, line: nat, whole: bytes, ending: Ending, flushes: bool, r: Result)
    requires !r.ok && r.failed && r.error == WRITE_FAILED && Within(rest, size, body, r.body)
    requires ReadChunk(whole, ending) == ReadData(rest, size, line, ending)
    ensures Reports(body, whole, ReadChunks(whole, ending), flushes, r)
  {
    OneStep(whole, ending);
    DataMoved(rest, size, line, ending);
    hide ReadChunk, ReadChunks, ReadData;
    var k :| 0 <= k <= Min(size, |rest|) && r.body == body + rest[..k];
    var all := rest[..Min(size, |rest|)];
    assert rest[..k] == all[..k];
  }

  lemma Reassociate(a: bytes, b: bytes, c: bytes)
    ensures (a + b) + c == a + (b + c)
  {}

  lemma EofReport(body: bytes, whole: bytes, done: bytes, unread: bytes, ending: Ending, flushes: bool, r: Result)
    requires whole == done + unread && r.body == body + done
    requires r.failed ==> !r.ok && (r.error == WRITE_FAILED || (r.error == FLUSH_FAILED && ending.Eof? && unread == []))
    requires !r.failed ==> unread == [] && r.ok == ending.Eof?
    requires r.ok ==> flushes && r.error == "" && r.left == []
    requires !r.ok && !r.failed ==> Some(r.error) == Truncated(ending, "")
    ensures Reports(body, whole, OneShot(ToEof, whole, ending), flushes, r)
  {
    assert unread == [] ==> whole == done;
    assert body + whole == (body + done) + unread;
  }

  lemma Front(pending: bytes, unread: bytes, take: nat)
    requires take <= |pending|
    ensures (pending + unread)[..take] == pending[..take]
    ensures (pending + unread)[take..] == pending[take..] + unread
    ensures pending + unread == [] ==> pending == []
  {}

  /** What a sink that gives up has kept: some of the first `n` bytes. */
  ghost predicate Within(whole: bytes, n: nat, before: bytes, after: bytes) {
    exists k :: 0 <= k <= Min(n, |whole|) && after == before + whole[..k]
  }

  lemma NothingMoved(whole: bytes, body: bytes)
    ensures whole[0..] == whole && body + whole[..0] == body
  {}

  lemma Stopped(whole: bytes, moved: nat, n: nat, body: bytes)
    requires moved <= |whole| && moved < n
    ensures whole[moved..] == [] ==> whole[..moved] == whole && |whole| < n
    ensures Within(whole, n, body, body + whole[..moved])
  {}

  /** Taking the first bytes of what is left takes the next bytes of the whole. */
  lemma MoveOn(whole: bytes, moved: nat, body: bytes, take: nat)
    requires moved <= |whole| && take <= |whole[moved..]|
    ensures whole[moved..][take..] == whole[moved + take..]
    ensures body + whole[..moved] + whole[moved..][..take] == body + whole[..moved + take]
  {
    assert whole[..moved] + whole[moved..][..take] == whole[..moved + take];
    assert body + whole[..moved] + whole[moved..][..take] == body + (whole[..moved] + whole[moved..][..take]);
  }
}
