/** Bodies read in turns over several connections, which all share one scanner: when each client gets
    its own body. */
module Interleaving {
  import opened CStrings
  import opened ChunkScanner
  import opened BodyCoding
  import opened BodyReader
  import opened Connection
  import opened Sessions
  import opened SharedScanner

  // ------------------------------------------------------------------------------------------
  // Connections and their calls

  /** Where a connection stands, apart from the scanner. */
  datatype Place = AtSize | InData(left: nat) | AtEnd

  datatype Conn = Conn(chunked: bool, place: Place, rest: seq<char>)

  datatype World = World(register: Register, conns: seq<Conn>)

  function PlaceOf(m: Mode): Place {
    match m
    case Size(_) => AtSize
    case Data(left, _) => InData(left)
    case Done => AtEnd
  }

  function ModeOf(c: Conn, register: Register): Mode {
    match c.place
    case AtSize => Size(register)
    case InData(left) => Data(left, if c.chunked then register else [])
    case AtEnd => Done
  }

  /** One call of req_read_output_body with a buffer of n bytes, which consumes `used` and delivers
      `out`. */
  ghost predicate Delivers(c: Conn, s: Register, used: seq<char>, n: nat, out: seq<char>, c': Conn, s': Register) {
    var r := Run(c.chunked, ModeOf(c, s), used);
    && Split(c.rest, used, [], c'.rest) && c'.chunked == c.chunked
    && out == r.payload == Take(Payload(c.chunked, ModeOf(c, s), c.rest), n)
    && (r.mode == ModeOf(c', s') || (c'.place.AtEnd? && c'.rest == []))
    && (|out| < n ==> c'.place.AtEnd?)
    && s' == (if c.chunked && !c.place.AtEnd? then Held(r.mode) else s)
    && (c.chunked && |out| == n ==> s' == [] || s' == s)
  }

  ghost predicate Call(w: World, i: nat, n: nat, out: seq<char>, w': World) {
    && i < |w.conns| == |w'.conns|
    && (forall k :: 0 <= k < |w.conns| && k != i ==> w'.conns[k] == w.conns[k])
    && exists used :: Delivers(w.conns[i], w.register, used, n, out, w'.conns[i], w'.register)
  }

  /** A client asks for at most `size` bytes. */
  datatype Ask = Ask(client: nat, size: nat)

  /** The calls of a run, in order, with what they delivered. */
  ghost predicate Trace(w: World, asks: seq<Ask>, outs: seq<seq<char>>, w': World)
    decreases |asks|
  {
    |outs| == |asks| &&
    if asks == [] then w' == w
    else
      var n := |asks| - 1;
      exists mid :: Trace(w, asks[..n], outs[..n], mid) && Call(mid, asks[n].client, asks[n].size, outs[n], w')
  }

  /** What client i has asked for and got in a run. */
  function Asked(asks: seq<Ask>, i: nat): nat {
    if asks == [] then 0
    else Asked(asks[..|asks| - 1], i) + if asks[|asks| - 1].client == i then asks[|asks| - 1].size else 0
  }

  function Heard(asks: seq<Ask>, outs: seq<seq<char>>, i: nat): seq<char>
    requires |outs| == |asks|
  {
    if asks == [] then []
    else
      var n := |asks| - 1;
      Heard(asks[..n], outs[..n], i) + if asks[n].client == i then outs[n] else []
  }

  // ------------------------------------------------------------------------------------------
  // The code

  ghost predicate Views(handler: Handler, c: Conn)
    reads handler, handler.scanner, handler.scanner.length, handler.readingResidue, handler.socket
  {
    handler.Valid() && c == Conn(handler.chunked, PlaceOf(handler.Mode()), handler.Rest())
  }

  lemma ViewedMode(handler: Handler, c: Conn)
    requires Views(handler, c)
    ensures handler.Valid() && c.chunked == handler.chunked && c.rest == handler.Rest()
    ensures ModeOf(c, handler.scanner.Contents()) == handler.Mode() && (c.place.AtEnd? <==> handler.Mode().Done?)
  {
  }

  /** One call on one handler. */
  method ReadCall(handler: Handler, n: nat, ghost c: Conn) returns (out: seq<char>, ghost used: seq<char>, ghost c': Conn)
    requires Views(handler, c) && n >= 1
    modifies handler`totalBytes, handler`bytesRead, handler`readFinished
    modifies handler`residueSize, handler`residueOffset, handler`readingResidue
    modifies handler.socket, handler.scanner, handler.scanner.length
    ensures Views(handler, c')
    ensures Delivers(c, old(handler.scanner.Contents()), used, n, out, c', handler.scanner.Contents())
  {
    hide Views, Run, Split, Payload, Take, Held, ModeOf, PlaceOf, Handler.Mode, Handler.Rest, Scanner.Contents;
    var buffer := new char[n];
    ViewedMode(handler, c);
    var size;
    size, used := handler.ReadOutputBody(buffer, 0, n);
    c' := Conn(handler.chunked, PlaceOf(handler.Mode()), handler.Rest());
    ViewOf(handler, c');
    ViewedMode(handler, c');
    out := buffer[..size];
    assert out == buffer[0..0 + size];
  }

  lemma ViewOf(handler: Handler, c: Conn)
    requires handler.Valid() && c == Conn(handler.chunked, PlaceOf(handler.Mode()), handler.Rest())
    ensures Views(handler, c)
  {
  }

  /** Several handlers, each with its own socket, and the one scanner. */
  ghost predicate Shows(handlers: seq<Handler>, scanner: Scanner, w: World)
    reads handlers, scanner, scanner.length
    reads set h: Handler | h in handlers :: h.socket
    reads set h: Handler | h in handlers :: h.scanner
    reads set h: Handler | h in handlers :: h.scanner.length
    reads set h: Handler | h in handlers && h.readingResidue != null :: h.readingResidue
  {
    && |handlers| == |w.conns| && scanner.Valid() && scanner.Contents() == w.register
    && (forall k :: 0 <= k < |handlers| ==> handlers[k].scanner == scanner && Views(handlers[k], w.conns[k]))
    && (forall j, k :: 0 <= j < k < |handlers| ==>
          handlers[j] != handlers[k] && handlers[j].socket != handlers[k].socket)
  }

  /** A call on one handler leaves the others where they stand. */
  method ReadOne(handlers: seq<Handler>, scanner: Scanner, i: nat, n: nat, ghost w: World)
    returns (out: seq<char>, ghost w': World)
    requires Shows(handlers, scanner, w) && i < |handlers| && n >= 1
    modifies handlers[i], handlers[i].socket, scanner, scanner.length
    ensures Shows(handlers, scanner, w') && Call(w, i, n, out, w')
  {
    hide Delivers, Run, Split;
    ghost var used, c';
    out, used, c' := ReadCall(handlers[i], n, w.conns[i]);
    w' := World(scanner.Contents(), w.conns[i := c']);
    forall k | 0 <= k < |handlers| && k != i
      ensures Views(handlers[k], w.conns[k])
    {
      assert old(Views(handlers[k], w.conns[k]));
      assert handlers[k].Residue() == old(handlers[k].Residue());
    }
  }

  /** Any calls in any order. */
  method Interleave(handlers: seq<Handler>, scanner: Scanner, asks: seq<Ask>, ghost w: World)
    returns (outs: seq<seq<char>>, ghost w': World)
    requires Shows(handlers, scanner, w)
    requires forall k :: 0 <= k < |asks| ==> asks[k].client < |handlers| && asks[k].size >= 1
    modifies handlers, set h: Handler | h in handlers :: h.socket
    modifies scanner, scanner.length
    ensures Shows(handlers, scanner, w') && Trace(w, asks, outs, w')
  {
    hide Shows, Call;
    outs, w' := [], w;
    var k := 0;
    while k < |asks|
      invariant 0 <= k <= |asks| && |outs| == k
      invariant Shows(handlers, scanner, w') && Trace(w, asks[..k], outs, w')
    {
      ghost var mid, before := w', outs;
      var out;
      out, w' := ReadOne(handlers, scanner, asks[k].client, asks[k].size, w');
      outs := outs + [out];
      TraceMore(w, asks, k, before, mid, out, w');
      k := k + 1;
    }
    assert asks[..k] == asks;
  }

  lemma TraceMore(w: World, asks: seq<Ask>, k: nat, outs: seq<seq<char>>, mid: World, out: seq<char>, w': World)
    requires k < |asks| && Trace(w, asks[..k], outs, mid) && Call(mid, asks[k].client, asks[k].size, out, w')
    ensures Trace(w, asks[..k + 1], outs + [out], w')
  {
    hide Call;
    assert asks[..k + 1][..k] == asks[..k] && (outs + [out])[..k] == outs;
  }

  // ------------------------------------------------------------------------------------------
  // Each client its own body

  /** A body of which the first `arrived` bytes come before the connection ends. */
  datatype Stream = Stream(body: Body, arrived: nat)

  predicate GoodBody(b: Body) {
    b.Chunks? ==> WellFormed(b.chunks) && SizeOf(b.last, 0)
  }

  predicate GoodStream(s: Stream) {
    GoodBody(s.body) && s.arrived <= |Wire(s.body)|
  }

  function Whole(b: Body): Stream {
    Stream(b, |Wire(b)|)
  }

  /** The connection ends inside a chunk-size line. */
  predicate Breaks(s: Stream) {
    s.body.Chunks? && BreaksInLine(s.body.chunks, s.body.last, s.arrived)
  }

  function Due(s: Stream): seq<char>
    requires GoodStream(s)
  {
    Arrived(s.body, s.arrived)
  }

  function StartConn(s: Stream): Conn
    requires GoodStream(s)
  {
    Conn(s.body.Chunks?, PlaceOf(StartOf(s.body)), Wire(s.body)[..s.arrived])
  }

  predicate GoodStreams(streams: seq<Stream>) {
    forall k :: 0 <= k < |streams| ==> GoodStream(streams[k])
  }

  /** All heads parsed, nothing of the bodies read. */
  ghost predicate Starts(streams: seq<Stream>, w: World) {
    && GoodStreams(streams) && w.register == [] && |w.conns| == |streams|
    && forall k :: 0 <= k < |streams| ==> w.conns[k] == StartConn(streams[k])
  }

  ghost predicate AllGetTheirs(streams: seq<Stream>, asks: seq<Ask>, outs: seq<seq<char>>) {
    GoodStreams(streams) && |outs| == |asks| &&
    forall i :: 0 <= i < |streams| ==> Heard(asks, outs, i) == Take(Due(streams[i]), Asked(asks, i))
  }

  /** Whatever the clients ask for, in whatever order, and however the bytes arrive. */
  ghost predicate Safe(streams: seq<Stream>) {
    forall w: World, asks: seq<Ask>, outs: seq<seq<char>>, w': World ::
      Starts(streams, w) && Trace(w, asks, outs, w') ==> AllGetTheirs(streams, asks, outs)
  }

  /** Half-way: what has been heard, and what would come from here with an idle scanner. */
  ghost predicate Own(s: Stream, c: Conn, heard: seq<char>, asked: nat) {
    && GoodStream(s)
    && heard == Take(Due(s), asked) && heard + Payload(c.chunked, ModeOf(c, []), c.rest) == Due(s)
    && (c.chunked ==> Held(Run(true, ModeOf(c, []), c.rest).mode) == [])
  }

  lemma {:induction false} LateBreak(chunks: seq<Chunk>, last: seq<char>, n: nat)
    requires n >= |PrintBody(chunks, last)|
    ensures !BreaksInLine(chunks, last, n)
    decreases |chunks|
  {
    if chunks != [] {
      var size := |SizeLine(chunks[0].digits)| + |chunks[0].data| + 2;
      assert |PrintBody(chunks, last)| == size + |PrintBody(chunks[1..], last)|;
      LateBreak(chunks[1..], last, n - size);
    }
  }

  /** What a chunked connection leaves in the scanner when all that arrives of it has been read. */
  lemma LeftAtEnd(s: Stream)
    requires GoodStream(s) && s.body.Chunks?
    ensures Held(Run(true, Size([]), Wire(s.body)[..s.arrived]).mode) != [] <==> Breaks(s)
  {
    hide Run, PrintBody, WellFormed, SizeOf, BreaksInLine;
    var chunks, last, n := s.body.chunks, s.body.last, s.arrived;
    var text := PrintBody(chunks, last);
    if n <= |text| {
      assert Wire(s.body)[..n] == text[..n];
      BreakLeavesRegister(chunks, last, n);
    } else {
      LateBreak(chunks, last, n);
      var rest := "\r\n"[..n - |text|];
      assert Wire(s.body)[..n] == text + rest;
      ChunkedBodyDecodes(chunks, last, rest);
    }
  }

  lemma WholeNeverBreaks(b: Body)
    requires GoodBody(b)
    ensures GoodStream(Whole(b)) && !Breaks(Whole(b))
  {
    if b.Chunks? {
      LateBreak(b.chunks, b.last, |Wire(b)|);
    }
  }

  lemma StartsOwn(s: Stream)
    requires GoodStream(s) && !Breaks(s)
    ensures Own(s, StartConn(s), [], 0)
  {
    hide Run, Wire, WellFormed, SizeOf, Breaks, Arrived;
    var c := StartConn(s);
    StartMode(s);
    BrokenBody(s.body, c.chunked, s.arrived);
    if c.chunked {
      LeftAtEnd(s);
    }
    assert [] + Due(s) == Due(s);
  }

  lemma StartMode(s: Stream)
    requires GoodStream(s)
    ensures ModeOf(StartConn(s), []) == StartOf(s.body) && Framed(s.body.Chunks?, s.body)
  {
  }

  /** A call that begins with an idle scanner ends with one. */
  lemma StaysIdle(c: Conn, used: seq<char>, n: nat, out: seq<char>, c': Conn, s': Register)
    requires Delivers(c, [], used, n, out, c', s')
    requires c.chunked ==> Held(Run(true, ModeOf(c, []), c.rest).mode) == []
    ensures s' == []
  {
    hide Run;
    assert used + [] == used;
    if |out| < n && c'.rest == [] {
      assert c.rest == used;
    }
  }

  /** What comes after the call is what was still to come. */
  lemma GoesOn(c: Conn, used: seq<char>, n: nat, out: seq<char>, c': Conn)
    requires Delivers(c, [], used, n, out, c', [])
    ensures Payload(c.chunked, ModeOf(c, []), c.rest) == out + Payload(c.chunked, ModeOf(c', []), c'.rest)
    ensures Run(c.chunked, ModeOf(c, []), c.rest).mode == Run(c.chunked, ModeOf(c', []), c'.rest).mode || c'.place.AtEnd?
  {
    hide Run;
    var m := ModeOf(c, []);
    assert c.rest == used + c'.rest;
    PayloadAppend(c.chunked, m, used, c'.rest);
    RunDone(c.chunked, c'.rest);
    RunEmpty(c.chunked, Run(c.chunked, m, used).mode);
  }

  /** A call on an idle scanner keeps a connection on its own body, and the scanner idle. */
  lemma OwnStep(s: Stream, c: Conn, heard: seq<char>, asked: nat,
                used: seq<char>, n: nat, out: seq<char>, c': Conn, s': Register)
    requires Own(s, c, heard, asked) && Delivers(c, [], used, n, out, c', s')
    ensures s' == [] && Own(s, c', heard + out, asked + n)
  {
    hide Run, GoodStream, Due;
    StaysIdle(c, used, n, out, c', s');
    GoesOn(c, used, n, out, c');
    RunDone(c.chunked, c'.rest);
    TakeMore(Due(s), heard, asked, n, out, Payload(c.chunked, ModeOf(c', []), c'.rest));
  }

  ghost predicate AllOwn(streams: seq<Stream>, asks: seq<Ask>, outs: seq<seq<char>>, w: World) {
    && w.register == [] && |w.conns| == |streams| && |outs| == |asks|
    && forall i :: 0 <= i < |streams| ==> Own(streams[i], w.conns[i], Heard(asks, outs, i), Asked(asks, i))
  }

  lemma {:induction false} TraceOwn(streams: seq<Stream>, w: World, asks: seq<Ask>, outs: seq<seq<char>>, w': World)
    requires Starts(streams, w) && Trace(w, asks, outs, w')
    requires forall i :: 0 <= i < |streams| ==> !Breaks(streams[i])
    ensures AllOwn(streams, asks, outs, w')
    decreases |asks|
  {
    hide Own, Delivers, Breaks, GoodStream;
    if asks == [] {
      forall i | 0 <= i < |streams|
        ensures Own(streams[i], w.conns[i], [], 0)
      {
        StartsOwn(streams[i]);
      }
    } else {
      var n := |asks| - 1;
      var mid :| Trace(w, asks[..n], outs[..n], mid) && Call(mid, asks[n].client, asks[n].size, outs[n], w');
      TraceOwn(streams, w, asks[..n], outs[..n], mid);
      CallOwn(streams, asks, outs, mid, w');
    }
  }

  lemma CallOwn(streams: seq<Stream>, asks: seq<Ask>, outs: seq<seq<char>>, mid: World, w': World)
    requires |outs| == |asks| > 0
    requires var n := |asks| - 1;
             AllOwn(streams, asks[..n], outs[..n], mid) && Call(mid, asks[n].client, asks[n].size, outs[n], w')
    ensures AllOwn(streams, asks, outs, w')
  {
    hide Own, Delivers;
    var n := |asks| - 1;
    var j := asks[n].client;
    var used :| Delivers(mid.conns[j], mid.register, used, asks[n].size, outs[n], w'.conns[j], w'.register);
    var heard, asked := Heard(asks[..n], outs[..n], j), Asked(asks[..n], j);
    OwnStep(streams[j], mid.conns[j], heard, asked, used, asks[n].size, outs[n], w'.conns[j], w'.register);
    forall i | 0 <= i < |streams|
      ensures Own(streams[i], w'.conns[i], Heard(asks, outs, i), Asked(asks, i))
    {
      if i != j {
        var before := Heard(asks[..n], outs[..n], i);
        assert before + [] == before;
      }
    }
  }

  /** If no connection ends inside a size line, every client gets its own body. */
  lemma UnbrokenIsSafe(streams: seq<Stream>)
    requires GoodStreams(streams) && forall i :: 0 <= i < |streams| ==> !Breaks(streams[i])
    ensures Safe(streams)
  {
    hide Starts, Trace, Breaks, Heard, Asked;
    forall w: World, asks: seq<Ask>, outs: seq<seq<char>>, w': World | Starts(streams, w) && Trace(w, asks, outs, w')
      ensures AllGetTheirs(streams, asks, outs)
    {
      TraceOwn(streams, w, asks, outs, w');
      OwnGets(streams, asks, outs, w');
    }
  }

  lemma OwnGets(streams: seq<Stream>, asks: seq<Ask>, outs: seq<seq<char>>, w: World)
    requires AllOwn(streams, asks, outs, w)
    ensures AllGetTheirs(streams, asks, outs)
  {
    hide Heard, Asked, Payload;
  }

  // ------------------------------------------------------------------------------------------
  // A connection that ends inside a size line

  /** What it leaves in the scanner. */
  function LeftInScanner(s: Stream): Register
    requires GoodStream(s) && s.body.Chunks?
  {
    Held(Run(true, Size([]), Wire(s.body)[..s.arrived]).mode)
  }

  /** A complete body that the residue spoils. */
  function VictimOf(s: Stream): Body
    requires GoodStream(s) && s.body.Chunks?
  {
    Chunks(Victim(LeftInScanner(s)), "0")
  }

  lemma VictimIsGood(s: Stream)
    requires GoodStream(s) && Breaks(s)
    ensures var b := VictimOf(s);
            && GoodBody(b) && GoodStream(Whole(b)) && Due(Whole(b)) == "x" && LeftInScanner(s) != []
            && StartConn(Whole(b)) == Conn(true, AtSize, Wire(b))
            && Run(true, Size(LeftInScanner(s)), Wire(b)).payload == []
            && Run(true, Size(LeftInScanner(s)), Wire(b)).mode == Done
  {
    hide Run, Victim, SizeOf, WellFormed, PrintBody;
    LeftAtEnd(s);
    DirtyRegisterCorrupts(LeftInScanner(s));
    var b := VictimOf(s);
    assert Wire(b)[..|Wire(b)|] == Wire(b);
    WholeDue(b);
  }

  lemma WholeDue(b: Body)
    requires GoodBody(b)
    ensures GoodStream(Whole(b)) && Due(Whole(b)) == ContentOf(b)
  {
    hide WellFormed, SizeOf, Run;
    assert Wire(b)[..|Wire(b)|] == Wire(b);
    BrokenBody(b, b.Chunks?, |Wire(b)|);
    WholeBody(b, b.Chunks?);
  }

  /** Reading the broken connection to its end delivers what has arrived of it, and leaves the residue. */
  lemma ReadsToEnd(s: Stream, used: seq<char>, n: nat, out: seq<char>, c': Conn, s': Register)
    requires GoodStream(s) && Breaks(s) && n == |Due(s)| + 1
    ensures Delivers(StartConn(s), [], StartConn(s).rest, n, Due(s), Conn(true, AtEnd, []), LeftInScanner(s))
    ensures Delivers(StartConn(s), [], used, n, out, c', s') ==> s' == LeftInScanner(s)
  {
    hide Run, Wire, WellFormed, SizeOf, BreaksInLine, Arrived;
    var c := StartConn(s);
    StartMode(s);
    BrokenBody(s.body, true, s.arrived);
    LeftAtEnd(s);
    assert c.rest + [] == c.rest;
    if Delivers(c, [], used, n, out, c', s') {
      assert c.rest == used + c'.rest;
      RunAppend(true, Size([]), used, c'.rest);
      assert used + [] == used;
    }
  }

  /** Then the next connection, which is complete, delivers nothing of its body. */
  lemma VictimGetsNothing(s: Stream, used: seq<char>, n: nat, out: seq<char>, c': Conn, s': Register)
    requires GoodStream(s) && Breaks(s) && n >= 1
    ensures var b := VictimOf(s);
            && GoodStream(Whole(b))
            && Delivers(StartConn(Whole(b)), LeftInScanner(s), Wire(b), n, [], Conn(true, AtEnd, []), [])
            && (Delivers(StartConn(Whole(b)), LeftInScanner(s), used, n, out, c', s') ==> out == [])
  {
    VictimIsGood(s);
    hide Run, Wire, WellFormed, SizeOf, BreaksInLine, Victim, StartConn;
    var b := VictimOf(s);
    assert Wire(b) + [] == Wire(b);
  }

  /** First the broken connection i to its end, then the victim. */
  function SpoilingAsks(streams: seq<Stream>, i: nat): seq<Ask>
    requires i < |streams| && GoodStream(streams[i])
  {
    [Ask(i, |Due(streams[i])| + 1), Ask(|streams|, 2)]
  }

  lemma TwoCalls(w: World, asks: seq<Ask>, outs: seq<seq<char>>, w': World)
    requires |asks| == |outs| == 2
    ensures Trace(w, asks, outs, w') <==>
            exists mid :: && Call(w, asks[0].client, asks[0].size, outs[0], mid)
                          && Call(mid, asks[1].client, asks[1].size, outs[1], w')
  {
    hide Call;
    assert asks[..1][..0] == [] && outs[..1][..0] == [];
    assert asks[..1][0] == asks[0] && outs[..1][0] == outs[0];
    forall mid: World
      ensures Trace(w, asks[..1], outs[..1], mid) <==> Call(w, asks[0].client, asks[0].size, outs[0], mid)
    {
      assert Trace(w, asks[..1][..0], outs[..1][..0], w);
    }
  }

  lemma TwoHeard(asks: seq<Ask>, outs: seq<seq<char>>)
    requires |asks| == |outs| == 2 && asks[0].client != asks[1].client
    ensures Heard(asks, outs, asks[1].client) == outs[1] && Asked(asks, asks[1].client) == asks[1].size
  {
    var a, o, i := asks[..1], outs[..1], asks[1].client;
    assert a[..0] == [] && o[..0] == [] && a[0] == asks[0];
    assert Heard(a, o, i) == Heard([], [], i) + [] == [];
    assert Asked(a, i) == Asked([], i) + 0;
    assert [] + outs[1] == outs[1];
  }

  /** Every run with these calls goes wrong for the victim. */
  lemma AlwaysSpoiled(streams: seq<Stream>, i: nat, w: World, outs: seq<seq<char>>, w': World)
    requires GoodStreams(streams) && i < |streams| && Breaks(streams[i])
    requires Starts(streams + [Whole(VictimOf(streams[i]))], w) && Trace(w, SpoilingAsks(streams, i), outs, w')
    ensures !AllGetTheirs(streams + [Whole(VictimOf(streams[i]))], SpoilingAsks(streams, i), outs)
  {
    hide Trace, Delivers, BreaksInLine, GoodStream, Due, VictimOf, Heard, Asked, StartConn;
    var asks, all, k := SpoilingAsks(streams, i), streams + [Whole(VictimOf(streams[i]))], |streams|;
    assert |asks| == 2 && |outs| == 2 by {
      TraceLength(w, asks, outs, w');
    }
    TwoCalls(w, asks, outs, w');
    var mid :| Call(w, i, asks[0].size, outs[0], mid) && Call(mid, k, 2, outs[1], w');
    var used :| Delivers(w.conns[i], w.register, used, asks[0].size, outs[0], mid.conns[i], mid.register);
    assert all[i] == streams[i] && all[k] == Whole(VictimOf(streams[i]));
    ReadsToEnd(streams[i], used, asks[0].size, outs[0], mid.conns[i], mid.register);
    var used' :| Delivers(mid.conns[k], mid.register, used', 2, outs[1], w'.conns[k], w'.register);
    VictimGetsNothing(streams[i], used', 2, outs[1], w'.conns[k], w'.register);
    VictimIsGood(streams[i]);
    TwoHeard(asks, outs);
  }

  lemma TraceLength(w: World, asks: seq<Ask>, outs: seq<seq<char>>, w': World)
    requires Trace(w, asks, outs, w')
    ensures |outs| == |asks|
  {
  }

  lemma StartExists(streams: seq<Stream>) returns (w: World)
    requires GoodStreams(streams)
    ensures Starts(streams, w)
  {
    w := World([], seq(|streams|, k requires 0 <= k < |streams| => StartConn(streams[k])));
  }

  /** Such a run exists. */
  lemma SpoiledRun(streams: seq<Stream>, i: nat) returns (w: World, outs: seq<seq<char>>, w': World)
    requires GoodStreams(streams) && i < |streams| && Breaks(streams[i])
    ensures Starts(streams + [Whole(VictimOf(streams[i]))], w) && Trace(w, SpoilingAsks(streams, i), outs, w')
  {
    hide Trace, Delivers, BreaksInLine, GoodStream, Due, VictimOf, StartConn;
    var s, k := streams[i], |streams|;
    var asks, all := SpoilingAsks(streams, i), streams + [Whole(VictimOf(s))];
    VictimIsGood(s);
    assert forall j :: 0 <= j < |all| ==> GoodStream(all[j]);
    w := StartExists(all);
    assert all[i] == s && all[k] == Whole(VictimOf(s));
    assert w.conns[i] == StartConn(all[i]) && w.conns[k] == StartConn(all[k]);
    var mid := World(LeftInScanner(s), w.conns[i := Conn(true, AtEnd, [])]);
    w' := World([], mid.conns[k := Conn(true, AtEnd, [])]);
    outs := [Due(s), []];
    ReadsToEnd(s, [], asks[0].size, [], mid.conns[i], []);
    VictimGetsNothing(s, [], 2, [], mid.conns[i], []);
    assert Delivers(w.conns[i], w.register, StartConn(s).rest, asks[0].size, outs[0], mid.conns[i], mid.register);
    assert Call(w, i, asks[0].size, outs[0], mid);
    assert Delivers(mid.conns[k], mid.register, Wire(VictimOf(s)), 2, outs[1], w'.conns[k], w'.register);
    assert Call(mid, k, 2, outs[1], w');
    TwoCalls(w, asks, outs, w');
  }

  /** Connections can be read in turns, together with any complete one, if and only if none of them ends
      inside a size line. */
  lemma SafeIffUnbroken(streams: seq<Stream>)
    requires GoodStreams(streams)
    ensures (forall extra: Body :: GoodBody(extra) ==> Safe(streams + [Whole(extra)])) <==>
            (forall i :: 0 <= i < |streams| ==> !Breaks(streams[i]))
  {
    hide Safe, BreaksInLine, GoodStream, GoodBody, VictimOf;
    if forall i :: 0 <= i < |streams| ==> !Breaks(streams[i]) {
      forall extra: Body | GoodBody(extra)
        ensures Safe(streams + [Whole(extra)])
      {
        WholeNeverBreaks(extra);
        UnbrokenIsSafe(streams + [Whole(extra)]);
      }
    } else {
      var i :| 0 <= i < |streams| && Breaks(streams[i]);
      VictimIsGood(streams[i]);
      NotSafe(streams, i);
    }
  }

  lemma NotSafe(streams: seq<Stream>, i: nat)
    requires GoodStreams(streams) && i < |streams| && Breaks(streams[i])
    ensures !Safe(streams + [Whole(VictimOf(streams[i]))])
  {
    hide Starts, Trace, BreaksInLine, GoodStream, VictimOf, AllGetTheirs;
    var w, outs, w' := SpoiledRun(streams, i);
    AlwaysSpoiled(streams, i, w, outs, w');
  }

  /** The code, on handlers whose bodies have just begun: with no break inside a size line each client
      gets its own, and the scanner is idle afterwards. */
  method ReadInTurns(handlers: seq<Handler>, scanner: Scanner, asks: seq<Ask>, ghost streams: seq<Stream>, ghost w: World)
    returns (outs: seq<seq<char>>)
    requires Shows(handlers, scanner, w) && Starts(streams, w)
    requires forall i :: 0 <= i < |streams| ==> !Breaks(streams[i])
    requires forall k :: 0 <= k < |asks| ==> asks[k].client < |handlers| && asks[k].size >= 1
    modifies handlers, set h: Handler | h in handlers :: h.socket
    modifies scanner, scanner.length
    ensures AllGetTheirs(streams, asks, outs) && scanner.Valid() && scanner.Contents() == []
  {
    hide Trace, Breaks, GoodStream, Views, Heard, Asked, Own;
    ghost var w';
    outs, w' := Interleave(handlers, scanner, asks, w);
    TraceOwn(streams, w, asks, outs, w');
    OwnGets(streams, asks, outs, w');
  }

  /** The code, on a connection that ends inside a size line and the victim behind it. */
  method SpoilVictim(handlers: seq<Handler>, scanner: Scanner, i: nat, asks: seq<Ask>,
                     ghost streams: seq<Stream>, ghost w: World)
    returns (outs: seq<seq<char>>)
    requires GoodStreams(streams) && i < |streams| && Breaks(streams[i])
    requires Shows(handlers, scanner, w) && Starts(streams + [Whole(VictimOf(streams[i]))], w)
    requires asks == SpoilingAsks(streams, i)
    modifies handlers, set h: Handler | h in handlers :: h.socket
    modifies scanner, scanner.length
    ensures !AllGetTheirs(streams + [Whole(VictimOf(streams[i]))], asks, outs)
  {
    hide Trace, BreaksInLine, GoodStream, Views, Heard, Asked, VictimOf, AllGetTheirs;
    ghost var w';
    outs, w' := Interleave(handlers, scanner, asks, w);
    AlwaysSpoiled(streams, i, w, outs, w');
  }
}
