/** The body half of requests.c: req_read_output, start_chunk_read and req_read_output_body, on a
    handler whose source is a socket that may return any non-empty prefix of what is still to come. */
module BodyReader {
  import opened CStrings
  import opened ChunkScanner
  import opened BodyCoding
  import ParserTree

  /** The bytes still to come on the connection. recv may return fewer bytes than asked for, and
      -1 once nothing is left. */
  class Socket {
    var pending: seq<char>

    constructor (bytes: seq<char>)
      ensures pending == bytes
    {
      pending := bytes;
    }

    method Recv(buffer: array<char>, at: nat, n: nat) returns (r: int)
      requires 1 <= n && at + n <= buffer.Length
      modifies this, buffer
      ensures old(pending) == [] ==> r == -1
      ensures old(pending) != [] ==> 1 <= r <= n && r <= |old(pending)|
      ensures old(pending) == Got(buffer[..], at, r) + pending
      ensures SameOutside(buffer[..], old(buffer[..]), at, at + r)
    {
      if pending == [] {
        return -1;
      }
      r :| 1 <= r <= n && r <= |pending|;
      forall k | 0 <= k < r {
        buffer[at + k] := pending[k];
      }
      assert Got(buffer[..], at, r) == pending[..r];
      pending := pending[r..];
    }
  }

  /** The bytes that a read result r announces at offset `at`. */
  function Got(buffer: seq<char>, at: nat, r: int): seq<char>
    requires at + r <= |buffer|
  {
    if r < 0 then [] else buffer[at..at + r]
  }

  lemma ResidueFirst(got: seq<char>, residue: seq<char>, pending: seq<char>)
    ensures (got + residue) + pending == got + (residue + pending)
  {
  }

  method MemCpy(dest: array<char>, at: nat, src: array<char>, from: nat, n: nat)
    requires dest != src && at + n <= dest.Length && from + n <= src.Length
    modifies dest
    ensures dest[at..at + n] == old(src[from..from + n])
    ensures SameOutside(dest[..], old(dest[..]), at, at + n)
  {
    forall k | at <= k < at + n {
      dest[k] := src[from + (k - at)];
    }
  }

  /** The two ranges may overlap. */
  method MemMove(a: array<char>, to: nat, from: nat, n: nat)
    requires to + n <= a.Length && from + n <= a.Length
    modifies a
    ensures a[to..to + n] == old(a[from..from + n])
    ensures SameOutside(a[..], old(a[..]), to, to + n)
  {
    forall k | to <= k < to + n {
      a[k] := a[from + (k - to)];
    }
  }

  class Handler {
    const socket: Socket
    const scanner: Scanner
    var headersTree: ParserTree.Tree?
    var readingResidue: array?<char>
    var bytesRead: nat
    var residueSize: nat
    var residueOffset: nat
    var totalBytes: int
    var statusCode: nat
    var readFinished: bool
    var chunked: bool
    var keepAliveRead: char

    /** calloc, and the fields that req_request sets for a new connection. */
    constructor (socket: Socket, scanner: Scanner)
      requires scanner.Valid()
      ensures Valid() && Rest() == socket.pending
      ensures this.socket == socket && this.scanner == scanner
      ensures headersTree == null && keepAliveRead == '\0' && statusCode == 0
      ensures residueSize == 0 && residueOffset == 0
      ensures !readFinished && totalBytes == 0 && bytesRead == 0
    {
      this.socket, this.scanner := socket, scanner;
      headersTree, readingResidue := null, null;
      bytesRead, residueSize, residueOffset, totalBytes, statusCode := 0, 0, 0, 0, 0;
      readFinished, chunked, keepAliveRead := false, false, '\0';
    }

    ghost predicate Valid()
      reads `totalBytes, `chunked, `residueSize, `residueOffset, `readingResidue
      reads scanner, scanner.length
    {
      && scanner.Valid() && -1 <= totalBytes && (!chunked ==> 0 <= totalBytes)
      && (residueSize > 0 ==>
            readingResidue != null && residueOffset + residueSize <= readingResidue.Length &&
            readingResidue != scanner.length)
    }

    ghost function Residue(): seq<char>
      reads `residueSize, `residueOffset, `readingResidue, readingResidue
    {
      if residueSize > 0 && readingResidue != null && residueOffset + residueSize <= readingResidue.Length
      then readingResidue[residueOffset..residueOffset + residueSize]
      else []
    }

    /** Everything that has not been taken out of residue and socket. */
    ghost function Rest(): seq<char>
      reads `residueSize, `residueOffset, `readingResidue, readingResidue, socket
    {
      Residue() + socket.pending
    }

    ghost function Mode(): Mode
      requires Valid()
      reads this, scanner, scanner.length
    {
      if readFinished then Done
      else if totalBytes > bytesRead then Data(totalBytes - bytesRead, if chunked then scanner.Contents() else [])
      else if chunked then Size(scanner.Contents())
      else Done
    }

    /** The body bytes that are still to be delivered. */
    ghost function Remaining(): seq<char>
      requires Valid()
      reads this, scanner, scanner.length, readingResidue, socket
    {
      Payload(chunked, Mode(), Rest())
    }

    /** A buffer that the caller owns. */
    ghost predicate Foreign(buffer: array<char>)
      reads `readingResidue
    {
      buffer != scanner.length && buffer != readingResidue
    }

    /** req_read_output: the residue is served before the socket. */
    method ReadOutput(buffer: array<char>, at: nat, n: nat) returns (r: int)
      requires Valid() && Foreign(buffer)
      requires 1 <= n && at + n <= buffer.Length
      modifies `residueSize, `residueOffset, `readingResidue, socket, buffer
      ensures Valid() && Foreign(buffer)
      ensures old(Rest()) == [] ==> r == -1
      ensures old(Rest()) != [] ==> 1 <= r <= n && r <= |old(Rest())|
      ensures old(Rest()) == Got(buffer[..], at, r) + Rest()
      ensures SameOutside(buffer[..], old(buffer[..]), at, at + r)
      ensures readingResidue == old(readingResidue) || readingResidue == null
      ensures old(residueSize) == 0 ==> residueSize == 0 && unchanged(`residueOffset) && unchanged(`readingResidue)
      ensures scanner.Valid() && scanner.Contents() == old(scanner.Contents())
    {
      hide SameOutside;
      if residueSize <= 0 {
        r := socket.Recv(buffer, at, n);
      } else {
        r := ServeResidue(buffer, at, n);
        ResidueFirst(Got(buffer[..], at, r), Residue(), socket.pending);
      }
    }

    /** The second half of req_read_output. */
    method ServeResidue(buffer: array<char>, at: nat, n: nat) returns (read: nat)
      requires Valid() && Foreign(buffer) && residueSize > 0
      requires 1 <= n && at + n <= buffer.Length
      modifies `residueSize, `residueOffset, `readingResidue, buffer
      ensures Valid() && Foreign(buffer)
      ensures 1 <= read <= n && read <= |old(Residue())|
      ensures old(Residue()) == Got(buffer[..], at, read) + Residue()
      ensures SameOutside(buffer[..], old(buffer[..]), at, at + read)
      ensures readingResidue == old(readingResidue) || readingResidue == null
      ensures scanner.Valid() && scanner.Contents() == old(scanner.Contents())
    {
      hide SameOutside;
      ghost var residue := Residue();
      read := if n < residueSize then n else residueSize;
      assert residue[..read] == readingResidue[residueOffset..residueOffset + read];
      MemCpy(buffer, at, readingResidue, residueOffset, read);
      assert Residue() == residue;
      assert residue[..read] == buffer[at..at + read];
      residueSize := residueSize - read;
      residueOffset := residueOffset + read;
      assert Residue() == residue[read..];
      if residueSize <= 0 {
        readingResidue := null;
      }
      assert Got(buffer[..], at, read) == buffer[at..at + read];
    }

    // ----------------------------------------------------------------------------------------
    // start_chunk_read

    /** The inner loop: size-line bytes are scanned until a size is known or the buffer is used up. */
    method ScanBuffer(buffer: array<char>, from: nat, end: nat)
      returns (offset: nat, ghost eaten: seq<char>, ghost tail: seq<char>)
      requires Valid() && Foreign(buffer) && chunked && totalBytes == -1
      requires from <= end <= buffer.Length
      modifies `totalBytes, scanner, scanner.length
      ensures Valid() && scanner.Valid() && from <= offset <= end && totalBytes >= -1
      ensures if totalBytes == -1 then offset == end else from < offset && scanner.Contents() == []
      ensures old(buffer[from..end]) == eaten + tail && tail == buffer[offset..end]
      ensures Run(true, Size(old(scanner.Contents())), eaten)
           == Decoded(Opened(totalBytes, scanner.Contents()), [], [])
      ensures Rest() == old(Rest())
    {
      ghost var m := Size(scanner.Contents());
      offset := from;
      while totalBytes == -1 && offset < end
        invariant Valid() && from <= offset <= end && totalBytes >= -1
        invariant totalBytes != -1 ==> from < offset && scanner.Contents() == []
        invariant Run(true, m, buffer[from..offset]) == Decoded(Opened(totalBytes, scanner.Contents()), [], [])
        decreases if totalBytes == -1 then 1 else 0, end - offset
      {
        RunScanByte(m, buffer[from..offset], scanner.Contents(), buffer[offset]);
        assert buffer[from..offset + 1] == buffer[from..offset] + [buffer[offset]];
        totalBytes := scanner.GetChunkSize(buffer[offset]);
        offset := offset + 1;
      }
      eaten, tail := buffer[from..offset], buffer[offset..end];
    }

    /** req_read_output into an empty buffer. */
    method Refill(buffer: array<char>, at: nat, n: nat) returns (r: int)
      requires Valid() && Foreign(buffer)
      requires 1 <= n && at + n <= buffer.Length
      modifies `residueSize, `residueOffset, `readingResidue, socket, buffer
      ensures Valid() && Foreign(buffer)
      ensures if old(Rest()) == [] then r < 0 else 1 <= r <= n
      ensures r < 0 ==> Rest() == old(Rest()) && buffer[..] == old(buffer[..])
      ensures r > 0 ==> old(Rest()) == buffer[at..at + r] + Rest()
      ensures SameOutside(buffer[..], old(buffer[..]), at, at + n)
      ensures scanner.Valid() && scanner.Contents() == old(scanner.Contents())
    {
      r := ReadOutput(buffer, at, n);
      assert Got(buffer[..], at, r) == if r < 0 then [] else buffer[at..at + r];
    }

    /** One round of the outer loop: the buffer is scanned and, if that gave no size, refilled. */
    method ScanRound(buffer: array<char>, at: nat, offset0: nat, bytesInBuffer0: nat, bufferSize: nat)
      returns (failed: bool, offset: nat, bytesInBuffer: nat, ghost eaten: seq<char>, ghost tail: seq<char>)
      requires Valid() && Foreign(buffer) && chunked && totalBytes == -1
      requires 1 <= bufferSize && at + bufferSize <= buffer.Length && offset0 <= bytesInBuffer0 <= bufferSize
      modifies `totalBytes, `residueSize, `residueOffset, `readingResidue
      modifies socket, scanner, scanner.length, buffer
      ensures Valid() && Foreign(buffer) && scanner.Valid() && -1 <= totalBytes
      ensures offset <= bytesInBuffer <= bufferSize && tail == buffer[at + offset..at + bytesInBuffer]
      ensures Split(old(buffer[at + offset0..at + bytesInBuffer0] + Rest()), eaten, tail, Rest())
      ensures totalBytes >= 0 ==> !failed && 1 <= offset && scanner.Contents() == [] && Rest() == old(Rest())
      ensures totalBytes < 0 ==> if failed then tail == [] && Rest() == [] else |Rest()| < old(|Rest()|)
      ensures Run(true, Size(old(scanner.Contents())), eaten)
           == Decoded(Opened(totalBytes, scanner.Contents()), [], [])
      ensures |Rest()| <= old(|Rest()|)
      ensures SameOutside(buffer[..], old(buffer[..]), at, at + bufferSize)
    {
      hide Run, Residue, Rest, ScanNext, ScanValue, Valid, Scanner.Valid, Scanner.Contents, Split;
      ghost var before, rest := buffer[at + offset0..at + bytesInBuffer0], Rest();
      var next;
      next, eaten, tail := ScanBuffer(buffer, at + offset0, at + bytesInBuffer0);
      failed, offset, bytesInBuffer := false, next - at, bytesInBuffer0;
      SplitStart(before, rest);
      assert [] + eaten == eaten;
      SplitMove(before + rest, [], eaten, tail, rest);
      if totalBytes == -1 {
        var read := Refill(buffer, at, bufferSize);
        failed := read < 0;
        if !failed {
          SplitRefill(before + rest, eaten, buffer[at..at + read], Rest());
          bytesInBuffer := read;
          offset := 0;
          tail := buffer[at..at + read];
        }
      }
    }

    /** The first half of start_chunk_read: rounds are made until a size is known or the source fails. */
    method ScanForSize(buffer: array<char>, at: nat, bytesInBuffer0: nat, bufferSize: nat)
      returns (ok: bool, offset: nat, bytesInBuffer: nat, ghost used: seq<char>, ghost tail: seq<char>)
      requires Valid() && Foreign(buffer) && chunked
      requires 1 <= bufferSize && at + bufferSize <= buffer.Length && bytesInBuffer0 <= bufferSize
      modifies `totalBytes, `residueSize, `residueOffset, `readingResidue
      modifies socket, scanner, scanner.length, buffer
      ensures Valid() && Foreign(buffer) && -1 <= totalBytes
      ensures offset <= bytesInBuffer <= bufferSize && tail == buffer[at + offset..at + bytesInBuffer]
      ensures Split(old(buffer[at..at + bytesInBuffer0] + Rest()), used, tail, Rest())
      ensures if ok then totalBytes >= 0 && 1 <= offset && scanner.Contents() == []
              else totalBytes == -1 && tail == [] && Rest() == []
      ensures Run(true, Size(old(scanner.Contents())), used)
           == Decoded(Opened(totalBytes, scanner.Contents()), [], [])
      ensures |Rest()| <= old(|Rest()|)
      ensures SameOutside(buffer[..], old(buffer[..]), at, at + bufferSize)
    {
      hide Run, Residue, Rest, SameOutside, Split, Opened, Mode, Remaining, Scanner.Contents;
      ghost var m := Size(scanner.Contents());
      tail := buffer[at..at + bytesInBuffer0];
      ghost var all := tail + Rest();
      totalBytes := -1;
      SameOutsideSelf(buffer[..], at, at + bufferSize);
      RunEmpty(true, m);
      OpenedUnknown(scanner.Contents());
      used := [];
      SplitStart(tail, Rest());
      ok, offset, bytesInBuffer := true, 0, bytesInBuffer0;
      while totalBytes == -1 && ok
        invariant Valid() && scanner.Valid() && Foreign(buffer) && -1 <= totalBytes
        invariant offset <= bytesInBuffer <= bufferSize
        invariant tail == buffer[at + offset..at + bytesInBuffer] && Split(all, used, tail, Rest())
        invariant totalBytes != -1 ==> ok && 1 <= offset && scanner.Contents() == []
        invariant !ok ==> tail == [] && Rest() == []
        invariant Run(true, m, used) == Decoded(Opened(totalBytes, scanner.Contents()), [], [])
        invariant |Rest()| <= old(|Rest()|)
        invariant SameOutside(buffer[..], old(buffer[..]), at, at + bufferSize)
        decreases totalBytes == -1, ok, |Rest()|
      {
        ghost var was, tail0, rest0 := buffer[..], tail, Rest();
        ghost var eaten;
        var failed;
        OpenedUnknown(scanner.Contents());
        failed, offset, bytesInBuffer, eaten, tail := ScanRound(buffer, at, offset, bytesInBuffer, bufferSize);
        SameOutsideTwice(buffer[..], was, old(buffer[..]), at, at, at + bufferSize, at + bufferSize);
        RunAppend(true, m, used, eaten);
        SplitTwice(all, used, tail0, rest0, eaten, tail, Rest());
        used := used + eaten;
        ok := !failed;
      }
    }

    /** start_chunk_read: the framing is removed in place. `used` is what has been consumed of the
        buffered bytes and of the source; decoding it gives the bytes now at the front of the buffer
        and the state the handler is left in. */
    method StartChunkRead(buffer: array<char>, at: nat, bytesInBuffer0: nat, bufferSize: nat)
      returns (size: nat, ghost used: seq<char>)
      requires Valid() && Foreign(buffer) && chunked && !readFinished
      requires 1 <= bufferSize && at + bufferSize <= buffer.Length && bytesInBuffer0 <= bufferSize
      modifies `totalBytes, `bytesRead, `readFinished, `residueSize, `residueOffset, `readingResidue
      modifies socket, scanner, scanner.length, buffer
      ensures Valid() && Foreign(buffer) && size <= bufferSize
      ensures Split(old(buffer[at..at + bytesInBuffer0] + Rest()), used, [], Rest())
      ensures Run(true, Size(old(scanner.Contents())), used).payload == buffer[at..at + size]
      ensures Run(true, Size(old(scanner.Contents())), used).mode == Mode()
      ensures scanner.Contents() == Held(Mode())
      ensures size == bufferSize || Mode().Data? ==> scanner.Contents() == []
      ensures |Rest()| <= old(|Rest()|)
      ensures SameOutside(buffer[..], old(buffer[..]), at, at + bufferSize)
      decreases |Rest()| + bytesInBuffer0
    {
      hide Run, Residue, Rest, ScanNext, ScanValue, SameOutside, Scanner.Contents, Split, Payload, Remaining;
      ghost var m, all := Size(scanner.Contents()), buffer[at..at + bytesInBuffer0] + Rest();
      ghost var was := buffer[..];
      var ok, offset, bytesInBuffer;
      ghost var tail;
      ok, offset, bytesInBuffer, used, tail := ScanForSize(buffer, at, bytesInBuffer0, bufferSize);
      SplitLength(all, used, tail, Rest());
      if !ok {
        return 0, used;
      }
      if totalBytes == 0 {
        readFinished := true;
        RunPastEnd(m, used, tail);
        SplitAll(all, used, tail, Rest());
        return 0, used + tail;
      }
      ghost var scanned := buffer[..];
      size, used := MoveData(buffer, at, offset, bytesInBuffer, bufferSize, m, all, used, tail);
      SameOutsideTwice(buffer[..], scanned, was, at, at, at + bufferSize, at + bufferSize);
    }

    /** The second half of start_chunk_read, behind a size line: the data moves to the front, and what
        is beyond the chunk is read as the next one. */
    method MoveData(buffer: array<char>, at: nat, offset: nat, bytesInBuffer0: nat, bufferSize: nat,
                    ghost m: Mode, ghost all: seq<char>, ghost used0: seq<char>, ghost tail: seq<char>)
      returns (size: nat, ghost used: seq<char>)
      requires Valid() && Foreign(buffer) && chunked && !readFinished && scanner.Contents() == []
      requires 0 < totalBytes && offset <= bytesInBuffer0 <= bufferSize && at + bufferSize <= buffer.Length
      requires tail == buffer[at + offset..at + bytesInBuffer0] && Split(all, used0, tail, Rest())
      requires Run(true, m, used0) == Decoded(Data(totalBytes, []), [], [])
      modifies `totalBytes, `bytesRead, `readFinished, `residueSize, `residueOffset, `readingResidue
      modifies socket, scanner, scanner.length, buffer
      ensures Valid() && Foreign(buffer) && size <= bufferSize
      ensures Split(all, used, [], Rest())
      ensures Run(true, m, used).payload == buffer[at..at + size]
      ensures Run(true, m, used).mode == Mode()
      ensures scanner.Contents() == Held(Mode())
      ensures size == bufferSize || Mode().Data? ==> scanner.Contents() == []
      ensures |Rest()| <= old(|Rest()|)
      ensures SameOutside(buffer[..], old(buffer[..]), at, at + bufferSize)
      decreases |Rest()| + bytesInBuffer0 - offset, 1
    {
      hide Run, Residue, Rest, ScanNext, ScanValue, SameOutside, Scanner.Contents, Split, Payload, Remaining;
      var bytesInBuffer := bytesInBuffer0;
      if bytesInBuffer > offset {
        bytesInBuffer := bytesInBuffer - offset;
      } else {
        bytesInBuffer := 0;
      }
      ghost var was := buffer[..];
      SameOutsideSelf(was, at, at + bufferSize);
      MemMove(buffer, at, at + offset, bytesInBuffer);
      bytesRead := bytesInBuffer;
      ghost var moved := buffer[..];
      assert tail == buffer[at..at + bytesInBuffer];
      SameOutsideTwice(moved, was, was, at, at, at + bytesInBuffer, at + bufferSize);
      if bytesInBuffer > totalBytes {
        size, used := NextChunk(buffer, at, bytesInBuffer, bufferSize, m, all, used0, tail);
        SameOutsideTwice(buffer[..], moved, was, at, at, at + bufferSize, at + bufferSize);
      } else {
        RunChunkData(m, used0, tail, totalBytes);
        SplitAll(all, used0, tail, Rest());
        size, used := bytesInBuffer, used0 + tail;
      }
    }

    /** The recursive step of start_chunk_read: the buffer holds a whole chunk and the beginning of
        the next size line. What has been placed before the recursive call is not touched by it. */
    method NextChunk(buffer: array<char>, at: nat, bytesInBuffer: nat, bufferSize: nat,
                     ghost m: Mode, ghost all: seq<char>, ghost used0: seq<char>, ghost tail: seq<char>)
      returns (size: nat, ghost used: seq<char>)
      requires Valid() && Foreign(buffer) && chunked && !readFinished && scanner.Contents() == []
      requires 0 < totalBytes < bytesInBuffer <= bufferSize && at + bufferSize <= buffer.Length
      requires tail == buffer[at..at + bytesInBuffer] && Split(all, used0, tail, Rest())
      requires Run(true, m, used0) == Decoded(Data(totalBytes, []), [], [])
      modifies `totalBytes, `bytesRead, `readFinished, `residueSize, `residueOffset, `readingResidue
      modifies socket, scanner, scanner.length, buffer
      ensures Valid() && Foreign(buffer) && size <= bufferSize
      ensures Split(all, used, [], Rest())
      ensures Run(true, m, used).payload == buffer[at..at + size]
      ensures Run(true, m, used).mode == Mode()
      ensures scanner.Contents() == Held(Mode())
      ensures size == bufferSize || Mode().Data? ==> scanner.Contents() == []
      ensures |Rest()| <= old(|Rest()|)
      ensures SameOutside(buffer[..], old(buffer[..]), at, at + bufferSize)
      decreases |Rest()| + bytesInBuffer, 0
    {
      hide Run, Residue, Rest, ScanNext, ScanValue, SameOutside, Split;
      ghost var was := buffer[..];
      Slices(buffer, at, at + bytesInBuffer);
      var chunkSize := 0;
      if totalBytes > 0 {
        chunkSize := totalBytes;
      }
      ghost var data, next := tail[..chunkSize], tail[chunkSize..];
      CutSlice(was, at, chunkSize, bytesInBuffer);
      Slices(buffer, at + chunkSize, at + bytesInBuffer);
      var more;
      ghost var used';
      RunChunkData(m, used0, data, chunkSize);
      assert tail == data + next;
      SplitMove(all, used0, data, next, Rest());
      ghost var rest := Rest();
      more, used' := StartChunkRead(buffer, at + chunkSize, bytesInBuffer - chunkSize, bufferSize - chunkSize);
      RunAppend(true, m, used0 + data, used');
      SplitTwice(all, used0 + data, next, rest, used', [], Rest());
      Placed(was, buffer[..], at, chunkSize, more, bufferSize);
      size, used := chunkSize + more, used0 + data + used';
      Slices(buffer, at + chunkSize, at + size);
      Slices(buffer, at, at + size);
    }

    // ----------------------------------------------------------------------------------------
    // req_read_output_body

    /** The part of req_read_output_body before its recursive call: one read, unframed if it began
        at a size line. */
    method ReadPiece(buffer: array<char>, at: nat, bufferSize: nat) returns (done: bool, size: nat, ghost used: seq<char>)
      requires Valid() && Foreign(buffer) && !readFinished
      requires 1 <= bufferSize && at + bufferSize <= buffer.Length
      modifies `totalBytes, `bytesRead, `readFinished, `residueSize, `residueOffset, `readingResidue
      modifies socket, scanner, scanner.length, buffer
      ensures Valid() && Foreign(buffer) && size <= bufferSize
      ensures Split(old(Rest()), used, [], Rest())
      ensures Run(chunked, old(Mode()), used).payload == buffer[at..at + size]
      ensures Run(chunked, old(Mode()), used).mode == Mode() || (Mode().Done? && Rest() == [])
      ensures scanner.Contents() ==
                if chunked && !old(Mode()).Done? then Held(Run(chunked, old(Mode()), used).mode)
                else old(scanner.Contents())
      ensures chunked && (size == bufferSize || Mode().Data?) ==>
                scanner.Contents() == [] || (old(Mode()).Data? && scanner.Contents() == old(scanner.Contents()))
      ensures if done then Mode().Done? && size == 0 else |Rest()| < old(|Rest()|)
      ensures !chunked ==> |used| == size && bytesRead == old(bytesRead) + size && totalBytes == old(totalBytes)
      ensures !chunked && old(bytesRead <= totalBytes) ==> bytesRead <= totalBytes
      ensures old(Mode()).Done? ==> done && used == [] && socket.pending == old(socket.pending)
      ensures SameOutside(buffer[..], old(buffer[..]), at, at + bufferSize)
    {
      hide Run, Residue, Rest, ScanNext, ScanValue, SameOutside, Split;
      ghost var m, all, was := Mode(), Rest(), buffer[..];
      var read := 0;
      used := [];
      SplitNothing(all);
      RunEmpty(chunked, m);
      SameOutsideSelf(was, at, at + bufferSize);
      if totalBytes > bytesRead {
        var left := totalBytes - bytesRead;
        var n := if bufferSize < left then bufferSize else left;
        read := Refill(buffer, at, n);
        if read <= 0 {
          readFinished := true;
          return true, 0, used;
        }
        bytesRead := bytesRead + read;
        SameOutsideTwice(buffer[..], was, was, at, at, at + n, at + bufferSize);
        used := buffer[at..at + read];
        RunData(chunked, left, if chunked then scanner.Contents() else [], used);
        SplitOne(all, used, Rest());
        return false, read, used;
      }
      if chunked {
        read := Refill(buffer, at, bufferSize);
        if read <= 0 {
          readFinished := true;
          return true, 0, used;
        }
        ghost var filled := buffer[..];
        size, used := StartChunkRead(buffer, at, read, bufferSize);
        SameOutsideTwice(buffer[..], filled, was, at, at, at + bufferSize, at + bufferSize);
        return false, size, used;
      }
      return true, 0, used;
    }

    /** req_read_output_body: the buffer is filled with the next bytes of the body, whatever the
        framing and however the bytes arrive. It is filled to the end unless the body, or the source,
        is at its end. */
    method ReadOutputBody(buffer: array<char>, at: nat, bufferSize: nat) returns (size: nat, ghost used: seq<char>)
      requires Valid() && Foreign(buffer)
      requires 1 <= bufferSize && at + bufferSize <= buffer.Length
      modifies `totalBytes, `bytesRead, `readFinished, `residueSize, `residueOffset, `readingResidue
      modifies socket, scanner, scanner.length, buffer
      ensures Valid() && Foreign(buffer) && size <= bufferSize
      ensures buffer[at..at + size] == Take(old(Remaining()), bufferSize)
      ensures old(Remaining()) == buffer[at..at + size] + Remaining()
      ensures size < bufferSize ==> Mode().Done?
      ensures Split(old(Rest()), used, [], Rest())
      ensures Run(chunked, old(Mode()), used).payload == buffer[at..at + size]
      ensures Run(chunked, old(Mode()), used).mode == Mode() || (Mode().Done? && Rest() == [])
      ensures scanner.Contents() ==
                if chunked && !old(Mode()).Done? then Held(Run(chunked, old(Mode()), used).mode)
                else old(scanner.Contents())
      ensures chunked && (size == bufferSize || Mode().Data?) ==>
                scanner.Contents() == [] || (old(Mode()).Data? && scanner.Contents() == old(scanner.Contents()))
      ensures !chunked ==> |used| == size && bytesRead == old(bytesRead) + size && totalBytes == old(totalBytes)
      ensures !chunked && old(bytesRead <= totalBytes) ==> bytesRead <= totalBytes
      ensures old(Mode()).Done? ==> size == 0 && used == [] && socket.pending == old(socket.pending)
      ensures SameOutside(buffer[..], old(buffer[..]), at, at + bufferSize)
      decreases |Rest()|, 0
    {
      hide Run, Residue, Rest, ScanNext, ScanValue, SameOutside, Split, Payload, Take, Mode, Foreign, Held;
      hide Scanner.Contents, Scanner.Valid;
      ghost var m, all, was := Mode(), Rest(), buffer[..];
      if readFinished {
        FinishedMode(this);
      }
      RunEmpty(chunked, m);
      SplitNothing(all);
      SameOutsideSelf(was, at, at + bufferSize);
      size, used := 0, [];
      if !readFinished {
        var done;
        done, size, used := ReadPiece(buffer, at, bufferSize);
        if !done && size < bufferSize {
          ghost var placed := buffer[..];
          size, used := ReadOn(buffer, at, bufferSize, size, m, all, used);
          SameOutsideTwice(buffer[..], placed, was, at, at, at + bufferSize, at + bufferSize);
        }
      }
      Deliver(chunked, m, all, used, Rest(), Mode(), bufferSize);
    }

    /** The recursive call of req_read_output_body, behind `size0` bytes that are already in place. */
    method ReadOn(buffer: array<char>, at: nat, bufferSize: nat, size0: nat,
                  ghost m: Mode, ghost all: seq<char>, ghost used0: seq<char>)
      returns (size: nat, ghost used: seq<char>)
      requires Valid() && Foreign(buffer) && size0 < bufferSize && at + bufferSize <= buffer.Length
      requires Split(all, used0, [], Rest())
      requires Run(chunked, m, used0).payload == buffer[at..at + size0]
      requires Run(chunked, m, used0).mode == Mode() || (Mode().Done? && Rest() == [])
      requires chunked && !m.Done? ==> scanner.Contents() == Held(Run(chunked, m, used0).mode)
      modifies `totalBytes, `bytesRead, `readFinished, `residueSize, `residueOffset, `readingResidue
      modifies socket, scanner, scanner.length, buffer
      ensures Valid() && Foreign(buffer) && size <= bufferSize
      ensures size < bufferSize ==> Mode().Done?
      ensures Split(all, used, [], Rest())
      ensures Run(chunked, m, used).payload == buffer[at..at + size]
      ensures Run(chunked, m, used).mode == Mode() || (Mode().Done? && Rest() == [])
      ensures scanner.Contents() ==
                if chunked && !m.Done? then Held(Run(chunked, m, used).mode) else old(scanner.Contents())
      ensures chunked && (size == bufferSize || Mode().Data?) ==>
                scanner.Contents() == [] || (old(Mode()).Data? && scanner.Contents() == old(scanner.Contents()))
      ensures !chunked ==> |used| - |used0| == size - size0 && totalBytes == old(totalBytes)
      ensures !chunked ==> bytesRead == old(bytesRead) + size - size0
      ensures !chunked && old(bytesRead <= totalBytes) ==> bytesRead <= totalBytes
      ensures SameOutside(buffer[..], old(buffer[..]), at, at + bufferSize)
      decreases |Rest()|, 1
    {
      hide Run, Residue, Rest, SameOutside, Split, Payload, Take, Held, Mode, Remaining, Foreign;
      hide Scanner.Contents, Scanner.Valid;
      ghost var mid, rest, filled := Mode(), Rest(), buffer[..];
      ghost var held := scanner.Contents();
      Slices(buffer, at, at + size0);
      var more;
      ghost var used1;
      more, used1 := ReadOutputBody(buffer, at + size0, bufferSize - size0);
      size, used := size0 + more, used0 + used1;
      Slices(buffer, at + size0, at + size);
      Slices(buffer, at, at + size);
      ContinuePlaced(chunked, m, all, used0, mid, rest, used1, Rest(), Mode(),
                     filled, buffer[..], at, size0, more, bufferSize);
      ContinueHeld(chunked, m, used0, mid, used1, held, scanner.Contents());
    }
  }

  lemma FinishedMode(handler: Handler)
    requires handler.Valid() && handler.readFinished
    ensures handler.Mode().Done?
  {
  }

  lemma Slices(a: array<char>, lo: nat, hi: nat)
    requires lo <= hi <= a.Length
    ensures a[..][lo..hi] == a[lo..hi]
  {
  }

  lemma CutSlice(s: seq<char>, at: nat, n: nat, size: nat)
    requires n <= size && at + size <= |s|
    ensures s[at..at + size][..n] == s[at..at + n] && s[at..at + size][n..] == s[at + n..at + size]
  {
  }

  /** What lies in place stays there when only the buffer behind it is written. */
  lemma Placed(before: seq<char>, after: seq<char>, at: nat, n: nat, more: nat, size: nat)
    requires n + more <= size && at + size <= |before| == |after|
    requires SameOutside(after, before, at + n, at + size)
    ensures after[at..at + n + more] == before[at..at + n] + after[at + n..at + n + more]
    ensures SameOutside(after, before, at, at + size)
  {
    SameBefore(after, before, at + n, at + size, at);
    SameOutsideSelf(before, at, at + size);
    SameOutsideTwice(after, before, before, at, at + n, at + size, at + size);
  }

  /** What a call has delivered is the beginning of what there was to deliver, and the rest is still
      to come. */
  lemma Deliver(chunked: bool, m: Mode, all: seq<char>, used: seq<char>, rest: seq<char>, mode: Mode, n: nat)
    requires Split(all, used, [], rest)
    requires var r := Run(chunked, m, used); |r.payload| <= n && (mode == r.mode || rest == [])
    requires |Run(chunked, m, used).payload| < n ==> mode.Done?
    ensures var out := Run(chunked, m, used).payload;
            out == Take(Payload(chunked, m, all), n) &&
            Payload(chunked, m, all) == out + Payload(chunked, mode, rest)
  {
    hide Run;
    assert all == used + rest;
    PayloadAppend(chunked, m, used, rest);
    RunEmpty(chunked, mode);
    RunEmpty(chunked, Run(chunked, m, used).mode);
    RunDone(chunked, rest);
  }

  /** What the scanner holds in a mode. */
  function Held(m: Mode): Register {
    if m.Done? then [] else m.register
  }

  /** Two reads in a row: the second begins in the state the first has left. */
  lemma Continue(chunked: bool, m: Mode, all: seq<char>, used: seq<char>, mid: Mode, rest: seq<char>,
                 used': seq<char>, rest': seq<char>, mode: Mode)
    requires Split(all, used, [], rest) && Split(rest, used', [], rest')
    requires Run(chunked, m, used).mode == mid || (mid.Done? && rest == [])
    requires Run(chunked, mid, used').mode == mode || (mode.Done? && rest' == [])
    ensures Split(all, used + used', [], rest')
    ensures var r := Run(chunked, m, used + used');
            r.payload == Run(chunked, m, used).payload + Run(chunked, mid, used').payload &&
            (r.mode == mode || (mode.Done? && rest' == [])) &&
            (Run(chunked, m, used).mode.Done? && used' == [] ==> r.mode.Done?) &&
            (mid == Run(chunked, m, used).mode ==> r.mode == Run(chunked, mid, used').mode) &&
            (used' == [] ==> r == Run(chunked, m, used))
  {
    hide Run, Payload;
    PayloadParts(chunked, m, used, used');
    RunEmpty(chunked, mid);
    DoneStays(chunked, mid, used');
    assert used + [] == used;
    if rest == [] {
      assert used' == [] && rest' == [];
    }
  }

  /** The same, with the bytes delivered in place one behind the other. */
  lemma ContinuePlaced(chunked: bool, m: Mode, all: seq<char>, used: seq<char>, mid: Mode, rest: seq<char>,
                       used': seq<char>, rest': seq<char>, mode: Mode,
                       before: seq<char>, after: seq<char>, at: nat, n: nat, more: nat, size: nat)
    requires Split(all, used, [], rest) && Split(rest, used', [], rest')
    requires Run(chunked, m, used).mode == mid || (mid.Done? && rest == [])
    requires Run(chunked, mid, used').mode == mode || (mode.Done? && rest' == [])
    requires n + more <= size && at + size <= |before| == |after|
    requires SameOutside(after, before, at + n, at + size)
    requires Run(chunked, m, used).payload == before[at..at + n]
    requires Run(chunked, mid, used').payload == after[at + n..at + n + more]
    ensures Split(all, used + used', [], rest')
    ensures Run(chunked, m, used + used').payload == after[at..at + n + more]
    ensures Run(chunked, m, used + used').mode == mode || (mode.Done? && rest' == [])
    ensures SameOutside(after, before, at, at + size)
  {
    hide Run, Split, SameOutside;
    Continue(chunked, m, all, used, mid, rest, used', rest', mode);
    Placed(before, after, at, n, more, size);
  }

  lemma ContinueHeld(chunked: bool, m: Mode, used: seq<char>, mid: Mode, used': seq<char>, held: Register, held': Register)
    requires Run(chunked, m, used).mode == mid || mid.Done?
    requires chunked && !m.Done? ==> held == Held(Run(chunked, m, used).mode)
    requires held' == if chunked && !mid.Done? then Held(Run(chunked, mid, used').mode) else held
    requires mid.Done? ==> used' == []
    ensures held' == if chunked && !m.Done? then Held(Run(chunked, m, used + used').mode) else held
  {
    hide Run, Held;
    PayloadParts(chunked, m, used, used');
    DoneStays(chunked, m, used);
    assert used + [] == used;
  }

  /** `all` is what has been consumed, then what lies in the buffer, then what is still to be read. */
  ghost predicate Split(all: seq<char>, used: seq<char>, tail: seq<char>, rest: seq<char>) {
    all == used + (tail + rest)
  }

  lemma SplitStart(tail: seq<char>, rest: seq<char>)
    ensures Split(tail + rest, [], tail, rest)
  {
  }

  lemma SplitTwice(all: seq<char>, used: seq<char>, tail0: seq<char>, rest0: seq<char>,
                   eaten: seq<char>, tail: seq<char>, rest: seq<char>)
    requires Split(all, used, tail0, rest0) && Split(tail0 + rest0, eaten, tail, rest)
    ensures Split(all, used + eaten, tail, rest)
  {
  }

  lemma SplitLength(all: seq<char>, used: seq<char>, tail: seq<char>, rest: seq<char>)
    requires Split(all, used, tail, rest)
    ensures |all| == |used| + |tail| + |rest|
  {
  }

  lemma SplitAll(all: seq<char>, used: seq<char>, tail: seq<char>, rest: seq<char>)
    requires Split(all, used, tail, rest)
    ensures Split(all, used + tail, [], rest)
  {
  }

  lemma RunPastEnd(m: Mode, used: seq<char>, tail: seq<char>)
    requires Run(true, m, used).mode.Done?
    ensures Run(true, m, used + tail).mode.Done?
    ensures Run(true, m, used + tail).payload == Run(true, m, used).payload
  {
    RunAppend(true, m, used, tail);
  }

  /** What follows a size line, up to the size, is payload. */
  lemma RunChunkData(m: Mode, used: seq<char>, data: seq<char>, size: nat)
    requires Run(true, m, used) == Decoded(Data(size, []), [], []) && |data| <= size && 0 < size
    ensures Run(true, m, used + data) ==
            Decoded(if |data| < size then Data(size - |data|, []) else Size([]), data, [])
  {
    RunAppend(true, m, used, data);
    RunData(true, size, [], data);
  }

  lemma SplitMove(all: seq<char>, used: seq<char>, eaten: seq<char>, tail: seq<char>, rest: seq<char>)
    requires Split(all, used, eaten + tail, rest)
    ensures Split(all, used + eaten, tail, rest)
  {
  }

  lemma SplitRefill(all: seq<char>, used: seq<char>, got: seq<char>, rest: seq<char>)
    requires Split(all, used, [], got + rest)
    ensures Split(all, used, got, rest)
  {
    assert [] + (got + rest) == got + rest;
  }

  lemma OpenedUnknown(s: Register)
    ensures Opened(-1, s) == Size(s)
  {
  }

  lemma PayloadParts(chunked: bool, m: Mode, a: seq<char>, b: seq<char>)
    ensures var mid := Run(chunked, m, a).mode;
            Run(chunked, m, a + b).payload == Run(chunked, m, a).payload + Run(chunked, mid, b).payload &&
            Run(chunked, m, a + b).mode == Run(chunked, mid, b).mode &&
            (b == [] ==> Run(chunked, m, a + b) == Run(chunked, m, a))
  {
    PayloadAppend(chunked, m, a, b);
    assert a + [] == a;
  }

  lemma DoneStays(chunked: bool, m: Mode, used: seq<char>)
    ensures m.Done? ==> Run(chunked, m, used).mode.Done?
  {
  }

  lemma SplitNothing(all: seq<char>)
    ensures Split(all, [], [], all)
  {
  }

  lemma SplitOne(all: seq<char>, used: seq<char>, rest: seq<char>)
    requires all == used + rest
    ensures Split(all, used, [], rest)
  {
  }

  lemma RunScanByte(m: Mode, used: seq<char>, s: Register, c: char)
    requires Run(true, m, used) == Decoded(Size(s), [], [])
    ensures Run(true, m, used + [c]) == Decoded(Opened(ScanValue(s, c), ScanNext(s, c)), [], [])
  {
    RunAppend(true, m, used, [c]);
    assert [c][1..] == [];
  }
}
