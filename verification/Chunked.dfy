/** Chunked transfer coding: the writer and the reader of FileServer/httplib.h, and the framing loops of
    `streamMedia_ts` and `sendChunkedData` in FileServer/FileSession.cpp. */
module Chunked {
  import opened Bytes
  import opened PercentCoding

  const CRLF: seq<byte> := [13, 10]
  const ULONG_MAX := 0xffff_ffff_ffff_ffff
  const HEADER_MAX_LENGTH := 8192

  // ---------------------------------------------------------------- numbers

  function LowerHexDigit(d: nat): byte
    requires d < 16
  {
    if d < 10 then 48 + d else 87 + d
  }

  /** `from_i_to_hex`, and `std::hex` output. */
  function Hex(n: nat): seq<byte> {
    if n < 16 then [LowerHexDigit(n)] else Hex(n / 16) + [LowerHexDigit(n % 16)]
  }

  /** `std::to_string`. */
  function Dec(n: nat): seq<byte> {
    if n < 10 then [48 + n] else Dec(n / 10) + [48 + n % 10]
  }

  method FromIToHex(n: nat) returns (ret: seq<byte>)
    ensures ret == Hex(n)
  {
    ret := [LowerHexDigit(n % 16)];
    var k := n / 16;
    while k > 0
      invariant 0 <= k && Hex(n) == if k == 0 then ret else Hex(k) + ret
    {
      ret := [LowerHexDigit(k % 16)] + ret;
      k := k / 16;
    }
  }

  predicate IsSpace(c: byte) {
    c == 32 || 9 <= c <= 13
  }

  function SkipSpace(line: seq<byte>, i: nat): (j: nat)
    requires i <= |line|
    ensures i <= j <= |line|
    decreases |line| - i
  {
    if i < |line| && IsSpace(line[i]) then SkipSpace(line, i + 1) else i
  }

  predicate IsHexAt(line: seq<byte>, i: nat) {
    i < |line| && HexValue(line[i]).Some?
  }

  /** The value of the hexadecimal digits from `i` on, continuing from `acc`. */
  function Digits(line: seq<byte>, i: nat, acc: nat): nat
    decreases |line| - i
  {
    if IsHexAt(line, i) then Digits(line, i + 1, 16 * acc + HexValue(line[i]).value) else acc
  }

  /** `strtoul(line, &end, 16)`: blanks, a sign, an optional 0x, digits; `None` when there are none. */
  function Strtoul(line: seq<byte>): Option<nat> {
    var i := SkipSpace(line, 0);
    var negative := i < |line| && line[i] == 45;
    var j := if i < |line| && (line[i] == 45 || line[i] == 43) then i + 1 else i;
    var prefixed := j + 1 < |line| && line[j] == 48 && (line[j + 1] == 120 || line[j + 1] == 88) && IsHexAt(line, j + 2);
    var k := if prefixed then j + 2 else j;
    if !IsHexAt(line, k) then None
    else
      var v := Digits(line, k, 0);
      Some(if v > ULONG_MAX then ULONG_MAX else if negative && v > 0 then ULONG_MAX + 1 - v else v)
  }

  // ---------------------------------------------------------------- the reader

  /** Where the line that starts at `pos` ends: behind the first newline, or at the end of input. */
  function LineEnd(input: seq<byte>, pos: nat): (e: nat)
    requires pos <= |input|
    ensures pos <= e <= |input| && (pos < |input| ==> pos < e)
    decreases |input| - pos
  {
    if pos == |input| then pos else if input[pos] == 10 then pos + 1 else LineEnd(input, pos + 1)
  }

  /** The trailer lines up to an empty one. */
  predicate Trailer(input: seq<byte>, pos: nat)
    requires pos <= |input|
    decreases |input| - pos
  {
    pos < |input| &&
    var e := LineEnd(input, pos);
    input[pos..e] == CRLF || (e - pos <= HEADER_MAX_LENGTH && Trailer(input, e))
  }

  /** What `read_content_chunked` delivers, or `None` when it returns false. */
  function Decode(input: seq<byte>, pos: nat): Option<seq<byte>>
    requires pos <= |input|
    decreases |input| - pos
  {
    if pos == |input| then None
    else
      var e := LineEnd(input, pos);
      var size := Strtoul(input[pos..e]);
      if size.None? || size.value == ULONG_MAX then None
      else if size.value == 0 then (if Trailer(input, e) then Some([]) else None)
      else if e + size.value >= |input| then None
      else
        var q := e + size.value;
        var e2 := LineEnd(input, q);
        if input[q..e2] != CRLF then None
        else
          var rest := Decode(input, e2);
          if rest.None? then None else Some(input[e..q] + rest.value)
  }

  // ---------------------------------------------------------------- the writers

  function HexChunk(payload: seq<byte>): seq<byte> {
    Hex(|payload|) + CRLF + payload + CRLF
  }

  function DecChunk(payload: seq<byte>): seq<byte> {
    Dec(|payload|) + CRLF + payload + CRLF
  }

  const LAST: seq<byte> := [48, 13, 10, 13, 10]

  /** Chunks with hexadecimal sizes and the last chunk; an empty piece emits nothing. */
  function HexStream(pieces: seq<seq<byte>>): seq<byte> {
    if pieces == [] then LAST
    else (if pieces[0] == [] then [] else HexChunk(pieces[0])) + HexStream(pieces[1..])
  }

  /** `sendChunkedData`. */
  function DecStream(pieces: seq<seq<byte>>): seq<byte> {
    if pieces == [] then LAST else DecChunk(pieces[0]) + DecStream(pieces[1..])
  }

  const BUFFER_SIZE := 4096

  /** The blocks a read loop gets from a file. */
  function Blocks(file: seq<byte>): seq<seq<byte>>
    decreases |file|
  {
    if file == [] then [] else if |file| <= 4096 then [file] else [file[..4096]] + Blocks(file[4096..])
  }

  // ---------------------------------------------------------------- reading back a size line

  lemma {:induction false} HexNotEmpty(n: nat)
    ensures Hex(n) != [] && Dec(n) != []
  {
  }

  /** Reading the digits of `n` leaves the value `n` and stands behind them. */
  lemma {:induction false} HexReads(s: seq<byte>, i: nat, n: nat)
    requires At(s, i, Hex(n))
    ensures Digits(s, i, 0) == Digits(s, i + |Hex(n)|, n)
    decreases n
  {
    hide At;
    if n < 16 {
      AtIndex(s, i, Hex(n), 0);
      assert IsHexAt(s, i);
    } else {
      var p, d := Hex(n / 16), LowerHexDigit(n % 16);
      AtSplit(s, i, p, [d]);
      HexReads(s, i, n / 16);
      AtIndex(s, i + |p|, [d], 0);
      assert IsHexAt(s, i + |p|);
    }
  }

  /** The value of decimal digits read as hexadecimal ones. */
  function AsHex(n: nat): nat {
    if n < 10 then n else 16 * AsHex(n / 10) + n % 10
  }

  lemma {:induction false} DecReads(s: seq<byte>, i: nat, n: nat)
    requires At(s, i, Dec(n))
    ensures Digits(s, i, 0) == Digits(s, i + |Dec(n)|, AsHex(n))
    decreases n
  {
    hide At;
    if n < 10 {
      AtIndex(s, i, Dec(n), 0);
      assert IsHexAt(s, i);
    } else {
      var p, d := Dec(n / 10), 48 + n % 10;
      AtSplit(s, i, p, [d]);
      DecReads(s, i, n / 10);
      AtIndex(s, i + |p|, [d], 0);
      assert IsHexAt(s, i + |p|);
    }
  }

  lemma {:induction false} AsHexGrows(n: nat)
    ensures n < 10 ==> AsHex(n) == n
    ensures n >= 10 ==> AsHex(n) >= n + 6
  {
    if n >= 10 {
      AsHexGrows(n / 10);
    }
  }

  predicate AllHex(h: seq<byte>) {
    forall i :: 0 <= i < |h| ==> HexValue(h[i]).Some?
  }

  lemma {:induction false} HexIsHex(n: nat)
    ensures AllHex(Hex(n))
  {
    if n >= 16 {
      HexIsHex(n / 16);
    }
  }

  lemma {:induction false} DecIsHex(n: nat)
    ensures AllHex(Dec(n))
  {
    if n >= 10 {
      DecIsHex(n / 10);
    }
  }

  /** On a line of digits `strtoul` takes none of its detours. */
  lemma {:induction false} StrtoulOfDigits(h: seq<byte>)
    requires h != [] && AllHex(h)
    ensures var v := Digits(h + CRLF, 0, 0);
            Strtoul(h + CRLF) == Some(if v > ULONG_MAX then ULONG_MAX else v)
  {
    hide Digits;
    var line := h + CRLF;
    assert HexValue(line[0]).Some?;
    assert line[1] == 13 || HexValue(line[1]).Some?;
  }

  lemma {:induction false} HexSizeReads(n: nat)
    requires n < ULONG_MAX
    ensures Strtoul(Hex(n) + CRLF) == Some(n)
  {
    var h := Hex(n);
    HexNotEmpty(n);
    HexIsHex(n);
    StrtoulOfDigits(h);
    AtMiddle([], h, CRLF);
    assert [] + h + CRLF == h + CRLF;
    hide Hex, Strtoul, At;
    HexReads(h + CRLF, 0, n);
    assert Digits(h + CRLF, |h|, n) == n;
  }

  lemma {:induction false} DecSizeReads(n: nat)
    requires AsHex(n) < ULONG_MAX
    ensures Strtoul(Dec(n) + CRLF) == Some(AsHex(n))
  {
    var h := Dec(n);
    HexNotEmpty(n);
    DecIsHex(n);
    StrtoulOfDigits(h);
    AtMiddle([], h, CRLF);
    assert [] + h + CRLF == h + CRLF;
    hide Dec, Strtoul, At, AsHex;
    DecReads(h + CRLF, 0, n);
    assert Digits(h + CRLF, |h|, AsHex(n)) == AsHex(n);
  }

  /** A line of digits ends behind its CRLF. */
  lemma {:induction false} LineEndBehind(input: seq<byte>, pos: nat, h: seq<byte>)
    requires AllHex(h) && At(input, pos, h) && At(input, pos + |h|, CRLF)
    ensures LineEnd(input, pos) == pos + |h| + 2
    decreases |h|
  {
    if h == [] {
      AtIndex(input, pos, CRLF, 0);
      AtIndex(input, pos, CRLF, 1);
    } else {
      AtIndex(input, pos, h, 0);
      assert [h[0]] + h[1..] == h;
      AtSplit(input, pos, [h[0]], h[1..]);
      LineEndBehind(input, pos + 1, h[1..]);
    }
  }

  // ---------------------------------------------------------------- the round trip

  /** The reader at a size line of digits. */
  lemma {:induction false} DecodeSize(input: seq<byte>, pos: nat, h: seq<byte>)
    requires h != [] && AllHex(h) && At(input, pos, h + CRLF)
    ensures pos + |h| + 2 <= |input|
    ensures LineEnd(input, pos) == pos + |h| + 2 && input[pos..pos + |h| + 2] == h + CRLF
  {
    AtSplit(input, pos, h, CRLF);
    LineEndBehind(input, pos, h);
  }

  /** One chunk, given what the size line reads as. */
  lemma {:induction false} DecodeChunk(input: seq<byte>, pos: nat, h: seq<byte>, payload: seq<byte>)
    requires h != [] && AllHex(h) && Strtoul(h + CRLF) == Some(|payload|) && 0 < |payload| < ULONG_MAX
    requires At(input, pos, h + CRLF + payload + CRLF)
    ensures var next := pos + |h| + 4 + |payload|;
            next <= |input| && Decode(input, pos) ==
              var tail := Decode(input, next);
              if tail.None? then None else Some(payload + tail.value)
  {
    var e := pos + |h| + 2;
    var q := e + |payload|;
    AtSplit(input, pos, h + CRLF + payload, CRLF);
    AtSplit(input, pos, h + CRLF, payload);
    DecodeSize(input, pos, h);
    LineEndBehind(input, q, []);
    hide Strtoul, AllHex, LineEnd, Trailer;
    assert input[e..q] == payload && input[q..q + 2] == CRLF;
  }

  lemma {:induction false} DecodeLast(input: seq<byte>, pos: nat)
    requires At(input, pos, LAST)
    ensures Decode(input, pos) == Some([])
  {
    assert LAST == [48] + CRLF + CRLF;
    AtSplit(input, pos, [48] + CRLF, CRLF);
    assert Hex(0) == [48];
    HexSizeReads(0);
    DecodeSize(input, pos, [48]);
    LineEndBehind(input, pos + 3, []);
    hide Strtoul;
    assert Trailer(input, pos + 3);
  }

  lemma {:induction false} DecodeHexChunk(input: seq<byte>, pos: nat, payload: seq<byte>)
    requires 0 < |payload| < ULONG_MAX && At(input, pos, HexChunk(payload))
    ensures var next := pos + |HexChunk(payload)|;
            next <= |input| && Decode(input, pos) ==
              var tail := Decode(input, next);
              if tail.None? then None else Some(payload + tail.value)
  {
    hide Decode, Hex, Strtoul, AllHex, At;
    HexSizeReads(|payload|);
    HexIsHex(|payload|);
    HexNotEmpty(|payload|);
    DecodeChunk(input, pos, Hex(|payload|), payload);
  }

  lemma {:induction false} HexStreamParts(pieces: seq<seq<byte>>)
    ensures pieces == [] ==> HexStream(pieces) == LAST && Concat(pieces) == []
    ensures pieces != [] && pieces[0] == [] ==>
      HexStream(pieces) == HexStream(pieces[1..]) && Concat(pieces) == Concat(pieces[1..])
    ensures pieces != [] && pieces[0] != [] ==>
      HexStream(pieces) == HexChunk(pieces[0]) + HexStream(pieces[1..])
      && Concat(pieces) == pieces[0] + Concat(pieces[1..])
  {
    hide HexChunk;
    if pieces != [] && pieces[0] == [] {
      assert [] + HexStream(pieces[1..]) == HexStream(pieces[1..]);
      assert [] + Concat(pieces[1..]) == Concat(pieces[1..]);
    }
  }

  lemma {:induction false} DecodeHexStream(input: seq<byte>, pos: nat, pieces: seq<seq<byte>>)
    requires At(input, pos, HexStream(pieces))
    requires forall i :: 0 <= i < |pieces| ==> |pieces[i]| < ULONG_MAX
    ensures pos <= |input| && Decode(input, pos) == Some(Concat(pieces))
    decreases |pieces|
  {
    hide *;
    AtInside(input, pos, HexStream(pieces));
    HexStreamParts(pieces);
    if pieces == [] {
      DecodeLast(input, pos);
    } else {
      var payload, more := pieces[0], HexStream(pieces[1..]);
      if payload != [] {
        AtSplit(input, pos, HexChunk(payload), more);
        DecodeHexChunk(input, pos, payload);
        DecodeHexStream(input, pos + |HexChunk(payload)|, pieces[1..]);
      } else {
        DecodeHexStream(input, pos, pieces[1..]);
      }
    }
  }

  /** Reading what the chunked writer emits gives the original bytes, for any chunking and whatever follows. */
  lemma {:induction false} HexRoundTrip(pieces: seq<seq<byte>>, rest: seq<byte>)
    requires forall i :: 0 <= i < |pieces| ==> |pieces[i]| < ULONG_MAX
    ensures Decode(HexStream(pieces) + rest, 0) == Some(Concat(pieces))
  {
    hide HexStream, Decode, Concat;
    AtMiddle([], HexStream(pieces), rest);
    assert [] + HexStream(pieces) + rest == HexStream(pieces) + rest;
    DecodeHexStream(HexStream(pieces) + rest, 0, pieces);
  }

  lemma {:induction false} BlocksJoin(file: seq<byte>)
    ensures Concat(Blocks(file)) == file
    ensures forall i :: 0 <= i < |Blocks(file)| ==> 0 < |Blocks(file)[i]| <= 4096
    decreases |file|
  {
    if |file| > 4096 {
      BlocksJoin(file[4096..]);
    }
  }

  /** The body `streamMedia_ts` sends decodes to the file. */
  lemma {:induction false} FileRoundTrip(file: seq<byte>)
    ensures Decode(HexStream(Blocks(file)), 0) == Some(file)
  {
    BlocksJoin(file);
    HexRoundTrip(Blocks(file), []);
    assert HexStream(Blocks(file)) + [] == HexStream(Blocks(file));
  }

  // ---------------------------------------------------------------- the loops

  /** A stream that delivers its bytes in pieces of any size. */
  class Stream {
    const data: seq<byte>
    var pos: nat

    ghost predicate Valid()
      reads this
    {
      pos <= |data|
    }

    constructor (bytes: seq<byte>)
      ensures Valid() && data == bytes && pos == 0
    {
      data, pos := bytes, 0;
    }

    /** At least one byte unless the input is exhausted, at most `n`. */
    method Read(n: nat) returns (bytes: seq<byte>)
      requires Valid() && n > 0
      modifies this
      ensures Valid() && old(pos) + |bytes| == pos && bytes == data[old(pos)..pos]
      ensures |bytes| <= n && (|bytes| == 0 <==> old(pos) == |data|)
    {
      if pos == |data| {
        return [];
      }
      var k :| 1 <= k <= n && pos + k <= |data|;
      bytes := data[pos..pos + k];
      pos := pos + k;
    }
  }

  /** `stream_line_reader`: a small fixed buffer first, a growing one when it is full. */
  class LineReader {
    const size: nat
    var fixedBuffer: seq<byte>
    var growing: seq<byte>

    ghost predicate Valid()
      reads this
    {
      size >= 2 && |fixedBuffer| < size && (growing != [] ==> |fixedBuffer| == size - 1)
    }

    function Line(): seq<byte>
      reads this
    {
      if growing == [] then fixedBuffer else growing
    }

    constructor (fixedBufferSize: nat)
      requires fixedBufferSize >= 2
      ensures Valid() && Line() == []
    {
      size, fixedBuffer, growing := fixedBufferSize, [], [];
    }

    method Clear()
      requires Valid()
      modifies this
      ensures Valid() && Line() == []
    {
      fixedBuffer, growing := [], [];
    }

    method Append(c: byte)
      requires Valid()
      modifies this
      ensures Valid() && Line() == old(Line()) + [c]
    {
      if |fixedBuffer| < size - 1 {
        fixedBuffer := fixedBuffer + [c];
      } else {
        if growing == [] {
          growing := fixedBuffer;
        }
        growing := growing + [c];
      }
    }

    /** `getline`: up to and with the next newline, or to the end of input; false if there is none left. */
    method GetLine(strm: Stream) returns (ok: bool)
      requires Valid() && strm.Valid()
      modifies this, strm
      ensures Valid() && strm.Valid()
      ensures ok <==> old(strm.pos) < |strm.data|
      ensures ok ==> strm.pos == LineEnd(strm.data, old(strm.pos)) && Line() == strm.data[old(strm.pos)..strm.pos]
    {
      Clear();
      ghost var start, goal := strm.pos, LineEnd(strm.data, strm.pos);
      var i := 0;
      while true
        invariant Valid() && strm.Valid() && strm.pos == start + i
        invariant LineEnd(strm.data, strm.pos) == goal
        invariant Line() == strm.data[start..strm.pos]
        decreases |strm.data| - strm.pos
      {
        ghost var here := strm.pos;
        var bytes := strm.Read(1);
        if |bytes| == 0 {
          return i != 0;
        }
        Append(bytes[0]);
        assert bytes[0] == strm.data[here];
        if bytes[0] == 10 {
          return true;
        }
        i := i + 1;
      }
    }
  }

  /** `read_content_with_length`: exactly `len` bytes, however they arrive. */
  method ReadContentWithLength(strm: Stream, len: nat) returns (ok: bool, body: seq<byte>)
    requires strm.Valid()
    modifies strm
    ensures strm.Valid()
    ensures ok <==> old(strm.pos) + len <= |strm.data|
    ensures ok ==> strm.pos == old(strm.pos) + len && body == strm.data[old(strm.pos)..strm.pos]
  {
    body := [];
    while |body| < len
      invariant strm.Valid() && |body| <= len && strm.pos == old(strm.pos) + |body|
      invariant body == strm.data[old(strm.pos)..strm.pos]
    {
      var bytes := strm.Read(len - |body|);
      if |bytes| == 0 {
        return false, [];
      }
      body := body + bytes;
    }
    return true, body;
  }

  /** `read_content_chunked` without the trailer fields it collects. */
  method ReadContentChunked(strm: Stream) returns (body: Option<seq<byte>>)
    requires strm.Valid()
    modifies strm
    ensures body == Decode(strm.data, old(strm.pos))
  {
    hide Decode, Strtoul, LineEnd, Trailer;
    var reader := new LineReader(16);
    var content: seq<byte> := [];
    ghost var input, here := strm.data, strm.pos;
    var ok := reader.GetLine(strm);
    if !ok {
      DecodeNothing(input);
      return None;
    }
    ThenParts([], [], Decode(input, here));
    while true
      invariant reader.Valid() && strm.Valid() && fresh(reader) && strm.data == input
      invariant here < |input| && strm.pos == LineEnd(input, here) && reader.Line() == input[here..strm.pos]
      invariant Decode(input, old(strm.pos)) == Then(content, Decode(input, here))
      decreases |input| - here
    {
      var size := Strtoul(reader.Line());
      DecodeParts(input, here);
      if size.None? || size.value == ULONG_MAX {
        return None;
      }
      if size.value == 0 {
        break;
      }
      var data;
      ok, data := ReadContentWithLength(strm, size.value);
      if !ok {
        return None;
      }
      ok := reader.GetLine(strm);
      if !ok || reader.Line() != CRLF {
        return None;
      }
      ThenParts(content, data, Decode(input, strm.pos));
      content := content + data;
      here := strm.pos;
      ok := reader.GetLine(strm);
      if !ok {
        DecodeNothing(input);
        return None;
      }
    }
    ghost var e := strm.pos;
    ok := ReadTrailer(strm, reader);
    assert content + [] == content;
    return if ok then Some(content) else None;
  }

  /** What has been read so far, followed by the outcome of the rest. */
  function Then(content: seq<byte>, rest: Option<seq<byte>>): Option<seq<byte>> {
    if rest.None? then None else Some(content + rest.value)
  }

  lemma {:induction false} ThenParts(a: seq<byte>, b: seq<byte>, rest: Option<seq<byte>>)
    ensures Then([], rest) == rest && Then(a, Then(b, rest)) == Then(a + b, rest)
  {
    if rest.Some? {
      assert [] + rest.value == rest.value;
      assert a + (b + rest.value) == a + b + rest.value;
    }
  }

  lemma {:induction false} DecodeNothing(input: seq<byte>)
    ensures Decode(input, |input|) == None
  {
  }

  lemma {:induction false} DecodeParts(input: seq<byte>, pos: nat)
    requires pos < |input|
    ensures var e := LineEnd(input, pos);
            var size := Strtoul(input[pos..e]);
            Decode(input, pos) ==
              if size.None? || size.value == ULONG_MAX then None
              else if size.value == 0 then (if Trailer(input, e) then Some([]) else None)
              else if e + size.value >= |input| then None
              else
                var q := e + size.value;
                if input[q..LineEnd(input, q)] != CRLF then None
                else Then(input[e..q], Decode(input, LineEnd(input, q)))
  {
    hide Strtoul, LineEnd, Trailer;
  }

  /** Lines up to an empty one. */
  method ReadTrailer(strm: Stream, reader: LineReader) returns (ok: bool)
    requires strm.Valid() && reader.Valid()
    modifies strm, reader
    ensures ok <==> Trailer(strm.data, old(strm.pos))
  {
    hide LineEnd;
    ghost var here := strm.pos;
    ok := reader.GetLine(strm);
    if !ok {
      return false;
    }
    while reader.Line() != CRLF
      invariant reader.Valid() && strm.Valid()
      invariant here < |strm.data| && strm.pos == LineEnd(strm.data, here) && reader.Line() == strm.data[here..strm.pos]
      invariant Trailer(strm.data, old(strm.pos)) == Trailer(strm.data, here)
      decreases |strm.data| - here
    {
      if |reader.Line()| > HEADER_MAX_LENGTH {
        return false;
      }
      here := strm.pos;
      ok := reader.GetLine(strm);
      if !ok {
        return false;
      }
    }
    return true;
  }

  method WriteChunk(payload: seq<byte>) returns (chunk: seq<byte>)
    ensures chunk == HexChunk(payload)
  {
    var size := FromIToHex(|payload|);
    chunk := size + CRLF + payload + CRLF;
  }

  /** The loop of `streamMedia_ts`: a block while the read got anything. */
  method StreamMediaTs(file: seq<byte>) returns (sent: seq<byte>)
    ensures sent == HexStream(Blocks(file))
  {
    hide HexChunk, DecChunk, DecStream;
    sent := [];
    var rest := file;
    while rest != []
      invariant sent + HexStream(Blocks(rest)) == HexStream(Blocks(file))
      decreases |rest|
    {
      var count := if |rest| < BUFFER_SIZE then |rest| else BUFFER_SIZE;
      FrontBlock(rest);
      var chunk := WriteChunk(rest[..count]);
      assert sent + (chunk + HexStream(Blocks(rest[count..]))) == sent + chunk + HexStream(Blocks(rest[count..]));
      sent := sent + chunk;
      rest := rest[count..];
    }
    sent := sent + LAST;
  }

  /** The loop of `sendChunkedData`: full blocks first, then what is left. */
  method SendChunkedData(file: seq<byte>) returns (sent: seq<byte>)
    ensures sent == DecStream(Blocks(file))
  {
    hide HexChunk, DecChunk, HexStream;
    sent := [];
    var rest := file;
    while |rest| >= BUFFER_SIZE
      invariant sent + DecStream(Blocks(rest)) == DecStream(Blocks(file))
    {
      FrontBlock(rest);
      var chunk := DecChunk(rest[..BUFFER_SIZE]);
      assert sent + (chunk + DecStream(Blocks(rest[4096..]))) == sent + chunk + DecStream(Blocks(rest[4096..]));
      sent := sent + chunk;
      rest := rest[BUFFER_SIZE..];
    }
    if rest != [] {
      FrontBlock(rest);
      assert rest[..|rest|] == rest && rest[|rest|..] == [];
      assert sent + (DecChunk(rest) + DecStream([])) == sent + DecChunk(rest) + DecStream([]);
      sent := sent + DecChunk(rest);
    }
    sent := sent + LAST;
  }

  lemma {:induction false} FrontBlock(rest: seq<byte>)
    requires rest != []
    ensures var n := if |rest| < 4096 then |rest| else 4096;
            && DecStream(Blocks(rest)) == DecChunk(rest[..n]) + DecStream(Blocks(rest[n..]))
            && HexStream(Blocks(rest)) == HexChunk(rest[..n]) + HexStream(Blocks(rest[n..]))
  {
    hide DecChunk, HexChunk;
    var n := if |rest| < 4096 then |rest| else 4096;
    var blocks, more := Blocks(rest), Blocks(rest[n..]);
    if |rest| <= 4096 {
      assert rest[..n] == rest && rest[n..] == [] && more == [];
      assert blocks == [rest];
    } else {
      assert blocks == [rest[..n]] + more;
    }
    assert blocks[0] == rest[..n] && blocks[1..] == more;
  }
}

/** What the number formats, the blocks and the trailer of chunked coding are, in independent terms. */
module ChunkedReference {
  import opened Bytes
  import opened Chunked

  // ---------------------------------------------------------------- numbers

  /** The place of a digit in the given alphabet. */
  predicate IsDigit(c: byte, alphabet: string, d: nat) {
    d < |alphabet| && c == alphabet[d] as int
  }

  /** The number is written with these digits, most significant first. */
  predicate Writes(text: seq<byte>, alphabet: string, n: nat) {
    text != [] && alphabet != []
    && IsDigit(text[|text| - 1], alphabet, n % |alphabet|)
    && (if |text| == 1 then n < |alphabet| else Writes(text[..|text| - 1], alphabet, n / |alphabet|))
  }

  const HEXADECIMAL := "0123456789abcdef"
  const DECIMAL := "0123456789"

  /** Lower-case hexadecimal without leading zeros. */
  lemma {:induction false} HexIs(n: nat)
    ensures Writes(Hex(n), HEXADECIMAL, n) && (n > 0 ==> Hex(n)[0] != '0' as int)
  {
    var d := n % 16;
    assert IsDigit(LowerHexDigit(d), HEXADECIMAL, d);
    if n >= 16 {
      HexIs(n / 16);
      assert Hex(n)[..|Hex(n)| - 1] == Hex(n / 16);
    }
  }

  /** Decimal without leading zeros. */
  lemma {:induction false} DecIs(n: nat)
    ensures Writes(Dec(n), DECIMAL, n) && (n > 0 ==> Dec(n)[0] != '0' as int)
  {
    var d := n % 10;
    assert IsDigit(48 + d, DECIMAL, d);
    if n >= 10 {
      DecIs(n / 10);
      assert Dec(n)[..|Dec(n)| - 1] == Dec(n / 10);
    }
  }

  // ---------------------------------------------------------------- blocks

  /** Every block but the last has 4096 bytes, and the last is not empty. */
  lemma {:induction false} BlocksAreFull(file: seq<byte>)
    ensures |Blocks(file)| == (|file| + 4095) / 4096
    ensures forall i :: 0 <= i < |Blocks(file)| ==>
      Blocks(file)[i] == file[4096 * i..if 4096 * (i + 1) <= |file| then 4096 * (i + 1) else |file|]
    decreases |file|
  {
    if |file| > 4096 {
      var rest := file[4096..];
      BlocksAreFull(rest);
      assert (|file| + 4095) / 4096 == 1 + (|rest| + 4095) / 4096;
      forall i | 0 < i < |Blocks(file)|
        ensures Blocks(file)[i] == file[4096 * i..if 4096 * (i + 1) <= |file| then 4096 * (i + 1) else |file|]
      {
        var hi := if 4096 * i <= |rest| then 4096 * i else |rest|;
        assert Blocks(file)[i] == Blocks(rest)[i - 1] == rest[4096 * (i - 1)..hi];
        DropSlice(file, 4096, 4096 * (i - 1), hi);
      }
    }
  }

  // ---------------------------------------------------------------- trailers

  /** A line with its newline, other than the empty one. */
  predicate IsLine(line: seq<byte>) {
    line != [] && line[|line| - 1] == 10 && 10 !in line[..|line| - 1] && line != [13, 10]
  }

  lemma {:induction false} LineEndAt(input: seq<byte>, pos: nat, line: seq<byte>)
    requires At(input, pos, line) && line != [] && line[|line| - 1] == 10 && 10 !in line[..|line| - 1]
    ensures pos + |line| <= |input| && LineEnd(input, pos) == pos + |line|
    decreases |line|
  {
    AtIndex(input, pos, line, 0);
    if |line| > 1 {
      assert line[0] == line[..|line| - 1][0];
      assert [line[0]] + line[1..] == line;
      AtSplit(input, pos, [line[0]], line[1..]);
      assert line[1..][..|line| - 2] == line[..|line| - 1][1..];
      LineEndAt(input, pos + 1, line[1..]);
    }
  }

  /** The reader gets past trailer lines and the empty line behind them exactly if none is longer than 8192 bytes. */
  lemma {:induction false} TrailerExactly(input: seq<byte>, pos: nat, lines: seq<seq<byte>>)
    requires forall i :: 0 <= i < |lines| ==> IsLine(lines[i])
    requires At(input, pos, Concat(lines) + [13, 10])
    ensures pos <= |input|
    ensures Trailer(input, pos) <==> forall i :: 0 <= i < |lines| ==> |lines[i]| <= 8192
    decreases |lines|
  {
    if lines == [] {
      assert Concat(lines) + [13, 10] == [13, 10];
      LineEndAt(input, pos, [13, 10]);
    } else {
      var line, rest := lines[0], Concat(lines[1..]) + [13, 10];
      assert Concat(lines) + [13, 10] == line + rest;
      AtSplit(input, pos, line, rest);
      assert IsLine(line);
      LineEndAt(input, pos, line);
      TrailerExactly(input, pos + |line|, lines[1..]);
      assert input[pos..pos + |line|] == line != CRLF;
      assert forall i :: 0 < i < |lines| ==> lines[i] == lines[1..][i - 1];
      assert forall i :: 0 <= i < |lines| - 1 ==> lines[1..][i] == lines[i + 1];
    }
  }

  /** Hence a last chunk with any trailer ends the body, unless one of its lines is too long. */
  lemma {:induction false} LastChunkWithTrailer(lines: seq<seq<byte>>, rest: seq<byte>)
    requires forall i :: 0 <= i < |lines| ==> IsLine(lines[i])
    ensures Decode([48, 13, 10] + (Concat(lines) + [13, 10]) + rest, 0)
         == if forall i :: 0 <= i < |lines| ==> |lines[i]| <= 8192 then Some([]) else None
  {
    var size, tail := [48, 13, 10], Concat(lines) + [13, 10];
    var input := size + tail + rest;
    hide Decode, Trailer, Concat, IsLine, At;
    AtMiddle(size, tail, rest);
    TrailerExactly(input, 3, lines);
    AtMiddle([], size, tail + rest);
    assert [] + size + (tail + rest) == input;
    LastChunk(input);
  }

  /** Behind the last chunk's size the trailer decides. */
  lemma {:induction false} LastChunk(input: seq<byte>)
    requires At(input, 0, [48, 13, 10])
    ensures 3 <= |input| && Decode(input, 0) == if Trailer(input, 3) then Some([]) else None
  {
    assert input[0..3] == [48, 13, 10] == [48] + CRLF;
    assert 10 !in [48, 13, 10][..2];
    LineEndAt(input, 0, [48, 13, 10]);
    hide Strtoul, Decode, Trailer, LineEnd;
    ZeroReads();
    DecodeParts(input, 0);
  }

  lemma {:induction false} ZeroReads()
    ensures Strtoul([48] + CRLF) == Some(0)
  {
    assert Hex(0) == [48];
    HexSizeReads(0);
  }

  // ---------------------------------------------------------------- size lines that are not plain digits

  /** Blanks, a sign, 0x, capitals and chunk extensions, as `strtoul` reads them. */
  lemma {:induction false} SizeLines()
    ensures Strtoul([32, 9, 43, 48, 120, 49, 102, 59, 97]) == Some(0x1f)
    ensures Strtoul([49, 70, 13, 10]) == Some(0x1f)
    ensures Strtoul([45, 49, 13, 10]) == Some(0xffff_ffff_ffff_ffff)
    ensures Strtoul([48, 120, 13, 10]) == Some(0)
    ensures Strtoul([13, 10]) == None && Strtoul([103]) == None && Strtoul([]) == None
  {
    var s := [32, 9, 43, 48, 120, 49, 102, 59, 97];
    assert SkipSpace(s, 0) == SkipSpace(s, 1) == SkipSpace(s, 2) == 2;
    assert Digits(s, 5, 0) == Digits(s, 6, 1) == Digits(s, 7, 0x1f) == 0x1f;
    var t := [49, 70, 13, 10];
    assert Digits(t, 0, 0) == Digits(t, 1, 1) == Digits(t, 2, 0x1f) == 0x1f;
    var u := [45, 49, 13, 10];
    assert Digits(u, 1, 0) == Digits(u, 2, 1) == 1;
    var v := [48, 120, 13, 10];
    assert Digits(v, 0, 0) == Digits(v, 1, 0) == 0;
    var w := [13, 10];
    assert SkipSpace(w, 0) == SkipSpace(w, 1) == SkipSpace(w, 2) == 2;
  }

  /** A size that `strtoul` saturates at is refused whatever follows. */
  lemma {:induction false} SaturatedSizeFails(input: seq<byte>, pos: nat)
    requires pos < |input| && Strtoul(input[pos..LineEnd(input, pos)]) == Some(0xffff_ffff_ffff_ffff)
    ensures Decode(input, pos) == None
  {
    hide Strtoul, LineEnd, Trailer;
  }
}
