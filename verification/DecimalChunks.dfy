/** `sendChunkedData` in FileServer/FileSession.cpp writes chunk sizes in decimal, while a reader takes them as
    hexadecimal.  This module proves exactly which files survive that. */
module DecimalChunks {
  import opened Bytes
  import opened Chunked

  // ---------------------------------------------------------------- files shorter than ten bytes

  lemma {:induction false} SmallSizesAgree(payload: seq<byte>)
    requires |payload| < 10
    ensures DecChunk(payload) == HexChunk(payload)
  {
  }

  lemma {:induction false} SmallFile(file: seq<byte>)
    requires |file| < 10
    ensures Decode(DecStream(Blocks(file)), 0) == Some(file)
  {
    hide Decode;
    FileRoundTrip(file);
    if file != [] {
      SmallSizesAgree(file);
      hide DecChunk, HexChunk;
      assert Blocks(file) == [file];
      assert DecStream([file]) == DecChunk(file) + DecStream([]);
      assert HexStream([file]) == HexChunk(file) + HexStream([]);
    }
  }

  // ---------------------------------------------------------------- what a successful read implies

  lemma {:induction false} SuccessfulChunk(input: seq<byte>, e: nat, m: nat)
    requires input != [] && e == LineEnd(input, 0) && Strtoul(input[0..e]) == Some(m) && 0 < m < ULONG_MAX
    requires Decode(input, 0).Some?
    ensures e + m + 2 <= |input| && At(input, e + m, CRLF) && Decode(input, e + m + 2).Some?
    ensures Decode(input, 0).value == input[e..e + m] + Decode(input, e + m + 2).value
  {
    hide Strtoul, LineEnd, Trailer;
    var q := e + m;
    assert input[q..LineEnd(input, q)] == CRLF;
    assert |input[q..LineEnd(input, q)]| == LineEnd(input, q) - q == 2;
  }

  lemma {:induction false} FrontOf(body: seq<byte>, a: seq<byte>, b: seq<byte>)
    requires body == a + b
    ensures |a| <= |body| && body[..|a|] == a
  {
  }

  /** A successful read starts with as many bytes as the size line says, then a CRLF, then another successful read. */
  lemma {:induction false} FirstRead(input: seq<byte>, h: seq<byte>, m: nat)
    requires h != [] && AllHex(h) && At(input, 0, h + CRLF) && Strtoul(h + CRLF) == Some(m) && 0 < m < ULONG_MAX
    requires Decode(input, 0).Some?
    ensures var e, body := |h| + 2, Decode(input, 0).value;
            && e + m + 2 <= |input| && m <= |body| && body[..m] == input[e..e + m]
            && At(input, e + m, CRLF) && Decode(input, e + m + 2).Some?
  {
    hide Strtoul, LineEnd, Decode, AllHex, At;
    DecodeSize(input, 0, h);
    var e := |h| + 2;
    SuccessfulChunk(input, e, m);
    FrontOf(Decode(input, 0).value, input[e..e + m], Decode(input, e + m + 2).value);
  }

  /** An empty line is no size line. */
  lemma {:induction false} EmptySizeLine(input: seq<byte>, pos: nat)
    requires At(input, pos, CRLF)
    ensures Decode(input, pos) == None
  {
    AtIndex(input, pos, CRLF, 0);
    AtIndex(input, pos, CRLF, 1);
    assert LineEnd(input, pos + 1) == pos + 2;
    assert LineEnd(input, pos) == pos + 2;
    BlankLine();
  }

  lemma {:induction false} BlankLine()
    ensures Strtoul(CRLF) == None
  {
    assert SkipSpace(CRLF, 2) == 2;
    assert SkipSpace(CRLF, 1) == 2;
  }

  // ---------------------------------------------------------------- the layout of the stream

  lemma {:induction false} AtShift(a: seq<byte>, b: seq<byte>, i: nat, part: seq<byte>)
    requires At(b, i, part)
    ensures At(a + b, |a| + i, part)
  {
    assert (a + b)[|a| + i..|a| + i + |part|] == b[i..i + |part|];
  }

  const SIZE_LINE: seq<byte> := [52, 48, 57, 54, 13, 10]

  lemma {:induction false} FullSize()
    ensures Dec(4096) == [52, 48, 57, 54] && Dec(4096) + CRLF == SIZE_LINE && AsHex(4096) == 16534
  {
    assert Dec(4) == [52];
    assert Dec(40) == [52, 48];
    assert Dec(409) == [52, 48, 57];
    assert AsHex(4) == 4 && AsHex(40) == 64 && AsHex(409) == 1033;
  }

  /** Block `k` of the file. */
  function Block(file: seq<byte>, k: nat): seq<byte>
    requires 4096 * k <= |file|
  {
    file[4096 * k..if 4096 * (k + 1) <= |file| then 4096 * (k + 1) else |file|]
  }

  lemma {:induction false} BlocksParts(file: seq<byte>)
    requires file != []
    ensures DecStream(Blocks(file))
         == DecChunk(Block(file, 0)) + (if |file| <= 4096 then LAST else DecStream(Blocks(file[4096..])))
  {
    hide DecChunk;
    assert Block(file, 0) == if |file| <= 4096 then file else file[..4096];
    if |file| <= 4096 {
      assert Blocks(file) == [file];
      assert DecStream([file]) == DecChunk(file) + DecStream([]);
    } else {
      var rest := Blocks(file[4096..]);
      assert Blocks(file) == [file[..4096]] + rest;
      assert ([file[..4096]] + rest)[1..] == rest;
    }
  }

  lemma {:induction false} FullChunkLength(payload: seq<byte>)
    requires |payload| == 4096
    ensures DecChunk(payload) == SIZE_LINE + payload + CRLF && |DecChunk(payload)| == 4104
  {
    FullSize();
  }

  lemma {:induction false} ChunkAt(file: seq<byte>, k: nat)
    requires 4096 * k < |file|
    ensures At(DecStream(Blocks(file)), 4104 * k, DecChunk(Block(file, k)))
    decreases k
  {
    hide Blocks, DecStream, At, DecChunk, Block;
    BlocksParts(file);
    var first := DecChunk(Block(file, 0));
    if k == 0 {
      var rest := if |file| <= 4096 then LAST else DecStream(Blocks(file[4096..]));
      AtMiddle([], first, rest);
      assert [] + first + rest == first + rest;
    } else {
      var tail := file[4096..];
      ChunkAt(tail, k - 1);
      BlockOfTail(file, k);
      FirstBlockLength(file);
      FullChunkLength(Block(file, 0));
      AtShift(first, DecStream(Blocks(tail)), 4104 * (k - 1), DecChunk(Block(file, k)));
    }
  }

  lemma {:induction false} FirstBlockLength(file: seq<byte>)
    ensures |file| >= 4096 ==> |Block(file, 0)| == 4096
  {
  }

  lemma {:induction false} BlockOfTail(file: seq<byte>, k: nat)
    requires k > 0 && 4096 * k < |file|
    ensures Block(file[4096..], k - 1) == Block(file, k)
  {
    DropSlice(file, 4096, 4096 * (k - 1), if 4096 * (k + 1) <= |file| then 4096 * k else |file| - 4096);
  }

  /** The bytes of a full chunk. */
  lemma {:induction false} FullChunkAt(file: seq<byte>, k: nat, o: nat)
    requires 4096 * (k + 1) <= |file| && o < 4104
    ensures var s := DecStream(Blocks(file));
            4104 * k + o < |s| && s[4104 * k + o]
              == if o < 6 then SIZE_LINE[o] else if o < 4102 then file[4096 * k + o - 6] else CRLF[o - 4102]
  {
    ChunkAt(file, k);
    FullChunkLength(Block(file, k));
    hide DecStream, Blocks, At, DecChunk;
    var c := DecChunk(Block(file, k));
    AtIndex(DecStream(Blocks(file)), 4104 * k, c, o);
  }

  // ---------------------------------------------------------------- a file that would be read back unchanged

  /** The first 16534 bytes of the file are what follows the first size line in the stream. */
  ghost predicate Echoes(file: seq<byte>) {
    && |file| >= 16534 && |DecStream(Blocks(file))| >= 16540
    && forall q :: 0 <= q < 16534 ==> file[q] == DecStream(Blocks(file))[q + 6]
  }

  /** The fifth size line has three or four digits. */
  lemma {:induction false} FifthSize(n: nat)
    requires 150 <= n <= 4096
    ensures |Dec(n)| == (if n < 1000 then 3 else 4) && 48 <= Dec(n)[0] <= 57
  {
    var a, b := n / 10, n / 100;
    assert a / 10 == b;
    if n < 1000 {
      assert |Dec(b)| == 1 && |Dec(a)| == 2;
      assert Dec(a)[0] == Dec(b)[0];
    } else {
      assert |Dec(b / 10)| == 1 && |Dec(b)| == 2 && |Dec(a)| == 3;
      assert Dec(b)[0] == Dec(b / 10)[0];
      assert Dec(a)[0] == Dec(b)[0];
    }
  }

  /** The bytes of the fifth chunk behind its size line. */
  lemma {:induction false} FifthChunkAt(file: seq<byte>, u: nat)
    requires |file| >= 16534 && u < 150
    ensures var n := |Block(file, 4)|;
            150 <= n <= 4096
            && var l, s := |Dec(n)|, DecStream(Blocks(file));
               && (l == 3 || l == 4) && 16416 + l + 2 + 150 <= |s|
               && s[16416 + l + 2 + u] == file[16384 + u]
               && 48 <= s[16416] <= 57
  {
    var b := Block(file, 4);
    var n := |b|;
    FifthSize(n);
    ChunkAt(file, 4);
    hide DecStream, Blocks, At, Dec;
    var s, c := DecStream(Blocks(file)), DecChunk(b);
    AtInside(s, 16416, c);
    AtIndex(s, 16416, c, 0);
    AtIndex(s, 16416, c, |Dec(n)| + 2 + u);
    assert c[|Dec(n)| + 2 + u] == b[u];
  }

  /** In the fifth block such a file repeats itself after the length of the fifth size line and 28 more bytes. */
  lemma {:induction false} Hop(file: seq<byte>, l: nat, t: nat)
    requires Echoes(file) && l == |Dec(|Block(file, 4)|)| && l + 28 <= t < 150
    ensures file[16384 + t] == file[16384 + t - l - 28]
  {
    hide DecStream, Blocks, Dec;
    var s := DecStream(Blocks(file));
    FifthChunkAt(file, t - l - 28);
    assert file[16384 + t] == s[16384 + t + 6];
  }

  lemma {:induction false} ThreeHops(file: seq<byte>, l: nat, t: nat)
    requires Echoes(file) && l == |Dec(|Block(file, 4)|)| && 3 * (l + 28) <= t < 150
    ensures file[16384 + t] == file[16384 + t - 3 * (l + 28)]
  {
    hide Echoes, Dec;
    Hop(file, l, t);
    Hop(file, l, t - l - 28);
    Hop(file, l, t - 2 * (l + 28));
  }

  /** What stands where the reader expects the end of its first chunk: with three digits a digit, with four an empty
      line too many. */
  lemma {:induction false} BehindFirstRead(file: seq<byte>)
    requires Echoes(file)
    ensures var s := DecStream(Blocks(file));
            |s| >= 16544 && (48 <= s[16540] <= 57 || (s[16542] == 13 && s[16543] == 10))
  {
    hide DecStream, Blocks, Dec;
    var s := DecStream(Blocks(file));
    var l := |Dec(|Block(file, 4)|)|;
    FifthChunkAt(file, 119);
    if l == 3 {
      ThreeHops(file, l, 119);
      assert file[16384 + 26] == s[16384 + 26 + 6];
    } else {
      FifthChunkAt(file, 120);
      FifthChunkAt(file, 121);
      ThreeHops(file, l, 120);
      ThreeHops(file, l, 121);
      assert file[16384 + 24] == s[16384 + 24 + 6] && file[16384 + 25] == s[16384 + 25 + 6];
      FullChunkAt(file, 3, 4102);
      FullChunkAt(file, 3, 4103);
    }
  }

  // ---------------------------------------------------------------- the exact result

  lemma {:induction false} FirstSizeLine(file: seq<byte>)
    requires file != []
    ensures var n := if |file| <= 4096 then |file| else 4096;
            At(DecStream(Blocks(file)), 0, Dec(n) + CRLF) && AsHex(n) < ULONG_MAX
  {
    var b := Block(file, 0);
    ChunkAt(file, 0);
    AsHexBound(|b|);
    hide DecStream, Blocks, At, Dec, AsHex;
    AtSplit(DecStream(Blocks(file)), 0, Dec(|b|) + CRLF, b + CRLF);
    assert DecChunk(b) == Dec(|b|) + CRLF + (b + CRLF);
  }

  lemma {:induction false} AsHexBound(n: nat)
    requires n <= 4096
    ensures AsHex(n) < ULONG_MAX
  {
    var a, b, c := n / 10, n / 100, n / 1000;
    assert a / 10 == b && b / 10 == c;
    assert AsHex(c) == c && AsHex(b) <= 16 * 9 + 9;
  }

  /** What a file that is read back has in common with the stream, `n` being the length of its first block. */
  lemma {:induction false} FirstBlockRead(file: seq<byte>, n: nat)
    requires file != [] && n == (if |file| <= 4096 then |file| else 4096)
    requires Decode(DecStream(Blocks(file)), 0) == Some(file) && AsHex(n) > 0
    ensures var s, e, m := DecStream(Blocks(file)), |Dec(n)| + 2, AsHex(n);
            && e + m + 2 <= |s| && m <= |file| && file[..m] == s[e..e + m]
            && At(s, e + m, CRLF) && Decode(s, e + m + 2).Some?
  {
    hide DecStream, Blocks, Decode, Dec, AsHex, AllHex, Strtoul, At;
    FirstSizeLine(file);
    DecSizeReads(n);
    DecIsHex(n);
    HexNotEmpty(n);
    FirstRead(DecStream(Blocks(file)), Dec(n), AsHex(n));
  }

  /** A file that is read back is at least as long as its first size line reads, and repeats the stream. */
  lemma {:induction false} ReadBack(file: seq<byte>)
    requires |file| >= 10 && Decode(DecStream(Blocks(file)), 0) == Some(file)
    ensures var s := DecStream(Blocks(file));
            Echoes(file) && At(s, 16540, CRLF) && |s| >= 16542 && Decode(s, 16542).Some?
  {
    hide DecStream, Blocks, Decode, Dec, AsHex, At, Echoes;
    var n := if |file| <= 4096 then |file| else 4096;
    AsHexGrows(n);
    FirstBlockRead(file, n);
    assert n == 4096;
    FullSize();
    FirstEcho(file);
  }

  /** A file of ten bytes or more is never read back. */
  lemma {:induction false} LongFile(file: seq<byte>)
    requires |file| >= 10
    ensures Decode(DecStream(Blocks(file)), 0) != Some(file)
  {
    hide DecStream, Blocks, Decode, At, Echoes;
    var s := DecStream(Blocks(file));
    if Decode(s, 0) == Some(file) {
      ReadBack(file);
      BehindFirstRead(file);
      AtIndex(s, 16540, CRLF, 0);
      TwoBytes(s, 16542);
      EmptySizeLine(s, 16542);
      assert false;
    }
  }

  lemma {:induction false} TwoBytes(s: seq<byte>, i: nat)
    requires i + 2 <= |s| && s[i] == 13 && s[i + 1] == 10
    ensures At(s, i, CRLF)
  {
  }

  lemma {:induction false} FirstEcho(file: seq<byte>)
    requires |file| >= 16534
    requires var s := DecStream(Blocks(file)); |s| >= 16540 && file[..16534] == s[6..16540]
    ensures Echoes(file)
  {
    hide DecStream, Blocks;
    var s := DecStream(Blocks(file));
    forall q | 0 <= q < 16534
      ensures file[q] == s[q + 6]
    {
      assert file[..16534][q] == s[6..16540][q];
    }
  }

  /** With decimal sizes the file is read back exactly when it is shorter than ten bytes. */
  lemma {:induction false} DecimalRoundTripExactly(file: seq<byte>)
    ensures Decode(DecStream(Blocks(file)), 0) == Some(file) <==> |file| < 10
  {
    hide *;
    if |file| < 10 {
      SmallFile(file);
    } else {
      LongFile(file);
    }
  }
}
