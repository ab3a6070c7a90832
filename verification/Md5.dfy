/** The streaming digest of FileServer/MD5.cpp (`reset`, `update`, `final`, `digest`). */
module Md5 {
  import opened Bytes
  import opened Md5Transform

  /** Truncation to `uint32` and to 64 bits. */
  function Mod32(x: int): int {
    x % 0x1_0000_0000
  }

  function Mod64(x: int): int {
    x % 0x1_0000_0000_0000_0000
  }

  /** The value of the two-word counter. */
  function Bits(count0: int, count1: int): int {
    count0 + 0x1_0000_0000 * count1
  }

  const INITIAL := Words(0x67452301, 0xefcdab89, 0x98badcfe, 0x10325476)

  // ---------------------------------------------------------------- one-shot MD5, RFC 1321 sections 3.1 to 3.5

  /** The chaining results hold for any compression function; the code's is `Transform`. */
  type Compression = (Words, seq<byte>) -> Words

  /** Fold the compression function over whole blocks. */
  function Fold(f: Compression, s: Words, data: seq<byte>): Words
    requires |data| % 64 == 0
    decreases |data|
  {
    if data == [] then s else Fold(f, f(s, data[..64]), data[64..])
  }

  function Zeros(n: nat): seq<byte> {
    seq(n, _ => 0)
  }

  /** The low-order word first, each word low-order byte first. */
  function Length64(bits: int): (r: seq<byte>)
    ensures |r| == 8
  {
    EncodeWord(Mod32(bits)) + EncodeWord(Mod32(bits / 0x1_0000_0000))
  }

  /** A one bit, zeros up to 56 modulo 64 bytes, the length in bits modulo 2^64. */
  function Padding(n: nat): seq<byte> {
    [0x80] + Zeros((55 - n) % 64) + Length64(Mod64(8 * n))
  }

  lemma {:induction false} PaddingLength(n: nat)
    ensures (n + |Padding(n)|) % 64 == 0
  {
    hide Length64, Mod64;
    assert |Padding(n)| == 9 + (55 - n) % 64;
  }

  function OneShot(f: Compression, message: seq<byte>): seq<byte> {
    PaddingLength(|message|);
    Encode(Fold(f, INITIAL, message + Padding(|message|)))
  }

  // ---------------------------------------------------------------- whole blocks and tails

  function Whole(data: seq<byte>): (w: seq<byte>)
    ensures |w| % 64 == 0
  {
    data[..|data| - |data| % 64]
  }

  function Rest(data: seq<byte>): seq<byte> {
    data[|data| - |data| % 64..]
  }

  lemma {:induction false} FoldAppend(f: Compression, s: Words, x: seq<byte>, y: seq<byte>)
    requires |x| % 64 == 0 && |y| % 64 == 0
    ensures |x + y| % 64 == 0 && Fold(f, s, x + y) == Fold(f, Fold(f, s, x), y)
    decreases |x|
  {
    if x == [] {
      assert x + y == y;
    } else {
      assert (x + y)[..64] == x[..64] && (x + y)[64..] == x[64..] + y;
      FoldAppend(f, f(s, x[..64]), x[64..], y);
    }
  }

  lemma {:induction false} FoldBlock(f: Compression, s: Words, x: seq<byte>, block: seq<byte>)
    requires |x| % 64 == 0 && |block| == 64
    ensures |x + block| % 64 == 0 && Fold(f, s, x + block) == f(Fold(f, s, x), block)
  {
    FoldAppend(f, s, x, block);
    assert block[..64] == block && block[64..] == [];
  }

  /** Absorbing `y` after `x` continues from the blocks and the tail of `x`. */
  lemma {:induction false} Continue(f: Compression, s: Words, x: seq<byte>, y: seq<byte>)
    ensures Fold(f, Fold(f, s, Whole(x)), Whole(Rest(x) + y)) == Fold(f, s, Whole(x + y))
    ensures Rest(Rest(x) + y) == Rest(x + y)
  {
    hide Fold;
    var w, t := Whole(x), Rest(x) + y;
    assert x + y == w + t;
    SameRemainder(|w|, |t|);
    CutBehind(w, t, |t| - |t| % 64);
    FoldAppend(f, s, w, Whole(t));
  }

  lemma {:induction false} SameRemainder(w: nat, t: nat)
    requires w % 64 == 0
    ensures (w + t) % 64 == t % 64
  {
    var q := w / 64;
    assert w == 64 * q;
    SixtyFours(q, t);
  }

  lemma {:induction false} SixtyFours(q: nat, t: nat)
    ensures (64 * q + t) % 64 == t % 64
  {
    if q > 0 {
      SixtyFours(q - 1, t);
      assert (64 * (q - 1) + t + 64) % 64 == (64 * (q - 1) + t) % 64;
    }
  }

  lemma {:induction false} CutBehind(w: seq<byte>, t: seq<byte>, m: nat)
    requires m <= |t|
    ensures (w + t)[..|w| + m] == w + t[..m] && (w + t)[|w| + m..] == t[m..]
  {
  }

  // ---------------------------------------------------------------- when the loop of update ends

  /** `update` of `n` bytes with `index` bytes buffered gets out of its loop, whose index is `uint32`.  Every `n` below
      2^32 - 63 does, and none from 2^32 on. */
  predicate Ends(index: nat, n: nat) {
    index + n < 64 || n - (index + n) % 64 + 63 < 0x1_0000_0000
  }

  lemma {:induction false} ShortEnds(index: nat, n: nat)
    ensures n + 63 < 0x1_0000_0000 ==> Ends(index, n)
    ensures n >= 0x1_0000_0000 ==> !Ends(index, n)
  {
  }

  /** Otherwise the loop's condition holds at every turn `k`. */
  lemma {:induction false} LoopNeverEnds(index: nat, n: nat, k: nat)
    requires index < 64 && !Ends(index, n)
    ensures Mod32(Mod32(64 - index + 64 * k) + 63) < n
  {
    var i := Mod32(64 - index + 64 * k);
    var v := Mod32(i + 63);
    WrapKeepsPhase(64 - index + 64 * k);
    WrapKeepsPhase(i + 63);
    SixtyFours(k, 64 - index);
    hide Mod32;
    Phase(index, i, v);
    if v >= n {
      NextInPhase(index, n, v);
    }
  }

  lemma {:induction false} Phase(index: nat, i: nat, v: nat)
    requires index < 64 && i % 64 == (64 - index) % 64 && v % 64 == (i + 63) % 64
    ensures (v + index) % 64 == 63
  {
    assert (i + index) % 64 == 0;
    assert (i + 63 + index) % 64 == 63;
  }

  lemma {:induction false} WrapKeepsPhase(x: nat)
    ensures Mod32(x) % 64 == x % 64 && 0 <= Mod32(x) < 0x1_0000_0000
  {
    assert x == Mod32(x) + 64 * (0x400_0000 * (x / 0x1_0000_0000));
  }

  /** The first number from `n` on at which a turn can end. */
  lemma {:induction false} NextInPhase(index: nat, n: nat, v: nat)
    requires index < 64 && v >= n && (v + index) % 64 == 63
    ensures n - (index + n) % 64 + 63 <= v
  {
    var q, r := (v + index) / 64, (index + n) % 64;
    assert v + index == 64 * q + 63;
    assert index + n == 64 * ((index + n) / 64) + r;
  }

  // ---------------------------------------------------------------- the buffer after an update

  /** The 64 bytes of `_buffer` after `update` has put `input` behind the first `index` of them. */
  function BufferAfter(buffer: seq<byte>, index: nat, input: seq<byte>): seq<byte>
    requires |buffer| == 64 && index < 64
  {
    if index + |input| < 64 then buffer[..index] + input + buffer[index + |input|..]
    else
      var rest := Rest(buffer[..index] + input);
      rest + (buffer[..index] + input[..64 - index])[|rest|..]
  }

  /** The loop goes on exactly as long as a whole block is left. */
  lemma {:induction false} NextBlock(n: nat, start: nat, i: nat)
    requires start <= i <= n - (n - start) % 64 && (i - start) % 64 == 0
    requires n - (n - start) % 64 + 63 < 0x1_0000_0000
    ensures var stop := n - (n - start) % 64;
            && (Mod32(i + 63) < n <==> i < stop)
            && (i < stop ==> i + 64 <= stop && (i + 64 - start) % 64 == 0)
  {
    var stop := n - (n - start) % 64;
    var a, b := (i - start) / 64, (n - start) / 64;
    assert i == start + 64 * a && stop == start + 64 * b;
    assert Mod32(i + 63) == i + 63;
  }

  /** memcpy into the buffer. */
  method Copy(buffer: array<byte>, at: nat, input: seq<byte>)
    requires at + |input| <= buffer.Length
    modifies buffer
    ensures buffer[..] == old(buffer[..at]) + input + old(buffer[at + |input|..])
  {
    ghost var was := buffer[..];
    var i := 0;
    while i < |input|
      invariant 0 <= i <= |input|
      invariant forall k :: 0 <= k < buffer.Length ==> buffer[k] == if at <= k < at + i then input[k - at] else was[k]
    {
      buffer[at + i] := input[i];
      i := i + 1;
    }
  }

  class MD5 {
    const compress: Compression
    var state: Words
    var count0: int
    var count1: int
    const buffer: array<byte>
    var digest: seq<byte>
    var finished: bool

    ghost predicate Shape()
      reads this
    {
      0 <= count0 < 0x1_0000_0000 && 0 <= count1 < 0x1_0000_0000 && count0 % 8 == 0 && buffer.Length == 64
    }

    /** `_finished` is never left set, because `final` ends with calls of `update`, which clears it. */
    ghost predicate Valid()
      reads this
    {
      Shape() && !finished
    }

    /** The number of bytes so far modulo 2^61. */
    ghost function Total(): nat
      requires Shape()
      reads this
    {
      Bits(count0, count1) / 8
    }

    /** The number of bytes in the buffer. */
    function Index(): (i: nat)
      requires Shape()
      reads this
      ensures i < 64
    {
      count0 / 8 % 64
    }

    ghost function Tail(): seq<byte>
      requires Shape()
      reads this, buffer
    {
      buffer[..Total() % 64]
    }

    /** The object has absorbed exactly `message`: `_count` is its length in bits modulo 2^64, `_state` the fold of its
        whole blocks and `_buffer` holds the unprocessed tail. */
    ghost predicate Absorbed(message: seq<byte>)
      reads this, buffer
    {
      && Valid()
      && Bits(count0, count1) == Mod64(8 * |message|)
      && state == Fold(compress, INITIAL, Whole(message))
      && Tail() == Rest(message)
    }

    constructor (f: Compression)
      ensures Absorbed([]) && fresh(buffer) && compress == f
    {
      compress := f;
      buffer := new byte[64];
      digest := [];
      finished := false;
      count0, count1 := 0, 0;
      state := INITIAL;
    }

    method Reset()
      requires buffer.Length == 64
      modifies this`state, this`count0, this`count1, this`finished
      ensures Absorbed([])
    {
      hide Fold, Whole, Rest, Mod64, Bits;
      finished := false;
      count0, count1 := 0, 0;
      state := INITIAL;
      Nothing(compress);
    }

    /** The two-word bit counter, with the carry the code computes. */
    method AddToCount(n: nat)
      requires Shape() && n < 0x1_0000_0000
      modifies this`count0, this`count1
      ensures Shape()
      ensures Bits(count0, count1) == Mod64(old(Bits(count0, count1)) + 8 * n)
    {
      var add := Mod32(8 * n);
      CarryIsExact(count0, count1, n);
      count0 := Mod32(count0 + add);
      if count0 < add {
        count1 := Mod32(count1 + 1);
      }
      count1 := Mod32(count1 + n / 0x2000_0000);
    }

    /** The loop over the whole blocks of the input from `start` on. */
    method AbsorbBlocks(input: seq<byte>, start: nat) returns (i: nat)
      requires start <= |input| && |input| - (|input| - start) % 64 + 63 < 0x1_0000_0000
      modifies this`state
      ensures i == |input| - (|input| - start) % 64
      ensures state == Fold(compress, old(state), Whole(input[start..]))
    {
      hide Fold, Mod32;
      i := start;
      FoldNone(compress, state);
      assert input[start..start] == [];
      ghost var stop := |input| - (|input| - start) % 64;
      NextBlock(|input|, start, i);
      while Mod32(i + 63) < |input|
        invariant start <= i <= stop && (i - start) % 64 == 0
        invariant Mod32(i + 63) < |input| <==> i < stop
        invariant i < stop ==> i + 64 <= stop && (i + 64 - start) % 64 == 0
        decreases |input| - i
        invariant state == Fold(compress, old(state), input[start..i])
      {
        FoldBlock(compress, old(state), input[start..i], input[i..i + 64]);
        assert input[start..i] + input[i..i + 64] == input[start..i + 64];
        state := compress(state, input[i..i + 64]);
        i := i + 64;
        NextBlock(|input|, start, i);
      }
      assert Whole(input[start..]) == input[start..i];
    }

    /** Complete the buffered block, run through the whole blocks, keep what is left. */
    method FillAndAbsorb(index: nat, input: seq<byte>)
      requires buffer.Length == 64 && index < 64 <= index + |input| && Ends(index, |input|)
      modifies this`state, buffer
      ensures state == Fold(compress, old(state), Whole(old(buffer[..])[..index] + input))
      ensures buffer[..] == BufferAfter(old(buffer[..]), index, input)
    {
      hide Fold, Whole, Rest;
      var partLen := 64 - index;
      ghost var tail := buffer[..][..index];
      Copy(buffer, index, input[..partLen]);
      assert buffer[..] == tail + input[..partLen];
      FirstBlock(compress, state, tail, input);
      state := compress(state, buffer[..]);
      var i := AbsorbBlocks(input, partLen);
      Copy(buffer, 0, input[i..]);
    }

    method UpdateBytes(input: seq<byte>)
      requires Shape() && Ends(Index(), |input|)
      modifies this`state, this`count0, this`count1, this`finished, buffer
      ensures Valid()
      ensures Bits(count0, count1) == Mod64(old(Bits(count0, count1)) + 8 * |input|)
      ensures state == Fold(compress, old(state), Whole(old(Tail()) + input))
      ensures buffer[..] == BufferAfter(old(buffer[..]), old(Total()) % 64, input)
    {
      hide Fold, Whole, Rest, Mod64, Bits;
      finished := false;
      var index := Index();
      IndexOfCount(count0, count1);
      assert old(Tail()) == buffer[..][..index];
      AddToCount(|input|);
      if |input| >= 64 - index {
        hide BufferAfter;
        FillAndAbsorb(index, input);
      } else {
        ShortInput(compress, state, buffer[..][..index], input);
        Copy(buffer, index, input);
      }
    }

    /** The public overload: one more piece of the message. */
    method Update(input: seq<byte>)
      requires Valid() && Ends(Index(), |input|)
      modifies this`state, this`count0, this`count1, this`finished, buffer
      ensures Valid()
      ensures forall message :: old(Absorbed(message)) ==> Absorbed(message + input)
    {
      hide Fold, Whole, Rest, BufferAfter, Mod64, Bits;
      ghost var s, was, bits := state, buffer[..], Bits(count0, count1);
      UpdateBytes(input);
      forall message | old(Absorbed(message))
        ensures Absorbed(message + input)
      {
        AbsorbsInput(s, was, bits, message, input);
      }
    }

    /** What `update` leaves, read as a message: for use with the old values of the fields. */
    lemma {:induction false} AbsorbsInput(s: Words, was: seq<byte>, bits: int, message: seq<byte>, input: seq<byte>)
      requires Valid() && |was| == 64
      requires bits == Mod64(8 * |message|) && s == Fold(compress, INITIAL, Whole(message))
      requires was[..bits / 8 % 64] == Rest(message)
      requires Bits(count0, count1) == Mod64(bits + 8 * |input|)
      requires state == Fold(compress, s, Whole(Rest(message) + input))
      requires buffer[..] == BufferAfter(was, bits / 8 % 64, input)
      ensures Absorbed(message + input)
    {
      hide Fold, Whole, Rest, BufferAfter, Mod64, Bits;
      Continue(compress, INITIAL, message, input);
      CountsMessage(message, input);
      IndexOfMessage(|message|);
      IndexOfMessage(|message + input|);
      BufferTail(was, bits / 8 % 64, input);
    }

    method Final()
      requires Shape()
      modifies this`state, this`count0, this`count1, this`finished, this`digest, buffer
      ensures Valid() && state == old(state) && count0 == old(count0) && count1 == old(count1)
      ensures digest == FinalDigest(compress, old(state), old(Tail()), old(Total()))
      ensures buffer[..] == BufferAfterFinal(old(buffer[..]), old(Total()))
    {
      hide Fold, Whole, Rest, BufferAfter, FinalDigest, Encode, EncodeWord, Length64, Mod64, Bits;
      var oldState, oldCount0, oldCount1 := state, count0, count1;
      ghost var was, total := buffer[..], Total();
      var bits := EncodeWord(count0) + EncodeWord(count1);
      var index := Index();
      IndexOfCount(count0, count1);
      var padLen := if index < 56 then 56 - index else 120 - index;
      WholeBytes(count0, count1);
      CounterWords(count0, count1);
      LengthWords(total * 8);
      FinalPadding(total);
      FinalFold(compress, state, was[..index], total);
      FinalBuffer(was, index, bits);
      BufferTail(was, index, PADDING[..padLen]);
      UpdateBytes(PADDING[..padLen]);
      IndexOfMessage(total + padLen);
      UpdateBytes(bits);
      digest := Encode(state);
      state, count0, count1 := oldState, oldCount0, oldCount1;
    }

    /** The digest of everything absorbed so far.  The object then still stands for that message, so that further
        digests agree and further updates continue it, exactly when the tail fits in front of the length field (or
        happens to equal what overwrites it). */
    method Digest() returns (out: seq<byte>)
      requires Valid()
      modifies this`state, this`count0, this`count1, this`finished, this`digest, buffer
      ensures Valid()
      ensures forall message :: old(Absorbed(message)) ==> out == OneShot(compress, message)
      ensures forall message :: old(Absorbed(message)) ==> (Absorbed(message) <==> SurvivesDigest(message))
    {
      hide Fold, Whole, Rest, FinalDigest, OneShot, Mod64, Bits, BufferAfterFinal, SurvivesDigest;
      ghost var was, total := buffer[..], Total();
      if !finished {
        finished := true;
        Final();
      }
      out := digest;
      forall message | old(Absorbed(message))
        ensures out == OneShot(compress, message) && (Absorbed(message) <==> SurvivesDigest(message))
      {
        IndexOfMessage(|message|);
        DigestOfMessage(compress, message);
        TailAfterFinal(was, message);
      }
    }
  }

  /** What the caller can check before `digest()`: fewer than 56 bytes in the last block, or a last block that already
      consists of zeros and the length. */
  predicate SurvivesDigest(message: seq<byte>) {
    var index := |message| % 64;
    index < 56 || Rest(message) == Zeros(56) + Length64(Mod64(8 * |message|))[..index - 56]
  }

  /** 56 bytes of ones do not survive: the padding of `digest` overwrites them in the buffer. */
  lemma {:induction false} FiftySixBytesAreLost()
    ensures !SurvivesDigest(seq(56, _ => 1))
  {
    hide Length64, Mod64;
    var message: seq<byte> := seq(56, _ => 1);
    assert Rest(message)[0] == 1 && (Zeros(56) + Length64(Mod64(8 * 56))[..0])[0] == 0;
  }

  lemma {:induction false} PaddingOfTotal(n: nat)
    ensures Padding(Mod64(8 * n) / 8) == Padding(n)
    ensures Mod64(8 * (Mod64(8 * n) / 8)) == Mod64(8 * n)
  {
    hide Length64, Mod64;
    var m := TotalOfMessage(n);
    var q := Mod64Parts(8 * n);
    Mod64Of(0, Mod64(8 * n));
    SameZeros(n, m);
  }

  lemma {:induction false} SameZeros(n: int, m: int)
    requires (n - m) % 64 == 0
    ensures (55 - m) % 64 == (55 - n) % 64
  {
    assert 55 - m == 55 - n + 64 * ((n - m) / 64);
  }

  lemma {:induction false} DigestOfMessage(f: Compression, message: seq<byte>)
    ensures |Rest(message)| == Mod64(8 * |message|) / 8 % 64
    ensures FinalDigest(f, Fold(f, INITIAL, Whole(message)), Rest(message), Mod64(8 * |message|) / 8)
         == OneShot(f, message)
  {
    var whole, rest, padding := Whole(message), Rest(message), Padding(|message|);
    hide Fold, Padding, Encode, Mod64;
    assert message == whole + rest && |rest| == |message| % 64;
    hide Whole, Rest;
    IndexOfMessage(|message|);
    PaddingOfTotal(|message|);
    PaddingCompletes(rest, |message|);
    FoldAppend(f, INITIAL, whole, rest + padding);
    assert message + padding == whole + (rest + padding);
  }

  lemma {:induction false} TailAfterFinal(was: seq<byte>, message: seq<byte>)
    requires |was| == 64 && was[..|message| % 64] == Rest(message)
    ensures |BufferAfterFinal(was, Mod64(8 * |message|) / 8)| == 64
    ensures BufferAfterFinal(was, Mod64(8 * |message|) / 8)[..|message| % 64] == Rest(message)
        <==> SurvivesDigest(message)
  {
    var total := Mod64(8 * |message|) / 8;
    var index := |message| % 64;
    hide Mod64, Length64, Rest, Padding;
    IndexOfMessage(|message|);
    PaddingOfTotal(|message|);
    var bits := Length64(Mod64(8 * |message|));
    if index >= 56 {
      assert BufferAfterFinal(was, total)[..index] == Zeros(56) + bits[..index - 56];
    }
  }

  /** Any way of cutting a message into updates gives the one-shot digest of the whole message. */
  method HashChunks(f: Compression, chunks: seq<seq<byte>>) returns (out: seq<byte>)
    requires forall i :: 0 <= i < |chunks| ==> Ends(|Concat(chunks[..i])| % 64, |chunks[i]|)
    ensures out == OneShot(f, Concat(chunks))
  {
    hide OneShot, Ends, Fold, Whole, Rest, Mod64, Bits, SurvivesDigest;
    var md5 := new MD5(f);
    var i := 0;
    assert chunks[..0] == [];
    while i < |chunks|
      invariant 0 <= i <= |chunks| && md5.compress == f && fresh(md5) && fresh(md5.buffer)
      invariant md5.Absorbed(Concat(chunks[..i]))
    {
      IndexOfMessage(|Concat(chunks[..i])|);
      IndexOfCount(md5.count0, md5.count1);
      md5.Update(chunks[i]);
      ConcatPush(chunks[..i], chunks[i]);
      assert chunks[..i + 1] == chunks[..i] + [chunks[i]];
      i := i + 1;
    }
    assert chunks[..i] == chunks;
    out := md5.Digest();
  }

  /** The compression function of the code. */
  const TRANSFORM: Compression := (s, block) => if |block| == 64 then Transform(s, block) else s

  /** The digest the code computes. */
  method Md5OfChunks(chunks: seq<seq<byte>>) returns (out: seq<byte>)
    requires forall i :: 0 <= i < |chunks| ==> Ends(|Concat(chunks[..i])| % 64, |chunks[i]|)
    ensures out == OneShot(TRANSFORM, Concat(chunks))
  {
    out := HashChunks(TRANSFORM, chunks);
  }

  lemma {:induction false} PaddingCompletes(tail: seq<byte>, total: nat)
    requires |tail| == total % 64
    ensures |tail + Padding(total)| % 64 == 0
  {
    hide Padding;
    PaddingLength(total);
    var p := |Padding(total)|;
    assert total + p == 64 * (total / 64) + (total % 64 + p);
  }

  function PadLen(index: nat): nat
    requires index < 64
  {
    if index < 56 then 56 - index else 120 - index
  }

  lemma {:induction false} AllWhole(data: seq<byte>)
    requires |data| % 64 == 0
    ensures Whole(data) == data
  {
  }

  lemma {:induction false} FinalPadding(total: nat)
    ensures PADDING[..PadLen(total % 64)] + Length64(Mod64(8 * total)) == Padding(total)
    ensures (total + PadLen(total % 64)) % 64 == 56 && (total % 64 + PadLen(total % 64)) % 64 == 56
  {
    PadLenIs(total);
    hide Length64, Mod64, PadLen;
    var pad := PADDING[..PadLen(total % 64)];
    assert pad == [0x80] + Zeros(|pad| - 1);
  }

  lemma {:induction false} PadLenIs(total: nat)
    ensures PadLen(total % 64) == 1 + (55 - total) % 64
    ensures (total + PadLen(total % 64)) % 64 == 56 && (total % 64 + PadLen(total % 64)) % 64 == 56
  {
    var q, r := total / 64, total % 64;
    if r < 56 {
      assert 55 - total == 64 * -q + (55 - r) && total + PadLen(r) == 64 * q + 56;
    } else {
      assert 55 - total == 64 * (-q - 1) + (119 - r) && total + PadLen(r) == 64 * (q + 1) + 56;
    }
  }

  /** The block that the two updates of `final` leave in the buffer. */
  lemma {:induction false} FinalBuffer(was: seq<byte>, index: nat, bits: seq<byte>)
    requires |was| == 64 && index < 64 && |bits| == 8
    ensures var mid := BufferAfter(was, index, PADDING[..PadLen(index)]);
            |mid| == 64
            && BufferAfter(mid, 56, bits)
               == (if index < 56 then was[..index] + PADDING[..56 - index] else Zeros(56)) + bits
  {
    var pad := PADDING[..PadLen(index)];
    var mid := BufferAfter(was, index, pad);
    BufferTail(was, index, pad);
    if index < 56 {
      assert mid[..56] == was[..index] + pad;
    } else {
      assert Rest(was[..index] + pad) == pad[64 - index..] == Zeros(56);
    }
    assert Rest(mid[..56] + bits) == [];
  }

  /** The fold that the two updates of `final` compute. */
  lemma {:induction false} FinalFold(f: Compression, s: Words, tail: seq<byte>, total: nat)
    requires |tail| == total % 64
    ensures var pad := PADDING[..PadLen(total % 64)];
            Encode(Fold(f, Fold(f, s, Whole(tail + pad)), Whole(Rest(tail + pad) + Length64(Mod64(8 * total)))))
            == FinalDigest(f, s, tail, total)
  {
    hide Fold, Whole, Rest, Padding, Length64, Encode, Mod64;
    var pad, bits := PADDING[..PadLen(total % 64)], Length64(Mod64(8 * total));
    FinalPadding(total);
    Continue(f, s, tail + pad, bits);
    PaddingCompletes(tail, total);
    assert tail + pad + bits == tail + (pad + bits);
    AllWhole(tail + Padding(total));
  }

  /** The digest of a message of `total` bytes whose whole blocks give `s` and whose last bytes are `tail`. */
  function FinalDigest(f: Compression, s: Words, tail: seq<byte>, total: nat): seq<byte>
    requires |tail| == total % 64
  {
    PaddingCompletes(tail, total);
    Encode(Fold(f, s, tail + Padding(total)))
  }

  lemma {:induction false} WholeBytes(count0: int, count1: int)
    requires 0 <= count0 < 0x1_0000_0000 && 0 <= count1 < 0x1_0000_0000 && count0 % 8 == 0
    ensures Bits(count0, count1) == 8 * (Bits(count0, count1) / 8)
    ensures Mod64(Bits(count0, count1)) == Bits(count0, count1)
  {
    hide Mod64;
    assert Bits(count0, count1) == 8 * (count0 / 8 + 0x2000_0000 * count1);
    Mod64Of(0, Bits(count0, count1));
  }

  /** The two words of the counter. */
  lemma {:induction false} CounterWords(count0: int, count1: int)
    requires 0 <= count0 < 0x1_0000_0000 && 0 <= count1 < 0x1_0000_0000
    ensures Mod32(Bits(count0, count1)) == count0 && Mod32(Bits(count0, count1) / 0x1_0000_0000) == count1
  {
    hide Mod32;
    Mod32Of(count1, count0);
    Mod32Of(0, count1);
  }

  lemma {:induction false} LengthWords(bits: int)
    ensures Length64(bits) == EncodeWord(Mod32(bits)) + EncodeWord(Mod32(bits / 0x1_0000_0000))
  {
    hide EncodeWord, Mod32;
  }

  lemma {:induction false} Mod32Of(q: int, r: int)
    requires 0 <= r < 0x1_0000_0000
    ensures Mod32(0x1_0000_0000 * q + r) == r && (0x1_0000_0000 * q + r) / 0x1_0000_0000 == q
  {
  }

  lemma {:induction false} Mod64Of(q: int, r: int)
    requires 0 <= r < 0x1_0000_0000_0000_0000
    ensures Mod64(0x1_0000_0000_0000_0000 * q + r) == r
  {
  }

  lemma {:induction false} Mod64Parts(x: int) returns (q: int)
    ensures x == 0x1_0000_0000_0000_0000 * q + Mod64(x) && 0 <= Mod64(x) < 0x1_0000_0000_0000_0000
  {
    q := x / 0x1_0000_0000_0000_0000;
  }

  const PADDING: seq<byte> := [0x80] + Zeros(63)

  /** `_buffer` after `final`: the padding and the length fill the last block, and what was there is gone unless the
      padding started behind it in the same block. */
  function BufferAfterFinal(buffer: seq<byte>, total: nat): seq<byte>
    requires |buffer| == 64
  {
    var index := total % 64;
    (if index < 56 then buffer[..index] + PADDING[..56 - index] else Zeros(56)) + Length64(Mod64(8 * total))
  }

  lemma {:induction false} CountsMessage(message: seq<byte>, input: seq<byte>)
    ensures Mod64(Mod64(8 * |message|) + 8 * |input|) == Mod64(8 * |message + input|)
  {
    hide Mod64;
    var q := Mod64Parts(8 * |message|);
    var q' := Mod64Parts(Mod64(8 * |message|) + 8 * |input|);
    Mod64Of(q + q', Mod64(Mod64(8 * |message|) + 8 * |input|));
  }

  lemma {:induction false} TotalOfMessage(n: nat) returns (m: int)
    ensures Mod64(8 * n) == 8 * m && (n - m) % 64 == 0 && m >= 0
  {
    hide Mod64;
    var q := Mod64Parts(8 * n);
    m := n - 64 * (0x80_0000_0000_0000 * q);
  }

  lemma {:induction false} IndexOfMessage(n: nat)
    ensures Mod64(8 * n) / 8 % 64 == n % 64
  {
    hide Mod64;
    var m := TotalOfMessage(n);
  }

  lemma {:induction false} BufferTail(buffer: seq<byte>, index: nat, input: seq<byte>)
    requires |buffer| == 64 && index < 64
    ensures |BufferAfter(buffer, index, input)| == 64
    ensures BufferAfter(buffer, index, input)[..(index + |input|) % 64] == Rest(buffer[..index] + input)
  {
  }

  /** The first block completes the buffered tail; the rest of the input goes block by block. */
  lemma {:induction false} FirstBlock(f: Compression, s: Words, tail: seq<byte>, input: seq<byte>)
    requires |tail| < 64 <= |tail| + |input|
    ensures var partLen := 64 - |tail|;
            Fold(f, s, Whole(tail + input)) == Fold(f, f(s, tail + input[..partLen]), Whole(input[partLen..]))
            && Rest(tail + input) == input[|input| - (|input| - partLen) % 64..]
  {
    hide Fold, Whole, Rest;
    var partLen := 64 - |tail|;
    var block, rest := tail + input[..partLen], input[partLen..];
    var more := Whole(rest);
    assert tail + input == block + rest;
    BlocksInFront(block, rest);
    RestOf(input, partLen);
    FoldAppend(f, s, block, more);
    FoldBlock(f, s, [], block);
    FoldNone(f, s);
    assert [] + block == block;
  }

  lemma {:induction false} BlocksInFront(w: seq<byte>, t: seq<byte>)
    requires |w| % 64 == 0
    ensures Whole(w + t) == w + Whole(t) && Rest(w + t) == Rest(t)
  {
    SameRemainder(|w|, |t|);
    CutBehind(w, t, |t| - |t| % 64);
  }

  lemma {:induction false} RestOf(input: seq<byte>, k: nat)
    requires k <= |input|
    ensures Rest(input[k..]) == input[|input| - (|input| - k) % 64..]
  {
  }

  lemma {:induction false} ShortInput(f: Compression, s: Words, tail: seq<byte>, input: seq<byte>)
    requires |tail| + |input| < 64
    ensures Fold(f, s, Whole(tail + input)) == s && Rest(tail + input) == tail + input
  {
    assert Whole(tail + input) == [];
  }

  lemma {:induction false} Nothing(f: Compression)
    ensures Whole([]) == [] && Rest([]) == [] && Fold(f, INITIAL, []) == INITIAL
    ensures Bits(0, 0) == 0 && Mod64(0) == 0
  {
  }

  lemma {:induction false} FoldNone(f: Compression, s: Words)
    ensures Fold(f, s, []) == s
  {
  }

  lemma {:induction false} IndexOfCount(count0: int, count1: int)
    requires 0 <= count0 < 0x1_0000_0000 && 0 <= count1 && count0 % 8 == 0
    ensures Bits(count0, count1) / 8 % 64 == count0 / 8 % 64
  {
    assert Bits(count0, count1) / 8 == count0 / 8 + 64 * (0x80_0000 * count1);
  }

  /** The two-word counter with its explicit carry is addition modulo 2^64. */
  lemma {:induction false} CarryIsExact(count0: int, count1: int, n: nat)
    requires 0 <= count0 < 0x1_0000_0000 && 0 <= count1 < 0x1_0000_0000 && n < 0x1_0000_0000 && count0 % 8 == 0
    ensures var add := Mod32(8 * n);
            var low := Mod32(count0 + add);
            var mid := if low < add then Mod32(count1 + 1) else count1;
            var high := Mod32(mid + n / 0x2000_0000);
            low % 8 == 0 && Bits(low, high) == Mod64(Bits(count0, count1) + 8 * n)
  {
    hide Mod64;
    var add := Mod32(8 * n);
    var top := n / 0x2000_0000;
    ShiftParts(n);
    var low := Mod32(count0 + add);
    var carry := if low < add then 1 else 0;
    Carry(count0, add);
    hide Mod32;
    ModAdd(count1 + carry, top);
    Mod32Of(0, count1);
    SplitMod(low, count1 + carry + top);
  }

  lemma {:induction false} ShiftParts(n: nat)
    ensures 8 * n == Mod32(8 * n) + 0x1_0000_0000 * (n / 0x2000_0000)
    ensures 0 <= Mod32(8 * n) < 0x1_0000_0000 && Mod32(8 * n) % 8 == 0
  {
  }

  lemma {:induction false} Carry(x: int, y: int)
    requires 0 <= x < 0x1_0000_0000 && 0 <= y < 0x1_0000_0000 && x % 8 == 0 && y % 8 == 0
    ensures x + y == Mod32(x + y) + (if Mod32(x + y) < y then 0x1_0000_0000 else 0)
    ensures 0 <= Mod32(x + y) < 0x1_0000_0000 && Mod32(x + y) % 8 == 0
  {
  }

  lemma {:induction false} ModAdd(x: int, y: int)
    ensures Mod32(Mod32(x) + y) == Mod32(x + y)
  {
    var q := x / 0x1_0000_0000;
    assert x + y == 0x1_0000_0000 * q + (Mod32(x) + y);
  }

  lemma {:induction false} SplitMod(low: int, sum: int)
    requires 0 <= low < 0x1_0000_0000 && 0 <= sum
    ensures Mod64(Bits(low, sum)) == Bits(low, Mod32(sum))
  {
    hide Mod64;
    var q, r := sum / 0x1_0000_0000, Mod32(sum);
    assert sum == 0x1_0000_0000 * q + r && 0 <= r < 0x1_0000_0000;
    hide Mod32;
    Mod64Of(q, Bits(low, r));
  }
}

/** The compression function of FileServer/MD5.cpp (`transform`, `encode`, `decode`). */
module Md5Transform {
  import opened Bytes

  /** The four words of `_state`. */
  datatype Words = Words(a: bv32, b: bv32, c: bv32, d: bv32)

  /** The additive constants of the 64 macro calls, round by round. */
  const ROUND_1: seq<bv32> := [
    0xd76aa478, 0xe8c7b756, 0x242070db, 0xc1bdceee, 0xf57c0faf, 0x4787c62a, 0xa8304613, 0xfd469501,
    0x698098d8, 0x8b44f7af, 0xffff5bb1, 0x895cd7be, 0x6b901122, 0xfd987193, 0xa679438e, 0x49b40821]
  const ROUND_2: seq<bv32> := [
    0xf61e2562, 0xc040b340, 0x265e5a51, 0xe9b6c7aa, 0xd62f105d, 0x02441453, 0xd8a1e681, 0xe7d3fbc8,
    0x21e1cde6, 0xc33707d6, 0xf4d50d87, 0x455a14ed, 0xa9e3e905, 0xfcefa3f8, 0x676f02d9, 0x8d2a4c8a]
  const ROUND_3: seq<bv32> := [
    0xfffa3942, 0x8771f681, 0x6d9d6122, 0xfde5380c, 0xa4beea44, 0x4bdecfa9, 0xf6bb4b60, 0xbebfbc70,
    0x289b7ec6, 0xeaa127fa, 0xd4ef3085, 0x04881d05, 0xd9d4d039, 0xe6db99e5, 0x1fa27cf8, 0xc4ac5665]
  const ROUND_4: seq<bv32> := [
    0xf4292244, 0x432aff97, 0xab9423a7, 0xfc93a039, 0x655b59c3, 0x8f0ccc92, 0xffeff47d, 0x85845dd1,
    0x6fa87e4f, 0xfe2ce6e0, 0xa3014314, 0x4e0811a1, 0xf7537e82, 0xbd3af235, 0x2ad7d2bb, 0xeb86d391]

  function Constant(i: nat): bv32
    requires i < 64
  {
    if i < 16 then ROUND_1[i] else if i < 32 then ROUND_2[i - 16]
    else if i < 48 then ROUND_3[i - 32] else ROUND_4[i - 48]
  }

  /** The message word of macro call `i`. */
  function WordIndex(i: nat): (k: nat)
    ensures k < 16
  {
    if i < 16 then i else if i < 32 then (5 * i + 1) % 16
    else if i < 48 then (3 * i + 5) % 16 else (7 * i) % 16
  }

  /** The rotation of macro call `i`. */
  function Shift(i: nat): (s: bv32)
    requires i < 64
    ensures 0 < s < 32
  {
    var row: seq<bv32> := if i < 16 then [7, 12, 17, 22] else if i < 32 then [5, 9, 14, 20]
               else if i < 48 then [4, 11, 16, 23] else [6, 10, 15, 21];
    row[i % 4]
  }

  function F(x: bv32, y: bv32, z: bv32): bv32 {
    (x & y) | (!x & z)
  }

  function G(x: bv32, y: bv32, z: bv32): bv32 {
    (x & z) | (y & !z)
  }

  function H(x: bv32, y: bv32, z: bv32): bv32 {
    x ^ y ^ z
  }

  function I(x: bv32, y: bv32, z: bv32): bv32 {
    y ^ (x | !z)
  }

  function RotateLeft(x: bv32, n: bv32): bv32
    requires n <= 32
  {
    (x << n) | (x >> (32 - n))
  }

  /** The little-endian word at byte `j`. */
  function DecodeWord(input: seq<byte>, j: nat): (w: int)
    requires j + 4 <= |input|
    ensures 0 <= w < 0x1_0000_0000
  {
    input[j] as int + 0x100 * input[j + 1] as int + 0x1_0000 * input[j + 2] as int + 0x100_0000 * input[j + 3] as int
  }

  function EncodeWord(w: int): (r: seq<byte>)
    ensures |r| == 4
  {
    [w % 0x100, w / 0x100 % 0x100, w / 0x1_0000 % 0x100, w / 0x100_0000 % 0x100]
  }

  lemma {:induction false} WordRoundTrip(w: int, prefix: seq<byte>, suffix: seq<byte>)
    requires 0 <= w < 0x1_0000_0000
    ensures DecodeWord(prefix + EncodeWord(w) + suffix, |prefix|) == w
  {
    WordBytes(w);
    hide EncodeWord;
    var input := prefix + EncodeWord(w) + suffix;
    assert forall i :: 0 <= i < 4 ==> input[|prefix| + i] == EncodeWord(w)[i];
  }

  lemma {:induction false} WordBytes(w: int)
    requires 0 <= w < 0x1_0000_0000
    ensures DecodeWord(EncodeWord(w), 0) == w
  {
    var x, y, z := w / 0x100, w / 0x1_0000, w / 0x100_0000;
    assert y == x / 0x100 && z == y / 0x100 && z == z % 0x100;
  }

  function Encode(s: Words): seq<byte> {
    EncodeWord(s.a as int) + EncodeWord(s.b as int) + EncodeWord(s.c as int) + EncodeWord(s.d as int)
  }

  /** Distinct states have distinct digests: `decode` recovers all four words. */
  lemma {:induction false} EncodeRoundTrip(s: Words)
    ensures |Encode(s)| == 16
    ensures DecodeWord(Encode(s), 0) == s.a as int && DecodeWord(Encode(s), 4) == s.b as int
    ensures DecodeWord(Encode(s), 8) == s.c as int && DecodeWord(Encode(s), 12) == s.d as int
  {
    hide DecodeWord;
    var a, b, c, d := EncodeWord(s.a as int), EncodeWord(s.b as int), EncodeWord(s.c as int), EncodeWord(s.d as int);
    WordRoundTrip(s.a as int, [], b + c + d);
    WordRoundTrip(s.b as int, a, c + d);
    WordRoundTrip(s.c as int, a + b, d);
    WordRoundTrip(s.d as int, a + b + c, []);
    hide EncodeWord;
    assert Encode(s) == [] + a + (b + c + d);
    assert Encode(s) == a + b + (c + d);
    assert Encode(s) == a + b + c + d + [];
  }

  // ---------------------------------------------------------------- the operations, numbered from 0 to 63

  /** What the four macros have in common: add, rotate, add. */
  function Mix(a: bv32, b: bv32, f: bv32, x: bv32, s: bv32, ac: bv32): bv32
    requires s <= 32
  {
    RotateLeft(a + (f + x + ac), s) + b
  }

  /** Operation `i` of section 3.4 of RFC 1321 on the register `a`. */
  function Operation(i: nat, a: bv32, b: bv32, c: bv32, d: bv32, block: seq<byte>): bv32
    requires i < 64 && |block| == 64
  {
    var f := if i < 16 then F(b, c, d) else if i < 32 then G(b, c, d) else if i < 48 then H(b, c, d) else I(b, c, d);
    Mix(a, b, f, DecodeWord(block, 4 * WordIndex(i)) as bv32, Shift(i), Constant(i))
  }

  /** One operation; the registers are then renamed so that the next one finds its operands in place. */
  function Step(i: nat, r: Words, block: seq<byte>): Words
    requires i < 64 && |block| == 64
  {
    Words(r.d, Operation(i, r.a, r.b, r.c, r.d, block), r.b, r.c)
  }

  /** `n` operations from the `i`-th on. */
  function Run(i: nat, n: nat, r: Words, block: seq<byte>): Words
    requires i + n <= 64 && |block| == 64
    decreases n
  {
    if n == 0 then r else Run(i + 1, n - 1, Step(i, r, block), block)
  }

  function Sum(s: Words, r: Words): Words {
    Words(s.a + r.a, s.b + r.b, s.c + r.c, s.d + r.d)
  }

  function Transform(s: Words, block: seq<byte>): Words
    requires |block| == 64
  {
    Sum(s, Run(0, 64, s, block))
  }

  lemma {:induction false} RunSplit(i: nat, m: nat, n: nat, r: Words, block: seq<byte>)
    requires i + m + n <= 64 && |block| == 64
    ensures Run(i, m + n, r, block) == Run(i + m, n, Run(i, m, r, block), block)
    decreases m
  {
    hide Step;
    if m > 0 {
      RunSplit(i + 1, m - 1, n, Step(i, r, block), block);
    }
  }

  /** Four operations bring the registers back to their names: each is the one the code assigns in its turn. */
  lemma {:induction false} Quad(i: nat, r: Words, block: seq<byte>)
    requires i + 4 <= 64 && |block| == 64
    ensures var a := Operation(i, r.a, r.b, r.c, r.d, block);
            var d := Operation(i + 1, r.d, a, r.b, r.c, block);
            var c := Operation(i + 2, r.c, d, a, r.b, block);
            var b := Operation(i + 3, r.b, c, d, a, block);
            Run(i, 4, r, block) == Words(a, b, c, d)
  {
    hide Operation;
    var r1 := Step(i, r, block);
    var r2 := Step(i + 1, r1, block);
    var r3 := Step(i + 2, r2, block);
    var r4 := Step(i + 3, r3, block);
    assert Run(i, 4, r, block) == Run(i + 1, 3, r1, block) == Run(i + 2, 2, r2, block) == Run(i + 3, 1, r3, block)
        == Run(i + 4, 0, r4, block) == r4;
  }

  /** Sixteen operations in groups of four. */
  lemma {:induction false} RunQuads(i: nat, r: Words, block: seq<byte>)
    requires i + 16 <= 64 && |block| == 64
    ensures var r1 := Run(i, 4, r, block);
            var r2 := Run(i + 4, 4, r1, block);
            var r3 := Run(i + 8, 4, r2, block);
            Run(i, 16, r, block) == Run(i + 12, 4, r3, block)
  {
    hide Run;
    var r1 := Run(i, 4, r, block);
    var r2 := Run(i + 4, 4, r1, block);
    RunSplit(i, 4, 12, r, block);
    RunSplit(i + 4, 4, 8, r1, block);
    RunSplit(i + 8, 4, 4, r2, block);
  }

  // ---------------------------------------------------------------- the code

  const S11: bv32 := 7
  const S12: bv32 := 12
  const S13: bv32 := 17
  const S14: bv32 := 22
  const S21: bv32 := 5
  const S22: bv32 := 9
  const S23: bv32 := 14
  const S24: bv32 := 20
  const S31: bv32 := 4
  const S32: bv32 := 11
  const S33: bv32 := 16
  const S34: bv32 := 23
  const S41: bv32 := 6
  const S42: bv32 := 10
  const S43: bv32 := 15
  const S44: bv32 := 21

  function FF(a: bv32, b: bv32, c: bv32, d: bv32, x: bv32, s: bv32, ac: bv32): bv32
    requires s <= 32
  {
    Mix(a, b, F(b, c, d), x, s, ac)
  }

  function GG(a: bv32, b: bv32, c: bv32, d: bv32, x: bv32, s: bv32, ac: bv32): bv32
    requires s <= 32
  {
    Mix(a, b, G(b, c, d), x, s, ac)
  }

  function HH(a: bv32, b: bv32, c: bv32, d: bv32, x: bv32, s: bv32, ac: bv32): bv32
    requires s <= 32
  {
    Mix(a, b, H(b, c, d), x, s, ac)
  }

  function II(a: bv32, b: bv32, c: bv32, d: bv32, x: bv32, s: bv32, ac: bv32): bv32
    requires s <= 32
  {
    Mix(a, b, I(b, c, d), x, s, ac)
  }

  /** The sixteen words of a block. */
  predicate Decoded(x: seq<bv32>, block: seq<byte>) {
    |block| == 64 && |x| == 16 && forall k :: 0 <= k < 16 ==> x[k] == DecodeWord(block, 4 * k) as bv32
  }

  method DecodeBlock(block: seq<byte>) returns (x: seq<bv32>)
    requires |block| == 64
    ensures |x| == 16 && Decoded(x, block)
  {
    hide DecodeWord;
    x := [];
    for j := 0 to 16
      invariant |x| == j && forall k :: 0 <= k < j ==> x[k] == DecodeWord(block, 4 * k) as bv32
    {
      x := x + [DecodeWord(block, 4 * j) as bv32];
    }
  }

  lemma {:induction false} QuadFF(i: nat, r: Words, x: seq<bv32>, block: seq<byte>)
    requires 0 <= i && i + 4 <= 16 && Decoded(x, block)
    ensures var a := FF(r.a, r.b, r.c, r.d, x[WordIndex(i)], Shift(i), Constant(i));
            var d := FF(r.d, a, r.b, r.c, x[WordIndex(i + 1)], Shift(i + 1), Constant(i + 1));
            var c := FF(r.c, d, a, r.b, x[WordIndex(i + 2)], Shift(i + 2), Constant(i + 2));
            var b := FF(r.b, c, d, a, x[WordIndex(i + 3)], Shift(i + 3), Constant(i + 3));
            Run(i, 4, r, block) == Words(a, b, c, d)
  {
    hide Mix, F, G, H, I, Run, DecodeWord, WordIndex, Shift, Constant;
    Quad(i, r, block);
  }

  method Round1(r: Words, x: seq<bv32>, block: seq<byte>) returns (q: Words)
    requires |block| == 64 && |x| == 16 && Decoded(x, block)
    ensures q == Run(0, 16, r, block)
  {
    hide FF, Run, DecodeWord, Decoded, WordIndex, Shift, Constant;
    Table1();
    Constants1a();
    Constants1b();
    var a, b, c, d := r.a, r.b, r.c, r.d;
    ghost var r0 := Words(a, b, c, d);
    a := FF(a, b, c, d, x[0], S11, 0xd76aa478);
    d := FF(d, a, b, c, x[1], S12, 0xe8c7b756);
    c := FF(c, d, a, b, x[2], S13, 0x242070db);
    b := FF(b, c, d, a, x[3], S14, 0xc1bdceee);
    QuadFF(0, r0, x, block);
    ghost var r1 := Words(a, b, c, d);
    a := FF(a, b, c, d, x[4], S11, 0xf57c0faf);
    d := FF(d, a, b, c, x[5], S12, 0x4787c62a);
    c := FF(c, d, a, b, x[6], S13, 0xa8304613);
    b := FF(b, c, d, a, x[7], S14, 0xfd469501);
    QuadFF(4, r1, x, block);
    ghost var r2 := Words(a, b, c, d);
    a := FF(a, b, c, d, x[8], S11, 0x698098d8);
    d := FF(d, a, b, c, x[9], S12, 0x8b44f7af);
    c := FF(c, d, a, b, x[10], S13, 0xffff5bb1);
    b := FF(b, c, d, a, x[11], S14, 0x895cd7be);
    QuadFF(8, r2, x, block);
    ghost var r3 := Words(a, b, c, d);
    a := FF(a, b, c, d, x[12], S11, 0x6b901122);
    d := FF(d, a, b, c, x[13], S12, 0xfd987193);
    c := FF(c, d, a, b, x[14], S13, 0xa679438e);
    b := FF(b, c, d, a, x[15], S14, 0x49b40821);
    QuadFF(12, r3, x, block);
    RunQuads(0, r, block);
    q := Words(a, b, c, d);
  }

  lemma {:induction false} QuadGG(i: nat, r: Words, x: seq<bv32>, block: seq<byte>)
    requires 16 <= i && i + 4 <= 32 && Decoded(x, block)
    ensures var a := GG(r.a, r.b, r.c, r.d, x[WordIndex(i)], Shift(i), Constant(i));
            var d := GG(r.d, a, r.b, r.c, x[WordIndex(i + 1)], Shift(i + 1), Constant(i + 1));
            var c := GG(r.c, d, a, r.b, x[WordIndex(i + 2)], Shift(i + 2), Constant(i + 2));
            var b := GG(r.b, c, d, a, x[WordIndex(i + 3)], Shift(i + 3), Constant(i + 3));
            Run(i, 4, r, block) == Words(a, b, c, d)
  {
    hide Mix, F, G, H, I, Run, DecodeWord, WordIndex, Shift, Constant;
    Quad(i, r, block);
  }

  method Round2(r: Words, x: seq<bv32>, block: seq<byte>) returns (q: Words)
    requires |block| == 64 && |x| == 16 && Decoded(x, block)
    ensures q == Run(16, 16, r, block)
  {
    hide GG, Run, DecodeWord, Decoded, WordIndex, Shift, Constant;
    Table2();
    Constants2a();
    Constants2b();
    var a, b, c, d := r.a, r.b, r.c, r.d;
    ghost var r0 := Words(a, b, c, d);
    a := GG(a, b, c, d, x[1], S21, 0xf61e2562);
    d := GG(d, a, b, c, x[6], S22, 0xc040b340);
    c := GG(c, d, a, b, x[11], S23, 0x265e5a51);
    b := GG(b, c, d, a, x[0], S24, 0xe9b6c7aa);
    QuadGG(16, r0, x, block);
    ghost var r1 := Words(a, b, c, d);
    a := GG(a, b, c, d, x[5], S21, 0xd62f105d);
    d := GG(d, a, b, c, x[10], S22, 0x2441453);
    c := GG(c, d, a, b, x[15], S23, 0xd8a1e681);
    b := GG(b, c, d, a, x[4], S24, 0xe7d3fbc8);
    QuadGG(20, r1, x, block);
    ghost var r2 := Words(a, b, c, d);
    a := GG(a, b, c, d, x[9], S21, 0x21e1cde6);
    d := GG(d, a, b, c, x[14], S22, 0xc33707d6);
    c := GG(c, d, a, b, x[3], S23, 0xf4d50d87);
    b := GG(b, c, d, a, x[8], S24, 0x455a14ed);
    QuadGG(24, r2, x, block);
    ghost var r3 := Words(a, b, c, d);
    a := GG(a, b, c, d, x[13], S21, 0xa9e3e905);
    d := GG(d, a, b, c, x[2], S22, 0xfcefa3f8);
    c := GG(c, d, a, b, x[7], S23, 0x676f02d9);
    b := GG(b, c, d, a, x[12], S24, 0x8d2a4c8a);
    QuadGG(28, r3, x, block);
    RunQuads(16, r, block);
    q := Words(a, b, c, d);
  }

  lemma {:induction false} QuadHH(i: nat, r: Words, x: seq<bv32>, block: seq<byte>)
    requires 32 <= i && i + 4 <= 48 && Decoded(x, block)
    ensures var a := HH(r.a, r.b, r.c, r.d, x[WordIndex(i)], Shift(i), Constant(i));
            var d := HH(r.d, a, r.b, r.c, x[WordIndex(i + 1)], Shift(i + 1), Constant(i + 1));
            var c := HH(r.c, d, a, r.b, x[WordIndex(i + 2)], Shift(i + 2), Constant(i + 2));
            var b := HH(r.b, c, d, a, x[WordIndex(i + 3)], Shift(i + 3), Constant(i + 3));
            Run(i, 4, r, block) == Words(a, b, c, d)
  {
    hide Mix, F, G, H, I, Run, DecodeWord, WordIndex, Shift, Constant;
    Quad(i, r, block);
  }

  method Round3(r: Words, x: seq<bv32>, block: seq<byte>) returns (q: Words)
    requires |block| == 64 && |x| == 16 && Decoded(x, block)
    ensures q == Run(32, 16, r, block)
  {
    hide HH, Run, DecodeWord, Decoded, WordIndex, Shift, Constant;
    Table3();
    Constants3a();
    Constants3b();
    var a, b, c, d := r.a, r.b, r.c, r.d;
    ghost var r0 := Words(a, b, c, d);
    a := HH(a, b, c, d, x[5], S31, 0xfffa3942);
    d := HH(d, a, b, c, x[8], S32, 0x8771f681);
    c := HH(c, d, a, b, x[11], S33, 0x6d9d6122);
    b := HH(b, c, d, a, x[14], S34, 0xfde5380c);
    QuadHH(32, r0, x, block);
    ghost var r1 := Words(a, b, c, d);
    a := HH(a, b, c, d, x[1], S31, 0xa4beea44);
    d := HH(d, a, b, c, x[4], S32, 0x4bdecfa9);
    c := HH(c, d, a, b, x[7], S33, 0xf6bb4b60);
    b := HH(b, c, d, a, x[10], S34, 0xbebfbc70);
    QuadHH(36, r1, x, block);
    ghost var r2 := Words(a, b, c, d);
    a := HH(a, b, c, d, x[13], S31, 0x289b7ec6);
    d := HH(d, a, b, c, x[0], S32, 0xeaa127fa);
    c := HH(c, d, a, b, x[3], S33, 0xd4ef3085);
    b := HH(b, c, d, a, x[6], S34, 0x4881d05);
    QuadHH(40, r2, x, block);
    ghost var r3 := Words(a, b, c, d);
    a := HH(a, b, c, d, x[9], S31, 0xd9d4d039);
    d := HH(d, a, b, c, x[12], S32, 0xe6db99e5);
    c := HH(c, d, a, b, x[15], S33, 0x1fa27cf8);
    b := HH(b, c, d, a, x[2], S34, 0xc4ac5665);
    QuadHH(44, r3, x, block);
    RunQuads(32, r, block);
    q := Words(a, b, c, d);
  }

  lemma {:induction false} QuadII(i: nat, r: Words, x: seq<bv32>, block: seq<byte>)
    requires 48 <= i && i + 4 <= 64 && Decoded(x, block)
    ensures var a := II(r.a, r.b, r.c, r.d, x[WordIndex(i)], Shift(i), Constant(i));
            var d := II(r.d, a, r.b, r.c, x[WordIndex(i + 1)], Shift(i + 1), Constant(i + 1));
            var c := II(r.c, d, a, r.b, x[WordIndex(i + 2)], Shift(i + 2), Constant(i + 2));
            var b := II(r.b, c, d, a, x[WordIndex(i + 3)], Shift(i + 3), Constant(i + 3));
            Run(i, 4, r, block) == Words(a, b, c, d)
  {
    hide Mix, F, G, H, I, Run, DecodeWord, WordIndex, Shift, Constant;
    Quad(i, r, block);
  }

  method Round4(r: Words, x: seq<bv32>, block: seq<byte>) returns (q: Words)
    requires |block| == 64 && |x| == 16 && Decoded(x, block)
    ensures q == Run(48, 16, r, block)
  {
    hide II, Run, DecodeWord, Decoded, WordIndex, Shift, Constant;
    Table4();
    Constants4a();
    Constants4b();
    var a, b, c, d := r.a, r.b, r.c, r.d;
    ghost var r0 := Words(a, b, c, d);
    a := II(a, b, c, d, x[0], S41, 0xf4292244);
    d := II(d, a, b, c, x[7], S42, 0x432aff97);
    c := II(c, d, a, b, x[14], S43, 0xab9423a7);
    b := II(b, c, d, a, x[5], S44, 0xfc93a039);
    QuadII(48, r0, x, block);
    ghost var r1 := Words(a, b, c, d);
    a := II(a, b, c, d, x[12], S41, 0x655b59c3);
    d := II(d, a, b, c, x[3], S42, 0x8f0ccc92);
    c := II(c, d, a, b, x[10], S43, 0xffeff47d);
    b := II(b, c, d, a, x[1], S44, 0x85845dd1);
    QuadII(52, r1, x, block);
    ghost var r2 := Words(a, b, c, d);
    a := II(a, b, c, d, x[8], S41, 0x6fa87e4f);
    d := II(d, a, b, c, x[15], S42, 0xfe2ce6e0);
    c := II(c, d, a, b, x[6], S43, 0xa3014314);
    b := II(b, c, d, a, x[13], S44, 0x4e0811a1);
    QuadII(56, r2, x, block);
    ghost var r3 := Words(a, b, c, d);
    a := II(a, b, c, d, x[4], S41, 0xf7537e82);
    d := II(d, a, b, c, x[11], S42, 0xbd3af235);
    c := II(c, d, a, b, x[2], S43, 0x2ad7d2bb);
    b := II(b, c, d, a, x[9], S44, 0xeb86d391);
    QuadII(60, r3, x, block);
    RunQuads(48, r, block);
    q := Words(a, b, c, d);
  }

  /** Which words and rotations the code writes in round 1. */
  lemma {:induction false} Table1()
    ensures WordIndex(0) == 0 && WordIndex(1) == 1 && WordIndex(2) == 2 && WordIndex(3) == 3
    ensures Shift(0) == S11 && Shift(1) == S12 && Shift(2) == S13 && Shift(3) == S14
    ensures WordIndex(4) == 4 && WordIndex(5) == 5 && WordIndex(6) == 6 && WordIndex(7) == 7
    ensures Shift(4) == S11 && Shift(5) == S12 && Shift(6) == S13 && Shift(7) == S14
    ensures WordIndex(8) == 8 && WordIndex(9) == 9 && WordIndex(10) == 10 && WordIndex(11) == 11
    ensures Shift(8) == S11 && Shift(9) == S12 && Shift(10) == S13 && Shift(11) == S14
    ensures WordIndex(12) == 12 && WordIndex(13) == 13 && WordIndex(14) == 14 && WordIndex(15) == 15
    ensures Shift(12) == S11 && Shift(13) == S12 && Shift(14) == S13 && Shift(15) == S14
  {
  }

  lemma {:induction false} Constants1a()
    ensures Constant(0) == 0xd76aa478 && Constant(1) == 0xe8c7b756 && Constant(2) == 0x242070db && Constant(3) == 0xc1bdceee
    ensures Constant(4) == 0xf57c0faf && Constant(5) == 0x4787c62a && Constant(6) == 0xa8304613 && Constant(7) == 0xfd469501
  {
  }

  lemma {:induction false} Constants1b()
    ensures Constant(8) == 0x698098d8 && Constant(9) == 0x8b44f7af && Constant(10) == 0xffff5bb1 && Constant(11) == 0x895cd7be
    ensures Constant(12) == 0x6b901122 && Constant(13) == 0xfd987193 && Constant(14) == 0xa679438e && Constant(15) == 0x49b40821
  {
  }

  /** Which words and rotations the code writes in round 2. */
  lemma {:induction false} Table2()
    ensures WordIndex(16) == 1 && WordIndex(17) == 6 && WordIndex(18) == 11 && WordIndex(19) == 0
    ensures Shift(16) == S21 && Shift(17) == S22 && Shift(18) == S23 && Shift(19) == S24
    ensures WordIndex(20) == 5 && WordIndex(21) == 10 && WordIndex(22) == 15 && WordIndex(23) == 4
    ensures Shift(20) == S21 && Shift(21) == S22 && Shift(22) == S23 && Shift(23) == S24
    ensures WordIndex(24) == 9 && WordIndex(25) == 14 && WordIndex(26) == 3 && WordIndex(27) == 8
    ensures Shift(24) == S21 && Shift(25) == S22 && Shift(26) == S23 && Shift(27) == S24
    ensures WordIndex(28) == 13 && WordIndex(29) == 2 && WordIndex(30) == 7 && WordIndex(31) == 12
    ensures Shift(28) == S21 && Shift(29) == S22 && Shift(30) == S23 && Shift(31) == S24
  {
  }

  lemma {:induction false} Constants2a()
    ensures Constant(16) == 0xf61e2562 && Constant(17) == 0xc040b340 && Constant(18) == 0x265e5a51 && Constant(19) == 0xe9b6c7aa
    ensures Constant(20) == 0xd62f105d && Constant(21) == 0x2441453 && Constant(22) == 0xd8a1e681 && Constant(23) == 0xe7d3fbc8
  {
  }

  lemma {:induction false} Constants2b()
    ensures Constant(24) == 0x21e1cde6 && Constant(25) == 0xc33707d6 && Constant(26) == 0xf4d50d87 && Constant(27) == 0x455a14ed
    ensures Constant(28) == 0xa9e3e905 && Constant(29) == 0xfcefa3f8 && Constant(30) == 0x676f02d9 && Constant(31) == 0x8d2a4c8a
  {
  }

  /** Which words and rotations the code writes in round 3. */
  lemma {:induction false} Table3()
    ensures WordIndex(32) == 5 && WordIndex(33) == 8 && WordIndex(34) == 11 && WordIndex(35) == 14
    ensures Shift(32) == S31 && Shift(33) == S32 && Shift(34) == S33 && Shift(35) == S34
    ensures WordIndex(36) == 1 && WordIndex(37) == 4 && WordIndex(38) == 7 && WordIndex(39) == 10
    ensures Shift(36) == S31 && Shift(37) == S32 && Shift(38) == S33 && Shift(39) == S34
    ensures WordIndex(40) == 13 && WordIndex(41) == 0 && WordIndex(42) == 3 && WordIndex(43) == 6
    ensures Shift(40) == S31 && Shift(41) == S32 && Shift(42) == S33 && Shift(43) == S34
    ensures WordIndex(44) == 9 && WordIndex(45) == 12 && WordIndex(46) == 15 && WordIndex(47) == 2
    ensures Shift(44) == S31 && Shift(45) == S32 && Shift(46) == S33 && Shift(47) == S34
  {
  }

  lemma {:induction false} Constants3a()
    ensures Constant(32) == 0xfffa3942 && Constant(33) == 0x8771f681 && Constant(34) == 0x6d9d6122 && Constant(35) == 0xfde5380c
    ensures Constant(36) == 0xa4beea44 && Constant(37) == 0x4bdecfa9 && Constant(38) == 0xf6bb4b60 && Constant(39) == 0xbebfbc70
  {
  }

  lemma {:induction false} Constants3b()
    ensures Constant(40) == 0x289b7ec6 && Constant(41) == 0xeaa127fa && Constant(42) == 0xd4ef3085 && Constant(43) == 0x4881d05
    ensures Constant(44) == 0xd9d4d039 && Constant(45) == 0xe6db99e5 && Constant(46) == 0x1fa27cf8 && Constant(47) == 0xc4ac5665
  {
  }

  /** Which words and rotations the code writes in round 4. */
  lemma {:induction false} Table4()
    ensures WordIndex(48) == 0 && WordIndex(49) == 7 && WordIndex(50) == 14 && WordIndex(51) == 5
    ensures Shift(48) == S41 && Shift(49) == S42 && Shift(50) == S43 && Shift(51) == S44
    ensures WordIndex(52) == 12 && WordIndex(53) == 3 && WordIndex(54) == 10 && WordIndex(55) == 1
    ensures Shift(52) == S41 && Shift(53) == S42 && Shift(54) == S43 && Shift(55) == S44
    ensures WordIndex(56) == 8 && WordIndex(57) == 15 && WordIndex(58) == 6 && WordIndex(59) == 13
    ensures Shift(56) == S41 && Shift(57) == S42 && Shift(58) == S43 && Shift(59) == S44
    ensures WordIndex(60) == 4 && WordIndex(61) == 11 && WordIndex(62) == 2 && WordIndex(63) == 9
    ensures Shift(60) == S41 && Shift(61) == S42 && Shift(62) == S43 && Shift(63) == S44
  {
  }

  lemma {:induction false} Constants4a()
    ensures Constant(48) == 0xf4292244 && Constant(49) == 0x432aff97 && Constant(50) == 0xab9423a7 && Constant(51) == 0xfc93a039
    ensures Constant(52) == 0x655b59c3 && Constant(53) == 0x8f0ccc92 && Constant(54) == 0xffeff47d && Constant(55) == 0x85845dd1
  {
  }

  lemma {:induction false} Constants4b()
    ensures Constant(56) == 0x6fa87e4f && Constant(57) == 0xfe2ce6e0 && Constant(58) == 0xa3014314 && Constant(59) == 0x4e0811a1
    ensures Constant(60) == 0xf7537e82 && Constant(61) == 0xbd3af235 && Constant(62) == 0x2ad7d2bb && Constant(63) == 0xeb86d391
  {
  }

  /** `transform`: the four rounds with the registers as the code names them are the 64 operations. */
  method TransformBlock(state: Words, block: seq<byte>) returns (q: Words)
    requires |block| == 64
    ensures q == Transform(state, block)
  {
    hide Run, Decoded, Sum;
    var x := DecodeBlock(block);
    var r := Round1(state, x, block);
    r := Round2(r, x, block);
    r := Round3(r, x, block);
    r := Round4(r, x, block);
    RunRounds(state, block);
    q := Sum(state, r);
  }

  lemma {:induction false} RunRounds(r: Words, block: seq<byte>)
    requires |block| == 64
    ensures var r2 := Run(16, 16, Run(0, 16, r, block), block);
            Run(0, 64, r, block) == Run(48, 16, Run(32, 16, r2, block), block)
  {
    hide Run;
    var r1 := Run(0, 16, r, block);
    var r2 := Run(16, 16, r1, block);
    RunSplit(0, 16, 48, r, block);
    RunSplit(16, 16, 32, r1, block);
    RunSplit(32, 16, 16, r2, block);
  }
}

/** What the functions of FileServer/MD5.cpp compute, in terms of bits and numbers, and the digest of the empty message. */
module Md5Reference {
  import opened Bytes
  import opened Md5Transform
  import opened Md5

  // ---------------------------------------------------------------- bit by bit

  function Mask(i: bv32): bv32
    requires i < 32
  {
    (1 as bv32) << i
  }

  function Under(x: bv32, m: bv32): bv32 {
    x & m
  }

  predicate Bit(x: bv32, i: bv32)
    requires i < 32
  {
    Under(x, Mask(i)) != 0
  }

  lemma {:induction false} OneBit(x: bv32, i: bv32)
    requires i < 32
    ensures Mask(i) != 0 && (Under(x, Mask(i)) == 0 || Under(x, Mask(i)) == Mask(i))
  {
  }

  lemma {:induction false} FUnderOnes(x: bv32, y: bv32, z: bv32, m: bv32)
    requires Under(x, m) == m
    ensures Under(F(x, y, z), m) == Under(y, m)
  {
  }

  lemma {:induction false} FUnderZeros(x: bv32, y: bv32, z: bv32, m: bv32)
    requires Under(x, m) == 0
    ensures Under(F(x, y, z), m) == Under(z, m)
  {
  }

  lemma {:induction false} GUnderOnes(x: bv32, y: bv32, z: bv32, m: bv32)
    requires Under(z, m) == m
    ensures Under(G(x, y, z), m) == Under(x, m)
  {
  }

  lemma {:induction false} GUnderZeros(x: bv32, y: bv32, z: bv32, m: bv32)
    requires Under(z, m) == 0
    ensures Under(G(x, y, z), m) == Under(y, m)
  {
  }

  function Xor(a: bv32, b: bv32): bv32 {
    a ^ b
  }

  lemma {:induction false} HUnder(x: bv32, y: bv32, z: bv32, m: bv32)
    ensures Under(H(x, y, z), m) == Xor(Xor(Under(x, m), Under(y, m)), Under(z, m))
  {
    XorUnder(x, y, m);
    XorUnder(x ^ y, z, m);
    hide Under;
  }

  lemma {:induction false} XorUnder(x: bv32, y: bv32, m: bv32)
    ensures Under(x ^ y, m) == Xor(Under(x, m), Under(y, m))
  {
  }

  lemma {:induction false} IUnder(x: bv32, y: bv32, z: bv32, m: bv32)
    ensures Under(x, m) == m || Under(z, m) == 0 ==> Under(I(x, y, z), m) == Xor(Under(y, m), m)
    ensures Under(x, m) == 0 && Under(z, m) == m ==> Under(I(x, y, z), m) == Under(y, m)
  {
  }

  lemma {:induction false} XorBits(m: bv32)
    ensures Xor(0, 0) == 0 && Xor(m, m) == 0 && Xor(0, m) == m && Xor(m, 0) == m
  {
  }

  /** `F` takes each bit from `y` where `x` has a one, and from `z` where it has a zero. */
  lemma {:induction false} FChooses(x: bv32, y: bv32, z: bv32, i: bv32)
    requires i < 32
    ensures Bit(F(x, y, z), i) <==> if Bit(x, i) then Bit(y, i) else Bit(z, i)
  {
    hide F, Mask, Under;
    OneBit(x, i);
    if Bit(x, i) {
      FUnderOnes(x, y, z, Mask(i));
    } else {
      FUnderZeros(x, y, z, Mask(i));
    }
  }

  /** `G` takes each bit from `x` where `z` has a one, and from `y` where it has a zero. */
  lemma {:induction false} GChooses(x: bv32, y: bv32, z: bv32, i: bv32)
    requires i < 32
    ensures Bit(G(x, y, z), i) <==> if Bit(z, i) then Bit(x, i) else Bit(y, i)
  {
    hide G, Mask, Under;
    OneBit(z, i);
    if Bit(z, i) {
      GUnderOnes(x, y, z, Mask(i));
    } else {
      GUnderZeros(x, y, z, Mask(i));
    }
  }

  /** `H` is the parity of the three bits. */
  lemma {:induction false} HParity(x: bv32, y: bv32, z: bv32, i: bv32)
    requires i < 32
    ensures Bit(H(x, y, z), i) <==> (Bit(x, i) != Bit(y, i)) != Bit(z, i)
  {
    hide H, Mask, Under, Xor;
    OneBit(x, i);
    OneBit(y, i);
    OneBit(z, i);
    HUnder(x, y, z, Mask(i));
    XorBits(Mask(i));
  }

  /** `I` differs from `y` exactly where `x` has a one or `z` a zero. */
  lemma {:induction false} IDiffers(x: bv32, y: bv32, z: bv32, i: bv32)
    requires i < 32
    ensures Bit(I(x, y, z), i) != Bit(y, i) <==> Bit(x, i) || !Bit(z, i)
  {
    hide I, Mask, Under, Xor;
    OneBit(x, i);
    OneBit(y, i);
    OneBit(z, i);
    IUnder(x, y, z, Mask(i));
    XorBits(Mask(i));
  }

  lemma {:induction false} Rotate7(x: bv32)
    ensures RotateLeft(x, 7) == x * 0x80 + x / 0x2000000
  {
  }

  lemma {:induction false} Rotate12(x: bv32)
    ensures RotateLeft(x, 12) == x * 0x1000 + x / 0x100000
  {
  }

  lemma {:induction false} Rotate17(x: bv32)
    ensures RotateLeft(x, 17) == x * 0x20000 + x / 0x8000
  {
  }

  lemma {:induction false} Rotate22(x: bv32)
    ensures RotateLeft(x, 22) == x * 0x400000 + x / 0x400
  {
  }

  lemma {:induction false} Rotate5(x: bv32)
    ensures RotateLeft(x, 5) == x * 0x20 + x / 0x8000000
  {
  }

  lemma {:induction false} Rotate9(x: bv32)
    ensures RotateLeft(x, 9) == x * 0x200 + x / 0x800000
  {
  }

  lemma {:induction false} Rotate14(x: bv32)
    ensures RotateLeft(x, 14) == x * 0x4000 + x / 0x40000
  {
  }

  lemma {:induction false} Rotate20(x: bv32)
    ensures RotateLeft(x, 20) == x * 0x100000 + x / 0x1000
  {
  }

  lemma {:induction false} Rotate4(x: bv32)
    ensures RotateLeft(x, 4) == x * 0x10 + x / 0x10000000
  {
  }

  lemma {:induction false} Rotate11(x: bv32)
    ensures RotateLeft(x, 11) == x * 0x800 + x / 0x200000
  {
  }

  lemma {:induction false} Rotate16(x: bv32)
    ensures RotateLeft(x, 16) == x * 0x10000 + x / 0x10000
  {
  }

  lemma {:induction false} Rotate23(x: bv32)
    ensures RotateLeft(x, 23) == x * 0x800000 + x / 0x200
  {
  }

  lemma {:induction false} Rotate6(x: bv32)
    ensures RotateLeft(x, 6) == x * 0x40 + x / 0x4000000
  {
  }

  lemma {:induction false} Rotate10(x: bv32)
    ensures RotateLeft(x, 10) == x * 0x400 + x / 0x400000
  {
  }

  lemma {:induction false} Rotate15(x: bv32)
    ensures RotateLeft(x, 15) == x * 0x8000 + x / 0x20000
  {
  }

  lemma {:induction false} Rotate21(x: bv32)
    ensures RotateLeft(x, 21) == x * 0x200000 + x / 0x800
  {
  }

  /** A rotation in numbers, for every amount in use: times 2^n modulo 2^32, plus what falls out on the left. */
  lemma {:induction false} RotateArithmetic(x: bv32)
    ensures RotateLeft(x, S11) == x * 0x80 + x / 0x2000000
    ensures RotateLeft(x, S12) == x * 0x1000 + x / 0x100000
    ensures RotateLeft(x, S13) == x * 0x20000 + x / 0x8000
    ensures RotateLeft(x, S14) == x * 0x400000 + x / 0x400
    ensures RotateLeft(x, S21) == x * 0x20 + x / 0x8000000
    ensures RotateLeft(x, S22) == x * 0x200 + x / 0x800000
    ensures RotateLeft(x, S23) == x * 0x4000 + x / 0x40000
    ensures RotateLeft(x, S24) == x * 0x100000 + x / 0x1000
    ensures RotateLeft(x, S31) == x * 0x10 + x / 0x10000000
    ensures RotateLeft(x, S32) == x * 0x800 + x / 0x200000
    ensures RotateLeft(x, S33) == x * 0x10000 + x / 0x10000
    ensures RotateLeft(x, S34) == x * 0x800000 + x / 0x200
    ensures RotateLeft(x, S41) == x * 0x40 + x / 0x4000000
    ensures RotateLeft(x, S42) == x * 0x400 + x / 0x400000
    ensures RotateLeft(x, S43) == x * 0x8000 + x / 0x20000
    ensures RotateLeft(x, S44) == x * 0x200000 + x / 0x800
  {
    hide RotateLeft;
    Rotate7(x);
    Rotate12(x);
    Rotate17(x);
    Rotate22(x);
    Rotate5(x);
    Rotate9(x);
    Rotate14(x);
    Rotate20(x);
    Rotate4(x);
    Rotate11(x);
    Rotate16(x);
    Rotate23(x);
    Rotate6(x);
    Rotate10(x);
    Rotate15(x);
    Rotate21(x);
  }

  /** The length field holds the number of bits, least significant byte first. */
  lemma {:induction false} LengthIs(bits: int)
    requires 0 <= bits < 0x1_0000_0000_0000_0000
    ensures DecodeWord(Length64(bits), 0) + 0x1_0000_0000 * DecodeWord(Length64(bits), 4) == bits
  {
    var low, high := Mod32(bits), Mod32(bits / 0x1_0000_0000);
    assert high == bits / 0x1_0000_0000;
    hide DecodeWord, EncodeWord;
    WordRoundTrip(low, [], EncodeWord(high));
    WordRoundTrip(high, EncodeWord(low), []);
    assert [] + EncodeWord(low) + EncodeWord(high) == Length64(bits) == EncodeWord(low) + EncodeWord(high) + [];
  }

  // ---------------------------------------------------------------- the empty message

  /** The words of the one block of the empty message. */
  predicate EmptyWords(x: seq<bv32>) {
    |x| == 16 && x[0] == 0x80 && forall k :: 0 < k < 16 ==> x[k] == 0
  }

  lemma {:induction false} Values1()
    ensures FF(0x67452301, 0xefcdab89, 0x98badcfe, 0x10325476, 0x80, S11, 0xd76aa478) == 0xa5202774
    ensures FF(0x10325476, 0xa5202774, 0xefcdab89, 0x98badcfe, 0, S12, 0xe8c7b756) == 0xf59592dd
    ensures FF(0x98badcfe, 0xf59592dd, 0xa5202774, 0xefcdab89, 0, S13, 0x242070db) == 0xe7f06b23
    ensures FF(0xefcdab89, 0xe7f06b23, 0xf59592dd, 0xa5202774, 0, S14, 0xc1bdceee) == 0x1b163203
    ensures FF(0xa5202774, 0x1b163203, 0xe7f06b23, 0xf59592dd, 0, S11, 0xf57c0faf) == 0x32033344
    ensures FF(0xf59592dd, 0x32033344, 0x1b163203, 0xe7f06b23, 0, S12, 0x4787c62a) == 0x2f35d494
    ensures FF(0xe7f06b23, 0x2f35d494, 0x32033344, 0x1b163203, 0, S13, 0xa8304613) == 0xf5b158db
    ensures FF(0x1b163203, 0xf5b158db, 0x2f35d494, 0x32033344, 0, S14, 0xfd469501) == 0x9bc13ce9
    ensures FF(0x32033344, 0x9bc13ce9, 0xf5b158db, 0x2f35d494, 0, S11, 0x698098d8) == 0x3893b991
    ensures FF(0x2f35d494, 0x3893b991, 0x9bc13ce9, 0xf5b158db, 0, S12, 0x8b44f7af) == 0xfce4a312
    ensures FF(0xf5b158db, 0xfce4a312, 0x3893b991, 0x9bc13ce9, 0, S13, 0xffff5bb1) == 0xe1ef0576
    ensures FF(0x9bc13ce9, 0xe1ef0576, 0xfce4a312, 0x3893b991, 0, S14, 0x895cd7be) == 0x70768a29
    ensures FF(0x3893b991, 0x70768a29, 0xe1ef0576, 0xfce4a312, 0, S11, 0x6b901122) == 0xf56c7cf1
    ensures FF(0xfce4a312, 0xf56c7cf1, 0x70768a29, 0xe1ef0576, 0, S12, 0xfd987193) == 0x374943a7
    ensures FF(0xe1ef0576, 0x374943a7, 0xf56c7cf1, 0x70768a29, 0, S13, 0xa679438e) == 0x5aa53f75
    ensures FF(0x70768a29, 0x5aa53f75, 0x374943a7, 0xf56c7cf1, 0, S14, 0x49b40821) == 0xd6819c6a
  {
  }

  lemma {:induction false} EmptyRound1(x: seq<bv32>, block: seq<byte>)
    requires |block| == 64 && EmptyWords(x) && Decoded(x, block)
    ensures Run(0, 16, Words(0x67452301, 0xefcdab89, 0x98badcfe, 0x10325476), block)
         == Words(0xf56c7cf1, 0xd6819c6a, 0x5aa53f75, 0x374943a7)
  {
    hide FF, Run, DecodeWord, Decoded, WordIndex, Shift, Constant;
    Table1();
    Constants1a();
    Constants1b();
    Values1();
    QuadFF(0, Words(0x67452301, 0xefcdab89, 0x98badcfe, 0x10325476), x, block);
    QuadFF(4, Words(0xa5202774, 0x1b163203, 0xe7f06b23, 0xf59592dd), x, block);
    QuadFF(8, Words(0x32033344, 0x9bc13ce9, 0xf5b158db, 0x2f35d494), x, block);
    QuadFF(12, Words(0x3893b991, 0x70768a29, 0xe1ef0576, 0xfce4a312), x, block);
    RunQuads(0, Words(0x67452301, 0xefcdab89, 0x98badcfe, 0x10325476), block);
  }

  lemma {:induction false} Values2()
    ensures GG(0xf56c7cf1, 0xd6819c6a, 0x5aa53f75, 0x374943a7, 0, S21, 0xf61e2562) == 0x1c7d7513
    ensures GG(0x374943a7, 0x1c7d7513, 0xd6819c6a, 0x5aa53f75, 0, S22, 0xc040b340) == 0x7bd57a3a
    ensures GG(0x5aa53f75, 0x7bd57a3a, 0x1c7d7513, 0xd6819c6a, 0, S23, 0x265e5a51) == 0xc095f13a
    ensures GG(0xd6819c6a, 0xc095f13a, 0x7bd57a3a, 0x1c7d7513, 0x80, S24, 0xe9b6c7aa) == 0xbd782e17
    ensures GG(0x1c7d7513, 0xbd782e17, 0xc095f13a, 0x7bd57a3a, 0, S21, 0xd62f105d) == 0x3d1e3e6c
    ensures GG(0x7bd57a3a, 0x3d1e3e6c, 0xbd782e17, 0xc095f13a, 0, S22, 0x02441453) == 0x68b7b3e3
    ensures GG(0xc095f13a, 0x68b7b3e3, 0x3d1e3e6c, 0xbd782e17, 0, S23, 0xd8a1e681) == 0xeb41643e
    ensures GG(0xbd782e17, 0xeb41643e, 0x68b7b3e3, 0x3d1e3e6c, 0, S24, 0xe7d3fbc8) == 0xe422531a
    ensures GG(0x3d1e3e6c, 0xe422531a, 0xeb41643e, 0x68b7b3e3, 0, S21, 0x21e1cde6) == 0x306ec122
    ensures GG(0x68b7b3e3, 0x306ec122, 0xe422531a, 0xeb41643e, 0, S22, 0xc33707d6) == 0xd28c77c2
    ensures GG(0xeb41643e, 0xd28c77c2, 0x306ec122, 0xe422531a, 0, S23, 0xf4d50d87) == 0xa3c663da
    ensures GG(0xe422531a, 0xa3c663da, 0xd28c77c2, 0x306ec122, 0, S24, 0x455a14ed) == 0xa0572807
    ensures GG(0x306ec122, 0xa0572807, 0xa3c663da, 0xd28c77c2, 0, S21, 0xa9e3e905) == 0x13707036
    ensures GG(0xd28c77c2, 0x13707036, 0xa0572807, 0xa3c663da, 0, S22, 0xfcefa3f8) == 0xae7813db
    ensures GG(0xa3c663da, 0xae7813db, 0x13707036, 0xa0572807, 0, S23, 0x676f02d9) == 0x1c31c384
    ensures GG(0xa0572807, 0x1c31c384, 0xae7813db, 0x13707036, 0, S24, 0x8d2a4c8a) == 0xa2205f1f
  {
  }

  lemma {:induction false} EmptyRound2(x: seq<bv32>, block: seq<byte>)
    requires |block| == 64 && EmptyWords(x) && Decoded(x, block)
    ensures Run(16, 16, Words(0xf56c7cf1, 0xd6819c6a, 0x5aa53f75, 0x374943a7), block)
         == Words(0x13707036, 0xa2205f1f, 0x1c31c384, 0xae7813db)
  {
    hide GG, Run, DecodeWord, Decoded, WordIndex, Shift, Constant;
    Table2();
    Constants2a();
    Constants2b();
    Values2();
    QuadGG(16, Words(0xf56c7cf1, 0xd6819c6a, 0x5aa53f75, 0x374943a7), x, block);
    QuadGG(20, Words(0x1c7d7513, 0xbd782e17, 0xc095f13a, 0x7bd57a3a), x, block);
    QuadGG(24, Words(0x3d1e3e6c, 0xe422531a, 0xeb41643e, 0x68b7b3e3), x, block);
    QuadGG(28, Words(0x306ec122, 0xa0572807, 0xa3c663da, 0xd28c77c2), x, block);
    RunQuads(16, Words(0xf56c7cf1, 0xd6819c6a, 0x5aa53f75, 0x374943a7), block);
  }

  lemma {:induction false} Values3()
    ensures HH(0x13707036, 0xa2205f1f, 0x1c31c384, 0xae7813db, 0, S31, 0xfffa3942) == 0xdf63eaa1
    ensures HH(0xae7813db, 0xdf63eaa1, 0xa2205f1f, 0x1c31c384, 0, S32, 0x8771f681) == 0xc3689f5b
    ensures HH(0x1c31c384, 0xc3689f5b, 0xdf63eaa1, 0xa2205f1f, 0, S33, 0x6d9d6122) == 0x12f3e755
    ensures HH(0xa2205f1f, 0x12f3e755, 0xc3689f5b, 0xdf63eaa1, 0, S34, 0xfde5380c) == 0x004b6669
    ensures HH(0xdf63eaa1, 0x004b6669, 0x12f3e755, 0xc3689f5b, 0, S31, 0xa4beea44) == 0x5f7a9b2e
    ensures HH(0xc3689f5b, 0x5f7a9b2e, 0x004b6669, 0x12f3e755, 0, S32, 0x4bdecfa9) == 0xabc34e16
    ensures HH(0x12f3e755, 0xabc34e16, 0x5f7a9b2e, 0x004b6669, 0, S33, 0xf6bb4b60) == 0x91ca4cb7
    ensures HH(0x004b6669, 0x91ca4cb7, 0xabc34e16, 0x5f7a9b2e, 0, S34, 0xbebfbc70) == 0xc5dc8c15
    ensures HH(0x5f7a9b2e, 0xc5dc8c15, 0x91ca4cb7, 0xabc34e16, 0, S31, 0x289b7ec6) == 0x4497169d
    ensures HH(0xabc34e16, 0x4497169d, 0xc5dc8c15, 0x91ca4cb7, 0x80, S32, 0xeaa127fa) == 0x76fd93d4
    ensures HH(0x91ca4cb7, 0x76fd93d4, 0x4497169d, 0xc5dc8c15, 0, S33, 0xd4ef3085) == 0xfd95f243
    ensures HH(0xc5dc8c15, 0xfd95f243, 0x76fd93d4, 0x4497169d, 0, S34, 0x04881d05) == 0x0fe32453
    ensures HH(0x4497169d, 0x0fe32453, 0xfd95f243, 0x76fd93d4, 0, S31, 0xd9d4d039) == 0x3f55edfd
    ensures HH(0x76fd93d4, 0x3f55edfd, 0x0fe32453, 0xfd95f243, 0, S32, 0xe6db99e5) == 0x22a31f54
    ensures HH(0xfd95f243, 0x22a31f54, 0x3f55edfd, 0x0fe32453, 0, S33, 0x1fa27cf8) == 0x68d84ea2
    ensures HH(0x0fe32453, 0x68d84ea2, 0x22a31f54, 0x3f55edfd, 0, S34, 0xc4ac5665) == 0xca7d2dbd
  {
  }

  lemma {:induction false} EmptyRound3(x: seq<bv32>, block: seq<byte>)
    requires |block| == 64 && EmptyWords(x) && Decoded(x, block)
    ensures Run(32, 16, Words(0x13707036, 0xa2205f1f, 0x1c31c384, 0xae7813db), block)
         == Words(0x3f55edfd, 0xca7d2dbd, 0x68d84ea2, 0x22a31f54)
  {
    hide HH, Run, DecodeWord, Decoded, WordIndex, Shift, Constant;
    Table3();
    Constants3a();
    Constants3b();
    Values3();
    QuadHH(32, Words(0x13707036, 0xa2205f1f, 0x1c31c384, 0xae7813db), x, block);
    QuadHH(36, Words(0xdf63eaa1, 0x004b6669, 0x12f3e755, 0xc3689f5b), x, block);
    QuadHH(40, Words(0x5f7a9b2e, 0xc5dc8c15, 0x91ca4cb7, 0xabc34e16), x, block);
    QuadHH(44, Words(0x4497169d, 0x0fe32453, 0xfd95f243, 0x76fd93d4), x, block);
    RunQuads(32, Words(0x13707036, 0xa2205f1f, 0x1c31c384, 0xae7813db), block);
  }

  lemma {:induction false} Values4()
    ensures II(0x3f55edfd, 0xca7d2dbd, 0x68d84ea2, 0x22a31f54, 0x80, S41, 0xf4292244) == 0x93aa2577
    ensures II(0x22a31f54, 0x93aa2577, 0xca7d2dbd, 0x68d84ea2, 0, S42, 0x432aff97) == 0x1688dc85
    ensures II(0x68d84ea2, 0x1688dc85, 0x93aa2577, 0xca7d2dbd, 0, S43, 0xab9423a7) == 0xcd85b8cb
    ensures II(0xca7d2dbd, 0xcd85b8cb, 0x1688dc85, 0x93aa2577, 0, S44, 0xfc93a039) == 0x561e0689
    ensures II(0x93aa2577, 0x561e0689, 0xcd85b8cb, 0x1688dc85, 0, S41, 0x655b59c3) == 0x5625a114
    ensures II(0x1688dc85, 0x5625a114, 0x561e0689, 0xcd85b8cb, 0, S42, 0x8f0ccc92) == 0x3450f42b
    ensures II(0xcd85b8cb, 0x3450f42b, 0x5625a114, 0x561e0689, 0, S43, 0xffeff47d) == 0x392ad0d0
    ensures II(0x561e0689, 0x392ad0d0, 0x3450f42b, 0x5625a114, 0, S44, 0x85845dd1) == 0x1e77fa61
    ensures II(0x5625a114, 0x1e77fa61, 0x392ad0d0, 0x3450f42b, 0, S41, 0x6fa87e4f) == 0x474a9c8c
    ensures II(0x3450f42b, 0x474a9c8c, 0x1e77fa61, 0x392ad0d0, 0, S42, 0xfe2ce6e0) == 0xdfce00bc
    ensures II(0x392ad0d0, 0xdfce00bc, 0x474a9c8c, 0x1e77fa61, 0, S43, 0xa3014314) == 0x36594b14
    ensures II(0x1e77fa61, 0x36594b14, 0xdfce00bc, 0x474a9c8c, 0, S44, 0x4e0811a1) == 0x30130182
    ensures II(0x474a9c8c, 0x30130182, 0x36594b14, 0xdfce00bc, 0, S41, 0xf7537e82) == 0x7246fad3
    ensures II(0xdfce00bc, 0x7246fad3, 0x30130182, 0x36594b14, 0, S42, 0xbd3af235) == 0x6e10a476
    ensures II(0x36594b14, 0x6e10a476, 0x7246fad3, 0x30130182, 0, S43, 0x2ad7d2bb) == 0xff4ea3eb
    ensures II(0x30130182, 0xff4ea3eb, 0x6e10a476, 0x7246fad3, 0, S44, 0xeb86d391) == 0x14e45506
  {
  }

  lemma {:induction false} EmptyRound4(x: seq<bv32>, block: seq<byte>)
    requires |block| == 64 && EmptyWords(x) && Decoded(x, block)
    ensures Run(48, 16, Words(0x3f55edfd, 0xca7d2dbd, 0x68d84ea2, 0x22a31f54), block)
         == Words(0x7246fad3, 0x14e45506, 0xff4ea3eb, 0x6e10a476)
  {
    hide II, Run, DecodeWord, Decoded, WordIndex, Shift, Constant;
    Table4();
    Constants4a();
    Constants4b();
    Values4();
    QuadII(48, Words(0x3f55edfd, 0xca7d2dbd, 0x68d84ea2, 0x22a31f54), x, block);
    QuadII(52, Words(0x93aa2577, 0x561e0689, 0xcd85b8cb, 0x1688dc85), x, block);
    QuadII(56, Words(0x5625a114, 0x1e77fa61, 0x392ad0d0, 0x3450f42b), x, block);
    QuadII(60, Words(0x474a9c8c, 0x30130182, 0x36594b14, 0xdfce00bc), x, block);
    RunQuads(48, Words(0x3f55edfd, 0xca7d2dbd, 0x68d84ea2, 0x22a31f54), block);
  }

  lemma {:induction false} EmptyPadding()
    ensures |Padding(0)| == 64 && Padding(0)[0] == 0x80 && forall k :: 0 < k < 64 ==> Padding(0)[k] == 0
  {
    assert EncodeWord(0) == [0, 0, 0, 0];
    assert Length64(Mod64(0)) == [0, 0, 0, 0] + [0, 0, 0, 0];
  }

  lemma {:induction false} EmptyBlock() returns (x: seq<bv32>)
    ensures |Padding(0)| == 64 && EmptyWords(x) && Decoded(x, Padding(0))
  {
    EmptyPadding();
    hide Padding;
    x := seq(16, k requires 0 <= k < 16 => DecodeWord(Padding(0), 4 * k) as bv32);
    assert DecodeWord(Padding(0), 0) == 0x80;
    forall k | 0 < k < 16
      ensures x[k] == 0
    {
      assert DecodeWord(Padding(0), 4 * k) == 0;
    }
  }

  lemma {:induction false} EmptyTransform()
    ensures |Padding(0)| == 64
    ensures Run(0, 64, INITIAL, Padding(0)) == Words(0x7246fad3, 0x14e45506, 0xff4ea3eb, 0x6e10a476)
  {
    hide Padding, Run, Decoded, EmptyWords;
    var x := EmptyBlock();
    EmptyRound1(x, Padding(0));
    EmptyRound2(x, Padding(0));
    EmptyRound3(x, Padding(0));
    EmptyRound4(x, Padding(0));
    RunRounds(INITIAL, Padding(0));
  }

  lemma {:induction false} EmptySum()
    ensures Sum(INITIAL, Words(0x7246fad3, 0x14e45506, 0xff4ea3eb, 0x6e10a476))
         == Words(0xd98c1dd4, 0x04b2008f, 0x980980e9, 0x7e42f8ec)
  {
  }

  lemma {:induction false} EmptyEncoded()
    ensures Encode(Words(0xd98c1dd4, 0x04b2008f, 0x980980e9, 0x7e42f8ec))
         == [0xd4, 0x1d, 0x8c, 0xd9, 0x8f, 0x00, 0xb2, 0x04, 0xe9, 0x80, 0x09, 0x98, 0xec, 0xf8, 0x42, 0x7e]
  {
    assert EncodeWord(0xd98c1dd4) == [0xd4, 0x1d, 0x8c, 0xd9] && EncodeWord(0x04b2008f) == [0x8f, 0x00, 0xb2, 0x04];
    assert EncodeWord(0x980980e9) == [0xe9, 0x80, 0x09, 0x98] && EncodeWord(0x7e42f8ec) == [0xec, 0xf8, 0x42, 0x7e];
  }

  lemma {:induction false} OneBlock(f: Compression, s: Words, block: seq<byte>)
    requires |block| == 64
    ensures Fold(f, s, block) == f(s, block)
  {
    assert block[..64] == block && block[64..] == [];
  }

  /** The first line of appendix A.5 of RFC 1321. */
  lemma {:induction false} DigestOfEmpty()
    ensures OneShot(TRANSFORM, [])
         == [0xd4, 0x1d, 0x8c, 0xd9, 0x8f, 0x00, 0xb2, 0x04, 0xe9, 0x80, 0x09, 0x98, 0xec, 0xf8, 0x42, 0x7e]
  {
    hide Padding, Run, Encode, Fold, Sum;
    EmptyTransform();
    EmptySum();
    EmptyEncoded();
    assert [] + Padding(0) == Padding(0);
    OneBlock(TRANSFORM, INITIAL, Padding(0));
  }
}
