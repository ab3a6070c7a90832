/** The byte buffer of net/Buffer.h and net/Buffer.cc, as a gap buffer that stands for a byte sequence. */
module Buffer {
  import opened Bytes
  import opened NetworkOrder

  const CHEAP_PREPEND := 8
  const INITIAL_SIZE := 1024
  const EXTRA_SIZE := 65536

  // ---------------------------------------------------------------- the buffer as a value

  /** The readable bytes, and how much can be prepended and written without making space. */
  datatype Model = Model(contents: seq<byte>, front: nat, room: nat) {
    predicate Valid() {
      front + |contents| + room >= CHEAP_PREPEND
    }
  }

  function Retrieved(m: Model, len: nat): (r: Model)
    requires m.Valid() && len <= |m.contents|
    ensures r.Valid()
  {
    if len < |m.contents| then Model(m.contents[len..], m.front + len, m.room)
    else Model([], CHEAP_PREPEND, m.front + |m.contents| + m.room - CHEAP_PREPEND)
  }

  function Unwritten(m: Model, len: nat): (r: Model)
    requires m.Valid() && len <= |m.contents|
    ensures r.Valid()
  {
    Model(m.contents[..|m.contents| - len], m.front, m.room + len)
  }

  function WithRoom(m: Model, len: nat): (r: Model)
    requires m.Valid()
    ensures r.Valid() && r.contents == m.contents && r.room >= len
    ensures m.front >= CHEAP_PREPEND ==> r.front >= CHEAP_PREPEND
  {
    if m.room >= len then m
    else if m.room + m.front < len + CHEAP_PREPEND then m.(room := len)
    else m.(front := CHEAP_PREPEND, room := m.room + m.front - CHEAP_PREPEND)
  }

  function Claimed(m: Model, data: seq<byte>): (r: Model)
    requires m.Valid() && |data| <= m.room
    ensures r.Valid()
  {
    Model(m.contents + data, m.front, m.room - |data|)
  }

  function Appended(m: Model, data: seq<byte>): (r: Model)
    requires m.Valid()
    ensures r.Valid()
  {
    Claimed(WithRoom(m, |data|), data)
  }

  function Prepended(m: Model, data: seq<byte>): (r: Model)
    requires m.Valid() && |data| <= m.front
    ensures r.Valid()
  {
    Model(data + m.contents, m.front - |data|, m.room)
  }

  function Shrunk(m: Model, reserve: nat): (r: Model)
    requires m.Valid()
    ensures r.Valid()
  {
    Appended(WithRoom(Model([], CHEAP_PREPEND, INITIAL_SIZE), |m.contents| + reserve), m.contents)
  }

  /** How much one scatter read may deliver. */
  function ReadCapacity(m: Model): (n: nat)
    ensures n >= EXTRA_SIZE
  {
    m.room + (if m.room < EXTRA_SIZE then EXTRA_SIZE else 0)
  }

  function Received(m: Model, data: seq<byte>): (r: Model)
    requires m.Valid()
    ensures r.Valid()
  {
    if |data| <= m.room then Claimed(m, data) else Appended(Claimed(m, data[..m.room]), data[m.room..])
  }

  lemma {:induction false} ReceivedContents(m: Model, data: seq<byte>)
    requires m.Valid()
    ensures Received(m, data).contents == m.contents + data
  {
    if |data| > m.room {
      assert m.contents + data[..m.room] + data[m.room..] == m.contents + data;
    }
  }

  class Buffer {
    var store: array<byte>
    var readerIndex: nat
    var writerIndex: nat

    ghost predicate Valid()
      reads this
    {
      8 <= store.Length && readerIndex <= writerIndex <= store.Length
    }

    /** The readable bytes. */
    ghost function Contents(): seq<byte>
      requires Valid()
      reads this, store
    {
      store[readerIndex..writerIndex]
    }

    ghost function View(): (m: Model)
      requires Valid()
      reads this, store
      ensures m.Valid()
    {
      Model(Contents(), readerIndex, store.Length - writerIndex)
    }

    function ReadableBytes(): nat
      requires Valid()
      reads this
    {
      writerIndex - readerIndex
    }

    function WritableBytes(): nat
      requires Valid()
      reads this
    {
      store.Length - writerIndex
    }

    function PrependableBytes(): nat
      requires Valid()
      reads this
    {
      readerIndex
    }

    constructor (initialSize: nat)
      ensures Valid() && fresh(store) && View() == Model([], CHEAP_PREPEND, initialSize)
    {
      store := new byte[CHEAP_PREPEND + initialSize];
      readerIndex, writerIndex := CHEAP_PREPEND, CHEAP_PREPEND;
    }

    method RetrieveAll()
      requires Valid()
      modifies this`readerIndex, this`writerIndex
      ensures Valid() && View() == Retrieved(old(View()), old(ReadableBytes()))
    {
      readerIndex, writerIndex := CHEAP_PREPEND, CHEAP_PREPEND;
    }

    method Retrieve(len: nat)
      requires Valid() && len <= ReadableBytes()
      modifies this`readerIndex, this`writerIndex
      ensures Valid() && View() == Retrieved(old(View()), len) && Contents() == old(Contents())[len..]
    {
      if len < ReadableBytes() {
        readerIndex := readerIndex + len;
      } else {
        RetrieveAll();
      }
    }

    method RetrieveAsString(len: nat) returns (result: seq<byte>)
      requires Valid() && len <= ReadableBytes()
      modifies this`readerIndex, this`writerIndex
      ensures Valid() && result == old(Contents())[..len] && Contents() == old(Contents())[len..]
    {
      ghost var was := Contents();
      result := store[readerIndex..readerIndex + len];
      assert result == was[..len];
      Retrieve(len);
    }

    method Unwrite(len: nat)
      requires Valid() && len <= ReadableBytes()
      modifies this`writerIndex
      ensures Valid() && View() == Unwritten(old(View()), len)
    {
      writerIndex := writerIndex - len;
    }

    /** `vector::resize`: the old bytes, then zeros. */
    method Resize(size: nat)
      requires Valid() && size >= store.Length
      modifies this`store
      ensures Valid() && fresh(store) && store.Length == size
      ensures Contents() == old(Contents())
    {
      var bigger := new byte[size];
      var i := 0;
      while i < store.Length
        modifies bigger
        invariant 0 <= i <= store.Length
        invariant forall k :: 0 <= k < i ==> bigger[k] == store[k]
      {
        bigger[i] := store[i];
        i := i + 1;
      }
      store := bigger;
    }

    /** The forward copy of the readable bytes to just behind the reserved prefix, in place. */
    method MoveToFront()
      requires Valid() && readerIndex > CHEAP_PREPEND
      modifies this`readerIndex, this`writerIndex, store
      ensures Valid() && Contents() == old(Contents())
      ensures readerIndex == CHEAP_PREPEND && store.Length - writerIndex == old(store.Length - writerIndex + readerIndex - 8)
    {
      ghost var was := store[..];
      var from, n := readerIndex, writerIndex - readerIndex;
      var i := 0;
      while i < n
        modifies store
        invariant 0 <= i <= n
        invariant forall k :: 8 <= k < 8 + i ==> store[k] == was[from + k - 8]
        invariant forall k :: 8 + i <= k < store.Length ==> store[k] == was[k]
      {
        store[8 + i] := store[from + i];
        i := i + 1;
      }
      readerIndex := CHEAP_PREPEND;
      writerIndex := readerIndex + n;
      assert store[8..8 + n] == was[from..from + n];
    }

    /** Grow, or move the readable bytes if that makes enough room; then the assert on the reader index holds. */
    method MakeSpace(len: nat)
      requires Valid() && WritableBytes() < len
      modifies this, store
      ensures Valid() && View() == WithRoom(old(View()), len)
      ensures store == old(store) || fresh(store)
    {
      if WritableBytes() + PrependableBytes() < len + CHEAP_PREPEND {
        Resize(writerIndex + len);
      } else {
        assert CHEAP_PREPEND < readerIndex;
        MoveToFront();
      }
    }

    method EnsureWritableBytes(len: nat)
      requires Valid()
      modifies this, store
      ensures Valid() && View() == WithRoom(old(View()), len)
      ensures store == old(store) || fresh(store)
    {
      if WritableBytes() < len {
        MakeSpace(len);
      }
    }

    /** Copy into the writable part, without claiming it yet. */
    method Copy(at: nat, data: seq<byte>)
      requires Valid() && at + |data| <= store.Length
      modifies store
      ensures forall k :: 0 <= k < store.Length ==>
        store[k] == if at <= k < at + |data| then data[k - at] else old(store[k])
    {
      var i := 0;
      while i < |data|
        invariant 0 <= i <= |data|
        invariant forall k :: 0 <= k < store.Length ==>
          store[k] == if at <= k < at + i then data[k - at] else old(store[k])
      {
        store[at + i] := data[i];
        i := i + 1;
      }
    }

    method Append(data: seq<byte>)
      requires Valid()
      modifies this, store
      ensures Valid() && View() == Appended(old(View()), data) && Contents() == old(Contents()) + data
      ensures store == old(store) || fresh(store)
    {
      EnsureWritableBytes(|data|);
      CopyAndClaim(data);
    }

    /** Copy behind the readable bytes and claim the copied ones. */
    method CopyAndClaim(data: seq<byte>)
      requires Valid() && |data| <= WritableBytes()
      modifies this`writerIndex, store
      ensures Valid() && View() == Claimed(old(View()), data)
    {
      ghost var was := Contents();
      var w := writerIndex;
      Copy(w, data);
      writerIndex := w + |data|;
      assert store[readerIndex..w] == was;
      assert store[w..w + |data|] == data;
      assert Contents() == store[readerIndex..w] + store[w..w + |data|];
    }

    method Prepend(data: seq<byte>)
      requires Valid() && |data| <= PrependableBytes()
      modifies this`readerIndex, store
      ensures Valid() && View() == Prepended(old(View()), data) && Contents() == data + old(Contents())
    {
      ghost var was := Contents();
      readerIndex := readerIndex - |data|;
      Copy(readerIndex, data);
      assert store[readerIndex..readerIndex + |data|] == data;
      assert store[readerIndex + |data|..writerIndex] == was;
      assert Contents() == store[readerIndex..readerIndex + |data|] + store[readerIndex + |data|..writerIndex];
    }

    /** A new buffer of the needed size takes over the readable bytes. */
    method Shrink(reserve: nat)
      requires Valid()
      modifies this
      ensures Valid() && View() == Shrunk(old(View()), reserve) && fresh(store)
      ensures Contents() == old(Contents()) && WritableBytes() >= reserve
    {
      var other := new Buffer(INITIAL_SIZE);
      other.EnsureWritableBytes(ReadableBytes() + reserve);
      other.Append(store[readerIndex..writerIndex]);
      store, readerIndex, writerIndex := other.store, other.readerIndex, other.writerIndex;
    }

    /** `readFd`: the kernel fills the writable part first and the extra buffer second; `None` is a failed read. */
    method ReadFd(incoming: Option<seq<byte>>) returns (n: int)
      requires Valid() && (incoming.Some? ==> |incoming.value| <= ReadCapacity(View()))
      modifies this, store
      ensures Valid() && (store == old(store) || fresh(store))
      ensures n == if incoming.None? then -1 else |incoming.value|
      ensures View() == if incoming.None? then old(View()) else Received(old(View()), incoming.value)
      ensures Contents() == old(Contents()) + (if incoming.None? then [] else incoming.value)
    {
      if incoming.None? {
        return -1;
      }
      var data := incoming.value;
      n := |data|;
      ReceivedContents(View(), data);
      hide Appended, Claimed;
      var writable := WritableBytes();
      if n <= writable {
        CopyAndClaim(data);
      } else {
        CopyAndClaim(data[..writable]);
        Append(data[writable..]);
      }
    }

    // -------------------------------------------------------------- integers of 1, 2, 4 and 8 bytes

    method AppendInt(n: nat, x: int)
      requires Valid() && Fits(n, x)
      modifies this, store
      ensures Valid() && Contents() == old(Contents()) + EncodeInt(n, x)
      ensures store == old(store) || fresh(store)
    {
      Append(EncodeInt(n, x));
    }

    method PrependInt(n: nat, x: int)
      requires Valid() && Fits(n, x) && n <= PrependableBytes()
      modifies this`readerIndex, store
      ensures Valid() && Contents() == EncodeInt(n, x) + old(Contents())
    {
      Prepend(EncodeInt(n, x));
    }

    /** What was appended or prepended is what is read, and it is gone afterwards. */
    method ReadInt(n: nat) returns (x: int)
      requires Valid() && n <= ReadableBytes()
      modifies this`readerIndex, this`writerIndex
      ensures Valid() && Contents() == old(Contents())[n..] && x == DecodeInt(old(Contents())[..n])
      ensures n > 0 ==> Fits(n, x)
      ensures forall y :: Fits(n, y) && EncodeInt(n, y) <= old(Contents()) ==> x == y
    {
      ghost var c := Contents();
      x := DecodeInt(store[readerIndex..readerIndex + n]);
      DecodedFits(store[readerIndex..readerIndex + n]);
      assert store[readerIndex..readerIndex + n] == c[..n];
      Retrieve(n);
      forall y | Fits(n, y) && EncodeInt(n, y) <= c
        ensures x == y
      {
        IntRoundTrip(n, y);
        assert c[..n] == EncodeInt(n, y);
      }
    }
  }

  // ---------------------------------------------------------------- any run of operations

  datatype Op =
    | AppendOp(data: seq<byte>)
    | PrependOp(data: seq<byte>)
    | RetrieveOp(len: nat)
    | UnwriteOp(len: nat)
    | ShrinkOp(reserve: nat)
    | ReadFdOp(incoming: Option<seq<byte>>)

  /** The operation on the abstract byte sequence. */
  function Meaning(op: Op, c: seq<byte>): seq<byte> {
    match op
    case AppendOp(data) => c + data
    case PrependOp(data) => data + c
    case RetrieveOp(len) => if len <= |c| then c[len..] else c
    case UnwriteOp(len) => if len <= |c| then c[..|c| - len] else c
    case ShrinkOp(_) => c
    case ReadFdOp(incoming) => if incoming.None? then c else c + incoming.value
  }

  function MeaningOfAll(ops: seq<Op>, c: seq<byte>): seq<byte> {
    if ops == [] then c else Meaning(ops[|ops| - 1], MeaningOfAll(ops[..|ops| - 1], c))
  }

  /** The asserts of the operation, and what the kernel can deliver. */
  predicate Allowed(op: Op, m: Model) {
    match op
    case AppendOp(_) => true
    case PrependOp(data) => |data| <= m.front
    case RetrieveOp(len) => len <= |m.contents|
    case UnwriteOp(len) => len <= |m.contents|
    case ShrinkOp(_) => true
    case ReadFdOp(incoming) => incoming.Some? ==> |incoming.value| <= ReadCapacity(m)
  }

  function After(op: Op, m: Model): (r: Model)
    requires m.Valid() && Allowed(op, m)
    ensures r.Valid()
  {
    match op
    case AppendOp(data) => Appended(m, data)
    case PrependOp(data) => Prepended(m, data)
    case RetrieveOp(len) => Retrieved(m, len)
    case UnwriteOp(len) => Unwritten(m, len)
    case ShrinkOp(reserve) => Shrunk(m, reserve)
    case ReadFdOp(incoming) => if incoming.None? then m else Received(m, incoming.value)
  }

  /** The operations that go through, and the buffer after them: one whose assert fails is skipped. */
  function Performed(ops: seq<Op>, m: Model): (r: (seq<Op>, Model))
    requires m.Valid()
    ensures r.1.Valid()
  {
    if ops == [] then ([], m)
    else
      var (done, now) := Performed(ops[..|ops| - 1], m);
      var op := ops[|ops| - 1];
      if Allowed(op, now) then (done + [op], After(op, now)) else (done, now)
  }

  /** On the readable bytes every operation does what it means, wherever they lie in the store. */
  lemma {:induction false} AfterMeans(op: Op, m: Model)
    requires m.Valid() && Allowed(op, m)
    ensures After(op, m).contents == Meaning(op, m.contents)
  {
    match op
    case ReadFdOp(incoming) =>
      if incoming.Some? {
        ReceivedContents(m, incoming.value);
      }
    case _ =>
  }

  lemma {:induction false} PerformedMeans(ops: seq<Op>, m: Model)
    requires m.Valid()
    ensures var (done, now) := Performed(ops, m); now.contents == MeaningOfAll(done, m.contents)
  {
    hide Meaning, After, Allowed;
    if ops != [] {
      PerformedMeans(ops[..|ops| - 1], m);
      var (done, now) := Performed(ops[..|ops| - 1], m);
      var op := ops[|ops| - 1];
      if Allowed(op, now) {
        AfterMeans(op, now);
        assert (done + [op])[..|done|] == done;
      }
    }
  }

  /** The reserve in front is there as long as nothing was prepended: eight bytes can always be prepended once. */
  lemma {:induction false} ReserveKept(ops: seq<Op>, m: Model)
    requires m.Valid() && m.front >= CHEAP_PREPEND && forall i :: 0 <= i < |ops| ==> !ops[i].PrependOp?
    ensures Performed(ops, m).1.front >= CHEAP_PREPEND
    ensures forall data: seq<byte> :: |data| <= CHEAP_PREPEND ==> Allowed(PrependOp(data), Performed(ops, m).1)
  {
    if ops != [] {
      ReserveKept(ops[..|ops| - 1], m);
    }
  }

  /** The size of the store. */
  function Size(m: Model): nat {
    m.front + |m.contents| + m.room
  }

  /** The store grows exactly if the data fits neither behind the readable bytes nor after they are moved to the front,
      and then to just what is needed. */
  lemma {:induction false} GrowsExactly(m: Model, data: seq<byte>)
    requires m.Valid()
    ensures var fits := |data| <= m.room || 8 + |m.contents| + |data| <= Size(m);
            Size(Appended(m, data)) == if fits then Size(m) else m.front + |m.contents| + |data|
  {
  }

  /** Where the rest lies: emptying the buffer brings it back to the front, nothing else moves or resizes it. */
  lemma {:induction false} RestStays(m: Model, len: nat, data: seq<byte>)
    requires m.Valid() && len <= |m.contents|
    ensures Retrieved(m, len).front == (if len == |m.contents| then 8 else m.front + len)
    ensures Unwritten(m, len).front == m.front && Size(Unwritten(m, len)) == Size(m)
    ensures Size(Retrieved(m, len)) == Size(m)
    ensures |data| <= m.front ==> Prepended(m, data).room == m.room && Size(Prepended(m, data)) == Size(m)
  {
  }

  /** Shrinking leaves the eight bytes in front, and what is asked for, but at least 1024 bytes, behind them. */
  lemma {:induction false} ShrinksTo(m: Model, reserve: nat)
    requires m.Valid()
    ensures var need, n := |m.contents| + reserve, Shrunk(m, reserve);
            n.contents == m.contents && n.front == 8 && Size(n) == 8 + (if need <= 1024 then 1024 else need)
  {
  }

  /** One scatter read can fill the room, and 65536 bytes more if the room is smaller than that. */
  lemma {:induction false} ReadsUpTo(m: Model)
    ensures ReadCapacity(m) == if m.room < 65536 then m.room + 65536 else m.room
  {
  }

  method Perform(b: Buffer, op: Op)
    requires b.Valid() && Allowed(op, b.View())
    modifies b, b.store
    ensures b.Valid() && b.View() == After(op, old(b.View()))
    ensures b.store == old(b.store) || fresh(b.store)
  {
    match op
    case AppendOp(data) => b.Append(data);
    case PrependOp(data) => b.Prepend(data);
    case RetrieveOp(len) => b.Retrieve(len);
    case UnwriteOp(len) => b.Unwrite(len);
    case ShrinkOp(reserve) => b.Shrink(reserve);
    case ReadFdOp(incoming) => var n := b.ReadFd(incoming);
  }

  /** Whether the asserts of the operation hold, from the indices alone. */
  method Admits(b: Buffer, op: Op) returns (ok: bool)
    requires b.Valid()
    ensures ok == Allowed(op, b.View())
  {
    match op
    case AppendOp(_) => ok := true;
    case PrependOp(data) => ok := |data| <= b.PrependableBytes();
    case RetrieveOp(len) => ok := len <= b.ReadableBytes();
    case UnwriteOp(len) => ok := len <= b.ReadableBytes();
    case ShrinkOp(_) => ok := true;
    case ReadFdOp(incoming) =>
      var extra := if b.WritableBytes() < EXTRA_SIZE then EXTRA_SIZE else 0;
      ok := incoming.None? || |incoming.value| <= b.WritableBytes() + extra;
  }

  /** Any run of operations, those whose asserts fail left out: exactly these were performed, and the readable bytes are
      what they mean. */
  method RunOps(initialSize: nat, ops: seq<Op>) returns (done: seq<Op>, contents: seq<byte>)
    ensures done == Performed(ops, Model([], CHEAP_PREPEND, initialSize)).0
    ensures contents == MeaningOfAll(done, [])
  {
    hide After, Allowed, Meaning;
    var b := new Buffer(initialSize);
    ghost var start := b.View();
    done := [];
    for i := 0 to |ops|
      invariant b.Valid() && fresh(b) && fresh(b.store)
      invariant (done, b.View()) == Performed(ops[..i], start)
    {
      assert ops[..i + 1][..i] == ops[..i];
      var ok := Admits(b, ops[i]);
      if ok {
        Perform(b, ops[i]);
        done := done + [ops[i]];
      }
    }
    assert ops[..|ops|] == ops;
    PerformedMeans(ops, start);
    contents := b.store[b.readerIndex..b.writerIndex];
  }
}
