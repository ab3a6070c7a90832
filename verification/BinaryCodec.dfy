/** The wire format of BinaryReader.h and BinaryReader.cpp: integers in network order and strings behind a base-128
    length prefix. */
module BinaryCodec {
  import opened Bytes
  import opened NetworkOrder

  /** `int` cannot hold a length of 2^31 or more, `uint32_t` no index of 2^32 or more. */
  const INT_LIMIT := 0x8000_0000
  const INDEX_LIMIT := 0x1_0000_0000

  // ---------------------------------------------------------------- the length prefix

  /** The groups in front of the last one, most significant first, each with its continuation bit. */
  function Leading(u: nat): seq<byte> {
    if u == 0 then [] else Leading(u / 128) + [128 + u % 128]
  }

  function Prefix(len: nat): seq<byte> {
    Leading(len / 128) + [len % 128]
  }

  /** `len >> (7 * i)` for the shifts the loop uses. */
  function Shifted(len: nat, i: nat): nat
    requires i <= 5
  {
    if i == 0 then len else if i == 1 then len / 128 else if i == 2 then len / 16384
    else if i == 3 then len / 2097152 else if i == 4 then len / 268435456 else len / 34359738368
  }

  lemma {:induction false} ShiftStep(len: nat, i: nat)
    requires i < 5
    ensures Shifted(len, i + 1) == Shifted(len, i) / 128
  {
  }

  /** What five groups of seven bits can hold. */
  const GROUPS_LIMIT := 0x8_0000_0000

  function Low(len: nat): nat {
    len % GROUPS_LIMIT
  }

  lemma {:induction false} Groups(a: nat, k: nat)
    ensures (a + 128 * k) / 128 == a / 128 + k && (a + 128 * k) % 128 == a % 128
  {
  }

  lemma {:induction false} HighGroups(low: nat, high: nat, i: nat)
    requires i < 5
    ensures Shifted(low + GROUPS_LIMIT * high, i) == Shifted(low, i) + 128 * ([268435456, 2097152, 16384, 128, 1][i] * high)
  {
    if i > 0 {
      HighGroups(low, high, i - 1);
      var len := low + GROUPS_LIMIT * high;
      ShiftStep(len, i - 1);
      ShiftStep(low, i - 1);
      hide Shifted;
      Groups(Shifted(low, i - 1), [268435456, 2097152, 16384, 128, 1][i - 1] * high);
    }
  }

  lemma {:induction false} LowGroups(len: nat, i: nat)
    requires i < 5
    ensures Shifted(len, i) % 128 == Shifted(len % GROUPS_LIMIT, i) % 128
  {
    hide Shifted;
    var low, high := len % GROUPS_LIMIT, len / GROUPS_LIMIT;
    assert len == low + GROUPS_LIMIT * high;
    HighGroups(low, high, i);
    Groups(Shifted(low, i), [268435456, 2097152, 16384, 128, 1][i] * high);
  }

  lemma {:induction false} Beyond(low: nat)
    requires low < GROUPS_LIMIT
    ensures Leading(Shifted(low, 5)) == [] && Shifted(low, 0) == low
  {
  }

  /** Only the low 35 bits of a length are written, and nothing at all if they are zero in a longer one. */
  method Compress(len: nat) returns (out: seq<byte>)
    ensures len < GROUPS_LIMIT ==> out == Prefix(len)
    ensures len >= GROUPS_LIMIT ==> out == if Low(len) == 0 then [] else Prefix(Low(len))
  {
    if len < 128 {
      return [len % 128];
    }
    out := [];
    ghost var low := Low(len);
    assert low < GROUPS_LIMIT && (len < GROUPS_LIMIT ==> low == len);
    hide Shifted, Leading, Prefix, Low;
    Beyond(low);
    var i := 4;
    while i >= 0
      invariant -1 <= i <= 4
      invariant i >= 0 ==> out == Leading(Shifted(low, i + 1))
      invariant i < 0 ==> out == if low == 0 then [] else Prefix(low)
    {
      NextShift(len, i);
      NextGroup(Shifted(low, i));
      var c: int := Shifted(len, i) % 128;
      if !(c == 0 && out == []) {
        if i > 0 {
          c := c + 128;
        }
        out := out + [c];
      }
      i := i - 1;
    }
  }

  lemma {:induction false} NextShift(len: nat, i: nat)
    requires i < 5
    ensures Shifted(len, i) % 128 == Shifted(Low(len), i) % 128
    ensures Shifted(Low(len), i + 1) == Shifted(Low(len), i) / 128
  {
    ShiftStep(Low(len), i);
    LowGroups(len, i);
  }

  lemma {:induction false} NextGroup(u: nat)
    ensures u % 128 == 0 && Leading(u / 128) == [] <==> u == 0
    ensures Leading(0) == [] && (u > 0 ==> Leading(u) == Leading(u / 128) + [128 + u % 128])
    ensures Prefix(u) == Leading(u / 128) + [u % 128]
  {
  }

  /** Bytes that end the prefix where the first one without a continuation bit stands. */
  predicate IsVarint(s: seq<byte>) {
    s != [] && s[|s| - 1] < 128 && forall i :: 0 <= i < |s| - 1 ==> s[i] >= 128
  }

  function Value(s: seq<byte>): nat {
    if s == [] then 0 else 128 * Value(s[..|s| - 1]) + s[|s| - 1] % 128
  }

  lemma {:induction false} LeadingIs(u: nat)
    ensures Value(Leading(u)) == u && forall i :: 0 <= i < |Leading(u)| ==> Leading(u)[i] >= 128
  {
    if u > 0 {
      LeadingIs(u / 128);
      var s := Leading(u);
      assert s[..|s| - 1] == Leading(u / 128);
    }
  }

  lemma {:induction false} PrefixIs(len: nat)
    ensures IsVarint(Prefix(len)) && Value(Prefix(len)) == len
  {
    LeadingIs(len / 128);
    var s := Prefix(len);
    assert s[..|s| - 1] == Leading(len / 128);
  }

  lemma {:induction false} LeadingShortest(s: seq<byte>, u: nat)
    requires Value(s) == u
    ensures |Leading(u)| <= |s|
    decreases |s|
  {
    if u > 0 {
      LeadingShortest(s[..|s| - 1], u / 128);
    }
  }

  /** No encoding of the same length in this format is shorter. */
  lemma {:induction false} PrefixShortest(s: seq<byte>, len: nat)
    requires IsVarint(s) && Value(s) == len
    ensures |Prefix(len)| <= |s|
  {
    LeadingShortest(s[..|s| - 1], len / 128);
  }

  lemma {:induction false} LeadingLength(u: nat, k: nat)
    requires u < Pow128(k)
    ensures |Leading(u)| <= k
  {
    if u > 0 {
      LeadingLength(u / 128, k - 1);
    }
  }

  function Pow128(k: nat): nat {
    if k == 0 then 1 else 128 * Pow128(k - 1)
  }

  /** At most five bytes for every length below 2^35. */
  lemma {:induction false} PrefixLength(len: nat)
    requires len < GROUPS_LIMIT
    ensures 1 <= |Prefix(len)| <= 5
  {
    assert Pow128(2) == 16384 && Pow128(3) == 2097152 && Pow128(4) == 268435456;
    LeadingLength(len / 128, 4);
  }

  /** The example of every base-128 format: 300 is 0xAC 0x02 the other way round, the high group first. */
  lemma {:induction false} PrefixOf300()
    ensures Prefix(0) == [0] && Prefix(127) == [127] && Prefix(128) == [0x81, 0] && Prefix(300) == [0x82, 0x2c]
  {
    assert Leading(2) == Leading(0) + [130] && Leading(1) == Leading(0) + [129];
  }

  // ---------------------------------------------------------------- reading a length

  /** The decoding loop: the length and where it ends; `None` where the code would overflow or leave the buffer. */
  function ReadLength(s: seq<byte>, i: nat, acc: nat): (r: Option<(nat, nat)>)
    requires i <= |s|
    ensures r.Some? ==> r.value.0 < INT_LIMIT && i < r.value.1 <= |s|
    decreases |s| - i
  {
    if i == |s| then None
    else
      var v := 128 * acc + s[i] % 128;
      if v >= INT_LIMIT then None
      else if s[i] < 128 then Some((v, i + 1))
      else ReadLength(s, i + 1, v)
  }

  lemma {:induction false} ReadGroup(s: seq<byte>, i: nat, acc: nat)
    requires i < |s| && s[i] >= 128 && 128 * acc + s[i] % 128 < INT_LIMIT
    ensures ReadLength(s, i, acc) == ReadLength(s, i + 1, 128 * acc + s[i] % 128)
  {
  }

  lemma {:induction false} LeadingReads(s: seq<byte>, i: nat, u: nat)
    requires At(s, i, Leading(u)) && u < INT_LIMIT
    ensures i + |Leading(u)| <= |s| && ReadLength(s, i, 0) == ReadLength(s, i + |Leading(u)|, u)
    decreases u
  {
    hide At, ReadLength;
    AtInside(s, i, Leading(u));
    if u > 0 {
      var p := Leading(u / 128);
      AtSplit(s, i, p, [128 + u % 128]);
      LeadingReads(s, i, u / 128);
      AtIndex(s, i + |p|, [128 + u % 128], 0);
      ReadGroup(s, i + |p|, u / 128);
    }
  }

  /** The prefix delimits itself: the reader stops right behind it, whatever follows. */
  lemma {:induction false} PrefixReads(s: seq<byte>, i: nat, len: nat)
    requires At(s, i, Prefix(len)) && len < INT_LIMIT
    ensures i + |Prefix(len)| <= |s| && ReadLength(s, i, 0) == Some((len, i + |Prefix(len)|))
  {
    hide At;
    AtInside(s, i, Prefix(len));
    var p := Leading(len / 128);
    AtSplit(s, i, p, [len % 128]);
    LeadingReads(s, i, len / 128);
    AtIndex(s, i + |p|, [len % 128], 0);
  }

  // ---------------------------------------------------------------- fields

  datatype Shape = IntShape(width: nat) | TextShape
  datatype Field = Int(width: nat, value: int) | Text(bytes: seq<byte>)

  function ShapeOf(f: Field): Shape {
    match f
    case Int(width, _) => IntShape(width)
    case Text(_) => TextShape
  }

  function Shapes(fields: seq<Field>): seq<Shape> {
    seq(|fields|, i requires 0 <= i < |fields| => ShapeOf(fields[i]))
  }

  predicate IsField(f: Field) {
    match f
    case Int(width, x) => Fits(width, x)
    case Text(bytes) => |bytes| < INT_LIMIT
  }

  predicate AreFields(fields: seq<Field>) {
    forall k :: 0 <= k < |fields| ==> IsField(fields[k])
  }

  function EncodeField(f: Field): seq<byte>
    requires IsField(f)
  {
    match f
    case Int(width, x) => EncodeInt(width, x)
    case Text(bytes) => Prefix(|bytes|) + bytes
  }

  function EncodeAll(fields: seq<Field>): seq<byte>
    requires AreFields(fields)
  {
    if fields == [] then [] else EncodeField(fields[0]) + EncodeAll(fields[1..])
  }

  lemma {:induction false} EncodeParts(fields: seq<Field>)
    requires fields != [] && AreFields(fields)
    ensures EncodeAll(fields) == EncodeField(fields[0]) + EncodeAll(fields[1..])
  {
  }

  lemma {:induction false} EncodeAppend(a: seq<Field>, b: seq<Field>)
    requires AreFields(a) && AreFields(b)
    ensures EncodeAll(a + b) == EncodeAll(a) + EncodeAll(b)
    decreases |a|
  {
    hide EncodeField;
    if a == [] {
      assert a + b == b;
    } else {
      assert (a + b)[1..] == a[1..] + b;
      EncodeAppend(a[1..], b);
      assert EncodeField(a[0]) + (EncodeAll(a[1..]) + EncodeAll(b)) == EncodeField(a[0]) + EncodeAll(a[1..]) + EncodeAll(b);
    }
  }

  lemma {:induction false} EncodeOne(f: Field)
    requires IsField(f)
    ensures EncodeAll([f]) == EncodeField(f)
  {
    assert [f][1..] == [] && EncodeField(f) + [] == EncodeField(f);
  }

  /** Where a field starts in the encoding. */
  function Start(fields: seq<Field>, k: nat): nat
    requires AreFields(fields) && k <= |fields|
  {
    |EncodeAll(fields[..k])|
  }

  lemma {:induction false} StartNext(fields: seq<Field>, k: nat)
    requires AreFields(fields) && k < |fields|
    ensures EncodeAll(fields[..k + 1]) == EncodeAll(fields[..k]) + EncodeField(fields[k])
    ensures Start(fields, k + 1) == Start(fields, k) + |EncodeField(fields[k])|
    ensures At(EncodeAll(fields), Start(fields, k), EncodeField(fields[k]))
  {
    hide EncodeField, At, EncodeAll;
    assert fields[..k + 1] == fields[..k] + [fields[k]] && fields == fields[..k + 1] + fields[k + 1..];
    EncodeOne(fields[k]);
    EncodeAppend(fields[..k], [fields[k]]);
    EncodeAppend(fields[..k + 1], fields[k + 1..]);
    AtMiddle(EncodeAll(fields[..k]), EncodeField(fields[k]), EncodeAll(fields[k + 1..]));
  }

  // ---------------------------------------------------------------- writing with a 32-bit index

  datatype Output = Output(buffer: seq<byte>, index: nat)

  /** An integer goes where the index stands and ends the buffer; a string goes behind the buffer. The index is
      `uint32_t`. */
  function Write(w: Output, f: Field): (r: Output)
    requires IsField(f) && w.index <= |w.buffer|
    ensures r.index <= |r.buffer|
  {
    var e := EncodeField(f);
    Output((if f.Int? then w.buffer[..w.index] else w.buffer) + e, (w.index + |e|) % INDEX_LIMIT)
  }

  function Written(fields: seq<Field>): (r: Output)
    requires AreFields(fields)
    ensures r.index <= |r.buffer|
  {
    if fields == [] then Output([], 0) else Write(Written(fields[..|fields| - 1]), fields[|fields| - 1])
  }

  lemma {:induction false} WrappedSum(a: nat, b: nat)
    ensures (a % INDEX_LIMIT + b) % INDEX_LIMIT == (a + b) % INDEX_LIMIT
  {
    assert a + b == a % INDEX_LIMIT + b + INDEX_LIMIT * (a / INDEX_LIMIT);
  }

  /** The index counts what was written modulo 2^32, whatever became of the buffer. */
  lemma {:induction false} IndexCounts(fields: seq<Field>)
    requires AreFields(fields)
    ensures Written(fields).index == |EncodeAll(fields)| % INDEX_LIMIT
    ensures |Written(fields).buffer| <= |EncodeAll(fields)|
  {
    hide EncodeField, EncodeAll;
    if fields == [] {
      assert EncodeAll([]) == [] by { EncodeNothing(); }
    } else {
      var n := |fields| - 1;
      IndexCounts(fields[..n]);
      StartNext(fields, n);
      assert fields[..n + 1] == fields;
      WrappedSum(|EncodeAll(fields[..n])|, |EncodeField(fields[n])|);
    }
  }

  lemma {:induction false} EncodeNothing()
    ensures EncodeAll([]) == []
  {
  }

  /** Every integer starts below 2^32. */
  predicate IntsInReach(fields: seq<Field>)
    requires AreFields(fields)
  {
    forall k :: 0 <= k < |fields| && fields[k].Int? ==> Start(fields, k) < INDEX_LIMIT
  }

  /** The writer loses nothing exactly when every integer starts below 2^32; otherwise its buffer is too short for good. */
  lemma {:induction false} WriterIntactExactly(fields: seq<Field>)
    requires AreFields(fields)
    ensures IntsInReach(fields) ==> Written(fields).buffer == EncodeAll(fields)
    ensures !IntsInReach(fields) ==> |Written(fields).buffer| < |EncodeAll(fields)|
  {
    hide EncodeField, EncodeAll;
    if fields == [] {
      EncodeNothing();
    } else {
      var n := |fields| - 1;
      var p, f := fields[..n], fields[n];
      WriterIntactExactly(p);
      IndexCounts(p);
      StartNext(fields, n);
      assert fields[..n + 1] == fields;
      forall k | 0 <= k < n
        ensures Start(fields, k) == Start(p, k)
      {
        assert p[..k] == fields[..k];
      }
      assert IntsInReach(fields) <==> IntsInReach(p) && (f.Int? ==> |EncodeAll(p)| < INDEX_LIMIT);
      if f.Int? && IntsInReach(p) && |EncodeAll(p)| < INDEX_LIMIT {
        assert EncodeAll(p)[..|EncodeAll(p)|] == EncodeAll(p);
      }
    }
  }

  // ---------------------------------------------------------------- reading with a 32-bit index

  /** One field read at `i`: its value and the next index; `None` where the code fails or would leave the buffer. */
  function DecodeField(s: seq<byte>, i: nat, shape: Shape): (r: Option<(Field, nat)>)
    requires i <= |s|
    ensures r.Some? ==> r.value.1 <= |s|
  {
    match shape
    case IntShape(width) =>
      if i + width > |s| then None
      else Some((Int(width, DecodeInt(s[i..i + width])), (i + width) % INDEX_LIMIT))
    case TextShape =>
      var r := ReadLength(s, i, 0);
      if r.None? then None
      else
        var from := r.value.1 % INDEX_LIMIT;
        if from + r.value.0 > |s| then None
        else Some((Text(s[from..from + r.value.0]), (from + r.value.0) % INDEX_LIMIT))
  }

  function DecodeAll(s: seq<byte>, i: nat, shapes: seq<Shape>): Option<seq<Field>>
    requires i <= |s|
    decreases |shapes|
  {
    if shapes == [] then Some([])
    else
      var r := DecodeField(s, i, shapes[0]);
      if r.None? then None else Joined([r.value.0], DecodeAll(s, r.value.1, shapes[1..]))
  }

  /** The fields read so far, followed by the outcome of the rest. */
  function Joined(done: seq<Field>, rest: Option<seq<Field>>): Option<seq<Field>> {
    if rest.None? then None else Some(done + rest.value)
  }

  lemma {:induction false} JoinedParts(done: seq<Field>, f: Field, rest: Option<seq<Field>>)
    ensures Joined([], rest) == rest && Joined(done, Joined([f], rest)) == Joined(done + [f], rest)
  {
    if rest.Some? {
      assert [] + rest.value == rest.value && done + ([f] + rest.value) == done + [f] + rest.value;
    }
  }

  lemma {:induction false} JoinedNone(done: seq<Field>)
    ensures Joined(done, None) == None
  {
  }

  lemma {:induction false} JoinedEmpty(done: seq<Field>)
    ensures Joined(done, Some([])) == Some(done)
  {
    assert done + [] == done;
  }

  lemma {:induction false} DecodeNone(s: seq<byte>, i: nat)
    requires i <= |s|
    ensures DecodeAll(s, i, []) == Some([])
  {
  }

  lemma {:induction false} DecodeNext(s: seq<byte>, i: nat, shapes: seq<Shape>)
    requires i <= |s| && shapes != []
    ensures var r := DecodeField(s, i, shapes[0]);
            DecodeAll(s, i, shapes)
            == if r.None? then None else Joined([r.value.0], DecodeAll(s, r.value.1, shapes[1..]))
  {
    hide DecodeField;
  }

  lemma {:induction false} ShapesParts(fields: seq<Field>)
    ensures fields == [] ==> Shapes(fields) == []
    ensures fields != [] ==>
      Shapes(fields) != [] && Shapes(fields)[0] == ShapeOf(fields[0]) && Shapes(fields)[1..] == Shapes(fields[1..])
  {
  }

  /** How much of the field stands in front of its data. */
  function Header(f: Field): nat {
    if f.Int? then 0 else |Prefix(|f.bytes|)|
  }

  /** The data of every field starts below 2^32. */
  predicate InReach(fields: seq<Field>)
    requires AreFields(fields)
  {
    forall k :: 0 <= k < |fields| ==> Start(fields, k) + Header(fields[k]) < INDEX_LIMIT
  }

  lemma {:induction false} FieldReads(s: seq<byte>, i: nat, f: Field)
    requires IsField(f) && At(s, i, EncodeField(f)) && i + Header(f) < INDEX_LIMIT
    ensures i + |EncodeField(f)| <= |s|
    ensures DecodeField(s, i, ShapeOf(f)) == Some((f, (i + |EncodeField(f)|) % INDEX_LIMIT))
  {
    hide Prefix, ReadLength, EncodeInt, DecodeInt;
    match f
    case Int(width, x) => IntRoundTrip(width, x);
    case Text(bytes) =>
      AtSplit(s, i, Prefix(|bytes|), bytes);
      PrefixReads(s, i, |bytes|);
  }

  /** Reading from an offset that the index holds modulo 2^32. */
  function DecodeFrom(s: seq<byte>, i: nat, shapes: seq<Shape>): Option<seq<Field>>
    requires i <= |s|
  {
    DecodeAll(s, i % INDEX_LIMIT, shapes)
  }

  lemma {:induction false} DecodeFromNext(s: seq<byte>, i: nat, shapes: seq<Shape>, f: Field)
    requires IsField(f) && At(s, i, EncodeField(f)) && i + Header(f) < INDEX_LIMIT
    requires shapes != [] && shapes[0] == ShapeOf(f)
    ensures i + |EncodeField(f)| <= |s|
    ensures DecodeFrom(s, i, shapes) == Joined([f], DecodeFrom(s, i + |EncodeField(f)|, shapes[1..]))
  {
    hide DecodeField, DecodeAll, EncodeField, At, Joined, Header, IsField;
    FieldReads(s, i, f);
    DecodeNext(s, i, shapes);
  }

  lemma {:induction false} ReadsOne(fields: seq<Field>, k: nat)
    requires AreFields(fields) && k < |fields| && Start(fields, k) + Header(fields[k]) < INDEX_LIMIT
    ensures Start(fields, k) <= |EncodeAll(fields)| && Start(fields, k + 1) <= |EncodeAll(fields)|
    ensures DecodeFrom(EncodeAll(fields), Start(fields, k), Shapes(fields[k..]))
         == Joined([fields[k]], DecodeFrom(EncodeAll(fields), Start(fields, k + 1), Shapes(fields[k + 1..])))
  {
    assert IsField(fields[k]);
    hide *;
    StartInside(fields, k);
    StartInside(fields, k + 1);
    StartNext(fields, k);
    ShapesParts(fields[k..]);
    assert fields[k..][1..] == fields[k + 1..];
    DecodeFromNext(EncodeAll(fields), Start(fields, k), Shapes(fields[k..]), fields[k]);
  }

  /** The encoding is read field by field as far as the fields are in reach. */
  lemma {:induction false} ReadsUpTo(fields: seq<Field>, k: nat, m: nat)
    requires AreFields(fields) && k <= m <= |fields|
    requires forall j :: k <= j < m ==> Start(fields, j) + Header(fields[j]) < INDEX_LIMIT
    ensures Start(fields, k) <= |EncodeAll(fields)| && Start(fields, m) <= |EncodeAll(fields)|
    ensures DecodeFrom(EncodeAll(fields), Start(fields, k), Shapes(fields[k..]))
         == Joined(fields[k..m], DecodeFrom(EncodeAll(fields), Start(fields, m), Shapes(fields[m..])))
    decreases m - k
  {
    hide *;
    StartInside(fields, k);
    StartInside(fields, m);
    var rest := DecodeFrom(EncodeAll(fields), Start(fields, m), Shapes(fields[m..]));
    if k == m {
      JoinedParts([], Text([]), rest);
      assert fields[k..m] == [];
    } else {
      ReadsOne(fields, k);
      ReadsUpTo(fields, k + 1, m);
      assert [fields[k]] + fields[k + 1..m] == fields[k..m];
      JoinedTwice(fields[k], fields[k + 1..m], rest);
    }
  }

  lemma {:induction false} JoinedTwice(f: Field, done: seq<Field>, rest: Option<seq<Field>>)
    ensures Joined([f], Joined(done, rest)) == Joined([f] + done, rest)
  {
    if rest.Some? {
      assert [f] + (done + rest.value) == [f] + done + rest.value;
    }
  }

  lemma {:induction false} StartInside(fields: seq<Field>, k: nat)
    requires AreFields(fields) && k <= |fields|
    ensures Start(fields, k) <= |EncodeAll(fields)|
    ensures Start(fields, 0) == 0 && Start(fields, |fields|) == |EncodeAll(fields)|
  {
    hide EncodeField;
    assert fields == fields[..k] + fields[k..] && fields[..0] == [] && fields[..|fields|] == fields;
    EncodeAppend(fields[..k], fields[k..]);
  }

  /** What the reader makes of what the writer left is what was written. */
  predicate RoundTrips(fields: seq<Field>)
    requires AreFields(fields)
  {
    DecodeAll(Written(fields).buffer, 0, Shapes(fields)) == Some(fields)
  }

  /** Fields in reach are read back identically and in order; less than 2^32 bytes in all are always in reach. */
  lemma {:induction false} FieldsRoundTrip(fields: seq<Field>)
    requires AreFields(fields)
    ensures InReach(fields) ==> Written(fields).buffer == EncodeAll(fields) && RoundTrips(fields)
    ensures |EncodeAll(fields)| < INDEX_LIMIT ==> InReach(fields)
  {
    hide EncodeAll, DecodeAll, Written, Joined;
    if InReach(fields) {
      WriterIntactExactly(fields);
      ReadsUpTo(fields, 0, |fields|);
      StartInside(fields, 0);
      assert fields[0..] == fields && fields[|fields|..] == [] && fields[0..|fields|] == fields;
      ShapesParts([]);
      DecodeNone(EncodeAll(fields), Start(fields, |fields|) % INDEX_LIMIT);
      JoinedEmpty(fields);
    }
    if |EncodeAll(fields)| < INDEX_LIMIT {
      forall k | 0 <= k < |fields|
        ensures Start(fields, k) + Header(fields[k]) < INDEX_LIMIT
      {
        StartNext(fields, k);
        StartInside(fields, k + 1);
      }
    }
  }

  // ---------------------------------------------------------------- the writer and the reader

  class BinaryWriter {
    var buffer: seq<byte>
    var index: nat

    ghost predicate Valid()
      reads this
    {
      index <= |buffer| && index < INDEX_LIMIT
    }

    function State(): Output
      reads this
    {
      Output(buffer, index)
    }

    constructor ()
      ensures Valid() && State() == Output([], 0)
    {
      buffer, index := [], 0;
    }

    /** `operator=` leaves the index at 0, so the index stands at the end afterwards only for the empty string; the next
        `WriteData` drops the rest. */
    method Assign(text: seq<byte>)
      modifies this
      ensures Valid() && State() == Output(text, 0)
      ensures index == |buffer| <==> text == []
    {
      index := 0;
      buffer := text;
    }

    /** `WriteData` of a fixed-size value, given as it lies in memory: `resize` to the index plus its size, then copy. */
    method WriteData(image: seq<byte>)
      requires Valid()
      modifies this
      ensures Valid()
      ensures State() == Output(old(buffer)[..old(index)] + image, (old(index) + |image|) % INDEX_LIMIT)
    {
      buffer := buffer[..index] + image;
      index := (index + |image|) % INDEX_LIMIT;
    }

    method WriteText(data: seq<byte>)
      requires Valid() && |data| < INT_LIMIT
      modifies this
      ensures Valid() && State() == Write(old(State()), Text(data))
    {
      hide Prefix;
      var out := Compress(|data|);
      assert EncodeField(Text(data)) == out + data;
      hide EncodeField;
      buffer := buffer + out;
      index := (index + |out|) % INDEX_LIMIT;
      if |data| > 0 {
        buffer := buffer + data;
        index := (index + |data|) % INDEX_LIMIT;
      }
      WrappedSum(old(index) + |out|, |data|);
      assert old(buffer) + out + data == old(buffer) + (out + data);
    }

    method WriteField(f: Field)
      requires Valid() && IsField(f)
      modifies this
      ensures Valid() && State() == Write(old(State()), f)
    {
      match f
      case Int(width, x) => WriteData(EncodeInt(width, x));
      case Text(bytes) => WriteText(bytes);
    }
  }

  class BinaryReader {
    const buffer: seq<byte>
    var index: nat

    constructor (bytes: seq<byte>)
      ensures buffer == bytes && index == 0
    {
      buffer, index := bytes, 0;
    }

    /** `ReadData` of a fixed-size value: the bytes are stored backwards, which on a little-endian host is the value of
        the network-order bytes. */
    method ReadData(width: nat) returns (image: Option<seq<byte>>)
      requires index <= |buffer|
      modifies this
      ensures index <= |buffer|
      ensures image.Some? <==> old(index) + width <= |buffer|
      ensures image.Some? ==> index == (old(index) + width) % INDEX_LIMIT
      ensures image.Some? ==> image.value == Reverse(buffer[old(index)..old(index) + width])
      ensures image.None? ==> index == old(index)
    {
      if index + width > |buffer| {
        return None;
      }
      var data: seq<byte> := [];
      var i := 0;
      while i < width
        modifies {}
        invariant 0 <= i <= width && data == Reverse(buffer[index + width - i..index + width])
      {
        var part := buffer[index + width - (i + 1)..index + width];
        assert part[1..] == buffer[index + width - i..index + width];
        ReverseFirst(part);
        data := data + [buffer[index + width - (i + 1)]];
        i := i + 1;
      }
      index := (index + width) % INDEX_LIMIT;
      return Some(data);
    }

    method ReadText() returns (data: Option<seq<byte>>)
      requires index <= |buffer|
      modifies this
      ensures var r := DecodeField(buffer, old(index), TextShape);
              if r.None? then data.None?
              else data == Some(r.value.0.bytes) && index == r.value.1
    {
      var length, i := 0, index;
      while i < |buffer|
        modifies {}
        invariant index <= i <= |buffer| && 0 <= length < INT_LIMIT
        invariant ReadLength(buffer, index, 0) == ReadLength(buffer, i, length)
      {
        length := 128 * length + buffer[i] % 128;
        if length >= INT_LIMIT {
          return None;
        }
        if buffer[i] < 128 {
          break;
        }
        i := i + 1;
      }
      if i == |buffer| {
        return None;
      }
      index := (i + 1) % INDEX_LIMIT;
      if index + length > |buffer| {
        return None;
      }
      data := Some(buffer[index..index + length]);
      index := (index + length) % INDEX_LIMIT;
    }

    method ReadField(shape: Shape) returns (f: Option<Field>)
      requires index <= |buffer|
      modifies this
      ensures var r := DecodeField(buffer, old(index), shape);
              if r.None? then f.None? else f == Some(r.value.0) && index == r.value.1
    {
      match shape
      case IntShape(width) =>
        var image := ReadData(width);
        if image.None? {
          return None;
        }
        HostValue(buffer[old(index)..old(index) + width]);
        f := Some(Int(width, HostInt(image.value)));
      case TextShape =>
        var text := ReadText();
        if text.None? {
          return None;
        }
        f := Some(Text(text.value));
    }
  }

  function Reverse(s: seq<byte>): (r: seq<byte>)
    ensures |r| == |s|
  {
    if s == [] then [] else [s[|s| - 1]] + Reverse(s[..|s| - 1])
  }

  lemma {:induction false} ReverseFirst(s: seq<byte>)
    requires s != []
    ensures Reverse(s) == Reverse(s[1..]) + [s[0]]
    decreases |s|
  {
    if |s| > 1 {
      ReverseFirst(s[..|s| - 1]);
      assert s[..|s| - 1][1..] == s[1..][..|s| - 2];
    }
  }

  /** The value of an integer in the memory of a little-endian host. */
  function LittleEndian(image: seq<byte>): nat {
    if image == [] then 0 else image[0] + 256 * LittleEndian(image[1..])
  }

  function HostInt(image: seq<byte>): int {
    var v := LittleEndian(image);
    if 2 * v < Pow256(|image|) then v else v - Pow256(|image|)
  }

  lemma {:induction false} HostValue(s: seq<byte>)
    ensures LittleEndian(Reverse(s)) == ReadBigEndian(s) && HostInt(Reverse(s)) == DecodeInt(s)
  {
    if s != [] {
      HostValue(s[..|s| - 1]);
      assert Reverse(s)[1..] == Reverse(s[..|s| - 1]);
    }
  }

  method WriteAll(fields: seq<Field>) returns (bytes: seq<byte>)
    requires AreFields(fields)
    ensures bytes == Written(fields).buffer
  {
    hide Write;
    var writer := new BinaryWriter();
    for k := 0 to |fields|
      invariant writer.Valid() && fresh(writer)
      invariant writer.State() == Written(fields[..k])
    {
      assert fields[..k + 1][..k] == fields[..k];
      writer.WriteField(fields[k]);
    }
    assert fields[..|fields|] == fields;
    bytes := writer.buffer;
  }

  method ReadAll(bytes: seq<byte>, shapes: seq<Shape>) returns (fields: Option<seq<Field>>)
    ensures fields == DecodeAll(bytes, 0, shapes)
  {
    hide DecodeField, DecodeAll, Joined;
    var reader := new BinaryReader(bytes);
    var done: seq<Field> := [];
    assert shapes[0..] == shapes;
    JoinedParts([], Text([]), DecodeAll(bytes, 0, shapes));
    for k := 0 to |shapes|
      invariant fresh(reader) && reader.buffer == bytes && reader.index <= |bytes|
      invariant DecodeAll(bytes, 0, shapes) == Joined(done, DecodeAll(bytes, reader.index, shapes[k..]))
    {
      assert shapes[k..][1..] == shapes[k + 1..];
      DecodeNext(bytes, reader.index, shapes[k..]);
      var f := reader.ReadField(shapes[k]);
      if f.None? {
        JoinedNone(done);
        return None;
      }
      JoinedParts(done, f.value, DecodeAll(bytes, reader.index, shapes[k + 1..]));
      done := done + [f.value];
    }
    assert shapes[|shapes|..] == [];
    DecodeNone(bytes, reader.index);
    JoinedEmpty(done);
    fields := Some(done);
  }

  /** What the writer writes the reader reads, through the objects themselves. */
  method WriteThenRead(fields: seq<Field>) returns (bytes: seq<byte>, back: Option<seq<Field>>)
    requires AreFields(fields)
    ensures bytes == Written(fields).buffer
    ensures back == Some(fields) <==> RoundTrips(fields)
    ensures InReach(fields) ==> bytes == EncodeAll(fields) && back == Some(fields)
  {
    bytes := WriteAll(fields);
    back := ReadAll(bytes, Shapes(fields));
    FieldsRoundTrip(fields);
  }

  // ---------------------------------------------------------------- values not in network order

  lemma {:induction false} BigEndianOnto(s: seq<byte>)
    ensures BigEndian(|s|, ReadBigEndian(s)) == s
  {
    if s != [] {
      BigEndianOnto(s[..|s| - 1]);
      assert s == s[..|s| - 1] + [s[|s| - 1]];
    }
  }

  /** `WriteData` copies memory as it is while `ReadData` turns it round, so a value written in host order comes back
      exactly when its bytes read the same both ways. */
  lemma {:induction false} HostOrderExactly(image: seq<byte>)
    ensures HostInt(Reverse(image)) == HostInt(image) <==> Reverse(image) == image
  {
    if HostInt(Reverse(image)) == HostInt(image) {
      HostValue(image);
      HostValue(Reverse(image));
      ReverseTwice(image);
      BigEndianOnto(image);
      BigEndianOnto(Reverse(image));
      ReadBound(image);
      ReadBound(Reverse(image));
    }
  }

  lemma {:induction false} ReverseTwice(s: seq<byte>)
    ensures Reverse(Reverse(s)) == s
  {
    if s != [] {
      var p := s[..|s| - 1];
      ReverseTwice(p);
      ReverseFirst(Reverse(s));
      assert Reverse(s)[1..] == Reverse(p);
      assert s == p + [s[|s| - 1]];
    }
  }
}
