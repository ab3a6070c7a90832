/** How far the `uint32_t` index of BinaryReader.h carries: which sizes of fields are read back whatever their values. */
module BinaryReach {
  import opened Bytes
  import opened NetworkOrder
  import opened BinaryCodec

  /** At least one byte of data behind the header. */
  predicate HasData(f: Field) {
    match f
    case Int(width, _) => width > 0
    case Text(bytes) => bytes != []
  }

  predicate SameSize(f: Field, g: Field) {
    match f
    case Int(width, _) => g.Int? && g.width == width
    case Text(bytes) => g.Text? && |g.bytes| == |bytes|
  }

  predicate SameSizes(a: seq<Field>, b: seq<Field>) {
    |a| == |b| && forall k :: 0 <= k < |a| ==> SameSize(a[k], b[k])
  }

  /** Whatever the values of fields of these sizes, they are read back. */
  ghost predicate AllRoundTrip(sizes: seq<Field>) {
    forall fields :: SameSizes(fields, sizes) && AreFields(fields) ==> RoundTrips(fields)
  }

  lemma {:induction false} SizesGiveShape(f: Field, g: Field)
    requires SameSize(f, g) && IsField(f) && IsField(g)
    ensures Header(f) == Header(g) && |EncodeField(f)| == |EncodeField(g)| && ShapeOf(f) == ShapeOf(g)
  {
  }

  lemma {:induction false} SizesGiveStart(a: seq<Field>, b: seq<Field>, k: nat)
    requires SameSizes(a, b) && AreFields(a) && AreFields(b) && k <= |a|
    ensures Start(a, k) == Start(b, k)
  {
    hide EncodeAll, EncodeField, IsField, SameSize;
    if k == 0 {
      StartInside(a, 0);
      StartInside(b, 0);
    } else {
      SizesGiveStart(a, b, k - 1);
      StartNext(a, k - 1);
      StartNext(b, k - 1);
      SizesGiveShape(a[k - 1], b[k - 1]);
    }
  }

  lemma {:induction false} SizesGiveShapes(a: seq<Field>, b: seq<Field>)
    requires SameSizes(a, b)
    ensures Shapes(a) == Shapes(b)
  {
  }

  lemma {:induction false} SizesGiveReach(a: seq<Field>, b: seq<Field>)
    requires SameSizes(a, b) && AreFields(a) && AreFields(b)
    ensures InReach(a) <==> InReach(b)
  {
    hide EncodeAll, EncodeField, IsField, SameSize, Header, Start;
    forall k | 0 <= k < |a|
      ensures Start(a, k) + Header(a[k]) == Start(b, k) + Header(b[k])
    {
      SizesGiveStart(a, b, k);
      SizesGiveShape(a[k], b[k]);
    }
  }

  lemma {:induction false} PrefixInReach(fields: seq<Field>, k: nat)
    requires AreFields(fields) && k <= |fields|
    requires forall i :: 0 <= i < k ==> Start(fields, i) + Header(fields[i]) < INDEX_LIMIT
    ensures InReach(fields[..k])
  {
    hide EncodeAll, IsField, Header;
    forall i | 0 <= i < k
      ensures Start(fields[..k], i) == Start(fields, i)
    {
      assert fields[..k][..i] == fields[..i];
    }
  }

  // ---------------------------------------------------------------- fields that are told apart by their last byte

  function Repeat(n: nat, x: byte): seq<byte> {
    seq(n, i requires 0 <= i < n => x)
  }

  /** A field of the same size whose data is zero but for its last byte. */
  function Ending(f: Field, x: byte): Field
    requires HasData(f) && x < 2
  {
    match f
    case Int(width, _) => Int(width, x)
    case Text(bytes) => Text(Repeat(|bytes| - 1, 0) + [x])
  }

  function Lead(f: Field): seq<byte>
    requires HasData(f)
  {
    match f
    case Int(width, _) => BigEndian(width - 1, 0)
    case Text(bytes) => Prefix(|bytes|) + Repeat(|bytes| - 1, 0)
  }

  lemma {:induction false} EndingEncoded(f: Field, x: byte)
    requires HasData(f) && IsField(f) && x < 2
    ensures IsField(Ending(f, x)) && SameSize(Ending(f, x), f)
    ensures EncodeField(Ending(f, x)) == Lead(f) + [x]
  {
    match f
    case Int(width, _) =>
      assert Pow256(width) == 256 * Pow256(width - 1);
    case Text(bytes) =>
      var p, z := Prefix(|bytes|), Repeat(|bytes| - 1, 0);
      hide Prefix;
      assert p + (z + [x]) == p + z + [x];
  }

  // ---------------------------------------------------------------- an integer out of reach

  /** `fields` with the field before the last one replaced, up to the last one. */
  function Variant(fields: seq<Field>, x: byte, last: Field): seq<Field>
    requires |fields| >= 2 && HasData(fields[|fields| - 2]) && x < 2
  {
    fields[..|fields| - 2] + [Ending(fields[|fields| - 2], x)] + [last]
  }

  lemma {:induction false} VariantIs(fields: seq<Field>, x: byte, last: Field)
    requires |fields| >= 2 && AreFields(fields) && HasData(fields[|fields| - 2]) && x < 2
    requires IsField(last) && SameSize(last, fields[|fields| - 1])
    requires InReach(fields[..|fields| - 1])
    ensures var v, n := Variant(fields, x, last), |fields| - 1;
            |v| == |fields| && AreFields(v) && SameSizes(v, fields) && InReach(v[..n]) && v[n] == last
            && EncodeAll(v[..n]) == EncodeAll(fields[..n - 1]) + Lead(fields[n - 1]) + [x]
  {
    hide EncodeField, EncodeAll, SameSize, Ending, Lead, Header, HasData, IsField, InReach;
    var v, n := Variant(fields, x, last), |fields| - 1;
    var e := Ending(fields[n - 1], x);
    EndingEncoded(fields[n - 1], x);
    SameSizeItself(fields[..n - 1]);
    var p := fields[..n - 1];
    assert v[..n] == p + [e] && v[..n][..n - 1] == p && fields[..n][..n - 1] == p;
    assert forall k :: 0 <= k < n - 1 ==> v[k] == fields[k] && p[k] == fields[k];
    assert v[n - 1] == e && v[n] == last;
    SizesGiveReach(v[..n], fields[..n]);
    EncodeOne(e);
    EncodeAppend(p, [e]);
    assert EncodeAll(p) + (Lead(fields[n - 1]) + [x]) == EncodeAll(p) + Lead(fields[n - 1]) + [x];
  }

  lemma {:induction false} SameSizeItself(a: seq<Field>)
    ensures SameSizes(a, a)
  {
  }

  lemma {:induction false} SameBuffer(v: seq<Field>, w: seq<Field>, sizes: seq<Field>)
    requires AreFields(v) && AreFields(w) && SameSizes(v, sizes) && SameSizes(w, sizes) && v != w
    requires Written(v).buffer == Written(w).buffer
    ensures !AllRoundTrip(sizes)
  {
    hide Written, DecodeAll, SameSizes, IsField, Shapes;
    SizesGiveShapes(v, sizes);
    SizesGiveShapes(w, sizes);
    assert !RoundTrips(v) || !RoundTrips(w);
  }

  /** What stands before the position to which the index wraps. */
  function Cut(p: seq<byte>): seq<byte> {
    p[..|p| % INDEX_LIMIT]
  }

  lemma {:induction false} CutLast(lead: seq<byte>, x: byte)
    requires |lead| + 1 >= INDEX_LIMIT
    ensures Cut(lead + [x]) == Cut(lead + [0])
  {
    var i := (|lead| + 1) % INDEX_LIMIT;
    assert (lead + [x])[..i] == lead[..i] == (lead + [0])[..i];
  }

  /** The encoding in front of the last field, without its last byte. */
  function Kept(fields: seq<Field>): seq<byte>
    requires |fields| >= 2 && AreFields(fields) && HasData(fields[|fields| - 2])
  {
    EncodeAll(fields[..|fields| - 2]) + Lead(fields[|fields| - 2])
  }

  lemma {:induction false} VariantWritten(fields: seq<Field>, x: byte)
    requires |fields| >= 2 && AreFields(fields) && HasData(fields[|fields| - 2]) && fields[|fields| - 1].Int? && x < 2
    requires InReach(fields[..|fields| - 1]) && Start(fields, |fields| - 1) >= INDEX_LIMIT
    ensures var v := Variant(fields, x, fields[|fields| - 1]);
            AreFields(v) && SameSizes(v, fields)
            && Written(v).buffer == Cut(Kept(fields) + [0]) + EncodeField(fields[|fields| - 1])
  {
    var n, f := |fields| - 1, fields[|fields| - 1];
    assert SameSize(f, f) && IsField(f);
    hide EncodeField, EncodeAll, InReach, Variant, Lead, IsField, SameSize, SameSizes, AreFields, Written, HasData, Cut;
    var v := Variant(fields, x, f);
    VariantIs(fields, x, f);
    SizesGiveStart(v, fields, n);
    WrittenLast(v);
    CutLast(Kept(fields), x);
  }

  /** The integer is written over the end of the field before it, so two values of that field give the same buffer. */
  lemma {:induction false} LostByInteger(fields: seq<Field>)
    requires |fields| >= 2 && AreFields(fields) && HasData(fields[|fields| - 2]) && fields[|fields| - 1].Int?
    requires InReach(fields[..|fields| - 1]) && Start(fields, |fields| - 1) >= INDEX_LIMIT
    ensures !AllRoundTrip(fields)
  {
    hide InReach, Start, AreFields, EncodeAll, EncodeField, SameSizes, AllRoundTrip, Written, Kept, IsField, Repeat, Cut;
    var n, f := |fields| - 1, fields[|fields| - 1];
    var v, w := Variant(fields, 0, f), Variant(fields, 1, f);
    VariantWritten(fields, 0);
    VariantWritten(fields, 1);
    var a, b := Ending(fields[n - 1], 0), Ending(fields[n - 1], 1);
    assert v[n - 1] == a && w[n - 1] == b;
    assert a.Text? ==> a.bytes[|a.bytes| - 1] != b.bytes[|b.bytes| - 1];
    SameBuffer(v, w, fields);
  }

  /** What the last integer leaves of an intact buffer. */
  lemma {:induction false} WrittenLast(fields: seq<Field>)
    requires AreFields(fields) && fields != [] && fields[|fields| - 1].Int? && InReach(fields[..|fields| - 1])
    ensures Written(fields).buffer == Cut(EncodeAll(fields[..|fields| - 1])) + EncodeField(fields[|fields| - 1])
  {
    hide EncodeField, EncodeAll, InReach;
    var p := fields[..|fields| - 1];
    FieldsRoundTrip(p);
    IndexCounts(p);
  }

  // ---------------------------------------------------------------- a string out of reach

  /** A length that ends before `n` depends on nothing behind `n`. */
  lemma {:induction false} LengthLocal(s: seq<byte>, t: seq<byte>, i: nat, acc: nat, n: nat)
    requires i < n <= |s| && n <= |t| && s[..n] == t[..n] && s[n - 1] < 128
    ensures ReadLength(s, i, acc) == ReadLength(t, i, acc)
    ensures ReadLength(s, i, acc).Some? ==> ReadLength(s, i, acc).value.1 <= n
    decreases n - i
  {
    assert s[i] == s[..n][i] == t[..n][i] == t[i];
    var v := 128 * acc + s[i] % 128;
    if v < INT_LIMIT && s[i] >= 128 {
      assert s[n - 1] == s[..n][n - 1];
      LengthLocal(s, t, i + 1, v, n);
    }
  }

  /** A string of `len` bytes `x` behind `p`. */
  function Stream(p: seq<byte>, len: nat, x: byte): seq<byte> {
    p + Prefix(len) + Repeat(len, x)
  }

  /** The reader finds the string `f` when its index holds the offset `i`. */
  predicate ReadsAt(s: seq<byte>, i: nat, f: Field) {
    i <= |s|
    && var r := DecodeField(s, i % INDEX_LIMIT, TextShape);
       r.Some? && r.value.0 == f
  }

  /** The reader finds the string that the stream ends with. */
  predicate Reads(p: seq<byte>, len: nat, x: byte) {
    ReadsAt(Stream(p, len, x), |p|, Text(Repeat(len, x)))
  }

  /** Data taken from in front of `n` cannot be both strings, nor can it hold the zero at `n - 1`. */
  lemma {:induction false} WrongData(s: seq<byte>, t: seq<byte>, from: nat, len: nat, n: nat)
    requires from < n <= |s| && n <= |t| && s[..n] == t[..n] && 0 < len && from + len <= |s| && from + len <= |t|
    requires s[n - 1] == 0 || from + len <= n
    ensures s[from..from + len] != Repeat(len, 1) || t[from..from + len] != Repeat(len, 2)
  {
    assert s[from] == s[..n][from] == t[..n][from] == t[from];
    if from + len <= n {
      assert s[from..from + len][0] == t[from..from + len][0];
      assert Repeat(len, 1)[0] != Repeat(len, 2)[0];
    } else {
      assert s[from..from + len][n - 1 - from] == 0 != Repeat(len, 1)[n - 1 - from];
    }
  }

  lemma {:induction false} StreamParts(p: seq<byte>, len: nat, x: byte)
    ensures |Stream(p, len, x)| == |p| + |Prefix(len)| + len
    ensures Stream(p, len, x)[..|p|] == p
    ensures Stream(p, len, x)[..|p| + |Prefix(len)|] == p + Prefix(len)
    ensures At(Stream(p, len, x), |p|, Prefix(len))
  {
    hide Prefix;
    AtMiddle(p, Prefix(len), Repeat(len, x));
  }

  /** The prefix itself is out of reach. */
  lemma {:induction false} PrefixMissed(p: seq<byte>, len: nat)
    requires |p| >= INDEX_LIMIT && p[|p| - 1] == 0 && len > 0
    ensures !(Reads(p, len, 1) && Reads(p, len, 2))
  {
    var s, t, n := Stream(p, len, 1), Stream(p, len, 2), |p|;
    StreamParts(p, len, 1);
    StreamParts(p, len, 2);
    hide Stream, Prefix, ReadLength, Repeat, At, ReadsAt;
    if Reads(p, len, 1) && Reads(p, len, 2) {
      assert s[n - 1] == s[..n][n - 1];
      LengthLocal(s, t, n % INDEX_LIMIT, 0, n);
      var r := ReadLength(s, n % INDEX_LIMIT, 0);
      DataFrom(s, n, Repeat(len, 1));
      DataFrom(t, n, Repeat(len, 2));
      WrongData(s, t, r.value.1 % INDEX_LIMIT, len, n);
    }
  }

  /** The data that was read stands where the index wrapped to behind the prefix. */
  lemma {:induction false} DataFrom(s: seq<byte>, i: nat, data: seq<byte>)
    requires ReadsAt(s, i, Text(data))
    ensures var r := ReadLength(s, i % INDEX_LIMIT, 0);
            r.Some? && var from := r.value.1 % INDEX_LIMIT;
                       from + |data| <= |s| && s[from..from + |data|] == data
  {
    hide ReadLength;
  }

  /** The prefix is in reach, the data is not. */
  lemma {:induction false} DataMissed(p: seq<byte>, len: nat)
    requires |p| < INDEX_LIMIT <= |p| + |Prefix(len)| && 0 < len < INT_LIMIT
    ensures !(Reads(p, len, 1) && Reads(p, len, 2))
  {
    hide Stream, Prefix, Repeat, Reads, At;
    PrefixLength(len);
    var c := |p| + |Prefix(len)|;
    StreamParts(p, len, 1);
    StreamParts(p, len, 2);
    if Reads(p, len, 1) && Reads(p, len, 2) {
      DataBehind(p, len, 1);
      DataBehind(p, len, 2);
      WrongData(Stream(p, len, 1), Stream(p, len, 2), c - INDEX_LIMIT, len, c);
    }
  }

  lemma {:induction false} DataBehind(p: seq<byte>, len: nat, x: byte)
    requires |p| < INDEX_LIMIT <= |p| + |Prefix(len)| < 2 * INDEX_LIMIT && 0 < len < INT_LIMIT && Reads(p, len, x)
    ensures var s, from := Stream(p, len, x), |p| + |Prefix(len)| - INDEX_LIMIT;
            from + len <= |s| && s[from..from + len] == Repeat(len, x)
  {
    hide Stream, Prefix, Repeat, ReadLength, At;
    StreamParts(p, len, x);
    PrefixReads(Stream(p, len, x), |p|, len);
  }

  lemma {:induction false} TextVariantEncoded(fields: seq<Field>, last: Field)
    requires |fields| >= 2 && AreFields(fields) && HasData(fields[|fields| - 2])
    requires IsField(last) && last.Text? && SameSize(last, fields[|fields| - 1]) && InReach(fields[..|fields| - 1])
    ensures var v := Variant(fields, 0, last);
            AreFields(v) && SameSizes(v, fields) && InReach(v[..|v| - 1]) && v != [] && v[|v| - 1] == last
            && Written(v).buffer == EncodeAll(v)
            && EncodeAll(v[..|v| - 1]) == Kept(fields) + [0]
            && EncodeAll(v) == Kept(fields) + [0] + EncodeField(last)
  {
    var v, n := Variant(fields, 0, last), |fields| - 1;
    VariantIs(fields, 0, last);
    hide EncodeField, EncodeAll, Variant, Lead, IsField, SameSize, SameSizes, Written, HasData, Header;
    hide Start, InReach;
    StartNext(v, n);
    assert v[..n + 1] == v;
    ReachBelow(v);
    assert IntsInReach(v);
    WriterIntactExactly(v);
  }

  /** If the fields come back, the last one was read from behind the others. */
  lemma {:induction false} LastRead(v: seq<Field>)
    requires AreFields(v) && v != [] && v[|v| - 1].Text? && InReach(v[..|v| - 1])
    requires DecodeFrom(EncodeAll(v), 0, Shapes(v)) == Some(v)
    ensures ReadsAt(EncodeAll(v), |EncodeAll(v[..|v| - 1])|, v[|v| - 1])
  {
    hide *;
    var n, s := |v| - 1, EncodeAll(v);
    ReachBelow(v);
    ReadsUpTo(v, 0, n);
    StartInside(v, 0);
    StartInside(v, n);
    StartOfLast(v);
    assert v[0..] == v && v[n..] == [v[n]] && v[0..n] + [v[n]] == v;
    Rejoined(v[0..n], DecodeFrom(s, Start(v, n), Shapes([v[n]])), [v[n]]);
    OneRead(s, Start(v, n), v[n]);
  }

  lemma {:induction false} StartOfLast(v: seq<Field>)
    requires AreFields(v) && v != []
    ensures Start(v, |v| - 1) == |EncodeAll(v[..|v| - 1])|
  {
  }

  lemma {:induction false} ReachBelow(v: seq<Field>)
    requires AreFields(v) && v != [] && InReach(v[..|v| - 1])
    ensures forall k :: 0 <= k < |v| - 1 ==> Start(v, k) + Header(v[k]) < INDEX_LIMIT
  {
    hide EncodeAll, IsField, Header;
    var n := |v| - 1;
    forall k | 0 <= k < n
      ensures Start(v, k) + Header(v[k]) < INDEX_LIMIT
    {
      assert v[..n][..k] == v[..k] && v[..n][k] == v[k];
      assert Start(v, k) == Start(v[..n], k);
    }
  }

  lemma {:induction false} RoundTripDecodes(v: seq<Field>)
    requires AreFields(v) && Written(v).buffer == EncodeAll(v) && RoundTrips(v)
    ensures DecodeFrom(EncodeAll(v), 0, Shapes(v)) == Some(v)
  {
  }

  lemma {:induction false} Rejoined(a: seq<Field>, rest: Option<seq<Field>>, b: seq<Field>)
    requires Joined(a, rest) == Some(a + b)
    ensures rest == Some(b)
  {
    assert rest.value == (a + rest.value)[|a|..] && b == (a + b)[|a|..];
  }

  lemma {:induction false} OneRead(s: seq<byte>, i: nat, f: Field)
    requires i <= |s| && f.Text? && DecodeFrom(s, i, Shapes([f])) == Some([f])
    ensures ReadsAt(s, i, f)
  {
    hide DecodeField;
    var r := DecodeField(s, i % INDEX_LIMIT, TextShape);
    assert DecodeFrom(s, i, Shapes([f])).value[0] == r.value.0;
  }

  lemma {:induction false} TextVariantReads(fields: seq<Field>, x: byte)
    requires |fields| >= 2 && AreFields(fields) && HasData(fields[|fields| - 2]) && fields[|fields| - 1].Text?
    requires InReach(fields[..|fields| - 1]) && AllRoundTrip(fields)
    ensures Reads(Kept(fields) + [0], |fields[|fields| - 1].bytes|, x)
  {
    var len := |fields[|fields| - 1].bytes|;
    var last := Text(Repeat(len, x));
    assert IsField(fields[|fields| - 1]);
    assert IsField(last) && SameSize(last, fields[|fields| - 1]);
    assert EncodeField(last) == Prefix(len) + Repeat(len, x);
    TextVariantEncoded(fields, last);
    hide *;
    var v := Variant(fields, 0, last);
    Instance(fields, v);
    RoundTripDecodes(v);
    LastRead(v);
    StreamIs(Kept(fields) + [0], len, x);
  }

  lemma {:induction false} StreamIs(p: seq<byte>, len: nat, x: byte)
    ensures Stream(p, len, x) == p + (Prefix(len) + Repeat(len, x))
    ensures ReadsAt(Stream(p, len, x), |p|, Text(Repeat(len, x))) <==> Reads(p, len, x)
  {
    hide Prefix, ReadsAt;
  }

  lemma {:induction false} Instance(sizes: seq<Field>, v: seq<Field>)
    requires AllRoundTrip(sizes) && AreFields(v) && SameSizes(v, sizes)
    ensures RoundTrips(v)
  {
  }

  /** The string is read from where the index wraps to, so of two values of it one is not read back. */
  lemma {:induction false} LostText(fields: seq<Field>)
    requires |fields| >= 2 && AreFields(fields) && HasData(fields[|fields| - 2]) && HasData(fields[|fields| - 1])
    requires fields[|fields| - 1].Text? && InReach(fields[..|fields| - 1])
    requires Start(fields, |fields| - 1) + Header(fields[|fields| - 1]) >= INDEX_LIMIT
    ensures !AllRoundTrip(fields)
  {
    var n, f := |fields| - 1, fields[|fields| - 1];
    assert IsField(f) && SameSize(f, f);
    if AllRoundTrip(fields) {
      TextVariantReads(fields, 1);
      TextVariantReads(fields, 2);
      hide EncodeField, EncodeAll, Variant, Kept, AreFields, SameSizes, InReach, Reads, Prefix, AllRoundTrip;
      TextVariantEncoded(fields, f);
      SizesGiveStart(Variant(fields, 0, f), fields, n);
      var p := Kept(fields) + [0];
      assert |p| == Start(fields, n);
      if |p| >= INDEX_LIMIT {
        PrefixMissed(p, |f.bytes|);
      } else {
        DataMissed(p, |f.bytes|);
      }
    }
  }

  // ---------------------------------------------------------------- exactly these sizes

  lemma {:induction false} FirstOutOfReach(fields: seq<Field>) returns (j: nat)
    requires AreFields(fields) && !InReach(fields)
    ensures j < |fields| && Start(fields, j) + Header(fields[j]) >= INDEX_LIMIT
    ensures forall i :: 0 <= i < j ==> Start(fields, i) + Header(fields[i]) < INDEX_LIMIT
  {
    hide Start, Header;
    j := 0;
    while j < |fields| && Start(fields, j) + Header(fields[j]) < INDEX_LIMIT
      invariant j <= |fields|
      invariant forall i :: 0 <= i < j ==> Start(fields, i) + Header(fields[i]) < INDEX_LIMIT
    {
      j := j + 1;
    }
  }

  lemma {:induction false} FirstIsLater(fields: seq<Field>, j: nat)
    requires AreFields(fields) && j < |fields| && Start(fields, j) + Header(fields[j]) >= INDEX_LIMIT
    ensures j > 0
  {
    hide EncodeAll;
    StartInside(fields, 0);
    assert IsField(fields[j]);
    if fields[j].Text? {
      PrefixLength(|fields[j].bytes|);
    }
  }

  /** Fields that all hold data and their first parts are read back whatever their values exactly if every field's data
      starts below 2^32. */
  lemma {:induction false} ReachExactly(fields: seq<Field>)
    requires AreFields(fields) && forall k :: 0 <= k < |fields| ==> HasData(fields[k])
    ensures InReach(fields) <==> forall k :: 0 <= k <= |fields| ==> AllRoundTrip(fields[..k])
  {
    if InReach(fields) {
      forall k | 0 <= k <= |fields|
        ensures AllRoundTrip(fields[..k])
      {
        PrefixInReach(fields, k);
        AllInReach(fields[..k]);
      }
    } else {
      var j := FirstOutOfReach(fields);
      FirstIsLater(fields, j);
      OutOfReach(fields, j);
    }
  }

  lemma {:induction false} AllInReach(sizes: seq<Field>)
    requires AreFields(sizes) && InReach(sizes)
    ensures AllRoundTrip(sizes)
  {
    hide AreFields, InReach, SameSizes, RoundTrips;
    forall fields | SameSizes(fields, sizes) && AreFields(fields)
      ensures RoundTrips(fields)
    {
      SizesGiveReach(fields, sizes);
      FieldsRoundTrip(fields);
    }
  }

  lemma {:induction false} OutOfReach(fields: seq<Field>, j: nat)
    requires AreFields(fields) && 0 < j < |fields| && HasData(fields[j - 1]) && HasData(fields[j])
    requires forall i :: 0 <= i < j ==> Start(fields, i) + Header(fields[i]) < INDEX_LIMIT
    requires Start(fields, j) + Header(fields[j]) >= INDEX_LIMIT
    ensures !AllRoundTrip(fields[..j + 1])
  {
    hide EncodeAll, IsField, AllRoundTrip, HasData;
    var p := fields[..j + 1];
    PrefixInReach(fields, j);
    assert p[..j] == fields[..j] && p[j] == fields[j] && p[j - 1] == fields[j - 1];
    assert Start(p, j) == Start(fields, j);
    if fields[j].Int? {
      LostByInteger(p);
    } else {
      LostText(p);
    }
  }

  // ---------------------------------------------------------------- an instance

  lemma {:induction false} FourBytesEach(fields: seq<Field>)
    requires AreFields(fields) && forall k :: 0 <= k < |fields| ==> fields[k].Int? && fields[k].width == 4
    ensures |EncodeAll(fields)| == 4 * |fields|
  {
    if fields != [] {
      assert fields[0].Int?;
      FourBytesEach(fields[1..]);
    }
  }

  /** 2^30 + 1 integers of four bytes: only the last one is left, and nothing is read back. */
  lemma {:induction false} IntegersPastTheIndex(fields: seq<Field>)
    requires AreFields(fields) && |fields| == 0x4000_0001
    requires forall k :: 0 <= k < |fields| ==> fields[k].Int? && fields[k].width == 4
    ensures Written(fields).buffer == EncodeField(fields[0x4000_0000])
    ensures DecodeAll(Written(fields).buffer, 0, Shapes(fields)) == None
  {
    hide EncodeAll, IsField;
    var p, last := fields[..0x4000_0000], fields[0x4000_0000];
    forall k | 0 <= k < |p|
      ensures Start(p, k) + Header(p[k]) < INDEX_LIMIT
    {
      FourBytesEach(p[..k]);
    }
    FourBytesEach(p);
    WrittenLast(fields);
    var s := EncodeField(last);
    assert Written(fields).buffer == [] + s == s;
    ShapesParts(fields);
    ShapesParts(fields[1..]);
    hide DecodeAll;
    DecodeNext(s, 0, Shapes(fields));
    DecodeNext(s, 4, Shapes(fields[1..]));
  }

  // ---------------------------------------------------------------- fields without data

  function Empties(n: nat): seq<Field> {
    if n == 0 then [] else [Text([])] + Empties(n - 1)
  }

  lemma {:induction false} EmptiesEncoded(n: nat)
    ensures |Empties(n)| == n && AreFields(Empties(n)) && EncodeAll(Empties(n)) == Repeat(n, 0)
    ensures forall k :: 0 <= k < n ==> Empties(n)[k] == Text([])
  {
    if n > 0 {
      EmptiesEncoded(n - 1);
      assert Empties(n)[1..] == Empties(n - 1);
      assert EncodeField(Text([])) == [0];
      assert [0] + Repeat(n - 1, 0) == Repeat(n, 0);
    }
  }

  lemma {:induction false} ZeroReads(s: seq<byte>, i: nat)
    requires i < |s| && s[i] == 0
    ensures DecodeField(s, i, TextShape) == Some((Text([]), (i + 1) % INDEX_LIMIT))
  {
    assert ReadLength(s, i, 0) == Some((0, i + 1));
    var from := (i + 1) % INDEX_LIMIT;
    assert from <= i + 1 && s[from..from] == [] && from % INDEX_LIMIT == from;
  }

  lemma {:induction false} ZerosRead(size: nat, i: nat, n: nat)
    requires i < INDEX_LIMIT <= size
    ensures DecodeAll(Repeat(size, 0), i, Shapes(Empties(n))) == Some(Empties(n))
    decreases n
  {
    var s := Repeat(size, 0);
    if n > 0 {
      ZeroReads(s, i);
      ZerosRead(size, (i + 1) % INDEX_LIMIT, n - 1);
      ShapesParts(Empties(n));
      assert Empties(n)[1..] == Empties(n - 1);
    } else {
      ShapesParts([]);
    }
  }

  /** Empty strings come back however many there are, because one looks like the other: without data the index may wrap
      unnoticed. */
  lemma {:induction false} EmptyStringsComeBack(n: nat)
    requires n >= INDEX_LIMIT
    ensures AreFields(Empties(n)) && RoundTrips(Empties(n))
  {
    hide EncodeAll, DecodeAll, Written, Shapes, Empties, Repeat;
    EmptiesEncoded(n);
    WriterIntactExactly(Empties(n));
    ZerosRead(n, 0, n);
  }
}
