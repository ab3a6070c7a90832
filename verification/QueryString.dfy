/** Query strings in FileServer/httplib.h: `params_to_query_str`, `parse_query_text`, `split`, `divide`, `trim`. */
module QueryString {
  import opened Bytes
  import opened PercentCoding

  type Text = seq<byte>

  /** One entry of `Params`; a `Params` is given by its entries in order. */
  datatype Param = Param(key: Text, value: Text)

  predicate IsBlank(c: byte) {
    c == 32 || c == 9
  }

  // ---------------------------------------------------------------- writing

  function PairText(p: Param): Text {
    p.key + [61] + Encode(p.value)
  }

  function Pairs(params: seq<Param>): seq<Text> {
    seq(|params|, i requires 0 <= i < |params| => PairText(params[i]))
  }

  function Join(texts: seq<Text>): Text {
    if texts == [] then [] else if |texts| == 1 then texts[0]
    else texts[0] + [38] + Join(texts[1..])
  }

  lemma {:induction false} JoinPush(texts: seq<Text>, t: Text)
    requires texts != []
    ensures Join(texts + [t]) == Join(texts) + [38] + t
    decreases |texts|
  {
    assert (texts + [t])[1..] == texts[1..] + [t];
    if |texts| == 1 {
      assert texts[1..] + [t] == [t];
    } else {
      JoinPush(texts[1..], t);
      var a, j := texts[0], Join(texts[1..]);
      assert a + [38] + (j + [38] + t) == a + [38] + j + [38] + t;
    }
  }

  method ParamsToQueryStr(params: seq<Param>) returns (query: Text)
    ensures query == Join(Pairs(params))
  {
    hide Encode;
    query := [];
    for i := 0 to |params|
      invariant query == Join(Pairs(params[..i]))
    {
      ghost var before := Pairs(params[..i]);
      if i != 0 {
        query := query + [38];
      }
      query := query + params[i].key;
      query := query + [61];
      var escaped := EncodeQueryParam(params[i].value);
      query := query + escaped;
      assert Pairs(params[..i + 1]) == before + [PairText(params[i])];
      if i == 0 {
        assert before + [PairText(params[i])] == [PairText(params[i])];
      } else {
        JoinPush(before, PairText(params[i]));
        assert query == Join(before) + [38] + PairText(params[i]);
      }
    }
    assert params[..|params|] == params;
  }

  // ---------------------------------------------------------------- splitting

  function TrimLeft(t: Text): Text {
    if t != [] && IsBlank(t[0]) then TrimLeft(t[1..]) else t
  }

  function TrimRight(t: Text): Text {
    if t != [] && IsBlank(t[|t| - 1]) then TrimRight(t[..|t| - 1]) else t
  }

  /** A piece is reported without the blanks around it, and not at all if nothing is left. */
  function Reported(piece: Text): seq<Text> {
    var t := TrimRight(TrimLeft(piece));
    if t == [] then [] else [t]
  }

  /** The pieces of `s` from `beg` on, when no separator has been seen between `beg` and `i`. */
  function Cut(s: Text, d: byte, beg: nat, i: nat): seq<Text>
    requires beg <= i <= |s|
    decreases |s| - i
  {
    if i == |s| then Reported(s[beg..])
    else if s[i] == d then Reported(s[beg..i]) + Cut(s, d, i + 1, i + 1)
    else Cut(s, d, beg, i + 1)
  }

  /** The trimmed range; the end of the text bounds the first loop and its beginning the second, as in the code. */
  method TrimRange(s: Text, left: nat, right: nat) returns (lo: nat, hi: nat)
    requires left <= right <= |s|
    ensures lo < hi ==> left <= lo && hi <= right && Reported(s[left..right]) == [s[lo..hi]]
    ensures lo >= hi ==> Reported(s[left..right]) == []
  {
    lo, hi := left, right;
    ghost var trimmed := TrimLeft(s[left..right]);
    while lo < |s| && IsBlank(s[lo])
      invariant left <= lo <= |s|
      invariant lo <= right ==> trimmed == TrimLeft(s[lo..right])
      invariant lo > right ==> trimmed == []
    {
      if lo < right {
        assert s[lo..right][1..] == s[lo + 1..right];
      } else if lo == right {
        assert s[lo..right] == [];
      }
      lo := lo + 1;
    }
    assert lo <= right ==> trimmed == s[lo..right];
    TrimNothing();
    while hi > 0 && IsBlank(s[hi - 1])
      invariant hi <= right
      invariant lo <= hi ==> TrimRight(trimmed) == TrimRight(s[lo..hi])
      invariant lo > hi ==> TrimRight(trimmed) == []
    {
      if lo < hi {
        assert s[lo..hi][..hi - lo - 1] == s[lo..hi - 1];
      } else if lo == hi {
        assert s[lo..hi] == [];
      }
      hi := hi - 1;
    }
    if lo < hi {
      assert s[lo..hi][hi - lo - 1] == s[hi - 1];
    } else if lo == hi {
      assert s[lo..hi] == [];
    }
  }

  lemma {:induction false} TrimNothing()
    ensures TrimRight([]) == []
  {
  }

  lemma {:induction false} CutStep(pieces: seq<Text>, s: Text, d: byte, beg: nat, i: nat)
    requires beg <= i < |s|
    ensures pieces + Cut(s, d, beg, i)
         == if s[i] == d then pieces + Reported(s[beg..i]) + Cut(s, d, i + 1, i + 1)
            else pieces + Cut(s, d, beg, i + 1)
  {
    hide Reported;
    if s[i] == d {
      assert pieces + (Reported(s[beg..i]) + Cut(s, d, i + 1, i + 1))
          == pieces + Reported(s[beg..i]) + Cut(s, d, i + 1, i + 1);
    }
  }

  lemma {:induction false} CutEnd(s: Text, d: byte, beg: nat)
    requires beg <= |s|
    ensures Cut(s, d, beg, |s|) == Reported(s[beg..|s|]) && (s == [] ==> Cut(s, d, beg, |s|) == [])
  {
    assert s[beg..|s|] == s[beg..];
  }

  method Split(s: Text, d: byte) returns (pieces: seq<Text>)
    ensures pieces == Cut(s, d, 0, 0)
  {
    hide Cut, Reported;
    pieces := [];
    var i, beg := 0, 0;
    assert [] + Cut(s, d, 0, 0) == Cut(s, d, 0, 0);
    while i < |s|
      invariant 0 <= beg <= i <= |s|
      invariant pieces + Cut(s, d, beg, i) == Cut(s, d, 0, 0)
    {
      CutStep(pieces, s, d, beg, i);
      if s[i] == d {
        var lo, hi := TrimRange(s, beg, i);
        if lo < hi {
          pieces := pieces + [s[lo..hi]];
        } else {
          assert pieces + [] == pieces;
        }
        beg := i + 1;
      }
      i := i + 1;
    }
    CutEnd(s, d, beg);
    if i > 0 {
      var lo, hi := TrimRange(s, beg, i);
      if lo < hi {
        pieces := pieces + [s[lo..hi]];
      }
    }
  }

  // ---------------------------------------------------------------- reading

  /** `std::find` of the separator. */
  function IndexOf(t: Text, d: byte): (k: nat)
    ensures k <= |t| && d !in t[..k] && (k < |t| ==> t[k] == d)
  {
    if t == [] || t[0] == d then 0
    else
      var k := 1 + IndexOf(t[1..], d);
      assert t[..k] == [t[0]] + t[1..][..k - 1];
      k
  }

  /** The entry a piece stands for: the text before and after the first equals sign; none without a key. */
  function ParsePair(kv: Text): Option<Param> {
    var k := IndexOf(kv, 61);
    var value := if k < |kv| then kv[k + 1..] else [];
    if k == 0 then None else Some(Param(Decode(kv[..k], true, 0), Decode(value, true, 0)))
  }

  /** The entries of the pieces in order, every distinct piece once. */
  function ParsePieces(pieces: seq<Text>): seq<Param> {
    if pieces == [] then []
    else
      var before, kv := pieces[..|pieces| - 1], pieces[|pieces| - 1];
      var pair := ParsePair(kv);
      ParsePieces(before) + (if kv in before || pair.None? then [] else [pair.value])
  }

  method ParseQueryText(s: Text) returns (params: seq<Param>)
    ensures params == ParsePieces(Cut(s, 38, 0, 0))
  {
    hide Cut, Decode;
    params := [];
    var cache: set<Text> := {};
    var pieces := Split(s, 38);
    for i := 0 to |pieces|
      invariant cache == set p | p in pieces[..i]
      invariant params == ParsePieces(pieces[..i])
    {
      var kv := pieces[i];
      assert pieces[..i + 1][..i] == pieces[..i];
      if kv !in cache {
        cache := cache + {kv};
        var k := IndexOf(kv, 61);
        var key, value := kv[..k], if k < |kv| then kv[k + 1..] else [];
        if key != [] {
          var decodedKey := DecodeUrl(key, true);
          var decodedValue := DecodeUrl(value, true);
          params := params + [Param(decodedKey, decodedValue)];
        }
      }
    }
    assert pieces[..|pieces|] == pieces;
  }

  // ---------------------------------------------------------------- the round trip

  /** A key that survives being written without encoding: not empty, no separator, no blank in front, and its own
      decoding. */
  predicate IsGoodKey(key: Text) {
    IsWhole(key) && key != [] && Decode(key, true, 0) == key
  }

  /** A key that stays in one piece. */
  predicate IsWhole(key: Text) {
    38 !in key && 61 !in key && (key != [] ==> !IsBlank(key[0]))
  }

  predicate GoodKeys(params: seq<Param>) {
    forall i :: 0 <= i < |params| ==> IsGoodKey(params[i].key)
  }

  /** In particular every non-empty key of unreserved characters is one. */
  lemma {:induction false} PlainKeyIsGood(key: Text)
    requires key != [] && forall c :: c in key ==> IsPlain(c)
    ensures IsGoodKey(key)
  {
    assert 37 !in key && 43 !in key && 38 !in key && 61 !in key && key[0] in key;
    DecodePlainText(key, true, 0);
    assert key[0..] == key;
  }

  /** A piece that `split` reports unchanged. */
  predicate IsTight(t: Text) {
    t != [] && 38 !in t && !IsBlank(t[0]) && !IsBlank(t[|t| - 1])
  }

  lemma {:induction false} EncodedEnd(value: Text)
    ensures 38 !in Encode(value) && 61 !in Encode(value)
    ensures Encode(value) != [] ==> !IsBlank(Encode(value)[|Encode(value)| - 1])
  {
    var e := Encode(value);
    if 38 in e {
      EncodeAlphabet(value, 38);
    }
    if 61 in e {
      EncodeAlphabet(value, 61);
    }
    if e != [] {
      assert e[|e| - 1] in e;
      EncodeAlphabet(value, e[|e| - 1]);
    }
  }

  lemma {:induction false} PairIsTight(p: Param)
    requires IsWhole(p.key)
    ensures IsTight(PairText(p))
  {
    EncodedEnd(p.value);
    hide Encode;
    var t, e := PairText(p), Encode(p.value);
    assert e != [] ==> t[|t| - 1] == e[|e| - 1];
    assert p.key != [] ==> t[0] == p.key[0];
  }

  lemma {:induction false} TightReported(t: Text)
    requires IsTight(t)
    ensures Reported(t) == [t]
  {
  }

  lemma {:induction false} CutScan(s: Text, d: byte, beg: nat, i: nat, j: nat)
    requires beg <= i <= j <= |s| && d !in s[i..j]
    ensures Cut(s, d, beg, i) == Cut(s, d, beg, j)
    decreases j - i
  {
    hide Reported;
    if i < j {
      assert s[i..j][0] == s[i] && s[i + 1..j] == s[i..j][1..];
      CutScan(s, d, beg, i + 1, j);
    }
  }

  lemma {:induction false} CutLast(before: Text, t: Text)
    requires IsTight(t)
    ensures Cut(before + t, 38, |before|, |before|) == [t]
  {
    hide Cut, Reported;
    var s := before + t;
    assert s[|before|..|s|] == t;
    CutScan(s, 38, |before|, |before|, |s|);
    CutEnd(s, 38, |before|);
    TightReported(t);
  }

  lemma {:induction false} CutMore(before: Text, t: Text, after: Text)
    requires IsTight(t)
    ensures var s, next := before + t + [38] + after, |before| + |t| + 1;
            Cut(s, 38, |before|, |before|) == [t] + Cut(s, 38, next, next)
  {
    hide Cut, Reported;
    var s, end := before + t + [38] + after, |before| + |t|;
    assert s[|before|..end] == t && s[end] == 38;
    CutScan(s, 38, |before|, |before|, end);
    CutStep([], s, 38, |before|, end);
    TightReported(t);
    assert [] + Cut(s, 38, |before|, end) == Cut(s, 38, |before|, end) && [] + [t] == [t];
  }

  lemma {:induction false} CutJoin(before: Text, texts: seq<Text>)
    requires texts != [] && forall i :: 0 <= i < |texts| ==> IsTight(texts[i])
    ensures Cut(before + Join(texts), 38, |before|, |before|) == texts
    decreases |texts|
  {
    hide Cut, Reported;
    var t := texts[0];
    if |texts| == 1 {
      CutLast(before, t);
    } else {
      var rest := texts[1..];
      CutMore(before, t, Join(rest));
      CutJoin(before + t + [38], rest);
      assert before + (t + [38] + Join(rest)) == before + t + [38] + Join(rest);
      assert [t] + rest == texts;
    }
  }

  lemma {:induction false} IndexOfKey(key: Text, rest: Text)
    requires 61 !in key
    ensures IndexOf(key + [61] + rest, 61) == |key|
  {
    var t := key + [61] + rest;
    assert t[|key|] == 61 && forall i :: 0 <= i < |key| ==> t[i] == key[i];
  }

  lemma {:induction false} PairReadsBack(p: Param)
    requires IsGoodKey(p.key)
    ensures ParsePair(PairText(p)) == Some(p)
  {
    var t := PairText(p);
    IndexOfKey(p.key, Encode(p.value));
    assert t[..|p.key|] == p.key && t[|p.key| + 1..] == Encode(p.value);
    hide Decode, Encode;
    EncodeRoundTrip(p.value, true);
  }

  /** The entries without repetitions, first occurrences kept. */
  function Dedup(params: seq<Param>): seq<Param> {
    if params == [] then []
    else
      var before, p := params[..|params| - 1], params[|params| - 1];
      Dedup(before) + (if p in before then [] else [p])
  }

  predicate NoDuplicates(params: seq<Param>) {
    forall i, j :: 0 <= i < j < |params| ==> params[i] != params[j]
  }

  lemma {:induction false} DedupKeepsAll(params: seq<Param>)
    requires NoDuplicates(params)
    ensures Dedup(params) == params
  {
    if params != [] {
      var n := |params| - 1;
      var before, p := params[..n], params[n];
      NoDuplicatesBefore(params);
      hide NoDuplicates;
      DedupKeepsAll(before);
      DedupLast(params);
      assert params == before + [p];
    }
  }

  lemma {:induction false} NoDuplicatesBefore(params: seq<Param>)
    requires NoDuplicates(params) && params != []
    ensures NoDuplicates(params[..|params| - 1]) && params[|params| - 1] !in params[..|params| - 1]
  {
  }

  lemma {:induction false} DedupLast(params: seq<Param>)
    requires params != []
    ensures var before, p := params[..|params| - 1], params[|params| - 1];
            Dedup(params) == Dedup(before) + (if p in before then [] else [p])
  {
  }

  lemma {:induction false} DedupShortens(params: seq<Param>)
    ensures |Dedup(params)| <= |params|
    ensures !NoDuplicates(params) ==> |Dedup(params)| < |params|
  {
    if params != [] {
      var before, p := params[..|params| - 1], params[|params| - 1];
      DedupShortens(before);
      hide Dedup;
      DedupPush(params);
      if p !in before && NoDuplicates(before) {
        forall i, j | 0 <= i < j < |params|
          ensures params[i] != params[j]
        {
          assert params[i] == before[i] && (j < |before| ==> params[j] == before[j]);
        }
      }
    }
  }

  lemma {:induction false} DedupPush(params: seq<Param>)
    requires params != []
    ensures var before, p := params[..|params| - 1], params[|params| - 1];
            |Dedup(params)| == |Dedup(before)| + (if p in before then 0 else 1)
  {
  }

  lemma {:induction false} PieceRepeats(before: seq<Param>, p: Param)
    requires GoodKeys(before) && IsGoodKey(p.key)
    ensures PairText(p) in Pairs(before) <==> p in before
  {
    PairReadsBack(p);
    if PairText(p) in Pairs(before) {
      var i :| 0 <= i < |before| && Pairs(before)[i] == PairText(p);
      PairReadsBack(before[i]);
      assert before[i] == p;
    }
    if p in before {
      var i :| 0 <= i < |before| && before[i] == p;
      assert Pairs(before)[i] == PairText(p);
    }
  }

  lemma {:induction false} PiecesReadBack(params: seq<Param>)
    requires GoodKeys(params)
    ensures ParsePieces(Pairs(params)) == Dedup(params)
  {
    if params != [] {
      var before, p := params[..|params| - 1], params[|params| - 1];
      assert Pairs(params)[..|params| - 1] == Pairs(before);
      PiecesReadBack(before);
      PairReadsBack(p);
      PieceRepeats(before, p);
    }
  }

  /** Reading what was written gives the entries back, repetitions removed; so it gives them back unchanged exactly when
      there are no repetitions. */
  lemma {:induction false} QueryRoundTrip(params: seq<Param>)
    requires GoodKeys(params)
    ensures ParsePieces(Cut(Join(Pairs(params)), 38, 0, 0)) == Dedup(params)
    ensures ParsePieces(Cut(Join(Pairs(params)), 38, 0, 0)) == params <==> NoDuplicates(params)
  {
    hide PairText;
    var texts := Pairs(params);
    if params != [] {
      forall i | 0 <= i < |texts|
        ensures IsTight(texts[i])
      {
        PairIsTight(params[i]);
      }
      CutJoin([], texts);
      assert [] + Join(texts) == Join(texts);
    } else {
      CutEnd([], 38, 0);
    }
    PiecesReadBack(params);
    DedupShortens(params);
    if NoDuplicates(params) {
      DedupKeepsAll(params);
    }
  }

  /** Around a piece blanks and tabs are cut off, inside it they stay. */
  lemma {:induction false} TrimmedExample()
    ensures Reported([9, 32, 97, 32, 9, 98, 32, 9]) == [[97, 32, 9, 98]]
    ensures Reported([9, 32]) == []
  {
    var s: Text := [9, 32, 97, 32, 9, 98, 32, 9];
    assert TrimLeft(s) == TrimLeft(s[1..]) == TrimLeft(s[1..][1..]) == [97, 32, 9, 98, 32, 9];
    var t: Text := [97, 32, 9, 98, 32, 9];
    assert t[..5] == [97, 32, 9, 98, 32] && t[..5][..4] == [97, 32, 9, 98];
    assert TrimRight(t) == TrimRight(t[..5]) == TrimRight(t[..5][..4]) == [97, 32, 9, 98];
    var b: Text := [9, 32];
    assert TrimLeft(b) == TrimLeft(b[1..]) == TrimLeft(b[1..][1..]) == [];
  }

  /** Written in the usual way: a=1&b=%26. */
  lemma {:induction false} WrittenExample()
    ensures Join(Pairs([Param([97], [49]), Param([98], [38])])) == [97, 61, 49, 38, 98, 61, 37, 50, 54]
  {
    var p, q := Param([97], [49]), Param([98], [38]);
    assert Encode([49]) == EncodeByte(49) + Encode([49][1..]) == [49];
    assert Encode([38]) == EncodeByte(38) + Encode([38][1..]) == [37, 50, 54];
    assert PairText(p) == [97, 61, 49] && PairText(q) == [98, 61, 37, 50, 54];
    assert Pairs([p, q]) == [PairText(p), PairText(q)];
    assert [PairText(p), PairText(q)][1..] == [PairText(q)];
    assert Join([PairText(q)]) == PairText(q);
  }
}
