/** Exactly which parameters survive `params_to_query_str` followed by `parse_query_text` in FileServer/httplib.h.

    Keys are written without encoding.  Whatever happens to a key on the way back takes weight from it, so that a
    collection of entries can only come back if nothing happened to any key. */
module QueryExact {
  import opened Bytes
  import opened PercentCoding
  import opened QueryString

  // ---------------------------------------------------------------- weight

  /** The length, a plus sign counting double because it turns into a blank. */
  function Weight(t: Text): nat {
    if t == [] then 0 else (if t[0] == 43 then 2 else 1) + Weight(t[1..])
  }

  lemma {:induction false} WeightAppend(a: Text, b: Text)
    ensures Weight(a + b) == Weight(a) + Weight(b)
  {
    if a == [] {
      assert a + b == b;
    } else {
      assert (a + b)[1..] == a[1..] + b;
      WeightAppend(a[1..], b);
    }
  }

  lemma {:induction false} WeightAtLeast(t: Text)
    ensures |t| <= Weight(t) <= 2 * |t|
    ensures 43 !in t ==> Weight(t) == |t|
  {
    if t != [] {
      WeightAtLeast(t[1..]);
    }
  }

  lemma {:induction false} WeightOfPrefix(t: Text, k: nat)
    requires k <= |t|
    ensures Weight(t[..k]) + Weight(t[k..]) == Weight(t)
    ensures k < |t| ==> Weight(t[..k]) < Weight(t)
    ensures k > 0 ==> Weight(t[k..]) < Weight(t)
  {
    assert t == t[..k] + t[k..];
    WeightAppend(t[..k], t[k..]);
    WeightAtLeast(t[..k]);
    WeightAtLeast(t[k..]);
  }

  // ---------------------------------------------------------------- decoding

  lemma {:induction false} Utf8Weight(code: nat)
    ensures Weight(Utf8(code)) < 6
  {
    var u := Utf8(code);
    WeightAtLeast(u);
    if |u| >= 3 {
      assert forall i :: 0 <= i < |u| ==> u[i] >= 0x80;
    }
  }

  lemma {:induction false} DecodeAtWeight(s: Text, i: nat)
    requires i < |s|
    ensures var r := DecodeAt(s, true, i);
            Weight(r.0) <= Weight(s[i..i + r.1]) && (Weight(r.0) == Weight(s[i..i + r.1]) ==> r.0 == s[i..i + r.1])
  {
    var r := DecodeAt(s, true, i);
    var part := s[i..i + r.1];
    WeightAtLeast(r.0);
    WeightAtLeast(part);
    if r.1 == 6 {
      var v := FromHex(s, i + 2, 4, 0);
      Utf8Weight(v.value);
    } else if r.1 == 1 {
      assert part == [s[i]] && part[1..] == [] && r.0[1..] == [];
    }
  }

  /** Decoding takes weight away unless it changes nothing. */
  lemma {:induction false} DecodeWeight(s: Text, i: nat)
    requires i <= |s|
    ensures Weight(Decode(s, true, i)) <= Weight(s[i..])
    ensures Weight(Decode(s, true, i)) == Weight(s[i..]) ==> Decode(s, true, i) == s[i..]
    decreases |s| - i
  {
    hide DecodeAt, Weight;
    if i < |s| {
      var r := DecodeAt(s, true, i);
      var rest := Decode(s, true, i + r.1);
      DecodeAtWeight(s, i);
      DecodeWeight(s, i + r.1);
      assert s[i..] == s[i..i + r.1] + s[i + r.1..];
      WeightAppend(s[i..i + r.1], s[i + r.1..]);
      WeightAppend(r.0, rest);
    } else {
      assert s[i..] == [] && Decode(s, true, i) == [];
    }
  }

  lemma {:induction false} DecodedKey(key: Text)
    ensures Weight(Decode(key, true, 0)) <= Weight(key)
    ensures Weight(Decode(key, true, 0)) == Weight(key) ==> Decode(key, true, 0) == key
  {
    DecodeWeight(key, 0);
    assert key[0..] == key;
  }

  // ---------------------------------------------------------------- pieces

  /** The part of a piece that becomes a key. */
  function RawKey(piece: Text): Text {
    piece[..IndexOf(piece, 61)]
  }

  function RawTotal(pieces: seq<Text>): nat {
    if pieces == [] then 0
    else RawTotal(pieces[..|pieces| - 1]) + Weight(RawKey(pieces[|pieces| - 1]))
  }

  lemma {:induction false} RawTotalAppend(a: seq<Text>, b: seq<Text>)
    ensures RawTotal(a + b) == RawTotal(a) + RawTotal(b)
  {
    hide RawKey, Weight;
    if b == [] {
      assert a + b == a;
    } else {
      assert (a + b)[..|a + b| - 1] == a + b[..|b| - 1];
      RawTotalAppend(a, b[..|b| - 1]);
    }
  }

  function KeyTotal(params: seq<Param>): nat {
    if params == [] then 0
    else KeyTotal(params[..|params| - 1]) + Weight(params[|params| - 1].key)
  }

  /** The entries weigh no more than the pieces; if they weigh the same and none is missing, every key was its own
      decoding. */
  lemma {:induction false} ParsedTotal(pieces: seq<Text>)
    ensures |ParsePieces(pieces)| <= |pieces| && KeyTotal(ParsePieces(pieces)) <= RawTotal(pieces)
    ensures |ParsePieces(pieces)| == |pieces| && KeyTotal(ParsePieces(pieces)) == RawTotal(pieces) ==>
      forall i :: 0 <= i < |pieces| ==> RawKey(pieces[i]) != [] && Decode(RawKey(pieces[i]), true, 0) == RawKey(pieces[i])
  {
    hide Weight, Decode, IndexOf;
    if pieces != [] {
      var before, kv := pieces[..|pieces| - 1], pieces[|pieces| - 1];
      var done, all := ParsePieces(before), ParsePieces(pieces);
      ParsedTotal(before);
      DecodedKey(RawKey(kv));
      if all != done {
        assert all == done + [ParsePair(kv).value];
        assert all[..|all| - 1] == done;
      }
      assert forall i :: 0 <= i < |before| ==> pieces[i] == before[i];
    }
  }

  // ---------------------------------------------------------------- what splitting does to one entry

  /** All pieces of a text. */
  function PiecesOf(t: Text): seq<Text> {
    Cut(t, 38, 0, 0)
  }

  lemma {:induction false} CutLocal(a: Text, b: Text, beg: nat, i: nat)
    requires beg <= i <= |a|
    ensures Cut(a + [38] + b, 38, beg, i) == Cut(a, 38, beg, i) + Cut(a + [38] + b, 38, |a| + 1, |a| + 1)
    decreases |a| - i
  {
    hide Reported;
    var s := a + [38] + b;
    var rest := Cut(s, 38, |a| + 1, |a| + 1);
    assert s[beg..i] == a[beg..i];
    if i < |a| {
      if a[i] == 38 {
        CutLocal(a, b, i + 1, i + 1);
        assert Reported(a[beg..i]) + (Cut(a, 38, i + 1, i + 1) + rest) == Reported(a[beg..i]) + Cut(a, 38, i + 1, i + 1) + rest;
      } else {
        CutLocal(a, b, beg, i + 1);
      }
    } else {
      assert a[beg..i] == a[beg..];
    }
  }

  lemma {:induction false} CutShift(a: Text, b: Text, beg: nat, i: nat)
    requires beg <= i <= |b|
    ensures Cut(a + b, 38, |a| + beg, |a| + i) == Cut(b, 38, beg, i)
    decreases |b| - i
  {
    hide Reported;
    var s := a + b;
    assert s[|a| + beg..|a| + i] == b[beg..i];
    if i < |b| {
      if b[i] == 38 {
        CutShift(a, b, i + 1, i + 1);
      } else {
        CutShift(a, b, beg, i + 1);
      }
    } else {
      assert s[|a| + beg..] == b[beg..];
    }
  }

  lemma {:induction false} PiecesSplit(a: Text, b: Text)
    ensures PiecesOf(a + [38] + b) == PiecesOf(a) + PiecesOf(b)
  {
    hide Cut;
    CutLocal(a, b, 0, 0);
    CutShift(a + [38], b, 0, 0);
  }

  lemma {:induction false} PiecesWhole(t: Text)
    requires 38 !in t
    ensures PiecesOf(t) == Reported(t)
  {
    hide Cut, Reported;
    assert t[0..|t|] == t;
    CutScan(t, 38, 0, 0, |t|);
    CutEnd(t, 38, 0);
  }

  lemma {:induction false} TrimLeftIs(t: Text) returns (k: nat)
    ensures k <= |t| && TrimLeft(t) == t[k..] && (k == 0 <==> t == [] || !IsBlank(t[0]))
  {
    k := 0;
    if t != [] && IsBlank(t[0]) {
      var j := TrimLeftIs(t[1..]);
      k := j + 1;
      assert t[1..][j..] == t[k..];
    }
  }

  lemma {:induction false} TrimRightIs(t: Text) returns (k: nat)
    ensures k <= |t| && TrimRight(t) == t[..k] && (k == |t| <==> t == [] || !IsBlank(t[|t| - 1]))
  {
    k := |t|;
    if t != [] && IsBlank(t[|t| - 1]) {
      k := TrimRightIs(t[..|t| - 1]);
      assert t[..|t| - 1][..k] == t[..k];
    }
  }

  lemma {:induction false} RawTotalOne(t: Text)
    ensures RawTotal([t]) == Weight(RawKey(t)) && RawTotal([]) == 0
  {
    assert [t][..0] == [];
  }

  lemma {:induction false} ReportedTotal(t: Text)
    ensures RawTotal(Reported(t)) <= Weight(t)
  {
    hide RawTotal, Weight, IndexOf;
    var k := TrimLeftIs(t);
    var j := TrimRightIs(t[k..]);
    var r := t[k..][..j];
    RawTotalOne(r);
    WeightOfPrefix(t, k);
    WeightOfPrefix(t[k..], j);
    WeightOfPrefix(r, IndexOf(r, 61));
  }

  /** The raw key of a pair in one piece. */
  lemma {:induction false} RawKeyOfPair(key: Text, rest: Text)
    ensures var t := key + [61] + rest;
            RawKey(t) <= key && (61 in key ==> |RawKey(t)| < |key|) && (61 !in key ==> RawKey(t) == key)
  {
    var t := key + [61] + rest;
    var k := IndexOf(t, 61);
    IndexBound(t, 61, |key|);
    assert t[..k] == key[..k];
    if 61 in key {
      var i :| 0 <= i < |key| && key[i] == 61;
      IndexBound(t, 61, i);
    } else {
      IndexOfKey(key, rest);
    }
  }

  lemma {:induction false} IndexBound(t: Text, d: byte, i: nat)
    requires i < |t| && t[i] == d
    ensures IndexOf(t, d) <= i
  {
    if t[0] != d {
      IndexBound(t[1..], d, i - 1);
    }
  }

  /** A pair without an ampersand in its key: only a key without equals signs and leading blanks keeps its weight. */
  lemma {:induction false} OnePieceTotal(p: Param)
    requires 38 !in p.key
    ensures RawTotal(PiecesOf(PairText(p))) <= Weight(p.key)
    ensures RawTotal(PiecesOf(PairText(p))) == Weight(p.key) ==> IsWhole(p.key)
  {
    var e := Encode(p.value);
    var t := PairText(p);
    EncodedEnd(p.value);
    assert 38 !in t;
    PiecesWhole(t);
    hide RawTotal, Weight, RawKey, Encode, PiecesOf;
    var k := TrimLeftIs(p.key);
    var key := p.key[k..];
    TrimmedPair(p.key, k, e);
    RawTotalOne(key + [61] + e);
    RawKeyOfPair(key, e);
    var raw := RawKey(key + [61] + e);
    assert raw == key[..|raw|];
    WeightOfPrefix(key, |raw|);
    WeightOfPrefix(p.key, k);
  }

  lemma {:induction false} TrimmedPair(key: Text, k: nat, e: Text)
    requires k <= |key| && TrimLeft(key) == key[k..] && (e != [] ==> !IsBlank(e[|e| - 1]))
    ensures Reported(key + [61] + e) == [key[k..] + [61] + e]
  {
    var t, r := key + [61] + e, key[k..] + [61] + e;
    TrimLeftPair(key, e);
    assert r[|r| - 1] == if e == [] then 61 else e[|e| - 1];
  }

  lemma {:induction false} TrimLeftPair(key: Text, e: Text)
    ensures TrimLeft(key + [61] + e) == TrimLeft(key) + [61] + e
  {
    if key == [] {
      assert key + [61] + e == [61] + e;
    } else {
      assert (key + [61] + e)[1..] == key[1..] + [61] + e;
      TrimLeftPair(key[1..], e);
    }
  }

  /** Splitting takes weight from a key unless it stays whole. */
  lemma {:induction false} PairTotal(p: Param)
    ensures RawTotal(PiecesOf(PairText(p))) <= Weight(p.key)
    ensures RawTotal(PiecesOf(PairText(p))) == Weight(p.key) ==> IsWhole(p.key)
    decreases |p.key|
  {
    hide RawTotal, Weight, Encode, PiecesOf, IsWhole;
    var k := IndexOf(p.key, 38);
    if k == |p.key| {
      assert p.key[..k] == p.key;
      OnePieceTotal(p);
    } else {
      var a, q := p.key[..k], Param(p.key[k + 1..], p.value);
      assert p.key == a + [38] + q.key;
      assert PairText(p) == a + [38] + PairText(q);
      PiecesSplit(a, PairText(q));
      RawTotalAppend(PiecesOf(a), PiecesOf(PairText(q)));
      PiecesWhole(a);
      ReportedTotal(a);
      PairTotal(q);
      WeightOfPrefix(p.key, k);
      WeightOfPrefix(p.key[k..], 1);
      assert p.key[k..][1..] == q.key;
    }
  }

  // ---------------------------------------------------------------- what splitting does to all entries

  function AllPieces(texts: seq<Text>): seq<Text> {
    if texts == [] then [] else AllPieces(texts[..|texts| - 1]) + PiecesOf(texts[|texts| - 1])
  }

  lemma {:induction false} PiecesOfJoin(texts: seq<Text>)
    ensures PiecesOf(Join(texts)) == AllPieces(texts)
  {
    if texts == [] {
      CutEnd([], 38, 0);
    } else {
      hide PiecesOf, Join;
      var before, t := texts[..|texts| - 1], texts[|texts| - 1];
      assert texts == before + [t];
      if before == [] {
        JoinOne(t);
        assert AllPieces(before) == [] && [] + PiecesOf(t) == PiecesOf(t);
      } else {
        JoinPush(before, t);
        PiecesSplit(Join(before), t);
        PiecesOfJoin(before);
      }
    }
  }

  lemma {:induction false} JoinOne(t: Text)
    ensures Join([t]) == t
  {
  }

  lemma {:induction false} WrittenTotal(params: seq<Param>)
    ensures RawTotal(AllPieces(Pairs(params))) <= KeyTotal(params)
    ensures RawTotal(AllPieces(Pairs(params))) == KeyTotal(params) ==>
      forall i :: 0 <= i < |params| ==> IsWhole(params[i].key)
  {
    hide RawTotal, Weight, PairText, PiecesOf, IsWhole;
    if params == [] {
      RawTotalOne([]);
    } else {
      var n := |params| - 1;
      var before, p := params[..n], params[n];
      assert Pairs(params)[..n] == Pairs(before) && Pairs(params)[n] == PairText(p);
      WrittenTotal(before);
      PairTotal(p);
      RawTotalAppend(AllPieces(Pairs(before)), PiecesOf(PairText(p)));
    }
  }

  // ---------------------------------------------------------------- the exact condition

  lemma {:induction false} SameTotal(a: seq<Param>, b: seq<Param>)
    requires multiset(a) == multiset(b)
    ensures |a| == |b| && KeyTotal(a) == KeyTotal(b)
  {
    hide Weight;
    assert |multiset(a)| == |a| && |multiset(b)| == |b|;
    if a != [] {
      var n, p := |a| - 1, a[|a| - 1];
      assert a == a[..n] + [p];
      assert p in multiset(b);
      var i :| 0 <= i < |b| && b[i] == p;
      TakeOut(b, i);
      var c := b[..i] + b[i + 1..];
      assert multiset(a[..n]) == multiset(a) - multiset{p} && multiset(c) == multiset(b) - multiset{p};
      SameTotal(a[..n], c);
    }
  }

  lemma {:induction false} TakeOut(b: seq<Param>, i: nat)
    requires i < |b|
    ensures multiset(b) == multiset(b[..i] + b[i + 1..]) + multiset{b[i]}
    ensures KeyTotal(b) == KeyTotal(b[..i] + b[i + 1..]) + Weight(b[i].key)
  {
    hide Weight;
    var p := b[i];
    assert b == b[..i] + [p] + b[i + 1..];
    KeyTotalAppend(b[..i], b[i + 1..]);
    KeyTotalAppend(b[..i] + [p], b[i + 1..]);
    KeyTotalAppend(b[..i], [p]);
    assert [p][..0] == [];
  }

  lemma {:induction false} KeyTotalAppend(a: seq<Param>, b: seq<Param>)
    ensures KeyTotal(a + b) == KeyTotal(a) + KeyTotal(b)
  {
    hide Weight;
    if b == [] {
      assert a + b == a;
    } else {
      assert (a + b)[..|a + b| - 1] == a + b[..|b| - 1];
      KeyTotalAppend(a, b[..|b| - 1]);
    }
  }

  /** Keys in one piece give one piece each. */
  lemma {:induction false} WholePieces(params: seq<Param>)
    requires forall i :: 0 <= i < |params| ==> IsWhole(params[i].key)
    ensures PiecesOf(Join(Pairs(params))) == Pairs(params)
  {
    hide PairText, IsWhole;
    var texts := Pairs(params);
    if params != [] {
      forall i | 0 <= i < |texts|
        ensures IsTight(texts[i])
      {
        PairIsTight(params[i]);
      }
      CutJoin([], texts);
      assert [] + Join(texts) == Join(texts);
    } else {
      CutEnd([], 38, 0);
    }
  }

  lemma {:induction false} RawKeyOfWhole(p: Param)
    requires IsWhole(p.key)
    ensures RawKey(PairText(p)) == p.key
  {
    RawKeyOfPair(p.key, Encode(p.value));
  }

  /** What comes back when the entries are written and parsed. */
  function Back(params: seq<Param>): seq<Param> {
    ParsePieces(PiecesOf(Join(Pairs(params))))
  }

  lemma {:induction false} OnlyGoodKeys(params: seq<Param>)
    requires multiset(Back(params)) == multiset(params)
    ensures GoodKeys(params)
  {
    hide PiecesOf, Join, Pairs, ParsePieces, RawTotal, KeyTotal, RawKey, PairText, Decode;
    var texts := Pairs(params);
    SameTotal(Back(params), params);
    PiecesOfJoin(texts);
    ParsedTotal(AllPieces(texts));
    WrittenTotal(params);
    WholePieces(params);
    ParsedTotal(texts);
    forall i | 0 <= i < |params|
      ensures IsGoodKey(params[i].key)
    {
      PairAt(params, i);
      RawKeyOfWhole(params[i]);
    }
  }

  lemma {:induction false} PairAt(params: seq<Param>, i: nat)
    requires i < |params|
    ensures |Pairs(params)| == |params| && Pairs(params)[i] == PairText(params[i])
  {
  }

  /** The entries come back, as a collection or in order, exactly when none occurs twice and every key is non-empty,
      has no ampersand or equals sign, does not start with a blank and is its own decoding. */
  lemma {:induction false} QueryExactly(params: seq<Param>)
    ensures Back(params) == params <==> GoodKeys(params) && NoDuplicates(params)
    ensures multiset(Back(params)) == multiset(params) <==> GoodKeys(params) && NoDuplicates(params)
  {
    hide Cut, Join, Pairs, ParsePieces, GoodKeys, NoDuplicates, Dedup;
    if GoodKeys(params) && NoDuplicates(params) {
      QueryRoundTrip(params);
    }
    if multiset(Back(params)) == multiset(params) {
      OnlyGoodKeys(params);
      QueryRoundTrip(params);
      SameTotal(Back(params), params);
      DedupShortens(params);
    }
  }

  /** The same through the two loops. */
  method WriteThenParse(params: seq<Param>) returns (back: seq<Param>)
    ensures GoodKeys(params) ==> back == Dedup(params)
    ensures back == params <==> GoodKeys(params) && NoDuplicates(params)
    ensures multiset(back) == multiset(params) <==> GoodKeys(params) && NoDuplicates(params)
  {
    hide Cut, Join, Pairs, ParsePieces, Dedup, GoodKeys, NoDuplicates;
    var query := ParamsToQueryStr(params);
    back := ParseQueryText(query);
    QueryExactly(params);
    if GoodKeys(params) {
      QueryRoundTrip(params);
    }
  }
}
