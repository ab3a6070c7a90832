/** `MultipartFormDataParser` in FileServer/httplib.h: the search for the opening boundary (state 0) and the body
    (state 3), where content is split off at the first CRLF--boundary delimiter while the input arrives in arbitrary
    pieces.  The header states between them are not part of this model. */
module Multipart {
  import opened Bytes

  /** The delimiter occurs at position `i`. */
  predicate Occurs(hay: seq<byte>, needle: seq<byte>, i: nat) {
    i + |needle| <= |hay| && hay[i..i + |needle|] == needle
  }

  /** The first position at or after `from` where `needle` occurs, or `|hay|`. */
  function FirstFrom(hay: seq<byte>, needle: seq<byte>, from: nat): (f: nat)
    requires from <= |hay|
    ensures from <= f <= |hay|
    ensures forall i :: from <= i < f ==> !Occurs(hay, needle, i)
    ensures f < |hay| ==> Occurs(hay, needle, f)
    decreases |hay| - from
  {
    if from == |hay| || Occurs(hay, needle, from) then from else FirstFrom(hay, needle, from + 1)
  }

  function First(hay: seq<byte>, needle: seq<byte>): (f: nat)
    ensures f <= |hay|
  {
    FirstFrom(hay, needle, 0)
  }

  lemma {:induction false} FirstUnique(hay: seq<byte>, needle: seq<byte>, f: nat)
    requires f <= |hay| && (f < |hay| ==> Occurs(hay, needle, f))
    requires forall i :: 0 <= i < f ==> !Occurs(hay, needle, i)
    ensures First(hay, needle) == f
  {
  }

  /** More input does not move an occurrence, and does not create one that ends inside the old input. */
  lemma {:induction false} OccursInPrefix(hay: seq<byte>, more: seq<byte>, needle: seq<byte>, i: nat)
    requires i + |needle| <= |hay|
    ensures Occurs(hay + more, needle, i) <==> Occurs(hay, needle, i)
  {
    assert (hay + more)[i..i + |needle|] == hay[i..i + |needle|];
  }

  lemma {:induction false} FirstInPrefix(hay: seq<byte>, more: seq<byte>, needle: seq<byte>)
    requires First(hay, needle) < |hay|
    ensures First(hay + more, needle) == First(hay, needle)
  {
    var f := First(hay, needle);
    forall i | 0 <= i < f
      ensures !Occurs(hay + more, needle, i)
    {
      OccursInPrefix(hay, more, needle, i);
    }
    OccursInPrefix(hay, more, needle, f);
    FirstUnique(hay + more, needle, f);
  }

  /** An occurrence behind a prefix is an occurrence in the rest. */
  lemma {:induction false} OccursBehind(done: seq<byte>, rest: seq<byte>, needle: seq<byte>, i: nat)
    ensures Occurs(done + rest, needle, |done| + i) <==> Occurs(rest, needle, i)
  {
    if i + |needle| <= |rest| {
      assert (done + rest)[|done| + i..|done| + i + |needle|] == rest[i..i + |needle|];
    }
  }

  /** In the body: no occurrence has been passed over, and enough is kept back that none can be. */
  ghost predicate BeforeDelimiter(needle: seq<byte>, delivered: seq<byte>, data: seq<byte>, received: seq<byte>) {
    && delivered + data == received
    && (delivered != [] ==> |data| >= |needle|)
    && forall i :: 0 <= i < |delivered| ==> !Occurs(received, needle, i)
  }

  /** Behind it: exactly the content before the first delimiter is delivered, and the delimiter is dropped. */
  ghost predicate BehindDelimiter(needle: seq<byte>, delivered: seq<byte>, data: seq<byte>, received: seq<byte>) {
    var f := First(received, needle);
    && f < |received| && f + |needle| <= |received|
    && delivered == received[..f]
    && data == received[f + |needle|..]
  }

  function Opening(boundary: seq<byte>): seq<byte> {
    [45, 45] + boundary + [13, 10]
  }

  function Delimiter(boundary: seq<byte>): seq<byte> {
    [13, 10, 45, 45] + boundary
  }

  class Parser {
    const opening: seq<byte>       // dash_boundary_crlf_
    const delimiter: seq<byte>     // crlf_dash_boundary_
    var buf: seq<byte>
    var spos: nat
    var epos: nat
    var state: nat
    var isValid: bool
    var delivered: seq<byte>       // what the content callback has accepted, concatenated
    ghost var received: seq<byte>  // what has been fed since the body began

    ghost predicate Valid()
      reads this
    {
      opening != [] && delimiter != [] && spos <= epos <= |buf|
    }

    ghost function Data(): seq<byte>
      requires Valid()
      reads this
    {
      buf[spos..epos]
    }

    ghost predicate Consistent()
      reads this
    {
      && Valid()
      && (state == 3 ==> BeforeDelimiter(delimiter, delivered, Data(), received))
      && (state == 4 ==> BehindDelimiter(delimiter, delivered, Data(), received))
    }

    /** A parser that has seen nothing yet. */
    constructor Start(boundary: seq<byte>)
      ensures Valid() && state == 0 && Data() == []
      ensures opening == Opening(boundary) && delimiter == Delimiter(boundary)
    {
      opening, delimiter := Opening(boundary), Delimiter(boundary);
      buf, spos, epos := [], 0, 0;
      state, isValid := 0, false;
      delivered, received := [], [];
    }

    /** Entry into the body state: whatever is still buffered is the beginning of the body. */
    constructor InBody(boundary: seq<byte>, buffered: seq<byte>)
      ensures Consistent() && state == 3 && received == buffered && delivered == []
      ensures opening == Opening(boundary) && delimiter == Delimiter(boundary)
    {
      opening, delimiter := Opening(boundary), Delimiter(boundary);
      buf, spos, epos := buffered, 0, |buffered|;
      state, isValid := 3, false;
      delivered, received := [], buffered;
    }

    method StartsWith(pos: nat, s: seq<byte>) returns (r: bool)
      requires Valid() && pos <= epos
      ensures r <==> pos + |s| <= epos && buf[pos..pos + |s|] == s
    {
      if epos - pos < |s| {
        return false;
      }
      var i := 0;
      while i < |s|
        invariant 0 <= i <= |s|
        invariant buf[pos..pos + i] == s[..i]
      {
        if buf[pos + i] != s[i] {
          assert buf[pos..pos + |s|][i] != s[i];
          return false;
        }
        i := i + 1;
      }
      return true;
    }

    /** The position of the first occurrence in the buffered data, or its length: scan for the first character, then
        compare. */
    method Find(s: seq<byte>) returns (r: nat)
      requires Valid() && s != []
      ensures r == First(Data(), s)
    {
      hide First, Occurs;
      ghost var data := Data();
      assert forall k :: 0 <= k < |data| ==> data[k] == buf[spos + k];
      var c := s[0];
      var off := spos;
      while off < epos
        invariant spos <= off <= epos
        invariant forall i :: 0 <= i < off - spos ==> !Occurs(data, s, i)
      {
        var pos := off;
        while pos < epos && buf[pos] != c
          invariant off <= pos <= epos
          invariant forall i :: 0 <= i < pos - spos ==> !Occurs(data, s, i)
        {
          assert data[pos - spos] != s[0];
          Mismatch(data, s, pos - spos);
          pos := pos + 1;
        }
        if pos == epos {
          FirstUnique(data, s, |data|);
          return epos - spos;
        }
        if |s| > epos - pos {
          NoRoom(data, s, pos - spos);
          FirstUnique(data, s, |data|);
          return epos - spos;
        }
        var found := StartsWith(pos, s);
        OccursInSlice(buf, spos, epos, pos, s);
        if found {
          FirstUnique(data, s, pos - spos);
          return pos - spos;
        }
        off := pos + 1;
      }
      FirstUnique(data, s, |data|);
      return epos - spos;
    }

    /** Move what is left to the front, grow if necessary, copy the new bytes behind it. */
    method Append(data: seq<byte>)
      requires Valid()
      modifies this`buf, this`spos, this`epos
      ensures Valid() && Data() == old(Data()) + data
    {
      ghost var was := Data();
      var remaining := epos - spos;
      if remaining > 0 && spos > 0 {
        MoveDown(remaining);
      }
      assert buf[..remaining] == was;
      spos := 0;
      epos := remaining;
      if remaining + |data| > |buf| {
        var zero: byte := 0;
        buf := buf + seq(remaining + |data| - |buf|, _ => zero);
      }
      CopyBehind(data);
      epos := epos + |data|;
      assert buf[..epos] == buf[..remaining] + buf[remaining..epos];
    }

    method MoveDown(remaining: nat)
      requires Valid() && remaining == epos - spos && spos > 0
      modifies this`buf
      ensures |buf| == |old(buf)| && buf[..remaining] == old(Data())
    {
      ghost var was := Data();
      var i := 0;
      while i < remaining
        invariant 0 <= i <= remaining && |buf| == |old(buf)|
        invariant forall k :: 0 <= k < i ==> buf[k] == was[k]
        invariant forall k :: i <= k < remaining ==> buf[spos + k] == was[k]
      {
        buf := buf[i := buf[spos + i]];
        i := i + 1;
      }
    }

    method CopyBehind(data: seq<byte>)
      requires epos + |data| <= |buf|
      modifies this`buf
      ensures |buf| == |old(buf)| && buf[..epos] == old(buf)[..epos] && buf[epos..epos + |data|] == data
    {
      var i := 0;
      while i < |data|
        invariant 0 <= i <= |data| && |buf| == |old(buf)|
        invariant buf[..epos] == old(buf)[..epos] && buf[epos..epos + i] == data[..i]
      {
        ghost var done := buf[epos..epos + i];
        buf := buf[epos + i := data[i]];
        i := i + 1;
        assert buf[epos..epos + i] == done + [data[i - 1]];
      }
    }

    /** One call of `parse` in the initial state.  What precedes the opening boundary is dropped; when it is not in the
        buffer, that is everything, including the beginning of a boundary cut in two. */
    method ParseInitial(data: seq<byte>) returns (ok: bool)
      requires Valid() && state == 0 && Data() == []
      modifies this`buf, this`spos, this`epos, this`state
      ensures ok && Valid()
      ensures var f := First(data, opening);
              if f < |data| then state == 1 && f + |opening| <= |data| && Data() == data[f + |opening|..]
              else state == 0 && Data() == []
    {
      hide First;
      Append(data);
      assert Data() == data;
      if epos == spos {
        return true;
      }
      var pos := Find(opening);
      FirstOccurs(data, opening);
      if pos < |data| {
        SliceOfSlice(buf, spos, epos, spos + pos, |opening|);
      }
      spos := spos + pos;
      if |opening| > epos - spos {
        return true;
      }
      var found := StartsWith(spos, opening);
      if !found {
        return false;
      }
      spos := spos + |opening|;
      state := 1;
      return true;
    }

    /** The body case of `parse`. */
    method Body(callback: seq<byte> -> bool) returns (ok: bool)
      requires Consistent() && state == 3
      modifies this`spos, this`state, this`isValid, this`delivered
      ensures ok ==> Consistent() && (state == 3 || state == 4)
      ensures ok && state == 3 ==>
        First(received, delimiter) == |received| && |received| - |delivered| <= |delimiter|
      ensures !ok ==> !isValid && delivered == old(delivered)
      ensures (forall piece :: callback(piece)) ==> ok
    {
      hide First, BeforeDelimiter, BehindDelimiter;
      ghost var data := Data();
      if |delimiter| > epos - spos {
        TooShort(delimiter, delivered, data, received);
        return true;
      }
      var pos := Find(delimiter);
      if pos < epos - spos {
        var piece := buf[spos..spos + pos];
        if !callback(piece) {
          isValid := false;
          return false;
        }
        Found(delimiter, delivered, data, received);
        assert piece == data[..pos];
        delivered := delivered + piece;
        spos := spos + pos + |delimiter|;
        state := 4;
        assert Data() == data[pos + |delimiter|..];
      } else {
        var len := epos - spos - |delimiter|;
        HeldBack(delimiter, delivered, data, received, len);
        if len > 0 {
          var piece := buf[spos..spos + len];
          if !callback(piece) {
            isValid := false;
            return false;
          }
          assert piece == data[..len];
          delivered := delivered + piece;
          spos := spos + len;
          assert Data() == data[len..];
        }
      }
      return true;
    }

    /** One call of `parse` in the body state, up to the point where the delimiter has been found. */
    method Parse(data: seq<byte>, callback: seq<byte> -> bool) returns (ok: bool)
      requires Consistent() && state == 3
      modifies this
      ensures received == old(received) + data
      ensures ok ==> Consistent() && (state == 3 || state == 4)
      ensures ok && state == 3 ==>
        First(received, delimiter) == |received| && |received| - |delivered| <= |delimiter|
      ensures !ok ==> !isValid && delivered == old(delivered)
      ensures (forall piece :: callback(piece)) ==> ok
    {
      Append(data);
      NoNewOccurrence(received, data, delimiter, |delivered|);
      received := received + data;
      if epos == spos {
        assert received == [];
        return true;
      }
      ok := Body(callback);
    }
  }

  lemma {:induction false} SliceOfSlice(b: seq<byte>, lo: nat, hi: nat, pos: nat, n: nat)
    requires lo <= pos && pos + n <= hi <= |b|
    ensures b[lo..hi][pos - lo..pos - lo + n] == b[pos..pos + n]
  {
    var x, y := b[lo..hi][pos - lo..pos - lo + n], b[pos..pos + n];
    assert |x| == |y|;
    forall k | 0 <= k < n
      ensures x[k] == y[k]
    {
      assert x[k] == b[lo..hi][pos - lo + k] == b[pos + k];
    }
  }

  lemma {:induction false} OccursInSlice(b: seq<byte>, lo: nat, hi: nat, pos: nat, needle: seq<byte>)
    requires lo <= pos && pos + |needle| <= hi <= |b|
    ensures Occurs(b[lo..hi], needle, pos - lo) <==> b[pos..pos + |needle|] == needle
  {
    SliceOfSlice(b, lo, hi, pos, |needle|);
  }

  lemma {:induction false} NoRoom(hay: seq<byte>, needle: seq<byte>, from: nat)
    requires from + |needle| > |hay|
    ensures forall i :: from <= i < |hay| ==> !Occurs(hay, needle, i)
  {
  }

  lemma {:induction false} Mismatch(hay: seq<byte>, needle: seq<byte>, i: nat)
    requires needle != [] && i < |hay| && hay[i] != needle[0]
    ensures !Occurs(hay, needle, i)
  {
    if i + |needle| <= |hay| {
      assert hay[i..i + |needle|][0] != needle[0];
    }
  }

  /** Because a whole delimiter's length is kept back, no occurrence can begin in what was delivered. */
  lemma {:induction false} NoNewOccurrence(received: seq<byte>, data: seq<byte>, needle: seq<byte>, n: nat)
    requires n > 0 ==> n + |needle| <= |received|
    requires forall i :: 0 <= i < n ==> !Occurs(received, needle, i)
    ensures forall i :: 0 <= i < n ==> !Occurs(received + data, needle, i)
  {
    forall i | 0 <= i < n
      ensures !Occurs(received + data, needle, i)
    {
      OccursInPrefix(received, data, needle, i);
    }
  }

  lemma {:induction false} FirstBehind(done: seq<byte>, rest: seq<byte>, needle: seq<byte>)
    requires forall i :: 0 <= i < |done| ==> !Occurs(done + rest, needle, i)
    requires First(rest, needle) < |rest|
    ensures First(done + rest, needle) == |done| + First(rest, needle)
  {
    var f := First(rest, needle);
    forall i | 0 <= i < |done| + f
      ensures !Occurs(done + rest, needle, i)
    {
      if i >= |done| {
        OccursBehind(done, rest, needle, i - |done|);
      }
    }
    OccursBehind(done, rest, needle, f);
    FirstUnique(done + rest, needle, |done| + f);
  }

  lemma {:induction false} NoneBehind(done: seq<byte>, rest: seq<byte>, needle: seq<byte>)
    requires forall i :: 0 <= i < |done| ==> !Occurs(done + rest, needle, i)
    requires |needle| > |rest| || First(rest, needle) == |rest|
    ensures First(done + rest, needle) == |done + rest|
    ensures forall i :: 0 <= i < |done + rest| ==> !Occurs(done + rest, needle, i)
  {
    forall i | 0 <= i < |done + rest|
      ensures !Occurs(done + rest, needle, i)
    {
      if i >= |done| {
        OccursBehind(done, rest, needle, i - |done|);
      }
    }
    FirstUnique(done + rest, needle, |done + rest|);
  }

  lemma {:induction false} TooShort(needle: seq<byte>, delivered: seq<byte>, data: seq<byte>, received: seq<byte>)
    requires BeforeDelimiter(needle, delivered, data, received) && |needle| > |data|
    ensures First(received, needle) == |received| && |received| - |delivered| <= |needle|
  {
    NoneBehind(delivered, data, needle);
  }

  lemma {:induction false} Found(needle: seq<byte>, delivered: seq<byte>, data: seq<byte>, received: seq<byte>)
    requires BeforeDelimiter(needle, delivered, data, received) && First(data, needle) < |data|
    ensures var f := First(data, needle);
            f + |needle| <= |data|
            && BehindDelimiter(needle, delivered + data[..f], data[f + |needle|..], received)
  {
    hide First;
    FirstOccurs(data, needle);
    FirstBehind(delivered, data, needle);
    FirstOccurs(received, needle);
  }

  lemma {:induction false} FirstOccurs(hay: seq<byte>, needle: seq<byte>)
    ensures First(hay, needle) < |hay| ==>
      First(hay, needle) + |needle| <= |hay| && hay[First(hay, needle)..First(hay, needle) + |needle|] == needle
  {
  }

  lemma {:induction false} HeldBack(needle: seq<byte>, delivered: seq<byte>, data: seq<byte>, received: seq<byte>,
                                    len: nat)
    requires BeforeDelimiter(needle, delivered, data, received) && First(data, needle) == |data|
    requires |data| == len + |needle|
    ensures BeforeDelimiter(needle, delivered + data[..len], data[len..], received)
    ensures First(received, needle) == |received| && |received| - |delivered + data[..len]| <= |needle|
    ensures len == 0 ==> delivered + data[..len] == delivered && data[len..] == data
  {
    hide First;
    NoneBehind(delivered, data, needle);
    assert delivered + data[..len] + data[len..] == delivered + data;
  }

  /** However the input is cut into calls of `parse`, the content delivered is the input before its first delimiter, as
      section 5.1 of RFC 2046 has it; and as long as there is none, at most a delimiter's length is held back. */
  method Feed(boundary: seq<byte>, chunks: seq<seq<byte>>) returns (found: bool, content: seq<byte>, used: nat)
    ensures used <= |chunks|
    ensures var all, delimiter := Concat(chunks), Delimiter(boundary);
            found <==> First(all, delimiter) < |all|
    ensures var all, delimiter := Concat(chunks), Delimiter(boundary);
            if found then content == all[..First(all, delimiter)]
            else used == |chunks| && content <= all && |all| - |content| <= |delimiter|
  {
    var parser := new Parser.InBody(boundary, []);
    used := 0;
    ghost var delimiter := parser.delimiter;
    assert chunks[..0] == [];
    while used < |chunks| && parser.state == 3
      invariant used <= |chunks| && parser.Consistent() && fresh(parser)
      invariant parser.delimiter == delimiter && (parser.state == 3 || parser.state == 4)
      invariant parser.received == Concat(chunks[..used])
      invariant parser.state == 3 ==>
        First(parser.received, delimiter) == |parser.received|
        && |parser.received| - |parser.delivered| <= |delimiter|
    {
      var ok := parser.Parse(chunks[used], piece => true);
      ConcatPush(chunks[..used], chunks[used]);
      assert chunks[..used + 1] == chunks[..used] + [chunks[used]];
      used := used + 1;
    }
    found := parser.state == 4;
    content := parser.delivered;
    assert chunks[..used] + chunks[used..] == chunks;
    ConcatAppend(chunks[..used], chunks[used..]);
    if found {
      FirstInPrefix(parser.received, Concat(chunks[used..]), delimiter);
    } else {
      assert chunks[..used] == chunks;
    }
  }

  /** A CRLF belongs to both markers: what ends a part begins the line that opens the next one. */
  lemma {:induction false} MarkersShareTheirLine(boundary: seq<byte>)
    ensures Delimiter(boundary) + [13, 10] == [13, 10] + Opening(boundary)
  {
    assert [13, 10] + ([45, 45] + boundary + [13, 10]) == [13, 10, 45, 45] + boundary + [13, 10];
  }

  /** No CRLF--boundary begins inside the content. */
  predicate IsContent(boundary: seq<byte>, content: seq<byte>) {
    forall i :: 0 <= i < |content| ==>
      !At(content + ([13, 10, 45, 45] + boundary), i, [13, 10, 45, 45] + boundary)
  }

  /** In particular if the content has no carriage return. */
  lemma {:induction false} OneLineIsContent(boundary: seq<byte>, content: seq<byte>)
    requires 13 !in content
    ensures IsContent(boundary, content)
  {
    forall i | 0 <= i < |content|
      ensures !At(content + ([13, 10, 45, 45] + boundary), i, [13, 10, 45, 45] + boundary)
    {
      var s, marker := content + ([13, 10, 45, 45] + boundary), [13, 10, 45, 45] + boundary;
      assert s[i] == content[i] && content[i] in content;
      if At(s, i, marker) {
        AtIndex(s, i, marker, 0);
      }
    }
  }

  lemma {:induction false} AtIsOccurs(hay: seq<byte>, needle: seq<byte>, i: nat)
    ensures At(hay, i, needle) <==> Occurs(hay, needle, i)
  {
  }

  /** Where a message part ends: the first CRLF--boundary lies behind the content exactly if none begins inside it. */
  lemma {:induction false} EndOfPart(boundary: seq<byte>, content: seq<byte>, rest: seq<byte>)
    ensures var marker := [13, 10, 45, 45] + boundary;
            var all := content + marker + rest;
            First(all, marker) <= |content| && (First(all, marker) == |content| <==> IsContent(boundary, content))
  {
    hide First;
    var marker := [13, 10, 45, 45] + boundary;
    var hay := content + marker;
    var all := hay + rest;
    forall i | 0 <= i <= |content|
      ensures Occurs(all, marker, i) <==> At(hay, i, marker)
    {
      OccursInPrefix(hay, rest, marker, i);
      AtIsOccurs(hay, marker, i);
    }
    AtMiddle(content, marker, []);
    assert content + marker + [] == hay;
    FirstIs(all, marker, |content|);
  }

  lemma {:induction false} FirstIs(hay: seq<byte>, needle: seq<byte>, n: nat)
    requires n < |hay| && Occurs(hay, needle, n)
    ensures First(hay, needle) <= n
    ensures First(hay, needle) == n <==> forall i :: 0 <= i < n ==> !Occurs(hay, needle, i)
  {
  }

  /** A part that ends with CRLF--boundary, cut in any way: the end is found, and what was delivered is the content
      exactly if no CRLF--boundary begins inside it. */
  method FeedPart(boundary: seq<byte>, content: seq<byte>, rest: seq<byte>, chunks: seq<seq<byte>>)
    returns (found: bool, delivered: seq<byte>)
    requires Concat(chunks) == content + ([13, 10, 45, 45] + boundary) + rest
    ensures found && (delivered == content <==> IsContent(boundary, content))
    ensures delivered <= content
  {
    hide First, IsContent, Concat;
    EndOfPart(boundary, content, rest);
    var used;
    found, delivered, used := Feed(boundary, chunks);
    var all := Concat(chunks);
    assert all[..|content|] == content;
  }

  /** The opening boundary is found exactly when one single piece contains it whole, unlike the delimiters after it. */
  method FeedInitial(boundary: seq<byte>, chunks: seq<seq<byte>>) returns (found: bool)
    ensures found <==> exists i :: 0 <= i < |chunks| && First(chunks[i], Opening(boundary)) < |chunks[i]|
    ensures found <==> exists i :: 0 <= i < |chunks| && Contains(chunks[i], [45, 45] + boundary + [13, 10])
  {
    var parser := new Parser.Start(boundary);
    var i := 0;
    while i < |chunks| && parser.state == 0
      invariant 0 <= i <= |chunks| && fresh(parser) && parser.Valid() && parser.opening == Opening(boundary)
      invariant forall k :: 0 <= k < i - 1 ==> First(chunks[k], Opening(boundary)) == |chunks[k]|
      invariant parser.state == 0 ==>
        parser.Data() == [] && (i > 0 ==> First(chunks[i - 1], Opening(boundary)) == |chunks[i - 1]|)
      invariant parser.state != 0 ==> i > 0 && First(chunks[i - 1], Opening(boundary)) < |chunks[i - 1]|
    {
      var ok := parser.ParseInitial(chunks[i]);
      i := i + 1;
    }
    found := parser.state != 0;
    forall k | 0 <= k < |chunks|
      ensures First(chunks[k], Opening(boundary)) < |chunks[k]| <==> Contains(chunks[k], [45, 45] + boundary + [13, 10])
    {
      FirstContains(chunks[k], Opening(boundary));
    }
  }

  ghost predicate Contains(hay: seq<byte>, needle: seq<byte>) {
    exists k: nat :: At(hay, k, needle)
  }

  lemma {:induction false} FirstContains(hay: seq<byte>, needle: seq<byte>)
    requires needle != []
    ensures First(hay, needle) < |hay| <==> Contains(hay, needle)
  {
    if First(hay, needle) < |hay| {
      AtIsOccurs(hay, needle, First(hay, needle));
    }
    if k: nat :| At(hay, k, needle) {
      AtIsOccurs(hay, needle, k);
      FirstIs(hay, needle, k);
    }
  }

  /** So the same bytes in two pieces are missed. */
  lemma {:induction false} CutOpeningIsMissed(boundary: seq<byte>)
    ensures var opening := Opening(boundary);
            var a, b := opening[..1], opening[1..];
            && Concat([a, b]) == opening && First(opening, opening) < |opening|
            && First(a, opening) == |a| && First(b, opening) == |b|
  {
    var opening := Opening(boundary);
    var a, b := opening[..1], opening[1..];
    ConcatAppend([a], [b]);
    assert [a] + [b] == [a, b] && a + b == opening;
    ConcatPush([], a);
    ConcatPush([], b);
    assert [] + [a] == [a] && [] + [b] == [b];
    FirstUnique(opening, opening, 0);
    FirstUnique(a, opening, |a|);
    FirstUnique(b, opening, |b|);
  }
}
