/** Bytes and byte strings shared by the models. */
module Bytes {

  type byte = b: int | 0 <= b < 256

  datatype Option<+T> = None | Some(value: T)

  /** The concatenation of a sequence of byte strings. */
  function Concat(parts: seq<seq<byte>>): seq<byte> {
    if parts == [] then [] else parts[0] + Concat(parts[1..])
  }

  lemma {:induction false} ConcatAppend(a: seq<seq<byte>>, b: seq<seq<byte>>)
    ensures Concat(a + b) == Concat(a) + Concat(b)
  {
    if a == [] {
      assert a + b == b;
    } else {
      assert (a + b)[1..] == a[1..] + b;
      ConcatAppend(a[1..], b);
    }
  }

  lemma ConcatPush(a: seq<seq<byte>>, x: seq<byte>)
    ensures Concat(a + [x]) == Concat(a) + x
  {
    ConcatAppend(a, [x]);
  }

  /** `part` stands in `s` at `i`. */
  predicate At(s: seq<byte>, i: nat, part: seq<byte>) {
    i + |part| <= |s| && s[i..i + |part|] == part
  }

  lemma {:induction false} AtMiddle(a: seq<byte>, b: seq<byte>, c: seq<byte>)
    ensures At(a + b + c, |a|, b)
  {
  }

  lemma {:induction false} AtInside(s: seq<byte>, i: nat, part: seq<byte>)
    requires At(s, i, part)
    ensures i + |part| <= |s|
  {
  }

  lemma {:induction false} AtIndex(s: seq<byte>, i: nat, part: seq<byte>, k: nat)
    requires At(s, i, part) && k < |part|
    ensures i + k < |s| && s[i + k] == part[k]
  {
    assert s[i..i + |part|][k] == s[i + k];
  }

  lemma {:induction false} AtSplit(s: seq<byte>, i: nat, a: seq<byte>, b: seq<byte>)
    ensures At(s, i, a + b) <==> At(s, i, a) && At(s, i + |a|, b)
  {
    if i + |a + b| <= |s| {
      var part := s[i..i + |a + b|];
      assert part[..|a|] == s[i..i + |a|] && part[|a|..] == s[i + |a|..i + |a| + |b|];
      assert (a + b)[..|a|] == a && (a + b)[|a|..] == b;
      assert part == part[..|a|] + part[|a|..];
    }
  }

  lemma {:induction false} DropSlice(s: seq<byte>, k: nat, a: nat, b: nat)
    requires k <= |s| && a <= b && k + b <= |s|
    ensures s[k..][a..b] == s[k + a..k + b]
  {
    var x, y := s[k..][a..b], s[k + a..k + b];
    forall i | 0 <= i < b - a
      ensures x[i] == y[i]
    {
      assert x[i] == s[k..][a + i] == s[k + a + i];
    }
    assert |x| == |y|;
  }
}
