/** `levenshteinDistance` and `similarity` of ClientSession.cpp. */
module Levenshtein {
  import opened Bytes

  function Min(x: nat, y: nat): nat {
    if x <= y then x else y
  }

  function Max(x: nat, y: nat): nat {
    if x >= y then x else y
  }

  function Init<T>(s: seq<T>): seq<T>
    requires s != []
  {
    s[..|s| - 1]
  }

  function Last<T>(s: seq<T>): T
    requires s != []
  {
    s[|s| - 1]
  }

  /** The recurrence that the table fills. */
  function Dist<T(==)>(a: seq<T>, b: seq<T>): nat
    decreases |a| + |b|
  {
    if a == [] then |b|
    else if b == [] then |a|
    else Min(Min(Dist(Init(a), b) + 1, Dist(a, Init(b)) + 1),
             Dist(Init(a), Init(b)) + (if Last(a) == Last(b) then 0 else 1))
  }

  lemma {:induction false} Unfold<T>(a: seq<T>, b: seq<T>)
    ensures a == [] ==> Dist(a, b) == |b|
    ensures b == [] ==> Dist(a, b) == |a|
    ensures a != [] && b != [] ==>
      Dist(a, b) == Min(Min(Dist(Init(a), b) + 1, Dist(a, Init(b)) + 1),
                        Dist(Init(a), Init(b)) + (if Last(a) == Last(b) then 0 else 1))
  {
  }

  // ---------------------------------------------------------------- the code

  method LevenshteinDistance(s1: seq<byte>, s2: seq<byte>) returns (r: nat)
    ensures r == Dist(s1, s2)
  {
    hide Dist;
    PrefixBase(s1, s2);
    var d := new nat[|s1| + 1, |s2| + 1];
    d[0, 0] := 0;
    for i := 1 to |s1| + 1
      invariant forall k :: 0 <= k < i ==> d[k, 0] == k
    {
      d[i, 0] := i;
    }
    for i := 1 to |s2| + 1
      invariant forall k :: 0 <= k <= |s1| ==> d[k, 0] == k
      invariant forall k :: 0 <= k < i ==> d[0, k] == k
    {
      d[0, i] := i;
    }
    for i := 1 to |s1| + 1
      invariant forall k :: 0 <= k <= |s1| ==> d[k, 0] == k
      invariant forall p, q :: 0 <= p < i && 0 <= q <= |s2| ==> d[p, q] == Dist(s1[..p], s2[..q])
    {
      for j := 1 to |s2| + 1
        invariant forall k :: 0 <= k <= |s1| ==> d[k, 0] == k
        invariant forall p, q :: 0 <= p < i && 0 <= q <= |s2| ==> d[p, q] == Dist(s1[..p], s2[..q])
        invariant forall q :: 0 <= q < j ==> d[i, q] == Dist(s1[..i], s2[..q])
      {
        PrefixStep(s1, s2, i, j);
        d[i, j] := Min(Min(d[i - 1, j] + 1, d[i, j - 1] + 1),
                       d[i - 1, j - 1] + (if s1[i - 1] == s2[j - 1] then 0 else 1));
      }
    }
    r := d[|s1|, |s2|];
    assert s1[..|s1|] == s1 && s2[..|s2|] == s2;
  }

  lemma {:induction false} PrefixStep<T>(a: seq<T>, b: seq<T>, i: nat, j: nat)
    requires 1 <= i <= |a| && 1 <= j <= |b|
    ensures Dist(a[..i], b[..j])
         == Min(Min(Dist(a[..i - 1], b[..j]) + 1, Dist(a[..i], b[..j - 1]) + 1),
                Dist(a[..i - 1], b[..j - 1]) + (if a[i - 1] == b[j - 1] then 0 else 1))
  {
    hide Dist;
    Unfold(a[..i], b[..j]);
    assert Init(a[..i]) == a[..i - 1] && Init(b[..j]) == b[..j - 1];
  }

  lemma {:induction false} PrefixBase<T>(a: seq<T>, b: seq<T>)
    ensures forall i :: 0 <= i <= |a| ==> Dist(a[..i], b[..0]) == i
    ensures forall j :: 0 <= j <= |b| ==> Dist(a[..0], b[..j]) == j
  {
    hide Dist;
    forall i | 0 <= i <= |a|
      ensures Dist(a[..i], b[..0]) == i
    {
      Unfold(a[..i], b[..0]);
    }
    forall j | 0 <= j <= |b|
      ensures Dist(a[..0], b[..j]) == j
    {
      Unfold(a[..0], b[..j]);
    }
  }

  /** `double` arithmetic is modelled by `real`. */
  method Similarity(s1: seq<byte>, s2: seq<byte>) returns (r: real)
    ensures 0.0 <= r <= 1.0
    ensures r == 1.0 <==> s1 == s2
    ensures r == 0.0 <==> Dist(s1, s2) == Max(|s1|, |s2|) > 0
    ensures Max(|s1|, |s2|) > 0 ==> (1.0 - r) * Max(|s1|, |s2|) as real == Dist(s1, s2) as real
  {
    hide Dist;
    var levDistance := LevenshteinDistance(s1, s2);
    var maxLen := Max(|s1|, |s2|);
    DistBounds(s1, s2);
    DistZero(s1, s2);
    if maxLen == 0 {
      return 1.0;
    }
    Ratio(levDistance, maxLen);
    r := 1.0 - levDistance as real / maxLen as real;
  }

  lemma {:induction false} Ratio(x: nat, y: nat)
    requires x <= y && y > 0
    ensures 0.0 <= x as real / y as real <= 1.0
    ensures (x as real / y as real == 0.0 <==> x == 0) && (x as real / y as real == 1.0 <==> x == y)
    ensures x as real / y as real * y as real == x as real
  {
  }

  // ---------------------------------------------------------------- a metric

  lemma {:induction false} DistBounds<T>(a: seq<T>, b: seq<T>)
    ensures Dist(a, b) <= Max(|a|, |b|)
    ensures Dist(a, b) >= |a| - |b| && Dist(a, b) >= |b| - |a|
    decreases |a| + |b|
  {
    if a != [] && b != [] {
      DistBounds(Init(a), b);
      DistBounds(a, Init(b));
      DistBounds(Init(a), Init(b));
    }
  }

  lemma {:induction false} DistSelf<T>(a: seq<T>)
    ensures Dist(a, a) == 0
  {
    if a != [] {
      DistSelf(Init(a));
    }
  }

  lemma {:induction false} DistZero<T>(a: seq<T>, b: seq<T>)
    ensures Dist(a, b) == 0 <==> a == b
    decreases |a| + |b|
  {
    if a == b {
      DistSelf(a);
    } else if a != [] && b != [] {
      DistZero(Init(a), Init(b));
      assert a == Init(a) + [Last(a)] && b == Init(b) + [Last(b)];
    }
  }

  lemma {:induction false} DistSymmetric<T>(a: seq<T>, b: seq<T>)
    ensures Dist(a, b) == Dist(b, a)
    decreases |a| + |b|
  {
    if a != [] && b != [] {
      DistSymmetric(Init(a), b);
      DistSymmetric(a, Init(b));
      DistSymmetric(Init(a), Init(b));
    }
  }

  /** Dropping the last element changes the distance by at most one. */
  lemma {:induction false} DistInit<T>(a: seq<T>, b: seq<T>)
    ensures a != [] ==> Dist(a, b) <= Dist(Init(a), b) + 1
    ensures b != [] ==> Dist(a, b) <= Dist(a, Init(b)) + 1
  {
    if a == [] || b == [] {
    }
  }

  lemma {:induction false} DistTriangle<T>(a: seq<T>, b: seq<T>, c: seq<T>)
    ensures Dist(a, c) <= Dist(a, b) + Dist(b, c)
    decreases |a| + |b| + |c|
  {
    if b == [] {
      DistBounds(a, c);
    } else if a == [] {
      DistBounds(b, c);
    } else if c == [] {
      DistBounds(a, b);
    } else {
      DistInit(a, c);
      if Dist(a, b) == Dist(Init(a), b) + 1 {
        DistTriangle(Init(a), b, c);
      } else if Dist(b, c) == Dist(b, Init(c)) + 1 {
        DistTriangle(a, b, Init(c));
      } else if Dist(a, b) == Dist(a, Init(b)) + 1 {
        if Dist(b, c) == Dist(Init(b), c) + 1 {
          DistTriangle(a, Init(b), c);
        } else {
          DistTriangle(a, Init(b), Init(c));
        }
      } else if Dist(b, c) == Dist(Init(b), c) + 1 {
        DistTriangle(Init(a), Init(b), c);
      } else {
        DistTriangle(Init(a), Init(b), Init(c));
      }
    }
  }

  // ---------------------------------------------------------------- edit scripts

  /** One edit at one position of the string. */
  datatype Edit<T> = Insert(pos: nat, x: T) | Delete(pos: nat) | Substitute(pos: nat, x: T)

  predicate Applies<T>(e: Edit<T>, s: seq<T>) {
    match e
    case Insert(pos, _) => pos <= |s|
    case Delete(pos) => pos < |s|
    case Substitute(pos, _) => pos < |s|
  }

  function ApplyEdit<T>(e: Edit<T>, s: seq<T>): seq<T>
    requires Applies(e, s)
  {
    match e
    case Insert(pos, x) => s[..pos] + [x] + s[pos..]
    case Delete(pos) => s[..pos] + s[pos + 1..]
    case Substitute(pos, x) => s[..pos] + [x] + s[pos + 1..]
  }

  /** The edits one after the other; `None` if one of them does not apply. */
  function Run<T>(script: seq<Edit<T>>, s: seq<T>): Option<seq<T>> {
    if script == [] then Some(s)
    else if !Applies(script[0], s) then None
    else Run(script[1..], ApplyEdit(script[0], s))
  }

  lemma {:induction false} DistCommonSuffix<T>(a: seq<T>, b: seq<T>, t: seq<T>)
    ensures Dist(a + t, b + t) <= Dist(a, b)
  {
    hide Dist;
    if t == [] {
      assert a + t == a && b + t == b;
    } else {
      DistCommonSuffix(a, b, Init(t));
      Unfold(a + t, b + t);
      assert Init(a + t) == a + Init(t) && Init(b + t) == b + Init(t);
    }
  }

  lemma {:induction false} DistOneMore<T>(p: seq<T>, x: T, y: T)
    ensures Dist(p, p + [x]) <= 1 && Dist(p + [x], p) <= 1 && Dist(p + [x], p + [y]) <= 1
  {
    hide Dist;
    DistSelf(p);
    assert Init(p + [x]) == p && Init(p + [y]) == p;
    DistInit(p, p + [x]);
    DistInit(p + [x], p);
    Unfold(p + [x], p + [y]);
  }

  lemma {:induction false} OneEdit<T>(e: Edit<T>, s: seq<T>)
    requires Applies(e, s)
    ensures Dist(s, ApplyEdit(e, s)) <= 1
  {
    hide Dist;
    var p := s[..e.pos];
    match e
    case Insert(pos, x) =>
      assert s == p + s[pos..];
      DistOneMore(p, x, x);
      DistCommonSuffix(p, p + [x], s[pos..]);
    case Delete(pos) =>
      assert s == p + [s[pos]] + s[pos + 1..];
      DistOneMore(p, s[pos], s[pos]);
      DistCommonSuffix(p + [s[pos]], p, s[pos + 1..]);
    case Substitute(pos, x) =>
      assert s == p + [s[pos]] + s[pos + 1..];
      DistOneMore(p, s[pos], x);
      DistCommonSuffix(p + [s[pos]], p + [x], s[pos + 1..]);
  }

  /** No script of edits is shorter than the distance. */
  lemma {:induction false} ScriptAtLeast<T>(script: seq<Edit<T>>, a: seq<T>, b: seq<T>)
    requires Run(script, a) == Some(b)
    ensures Dist(a, b) <= |script|
    decreases |script|
  {
    hide Dist, ApplyEdit;
    if script == [] {
      DistSelf(a);
    } else {
      var a' := ApplyEdit(script[0], a);
      ScriptAtLeast(script[1..], a', b);
      OneEdit(script[0], a);
      DistTriangle(a, a', b);
    }
  }

  lemma {:induction false} RunAppend<T>(s1: seq<Edit<T>>, s2: seq<Edit<T>>, a: seq<T>)
    requires Run(s1, a).Some?
    ensures Run(s1 + s2, a) == Run(s2, Run(s1, a).value)
    decreases |s1|
  {
    if s1 == [] {
      assert s1 + s2 == s2;
    } else {
      assert (s1 + s2)[1..] == s1[1..] + s2;
      RunAppend(s1[1..], s2, ApplyEdit(s1[0], a));
    }
  }

  lemma {:induction false} RunOne<T>(e: Edit<T>, s: seq<T>)
    requires Applies(e, s)
    ensures Run([e], s) == Some(ApplyEdit(e, s))
  {
    assert Run([], ApplyEdit(e, s)) == Some(ApplyEdit(e, s));
  }

  lemma {:induction false} RunFirst<T>(e: Edit<T>, rest: seq<Edit<T>>, s: seq<T>)
    requires Applies(e, s)
    ensures Run([e] + rest, s) == Run(rest, ApplyEdit(e, s))
  {
    assert ([e] + rest)[1..] == rest;
  }

  lemma {:induction false} EditWithSuffix<T>(e: Edit<T>, a: seq<T>, t: seq<T>)
    requires Applies(e, a)
    ensures Applies(e, a + t) && ApplyEdit(e, a + t) == ApplyEdit(e, a) + t
  {
    assert (a + t)[..e.pos] == a[..e.pos];
    match e
    case Insert(pos, x) => assert (a + t)[pos..] == a[pos..] + t;
    case Delete(pos) => assert (a + t)[pos + 1..] == a[pos + 1..] + t;
    case Substitute(pos, x) => assert (a + t)[pos + 1..] == a[pos + 1..] + t;
  }

  /** A script works the same in front of a suffix. */
  lemma {:induction false} RunWithSuffix<T>(script: seq<Edit<T>>, a: seq<T>, t: seq<T>)
    requires Run(script, a).Some?
    ensures Run(script, a + t) == Some(Run(script, a).value + t)
    decreases |script|
  {
    if script != [] {
      hide ApplyEdit;
      var e := script[0];
      EditWithSuffix(e, a, t);
      RunWithSuffix(script[1..], ApplyEdit(e, a), t);
    }
  }

  lemma {:induction false} InsertAll<T>(b: seq<T>) returns (script: seq<Edit<T>>)
    ensures Run(script, []) == Some(b) && |script| == |b|
  {
    if b == [] {
      script := [];
    } else {
      var rest := InsertAll(Init(b));
      var e := Insert(|b| - 1, Last(b));
      script := rest + [e];
      RunAppend(rest, [e], []);
      RunOne(e, Init(b));
      assert ApplyEdit(e, Init(b)) == b;
    }
  }

  /** Some script of edits is exactly as long as the distance. */
  lemma {:induction false} ShortestScript<T>(a: seq<T>, b: seq<T>) returns (script: seq<Edit<T>>)
    ensures Run(script, a) == Some(b) && |script| == Dist(a, b)
    decreases |a| + |b|
  {
    hide Dist, Run;
    Unfold(a, b);
    if a == [] {
      script := InsertAll(b);
    } else if b == [] || Dist(a, b) == Dist(Init(a), b) + 1 {
      Unfold(Init(a), b);
      var rest := ShortestScript(Init(a), b);
      script := [Delete(|a| - 1)] + rest;
      RunFirst(Delete(|a| - 1), rest, a);
      assert ApplyEdit(Delete(|a| - 1), a) == Init(a);
    } else if Dist(a, b) == Dist(a, Init(b)) + 1 {
      var rest := ShortestScript(a, Init(b));
      var e := Insert(|b| - 1, Last(b));
      script := rest + [e];
      RunAppend(rest, [e], a);
      RunOne(e, Init(b));
      assert ApplyEdit(e, Init(b)) == b;
    } else {
      var rest := ShortestScript(Init(a), Init(b));
      RunWithSuffix(rest, Init(a), [Last(b)]);
      assert Init(b) + [Last(b)] == b;
      if Last(a) == Last(b) {
        script := rest;
        assert Init(a) + [Last(b)] == a;
      } else {
        var e := Substitute(|a| - 1, Last(b));
        script := [e] + rest;
        RunFirst(e, rest, a);
        assert ApplyEdit(e, a) == Init(a) + [Last(b)];
      }
    }
  }

  ghost predicate HasScript<T(!new)>(a: seq<T>, b: seq<T>, n: nat) {
    exists script: seq<Edit<T>> :: |script| == n && Run(script, a) == Some(b)
  }

  /** The table value is the minimum number of insertions, deletions and substitutions that turn `a` into `b`. */
  lemma {:induction false} DistIsMinimum<T(!new)>(a: seq<T>, b: seq<T>)
    ensures HasScript(a, b, Dist(a, b))
    ensures forall n: nat :: HasScript(a, b, n) ==> Dist(a, b) <= n
  {
    var script := ShortestScript(a, b);
    forall n: nat | HasScript(a, b, n)
      ensures Dist(a, b) <= n
    {
      var other: seq<Edit<T>> :| |other| == n && Run(other, a) == Some(b);
      ScriptAtLeast(other, a, b);
    }
  }
}
