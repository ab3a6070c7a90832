/** Percent-encoding in FileServer/httplib.h: `encode_query_param`, `decode_url`, `from_hex_to_i`, `to_utf8`. */
module PercentCoding {
  import opened Bytes

  predicate IsAlnum(c: byte) {
    48 <= c <= 57 || 65 <= c <= 90 || 97 <= c <= 122
  }

  /** Written as is: letters, digits and - _ . ! ~ * ' ( ) */
  predicate IsPlain(c: byte) {
    IsAlnum(c) || c in {45, 95, 46, 33, 126, 42, 39, 40, 41}
  }

  function HexDigit(d: nat): byte
    requires d < 16
  {
    if d < 10 then 48 + d else 55 + d
  }

  function EncodeByte(c: byte): seq<byte> {
    if IsPlain(c) then [c] else [37, HexDigit(c / 16), HexDigit(c % 16)]
  }

  function Encode(s: seq<byte>): seq<byte> {
    if s == [] then [] else EncodeByte(s[0]) + Encode(s[1..])
  }

  /** `is_hex`. */
  function HexValue(c: byte): Option<nat> {
    if 48 <= c <= 57 then Some(c - 48)
    else if 65 <= c <= 70 then Some(c - 55)
    else if 97 <= c <= 102 then Some(c - 87)
    else None
  }

  /** `from_hex_to_i` with `cnt` digits to go; reading past the end meets the terminating NUL and fails. */
  function FromHex(s: seq<byte>, i: nat, cnt: nat, val: nat): (r: Option<nat>)
    ensures r.Some? ==> i + cnt <= |s| || cnt == 0
    decreases cnt
  {
    if cnt == 0 then Some(val)
    else if i >= |s| || HexValue(s[i]).None? then None
    else FromHex(s, i + 1, cnt - 1, val * 16 + HexValue(s[i]).value)
  }

  /** `to_utf8`; surrogates give nothing. */
  function Utf8(code: nat): seq<byte> {
    if code < 0x80 then [code]
    else if code < 0x800 then [0xC0 + code / 0x40, 0x80 + code % 0x40]
    else if 0xD800 <= code < 0xE000 then []
    else if code < 0x10000 then [0xE0 + code / 0x1000, 0x80 + code / 0x40 % 0x40, 0x80 + code % 0x40]
    else if code < 0x110000 then
      [0xF0 + code / 0x40000, 0x80 + code / 0x1000 % 0x40, 0x80 + code / 0x40 % 0x40, 0x80 + code % 0x40]
    else []
  }

  /** What position `i` of the input contributes, and how many bytes it consumes. */
  function DecodeAt(s: seq<byte>, plus: bool, i: nat): (r: (seq<byte>, nat))
    requires i < |s|
    ensures 1 <= r.1 && i + r.1 <= |s|
  {
    if s[i] == 37 && i + 1 < |s| then
      if s[i + 1] == 117 then
        var v := if i + 2 >= |s| then None else FromHex(s, i + 2, 4, 0);
        if v.Some? then (Utf8(v.value), 6) else ([s[i]], 1)
      else
        var v := FromHex(s, i + 1, 2, 0);
        if v.Some? then ([v.value % 256], 3) else ([s[i]], 1)
    else if plus && s[i] == 43 then ([32], 1)
    else ([s[i]], 1)
  }

  function Decode(s: seq<byte>, plus: bool, i: nat): seq<byte>
    requires i <= |s|
    decreases |s| - i
  {
    if i == |s| then []
    else
      var r := DecodeAt(s, plus, i);
      r.0 + Decode(s, plus, i + r.1)
  }

  // ---------------------------------------------------------------- the loops

  method EncodeQueryParam(value: seq<byte>) returns (escaped: seq<byte>)
    ensures escaped == Encode(value)
  {
    hide Encode, IsPlain, HexDigit;
    escaped := [];
    assert value[0..] == value;
    for i := 0 to |value|
      invariant escaped + Encode(value[i..]) == Encode(value)
    {
      var c := value[i];
      EncodeStep(escaped, value, i);
      if IsPlain(c) {
        escaped := escaped + [c];
      } else {
        escaped := escaped + [37, HexDigit(c / 16), HexDigit(c % 16)];
      }
    }
    assert value[|value|..] == [];
    EncodeParts([]);
  }

  lemma {:induction false} EncodeStep(escaped: seq<byte>, value: seq<byte>, i: nat)
    requires i < |value|
    ensures escaped + Encode(value[i..]) == escaped + EncodeByte(value[i]) + Encode(value[i + 1..])
  {
    hide EncodeByte;
    assert value[i..][1..] == value[i + 1..];
    assert escaped + (EncodeByte(value[i]) + Encode(value[i + 1..])) == escaped + EncodeByte(value[i]) + Encode(value[i + 1..]);
  }

  method FromHexToI(s: seq<byte>, start: nat, count: nat) returns (r: Option<nat>)
    ensures r == if start >= |s| then None else FromHex(s, start, count, 0)
  {
    if start >= |s| {
      return None;
    }
    var i: nat, cnt: nat, val: nat := start, count, 0;
    while cnt > 0
      invariant FromHex(s, start, count, 0) == FromHex(s, i, cnt, val)
    {
      if i >= |s| {
        return None;
      }
      var v := HexValue(s[i]);
      if v.None? {
        return None;
      }
      val := val * 16 + v.value;
      i, cnt := i + 1, cnt - 1;
    }
    return Some(val);
  }

  lemma {:induction false} DecodeStep(result: seq<byte>, s: seq<byte>, plus: bool, i: nat)
    requires i < |s|
    ensures var r := DecodeAt(s, plus, i);
            result + Decode(s, plus, i) == (result + r.0) + Decode(s, plus, i + r.1)
  {
    hide DecodeAt;
    var r := DecodeAt(s, plus, i);
    assert result + (r.0 + Decode(s, plus, i + r.1)) == (result + r.0) + Decode(s, plus, i + r.1);
  }

  method DecodeUrl(s: seq<byte>, convertPlusToSpace: bool) returns (result: seq<byte>)
    ensures result == Decode(s, convertPlusToSpace, 0)
  {
    hide Decode, FromHex, Utf8;
    result := [];
    var i := 0;
    assert [] + Decode(s, convertPlusToSpace, 0) == Decode(s, convertPlusToSpace, 0);
    while i < |s|
      invariant 0 <= i <= |s|
      invariant result + Decode(s, convertPlusToSpace, i) == Decode(s, convertPlusToSpace, 0)
    {
      DecodeStep(result, s, convertPlusToSpace, i);
      if s[i] == 37 && i + 1 < |s| {
        if s[i + 1] == 117 {
          var val := FromHexToI(s, i + 2, 4);
          if val.Some? {
            result := result + Utf8(val.value);
            i := i + 5;
          } else {
            result := result + [s[i]];
          }
        } else {
          var val := FromHexToI(s, i + 1, 2);
          if val.Some? {
            result := result + [val.value % 256];
            i := i + 2;
          } else {
            result := result + [s[i]];
          }
        }
      } else if convertPlusToSpace && s[i] == 43 {
        result := result + [32];
      } else {
        result := result + [s[i]];
      }
      i := i + 1;
    }
    DecodeEnd(s, convertPlusToSpace);
    assert result + [] == result;
  }

  lemma {:induction false} DecodeEnd(s: seq<byte>, plus: bool)
    ensures Decode(s, plus, |s|) == []
  {
  }

  // ---------------------------------------------------------------- the round trip

  lemma {:induction false} DigitsRead(s: seq<byte>, i: nat, c: byte)
    requires i + 2 <= |s| && s[i] == HexDigit(c / 16) && s[i + 1] == HexDigit(c % 16)
    ensures FromHex(s, i, 2, 0) == Some(c)
  {
    assert HexValue(s[i]) == Some(c / 16) && HexValue(s[i + 1]) == Some(c % 16);
    assert FromHex(s, i + 2, 0, c / 16 * 16 + c % 16) == Some(c);
  }

  lemma {:induction false} DecodeByte(before: seq<byte>, c: byte, after: seq<byte>, plus: bool)
    ensures var s := before + EncodeByte(c) + after;
            DecodeAt(s, plus, |before|) == ([c], |EncodeByte(c)|)
  {
    var s := before + EncodeByte(c) + after;
    assert forall k :: 0 <= k < |EncodeByte(c)| ==> s[|before| + k] == EncodeByte(c)[k];
    if !IsPlain(c) {
      DigitsRead(s, |before| + 1, c);
    }
  }

  lemma {:induction false} DecodeOne(before: seq<byte>, c: byte, after: seq<byte>, plus: bool)
    ensures var s := before + EncodeByte(c) + after;
            Decode(s, plus, |before|) == [c] + Decode(s, plus, |before + EncodeByte(c)|)
  {
    hide DecodeAt;
    DecodeByte(before, c, after, plus);
  }

  lemma {:induction false} EncodeParts(value: seq<byte>)
    ensures value == [] ==> Encode(value) == []
    ensures value != [] ==> Encode(value) == EncodeByte(value[0]) + Encode(value[1..])
  {
  }

  lemma {:induction false} DecodeBehind(before: seq<byte>, value: seq<byte>, plus: bool)
    ensures Decode(before + Encode(value), plus, |before|) == value
    decreases |value|
  {
    hide *;
    EncodeParts(value);
    if value == [] {
      assert before + [] == before;
      DecodeEnd(before, plus);
    } else {
      var c, rest := value[0], value[1..];
      DecodeOne(before, c, Encode(rest), plus);
      DecodeBehind(before + EncodeByte(c), rest, plus);
      assert before + (EncodeByte(c) + Encode(rest)) == before + EncodeByte(c) + Encode(rest);
      assert [c] + rest == value;
    }
  }

  /** Decoding undoes encoding for every byte string, whether or not `+` stands for a space. */
  lemma {:induction false} EncodeRoundTrip(value: seq<byte>, plus: bool)
    ensures Decode(Encode(value), plus, 0) == value
  {
    DecodeBehind([], value, plus);
    assert [] + Encode(value) == Encode(value);
  }

  /** Text without percent or plus signs is its own decoding. */
  lemma {:induction false} DecodePlainText(s: seq<byte>, plus: bool, i: nat)
    requires i <= |s| && 37 !in s && 43 !in s
    ensures Decode(s, plus, i) == s[i..]
    decreases |s| - i
  {
    if i < |s| {
      assert s[i] in s;
      DecodePlainText(s, plus, i + 1);
      assert [s[i]] + s[i + 1..] == s[i..];
    }
  }

  /** The encoding uses only plain characters, percent signs and hexadecimal digits. */
  lemma {:induction false} EncodeAlphabet(s: seq<byte>, c: byte)
    requires c in Encode(s)
    ensures IsPlain(c) || c == 37
  {
    if s != [] && c !in EncodeByte(s[0]) {
      EncodeAlphabet(s[1..], c);
    }
  }
}

/** What the tables and branches of percent-encoding in FileServer/httplib.h stand for: the characters written as they
    are, the hexadecimal digits, the plus sign and UTF-8. */
module PercentReference {
  import opened Bytes
  import opened PercentCoding

  // ---------------------------------------------------------------- encoding

  const UPPER := "0123456789ABCDEF"
  const LOWER := "0123456789abcdef"

  /** Letters, digits and nine marks. */
  predicate IsUnescaped(c: char) {
    'A' <= c <= 'Z' || 'a' <= c <= 'z' || '0' <= c <= '9' || c in "-_.!~*'()"
  }

  /** The characters that are not encoded; every other byte becomes a percent sign and its two digits in upper case. */
  lemma {:induction false} EscapeIs(c: byte)
    ensures EncodeByte(c) ==
      if IsUnescaped(c as char) then [c] else ['%' as int, UPPER[c / 16] as int, UPPER[c % 16] as int]
  {
    assert IsPlain(c) <==> IsUnescaped(c as char);
  }

  // ---------------------------------------------------------------- decoding

  lemma {:induction false} HexValueIs(c: byte, v: nat)
    requires v < 16
    ensures HexValue(c) == Some(v) <==> c == UPPER[v] as int || c == LOWER[v] as int
  {
  }

  /** A text without percent signs is decoded byte by byte; in plus mode a plus sign stands for a blank. */
  lemma {:induction false} PlusIsBlank(s: seq<byte>, plus: bool, i: nat)
    requires i <= |s| && 37 !in s
    ensures |Decode(s, plus, i)| == |s| - i
    ensures forall k :: i <= k < |s| ==> Decode(s, plus, i)[k - i] == if plus && s[k] == 43 then 32 else s[k]
    decreases |s| - i
  {
    if i < |s| {
      PlainStep(s, plus, i);
      hide DecodeAt;
      PlusIsBlank(s, plus, i + 1);
    }
  }

  lemma {:induction false} PlainStep(s: seq<byte>, plus: bool, i: nat)
    requires i < |s| && 37 !in s
    ensures DecodeAt(s, plus, i) == ([if plus && s[i] == 43 then 32 else s[i]], 1)
  {
    assert s[i] in s;
  }

  /** Two digits of either case are one byte. */
  lemma {:induction false} EscapeDecodes(s: seq<byte>, plus: bool, i: nat, v: nat, w: nat)
    requires i + 2 < |s| && s[i] == 37 && v < 16 && w < 16
    requires HexValue(s[i + 1]) == Some(v) && HexValue(s[i + 2]) == Some(w)
    ensures DecodeAt(s, plus, i) == ([16 * v + w], 3)
  {
    assert FromHex(s, i + 3, 0, v * 16 + w) == Some(v * 16 + w);
    assert FromHex(s, i + 2, 1, v) == Some(v * 16 + w);
    assert FromHex(s, i + 1, 2, 0) == Some(v * 16 + w);
  }

  /** The letter u and four digits are one character in UTF-8. */
  lemma {:induction false} CharacterDecodes(s: seq<byte>, plus: bool, i: nat, v: seq<nat>)
    requires i + 5 < |s| && s[i] == 37 && s[i + 1] == 117 && |v| == 4
    requires forall k :: 0 <= k < 4 ==> HexValue(s[i + 2 + k]) == Some(v[k])
    ensures DecodeAt(s, plus, i) == (Utf8(4096 * v[0] + 256 * v[1] + 16 * v[2] + v[3]), 6)
  {
    hide Utf8;
    var a, b, c := v[0], v[0] * 16 + v[1], (v[0] * 16 + v[1]) * 16 + v[2];
    var d := c * 16 + v[3];
    assert HexValue(s[i + 2]) == Some(v[0]) && HexValue(s[i + 3]) == Some(v[1]);
    assert HexValue(s[i + 4]) == Some(v[2]) && HexValue(s[i + 5]) == Some(v[3]);
    assert FromHex(s, i + 6, 0, d) == Some(d);
    assert FromHex(s, i + 5, 1, c) == Some(d);
    assert FromHex(s, i + 4, 2, b) == Some(d);
    assert FromHex(s, i + 3, 3, a) == Some(d);
    assert FromHex(s, i + 2, 4, 0) == Some(d);
  }

  /** A percent sign without its digits stays what it is. */
  lemma {:induction false} LonePercentStays(s: seq<byte>, plus: bool, i: nat)
    requires i < |s| && s[i] == 37
    requires i + 2 < |s| && s[i + 1] != 117 ==> HexValue(s[i + 1]).None? || HexValue(s[i + 2]).None?
    requires i + 5 < |s| && s[i + 1] == 117 ==> exists k :: i + 2 <= k < i + 6 && HexValue(s[k]).None?
    ensures DecodeAt(s, plus, i) == ([37], 1)
  {
    if i + 1 < |s| && s[i + 1] == 117 {
      if i + 5 < |s| {
        var k :| i + 2 <= k < i + 6 && HexValue(s[k]).None?;
        NotFour(s, i + 2, 0, k - i - 2);
      } else {
        TooFew(s, i + 2, 4, 0);
      }
    } else if i + 1 < |s| {
      assert FromHex(s, i + 1, 2, 0).None?;
    }
  }

  lemma {:induction false} NotFour(s: seq<byte>, i: nat, val: nat, k: nat)
    requires k < 4 && i + k < |s| && HexValue(s[i + k]).None?
    ensures FromHex(s, i, 4, val).None?
  {
  }

  lemma {:induction false} TooFew(s: seq<byte>, i: nat, cnt: nat, val: nat)
    requires i + cnt > |s| && cnt > 0
    ensures FromHex(s, i, cnt, val).None?
    decreases cnt
  {
    if i < |s| && HexValue(s[i]).Some? {
      if cnt > 1 {
        TooFew(s, i + 1, cnt - 1, val * 16 + HexValue(s[i]).value);
      }
    }
  }

  // ---------------------------------------------------------------- UTF-8

  predicate IsContinuation(b: byte) {
    0x80 <= b < 0xC0
  }

  /** Reading UTF-8 as RFC 3629 has it: the shape of each length, shortest forms only, no surrogates. */
  function FromUtf8(u: seq<byte>): Option<nat> {
    if |u| == 1 && u[0] < 0x80 then Some(u[0])
    else if |u| == 2 && 0xC0 <= u[0] < 0xE0 && IsContinuation(u[1]) then
      var v := (u[0] as int - 0xC0) * 64 + (u[1] as int - 0x80);
      if v >= 0x80 then Some(v) else None
    else if |u| == 3 && 0xE0 <= u[0] < 0xF0 && IsContinuation(u[1]) && IsContinuation(u[2]) then
      var v := (u[0] as int - 0xE0) * 4096 + (u[1] as int - 0x80) * 64 + (u[2] as int - 0x80);
      if v >= 0x800 && !(0xD800 <= v < 0xE000) then Some(v) else None
    else if |u| == 4 && 0xF0 <= u[0] < 0xF8 && IsContinuation(u[1]) && IsContinuation(u[2]) && IsContinuation(u[3]) then
      var v := (u[0] as int - 0xF0) * 262144 + (u[1] as int - 0x80) * 4096 + (u[2] as int - 0x80) * 64 + (u[3] as int - 0x80);
      if 0x10000 <= v < 0x110000 then Some(v) else None
    else None
  }

  lemma {:induction false} Digits64(v: nat)
    ensures v == v / 0x40 * 0x40 + v % 0x40 && v / 0x1000 == v / 0x40 / 0x40 && v / 0x40000 == v / 0x1000 / 0x40
  {
  }

  lemma {:induction false} ThreeBytes(code: nat)
    requires 0x800 <= code < 0x10000 && !(0xD800 <= code < 0xE000)
    ensures FromUtf8(Utf8(code)) == Some(code)
  {
    Digits64(code);
    var a, b, c := code / 0x1000, code / 0x40 % 0x40, code % 0x40;
    assert a < 16 && code == a * 4096 + b * 64 + c;
    assert Utf8(code) == [0xE0 + a, 0x80 + b, 0x80 + c];
  }

  lemma {:induction false} FourBytes(code: nat)
    requires 0x10000 <= code < 0x110000
    ensures FromUtf8(Utf8(code)) == Some(code)
  {
    Digits64(code);
    var a, b, c, d := code / 0x40000, code / 0x1000 % 0x40, code / 0x40 % 0x40, code % 0x40;
    assert a < 8 && code == a * 262144 + b * 4096 + c * 64 + d;
    assert Utf8(code) == [0xF0 + a, 0x80 + b, 0x80 + c, 0x80 + d];
  }

  /** The encoding of every code point is its well-formed UTF-8; surrogates and numbers beyond Unicode have none. */
  lemma {:induction false} Utf8RoundTrip(code: nat)
    ensures code < 0xD800 || 0xE000 <= code < 0x110000 ==> FromUtf8(Utf8(code)) == Some(code)
    ensures 0xD800 <= code < 0xE000 || code >= 0x110000 ==> Utf8(code) == []
  {
    if 0x800 <= code < 0x10000 && !(0xD800 <= code < 0xE000) {
      ThreeBytes(code);
    } else if 0x10000 <= code < 0x110000 {
      FourBytes(code);
    }
  }
}
