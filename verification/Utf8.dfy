/** UTF-8 (RFC 3629) as the native helper emits it and as the clipboard
    companion checks it.  `EncodeScalar` is the encoder's output, `DecodeOne` is
    the grammar of section 4 of the RFC, written independently of both programs. */
module Utf8 {

  import opened Basics

  /** The code points the helper may emit: Unicode scalar values other than NUL. */
  predicate IsScalar(cp: int) {
    0 < cp <= 0x10FFFF && !(0xD800 <= cp <= 0xDFFF)
  }

  predicate AllScalar(cps: seq<int>) {
    forall i :: 0 <= i < |cps| ==> IsScalar(cps[i])
  }

  // Section 3 of RFC 3629, six bits at a time.
  function EncodeScalar(cp: int): (bytes: seq<Byte>)
    requires IsScalar(cp)
    ensures 1 <= |bytes| <= 4
  {
    var q := cp / 64;
    var r := q / 64;
    if cp < 0x80 then [cp]
    else if cp < 0x800 then [0xC0 + q, 0x80 + cp % 64]
    else if cp < 0x10000 then [0xE0 + r, 0x80 + q % 64, 0x80 + cp % 64]
    else [0xF0 + r / 64, 0x80 + r % 64, 0x80 + q % 64, 0x80 + cp % 64]
  }

  function Encode(cps: seq<int>): (bytes: seq<Byte>)
    requires AllScalar(cps)
  {
    if cps == [] then [] else EncodeScalar(cps[0]) + Encode(cps[1..])
  }

  lemma {:induction false} EncodeAppend(a: seq<int>, b: seq<int>)
    requires AllScalar(a) && AllScalar(b)
    ensures Encode(a + b) == Encode(a) + Encode(b)
  {
    if a == [] {
      assert a + b == b;
    } else {
      assert (a + b)[1..] == a[1..] + b;
      EncodeAppend(a[1..], b);
    }
  }

  lemma EncodeSnoc(a: seq<int>, cp: int)
    requires AllScalar(a) && IsScalar(cp)
    ensures Encode(a + [cp]) == Encode(a) + EncodeScalar(cp)
  {
    EncodeAppend(a, [cp]);
    assert [cp][1..] == [];
  }

  datatype Unit = Unit(codePoint: int, width: nat)

  predicate Tail(b: int) { 0x80 <= b <= 0xBF }

  // The second byte is where section 4 rules out overlong forms, surrogates
  // and values past 0x10FFFF.
  predicate ThreeByteHead(a: int, b: int) {
    (a == 0xE0 && 0xA0 <= b <= 0xBF) || ((0xE1 <= a <= 0xEC || 0xEE <= a <= 0xEF) && Tail(b))
    || (a == 0xED && 0x80 <= b <= 0x9F)
  }

  predicate FourByteHead(a: int, b: int) {
    (a == 0xF0 && 0x90 <= b <= 0xBF) || (0xF1 <= a <= 0xF3 && Tail(b)) || (a == 0xF4 && 0x80 <= b <= 0x8F)
  }

  function Join(high: int, tail: int): int { high * 64 + (tail - 0x80) }

  /** The first character of a byte string, by the ABNF of section 4 of RFC 3629. */
  function DecodeOne(s: seq<Byte>): (unit: Option<Unit>)
    ensures unit.Some? ==> 1 <= unit.value.width <= |s|
  {
    if s == [] then None
    else
      var a: int := s[0];
      if 0x01 <= a <= 0x7F then Some(Unit(a, 1))
      else if |s| >= 2 && 0xC2 <= a <= 0xDF && Tail(s[1]) then
        Some(Unit(Join(a - 0xC0, s[1]), 2))
      else if |s| >= 3 && ThreeByteHead(a, s[1]) && Tail(s[2]) then
        Some(Unit(Join(Join(a - 0xE0, s[1]), s[2]), 3))
      else if |s| >= 4 && FourByteHead(a, s[1]) && Tail(s[2]) && Tail(s[3]) then
        Some(Unit(Join(Join(Join(a - 0xF0, s[1]), s[2]), s[3]), 4))
      else None
  }

  /** The whole byte string as characters, or None when it does not follow the grammar. */
  function Decode(s: seq<Byte>): (cps: Option<seq<int>>)
    decreases |s|
  {
    if s == [] then Some([])
    else match DecodeOne(s)
      case None => None
      case Some(u) =>
        match Decode(s[u.width..])
        case None => None
        case Some(rest) => Some([u.codePoint] + rest)
  }

  // Encoder and grammar agree on one character, in both directions.
  lemma DecodeOneOfEncode(cp: int, rest: seq<Byte>)
    requires IsScalar(cp)
    ensures DecodeOne(EncodeScalar(cp) + rest) == Some(Unit(cp, |EncodeScalar(cp)|))
  {
    var e := EncodeScalar(cp);
    var s := e + rest;
    assert |s| >= |e| && forall i :: 0 <= i < |e| ==> s[i] == e[i];
    var q := cp / 64;
    var r := q / 64;
    assert Join(q, 0x80 + cp % 64) == cp && Join(r, 0x80 + q % 64) == q && Join(r / 64, 0x80 + r % 64) == r;
  }

  lemma EncodeJoinedTwo(a: int, b: int)
    requires 0xC2 <= a <= 0xDF && Tail(b)
    ensures var cp := Join(a - 0xC0, b); IsScalar(cp) && EncodeScalar(cp) == [a, b]
  {}

  lemma EncodeJoinedThree(a: int, b: int, c: int)
    requires ThreeByteHead(a, b) && Tail(c)
    ensures var cp := Join(Join(a - 0xE0, b), c); IsScalar(cp) && EncodeScalar(cp) == [a, b, c]
  {
    var q := Join(a - 0xE0, b);
    assert Join(q, c) / 64 == q && q / 64 == a - 0xE0;
  }

  lemma {:induction false} EncodeJoinedFour(a: int, b: int, c: int, d: int)
    requires FourByteHead(a, b) && Tail(c) && Tail(d)
    ensures var cp := Join(Join(Join(a - 0xF0, b), c), d); IsScalar(cp) && EncodeScalar(cp) == [a, b, c, d]
  {
    var r := Join(a - 0xF0, b);
    var q := Join(r, c);
    assert Join(q, d) / 64 == q && q / 64 == r && r / 64 == a - 0xF0;
  }

  lemma {:induction false} EncodeOfDecodeOne(s: seq<Byte>)
    requires DecodeOne(s).Some?
    ensures IsScalar(DecodeOne(s).value.codePoint)
    ensures EncodeScalar(DecodeOne(s).value.codePoint) == s[..DecodeOne(s).value.width]
  {
    var width := DecodeOne(s).value.width;
    if width == 2 {
      EncodeJoinedTwo(s[0], s[1]);
    } else if width == 3 {
      EncodeJoinedThree(s[0], s[1], s[2]);
    } else if width == 4 {
      EncodeJoinedFour(s[0], s[1], s[2], s[3]);
    }
  }

  /** Decoding undoes encoding, so no byte string encodes two different texts. */
  lemma {:induction false} DecodeEncode(cps: seq<int>)
    requires AllScalar(cps)
    ensures Decode(Encode(cps)) == Some(cps)
  {
    if cps != [] {
      var head, rest := EncodeScalar(cps[0]), Encode(cps[1..]);
      DecodeOneOfEncode(cps[0], rest);
      assert Encode(cps) == head + rest;
      assert (head + rest)[|head|..] == rest;
      DecodeEncode(cps[1..]);
      assert [cps[0]] + cps[1..] == cps;
    }
  }

  lemma EncodeCons(s: seq<Byte>, u: Unit, rest: seq<int>)
    requires u.width <= |s| && IsScalar(u.codePoint) && EncodeScalar(u.codePoint) == s[..u.width]
    requires AllScalar(rest) && Encode(rest) == s[u.width..]
    ensures AllScalar([u.codePoint] + rest) && Encode([u.codePoint] + rest) == s
  {
    assert ([u.codePoint] + rest)[1..] == rest;
    assert s == s[..u.width] + s[u.width..];
  }

  lemma {:induction false} EncodeDecode(s: seq<Byte>)
    requires Decode(s).Some?
    ensures AllScalar(Decode(s).value) && Encode(Decode(s).value) == s
    decreases |s|
  {
    if s != [] {
      var u := DecodeOne(s).value;
      EncodeOfDecodeOne(s);
      EncodeDecode(s[u.width..]);
      EncodeCons(s, u, Decode(s[u.width..]).value);
    }
  }

  /** A byte string is text exactly when it is the encoding of nonzero scalar values. */
  ghost predicate IsText(s: seq<Byte>) {
    exists cps: seq<int> :: AllScalar(cps) && Encode(cps) == s
  }

  lemma TextIffDecodable(s: seq<Byte>)
    ensures IsText(s) <==> Decode(s).Some?
  {
    if Decode(s).Some? {
      EncodeDecode(s);
    }
    if IsText(s) {
      var cps: seq<int> :| AllScalar(cps) && Encode(cps) == s;
      DecodeEncode(cps);
    }
  }

  lemma EncodingIsUnique(a: seq<int>, b: seq<int>)
    requires AllScalar(a) && AllScalar(b) && Encode(a) == Encode(b)
    ensures a == b
  {
    DecodeEncode(a);
    DecodeEncode(b);
  }

  lemma ShiftSteps(cp: nat)
    ensures cp / 4096 == cp / 64 / 64 && cp / 262144 == cp / 64 / 64 / 64
  {
  }

  /** append_utf8: writes one character behind `length`, refusing anything that
      is not a nonzero scalar value or that would not leave room for the NUL. */
  method AppendUtf8(output: array<Byte>, length: nat, codePoint: int) returns (ok: bool, newLength: nat)
    requires length <= output.Length
    modifies output
    ensures ok <==> IsScalar(codePoint) && length + |EncodeScalar(codePoint)| < output.Length
    ensures output[..length] == old(output[..length])
    ensures ok ==> newLength == length + |EncodeScalar(codePoint)|
                   && output[..newLength] == old(output[..length]) + EncodeScalar(codePoint)
    ensures !ok ==> newLength == length && output[..] == old(output[..])
  {
    newLength := length;
    if codePoint <= 0 || codePoint > 0x10FFFF || 0xD800 <= codePoint <= 0xDFFF {
      return false, length;
    }
    ShiftSteps(codePoint);
    var bytes :=
      if codePoint <= 0x7F then 1 else if codePoint <= 0x7FF then 2 else if codePoint <= 0xFFFF then 3 else 4;
    if length + bytes >= output.Length {
      return false, length;
    }
    if bytes == 1 {
      output[newLength] := codePoint;
    } else if bytes == 2 {
      output[newLength], output[newLength + 1] := 0xC0 + codePoint / 64, 0x80 + codePoint % 64;
    } else if bytes == 3 {
      output[newLength], output[newLength + 1], output[newLength + 2] :=
        0xE0 + codePoint / 4096, 0x80 + codePoint / 64 % 64, 0x80 + codePoint % 64;
    } else {
      output[newLength], output[newLength + 1], output[newLength + 2], output[newLength + 3] :=
        0xF0 + codePoint / 262144, 0x80 + codePoint / 4096 % 64, 0x80 + codePoint / 64 % 64, 0x80 + codePoint % 64;
    }
    ok, newLength := true, length + bytes;
    assert forall i :: 0 <= i < bytes ==> output[length + i] == EncodeScalar(codePoint)[i];
    assert output[..newLength] == output[..length] + EncodeScalar(codePoint);
  }

  // What the code-point range test of valid_utf8_text leaves over, for one
  // character whose continuation bytes have been folded into `cp`.
  predicate AcceptedRange(first: Byte, cp: int) {
    !(cp < 0x80 || (cp < 0x800 && first >= 0xE0) || (cp < 0x10000 && first >= 0xF0)
      || 0xD800 <= cp <= 0xDFFF || cp > 0x10FFFF)
  }

  function LeadBits(first: Byte): int {
    if first <= 0xDF then first % 32 else if first <= 0xEF then first % 16 else first % 8
  }

  function LeadWidth(first: Byte): nat {
    if first <= 0xDF then 1 else if first <= 0xEF then 2 else 3
  }

  // The low six bits of the continuation bytes s[1..1+k], folded behind the lead bits.
  function Folded(s: seq<Byte>, k: nat): int
    requires k < |s|
  {
    if k == 0 then LeadBits(s[0]) else Folded(s, k - 1) * 64 + s[k] % 64
  }

  lemma ThreeByteRange(a: Byte, b: Byte, c: Byte)
    requires 0xE0 <= a <= 0xEF
    ensures (ThreeByteHead(a, b) && Tail(c)) <==>
            (Tail(b) && Tail(c) && AcceptedRange(a, (a % 16 * 64 + b % 64) * 64 + c % 64))
  {}

  lemma FourByteRange(a: Byte, b: Byte, c: Byte, d: Byte)
    requires 0xF0 <= a <= 0xF4
    ensures (FourByteHead(a, b) && Tail(c) && Tail(d)) <==>
            (Tail(b) && Tail(c) && Tail(d) && AcceptedRange(a, ((a % 8 * 64 + b % 64) * 64 + c % 64) * 64 + d % 64))
  {}

  lemma RangeTestIsTheGrammar(s: seq<Byte>)
    requires s != [] && 0xC2 <= s[0] <= 0xF4
    ensures DecodeOne(s).Some? <==>
              |s| > LeadWidth(s[0])
              && (forall i :: 1 <= i <= LeadWidth(s[0]) ==> Tail(s[i]))
              && AcceptedRange(s[0], Folded(s, LeadWidth(s[0])))
    ensures DecodeOne(s).Some? ==> DecodeOne(s).value.width == LeadWidth(s[0]) + 1
  {
    var w := LeadWidth(s[0]);
    if |s| > w {
      assert Folded(s, 1) == LeadBits(s[0]) * 64 + s[1] % 64;
      if w == 2 {
        assert Folded(s, 2) == Folded(s, 1) * 64 + s[2] % 64;
        ThreeByteRange(s[0], s[1], s[2]);
      } else if w == 3 {
        assert Folded(s, 2) == Folded(s, 1) * 64 + s[2] % 64;
        assert Folded(s, 3) == Folded(s, 2) * 64 + s[3] % 64;
        FourByteRange(s[0], s[1], s[2], s[3]);
      }
    }
  }

  /** The inner loop of valid_utf8_text: folds the continuation bytes, or stops at
      one that is none. */
  method FoldContinuation(text: seq<Byte>, start: nat, width: nat) returns (ok: bool, codePoint: int)
    requires start + width < |text|
    ensures ok <==> forall i :: 1 <= i <= width ==> Tail(text[start..][i])
    ensures ok ==> codePoint == Folded(text[start..], width)
  {
    ghost var rest := text[start..];
    var index, remaining := start + 1, width;
    codePoint := LeadBits(text[start]);
    while remaining > 0
      invariant 0 <= remaining <= width
      invariant index == start + 1 + (width - remaining)
      invariant codePoint == Folded(rest, width - remaining)
      invariant forall i :: 1 <= i <= width - remaining ==> Tail(rest[i])
    {
      remaining := remaining - 1;
      var next := text[index];
      assert next == rest[width - remaining];
      index := index + 1;
      if !(0x80 <= next < 0xC0) {
        return false, codePoint;
      }
      codePoint := codePoint * 64 + next % 64;
    }
    return true, codePoint;
  }

  /** One round of the outer loop of valid_utf8_text: it reads one character, or
      finds that none starts here. */
  method ReadCharacter(text: seq<Byte>, index: nat) returns (ok: bool, next: nat)
    requires index < |text|
    ensures ok <==> DecodeOne(text[index..]).Some?
    ensures ok ==> next == index + DecodeOne(text[index..]).value.width <= |text|
  {
    ghost var rest := text[index..];
    var first := text[index];
    assert first == rest[0];
    if first == 0 {
      return false, index;
    }
    if first < 0x80 {
      return true, index + 1;
    }
    if !(0xC2 <= first <= 0xF4) {
      return false, index;
    }
    var continuation := LeadWidth(first);
    RangeTestIsTheGrammar(rest);
    if index + 1 + continuation > |text| {
      return false, index;
    }
    var wellFormed, codePoint := FoldContinuation(text, index, continuation);
    if !wellFormed || !AcceptedRange(first, codePoint) {
      return false, index;
    }
    return true, index + 1 + continuation;
  }

  /** valid_utf8_text accepts exactly the encodings of nonzero scalar values. */
  method ValidUtf8Text(text: seq<Byte>) returns (ok: bool)
    ensures ok <==> IsText(text)
  {
    TextIffDecodable(text);
    assert text[0..] == text;
    var index := 0;
    while index < |text|
      invariant 0 <= index <= |text|
      invariant Decode(text).Some? <==> Decode(text[index..]).Some?
    {
      var read, next := ReadCharacter(text, index);
      if !read {
        return false;
      }
      assert text[index..][next - index..] == text[next..];
      index := next;
    }
    return true;
  }
}
