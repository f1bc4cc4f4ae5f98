/**
 * UTF-8 as defined by RFC 3629: the octet sequences that the URI handling
 * functions of ECMA-262 produce for one code point and accept back.
 */
module Utf8 {
  import opened Wrappers

  predicate IsByte(b: int) { 0 <= b < 0x100 }

  predicate AllBytes(bs: seq<int>) { forall i :: 0 <= i < |bs| ==> IsByte(bs[i]) }

  /** A Unicode scalar value: any code point that is not a surrogate. */
  predicate IsScalarValue(cp: int) { 0 <= cp < 0xD800 || 0xE000 <= cp <= 0x10FFFF }

  /** An octet of the form 10xxxxxx. */
  predicate IsContinuation(b: int) { 0x80 <= b < 0xC0 }

  predicate AllContinuation(bs: seq<int>) { forall i :: 0 <= i < |bs| ==> IsContinuation(bs[i]) }

  /** The number of leading 1 bits of an octet. */
  function LeadingOnes(b: int): (n: nat)
    requires IsByte(b)
    ensures n <= 8
    ensures n == 0 <==> b < 0x80
    ensures n == 1 <==> IsContinuation(b)
  {
    if b < 0x80 then 0
    else if b < 0xC0 then 1
    else if b < 0xE0 then 2
    else if b < 0xF0 then 3
    else if b < 0xF8 then 4
    else if b < 0xFC then 5
    else if b < 0xFE then 6
    else if b < 0xFF then 7
    else 8
  }

  /** The UTF-8 octets of one scalar value (section 3 of RFC 3629). */
  function EncodeScalar(cp: int): (bytes: seq<int>)
    requires IsScalarValue(cp)
    ensures 1 <= |bytes| <= 4 && AllBytes(bytes)
    ensures |bytes| == 1 <==> cp < 0x80
    ensures LeadingOnes(bytes[0]) == (if |bytes| == 1 then 0 else |bytes|)
    ensures AllContinuation(bytes[1..])
  {
    if cp < 0x80 then [cp]
    else if cp < 0x800 then [0xC0 + cp / 0x40, 0x80 + cp % 0x40]
    else if cp < 0x10000 then [0xE0 + cp / 0x1000, 0x80 + cp / 0x40 % 0x40, 0x80 + cp % 0x40]
    else [0xF0 + cp / 0x40000, 0x80 + cp / 0x1000 % 0x40, 0x80 + cp / 0x40 % 0x40, 0x80 + cp % 0x40]
  }

  /** The bits a well-shaped multi-octet sequence of length 2, 3 or 4 carries. */
  function Payload(o: seq<int>): int
    requires 2 <= |o| <= 4
  {
    if |o| == 2 then (o[0] - 0xC0) * 0x40 + (o[1] - 0x80)
    else if |o| == 3 then (o[0] - 0xE0) * 0x1000 + (o[1] - 0x80) * 0x40 + (o[2] - 0x80)
    else (o[0] - 0xF0) * 0x40000 + (o[1] - 0x80) * 0x1000 + (o[2] - 0x80) * 0x40 + (o[3] - 0x80)
  }

  /** The smallest code point that needs n octets; anything below is an overlong form. */
  function MinimumFor(n: nat): int
    requires 2 <= n <= 4
  {
    if n == 2 then 0x80 else if n == 3 then 0x800 else 0x10000
  }

  /**
   * The code point a sequence of octets encodes, or None when the octets are
   * not a valid UTF-8 encoding of one code point: a bad first octet, a wrong
   * length, a missing continuation octet, an overlong form, a surrogate or a
   * value above U+10FFFF. Valid sequences are exactly the encoder's outputs.
   */
  function DecodeSequence(o: seq<int>): (r: Option<int>)
    requires AllBytes(o)
    ensures r.Some? ==> IsScalarValue(r.value) && EncodeScalar(r.value) == o
  {
    if |o| == 0 then None
    else
      var n := LeadingOnes(o[0]);
      if n == 0 then
        if |o| == 1 then Some(o[0]) else None
      else if n == 1 || n > 4 || |o| != n || !AllContinuation(o[1..]) then None
      else
        var cp := Payload(o);
        if cp < MinimumFor(n) || !IsScalarValue(cp) then None
        else
          PayloadEncodes(o, cp);
          Some(cp)
  }

  lemma PayloadEncodes(o: seq<int>, cp: int)
    requires AllBytes(o) && 2 <= |o| <= 4 && LeadingOnes(o[0]) == |o| && AllContinuation(o[1..])
    requires cp == Payload(o) && cp >= MinimumFor(|o|) && IsScalarValue(cp)
    ensures EncodeScalar(cp) == o
  {
    assert IsContinuation(o[1]);
    if |o| == 2 {
      SplitAt(cp, 0x40, o[0] - 0xC0, o[1] - 0x80);
    } else if |o| == 3 {
      assert IsContinuation(o[2]);
      var x1 := (o[0] - 0xE0) * 0x40 + (o[1] - 0x80);
      SplitAt(cp, 0x40, x1, o[2] - 0x80);
      SplitAt(x1, 0x40, o[0] - 0xE0, o[1] - 0x80);
      SplitAt(cp, 0x1000, o[0] - 0xE0, (o[1] - 0x80) * 0x40 + (o[2] - 0x80));
    } else {
      assert IsContinuation(o[2]) && IsContinuation(o[3]);
      var x2 := (o[0] - 0xF0) * 0x40 + (o[1] - 0x80);
      var x1 := x2 * 0x40 + (o[2] - 0x80);
      SplitAt(cp, 0x40, x1, o[3] - 0x80);
      SplitAt(x1, 0x40, x2, o[2] - 0x80);
      SplitAt(cp, 0x1000, x2, (o[2] - 0x80) * 0x40 + (o[3] - 0x80));
      SplitAt(x2, 0x40, o[0] - 0xF0, o[1] - 0x80);
      SplitAt(cp, 0x40000, o[0] - 0xF0, (o[1] - 0x80) * 0x1000 + (o[2] - 0x80) * 0x40 + (o[3] - 0x80));
    }
  }

  /** Quotient and remainder of x by one of the radices UTF-8 uses. */
  lemma SplitAt(x: int, m: int, q: int, r: int)
    requires m == 0x40 || m == 0x1000 || m == 0x40000
    requires 0 <= r < m && x == q * m + r
    ensures x / m == q && x % m == r
  {
    if m == 0x40 {
      assert x == q * 0x40 + r;
    } else if m == 0x1000 {
      assert x == q * 0x1000 + r;
    } else {
      assert x == q * 0x40000 + r;
    }
  }

  /** Decoding the encoder's octets gives the scalar value back (with DecodeSequence's contract: a bijection). */
  lemma DecodeEncode(cp: int)
    requires IsScalarValue(cp)
    ensures DecodeSequence(EncodeScalar(cp)) == Some(cp)
  {
    var o := EncodeScalar(cp);
    if |o| > 1 {
      var d := cp % 0x40;
      var x1 := cp / 0x40;
      assert cp == x1 * 0x40 + d;
      if |o| == 2 {
        assert Payload(o) == cp;
      } else {
        var c := x1 % 0x40;
        var x2 := x1 / 0x40;
        assert cp == x2 * 0x1000 + (c * 0x40 + d);
        assert cp / 0x1000 == x2;
        if |o| == 3 {
          assert Payload(o) == cp;
        } else {
          var b := x2 % 0x40;
          var x3 := x2 / 0x40;
          assert cp == x3 * 0x40000 + (b * 0x1000 + c * 0x40 + d);
          assert cp / 0x40000 == x3;
          assert Payload(o) == cp;
        }
      }
    }
  }
}
