/**
 * The URI handling abstract operations Encode and Decode of ECMA-262
 * (section 19.2.6), which back encodeURIComponent / decodeURIComponent and
 * encodeURI / decodeURI: percent-encoding as in section 2.1 of RFC 3986 over
 * the UTF-8 octets of RFC 3629.
 *
 * A JavaScript string is modelled by its code points: a surrogate pair is one
 * code point above U+FFFF, and a surrogate value in the sequence stands for an
 * unpaired surrogate code unit.
 */
module UriCoding {
  import opened Wrappers
  import Utf8

  type CodePoint = c: int | 0 <= c <= 0x10FFFF
  type Text = seq<CodePoint>

  /** The URIError that Encode and Decode throw. */
  datatype UriError = UriError

  /** Which pair of global functions: the component pair, or the whole-URI pair. */
  datatype Flavor = Component | WholeUri

  const Percent: CodePoint := 0x25

  predicate NoLoneSurrogates(t: Text) { forall i :: 0 <= i < |t| ==> Utf8.IsScalarValue(t[i]) }

  predicate IsAlpha(c: int) { 'A' as int <= c <= 'Z' as int || 'a' as int <= c <= 'z' as int }

  predicate IsDecimalDigit(c: int) { '0' as int <= c <= '9' as int }

  /** uriMark: - _ . ! ~ * ' ( ) */
  predicate IsMark(c: int) {
    c in {'-' as int, '_' as int, '.' as int, '!' as int, '~' as int, '*' as int, '\'' as int, '(' as int, ')' as int}
  }

  /** uriReserved plus the number sign: ; / ? : @ & = + $ , # */
  predicate IsReservedOrHash(c: int) {
    c in {';' as int, '/' as int, '?' as int, ':' as int, '@' as int, '&' as int, '=' as int, '+' as int, '$' as int, ',' as int, '#' as int}
  }

  /** The code points Encode copies unchanged (encodeURI adds the reserved characters and '#'). */
  predicate Unescaped(f: Flavor, c: int) {
    IsAlpha(c) || IsDecimalDigit(c) || IsMark(c) || (f == WholeUri && IsReservedOrHash(c))
  }

  /** The characters whose escapes Decode leaves as they are (decodeURI's preserve set; empty for decodeURIComponent). */
  predicate Preserved(f: Flavor, c: int) { f == WholeUri && IsReservedOrHash(c) }

  predicate IsUpperHexDigit(c: int) { IsDecimalDigit(c) || 'A' as int <= c <= 'F' as int }

  predicate IsHexDigit(c: int) { IsUpperHexDigit(c) || 'a' as int <= c <= 'f' as int }

  function HexDigit(d: int): (c: CodePoint)
    requires 0 <= d < 16
    ensures IsUpperHexDigit(c)
  {
    if d < 10 then '0' as int + d else 'A' as int + d - 10
  }

  function HexValue(c: int): (d: int)
    requires IsHexDigit(c)
    ensures 0 <= d < 16
    ensures IsUpperHexDigit(c) ==> HexDigit(d) == c
  {
    if IsDecimalDigit(c) then c - '0' as int
    else if c <= 'F' as int then c - 'A' as int + 10
    else c - 'a' as int + 10
  }

  /** The octet two hexadecimal digits denote (ParseHexOctet). */
  function HexOctet(hi: int, lo: int): (b: int)
    requires IsHexDigit(hi) && IsHexDigit(lo)
    ensures Utf8.IsByte(b)
  {
    HexValue(hi) * 16 + HexValue(lo)
  }

  /** "%" followed by the octet in two upper-case hexadecimal digits. */
  function EscapeOctet(b: int): (e: Text)
    requires Utf8.IsByte(b)
    ensures |e| == 3 && e[0] == Percent && IsUpperHexDigit(e[1]) && IsUpperHexDigit(e[2])
    ensures HexOctet(e[1], e[2]) == b
  {
    [Percent, HexDigit(b / 16), HexDigit(b % 16)]
  }

  function EscapeOctets(bs: seq<int>): (e: Text)
    requires Utf8.AllBytes(bs)
    ensures |e| == 3 * |bs|
  {
    if bs == [] then [] else EscapeOctet(bs[0]) + EscapeOctets(bs[1..])
  }

  /**
   * The shape of every encoded string: a run of unescaped characters and
   * "%XX" triplets with upper-case hexadecimal digits.
   */
  predicate Escaped(f: Flavor, e: Text)
    decreases |e|
  {
    e == []
    || (Unescaped(f, e[0]) && Escaped(f, e[1..]))
    || (|e| >= 3 && e[0] == Percent && IsUpperHexDigit(e[1]) && IsUpperHexDigit(e[2]) && Escaped(f, e[3..]))
  }

  /**
   * Encode(string, extraUnescaped): copies unescaped characters, writes every
   * other code point as its escaped UTF-8 octets, and throws a URIError on an
   * unpaired surrogate.
   */
  function Encode(f: Flavor, s: Text): (r: Result<Text, UriError>)
    ensures r.Success? <==> NoLoneSurrogates(s)
    ensures r.Success? ==> Escaped(f, r.value)
    decreases |s|
  {
    if s == [] then Success([])
    else
      var c := s[0];
      if Unescaped(f, c) then
        match Encode(f, s[1..])
        case Success(t) =>
          assert ([c] + t)[1..] == t;
          Success([c] + t)
        case Failure(e) => Failure(e)
      else if !Utf8.IsScalarValue(c) then Failure(UriError)
      else
        match Encode(f, s[1..])
        case Success(t) =>
          EscapedOctets(f, Utf8.EncodeScalar(c), t);
          Success(EscapeOctets(Utf8.EncodeScalar(c)) + t)
        case Failure(e) => Failure(e)
  }

  /** Escaped octets followed by more text start with the first octet's "%XX" triplet, then the rest. */
  lemma EscapeOctetsHead(bs: seq<int>, t: Text)
    requires Utf8.AllBytes(bs) && bs != []
    ensures var e := EscapeOctets(bs) + t;
      && |e| >= 3 && e[0] == Percent && IsUpperHexDigit(e[1]) && IsUpperHexDigit(e[2])
      && HexOctet(e[1], e[2]) == bs[0] && e[3..] == EscapeOctets(bs[1..]) + t
  {
    var head, tail := EscapeOctet(bs[0]), EscapeOctets(bs[1..]) + t;
    assert EscapeOctets(bs) + t == head + tail;
    TripletThen(head, tail);
  }

  lemma TripletThen(head: Text, tail: Text)
    requires |head| == 3
    ensures var e := head + tail;
      |e| >= 3 && e[0] == head[0] && e[1] == head[1] && e[2] == head[2] && e[3..] == tail
  {
  }

  lemma {:induction false} EscapedOctets(f: Flavor, bs: seq<int>, t: Text)
    requires Utf8.AllBytes(bs) && Escaped(f, t)
    ensures Escaped(f, EscapeOctets(bs) + t)
    decreases |bs|
  {
    if bs != [] {
      EscapeOctetsHead(bs, t);
      EscapedOctets(f, bs[1..], t);
    } else {
      assert EscapeOctets(bs) + t == t;
    }
  }

  /** Every "%" of s starts a "%XX" triplet with two hexadecimal digits, all within s. */
  predicate PercentsEscaped(s: Text) {
    forall i :: 0 <= i < |s| && s[i] == Percent ==> i + 2 < |s| && IsHexDigit(s[i + 1]) && IsHexDigit(s[i + 2])
  }

  lemma PercentsEscapedConcat(a: Text, b: Text)
    requires PercentsEscaped(a) && PercentsEscaped(b)
    ensures PercentsEscaped(a + b)
  {
    var s := a + b;
    forall i | 0 <= i < |s| && s[i] == Percent
      ensures i + 2 < |s| && IsHexDigit(s[i + 1]) && IsHexDigit(s[i + 2])
    {
      if i < |a| {
        assert a[i] == Percent;
      } else {
        assert b[i - |a|] == Percent;
        assert s[i + 1] == b[i - |a| + 1] && s[i + 2] == b[i - |a| + 2];
      }
    }
  }

  /** A leading "%XX" followed by well-escaped text is well-escaped. */
  lemma TripletEscaped(s: Text, n: nat)
    requires 3 <= n <= |s| && s[0] == Percent && IsHexDigit(s[1]) && IsHexDigit(s[2])
    requires PercentsEscaped(s[3..][..n - 3])
    ensures PercentsEscaped(s[..n])
  {
    var t := s[..3];
    assert PercentsEscaped(t) by {
      assert t[1] != Percent && t[2] != Percent;
    }
    assert s[..n] == t + s[3..][..n - 3];
    PercentsEscapedConcat(t, s[3..][..n - 3]);
  }

  /** The text one escape of Decode produces and how many code points of the input it consumed. */
  datatype DecodedStep = DecodedStep(output: Text, consumed: nat)

  /**
   * Reads `count` consecutive "%XX" escapes from the start of s; None when a
   * "%" or a hexadecimal digit is missing or the input ends early.
   */
  function ReadOctets(s: Text, count: nat): (r: Option<seq<int>>)
    ensures r.Some? ==> |r.value| == count && 3 * count <= |s| && Utf8.AllBytes(r.value)
    ensures r.Some? ==> PercentsEscaped(s[..3 * count])
    decreases count
  {
    if count == 0 then Some([])
    else if 3 <= |s| && s[0] == Percent && IsHexDigit(s[1]) && IsHexDigit(s[2]) then
      match ReadOctets(s[3..], count - 1)
      case Some(rest) =>
        TripletEscaped(s, 3 * count);
        Some([HexOctet(s[1], s[2])] + rest)
      case None => None
    else None
  }

  /**
   * One escape of Decode, starting at a "%": an ASCII octet becomes its
   * character unless it is in the preserve set (then the three characters
   * stay); a lead octet of 2 to 4 octets must be followed by that many
   * escaped continuation octets that form valid UTF-8. Everything else
   * throws a URIError.
   */
  function DecodeEscape(f: Flavor, s: Text): (r: Result<DecodedStep, UriError>)
    requires |s| > 0 && s[0] == Percent
    ensures r.Success? ==> 3 <= r.value.consumed <= |s| && PercentsEscaped(s[..r.value.consumed])
  {
    if |s| < 3 || !IsHexDigit(s[1]) || !IsHexDigit(s[2]) then Failure(UriError)
    else
      var b := HexOctet(s[1], s[2]);
      var n := Utf8.LeadingOnes(b);
      if n == 0 then
        assert s[3..][..0] == [];
        TripletEscaped(s, 3);
        if Preserved(f, b) then Success(DecodedStep(s[..3], 3)) else Success(DecodedStep([b], 3))
      else if n == 1 || n > 4 then Failure(UriError)
      else
        match ReadOctets(s[3..], n - 1)
        case None => Failure(UriError)
        case Some(rest) =>
          match Utf8.DecodeSequence([b] + rest)
          case None => Failure(UriError)
          case Some(cp) =>
            TripletEscaped(s, 3 * n);
            Success(DecodedStep([cp], 3 * n))
  }

  function Prepend(p: Text, r: Result<Text, UriError>): Result<Text, UriError> {
    match r
    case Success(t) => Success(p + t)
    case Failure(e) => Failure(e)
  }

  /**
   * Decode(string, preserveEscapeSet): copies every character that is not "%"
   * and decodes each escape; a "%" without two hexadecimal digits after it is
   * a URIError.
   */
  function Decode(f: Flavor, s: Text): (r: Result<Text, UriError>)
    ensures r.Success? ==> |r.value| <= |s|
    ensures !PercentsEscaped(s) ==> r.Failure?
    decreases |s|
  {
    if s == [] then Success([])
    else if s[0] != Percent then
      var r := Decode(f, s[1..]);
      if r.Success? then
        assert s == [s[0]] + s[1..];
        PercentsEscapedConcat([s[0]], s[1..]);
        Prepend([s[0]], r)
      else r
    else
      match DecodeEscape(f, s)
      case Failure(e) => Failure(e)
      case Success(step) =>
        var r := Decode(f, s[step.consumed..]);
        if r.Success? then
          assert s == s[..step.consumed] + s[step.consumed..];
          PercentsEscapedConcat(s[..step.consumed], s[step.consumed..]);
          Prepend(step.output, r)
        else r
  }

  function EncodeUriComponent(s: Text): Result<Text, UriError> { Encode(Component, s) }
  function DecodeUriComponent(s: Text): Result<Text, UriError> { Decode(Component, s) }
  function EncodeUri(s: Text): Result<Text, UriError> { Encode(WholeUri, s) }
  function DecodeUri(s: Text): Result<Text, UriError> { Decode(WholeUri, s) }

  lemma {:induction false} ReadEscapedOctets(bs: seq<int>, rest: Text)
    requires Utf8.AllBytes(bs)
    ensures ReadOctets(EscapeOctets(bs) + rest, |bs|) == Some(bs)
    decreases |bs|
  {
    if bs != [] {
      var s := EscapeOctets(bs) + rest;
      EscapeOctetsHead(bs, rest);
      ReadEscapedOctets(bs[1..], rest);
      assert ReadOctets(s, |bs|) == Some([HexOctet(s[1], s[2])] + bs[1..]);
      assert [bs[0]] + bs[1..] == bs;
    }
  }

  /** The escape of one code point decodes, in one step, to that code point. */
  lemma DecodeEscapeOfScalar(f: Flavor, c: int, rest: Text)
    requires Utf8.IsScalarValue(c) && !Unescaped(f, c)
    ensures var esc := EscapeOctets(Utf8.EncodeScalar(c));
      DecodeEscape(f, esc + rest) == Success(DecodedStep([c], |esc|))
  {
    var bytes := Utf8.EncodeScalar(c);
    var esc := EscapeOctets(bytes);
    var s := esc + rest;
    EscapeOctetsHead(bytes, rest);
    var b := HexOctet(s[1], s[2]);
    assert b == bytes[0];
    if |bytes| == 1 {
      assert b == c && !Preserved(f, b);
    } else {
      ReadEscapedOctets(bytes[1..], rest);
      assert ReadOctets(s[3..], |bytes| - 1) == Some(bytes[1..]);
      assert [b] + bytes[1..] == bytes;
      Utf8.DecodeEncode(c);
    }
  }

  /** Round trip: decoding what Encode produced gives back the original text, for both flavours. */
  lemma {:induction false} DecodeEncode(f: Flavor, s: Text)
    requires NoLoneSurrogates(s)
    ensures Encode(f, s).Success? && Decode(f, Encode(f, s).value) == Success(s)
    decreases |s|
  {
    if s != [] {
      var c := s[0];
      DecodeEncode(f, s[1..]);
      var t := Encode(f, s[1..]).value;
      if Unescaped(f, c) {
        var e := [c] + t;
        assert e[1..] == t;
        assert Decode(f, e) == Prepend([c], Decode(f, t));
      } else {
        var esc := EscapeOctets(Utf8.EncodeScalar(c));
        var e := esc + t;
        DecodeEscapeOfScalar(f, c, t);
        assert e[|esc|..] == t;
        assert e[0] == Percent;
      }
      assert [c] + s[1..] == s;
    }
  }

  /** Every character of an encoded string is an unescaped character, "%" or an upper-case hexadecimal digit. */
  lemma {:induction false} EscapedAlphabet(f: Flavor, e: Text)
    requires Escaped(f, e)
    ensures forall i :: 0 <= i < |e| ==> Unescaped(f, e[i]) || e[i] == Percent || IsUpperHexDigit(e[i])
    decreases |e|
  {
    if e != [] {
      if Unescaped(f, e[0]) && Escaped(f, e[1..]) {
        EscapedAlphabet(f, e[1..]);
        forall i | 1 <= i < |e| ensures Unescaped(f, e[i]) || e[i] == Percent || IsUpperHexDigit(e[i]) {
          assert e[i] == e[1..][i - 1];
        }
      } else {
        EscapedAlphabet(f, e[3..]);
        forall i | 3 <= i < |e| ensures Unescaped(f, e[i]) || e[i] == Percent || IsUpperHexDigit(e[i]) {
          assert e[i] == e[3..][i - 3];
        }
      }
    }
  }
}
