/** Python's `urlencode` with its default `quote_plus`, and a reference
    decoder for the query strings it produces.

    `quote_plus` encodes a string as UTF-8, keeps the unreserved ASCII
    characters (letters, digits, `_.-~`), writes a space as `+` and every
    other byte as `%` followed by two upper-case hex digits. The decoder is
    the inverse used to state the round trip; it is not a model of
    `parse_qs`. */
module UrlEncoding {
  import opened Wrappers
  import Text

  type byte = b: int | 0 <= b < 256

  /** The UTF-8 encoding of one Unicode scalar value. */
  function Utf8(c: char): (bs: seq<byte>)
    ensures 1 <= |bs| <= 4
    ensures (c as int < 0x80) <==> (|bs| == 1)
    ensures c as int < 0x80 ==> bs == [c as int]
  {
    var n := c as int;
    if n < 0x80 then [n]
    else if n < 0x800 then [0xC0 + n / 0x40, 0x80 + n % 0x40]
    else if n < 0x1_0000 then [0xE0 + n / 0x1000, 0x80 + (n / 0x40) % 0x40, 0x80 + n % 0x40]
    else [0xF0 + n / 0x4_0000, 0x80 + (n / 0x1000) % 0x40, 0x80 + (n / 0x40) % 0x40, 0x80 + n % 0x40]
  }

  /** `s.encode('utf-8')`. */
  function Utf8Bytes(s: string): seq<byte>
  {
    if |s| == 0 then [] else Utf8(s[0]) + Utf8Bytes(s[1..])
  }

  /** A Unicode scalar value: a code point that is not a surrogate. */
  predicate ScalarValue(v: int)
  {
    (0 <= v < 0xD800) || (0xE000 <= v <= 0x10_FFFF)
  }

  /** A continuation byte `10xxxxxx`. */
  predicate Continuation(b: byte)
  {
    0x80 <= b < 0xC0
  }

  /** The first character encoded at the front of `bs`, and its length in
      bytes. */
  function DecodeChar(bs: seq<byte>): Option<(char, nat)>
  {
    if |bs| == 0 then None
    else
      var b: int := bs[0];
      var (v, n) :=
        if b < 0x80 then (b, 1)
        else if 0xC0 <= b < 0xE0 && |bs| >= 2 && Continuation(bs[1]) then
          ((b - 0xC0) * 0x40 + (bs[1] as int - 0x80), 2)
        else if 0xE0 <= b < 0xF0 && |bs| >= 3 && Continuation(bs[1]) && Continuation(bs[2]) then
          ((b - 0xE0) * 0x1000 + (bs[1] as int - 0x80) * 0x40 + (bs[2] as int - 0x80), 3)
        else if 0xF0 <= b < 0xF8 && |bs| >= 4 && Continuation(bs[1]) && Continuation(bs[2])
                && Continuation(bs[3]) then
          ((b - 0xF0) * 0x4_0000 + (bs[1] as int - 0x80) * 0x1000 + (bs[2] as int - 0x80) * 0x40 + (bs[3] as int - 0x80), 4)
        else (-1, 0);
      if n > 0 && ScalarValue(v) && Shortest(v, n) then Some((v as char, n)) else None
  }

  /** `v` needs `n` bytes: a longer (overlong) encoding is not UTF-8. */
  predicate Shortest(v: int, n: nat)
  {
    n == 1 || (n == 2 && 0x80 <= v) || (n == 3 && 0x800 <= v) || (n == 4 && 0x1_0000 <= v)
  }

  /** `bs.decode('utf-8')`, failing on bytes that are not UTF-8: a bad lead
      or continuation byte, a truncated sequence, a surrogate, a value past
      U+10FFFF or an overlong form. */
  function Utf8Decode(bs: seq<byte>): Option<string>
    decreases |bs|
  {
    if |bs| == 0 then Some("")
    else match DecodeChar(bs)
      case None => None
      case Some((c, n)) =>
        if n <= |bs| then
          match Utf8Decode(bs[n..])
          case None => None
          case Some(rest) => Some([c] + rest)
        else None
  }

  /** The decoder reads back the one character `Utf8` wrote. */
  lemma DecodeCharUtf8(c: char, rest: seq<byte>)
    ensures DecodeChar(Utf8(c) + rest) == Some((c, |Utf8(c)|))
  {
    var n := c as int;
    if n < 0x80 {
    } else if n < 0x800 {
      DecodeTwo(c, rest);
    } else if n < 0x1_0000 {
      DecodeThree(c, rest);
    } else {
      DecodeFour(c, rest);
    }
  }

  lemma DecodeTwo(c: char, rest: seq<byte>)
    requires 0x80 <= c as int < 0x800
    ensures DecodeChar(Utf8(c) + rest) == Some((c, 2))
  {
    var n := c as int;
    var hi, lo := n / 0x40, n % 0x40;
    assert n == hi * 0x40 + lo;
    var bs := Utf8(c) + rest;
    assert bs[0] == 0xC0 + hi && bs[1] == 0x80 + lo;
  }

  lemma DecodeThree(c: char, rest: seq<byte>)
    requires 0x800 <= c as int < 0x1_0000
    ensures DecodeChar(Utf8(c) + rest) == Some((c, 3))
  {
    var n := c as int;
    var hi, mid, lo := n / 0x1000, (n / 0x40) % 0x40, n % 0x40;
    assert n / 0x40 == hi * 0x40 + mid;
    assert n == (n / 0x40) * 0x40 + lo;
    assert n == hi * 0x1000 + mid * 0x40 + lo;
    var bs := Utf8(c) + rest;
    assert bs[0] == 0xE0 + hi && bs[1] == 0x80 + mid && bs[2] == 0x80 + lo;
  }

  lemma DecodeFour(c: char, rest: seq<byte>)
    requires 0x1_0000 <= c as int
    ensures DecodeChar(Utf8(c) + rest) == Some((c, 4))
  {
    var n := c as int;
    var top, hi, mid, lo := n / 0x4_0000, (n / 0x1000) % 0x40, (n / 0x40) % 0x40, n % 0x40;
    assert n / 0x1000 == top * 0x40 + hi;
    assert n / 0x40 == (n / 0x1000) * 0x40 + mid;
    assert n == (n / 0x40) * 0x40 + lo;
    assert n == top * 0x4_0000 + hi * 0x1000 + mid * 0x40 + lo;
    var bs := Utf8(c) + rest;
    assert bs[0] == 0xF0 + top && bs[1] == 0x80 + hi && bs[2] == 0x80 + mid && bs[3] == 0x80 + lo;
  }

  /** UTF-8 decoding inverts `Utf8Bytes`, so equal byte strings come from
      equal strings. */
  lemma {:induction false} Utf8RoundTrip(s: string)
    ensures Utf8Decode(Utf8Bytes(s)) == Some(s)
  {
    if |s| > 0 {
      var bs := Utf8Bytes(s);
      assert bs == Utf8(s[0]) + Utf8Bytes(s[1..]);
      DecodeCharUtf8(s[0], Utf8Bytes(s[1..]));
      assert bs[|Utf8(s[0])|..] == Utf8Bytes(s[1..]);
      Utf8RoundTrip(s[1..]);
      assert s == [s[0]] + s[1..];
    }
  }

  /** Whatever `DecodeChar` accepts is exactly the encoding of the
      character it returns. */
  lemma DecodeCharBytes(bs: seq<byte>)
    requires DecodeChar(bs).Some?
    ensures var (c, n) := DecodeChar(bs).value; 0 < n <= |bs| && bs[..n] == Utf8(c)
  {
    var (c, n) := DecodeChar(bs).value;
    if n == 2 {
      EncodeTwo(c, bs[0] - 0xC0, bs[1] - 0x80);
    } else if n == 3 {
      EncodeThree(c, bs[0] - 0xE0, bs[1] - 0x80, bs[2] - 0x80);
    } else if n == 4 {
      EncodeFour(c, bs[0] - 0xF0, bs[1] - 0x80, bs[2] - 0x80, bs[3] - 0x80);
    }
  }

  lemma EncodeTwo(c: char, hi: int, lo: int)
    requires 0 <= lo < 0x40 && c as int == hi * 0x40 + lo && 0x80 <= c as int < 0x800
    ensures Utf8(c) == [0xC0 + hi, 0x80 + lo]
  {
    var v := c as int;
    assert v / 0x40 == hi && v % 0x40 == lo;
  }

  lemma EncodeThree(c: char, hi: int, mid: int, lo: int)
    requires 0 <= mid < 0x40 && 0 <= lo < 0x40
    requires c as int == hi * 0x1000 + mid * 0x40 + lo && 0x800 <= c as int < 0x1_0000
    ensures Utf8(c) == [0xE0 + hi, 0x80 + mid, 0x80 + lo]
  {
    var v := c as int;
    assert v / 0x40 == hi * 0x40 + mid && v % 0x40 == lo;
    assert v / 0x1000 == hi;
  }

  lemma EncodeFour(c: char, top: int, hi: int, mid: int, lo: int)
    requires 0 <= hi < 0x40 && 0 <= mid < 0x40 && 0 <= lo < 0x40
    requires c as int == top * 0x4_0000 + hi * 0x1000 + mid * 0x40 + lo && 0x1_0000 <= c as int
    ensures Utf8(c) == [0xF0 + top, 0x80 + hi, 0x80 + mid, 0x80 + lo]
  {
    var v := c as int;
    DivExact(v, top, hi * 0x1000 + mid * 0x40 + lo, 0x4_0000);
    DivExact(v, top * 0x40 + hi, mid * 0x40 + lo, 0x1000);
    DivExact(v, top * 0x1000 + hi * 0x40 + mid, lo, 0x40);
  }

  /** `v = q * d + r` with `0 <= r < d` fixes `v / d` and `v % d`. */
  lemma DivExact(v: int, q: int, r: int, d: int)
    requires d == 0x40 || d == 0x1000 || d == 0x4_0000
    requires 0 <= r < d && v == q * d + r
    ensures v / d == q && v % d == r
  {
    if d == 0x40 {
      assert v == q * 0x40 + r;
    } else if d == 0x1000 {
      assert v == q * 0x1000 + r;
    } else {
      assert v == q * 0x4_0000 + r;
    }
  }

  /** The decoder is strict: a byte string it accepts is exactly the
      encoding of the string it returns, so `Utf8Decode` and `Utf8Bytes`
      are inverse to each other. Since `Utf8` writes only shortest forms,
      every overlong form is rejected; `[0xC0, 0x80]`, for instance, decodes
      to `None` rather than to U+0000. */
  lemma {:induction false} Utf8DecodeBytes(bs: seq<byte>, s: string)
    requires Utf8Decode(bs) == Some(s)
    ensures Utf8Bytes(s) == bs
    decreases |bs|
  {
    if |bs| > 0 {
      var c, n, tail := Utf8DecodeStep(bs, s);
      Utf8DecodeBytes(bs[n..], tail);
      Utf8BytesCons(c, tail);
      assert bs[..n] + bs[n..] == bs;
    }
  }

  /** One step of `Utf8Decode`: the encoding of the first character, then
      the rest. */
  lemma Utf8DecodeStep(bs: seq<byte>, s: string) returns (c: char, n: nat, tail: string)
    requires |bs| > 0 && Utf8Decode(bs) == Some(s)
    ensures 0 < n <= |bs| && bs[..n] == Utf8(c)
    ensures Utf8Decode(bs[n..]) == Some(tail) && s == [c] + tail
  {
    c, n := DecodeChar(bs).value.0, DecodeChar(bs).value.1;
    DecodeCharBytes(bs);
    tail := Utf8Decode(bs[n..]).value;
  }

  lemma Utf8BytesCons(c: char, s: string)
    ensures Utf8Bytes([c] + s) == Utf8(c) + Utf8Bytes(s)
  {
    assert ([c] + s)[0] == c && ([c] + s)[1..] == s;
  }

  /** The characters `quote` never escapes. */
  predicate Unreserved(c: char)
  {
    ('A' <= c <= 'Z') || ('a' <= c <= 'z') || ('0' <= c <= '9')
    || c == '_' || c == '.' || c == '-' || c == '~'
  }

  /** Every character `quote_plus` can emit. */
  predicate EncodedChar(c: char)
  {
    Unreserved(c) || c == '+' || c == '%'
  }

  const HexDigits: string := "0123456789ABCDEF"

  function HexValue(c: char): Option<int>
  {
    if '0' <= c <= '9' then Some(c as int - '0' as int)
    else if 'A' <= c <= 'F' then Some(c as int - 'A' as int + 10)
    else if 'a' <= c <= 'f' then Some(c as int - 'a' as int + 10)
    else None
  }

  /** `%XX` for one byte. */
  function PercentByte(b: byte): (e: string)
    ensures |e| == 3 && e[0] == '%'
    ensures HexValue(e[1]) == Some(b / 16) && HexValue(e[2]) == Some(b % 16)
    ensures forall i :: 0 <= i < |e| ==> EncodedChar(e[i])
  {
    ['%', HexDigits[b / 16], HexDigits[b % 16]]
  }

  function PercentBytes(bs: seq<byte>): string
  {
    if |bs| == 0 then "" else PercentByte(bs[0]) + PercentBytes(bs[1..])
  }

  /** `quote_plus` applied to a single character. */
  function QuoteChar(c: char): string
  {
    if Unreserved(c) then [c]
    else if c == ' ' then "+"
    else PercentBytes(Utf8(c))
  }

  /** `quote_plus(s)`. */
  function QuotePlus(s: string): string
  {
    if |s| == 0 then "" else QuoteChar(s[0]) + QuotePlus(s[1..])
  }

  /** `unquote_plus` to bytes: `+` is a space, `%XX` a byte, any other ASCII
      character itself. Anything else is not an encoded string. */
  function UnquotePlus(e: string): Option<seq<byte>>
  {
    if |e| == 0 then Some([])
    else if e[0] == '+' then
      match UnquotePlus(e[1..])
      case None => None
      case Some(tail) => Some([0x20] + tail)
    else if e[0] == '%' then
      if |e| < 3 then None
      else
        match (HexValue(e[1]), HexValue(e[2]), UnquotePlus(e[3..]))
        case (Some(hi), Some(lo), Some(tail)) =>
          if 0 <= hi < 16 && 0 <= lo < 16 then Some([hi * 16 + lo] + tail) else None
        case _ => None
    else if e[0] as int < 0x80 then
      match UnquotePlus(e[1..])
      case None => None
      case Some(tail) => Some([e[0] as int] + tail)
    else None
  }

  /** The key/value pair `quote_plus(k) + "=" + quote_plus(v)`. */
  function EncodePair(pair: (string, string)): string
  {
    QuotePlus(pair.0) + "=" + QuotePlus(pair.1)
  }

  function EncodePairs(pairs: seq<(string, string)>): seq<string>
  {
    if |pairs| == 0 then [] else [EncodePair(pairs[0])] + EncodePairs(pairs[1..])
  }

  /** `urlencode(pairs)`: the encoded pairs, in order, joined by `&`. */
  function UrlEncode(pairs: seq<(string, string)>): string
  {
    Text.Join(EncodePairs(pairs), '&')
  }

  /** `'{}?{}'.format(base, urlencode(pairs))`. */
  function BuildUrl(base: string, pairs: seq<(string, string)>): string
  {
    base + "?" + UrlEncode(pairs)
  }

  /** The bytes of each key and value, which is what decoding an encoded
      query string gives back. */
  function PairBytes(pairs: seq<(string, string)>): (r: seq<(seq<byte>, seq<byte>)>)
    ensures |r| == |pairs|
    ensures forall i :: 0 <= i < |pairs| ==> r[i] == (Utf8Bytes(pairs[i].0), Utf8Bytes(pairs[i].1))
  {
    if |pairs| == 0 then []
    else [(Utf8Bytes(pairs[0].0), Utf8Bytes(pairs[0].1))] + PairBytes(pairs[1..])
  }

  /** One `key=value` field of a query string, split at its first `=`. */
  function DecodeField(field: string): Option<(seq<byte>, seq<byte>)>
  {
    var i := Text.FirstIndex(field, '=');
    if i == |field| then None
    else
      match (UnquotePlus(field[..i]), UnquotePlus(field[i + 1..]))
      case (Some(k), Some(v)) => Some((k, v))
      case _ => None
  }

  function DecodeFields(fields: seq<string>): Option<seq<(seq<byte>, seq<byte>)>>
  {
    if |fields| == 0 then Some([])
    else
      match (DecodeField(fields[0]), DecodeFields(fields[1..]))
      case (Some(p), Some(ps)) => Some([p] + ps)
      case _ => None
  }

  /** Reference decoder for a query string: the empty string has no fields,
      otherwise the fields are separated by `&`. */
  function DecodeQuery(qs: string): Option<seq<(seq<byte>, seq<byte>)>>
  {
    if |qs| == 0 then Some([]) else DecodeFields(Text.Split(qs, '&'))
  }

  // ---------------------------------------------------------------------
  // Properties of the encoder

  /** `quote_plus` only emits unreserved characters, `+` and `%`; in
      particular never the `&`, `=` or `?` that delimit a URL's query. */
  lemma {:induction false} QuotePlusAlphabet(s: string)
    ensures forall i :: 0 <= i < |QuotePlus(s)| ==> EncodedChar(QuotePlus(s)[i])
  {
    if |s| > 0 {
      QuotePlusAlphabet(s[1..]);
      QuoteCharAlphabet(s[0]);
      var a, b := QuoteChar(s[0]), QuotePlus(s[1..]);
      assert forall i :: 0 <= i < |a + b| ==> (a + b)[i] == if i < |a| then a[i] else b[i - |a|];
    }
  }

  lemma QuoteCharAlphabet(c: char)
    ensures forall i :: 0 <= i < |QuoteChar(c)| ==> EncodedChar(QuoteChar(c)[i])
  {
    if !Unreserved(c) && c != ' ' {
      PercentBytesAlphabet(Utf8(c));
    }
  }

  lemma {:induction false} PercentBytesAlphabet(bs: seq<byte>)
    ensures forall i :: 0 <= i < |PercentBytes(bs)| ==> EncodedChar(PercentBytes(bs)[i])
  {
    if |bs| > 0 {
      PercentBytesAlphabet(bs[1..]);
      var a, b := PercentByte(bs[0]), PercentBytes(bs[1..]);
      assert forall i :: 0 <= i < |a + b| ==> (a + b)[i] == if i < |a| then a[i] else b[i - |a|];
    }
  }

  /** Decoding `%XX%YY...` followed by more text gives the bytes, then
      whatever the rest decodes to. */
  lemma {:induction false} UnquotePercentBytes(bs: seq<byte>, rest: string)
    ensures UnquotePlus(PercentBytes(bs) + rest) == Prepend(bs, UnquotePlus(rest))
  {
    if |bs| > 0 {
      var tail := PercentBytes(bs[1..]) + rest;
      assert PercentBytes(bs) + rest == PercentByte(bs[0]) + tail;
      UnquotePercentByte(bs[0], tail);
      UnquotePercentBytes(bs[1..], rest);
      PrependTwice([bs[0]], bs[1..], UnquotePlus(rest));
      assert [bs[0]] + bs[1..] == bs;
    } else {
      assert PercentBytes(bs) + rest == rest;
      if UnquotePlus(rest).Some? {
        assert bs + UnquotePlus(rest).value == UnquotePlus(rest).value;
      }
    }
  }

  /** Decoding one `%XX` followed by more text. */
  lemma UnquotePercentByte(b: byte, rest: string)
    ensures UnquotePlus(PercentByte(b) + rest) == Prepend([b], UnquotePlus(rest))
  {
    var p := PercentByte(b);
    var e := p + rest;
    assert e[0] == '%' && e[1] == p[1] && e[2] == p[2] && e[3..] == rest;
    assert (b / 16) * 16 + b % 16 == b;
  }

  /** `Some(bs + t)` when `o` is `Some(t)`. */
  function Prepend(bs: seq<byte>, o: Option<seq<byte>>): Option<seq<byte>>
  {
    match o
    case None => None
    case Some(t) => Some(bs + t)
  }

  lemma PrependTwice(a: seq<byte>, b: seq<byte>, o: Option<seq<byte>>)
    ensures Prepend(a, Prepend(b, o)) == Prepend(a + b, o)
  {
    if o.Some? {
      assert a + (b + o.value) == (a + b) + o.value;
    }
  }

  /** Decoding one quoted character followed by more text. */
  lemma UnquoteQuoteChar(c: char, rest: string)
    ensures UnquotePlus(QuoteChar(c) + rest) == Prepend(Utf8(c), UnquotePlus(rest))
  {
    if Unreserved(c) {
      assert ([c] + rest)[1..] == rest;
    } else if c == ' ' {
      assert ("+" + rest)[1..] == rest;
    } else {
      UnquotePercentBytes(Utf8(c), rest);
    }
  }

  /** Percent-decoding inverts `quote_plus`: the encoded string decodes to
      the UTF-8 bytes of the original. */
  lemma {:induction false} UnquoteQuotePlus(s: string)
    ensures UnquotePlus(QuotePlus(s)) == Some(Utf8Bytes(s))
  {
    if |s| > 0 {
      UnquoteQuotePlus(s[1..]);
      UnquoteQuoteChar(s[0], QuotePlus(s[1..]));
    }
  }

  /** An encoded pair holds exactly one `=`, right after the encoded key,
      and no `&`. */
  lemma EncodePairShape(pair: (string, string))
    ensures Text.FirstIndex(EncodePair(pair), '=') == |QuotePlus(pair.0)|
    ensures '&' !in EncodePair(pair)
  {
    var k, v := QuotePlus(pair.0), QuotePlus(pair.1);
    QuotePlusAlphabet(pair.0);
    QuotePlusAlphabet(pair.1);
    assert '=' !in k && '&' !in k && '&' !in v;
    Text.FirstIndexAfter(k, '=', v);
  }

  lemma DecodeEncodedPair(pair: (string, string))
    ensures DecodeField(EncodePair(pair)) == Some((Utf8Bytes(pair.0), Utf8Bytes(pair.1)))
  {
    EncodePairShape(pair);
    var k, v := QuotePlus(pair.0), QuotePlus(pair.1);
    var e := EncodePair(pair);
    assert e[..|k|] == k;
    assert e[|k| + 1..] == v;
    UnquoteQuotePlus(pair.0);
    UnquoteQuotePlus(pair.1);
  }

  lemma {:induction false} DecodeEncodedPairs(pairs: seq<(string, string)>)
    ensures |EncodePairs(pairs)| == |pairs|
    ensures forall i :: 0 <= i < |pairs| ==> EncodePairs(pairs)[i] == EncodePair(pairs[i])
    ensures DecodeFields(EncodePairs(pairs)) == Some(PairBytes(pairs))
  {
    if |pairs| > 0 {
      DecodeEncodedPairs(pairs[1..]);
      DecodeEncodedPair(pairs[0]);
      assert EncodePairs(pairs)[1..] == EncodePairs(pairs[1..]);
    }
  }

  /** Round trip of `urlencode`: decoding the query string recovers every
      key and value, as UTF-8 bytes, in the order given. */
  lemma UrlEncodeRoundTrip(pairs: seq<(string, string)>)
    ensures DecodeQuery(UrlEncode(pairs)) == Some(PairBytes(pairs))
  {
    var fields := EncodePairs(pairs);
    DecodeEncodedPairs(pairs);
    if |pairs| == 0 {
      assert UrlEncode(pairs) == "";
    } else {
      forall i | 0 <= i < |fields|
        ensures '&' !in fields[i]
      {
        EncodePairShape(pairs[i]);
      }
      Text.SplitJoin(fields, '&');
      EncodePairShape(pairs[0]);
      assert |fields[0]| > 0;
      assert |UrlEncode(pairs)| > 0 by {
        if |fields| > 1 {
          assert UrlEncode(pairs) == fields[0] + ['&'] + Text.Join(fields[1..], '&');
        }
      }
    }
  }

  /** The URL is the base, one `?`, then the encoded pairs, and the text
      after the base decodes back to the pairs. The base is not checked: when
      it holds a `?` of its own, the URL's first `?` lies inside the base, and
      only a base without one has the query string start right after it. */
  lemma BuildUrlRoundTrip(base: string, pairs: seq<(string, string)>)
    ensures BuildUrl(base, pairs)[..|base|] == base
    ensures |BuildUrl(base, pairs)| > |base| && BuildUrl(base, pairs)[|base|] == '?'
    ensures DecodeQuery(BuildUrl(base, pairs)[|base| + 1..]) == Some(PairBytes(pairs))
    ensures '?' !in base ==> Text.FirstIndex(BuildUrl(base, pairs), '?') == |base|
    ensures '?' in base ==> Text.FirstIndex(BuildUrl(base, pairs), '?') < |base|
  {
    var url := BuildUrl(base, pairs);
    assert url == base + ['?'] + UrlEncode(pairs);
    assert url[..|base|] == base;
    assert url[|base| + 1..] == UrlEncode(pairs);
    UrlEncodeRoundTrip(pairs);
    if '?' !in base {
      Text.FirstIndexAfter(base, '?', UrlEncode(pairs));
    } else {
      var j :| 0 <= j < |base| && base[j] == '?';
      assert url[j] == '?';
    }
  }

  /** Decoded pairs read as text. */
  function PairsText(pairs: seq<(seq<byte>, seq<byte>)>): Option<seq<(string, string)>>
  {
    if |pairs| == 0 then Some([])
    else match (Utf8Decode(pairs[0].0), Utf8Decode(pairs[0].1), PairsText(pairs[1..]))
      case (Some(k), Some(v), Some(rest)) => Some([(k, v)] + rest)
      case _ => None
  }

  /** Reading the decoded bytes as UTF-8 gives back every key and value as
      text, so decoding the query string recovers the pairs themselves. */
  lemma {:induction false} UrlEncodeTextRoundTrip(pairs: seq<(string, string)>)
    ensures DecodeQuery(UrlEncode(pairs)).Some?
    ensures PairsText(DecodeQuery(UrlEncode(pairs)).value) == Some(pairs)
  {
    UrlEncodeRoundTrip(pairs);
    PairsTextBytes(pairs);
  }

  lemma {:induction false} PairsTextBytes(pairs: seq<(string, string)>)
    ensures PairsText(PairBytes(pairs)) == Some(pairs)
  {
    if |pairs| > 0 {
      Utf8RoundTrip(pairs[0].0);
      Utf8RoundTrip(pairs[0].1);
      assert PairBytes(pairs)[1..] == PairBytes(pairs[1..]);
      PairsTextBytes(pairs[1..]);
      assert pairs == [(pairs[0].0, pairs[0].1)] + pairs[1..];
    }
  }
}
