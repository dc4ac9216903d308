/**
 * UTF-8 as defined in section 3 of RFC 3629, together with the lenient
 * decoder that Python's `bytes.decode('utf-8', errors='ignore')` implements:
 * every byte that does not start a complete, well-formed sequence is dropped.
 *
 * Dropping one byte at a time gives the same text as Python's rule of
 * dropping a "maximal subpart" at once, because a maximal subpart is a lead
 * byte followed by continuation bytes, and a continuation byte never starts
 * a sequence.
 */
module Utf8 {
  import opened Wrappers

  type Byte = b: int | 0 <= b < 0x100

  predicate IsContinuation(b: Byte) {
    0x80 <= b < 0xC0
  }

  /** Number of octets RFC 3629 uses for the scalar value `c`. */
  function CharLength(c: char): (n: nat)
    ensures 1 <= n <= 4
  {
    var cp := c as int;
    if cp < 0x80 then 1 else if cp < 0x800 then 2 else if cp < 0x10000 then 3 else 4
  }

  /** The octets of one scalar value: a lead byte announcing the length, then continuation bytes. */
  function EncodeChar(c: char): (b: seq<Byte>)
    ensures |b| == CharLength(c)
    ensures |b| == 1 <==> b[0] < 0x80
    ensures |b| == 2 ==> 0xC0 <= b[0] < 0xE0
    ensures |b| == 3 ==> 0xE0 <= b[0] < 0xF0
    ensures |b| == 4 ==> 0xF0 <= b[0] < 0xF8
    ensures forall i :: 1 <= i < |b| ==> IsContinuation(b[i])
  {
    // the scalar value in six-bit digits, least significant first
    var cp := c as int;
    var d0, q0 := cp % 0x40, cp / 0x40;
    var d1, q1 := q0 % 0x40, q0 / 0x40;
    var d2, q2 := q1 % 0x40, q1 / 0x40;
    if cp < 0x80 then [cp]
    else if cp < 0x800 then [0xC0 + q0, 0x80 + d0]
    else if cp < 0x10000 then [0xE0 + q1, 0x80 + d1, 0x80 + d0]
    else [0xF0 + q2, 0x80 + d2, 0x80 + d1, 0x80 + d0]
  }

  lemma SixBits(q: int, d: int)
    requires 0 <= d < 0x40
    ensures (q * 0x40 + d) / 0x40 == q && (q * 0x40 + d) % 0x40 == d
  {
  }

  lemma EncodeTwo(hi: int, lo: int)
    requires 0 <= hi < 0x20 && 0 <= lo < 0x40 && hi * 0x40 + lo >= 0x80
    ensures EncodeChar((hi * 0x40 + lo) as char) == [0xC0 + hi, 0x80 + lo]
  {
    SixBits(hi, lo);
  }

  lemma EncodeThree(hi: int, mid: int, lo: int)
    requires 0 <= hi < 0x10 && 0 <= mid < 0x40 && 0 <= lo < 0x40
    requires var cp := (hi * 0x40 + mid) * 0x40 + lo; 0x800 <= cp && !(0xD800 <= cp < 0xE000)
    ensures EncodeChar(((hi * 0x40 + mid) * 0x40 + lo) as char) == [0xE0 + hi, 0x80 + mid, 0x80 + lo]
  {
    SixBits(hi * 0x40 + mid, lo);
    SixBits(hi, mid);
  }

  lemma EncodeFour(hi: int, d2: int, d1: int, d0: int)
    requires 0 <= hi < 0x08 && 0 <= d2 < 0x40 && 0 <= d1 < 0x40 && 0 <= d0 < 0x40
    requires 0x10000 <= ((hi * 0x40 + d2) * 0x40 + d1) * 0x40 + d0 < 0x110000
    ensures EncodeChar((((hi * 0x40 + d2) * 0x40 + d1) * 0x40 + d0) as char)
         == [0xF0 + hi, 0x80 + d2, 0x80 + d1, 0x80 + d0]
  {
    SixBits((hi * 0x40 + d2) * 0x40 + d1, d0);
    SixBits(hi * 0x40 + d2, d1);
    SixBits(hi, d2);
  }

  /** `str.encode('utf-8')`: every character takes one to four octets. */
  function Encode(s: string): (b: seq<Byte>)
    ensures |s| <= |b| <= 4 * |s|
  {
    if s == [] then [] else EncodeChar(s[0]) + Encode(s[1..])
  }

  /**
   * The scalar value whose well-formed encoding starts `b`, with the number of
   * octets it takes; None when `b` does not start with a complete well-formed
   * sequence (overlong forms, surrogates and values above U+10FFFF included).
   */
  function DecodeHead(b: seq<Byte>): (r: Option<(char, nat)>)
    ensures r.Some? ==> 1 <= r.value.1 <= |b| && b[..r.value.1] == EncodeChar(r.value.0)
  {
    if |b| == 0 then None
    else if b[0] < 0x80 then
      Some((b[0] as char, 1))
    else if 0xC0 <= b[0] < 0xE0 && |b| >= 2 && IsContinuation(b[1]) then
      var hi, lo := b[0] as int - 0xC0, b[1] as int - 0x80;
      var cp := hi * 0x40 + lo;
      if cp < 0x80 then None
      else
        EncodeTwo(hi, lo);
        Some((cp as char, 2))
    else if 0xE0 <= b[0] < 0xF0 && |b| >= 3 && IsContinuation(b[1]) && IsContinuation(b[2]) then
      var hi, mid, lo := b[0] as int - 0xE0, b[1] as int - 0x80, b[2] as int - 0x80;
      var cp := (hi * 0x40 + mid) * 0x40 + lo;
      if cp < 0x800 || 0xD800 <= cp < 0xE000 then None
      else
        EncodeThree(hi, mid, lo);
        Some((cp as char, 3))
    else if 0xF0 <= b[0] < 0xF8 && |b| >= 4
         && IsContinuation(b[1]) && IsContinuation(b[2]) && IsContinuation(b[3]) then
      var hi, d2, d1, d0 := b[0] as int - 0xF0, b[1] as int - 0x80, b[2] as int - 0x80, b[3] as int - 0x80;
      var cp := ((hi * 0x40 + d2) * 0x40 + d1) * 0x40 + d0;
      if cp < 0x10000 || cp >= 0x110000 then None
      else
        EncodeFour(hi, d2, d1, d0);
        Some((cp as char, 4))
    else None
  }

  /** `bytes.decode('utf-8', errors='ignore')`. */
  function DecodeIgnore(b: seq<Byte>): (s: string)
    ensures |s| <= |b|
    decreases |b|
  {
    if b == [] then []
    else match DecodeHead(b)
      case Some((c, n)) => [c] + DecodeIgnore(b[n..])
      case None => DecodeIgnore(b[1..])
  }

  /** Python's slice `b[:n]`: the first `n` bytes, or all of them when there are fewer. */
  function Take(b: seq<Byte>, n: nat): (r: seq<Byte>)
    ensures |r| <= n && |r| <= |b| && r == b[..|r|]
    ensures |b| <= n ==> r == b
    ensures |b| > n ==> r == b[..n]
  {
    if |b| <= n then b else b[..n]
  }

  /** The UTF-8 encoding of `s` cut to `n` bytes, with the trailing partial character dropped. */
  function TruncateToBytes(s: string, n: nat): (r: string)
    ensures |r| <= n
  {
    DecodeIgnore(Take(Encode(s), n))
  }

  lemma {:induction false} EncodeAppend(s: string, t: string)
    ensures Encode(s + t) == Encode(s) + Encode(t)
  {
    if s == [] {
      assert s + t == t;
    } else {
      assert (s + t)[0] == s[0];
      assert (s + t)[1..] == s[1..] + t;
      EncodeAppend(s[1..], t);
    }
  }

  /** A well-formed character at the head of a byte string decodes to itself. */
  lemma DecodeHeadEncodeChar(c: char, rest: seq<Byte>)
    ensures DecodeHead(EncodeChar(c) + rest) == Some((c, CharLength(c)))
  {
    var b := EncodeChar(c) + rest;
    var cp := c as int;
    var d0, q0 := cp % 0x40, cp / 0x40;
    var d1, q1 := q0 % 0x40, q0 / 0x40;
    var d2, q2 := q1 % 0x40, q1 / 0x40;
    if cp < 0x80 {
    } else if cp < 0x800 {
      assert q0 * 0x40 + d0 == cp;
    } else if cp < 0x10000 {
      assert (q1 * 0x40 + d1) * 0x40 + d0 == cp;
    } else {
      assert ((q2 * 0x40 + d2) * 0x40 + d1) * 0x40 + d0 == cp;
    }
  }

  /** Decoding is the left inverse of encoding, whatever bytes follow. */
  lemma {:induction false} DecodeEncodePrefix(s: string, rest: seq<Byte>)
    ensures DecodeIgnore(Encode(s) + rest) == s + DecodeIgnore(rest)
  {
    if s == [] {
      assert Encode(s) + rest == rest;
    } else {
      var tail := Encode(s[1..]) + rest;
      calc {
        DecodeIgnore(Encode(s) + rest);
      == { EncodeConsAppend(s, rest); }
        DecodeIgnore(EncodeChar(s[0]) + tail);
      == { DecodeIgnoreEncodeChar(s[0], tail); }
        [s[0]] + DecodeIgnore(tail);
      == { DecodeEncodePrefix(s[1..], rest); }
        [s[0]] + (s[1..] + DecodeIgnore(rest));
      == { assert s == [s[0]] + s[1..]; }
        s + DecodeIgnore(rest);
      }
    }
  }

  lemma EncodeConsAppend(s: string, rest: seq<Byte>)
    requires s != []
    ensures Encode(s) + rest == EncodeChar(s[0]) + (Encode(s[1..]) + rest)
  {
  }

  /** An encoded character at the head decodes to itself, and decoding resumes right after it. */
  lemma DecodeIgnoreEncodeChar(c: char, tail: seq<Byte>)
    ensures DecodeIgnore(EncodeChar(c) + tail) == [c] + DecodeIgnore(tail)
  {
    var b := EncodeChar(c) + tail;
    DecodeHeadEncodeChar(c, tail);
    assert b[CharLength(c)..] == tail;
    DecodeIgnoreStep(b, c, CharLength(c));
  }

  /** A decodable head contributes its character, and decoding resumes after it. */
  lemma DecodeIgnoreStep(b: seq<Byte>, c: char, n: nat)
    requires DecodeHead(b) == Some((c, n))
    ensures n <= |b| && DecodeIgnore(b) == [c] + DecodeIgnore(b[n..])
  {
  }

  /** Round trip: decoding an encoded string gives the string back, without dropping anything. */
  lemma DecodeEncode(s: string)
    ensures DecodeIgnore(Encode(s)) == s
  {
    DecodeEncodePrefix(s, []);
    assert Encode(s) + [] == Encode(s);
  }

  /** Continuation bytes on their own decode to nothing. */
  lemma {:induction false} ContinuationsDropped(b: seq<Byte>)
    requires forall i :: 0 <= i < |b| ==> IsContinuation(b[i])
    ensures DecodeIgnore(b) == []
  {
    if b != [] {
      assert DecodeHead(b) == None;
      ContinuationsDropped(b[1..]);
    }
  }

  /** A proper prefix of one character's encoding decodes to nothing. */
  lemma PartialCharDropped(c: char, k: nat)
    requires k < CharLength(c)
    ensures DecodeIgnore(EncodeChar(c)[..k]) == []
  {
    var b := EncodeChar(c)[..k];
    if k > 0 {
      assert DecodeHead(b) == None;
      ContinuationsDropped(b[1..]);
    }
  }

  /** The longest character prefix of `s` whose encoding fits in `n` bytes. */
  lemma {:induction false} TruncateToBytesIsLongestFit(s: string, n: nat)
    ensures var r := TruncateToBytes(s, n);
      && |r| <= |s| && r == s[..|r|]
      && |Encode(r)| <= n
      && (|r| < |s| ==> |Encode(s[..|r| + 1])| > n)
  {
    var r := TruncateToBytes(s, n);
    if s == [] {
      assert r == [];
    } else {
      var c, len := s[0], CharLength(s[0]);
      if len <= n {
        TruncateCons(s, n);
        var t := TruncateToBytes(s[1..], n - len);
        TruncateToBytesIsLongestFit(s[1..], n - len);
        assert Encode(r) == EncodeChar(c) + Encode(t) by {
          assert r[0] == c && r[1..] == t;
        }
        assert s[..|r|] == [c] + s[1..][..|t|];
        if |r| < |s| {
          var u := s[..|r| + 1];
          assert u[0] == c && u[1..] == s[1..][..|t| + 1];
        }
      } else {
        TruncateTooLong(s, n);
        assert Encode(s[..1]) == EncodeChar(c) by {
          assert s[..1][1..] == [];
        }
      }
    }
  }

  /** When the first character fits, it is kept and the rest is truncated to the bytes left. */
  lemma TruncateCons(s: string, n: nat)
    requires s != [] && CharLength(s[0]) <= n
    ensures TruncateToBytes(s, n) == [s[0]] + TruncateToBytes(s[1..], n - CharLength(s[0]))
  {
    var c, len := s[0], CharLength(s[0]);
    var tail := Take(Encode(s[1..]), n - len);
    assert Take(Encode(s), n) == EncodeChar(c) + tail by {
      assert Encode(s) == EncodeChar(c) + Encode(s[1..]);
    }
    DecodeIgnoreEncodeChar(c, tail);
  }

  /** When the first character does not fit, nothing is kept. */
  lemma TruncateTooLong(s: string, n: nat)
    requires s != [] && n < CharLength(s[0])
    ensures TruncateToBytes(s, n) == []
  {
    var c := s[0];
    assert Take(Encode(s), n) == EncodeChar(c)[..n] by {
      assert Encode(s) == EncodeChar(c) + Encode(s[1..]);
    }
    PartialCharDropped(c, n);
  }

  /** A string whose encoding already fits is left as it is. */
  lemma TruncateToBytesFits(s: string, n: nat)
    requires |Encode(s)| <= n
    ensures TruncateToBytes(s, n) == s
  {
    DecodeEncode(s);
  }
}
