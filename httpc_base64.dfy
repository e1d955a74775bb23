/**
 * _http_client_base64enc: the Base64 encoding of section 4 of RFC 4648, used for the HTTP
 * basic-authorization header. The specification `Encode` works on octets, three at a time;
 * the method keeps the source's bit accumulator and emits a digit whenever six bits are
 * available.
 */
module HttpcBase64 {
  import opened CString

  newtype byte = x: int | 0 <= x < 256

  const Pad: char := '='

  /**
   * Text the source encodes as written: ASCII characters (a character at or above 128 would
   * be sign-extended by the `char` to `int` conversion).
   */
  predicate Ascii(s: seq<char>) {
    forall k :: 0 <= k < |s| ==> s[k] as int < 128
  }

  /** The octets of ASCII text. */
  function Bytes(s: seq<char>): (b: seq<byte>)
    requires Ascii(s)
    ensures |b| == |s| && forall k :: 0 <= k < |s| ==> b[k] as int == s[k] as int
  {
    seq(|s|, k requires 0 <= k < |s| => s[k] as int as byte)
  }

  /** Digit v of the base64 alphabet (Table 1 of RFC 4648): A-Z, a-z, 0-9, '+', '/'. */
  function Digit(v: int): (c: char)
    requires 0 <= v < 64
    ensures c != Pad && c != NUL
  {
    if v < 26 then ('A' as int + v) as char
    else if v < 52 then ('a' as int + (v - 26)) as char
    else if v < 62 then ('0' as int + (v - 52)) as char
    else if v == 62 then '+' else '/'
  }

  /** The source's 65-character table: the 64 digits in order, then the pad character. */
  const Alphabet: seq<char> := seq(64, v requires 0 <= v < 64 => Digit(v)) + [Pad]

  /** The four six-bit digits of the octets b0 b1 b2, in order. */
  function Sextet0(b0: int): (v: int)
    requires 0 <= b0 < 256
    ensures 0 <= v < 64
  {
    b0 / 4
  }

  function Sextet1(b0: int, b1: int): (v: int)
    requires 0 <= b0 < 256 && 0 <= b1 < 256
    ensures 0 <= v < 64
  {
    b0 % 4 * 16 + b1 / 16
  }

  function Sextet2(b1: int, b2: int): (v: int)
    requires 0 <= b1 < 256 && 0 <= b2 < 256
    ensures 0 <= v < 64
  {
    b1 % 16 * 4 + b2 / 64
  }

  function Sextet3(b2: int): (v: int)
    requires 0 <= b2 < 256
    ensures 0 <= v < 64
  {
    b2 % 64
  }

  /** The number of four-digit groups for n octets, that is n / 3 rounded up. */
  function Groups(n: nat): nat {
    if n == 0 then 0 else if n <= 3 then 1 else 1 + Groups(n - 3)
  }

  /** Section 4 of RFC 4648: each group of three octets gives four digits; a short final group is padded with '='. */
  function Encode(s: seq<byte>): (r: seq<char>)
    ensures |r| == 4 * Groups(|s|)
    decreases |s|
  {
    if |s| == 0 then []
    else if |s| == 1 then
      [Digit(Sextet0(s[0] as int)), Digit(Sextet1(s[0] as int, 0)), Pad, Pad]
    else if |s| == 2 then
      [Digit(Sextet0(s[0] as int)), Digit(Sextet1(s[0] as int, s[1] as int)), Digit(Sextet2(s[1] as int, 0)), Pad]
    else
      [Digit(Sextet0(s[0] as int)), Digit(Sextet1(s[0] as int, s[1] as int)),
       Digit(Sextet2(s[1] as int, s[2] as int)), Digit(Sextet3(s[2] as int))] + Encode(s[3..])
  }

  /** n == 3 * q + r octets make q groups, and one more for a short final group of r. */
  lemma {:induction false} GroupsOf(n: nat, q: nat, r: nat)
    requires n == 3 * q + r && r < 3
    ensures Groups(n) == q + (if r > 0 then 1 else 0)
    decreases q
  {
    if q > 0 {
      GroupsOf(n - 3, q - 1, r);
    }
  }

  /** More octets than q whole groups need more than q groups. */
  lemma {:induction false} GroupsBound(n: nat, q: nat)
    requires 3 * q < n
    ensures Groups(n) >= q + 1
  {
    if q > 0 {
      GroupsBound(n - 3, q - 1);
    }
  }

  /** The output written after 3 * q + r of n octets fits in the encoding's length. */
  lemma GroupsCover(n: nat, q: nat, r: nat)
    requires 3 * q + r <= n && r < 3
    ensures 4 * q + r <= 4 * Groups(n)
  {
    if r > 0 {
      GroupsBound(n, q);
    } else if q > 0 {
      GroupsBound(n, q - 1);
    }
  }

  /** The encoding of n octets has 4 * ceil(n / 3) characters. */
  lemma EncodeLength(s: seq<byte>)
    ensures |Encode(s)| == 4 * ((|s| + 2) / 3)
    ensures |Encode(s)| % 4 == 0
  {
    var q, r := |s| / 3, |s| % 3;
    GroupsOf(|s|, q, r);
    CeilThird(|s|, q, r);
    Fours(Groups(|s|));
  }

  /** n / 3 rounded up, for n written as 3 * q + r. */
  lemma CeilThird(n: nat, q: nat, r: nat)
    requires n == 3 * q + r && r < 3
    ensures (n + 2) / 3 == q + (if r > 0 then 1 else 0)
  {
  }

  /** Encoding works group by group: whole groups in front encode on their own. */
  lemma {:induction false} EncodeAppend(a: seq<byte>, b: seq<byte>, q: nat)
    requires |a| == 3 * q
    ensures Encode(a + b) == Encode(a) + Encode(b)
    decreases q
  {
    if q > 0 {
      assert (a + b)[3..] == a[3..] + b;
      assert (a + b)[..3] == a[..3];
      EncodeAppend(a[3..], b, q - 1);
    } else {
      assert a + b == b;
    }
  }

  // ---------------------------------------------------------------------------
  // What the encoding looks like
  // ---------------------------------------------------------------------------

  /** Every character of an encoding comes from the 65-character table. */
  lemma {:induction false} EncodeAlphabet(s: seq<byte>)
    ensures forall k :: 0 <= k < |Encode(s)| ==> Encode(s)[k] in Alphabet
    decreases |s|
  {
    forall v | 0 <= v < 64 ensures Digit(v) in Alphabet {
      assert Alphabet[v] == Digit(v);
    }
    assert Alphabet[64] == Pad;
    if |s| >= 3 {
      EncodeAlphabet(s[3..]);
      var e := Encode(s);
      forall k | 4 <= k < |e| ensures e[k] in Alphabet {
        assert e[k] == Encode(s[3..])[k - 4];
      }
    }
  }

  /** The number of pad characters after q whole groups and r more octets: none, two or one. */
  function PadCount(r: nat): nat {
    if r == 1 then 2 else if r == 2 then 1 else 0
  }

  /** Exactly the last PadCount characters are pads: at most two, and only at the end. */
  lemma {:induction false} EncodePadding(s: seq<byte>, q: nat, r: nat)
    requires |s| == 3 * q + r && r < 3
    ensures forall k :: 0 <= k < |Encode(s)| ==> (Encode(s)[k] == Pad <==> k >= |Encode(s)| - PadCount(r))
    decreases q
  {
    if q > 0 {
      EncodePadding(s[3..], q - 1, r);
      var e := Encode(s);
      forall k | 4 <= k < |e| ensures e[k] == Encode(s[3..])[k - 4] {
      }
      GroupsOf(|s[3..]|, q - 1, r);
    }
  }

  // ---------------------------------------------------------------------------
  // Decoding, the inverse that pins the encoding down
  // ---------------------------------------------------------------------------

  /** The value of a base64 digit (Table 1 of RFC 4648); any other character reads as 0. */
  function DigitValue(c: char): (v: int)
    ensures 0 <= v < 64
  {
    if 'A' <= c <= 'Z' then c as int - 'A' as int
    else if 'a' <= c <= 'z' then c as int - 'a' as int + 26
    else if '0' <= c <= '9' then c as int - '0' as int + 52
    else if c == '+' then 62
    else if c == '/' then 63
    else 0
  }

  /** Digits are told apart by their values. */
  lemma DigitValueOf(v: int)
    requires 0 <= v < 64
    ensures DigitValue(Digit(v)) == v
  {
  }

  /** The three octets carried by the digits a b c d of a group. */
  function Octet0(a: int, b: int): (o: byte)
    requires 0 <= a < 64 && 0 <= b < 64
  {
    (a * 4 + b / 16) as byte
  }

  function Octet1(b: int, c: int): (o: byte)
    requires 0 <= b < 64 && 0 <= c < 64
  {
    (b % 16 * 16 + c / 4) as byte
  }

  function Octet2(c: int, d: int): (o: byte)
    requires 0 <= c < 64 && 0 <= d < 64
  {
    (c % 4 * 64 + d) as byte
  }

  /** Section 4 of RFC 4648 read backwards: four digits give three octets, fewer before the pads. */
  function Decode(e: seq<char>): (s: seq<byte>)
    decreases |e|
  {
    if |e| < 4 then []
    else
      var (a, b, c, d) := (DigitValue(e[0]), DigitValue(e[1]), DigitValue(e[2]), DigitValue(e[3]));
      if e[2] == Pad then [Octet0(a, b)]
      else if e[3] == Pad then [Octet0(a, b), Octet1(b, c)]
      else [Octet0(a, b), Octet1(b, c), Octet2(c, d)] + Decode(e[4..])
  }

  /** The digits of one group give its octets back. */
  lemma GroupBack(b0: byte, b1: byte, b2: byte)
    ensures Octet0(Sextet0(b0 as int), Sextet1(b0 as int, b1 as int)) == b0
    ensures Octet1(Sextet1(b0 as int, b1 as int), Sextet2(b1 as int, b2 as int)) == b1
    ensures Octet2(Sextet2(b1 as int, b2 as int), Sextet3(b2 as int)) == b2
  {
    DivMulAdd(b0 as int % 4, 16, b1 as int / 16);
    DivMulAdd(b1 as int % 16, 4, b2 as int / 64);
  }

  /** The digits that one, two or three octets produce, read back. */
  lemma DigitsBack(b0: byte, b1: byte, b2: byte)
    ensures DigitValue(Digit(Sextet0(b0 as int))) == Sextet0(b0 as int)
    ensures DigitValue(Digit(Sextet1(b0 as int, b1 as int))) == Sextet1(b0 as int, b1 as int)
    ensures DigitValue(Digit(Sextet2(b1 as int, b2 as int))) == Sextet2(b1 as int, b2 as int)
    ensures DigitValue(Digit(Sextet3(b2 as int))) == Sextet3(b2 as int)
  {
    DigitValueOf(Sextet0(b0 as int));
    DigitValueOf(Sextet1(b0 as int, b1 as int));
    DigitValueOf(Sextet2(b1 as int, b2 as int));
    DigitValueOf(Sextet3(b2 as int));
  }

  /** A whole group decodes to its three octets, and decoding carries on after it. */
  lemma DecodeGroup(s: seq<byte>, rest: seq<char>)
    requires |s| == 3
    ensures Decode(Encode(s) + rest) == s + Decode(rest)
  {
    var (b0, b1, b2) := (s[0], s[1], s[2]);
    assert s == [b0, b1, b2];
    var (v0, v1, v2, v3) := (Sextet0(b0 as int), Sextet1(b0 as int, b1 as int), Sextet2(b1 as int, b2 as int), Sextet3(b2 as int));
    var e := Encode(s) + rest;
    assert Encode(s) == [Digit(v0), Digit(v1), Digit(v2), Digit(v3)] by {
      assert s[3..] == [];
    }
    DigitsBack(b0, b1, b2);
    assert e[0] == Digit(v0) && e[1] == Digit(v1) && e[2] == Digit(v2) && e[3] == Digit(v3);
    assert e[4..] == rest;
    assert Decode(e) == [Octet0(v0, v1), Octet1(v1, v2), Octet2(v2, v3)] + Decode(rest);
    GroupBack(b0, b1, b2);
  }

  /** A final group of one octet decodes to it. */
  lemma DecodeOne(s: seq<byte>)
    requires |s| == 1
    ensures Decode(Encode(s)) == s
  {
    var b0 := s[0];
    assert s == [b0];
    var (v0, v1) := (Sextet0(b0 as int), Sextet1(b0 as int, 0));
    var e := [Digit(v0), Digit(v1), Pad, Pad];
    assert Encode(s) == e;
    DigitsBack(b0, 0, 0);
    assert Decode(e) == [Octet0(v0, v1)];
    GroupBack(b0, 0, 0);
  }

  /** A final group of two octets decodes to them. */
  lemma DecodeTwo(s: seq<byte>)
    requires |s| == 2
    ensures Decode(Encode(s)) == s
  {
    var (b0, b1) := (s[0], s[1]);
    assert s == [b0, b1];
    var (v0, v1, v2) := (Sextet0(b0 as int), Sextet1(b0 as int, b1 as int), Sextet2(b1 as int, 0));
    var e := [Digit(v0), Digit(v1), Digit(v2), Pad];
    assert Encode(s) == e;
    DigitsBack(b0, b1, 0);
    assert Decode(e) == [Octet0(v0, v1), Octet1(v1, v2)];
    GroupBack(b0, b1, 0);
  }

  /** Decoding an encoding gives the octets back: the encoding loses nothing. */
  lemma {:induction false} DecodeEncode(s: seq<byte>)
    ensures Decode(Encode(s)) == s
    decreases |s|
  {
    if |s| == 1 {
      DecodeOne(s);
    } else if |s| == 2 {
      DecodeTwo(s);
    } else if |s| >= 3 {
      DecodeEncode(s[3..]);
      DecodeGroup(s[..3], Encode(s[3..]));
      assert Encode(s) == Encode(s[..3]) + Encode(s[3..]) by {
        assert s[..3][3..] == [];
        assert s[..3][..] == s[..3];
        assert s[3..] == s[..3][3..] + s[3..];
      }
      assert s == s[..3] + s[3..];
    }
  }

  // ---------------------------------------------------------------------------
  // The encoder, as the source writes it
  // ---------------------------------------------------------------------------

  /** What the source has written after q whole groups and r octets of the next one. */
  function Partial(s: seq<byte>, q: nat, r: nat): (p: seq<char>)
    requires r < 3 && 3 * q + r <= |s|
  {
    var g := 3 * q;
    Encode(s[..g]) +
      (if r == 0 then []
       else if r == 1 then [Digit(Sextet0(s[g] as int))]
       else [Digit(Sextet0(s[g] as int)), Digit(Sextet1(s[g] as int, s[g + 1] as int))])
  }

  lemma PartialLength(s: seq<byte>, q: nat, r: nat)
    requires r < 3 && 3 * q + r <= |s|
    ensures |Partial(s, q, r)| == 4 * q + r
  {
    GroupsOf(3 * q, q, 0);
  }

  /** x >> n: n halvings. */
  function Shr(x: nat, n: nat): nat
  {
    if n == 0 then x else Shr(x, n - 1) / 2
  }

  /** x << n: n doublings. */
  function Shl(x: nat, n: nat): nat
  {
    if n == 0 then x else Shl(x, n - 1) * 2
  }

  /** The shifts the encoder performs, as divisions and multiplications by powers of two. */
  lemma ShrValues(y: nat)
    ensures Shr(y, 0) == y && Shr(y, 2) == y / 4 && Shr(y, 4) == y / 16 && Shr(y, 6) == y / 64
  {
    assert Shr(y, 1) == y / 2;
    assert Shr(y, 2) == y / 4;
    assert Shr(y, 3) == y / 8;
    assert Shr(y, 4) == y / 16;
    assert Shr(y, 5) == y / 32;
  }

  lemma ShlValues(y: nat)
    ensures Shl(y, 2) == y * 4 && Shl(y, 4) == y * 16
  {
    assert Shl(y, 1) == y * 2;
    assert Shl(y, 3) == y * 8;
  }

  /** The digits the inner loop emits from accumulator x holding l unread bits. */
  function Drain(x: nat, l: int): seq<char>
    decreases l
  {
    if l < 6 then [] else [Digit(Shr(x, l - 6) % 64)] + Drain(x, l - 6)
  }

  // Division facts for the shifts the encoder performs (the divisors are powers of two).

  lemma DivMulAdd(a: int, m: int, c: int)
    requires m in {4, 16, 64, 256} && 0 <= c < m
    ensures (a * m + c) / m == a && (a * m + c) % m == c
  {
    if m == 4 {
    } else if m == 16 {
    } else if m == 64 {
    } else {
    }
  }

  /** Remainders of x modulo 4 and 16 are those of its low octet. */
  lemma LowBits(x: nat, b: int)
    requires x % 256 == b
    ensures x % 4 == b % 4 && x % 16 == b % 16
  {
    DivMulAdd(x / 256 * 64 + b / 4, 4, b % 4);
    assert x == (x / 256 * 64 + b / 4) * 4 + b % 4;
    DivMulAdd(x / 256 * 16 + b / 16, 16, b % 16);
    assert x == (x / 256 * 16 + b / 16) * 16 + b % 16;
  }

  /** Shifting octet b into x leaves b as the low octet. */
  lemma ShiftIn(x: nat, b: int)
    requires 0 <= b < 256
    ensures (x * 256 + b) % 256 == b
  {
    DivMulAdd(x, 256, b);
  }

  /** Fewer than twelve unread bits, and at least six: the drain emits one digit. */
  lemma DrainOneDigit(y: nat, l: nat)
    requires 6 <= l < 12
    ensures Drain(y, l) == [Digit(Shr(y, l - 6) % 64)]
  {
    assert Drain(y, l - 6) == [];
  }

  /** Twelve unread bits: the drain emits two digits and empties the accumulator. */
  lemma DrainTwoDigits(y: nat)
    ensures Drain(y, 12) == [Digit(y / 64 % 64), Digit(y % 64)]
  {
    ShrValues(y);
    DrainOneDigit(y, 6);
  }

  /** The top six bits of the first octet, shifted in last. */
  lemma FirstBits(x: nat, b: int)
    requires 0 <= b < 256
    ensures (x * 256 + b) / 4 % 64 == Sextet0(b)
  {
    DivMulAdd(x * 64 + b / 4, 4, b % 4);
    assert x * 256 + b == (x * 64 + b / 4) * 4 + b % 4;
    DivMulAdd(x, 64, b / 4);
  }

  /** The low two bits of b0 and the top four of b, shifted in last. */
  lemma SecondBits(x: nat, b0: int, b: int)
    requires 0 <= b0 < 256 && 0 <= b < 256 && x % 256 == b0
    ensures (x * 256 + b) / 16 % 64 == Sextet1(b0, b)
  {
    LowBits(x, b0);
    var q, r := x / 4, x % 4;
    assert x * 256 + b == (q * 64 + r * 16 + b / 16) * 16 + b % 16;
    DivMulAdd(q * 64 + r * 16 + b / 16, 16, b % 16);
    DivMulAdd(q, 64, r * 16 + b / 16);
  }

  /** The low four bits of b1 and the top two of b, then the low six of b. */
  lemma ThirdBits(x: nat, b1: int, b: int)
    requires 0 <= b1 < 256 && 0 <= b < 256 && x % 256 == b1
    ensures (x * 256 + b) / 64 % 64 == Sextet2(b1, b) && (x * 256 + b) % 64 == Sextet3(b)
  {
    LowBits(x, b1);
    var q, r := x / 16, x % 16;
    var hi := q * 64 + r * 4 + b / 64;
    assert x * 256 + b == hi * 64 + b % 64;
    DivMulAdd(hi, 64, b % 64);
    DivMulAdd(q, 64, r * 4 + b / 64);
  }

  /** Reading the first octet of a group, with 8 unread bits: one digit. */
  lemma DrainFirst(x: nat, b: int)
    requires 0 <= b < 256
    ensures Drain(x * 256 + b, 8) == [Digit(Sextet0(b))]
  {
    ShrValues(x * 256 + b);
    DrainOneDigit(x * 256 + b, 8);
    FirstBits(x, b);
  }

  /** Reading the second octet b0 b1, with 10 unread bits: one digit. */
  lemma DrainSecond(x: nat, b0: int, b: int)
    requires 0 <= b0 < 256 && 0 <= b < 256 && x % 256 == b0
    ensures Drain(x * 256 + b, 10) == [Digit(Sextet1(b0, b))]
  {
    ShrValues(x * 256 + b);
    DrainOneDigit(x * 256 + b, 10);
    SecondBits(x, b0, b);
  }

  /** Reading the third octet, with 12 unread bits: two digits, and the accumulator is empty. */
  lemma DrainThird(x: nat, b1: int, b: int)
    requires 0 <= b1 < 256 && 0 <= b < 256 && x % 256 == b1
    ensures Drain(x * 256 + b, 12) == [Digit(Sextet2(b1, b)), Digit(Sextet3(b))]
  {
    DrainTwoDigits(x * 256 + b);
    ThirdBits(x, b1, b);
  }

  /** The flushed digit of a short final group is the one the standard fills with zero bits. */
  lemma FlushBits(x: nat, b: int, l: nat)
    requires 0 <= b < 256 && x % 256 == b && (l == 2 || l == 4)
    ensures l == 2 ==> Shl(x, 6 - l) % 64 == Sextet1(b, 0)
    ensures l == 4 ==> Shl(x, 6 - l) % 64 == Sextet2(b, 0)
  {
    ShlValues(x);
    LowBits(x, b);
    assert x * 16 == (x / 4) * 64 + x % 4 * 16;
    DivMulAdd(x / 4, 64, x % 4 * 16);
    assert x * 4 == (x / 16) * 64 + x % 16 * 4;
    DivMulAdd(x / 16, 64, x % 16 * 4);
  }

  /** A third octet completes a group: the partial output becomes the encoding of whole groups. */
  lemma CompleteGroup(s: seq<byte>, q: nat)
    requires 3 * q + 3 <= |s|
    ensures Partial(s, q, 2) + [Digit(Sextet2(s[3 * q + 1] as int, s[3 * q + 2] as int)), Digit(Sextet3(s[3 * q + 2] as int))]
         == Partial(s, q + 1, 0)
  {
    var g := 3 * q;
    var t := s[g..g + 3];
    assert s[..g + 3] == s[..g] + t;
    EncodeAppend(s[..g], t, q);
    assert t[3..] == [];
    assert 3 * (q + 1) == g + 3;
  }

  /** The position after reading one more octet: the next octet of the group, or a new group. */
  function Advance(q: nat, r: nat): (p: (nat, nat))
    requires r < 3
    ensures 3 * p.0 + p.1 == 3 * q + r + 1 && p.1 < 3
  {
    if r < 2 then (q, r + 1) else (q + 1, 0)
  }

  /** One turn of the outer loop: shifting the next octet b in and draining extends the partial output. */
  lemma ReadDigits(s: seq<byte>, q: nat, r: nat, x: nat, b: int)
    requires r < 3 && 3 * q + r < |s| && b == s[3 * q + r] as int
    requires r > 0 ==> x % 256 == s[3 * q + r - 1] as int
    ensures Partial(s, q, r) + Drain(x * 256 + b, 2 * r + 8) == Partial(s, Advance(q, r).0, Advance(q, r).1)
  {
    if r == 0 {
      ReadFirst(s, q, r, x, b);
    } else if r == 1 {
      ReadSecond(s, q, r, x, b);
    } else {
      ReadThird(s, q, r, x, b);
    }
  }

  lemma ReadFirst(s: seq<byte>, q: nat, r: nat, x: nat, b: int)
    requires r == 0 && 3 * q < |s| && b == s[3 * q] as int
    ensures Partial(s, q, r) + Drain(x * 256 + b, 2 * r + 8) == Partial(s, Advance(q, r).0, Advance(q, r).1)
  {
    var e := Encode(s[..3 * q]);
    DrainFirst(x, b);
    assert Partial(s, q, r) == e + [];
    assert Partial(s, q, 1) == e + [Digit(Sextet0(b))];
    assert e + [] + [Digit(Sextet0(b))] == e + [Digit(Sextet0(b))];
  }

  lemma ReadSecond(s: seq<byte>, q: nat, r: nat, x: nat, b: int)
    requires r == 1 && 3 * q + 1 < |s| && b == s[3 * q + 1] as int && x % 256 == s[3 * q] as int
    ensures Partial(s, q, r) + Drain(x * 256 + b, 2 * r + 8) == Partial(s, Advance(q, r).0, Advance(q, r).1)
  {
    DrainSecond(x, s[3 * q] as int, b);
  }

  lemma ReadThird(s: seq<byte>, q: nat, r: nat, x: nat, b: int)
    requires r == 2 && 3 * q + 2 < |s| && b == s[3 * q + 2] as int && x % 256 == s[3 * q + 1] as int
    ensures Partial(s, q, r) + Drain(x * 256 + b, 2 * r + 8) == Partial(s, Advance(q, r).0, Advance(q, r).1)
  {
    DrainThird(x, s[3 * q + 1] as int, b);
    CompleteGroup(s, q);
  }

  /** The output index and the unread bits after one turn of the outer loop. */
  lemma AdvanceCounts(q: nat, r: nat, i0: nat, l0: nat, i: nat, l: nat)
    requires r < 3 && l0 == 2 * r && i0 == 4 * q + r
    requires 6 * (i - i0) + l == l0 + 8 && 0 <= l < 6
    ensures i == 4 * Advance(q, r).0 + Advance(q, r).1 && l == 2 * Advance(q, r).1
  {
  }

  /** Room for the digits of one more octet, when the output has room for the position reached. */
  lemma RoomFor(q: nat, r: nat, i0: nat, l0: nat, len: int)
    requires r < 3 && l0 == 2 * r && i0 == 4 * q + r
    requires 4 * Advance(q, r).0 + Advance(q, r).1 < len
    ensures 6 * (len - i0) + 5 >= l0 + 8
  {
  }

  /** Quotient and remainder by three of a number written as 3 * a + c. */
  /** The bits left unread after k octets: two more per octet, none after a whole group. */
  function Unread(k: nat): nat {
    if k == 0 then 0 else if Unread(k - 1) == 4 then 0 else Unread(k - 1) + 2
  }

  lemma {:induction false} UnreadCount(q: nat, r: nat, k: nat)
    requires r < 3 && k == 3 * q + r
    ensures Unread(k) == 2 * r
    decreases k
  {
    if r > 0 {
      UnreadCount(q, r - 1, k - 1);
    } else if q > 0 {
      UnreadCount(q - 1, 2, k - 1);
    }
  }

  /** The accumulator x after the first k octets have been shifted in. */
  function Acc(s: seq<byte>, k: nat): nat
    requires k <= |s|
  {
    if k == 0 then 0 else Acc(s, k - 1) * 256 + s[k - 1] as int
  }

  /** The low octet of the accumulator is the last octet shifted in. */
  lemma AccLow(s: seq<byte>, k: nat)
    requires 0 < k <= |s|
    ensures Acc(s, k) % 256 == s[k - 1] as int
  {
    ShiftIn(Acc(s, k - 1), s[k - 1] as int);
  }

  /** The digits the outer loop has written after the first k octets: each octet adds
   *  8 bits to those left unread before it, and the inner loop drains them. */
  function Written(s: seq<byte>, k: nat): seq<char>
    requires k <= |s|
  {
    if k == 0 then [] else Written(s, k - 1) + Drain(Acc(s, k), Unread(k - 1) + 8)
  }

  /** One more octet shifted in and drained extends what is written. */
  lemma WrittenStep(s: seq<byte>, k: nat, q: nat, r: nat, x: nat, b: int, l: nat)
    requires k < |s| && k == 3 * q + r && r < 3 && l == 2 * r
    requires x == Acc(s, k) && b == s[k] as int
    ensures Acc(s, k + 1) == x * 256 + b
    ensures Written(s, k + 1) == Written(s, k) + Drain(x * 256 + b, l + 8)
  {
    UnreadCount(q, r, k);
  }

  /** A turn of the outer loop takes what is written in step with the partial output: k octets
   *  read at position (q0, r0), k1 == k + 1 at the next position (q, r). */
  lemma WrittenNext(s: seq<byte>, q0: nat, r0: nat, k: nat, q: nat, r: nat, k1: nat)
    requires r0 < 3 && k == 3 * q0 + r0 && k < |s| && k1 == k + 1 && (q, r) == Advance(q0, r0)
    requires Written(s, k) == Partial(s, q0, r0)
    ensures Written(s, k1) == Partial(s, q, r)
  {
    var x, b := Acc(s, k), s[k] as int;
    WrittenStep(s, k, q0, r0, x, b, 2 * r0);
    if r0 > 0 {
      AccLow(s, k);
    }
    ReadDigits(s, q0, r0, x, b);
  }

  /** Nothing is written before the first octet. */
  lemma WrittenNone(s: seq<byte>)
    ensures Written(s, 0) == Partial(s, 0, 0)
  {
    assert Partial(s, 0, 0) == Encode(s[..0]) + [];
  }

  /** The digits written after k == 3 * q + r octets are the encoding of the q whole groups
   *  followed by the digits of the group begun. */
  lemma {:induction false} WrittenPartial(s: seq<byte>, q: nat, r: nat, k: nat)
    requires r < 3 && k == 3 * q + r && k <= |s|
    ensures Written(s, k) == Partial(s, q, r)
    decreases k
  {
    if k == 0 {
      WrittenNone(s);
    } else {
      var q0, r0 := if r > 0 then q else q - 1, if r > 0 then r - 1 else 2;
      WrittenPartial(s, q0, r0, k - 1);
      WrittenNext(s, q0, r0, k - 1, q, r, k);
    }
  }

  /** After the last octet, what is written is the partial output of the counts reached. */
  lemma ReadAll(s: seq<byte>, q: nat, r: nat)
    requires |s| == 3 * q + r && r < 3
    ensures Written(s, |s|) == Partial(s, q, r)
  {
    WrittenPartial(s, q, r, |s|);
  }

  /** A final group of one octet: its digit, the flush digit and two pads finish the encoding. */
  lemma FinishOne(s: seq<byte>, q: nat)
    requires |s| == 3 * q + 1
    ensures Partial(s, q, 1) + [Digit(Sextet1(s[3 * q] as int, 0)), Pad, Pad] == Encode(s)
  {
    var g := 3 * q;
    var t, u := s[..g], s[g..];
    assert s == t + u;
    assert u == [s[g]];
    EncodeAppend(t, u, q);
  }

  /** A final group of two octets: their digits, the flush digit and one pad finish the encoding. */
  lemma FinishTwo(s: seq<byte>, q: nat)
    requires |s| == 3 * q + 2
    ensures Partial(s, q, 2) + [Digit(Sextet2(s[3 * q + 1] as int, 0)), Pad] == Encode(s)
  {
    var g := 3 * q;
    var t, u := s[..g], s[g..];
    assert s == t + u;
    assert u == [s[g], s[g + 1]];
    EncodeAppend(t, u, q);
  }

  /** The table the source indexes holds digit v at index v. */
  lemma AlphabetAt(v: int)
    requires 0 <= v < 64
    ensures Alphabet[v] == Digit(v)
  {
  }

  /** One digit more of the drain moves it from the bits still unread to the output. */
  lemma DrainStep(done: seq<char>, x: nat, l: nat, l0: nat)
    requires l >= 6 && done + Drain(x, l) == Drain(x, l0)
    ensures (done + [Digit(Shr(x, l - 6) % 64)]) + Drain(x, l - 6) == Drain(x, l0)
  {
    assert Drain(x, l) == [Digit(Shr(x, l - 6) % 64)] + Drain(x, l - 6);
  }

  /** The inner loop of the source: emit a digit while six bits are unread. */
  method DrainBits(out: array<char>, i0: nat, x: nat, l0: nat) returns (i: nat, l: nat)
    requires 6 * (out.Length - i0) + 5 >= l0
    modifies out
    ensures l < 6 && 6 * (i - i0) + l == l0
    ensures forall j :: 0 <= j < i0 ==> out[j] == old(out[j])
    ensures out[i0..i] == Drain(x, l0)
    ensures forall j :: i <= j < out.Length ==> out[j] == old(out[j])
  {
    i, l := i0, l0;
    while l >= 6
      invariant i0 <= i && l0 == 6 * (i - i0) + l
      invariant 6 * (out.Length - i) + 5 >= l
      invariant forall j :: 0 <= j < i0 ==> out[j] == old(out[j])
      invariant out[i0..i] + Drain(x, l) == Drain(x, l0)
      invariant forall j :: i <= j < out.Length ==> out[j] == old(out[j])
      decreases l
    {
      ghost var done := out[i0..i];
      var v := Shr(x, l - 6) % 64;
      DrainStep(done, x, l, l0);
      AlphabetAt(v);
      out[i] := Alphabet[v];
      assert out[i0..i + 1] == done + [Digit(v)];
      i := i + 1;
      l := l - 6;
    }
  }

  /** One turn of the outer loop: shift octet b into x and drain, after the output done. */
  method ReadOne(out: array<char>, i0: nat, x0: nat, l0: nat, b: int, ghost done: seq<char>) returns (i: nat, x: nat, l: nat)
    requires 0 <= b < 256 && 6 * (out.Length - i0) + 5 >= l0 + 8 && out[..i0] == done
    modifies out
    ensures x == x0 * 256 + b
    ensures l < 6 && 6 * (i - i0) + l == l0 + 8
    ensures out[..i] == done + Drain(x0 * 256 + b, l0 + 8)
    ensures forall j :: i <= j < out.Length ==> out[j] == old(out[j])
  {
    x := x0 * 256 + b;
    i, l := DrainBits(out, i0, x, l0 + 8);
    assert out[..i0] == done;
    assert out[..i] == out[..i0] + out[i0..i];
  }

  /** The outer loop of the source: shift each octet of src into the accumulator and drain it. */
  method ReadOctets(out: array<char>, src: array<char>, ghost s: seq<byte>) returns (i: nat, x: nat, l: nat, ghost q: nat, ghost r: nat)
    requires out != src
    requires NUL in src[..] && Ascii(CText(src[..])) && s == Bytes(CText(src[..]))
    requires 4 * Groups(|s|) < out.Length
    modifies out
    ensures |s| == 3 * q + r && r < 3 && l == 2 * r && i == 4 * q + r && i <= 4 * Groups(|s|)
    ensures x == Acc(s, |s|) && out[..i] == Written(s, |s|)
    ensures forall j :: i <= j < out.Length ==> out[j] == old(out[j])
  {
    ghost var text := CText(src[..]);
    ghost var n := |s|;
    i, l, x := 0, 0, 0;
    q, r := 0, 0;
    var k := 0;
    while src[k] != NUL
      invariant k == 3 * q + r && r < 3 && k <= n
      invariant l == 2 * r && i == 4 * q + r && i <= 4 * Groups(n)
      invariant x == Acc(s, k) && out[..i] == Written(s, k)
      invariant forall j :: i <= j < out.Length ==> out[j] == old(out[j])
      decreases n - k
    {
      assert k < n;
      var b := src[k] as int;
      assert b == s[k] as int by { assert text[k] == src[k]; }
      ghost var q', r' := Advance(q, r).0, Advance(q, r).1;
      GroupsCover(n, q', r');
      RoomFor(q, r, i, l, out.Length);
      WrittenStep(s, k, q, r, x, b, l);
      ghost var i0, l0 := i, l;
      i, x, l := ReadOne(out, i, x, l, b, Written(s, k));
      AdvanceCounts(q, r, i0, l0, i, l);
      q, r := q', r';
      k := k + 1;
    }
    FirstNul(src[..], k);
  }

  /** The digit the flush writes after the partial output, if any bits are left unread. */
  function Flushed(x0: nat, l: nat): (d: seq<char>)
    requires l < 6
  {
    if l > 0 then [Digit(Shl(x0, 6 - l) % 64)] else []
  }

  /** What the pad loop needs of the encoding e and the digits p written before it. */
  predicate PadsComplete(e: seq<char>, p: seq<char>) {
    |p| <= |e| < |p| + 4 && |e| % 4 == 0 && e[..|p|] == p &&
    forall j :: |p| <= j < |e| ==> e[j] == Pad
  }

  /** The flushed digit of a final group of one octet b: b's low two bits, then zeros. */
  lemma FlushDigitOne(s: seq<byte>, q: nat, x0: nat, l: nat)
    requires |s| == 3 * q + 1 && l == 2 && x0 == Acc(s, |s|)
    ensures Flushed(x0, l) == [Digit(Sextet1(s[3 * q] as int, 0))]
  {
    AccLow(s, |s|);
    FlushBits(x0, s[|s| - 1] as int, l);
  }

  /** The flushed digit of a final group of two octets: the low four bits of the second, then zeros. */
  lemma FlushDigitTwo(s: seq<byte>, q: nat, x0: nat, l: nat)
    requires |s| == 3 * q + 2 && l == 4 && x0 == Acc(s, |s|)
    ensures Flushed(x0, l) == [Digit(Sextet2(s[3 * q + 1] as int, 0))]
  {
    AccLow(s, |s|);
    FlushBits(x0, s[|s| - 1] as int, l);
  }

  /** Digits p, a last digit d and two pads, four characters to a group. */
  lemma PadsTwo(p: seq<char>, d: char, e: seq<char>, a: nat)
    requires e == p + [d, Pad, Pad] && |e| == 4 * a
    ensures PadsComplete(e, p + [d])
  {
    Fours(a);
    assert e[..|p| + 1] == p + [d];
  }

  /** Digits p, a last digit d and one pad, four characters to a group. */
  lemma PadsOne(p: seq<char>, d: char, e: seq<char>, a: nat)
    requires e == p + [d, Pad] && |e| == 4 * a
    ensures PadsComplete(e, p + [d])
  {
    Fours(a);
    assert e[..|p| + 1] == p + [d];
  }

  /** A final group of one octet: the flushed digit and two pads end the encoding. */
  lemma FlushLastOne(s: seq<byte>, q: nat, x0: nat, l: nat)
    requires |s| == 3 * q + 1 && l == 2 && x0 == Acc(s, |s|)
    ensures PadsComplete(Encode(s), Partial(s, q, 1) + Flushed(x0, l))
  {
    FlushDigitOne(s, q, x0, l);
    FinishOne(s, q);
    GroupsOf(|s|, q, 1);
    PadsTwo(Partial(s, q, 1), Digit(Sextet1(s[3 * q] as int, 0)), Encode(s), q + 1);
  }

  /** A final group of two octets: the flushed digit and one pad end the encoding. */
  lemma FlushLastTwo(s: seq<byte>, q: nat, x0: nat, l: nat)
    requires |s| == 3 * q + 2 && l == 4 && x0 == Acc(s, |s|)
    ensures PadsComplete(Encode(s), Partial(s, q, 2) + Flushed(x0, l))
  {
    FlushDigitTwo(s, q, x0, l);
    FinishTwo(s, q);
    GroupsOf(|s|, q, 2);
    PadsOne(Partial(s, q, 2), Digit(Sextet2(s[3 * q + 1] as int, 0)), Encode(s), q + 1);
  }

  lemma Fours(a: nat)
    ensures (4 * a) % 4 == 0
  {
  }

  /** No short final group: the partial output is the whole encoding. */
  lemma FlushNone(s: seq<byte>, q: nat, x0: nat)
    requires |s| == 3 * q
    ensures PadsComplete(Encode(s), Partial(s, q, 0) + Flushed(x0, 0))
  {
    GroupsOf(|s|, q, 0);
    assert s[..3 * q] == s;
    var e := Encode(s);
    assert Partial(s, q, 0) + Flushed(x0, 0) == e;
    assert |e| == 4 * q;
    Fours(q);
    assert e[..|e|] == e;
  }

  /** The partial output and the flushed digit are the encoding without its pads. */
  lemma FlushEncodes(s: seq<byte>, q: nat, r: nat, x0: nat, l: nat)
    requires |s| == 3 * q + r && r < 3 && l == 2 * r && x0 == Acc(s, |s|)
    ensures PadsComplete(Encode(s), Partial(s, q, r) + Flushed(x0, l))
  {
    if r == 1 {
      FlushLastOne(s, q, x0, l);
    } else if r == 2 {
      FlushLastTwo(s, q, x0, l);
    } else {
      FlushNone(s, q, x0);
    }
  }

  /** The flush after the outer loop: the unread bits, filled with zeros, give one more digit. */
  method FlushRest(out: array<char>, i0: nat, x0: nat, l: nat, ghost done: seq<char>) returns (i: nat)
    requires l < 6 && i0 < out.Length && out[..i0] == done
    modifies out
    ensures i <= out.Length && out[..i] == done + Flushed(x0, l)
    ensures forall j :: i <= j < out.Length ==> out[j] == old(out[j])
  {
    i := i0;
    if l > 0 {
      var x := Shl(x0, 6 - l);
      AlphabetAt(x % 64);
      out[i] := Alphabet[x % 64];
      assert out[..i + 1] == out[..i] + [out[i]];
      i := i + 1;
    }
  }

  /** The pad loop: '=' until the output length is a multiple of four. */
  method PadOut(out: array<char>, i0: nat, ghost e: seq<char>) returns (i: nat)
    requires i0 <= out.Length && PadsComplete(e, out[..i0]) && |e| < out.Length
    modifies out
    ensures i == |e| && out[..i] == e
    ensures forall j :: i <= j < out.Length ==> out[j] == old(out[j])
  {
    i := i0;
    while i % 4 != 0
      invariant i0 <= i <= |e| < i + 4
      invariant out[..i] == e[..i]
      invariant forall j :: i <= j < |e| ==> e[j] == Pad
      invariant forall j :: i <= j < out.Length ==> out[j] == old(out[j])
      decreases |e| - i
    {
      out[i] := Pad;
      assert out[..i + 1] == out[..i] + [out[i]];
      i := i + 1;
    }
  }

  /** The encoding of the C string buffer b holds: four characters for each group of its octets. */
  function CEncode(b: seq<char>): (e: seq<char>)
    requires NUL in b && Ascii(CText(b))
    ensures |e| == 4 * Groups(CLen(b))
  {
    Encode(Bytes(CText(b)))
  }

  /**
   * _http_client_base64enc(out, in): writes the encoding of the C string in src into out,
   * followed by a NUL, and leaves the rest of out alone.
   */
  method Base64Enc(out: array<char>, src: array<char>)
    requires out != src
    requires NUL in src[..] && Ascii(CText(src[..]))
    requires 4 * Groups(CLen(src[..])) < out.Length
    modifies out
    ensures var e := CEncode(src[..]);
            out[..|e|] == e && out[|e|] == NUL && forall j :: |e| < j < out.Length ==> out[j] == old(out[j])
  {
    ghost var s := Bytes(CText(src[..]));
    ghost var e := CEncode(src[..]);
    assert e == Encode(s);
    var i, x, l;
    ghost var q, r;
    i, x, l, q, r := ReadOctets(out, src, s);
    ReadAll(s, q, r);
    i := FlushRest(out, i, x, l, Partial(s, q, r));
    FlushEncodes(s, q, r, x, l);
    i := PadOut(out, i, e);
    out[i] := NUL;
  }

  // ---------------------------------------------------------------------------
  // The authorization line of _http_client_send_auth
  // ---------------------------------------------------------------------------

  /** HTTP_CLIENT_AUTHB_SIZE. */
  const AuthbSize: nat := 128

  /** The most characters that snprintf leaves in base64buff[HTTP_CLIENT_AUTHB_SIZE + 3]. */
  const CredentialMax: nat := AuthbSize + 2

  /** The size of b_auth as declared: (HTTP_CLIENT_AUTHB_SIZE + 3) * 4 / 3 + 1, that is 175. */
  const AuthBufAsWritten: nat := (AuthbSize + 3) * 4 / 3 + 1

  /** A size of b_auth that holds the encoding of CredentialMax characters, a '\n' and a NUL. */
  const AuthBuf: nat := 4 * ((CredentialMax + 2) / 3) + 2

  /** The number of groups of n octets is n / 3 rounded up. */
  lemma GroupsCeil(n: nat)
    ensures Groups(n) == (n + 2) / 3
  {
    GroupsOf(n, n / 3, n % 3);
    CeilThird(n, n / 3, n % 3);
  }

  /**
   * The b_auth as declared holds the encoding of credentials of n characters, and the '\n' and
   * NUL written after it, exactly when n is below CredentialMax: snprintf lets through 130
   * characters, whose encoding of 176 characters and NUL base64enc writes past the 175 bytes.
   */
  lemma AuthBufferShort(n: nat)
    requires n <= CredentialMax
    ensures 4 * Groups(n) < AuthBufAsWritten <==> n < CredentialMax
    ensures 4 * Groups(n) + 2 <= AuthBufAsWritten <==> n < CredentialMax
    ensures 4 * Groups(CredentialMax) + 1 == AuthBufAsWritten + 2
  {
    GroupsCeil(n);
    GroupsCeil(CredentialMax);
  }

  /** Credentials that fit base64buff fit the corrected b_auth with the '\n' and NUL after them. */
  lemma AuthBufFits(n: nat)
    requires n <= CredentialMax
    ensures 4 * Groups(n) + 2 <= AuthBuf
  {
    GroupsCeil(n);
  }

  /** No encoding holds a NUL: every character is a table digit or '='. */
  lemma EncodeNoNul(s: seq<byte>)
    ensures NoNul(Encode(s))
  {
    EncodeAlphabet(s);
    forall k | 0 <= k < |Encode(s)| ensures Encode(s)[k] != NUL {
      var i :| 0 <= i < |Alphabet| && Alphabet[i] == Encode(s)[k];
      if i < 64 {
        assert Alphabet[i] == Digit(i);
      } else {
        assert Alphabet[i] == Pad;
      }
    }
  }

  /** buf holds the text e followed by a '\n' and a NUL. */
  predicate HoldsLine(buf: seq<char>, e: seq<char>) {
    |e| + 2 <= |buf| && buf[..|e| + 2] == e + ['\n', NUL]
  }

  /** A buffer holding a NUL-free text, a '\n' and a NUL holds that text and the '\n' as a C string. */
  lemma LineText(buf: seq<char>, e: seq<char>)
    requires HoldsLine(buf, e) && NoNul(e)
    ensures NUL in buf && CText(buf) == e + ['\n']
  {
    assert buf[..|e| + 1] == buf[..|e| + 2][..|e| + 1];
    assert buf[|e| + 1] == buf[..|e| + 2][|e| + 1];
    CLenAt(buf, |e| + 1);
  }

  /** strlen of a buffer that holds a NUL-free text e and then a NUL is |e|. */
  lemma TextAt(buf: seq<char>, e: seq<char>)
    requires |e| < |buf| && buf[..|e|] == e && buf[|e|] == NUL && NoNul(e)
    ensures NUL in buf && CLen(buf) == |e|
  {
    CLenAt(buf, |e|);
  }

  /** Storing a NUL one past the end of the text leaves strlen where it was. */
  lemma NulPastText(b0: seq<char>, e: seq<char>)
    requires |e| + 2 <= |b0| && b0[..|e|] == e && b0[|e|] == NUL && NoNul(e)
    ensures NUL in b0[|e| + 1 := NUL] && CLen(b0[|e| + 1 := NUL]) == |e|
  {
    assert b0[|e| + 1 := NUL][..|e|] == e;
    CLenAt(b0[|e| + 1 := NUL], |e|);
  }

  /** The two stores of lines 215-216 turn the text and its NUL into the text, a '\n' and a NUL. */
  lemma BreakAfterText(b0: seq<char>, e: seq<char>)
    requires |e| + 2 <= |b0| && b0[..|e|] == e && b0[|e|] == NUL
    ensures HoldsLine(b0[|e| + 1 := NUL][|e| := '\n'], e)
  {
    var b2 := b0[|e| + 1 := NUL][|e| := '\n'];
    assert b2[..|e| + 2] == e + ['\n', NUL] by {
      forall j | 0 <= j < |e| + 2 ensures b2[..|e| + 2][j] == (e + ['\n', NUL])[j] {
        if j < |e| {
          assert b0[..|e|][j] == b0[j];
        }
      }
    }
  }

  /**
   * Lines 208-216 of _http_client_send_auth with b_auth of AuthBuf bytes: the credentials that
   * snprintf left in src are encoded into b_auth, then a NUL is stored one past the end of the
   * encoding and the encoding's own NUL becomes '\n', so that b_auth holds the encoding and a
   * line break as a C string.
   */
  method AuthLine(src: array<char>) returns (b: array<char>)
    requires NUL in src[..] && Ascii(CText(src[..])) && CLen(src[..]) <= CredentialMax
    ensures fresh(b) && b.Length == AuthBuf
    ensures HoldsLine(b[..], CEncode(src[..])) && NoNul(CEncode(src[..]))
  {
    ghost var e := CEncode(src[..]);
    AuthBufFits(CLen(src[..]));
    b := new char[AuthBuf];
    Base64Enc(b, src);
    EncodeNoNul(Bytes(CText(src[..])));
    ghost var b0 := b[..];
    TextAt(b0, e);
    var n := StrLen(b);
    b[n + 1] := NUL;
    assert b[..] == b0[|e| + 1 := NUL];
    NulPastText(b0, e);
    n := StrLen(b);
    b[n] := '\n';
    assert b[..] == b0[|e| + 1 := NUL][|e| := '\n'];
    BreakAfterText(b0, e);
  }

  /** After AuthLine, b_auth's C string is the encoding of the credentials and a line break. */
  lemma AuthLineText(buf: seq<char>, src: seq<char>)
    requires NUL in src && Ascii(CText(src))
    requires HoldsLine(buf, CEncode(src)) && NoNul(CEncode(src))
    ensures NUL in buf && CText(buf) == CEncode(src) + ['\n']
  {
    LineText(buf, CEncode(src));
  }
}
