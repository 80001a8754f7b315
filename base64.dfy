/**
 * Base64 as the core uses it: `utils.EncodeURLSafeBase64` (the URL- and
 * filename-safe alphabet of section 5 of RFC 4648, padding omitted as
 * section 3.2 allows) and the standard padded encoding that attachment
 * bodies are written in (section 4 of RFC 4648).
 *
 * Encoding is split as the RFC describes it: every 3 input bytes become four
 * 6-bit values, a final group of 1 or 2 bytes becomes 2 or 3 values, and each
 * value is then mapped through the alphabet.
 */
module Base64 {
  import opened Bytes
  import opened Wrappers

  type sextet = v: int | 0 <= v < 64

  datatype Alphabet = Standard | UrlSafe

  /** The character of the alphabet for one 6-bit value (tables 1 and 2 of RFC 4648). */
  function CharOf(a: Alphabet, v: sextet): (c: byte)
    ensures InAlphabet(a, c)
  {
    if v < 26 then ('A' as int + v) as char
    else if v < 52 then ('a' as int + (v - 26)) as char
    else if v < 62 then ('0' as int + (v - 52)) as char
    else if v == 62 then (if a == Standard then '+' else '-')
    else (if a == Standard then '/' else '_')
  }

  predicate InAlphabet(a: Alphabet, c: byte)
  {
    || 'A' <= c <= 'Z'
    || 'a' <= c <= 'z'
    || '0' <= c <= '9'
    || (a == Standard && (c == '+' || c == '/'))
    || (a == UrlSafe && (c == '-' || c == '_'))
  }

  /** The 6-bit value a character stands for, if it belongs to the alphabet. */
  function ValueOf(a: Alphabet, c: byte): (r: Option<sextet>)
    ensures r.Some? <==> InAlphabet(a, c)
  {
    if 'A' <= c <= 'Z' then Some(c as int - 'A' as int)
    else if 'a' <= c <= 'z' then Some(c as int - 'a' as int + 26)
    else if '0' <= c <= '9' then Some(c as int - '0' as int + 52)
    else if a == Standard && c == '+' then Some(62)
    else if a == Standard && c == '/' then Some(63)
    else if a == UrlSafe && c == '-' then Some(62)
    else if a == UrlSafe && c == '_' then Some(63)
    else None
  }

  lemma ValueOfCharOf(a: Alphabet, v: sextet)
    ensures ValueOf(a, CharOf(a, v)) == Some(v)
  {
  }

  const Zero: byte := 0 as char

  /** The four 6-bit values of three bytes, most significant bits first. */
  function GroupValues(b0: byte, b1: byte, b2: byte): (r: seq<sextet>)
    ensures |r| == 4
  {
    [b0 as int / 4, (b0 as int % 4) * 16 + b1 as int / 16, (b1 as int % 16) * 4 + b2 as int / 64, b2 as int % 64]
  }

  /**
   * The 6-bit values of `d`: four for every group of three bytes; a final
   * group of one or two bytes is completed with zero bits and gives its
   * first two or three values (section 4 of RFC 4648).
   */
  function Sextets(d: seq<byte>): (r: seq<sextet>)
    ensures |r| == (4 * |d| + 2) / 3
    decreases |d|
  {
    if |d| == 0 then []
    else if |d| == 1 then GroupValues(d[0], Zero, Zero)[..2]
    else if |d| == 2 then GroupValues(d[0], d[1], Zero)[..3]
    else GroupValues(d[0], d[1], d[2]) + Sextets(d[3..])
  }

  /** The three bytes four 6-bit values stand for. */
  function GroupOctets(v0: sextet, v1: sextet, v2: sextet, v3: sextet): (r: seq<byte>)
    ensures |r| == 3
  {
    [(v0 * 4 + v1 / 16) as char, ((v1 % 16) * 16 + v2 / 4) as char, ((v2 % 4) * 64 + v3) as char]
  }

  /** The bytes that 6-bit values encode; a lone trailing value encodes nothing and is refused. */
  function Octets(vs: seq<sextet>): (r: Option<seq<byte>>)
    decreases |vs|
  {
    if |vs| == 0 then Some([])
    else if |vs| == 1 then None
    else if |vs| == 2 then Some(GroupOctets(vs[0], vs[1], 0, 0)[..1])
    else if |vs| == 3 then Some(GroupOctets(vs[0], vs[1], vs[2], 0)[..2])
    else
      match Octets(vs[4..])
      case None => None
      case Some(rest) => Some(GroupOctets(vs[0], vs[1], vs[2], vs[3]) + rest)
  }

  function Chars(a: Alphabet, vs: seq<sextet>): (r: seq<byte>)
    ensures |r| == |vs|
  {
    seq(|vs|, i requires 0 <= i < |vs| => CharOf(a, vs[i]))
  }

  /** The 6-bit values of the characters of `s`, or None if one is outside the alphabet. */
  function Values(a: Alphabet, s: seq<byte>): (r: Option<seq<sextet>>)
  {
    if s == [] then Some([])
    else match (ValueOf(a, s[0]), Values(a, s[1..]))
      case (Some(v), Some(vs)) => Some([v] + vs)
      case _ => None
  }

  /** The "=" characters that complete the last group of 4 (section 3.2 of RFC 4648). */
  function Padding(n: nat): seq<byte>
  {
    if n % 3 == 1 then "==" else if n % 3 == 2 then "=" else ""
  }

  function Encode(a: Alphabet, d: seq<byte>, pad: bool): seq<byte>
  {
    Chars(a, Sextets(d)) + (if pad then Padding(|d|) else [])
  }

  /** Decoding of unpadded text in the given alphabet. */
  function Decode(a: Alphabet, s: seq<byte>): Option<seq<byte>>
  {
    match Values(a, s)
    case None => None
    case Some(vs) => Octets(vs)
  }

  /** `s` without the one or two "=" that end it. */
  function StripPadding(s: seq<byte>): seq<byte>
  {
    if |s| >= 2 && s[|s| - 2..] == "==" then s[..|s| - 2]
    else if |s| >= 1 && s[|s| - 1] == '=' then s[..|s| - 1]
    else s
  }

  /** Decoding of padded text, whose length is a multiple of 4. */
  function DecodePadded(a: Alphabet, s: seq<byte>): Option<seq<byte>>
  {
    if |s| % 4 != 0 then None else Decode(a, StripPadding(s))
  }

  /**
   * `utils.EncodeURLSafeBase64` (`base64.RawURLEncoding.EncodeToString`):
   * one character of the URL-safe alphabet per 6 bits, no "=" padding, so
   * the length is (4n + 2) / 3 for n input bytes.
   */
  function EncodeURLSafeBase64(input: seq<byte>): (r: seq<byte>)
    ensures |r| == (4 * |input| + 2) / 3
    ensures forall i | 0 <= i < |r| :: InAlphabet(UrlSafe, r[i]) && r[i] != '='
    ensures r == [] <==> input == []
  {
    Encode(UrlSafe, input, false)
  }

  /**
   * `base64.StdEncoding.Encode`: the standard alphabet with "=" padding,
   * 4 characters for every started group of 3 bytes.
   */
  function StdEncode(data: seq<byte>): (r: seq<byte>)
    ensures |r| == 4 * ((|data| + 2) / 3)
    ensures NoLineBreak(r)
  {
    Encode(Standard, data, true)
  }

  /**
   * The test vectors of section 10 of RFC 4648: the standard encoding with
   * its padding, and the URL-safe one, which leaves the padding off.
   */
  lemma KnownAnswersShort()
    ensures StdEncode("") == "" && EncodeURLSafeBase64("") == ""
    ensures StdEncode("f") == "Zg==" && EncodeURLSafeBase64("f") == "Zg"
    ensures StdEncode("fo") == "Zm8=" && EncodeURLSafeBase64("fo") == "Zm8"
  {
    var f: seq<sextet>, fo: seq<sextet> := [25, 32], [25, 38, 60];
    assert Sextets("f") == f && Sextets("fo") == fo;
    assert Chars(Standard, f) == Chars(UrlSafe, f) == "Zg";
    assert Chars(Standard, fo) == Chars(UrlSafe, fo) == "Zm8";
  }

  lemma KnownAnswerFoo()
    ensures StdEncode("foo") == "Zm9v"
    ensures EncodeURLSafeBase64("foo") == "Zm9v"
  {
    var vs: seq<sextet> := [25, 38, 61, 47];
    assert Sextets("foo") == vs;
    assert Chars(Standard, vs) == "Zm9v";
    assert Chars(UrlSafe, vs) == "Zm9v";
  }

  lemma KnownAnswerFoob()
    ensures StdEncode("foob") == "Zm9vYg=="
    ensures EncodeURLSafeBase64("foob") == "Zm9vYg"
  {
    var vs: seq<sextet> := [25, 38, 61, 47, 24, 32];
    assert Sextets("foob") == vs;
    assert Chars(Standard, vs) == "Zm9vYg";
    assert Chars(UrlSafe, vs) == "Zm9vYg";
  }

  lemma KnownAnswerFooba()
    ensures StdEncode("fooba") == "Zm9vYmE="
    ensures EncodeURLSafeBase64("fooba") == "Zm9vYmE"
  {
    var vs: seq<sextet> := [25, 38, 61, 47, 24, 38, 4];
    assert Sextets("fooba") == vs;
    assert Chars(Standard, vs) == "Zm9vYmE";
    assert Chars(UrlSafe, vs) == "Zm9vYmE";
  }

  lemma KnownAnswerFoobar()
    ensures StdEncode("foobar") == "Zm9vYmFy"
    ensures EncodeURLSafeBase64("foobar") == "Zm9vYmFy"
  {
    var vs: seq<sextet> := [25, 38, 61, 47, 24, 38, 5, 50];
    assert Sextets("foobar") == vs;
    assert Chars(Standard, vs) == "Zm9vYmFy";
    assert Chars(UrlSafe, vs) == "Zm9vYmFy";
  }

  /** The values 62 and 63, where the two alphabets differ. */
  lemma AlphabetsDiffer()
    ensures StdEncode([0xfb as char, 0xff as char]) == "+/8="
    ensures EncodeURLSafeBase64([0xfb as char, 0xff as char]) == "-_8"
  {
    var vs: seq<sextet> := [62, 63, 60];
    assert Sextets([0xfb as char, 0xff as char]) == vs;
    assert Chars(Standard, vs) == "+/8";
    assert Chars(UrlSafe, vs) == "-_8";
  }

  // ---------------------------------------------------------------- proofs

  /** One group of three bytes survives the split into four 6-bit values. */
  lemma GroupRoundTrip(b0: byte, b1: byte, b2: byte)
    ensures var g := GroupValues(b0, b1, b2);
            GroupOctets(g[0], g[1], g[2], g[3]) == [b0, b1, b2]
  {
    var x0, x1, x2 := b0 as int, b1 as int, b2 as int;
    var v1 := (x0 % 4) * 16 + x1 / 16;
    var v2 := (x1 % 16) * 4 + x2 / 64;
    assert v1 / 16 == x0 % 4 && v1 % 16 == x1 / 16;
    assert v2 / 4 == x1 % 16 && v2 % 4 == x2 / 64;
    assert (x0 / 4) * 4 + v1 / 16 == x0;
    assert (v1 % 16) * 16 + v2 / 4 == x1;
    assert (v2 % 4) * 64 + x2 % 64 == x2;
  }

  /** Decoding reads four values at a time. */
  lemma OctetsPrepend(g: seq<sextet>, more: seq<sextet>, rest: seq<byte>)
    requires |g| == 4 && Octets(more) == Some(rest)
    ensures Octets(g + more) == Some(GroupOctets(g[0], g[1], g[2], g[3]) + rest)
  {
    assert (g + more)[4..] == more;
  }

  lemma SextetsOfGroup(d: seq<byte>)
    requires |d| >= 3
    ensures Sextets(d) == GroupValues(d[0], d[1], d[2]) + Sextets(d[3..])
  {
  }

  lemma OctetsOfOne(d: seq<byte>)
    requires |d| == 1
    ensures Octets(Sextets(d)) == Some(d)
  {
    var g := GroupValues(d[0], Zero, Zero);
    GroupRoundTrip(d[0], Zero, Zero);
    var vs := g[..2];
    assert Sextets(d) == vs;
    assert Octets(vs) == Some(GroupOctets(g[0], g[1], 0, 0)[..1]);
    assert g[2] == 0 && g[3] == 0;
    assert [d[0], Zero, Zero][..1] == d;
  }

  lemma OctetsOfTwo(d: seq<byte>)
    requires |d| == 2
    ensures Octets(Sextets(d)) == Some(d)
  {
    var g := GroupValues(d[0], d[1], Zero);
    GroupRoundTrip(d[0], d[1], Zero);
    var vs := g[..3];
    assert Sextets(d) == vs;
    assert Octets(vs) == Some(GroupOctets(g[0], g[1], g[2], 0)[..2]);
    assert g[3] == 0;
    assert [d[0], d[1], Zero][..2] == d;
  }

  /** Three bytes followed by values that decode to `rest` decode to those bytes and then `rest`. */
  lemma OctetsOfGroup(d: seq<byte>, more: seq<sextet>, rest: seq<byte>)
    requires |d| >= 3
    requires Octets(more) == Some(rest)
    ensures Octets(GroupValues(d[0], d[1], d[2]) + more) == Some(d[..3] + rest)
  {
    var g := GroupValues(d[0], d[1], d[2]);
    GroupRoundTrip(d[0], d[1], d[2]);
    OctetsPrepend(g, more, rest);
    assert GroupOctets(g[0], g[1], g[2], g[3]) == d[..3];
  }

  lemma {:induction false} OctetsOfSextets(d: seq<byte>)
    ensures Octets(Sextets(d)) == Some(d)
    decreases |d|
  {
    if |d| == 1 {
      OctetsOfOne(d);
    } else if |d| == 2 {
      OctetsOfTwo(d);
    } else if |d| >= 3 {
      OctetsOfSextets(d[3..]);
      SextetsOfGroup(d);
      OctetsOfGroup(d, Sextets(d[3..]), d[3..]);
      assert d[..3] + d[3..] == d;
    }
  }

  lemma {:induction false} ValuesOfChars(a: Alphabet, vs: seq<sextet>)
    ensures Values(a, Chars(a, vs)) == Some(vs)
  {
    if vs != [] {
      ValueOfCharOf(a, vs[0]);
      assert Chars(a, vs)[1..] == Chars(a, vs[1..]);
      ValuesOfChars(a, vs[1..]);
      assert [vs[0]] + vs[1..] == vs;
    }
  }

  /** Decoding the URL-safe text gives back the input bytes exactly. */
  lemma RoundTrip(input: seq<byte>)
    ensures Decode(UrlSafe, EncodeURLSafeBase64(input)) == Some(input)
  {
    assert EncodeURLSafeBase64(input) == Chars(UrlSafe, Sextets(input));
    ValuesOfChars(UrlSafe, Sextets(input));
    OctetsOfSextets(input);
  }

  lemma StripPaddingAfter(body: seq<byte>, n: nat)
    requires forall i | 0 <= i < |body| :: body[i] != '='
    requires n % 3 != 0 ==> body != []
    ensures StripPadding(body + Padding(n)) == body
  {
    var s := body + Padding(n);
    if n % 3 == 0 {
      assert s == body;
      if |s| >= 1 {
        assert s[|s| - 1] == body[|body| - 1];
      }
    } else if n % 3 == 1 {
      assert s[|s| - 2..] == "==";
      assert s[..|s| - 2] == body;
    } else {
      assert s[|s| - 2] == body[|body| - 1];
      assert s[|s| - 1] == '=';
      assert s[..|s| - 1] == body;
    }
  }

  lemma PaddedLength(n: nat)
    ensures (4 * n + 2) / 3 + |Padding(n)| == 4 * ((n + 2) / 3)
  {
    var q, r := n / 3, n % 3;
    assert n == 3 * q + r;
    assert (4 * n + 2) / 3 == 4 * q + (4 * r + 2) / 3;
    assert (n + 2) / 3 == q + (r + 2) / 3;
  }

  /** Padded text is the unpadded text followed by `Padding`, which decoding strips. */
  lemma PaddedRoundTrip(a: Alphabet, d: seq<byte>)
    ensures |Encode(a, d, true)| == 4 * ((|d| + 2) / 3)
    ensures DecodePadded(a, Encode(a, d, true)) == Some(d)
  {
    var vs := Sextets(d);
    var body := Chars(a, vs);
    var s := body + Padding(|d|);
    assert Encode(a, d, true) == s;
    PaddedLength(|d|);
    assert |s| % 4 == 0;
    StripPaddingAfter(body, |d|);
    ValuesOfChars(a, vs);
    OctetsOfSextets(d);
    assert Decode(a, body) == Some(d);
  }

  /** Encoding distributes over a split after a whole number of 3-byte groups. */
  lemma {:induction false} SextetsAppend(x: seq<byte>, y: seq<byte>)
    requires |x| % 3 == 0
    ensures Sextets(x + y) == Sextets(x) + Sextets(y)
    decreases |x|
  {
    if x == [] {
      assert x + y == y;
    } else {
      assert (x + y)[3..] == x[3..] + y;
      SextetsAppend(x[3..], y);
    }
  }

  lemma ConcatenationAtGroupBoundary(x: seq<byte>, y: seq<byte>)
    requires |x| % 3 == 0
    ensures EncodeURLSafeBase64(x + y) == EncodeURLSafeBase64(x) + EncodeURLSafeBase64(y)
  {
    SextetsAppend(x, y);
  }
}
