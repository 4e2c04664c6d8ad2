/**
 * Base64 (P256SmartAccountFactory_Flattened.sol) and Base64URL without padding
 * (contracts/enclave-smart-account/utils/Base64URL.sol), sections 4 and 5 of RFC 4648.
 */
module Base64 {
  import opened Words

  type Sextet = s: int | 0 <= s < 64

  // ---------------------------------------------------------------------------------------------
  // Reference: bytes to 6-bit groups and back

  /** Three bytes as four 6-bit groups. */
  function Group(a: Byte, b: Byte, c: Byte): (r: seq<Sextet>)
    ensures |r| == 4
  {
    [a / 4, (a % 4) * 16 + b / 16, (b % 16) * 4 + c / 64, c % 64]
  }

  function Sextets(data: seq<Byte>): (r: seq<Sextet>) {
    if |data| == 0 then []
    else if |data| == 1 then Group(data[0], 0, 0)[..2]
    else if |data| == 2 then Group(data[0], data[1], 0)[..3]
    else Group(data[0], data[1], data[2]) + Sextets(data[3..])
  }

  function Join(high: int, low: int, factor: int): (r: Byte)
    requires 0 <= high * factor + low < 256
  {
    high * factor + low
  }

  /** The inverse; the unused low bits of a last partial group are ignored. */
  function FromSextets(s: seq<Sextet>): (r: seq<Byte>) {
    if |s| < 2 then []
    else if |s| == 2 then [Join(s[0], s[1] / 16, 4)]
    else if |s| == 3 then [Join(s[0], s[1] / 16, 4), Join(s[1] % 16, s[2] / 4, 16)]
    else [Join(s[0], s[1] / 16, 4), Join(s[1] % 16, s[2] / 4, 16), Join(s[2] % 4, s[3], 64)] + FromSextets(s[4..])
  }

  lemma {:induction false} SextetsInverse(data: seq<Byte>)
    ensures FromSextets(Sextets(data)) == data
  {
    if |data| >= 3 {
      var s := Sextets(data);
      SextetsInverse(data[3..]);
      assert s[4..] == Sextets(data[3..]);
      assert data == [data[0], data[1], data[2]] + data[3..];
      JoinsSplit(data[0], data[1], data[2]);
    } else if |data| == 2 {
      assert data == [data[0], data[1]];
      JoinsSplit(data[0], data[1], 0);
    } else if |data| == 1 {
      assert data == [data[0]];
      JoinsSplit(data[0], 0, 0);
    }
  }

  /** Each byte is the join of its two parts. */
  lemma JoinsSplit(a: Byte, b: Byte, c: Byte)
    ensures Join(a / 4, ((a % 4) * 16 + b / 16) / 16, 4) == a
    ensures Join(((a % 4) * 16 + b / 16) % 16, ((b % 16) * 4 + c / 64) / 4, 16) == b
    ensures Join(((b % 16) * 4 + c / 64) % 4, c % 64, 64) == c
  {
  }

  /** Four characters for three bytes, rounded up to whole characters. */
  lemma {:induction false} SextetsLength(data: seq<Byte>)
    ensures |Sextets(data)| == (4 * |data| + 2) / 3
  {
    if |data| >= 3 {
      SextetsLength(data[3..]);
    }
  }

  lemma {:induction false} SextetsAppend(a: seq<Byte>, b: seq<Byte>)
    requires |a| % 3 == 0
    ensures Sextets(a + b) == Sextets(a) + Sextets(b)
  {
    hide Group, Sextets;
    if a == [] {
      NoSextets(a);
      assert a + b == b;
    } else {
      SextetsAppend(a[3..], b);
      assert (a + b)[3..] == a[3..] + b;
      GroupFirst(a);
      GroupFirst(a + b);
    }
  }

  lemma GroupFirst(data: seq<Byte>)
    requires |data| >= 3
    ensures Sextets(data) == Group(data[0], data[1], data[2]) + Sextets(data[3..])
  {
    hide Group;
  }

  lemma NoSextets(data: seq<Byte>)
    requires |data| == 0
    ensures Sextets(data) == []
  {
  }

  // ---------------------------------------------------------------------------------------------
  // Characters

  /** The lookup table of the encoder. */
  function Glyph(i: Sextet): (r: char) {
    if i < 26 then 'A' + i as char
    else if i < 52 then 'a' + (i - 26) as char
    else if i < 62 then '0' + (i - 52) as char
    else if i == 62 then '+'
    else '/'
  }

  /** The replacement of the two characters that are not safe in a URL. */
  function UrlSafe(c: char): (r: char) {
    if c == '+' then '-' else if c == '/' then '_' else c
  }

  predicate IsUrlChar(c: char) {
    'A' <= c <= 'Z' || 'a' <= c <= 'z' || '0' <= c <= '9' || c == '-' || c == '_'
  }

  function UrlIndex(c: char): (r: Sextet)
    requires IsUrlChar(c)
  {
    if 'A' <= c <= 'Z' then (c as int) - 'A' as int
    else if 'a' <= c <= 'z' then 26 + ((c as int) - 'a' as int)
    else if '0' <= c <= '9' then 52 + ((c as int) - '0' as int)
    else if c == '-' then 62
    else 63
  }

  lemma GlyphInverse(i: Sextet)
    ensures IsUrlChar(UrlSafe(Glyph(i))) && UrlIndex(UrlSafe(Glyph(i))) == i
    ensures Glyph(i) != '='
  {
  }

  const UPPER: string := "ABCDEFGHIJKLMNOPQRSTUVWXYZ"
  const LOWER: string := "abcdefghijklmnopqrstuvwxyz"
  const DIGITS: string := "0123456789"

  /** The alphabet of section 4 of RFC 4648. */
  const ALPHABET: string := UPPER + LOWER + DIGITS + "+/"

  /** The URL-safe alphabet of section 5 of RFC 4648. */
  const URL_ALPHABET: string := UPPER + LOWER + DIGITS + "-_"

  lemma UpperAt(i: nat)
    requires i < 26
    ensures |UPPER| == 26 && UPPER[i] == 'A' + i as char
  {
    assert || i == 0 || i == 1 || i == 2 || i == 3 || i == 4 || i == 5 || i == 6 || i == 7 || i == 8
           || i == 9 || i == 10 || i == 11 || i == 12 || i == 13 || i == 14 || i == 15 || i == 16 || i == 17
           || i == 18 || i == 19 || i == 20 || i == 21 || i == 22 || i == 23 || i == 24 || i == 25;
  }

  lemma LowerAt(i: nat)
    requires i < 26
    ensures |LOWER| == 26 && LOWER[i] == 'a' + i as char
  {
    assert || i == 0 || i == 1 || i == 2 || i == 3 || i == 4 || i == 5 || i == 6 || i == 7 || i == 8
           || i == 9 || i == 10 || i == 11 || i == 12 || i == 13 || i == 14 || i == 15 || i == 16 || i == 17
           || i == 18 || i == 19 || i == 20 || i == 21 || i == 22 || i == 23 || i == 24 || i == 25;
  }

  lemma DigitAt(i: nat)
    requires i < 10
    ensures |DIGITS| == 10 && DIGITS[i] == '0' + i as char
  {
    assert || i == 0 || i == 1 || i == 2 || i == 3 || i == 4 || i == 5 || i == 6 || i == 7 || i == 8
           || i == 9;
  }

  /** Both alphabets, character by character. */
  lemma GlyphTable(i: Sextet)
    ensures |ALPHABET| == 64 && Glyph(i) == ALPHABET[i]
    ensures |URL_ALPHABET| == 64 && UrlSafe(Glyph(i)) == URL_ALPHABET[i]
  {
    UpperAt(if i < 26 then i else 0);
    LowerAt(if 26 <= i < 52 then i - 26 else 0);
    DigitAt(if 52 <= i < 62 then i - 52 else 0);
    hide UPPER, LOWER, DIGITS;
  }

  function Glyphs(s: seq<Sextet>): (r: string) {
    seq(|s|, k requires 0 <= k < |s| => Glyph(s[k]))
  }

  function UrlGlyphs(s: seq<Sextet>): (r: string) {
    seq(|s|, k requires 0 <= k < |s| => UrlSafe(Glyph(s[k])))
  }

  function Indices(t: string): (r: seq<Sextet>)
    requires forall k :: 0 <= k < |t| ==> IsUrlChar(t[k])
  {
    seq(|t|, k requires 0 <= k < |t| => UrlIndex(t[k]))
  }

  /** Base64URL without padding. */
  function UrlEncode(data: seq<Byte>): (r: string) {
    UrlGlyphs(Sextets(data))
  }

  function UrlDecode(t: string): (r: seq<Byte>)
    requires forall k :: 0 <= k < |t| ==> IsUrlChar(t[k])
  {
    FromSextets(Indices(t))
  }

  /** Only the URL-safe alphabet, no padding, and ceil(4 n / 3) characters. */
  lemma UrlAlphabet(data: seq<Byte>)
    ensures forall k :: 0 <= k < |UrlEncode(data)| ==> IsUrlChar(UrlEncode(data)[k])
    ensures |UrlEncode(data)| == (4 * |data| + 2) / 3
  {
    hide Sextets;
    SextetsLength(data);
    forall k | 0 <= k < |UrlEncode(data)|
      ensures IsUrlChar(UrlEncode(data)[k])
    {
      GlyphInverse(Sextets(data)[k]);
    }
  }

  /** Decoding undoes encoding on all byte strings. */
  lemma UrlRoundTrip(data: seq<Byte>)
    ensures forall k :: 0 <= k < |UrlEncode(data)| ==> IsUrlChar(UrlEncode(data)[k])
    ensures UrlDecode(UrlEncode(data)) == data
  {
    hide Sextets, FromSextets;
    UrlAlphabet(data);
    var s := Sextets(data);
    forall k | 0 <= k < |s|
      ensures Indices(UrlEncode(data))[k] == s[k]
    {
      GlyphInverse(s[k]);
    }
    assert Indices(UrlEncode(data)) == s;
    SextetsInverse(data);
  }

  /** Different byte strings have different encodings. */
  lemma UrlInjective(a: seq<Byte>, b: seq<Byte>)
    requires UrlEncode(a) == UrlEncode(b)
    ensures a == b
  {
    hide UrlEncode, UrlDecode;
    UrlRoundTrip(a);
    UrlRoundTrip(b);
  }

  // ---------------------------------------------------------------------------------------------
  // Base64.encode

  function PadCount(n: nat): (r: nat) {
    if n % 3 == 0 then 0 else 3 - n % 3
  }

  function Zeros(n: nat): (r: seq<Byte>) {
    seq(n, _ => 0)
  }

  /** The data as the loop reads it: zero bytes after the end. */
  function Padded(data: seq<Byte>): (r: seq<Byte>) {
    data + Zeros(PadCount(|data|))
  }

  function Equals(n: nat): (r: string) {
    seq(n, _ => '=')
  }

  /** Base64 with padding. */
  function Encode(data: seq<Byte>): (r: string) {
    Glyphs(Sextets(data)) + Equals(PadCount(|data|))
  }

  // The reference decoder, with its own table

  predicate IsStandardChar(c: char) {
    'A' <= c <= 'Z' || 'a' <= c <= 'z' || '0' <= c <= '9' || c == '+' || c == '/'
  }

  function StandardIndex(c: char): (r: Sextet)
    requires IsStandardChar(c)
  {
    if 'A' <= c <= 'Z' then (c as int) - 'A' as int
    else if 'a' <= c <= 'z' then 26 + ((c as int) - 'a' as int)
    else if '0' <= c <= '9' then 52 + ((c as int) - '0' as int)
    else if c == '+' then 62
    else 63
  }

  /** The text without its trailing padding. */
  function Unpadded(t: string): (r: string) {
    if t != [] && t[|t| - 1] == '=' then Unpadded(t[..|t| - 1]) else t
  }

  predicate IsStandardText(t: string) {
    forall k :: 0 <= k < |t| ==> IsStandardChar(t[k])
  }

  function Decode(t: string): (r: seq<Byte>)
    requires IsStandardText(Unpadded(t))
  {
    var u := Unpadded(t);
    FromSextets(seq(|u|, k requires 0 <= k < |u| => StandardIndex(u[k])))
  }

  lemma StandardInverse(i: Sextet)
    ensures IsStandardChar(Glyph(i)) && StandardIndex(Glyph(i)) == i && Glyph(i) != '='
  {
  }

  lemma {:induction false} UnpaddedEquals(t: string, n: nat)
    requires t == [] || t[|t| - 1] != '='
    ensures Unpadded(t + Equals(n)) == t
  {
    var whole := t + Equals(n);
    if n == 0 {
      assert whole == t;
    } else {
      assert whole[..|whole| - 1] == t + Equals(n - 1);
      UnpaddedEquals(t, n - 1);
    }
  }

  /** Standard characters, then at most two of padding up to a multiple of four. */
  lemma EncodeShape(data: seq<Byte>)
    ensures |Encode(data)| == 4 * ((|data| + 2) / 3)
    ensures var n := |Encode(data)| - PadCount(|data|);
      && n >= 0 && Unpadded(Encode(data)) == Encode(data)[..n]
      && (forall k :: 0 <= k < n ==> IsStandardChar(Encode(data)[k]))
      && (forall k :: n <= k < |Encode(data)| ==> Encode(data)[k] == '=')
  {
    WholeLength(data);
    PaddedGroups(data);
    hide Sextets, Glyph, Padded, PadCount, IsStandardChar;
    var s := Sextets(data);
    var t := Glyphs(s);
    forall k | 0 <= k < |s|
      ensures IsStandardChar(t[k]) && t[k] != '='
    {
      StandardInverse(s[k]);
    }
    UnpaddedEquals(t, PadCount(|data|));
    assert Encode(data)[..|s|] == t;
  }

  /** Decoding undoes encoding on all byte strings. */
  lemma RoundTrip(data: seq<Byte>)
    ensures IsStandardText(Unpadded(Encode(data))) && Decode(Encode(data)) == data
  {
    EncodeShape(data);
    PaddedGroups(data);
    hide Sextets, FromSextets, Glyph, Padded, PadCount, IsStandardChar, StandardIndex, Unpadded;
    WholeLength(data);
    var s := Sextets(data);
    var u := Unpadded(Encode(data));
    assert |u| == |s|;
    forall k | 0 <= k < |s|
      ensures u[k] == Glyph(s[k]) && IsStandardChar(u[k]) && StandardIndex(u[k]) == s[k]
    {
      StandardInverse(s[k]);
    }
    assert seq(|u|, k requires 0 <= k < |u| => StandardIndex(u[k])) == s;
    SextetsInverse(data);
  }

  function BigEndian(a: int, b: int, c: int): (n: int)
    ensures 0 <= a && 0 <= b && 0 <= c ==> n >= 0
  {
    a * 65536 + b * 256 + c
  }

  /** Three bytes read as one big-endian number. */
  function Chunk(data: seq<Byte>, i: nat): (r: nat)
    requires i + 3 <= |data|
  {
    BigEndian(data[i], data[i + 1], data[i + 2])
  }

  /** Shifted right by a power of two, then masked to six bits. */
  function Masked(n: int, power: nat): (r: Sextet)
    requires power > 0
  {
    (n / power) % 64
  }

  /** The four shifts and masks of a chunk are its 6-bit groups. */
  lemma ChunkGroups(data: seq<Byte>, i: nat)
    requires i + 3 <= |data|
    ensures var n := Chunk(data, i);
      Sextets(data[i..i + 3]) == [Masked(n, 262144), Masked(n, 4096), Masked(n, 64), Masked(n, 1)]
  {
    hide Sextets, Group, BigEndian, Masked;
    var a, b, c := data[i], data[i + 1], data[i + 2];
    assert data[i..i + 3] == [a, b, c];
    ThreeGroups(a, b, c);
    GroupArithmetic(a, b, c);
  }

  lemma GroupArithmetic(a: Byte, b: Byte, c: Byte)
    ensures var n := BigEndian(a, b, c);
      Group(a, b, c) == [Masked(n, 262144), Masked(n, 4096), Masked(n, 64), Masked(n, 1)]
  {
    hide BigEndian, Masked;
    var a1, a0, b1, b0, c1, c0 := a / 4, a % 4, b / 16, b % 16, c / 64, c % 64;
    GroupValue(a, b, c, a1, a0, b1, b0, c1, c0);
    assert 0 <= a1 < 64 && 0 <= b1 < 16 && 0 <= c1 < 4;
    GroupDigits(BigEndian(a, b, c), a1, a0 * 16 + b1, b0 * 4 + c1, c0);
  }

  /** Splitting the bytes at 2, 4 and 6 bits and reading the pieces in fours gives the same number. */
  lemma GroupValue(a: int, b: int, c: int, a1: int, a0: int, b1: int, b0: int, c1: int, c0: int)
    requires a == 4 * a1 + a0 && b == 16 * b1 + b0 && c == 64 * c1 + c0
    ensures BigEndian(a, b, c) == a1 * 262144 + (a0 * 16 + b1) * 4096 + (b0 * 4 + c1) * 64 + c0
  {
  }

  lemma GroupDigits(n: int, s0: int, s1: int, s2: int, s3: int)
    requires 0 <= s0 < 64 && 0 <= s1 < 64 && 0 <= s2 < 64 && 0 <= s3 < 64
    requires n == s0 * 262144 + s1 * 4096 + s2 * 64 + s3
    ensures Masked(n, 262144) == s0 && Masked(n, 4096) == s1 && Masked(n, 64) == s2 && Masked(n, 1) == s3
  {
    assert n / 64 == s0 * 4096 + s1 * 64 + s2;
    assert n / 4096 == s0 * 64 + s1;
    assert n / 262144 == s0;
  }

  /** One more chunk adds four groups. */
  lemma PrefixStep(data: seq<Byte>, i: nat)
    requires i % 3 == 0 && i + 3 <= |data|
    ensures var n := Chunk(data, i);
      Glyphs(Sextets(data[..i + 3])) == Glyphs(Sextets(data[..i]))
        + [Glyph(Masked(n, 262144)), Glyph(Masked(n, 4096)), Glyph(Masked(n, 64)), Glyph(Masked(n, 1))]
  {
    hide Sextets, Masked, Chunk;
    assert data[..i + 3] == data[..i] + data[i..i + 3];
    SextetsAppend(data[..i], data[i..i + 3]);
    ChunkGroups(data, i);
  }

  lemma WholeLength(data: seq<Byte>)
    ensures |Padded(data)| % 3 == 0
    ensures |Padded(data)| / 3 == (|data| + 2) / 3
    ensures |Padded(data)| == 3 * ((|data| + 2) / 3)
    ensures |Sextets(Padded(data))| == 4 * ((|data| + 2) / 3)
  {
    PadFills(|data|);
    var q := (|data| + 2) / 3;
    assert |Padded(data)| == 3 * q;
    hide Sextets, Padded;
    SextetsLength(Padded(data));
    FourForThree(q);
  }

  lemma PadFills(n: nat)
    ensures n + PadCount(n) == 3 * ((n + 2) / 3)
  {
  }

  lemma FourForThree(q: nat)
    ensures (3 * q) % 3 == 0 && (3 * q) / 3 == q && (4 * (3 * q) + 2) / 3 == 4 * q
  {
  }

  /** Dropping the padding characters leaves the groups of the data alone. */
  lemma {:induction false} PaddedGroups(data: seq<Byte>)
    ensures |Sextets(Padded(data))| == |Sextets(data)| + PadCount(|data|)
    ensures Sextets(Padded(data))[..|Sextets(data)|] == Sextets(data)
  {
    var whole := |data| - |data| % 3;
    var a, b := data[..whole], data[whole..];
    assert data == a + b;
    assert Padded(data) == a + Padded(b);
    SextetsAppend(a, b);
    SextetsAppend(a, Padded(b));
    TailGroups(b);
  }

  lemma TailGroups(b: seq<Byte>)
    requires |b| < 3
    ensures |Sextets(Padded(b))| == |Sextets(b)| + PadCount(|b|)
    ensures Sextets(Padded(b))[..|Sextets(b)|] == Sextets(b)
  {
    hide Group;
    if |b| == 0 {
      assert Padded(b) == [];
    } else if |b| == 1 {
      assert Padded(b) == [b[0], 0, 0];
      ThreeGroups(b[0], 0, 0);
    } else {
      assert Padded(b) == [b[0], b[1], 0];
      ThreeGroups(b[0], b[1], 0);
    }
  }

  lemma ThreeGroups(a: Byte, b: Byte, c: Byte)
    ensures Sextets([a, b, c]) == Group(a, b, c)
  {
    hide Group;
    assert Sextets([a, b, c][3..]) == [];
  }

  /** The four characters of a chunk. */
  function Quad(n: nat): (r: string) {
    [Glyph(Masked(n, 262144)), Glyph(Masked(n, 4096)), Glyph(Masked(n, 64)), Glyph(Masked(n, 1))]
  }

  /** Writes the four characters of a chunk at j, one after the other. */
  method WriteQuad(result: array<char>, j: nat, input: nat)
    requires j + 4 <= result.Length
    modifies result
    ensures result[..j + 4] == old(result[..j]) + Quad(input)
  {
    hide Glyph, Masked;
    var resultPtr := j;
    result[resultPtr] := Glyph(Masked(input, 262144));
    resultPtr := resultPtr + 1;
    result[resultPtr] := Glyph(Masked(input, 4096));
    resultPtr := resultPtr + 1;
    result[resultPtr] := Glyph(Masked(input, 64));
    resultPtr := resultPtr + 1;
    result[resultPtr] := Glyph(Masked(input, 1));
  }

  /** Overwrites the characters of the missing bytes with "=". */
  method WritePadding(result: array<char>, n: nat)
    requires PadCount(n) <= result.Length
    modifies result
    ensures result[..] == old(result[..])[..result.Length - PadCount(n)] + Equals(PadCount(n))
  {
    var resultPtr := result.Length;
    if n % 3 == 1 {
      result[resultPtr - 1] := '=';
      result[resultPtr - 2] := '=';
    } else if n % 3 == 2 {
      result[resultPtr - 1] := '=';
    }
  }

  /** Base64.encode. */
  method Base64Encode(data: seq<Byte>) returns (result: array<char>)
    ensures fresh(result) && result[..] == Encode(data)
  {
    hide Sextets, Glyph, Quad, Masked, Glyphs, Padded, PadCount, Equals, ReadChunk, Chunk;
    WholeLength(data);
    if |data| == 0 {
      EncodeNothing(data);
      result := new char[0];
      return;
    }
    var chunks := (|data| + 2) / 3;
    ChunkCount(|data|, chunks);
    result := new char[4 * chunks](_ => '=');
    ghost var padded := Padded(data);
    ghost var done := 0;
    var i, j := 0, 0;
    NoGroups(padded);
    while i < |data|
      invariant 0 <= done <= chunks && i == 3 * done && j == 4 * done
      invariant result[..j] == Glyphs(Sextets(padded[..i]))
    {
      FourForThree(done);
      var input := ReadChunk(data, i);
      ReadsPadded(data, i);
      QuadStep(padded, i);
      WriteQuad(result, j, input);
      i := i + 3;
      j := j + 4;
      done := done + 1;
    }
    assert padded[..i] == padded;
    assert result[..j] == result[..];
    PaddedGlyphs(data);
    WritePadding(result, |data|);
  }

  lemma ChunkCount(n: nat, chunks: nat)
    requires chunks == (n + 2) / 3
    ensures n <= 3 * chunks <= n + 2
  {
  }

  lemma EncodeNothing(data: seq<Byte>)
    requires |data| == 0
    ensures Encode(data) == []
  {
  }

  lemma QuadStep(data: seq<Byte>, i: nat)
    requires i % 3 == 0 && i + 3 <= |data|
    ensures Glyphs(Sextets(data[..i + 3])) == Glyphs(Sextets(data[..i])) + Quad(Chunk(data, i))
  {
    hide Sextets, Glyph, Chunk;
    PrefixStep(data, i);
  }

  lemma PaddedGlyphs(data: seq<Byte>)
    ensures var whole := Glyphs(Sextets(Padded(data)));
      && PadCount(|data|) <= |whole|
      && whole[..|whole| - PadCount(|data|)] + Equals(PadCount(|data|)) == Encode(data)
  {
    hide Sextets, Padded, PadCount, Glyph;
    PaddedGroups(data);
  }

  lemma NoGroups(data: seq<Byte>)
    ensures Glyphs(Sextets(data[..0])) == []
  {
  }

  /** The three bytes at i, zero after the end of the data. */
  function ReadChunk(data: seq<Byte>, i: nat): (r: nat)
    requires i < |data|
  {
    BigEndian(data[i], if i + 1 < |data| then data[i + 1] else 0, if i + 2 < |data| then data[i + 2] else 0)
  }

  lemma ReadsPadded(data: seq<Byte>, i: nat)
    requires i % 3 == 0 && i < |data|
    ensures i + 3 <= |Padded(data)| && ReadChunk(data, i) == Chunk(Padded(data), i)
  {
    hide BigEndian;
  }

  // ---------------------------------------------------------------------------------------------
  // Base64URL.encode

  /** The trailing "=" characters are exactly the padding. */
  lemma TrailingEquals(data: seq<Byte>)
    ensures var b64 := Encode(data);
      && |b64| == |Sextets(data)| + PadCount(|data|)
      && (|b64| > 2 && b64[|b64| - 2] == '=' <==> PadCount(|data|) == 2)
      && (|b64| > 1 && b64[|b64| - 1] == '=' <==> PadCount(|data|) >= 1)
  {
    hide Sextets, Glyph;
    SextetsLength(data);
    var s := Sextets(data);
    if |s| >= 1 {
      GlyphInverse(s[|s| - 1]);
    }
    if |s| >= 2 {
      GlyphInverse(s[|s| - 2]);
    }
  }

  lemma UrlPrefix(data: seq<Byte>, k: nat)
    requires k < |Sextets(data)|
    ensures |Encode(data)| >= |Sextets(data)| && |UrlEncode(data)| == |Sextets(data)|
    ensures UrlSafe(Encode(data)[k]) == UrlEncode(data)[k]
  {
    hide Sextets, Glyph, UrlSafe;
  }

  lemma UrlLength(data: seq<Byte>)
    ensures |UrlEncode(data)| == |Sextets(data)|
  {
    hide Sextets, Glyph, UrlSafe;
  }

  /** Base64URL.encode. */
  method Base64UrlEncode(data: seq<Byte>) returns (result: array<char>)
    ensures fresh(result) && result[..] == UrlEncode(data)
  {
    hide Sextets, Glyph, UrlEncode, Encode, PadCount;
    TrailingEquals(data);
    UrlLength(data);
    var b64 := Base64Encode(data);
    assert forall k :: 0 <= k < b64.Length ==> b64[k] == b64[..][k];
    var equalsCount := 0;
    if b64.Length > 2 && b64[b64.Length - 2] == '=' {
      equalsCount := 2;
    } else if b64.Length > 1 && b64[b64.Length - 1] == '=' {
      equalsCount := 1;
    }
    AtMostTwo(|data|);
    var len := b64.Length - equalsCount;
    result := new char[len](_ => '=');
    ghost var text := Encode(data);
    for i := 0 to len
      invariant b64[..] == text
      invariant forall k :: 0 <= k < i ==> result[k] == UrlEncode(data)[k]
    {
      UrlPrefix(data, i);
      if b64[i] == '+' {
        result[i] := '-';
      } else if b64[i] == '/' {
        result[i] := '_';
      } else {
        result[i] := b64[i];
      }
      assert b64[i] == b64[..][i];
    }
  }

  lemma AtMostTwo(n: nat)
    ensures PadCount(n) <= 2
  {
  }

}
