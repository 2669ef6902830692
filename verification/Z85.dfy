/** Z85, the base-85 encoding of ZeroMQ RFC 32 ("Formal Specification"), with the padding of z85.c, and the
    web store's test of what it is sent. */
module Z85 {
  import opened Bits

  // ---------- the alphabet

  /** A row of ten characters of `base85`, as byte values. */
  function AlphabetRow(r: nat): (s: string)
    requires r < 9
    ensures |s| == if r < 8 then 10 else 5
  {
    if r == 0 then "0123456789"
    else if r == 1 then "abcdefghij"
    else if r == 2 then "klmnopqrst"
    else if r == 3 then "uvwxyzABCD"
    else if r == 4 then "EFGHIJKLMN"
    else if r == 5 then "OPQRSTUVWX"
    else if r == 6 then "YZ.-:+=^!/"
    else if r == 7 then "*?&<>()[]{"
    else "}@%$#"
  }

  /** A row of eight entries of `base256`: the values of the characters from 32 on. */
  function ValueRow(r: nat): (s: seq<nat>)
    requires r < 12
    ensures |s| == 8 && forall k :: 0 <= k < 8 ==> s[k] < 85
  {
    if r == 0 then [0x00, 0x44, 0x00, 0x54, 0x53, 0x52, 0x48, 0x00]
    else if r == 1 then [0x4B, 0x4C, 0x46, 0x41, 0x00, 0x3F, 0x3E, 0x45]
    else if r == 2 then [0x00, 0x01, 0x02, 0x03, 0x04, 0x05, 0x06, 0x07]
    else if r == 3 then [0x08, 0x09, 0x40, 0x00, 0x49, 0x42, 0x4A, 0x47]
    else if r == 4 then [0x51, 0x24, 0x25, 0x26, 0x27, 0x28, 0x29, 0x2A]
    else if r == 5 then [0x2B, 0x2C, 0x2D, 0x2E, 0x2F, 0x30, 0x31, 0x32]
    else if r == 6 then [0x33, 0x34, 0x35, 0x36, 0x37, 0x38, 0x39, 0x3A]
    else if r == 7 then [0x3B, 0x3C, 0x3D, 0x4D, 0x00, 0x4E, 0x43, 0x00]
    else if r == 8 then [0x00, 0x0A, 0x0B, 0x0C, 0x0D, 0x0E, 0x0F, 0x10]
    else if r == 9 then [0x11, 0x12, 0x13, 0x14, 0x15, 0x16, 0x17, 0x18]
    else if r == 10 then [0x19, 0x1A, 0x1B, 0x1C, 0x1D, 0x1E, 0x1F, 0x20]
    else [0x21, 0x22, 0x23, 0x4F, 0x00, 0x50, 0x00, 0x00]
  }

  /** The character of a digit. */
  function Char(d: nat): (c: Byte)
    requires d < 85
    ensures 33 <= c <= 125
  {
    CharRange(AlphabetRow(d / 10), d / 10, d % 10);
    AlphabetRow(d / 10)[d % 10] as int
  }

  lemma CharRange(row: string, r: nat, k: nat)
    requires r < 9 && row == AlphabetRow(r) && k < |row|
    ensures 33 <= row[k] as int <= 125
  {
  }

  /** The source's table look-up, `base256[(c - 32) & 127]`, reads inside the table. */
  predicate InTable(c: Byte) { (c + 96) % 128 < 96 }

  function Digit(c: Byte): (d: nat)
    requires InTable(c)
    ensures d < 85
  {
    ValueRow((c + 96) % 128 / 8)[(c + 96) % 128 % 8]
  }

  lemma LowRows(r: nat, k: nat, c: nat)
    requires r < 3 && k < |AlphabetRow(r)| && c == AlphabetRow(r)[k] as int
    ensures 32 <= c < 128 && ValueRow((c - 32) / 8)[(c - 32) % 8] == 10 * r + k
  {
    if k == 0 {} else if k == 1 {} else if k == 2 {} else if k == 3 {} else if k == 4 {}
    else if k == 5 {} else if k == 6 {} else if k == 7 {} else if k == 8 {} else {}
  }

  lemma MiddleRows(r: nat, k: nat, c: nat)
    requires 3 <= r < 6 && k < |AlphabetRow(r)| && c == AlphabetRow(r)[k] as int
    ensures 32 <= c < 128 && ValueRow((c - 32) / 8)[(c - 32) % 8] == 10 * r + k
  {
    if k == 0 {} else if k == 1 {} else if k == 2 {} else if k == 3 {} else if k == 4 {}
    else if k == 5 {} else if k == 6 {} else if k == 7 {} else if k == 8 {} else {}
  }

  lemma HighRows(r: nat, k: nat, c: nat)
    requires 6 <= r < 9 && k < |AlphabetRow(r)| && c == AlphabetRow(r)[k] as int
    ensures 32 <= c < 128 && ValueRow((c - 32) / 8)[(c - 32) % 8] == 10 * r + k
  {
    if k == 0 {} else if k == 1 {} else if k == 2 {} else if k == 3 {} else if k == 4 {}
    else if k == 5 {} else if k == 6 {} else if k == 7 {} else if k == 8 {} else {}
  }

  lemma DigitIs(c: Byte)
    requires 32 <= c < 128
    ensures InTable(c) && Digit(c) == ValueRow((c - 32) / 8)[(c - 32) % 8]
  {
    hide ValueRow;
    assert (c + 96) % 128 == c - 32;
  }

  lemma CharIs(r: nat, k: nat)
    requires r < 9 && k < |AlphabetRow(r)|
    ensures 10 * r + k < 85 && Char(10 * r + k) == AlphabetRow(r)[k] as int
  {
    hide AlphabetRow;
    assert (10 * r + k) / 10 == r && (10 * r + k) % 10 == k;
  }

  /** The two tables are inverse. */
  lemma TablesInverse(d: nat)
    requires d < 85
    ensures InTable(Char(d)) && Digit(Char(d)) == d
  {
    hide AlphabetRow, ValueRow, Char, Digit, InTable;
    var r, k := d / 10, d % 10;
    CharIs(r, k);
    if r < 3 {
      LowRows(r, k, Char(d));
    } else if r < 6 {
      MiddleRows(r, k, Char(d));
    } else {
      HighRows(r, k, Char(d));
    }
    DigitIs(Char(d));
  }

  /** The other characters of the alphabet, by their byte values. */
  const MARKS: seq<nat> := [46, 45, 58, 43, 61, 94, 33, 47, 42, 63, 38, 60, 62, 40, 41, 91, 93, 123, 125, 64, 37, 36, 35]

  lemma Marks(d: nat)
    requires 62 <= d < 85
    ensures Char(d) == MARKS[d - 62]
  {
    if d < 70 { MarkRow(6, d % 10, d); } else if d < 80 { MarkRow(7, d % 10, d); } else { MarkRow(8, d % 10, d); }
  }

  lemma MarkRow(r: nat, k: nat, d: nat)
    requires 6 <= r < 9 && k < |AlphabetRow(r)| && d == 10 * r + k && 62 <= d
    ensures AlphabetRow(r)[k] as int == MARKS[d - 62]
  {
    if k == 0 {} else if k == 1 {} else if k == 2 {} else if k == 3 {} else if k == 4 {}
    else if k == 5 {} else if k == 6 {} else if k == 7 {} else if k == 8 {} else {}
  }

  lemma LetterRow(r: nat, k: nat, d: nat)
    requires r < 7 && k < 10 && d == 10 * r + k && d < 62
    ensures d < 10 ==> AlphabetRow(r)[k] as int == 48 + d
    ensures 10 <= d < 36 ==> AlphabetRow(r)[k] as int == 97 + (d - 10)
    ensures 36 <= d ==> AlphabetRow(r)[k] as int == 65 + (d - 36)
  {
    if k == 0 {} else if k == 1 {} else if k == 2 {} else if k == 3 {} else if k == 4 {}
    else if k == 5 {} else if k == 6 {} else if k == 7 {} else if k == 8 {} else {}
  }

  /** The alphabet of RFC 32: the digits, the letters, and 23 other characters. */
  lemma CharRows(d: nat)
    requires d < 85
    ensures d < 10 ==> Char(d) == 48 + d
    ensures 10 <= d < 36 ==> Char(d) == 97 + (d - 10)
    ensures 36 <= d < 62 ==> Char(d) == 65 + (d - 36)
    ensures 62 <= d ==> Char(d) == MARKS[d - 62]
  {
    hide AlphabetRow;
    if d < 62 { LetterRow(d / 10, d % 10, d); } else { Marks(d); }
  }

  /** The alphabet: the characters that are what their values stand for. */
  predicate InAlphabet(c: Byte) { InTable(c) && Char(Digit(c)) == c }

  // ---------- division by 85

  const DIV85_MAGIC := 3233857729
  const TWO_32 := 0x1_0000_0000

  /** `DIV85`: a 64-bit product, its upper half, and a shift. */
  function Div85(n: nat): nat { DIV85_MAGIC * n / TWO_32 / 64 }

  /** The product fits 64 bits, its upper half fits 32, and the result is the quotient. */
  lemma Div85Exact(n: nat)
    requires n < MAX_WORD32
    ensures DIV85_MAGIC * n < MAX_WORD32 * MAX_WORD32 && DIV85_MAGIC * n / TWO_32 < MAX_WORD32
    ensures Div85(n) == n / 85
  {
    var q, r := n / 85, n % 85;
    var low := 21 * q + DIV85_MAGIC * r;
    assert DIV85_MAGIC * n == q * 274877906944 + low;
    assert low < 274877906944;
    var h := DIV85_MAGIC * n / TWO_32;
    assert 274877906944 == 64 * TWO_32;
    DivUnique(h, 64, q, h - 64 * q);
  }

  // ---------- groups

  type Bytes = seq<Byte>

  /** The big-endian number of four bytes. */
  function Value(g: Bytes): (v: nat)
    requires |g| == 4
    ensures v < MAX_WORD32
  {
    BigEndian(g[0], g[1], g[2], g[3])
  }

  function BigEndian(a: nat, b: nat, c: nat, d: nat): nat { ((a * 256 + b) * 256 + c) * 256 + d }

  function Quad(v: nat): (g: Bytes)
    requires v < MAX_WORD32
    ensures |g| == 4
  {
    [v / 16777216, v / 65536 % 256, v / 256 % 256, v % 256]
  }

  /** The base-85 digit of weight 85^k. */
  function DigitAt(v: nat, k: nat): (d: nat)
    ensures d < 85
  {
    if k == 0 then v % 85 else DigitAt(v / 85, k - 1)
  }

  /** The five base-85 digits of a number, as characters, the highest first. */
  function EncodeGroup(g: Bytes): (c: Bytes)
    requires |g| == 4
    ensures |c| == 5
  {
    seq(5, i requires 0 <= i < 5 => Char(DigitAt(Value(g), 4 - i)))
  }

  predicate Readable(c: Bytes) { forall i :: 0 <= i < |c| ==> InTable(c[i]) }

  predicate Canonical(c: Bytes) { forall i :: 0 <= i < |c| ==> InAlphabet(c[i]) }

  /** The number of a string of characters, without a bound. */
  function Number(c: Bytes): nat
    requires Readable(c)
  {
    if c == [] then 0 else Number(c[..|c| - 1]) * 85 + Digit(c[|c| - 1])
  }

  /** The source's five steps in 32 bits. */
  function DecodeGroup(c: Bytes): (g: Bytes)
    requires |c| == 5 && Readable(c)
    ensures |g| == 4
  {
    Quad(Wrap32(Number(c)))
  }

  lemma QuadValue(g: Bytes)
    requires |g| == 4
    ensures Quad(Value(g)) == g
  {
    var a: nat, b: nat, c: nat, d: nat := g[0], g[1], g[2], g[3];
    DivUnique(Value(g), 256, BigEndian(0, a, b, c), d);
    DivUnique(Value(g), 65536, BigEndian(0, 0, a, b), BigEndian(0, 0, c, d));
    DivUnique(Value(g), 16777216, a, BigEndian(0, b, c, d));
  }

  lemma ValueQuad(v: nat)
    requires v < MAX_WORD32
    ensures Value(Quad(v)) == v
  {
    var x, d := v / 256, v % 256;
    var y, c := x / 256, x % 256;
    var a, b := y / 256, y % 256;
    assert v == BigEndian(a, b, c, d);
    DivUnique(v, 65536, y, BigEndian(0, 0, c, d));
    DivUnique(v, 16777216, a, BigEndian(0, b, c, d));
  }

  lemma NumberFive(c: Bytes)
    requires |c| == 5 && Readable(c)
    ensures Number(c) == Horner(Digit(c[0]), Digit(c[1]), Digit(c[2]), Digit(c[3]), Digit(c[4]))
  {
    hide Digit;
    var b0: Bytes := [];
    assert c[..1] == [c[0]] && c[..1][..0] == b0 && c[..2][..1] == c[..1] && c[..3][..2] == c[..2] && c[..4][..3] == c[..3];
    assert Number(c[..1]) == Number(b0) * 85 + Digit(c[0]);
    assert Number(c[..2]) == Number(c[..1]) * 85 + Digit(c[1]);
    assert Number(c[..3]) == Number(c[..2]) * 85 + Digit(c[2]);
    assert Number(c[..4]) == Number(c[..3]) * 85 + Digit(c[3]);
  }

  function Horner(a: nat, b: nat, c: nat, d: nat, e: nat): nat { (((a * 85 + b) * 85 + c) * 85 + d) * 85 + e }

  lemma DigitsOf(v: nat)
    ensures DigitAt(v, 0) == v % 85 && DigitAt(v, 1) == v / 85 % 85 && DigitAt(v, 2) == v / 85 / 85 % 85
    ensures DigitAt(v, 3) == v / 85 / 85 / 85 % 85 && DigitAt(v, 4) == v / 85 / 85 / 85 / 85 % 85
  {
    assert DigitAt(v / 85, 1) == DigitAt(v / 85 / 85, 0);
    assert DigitAt(v / 85, 3) == DigitAt(v / 85 / 85, 2) == DigitAt(v / 85 / 85 / 85, 1) == DigitAt(v / 85 / 85 / 85 / 85, 0);
    assert DigitAt(v / 85, 2) == DigitAt(v / 85 / 85, 1) == DigitAt(v / 85 / 85 / 85, 0);
  }

  lemma HornerOf(v: nat)
    requires v < MAX_WORD32
    ensures Horner(DigitAt(v, 4), DigitAt(v, 3), DigitAt(v, 2), DigitAt(v, 1), DigitAt(v, 0)) == v
  {
    hide DigitAt;
    DigitsOf(v);
    TopDigit(v);
    var a := v / 85;
    var b := a / 85;
    var c := b / 85;
    var d := c / 85;
    assert c == d * 85 + c % 85 && b == c * 85 + b % 85 && a == b * 85 + a % 85 && v == a * 85 + v % 85;
  }

  lemma TopDigit(v: nat)
    requires v < MAX_WORD32
    ensures v / 85 / 85 / 85 / 85 < 85
  {
  }

  /** Every character of a group is the character of a digit. */
  lemma GroupChars(g: Bytes)
    requires |g| == 4
    ensures var c := EncodeGroup(g); Readable(c) && Canonical(c) && forall i :: 0 <= i < 5 ==> Digit(c[i]) == DigitAt(Value(g), 4 - i)
  {
    hide Digit, InTable, Char, Value;
    var c := EncodeGroup(g);
    forall i | 0 <= i < 5 ensures InTable(c[i]) && Digit(c[i]) == DigitAt(Value(g), 4 - i) && InAlphabet(c[i]) {
      TablesInverse(DigitAt(Value(g), 4 - i));
    }
  }

  lemma NumberEncoded(g: Bytes)
    requires |g| == 4
    ensures Readable(EncodeGroup(g)) && Number(EncodeGroup(g)) == Value(g)
  {
    hide Digit, InTable, InAlphabet, Value, EncodeGroup, Horner;
    GroupChars(g);
    NumberFive(EncodeGroup(g));
    HornerOf(Value(g));
  }

  /** Decoding a group undoes encoding it. */
  lemma GroupRoundTrip(g: Bytes)
    requires |g| == 4
    ensures var c := EncodeGroup(g); Readable(c) && Canonical(c) && DecodeGroup(c) == g
  {
    hide InTable, InAlphabet, Value, EncodeGroup, Quad, Digit, Number;
    GroupChars(g);
    NumberEncoded(g);
    SmallNumber(Value(g));
    QuadValue(g);
  }

  lemma SmallNumber(v: nat)
    requires v < MAX_WORD32
    ensures Wrap32(v) == v
  {
  }

  /** Encoding undoes decoding exactly for five characters of the alphabet whose number fits 32 bits. */
  lemma GroupCanonical(c: Bytes)
    requires |c| == 5 && Readable(c)
    ensures EncodeGroup(DecodeGroup(c)) == c <==> Number(c) < MAX_WORD32 && Canonical(c)
  {
    hide Quad, InTable, Char, Digit, EncodeGroup, Number, InAlphabet, Value;
    var g := DecodeGroup(c);
    GroupRoundTrip(g);
    NumberEncoded(g);
    if Number(c) < MAX_WORD32 && Canonical(c) {
      SmallNumber(Number(c));
      ValueQuad(Number(c));
      Reencoded(c, g);
    }
  }

  lemma Reencoded(c: Bytes, g: Bytes)
    requires |c| == 5 && Readable(c) && Canonical(c) && |g| == 4 && Value(g) == Number(c)
    ensures EncodeGroup(g) == c
  {
    hide Quad, InTable, Char, Digit, Value, Number, Horner;
    NumberFive(c);
    HornerDigits(Digit(c[0]), Digit(c[1]), Digit(c[2]), Digit(c[3]), Digit(c[4]));
  }

  lemma HornerDigits(a: nat, b: nat, c: nat, d: nat, e: nat)
    requires a < 85 && b < 85 && c < 85 && d < 85 && e < 85
    ensures var n := Horner(a, b, c, d, e);
            DigitAt(n, 4) == a && DigitAt(n, 3) == b && DigitAt(n, 2) == c && DigitAt(n, 1) == d && DigitAt(n, 0) == e
  {
    var n := Horner(a, b, c, d, e);
    DigitsOf(n);
    DivUnique(n, 85, ((a * 85 + b) * 85 + c) * 85 + d, e);
    DivUnique(((a * 85 + b) * 85 + c) * 85 + d, 85, (a * 85 + b) * 85 + c, d);
    DivUnique((a * 85 + b) * 85 + c, 85, a * 85 + b, c);
    DivUnique(a * 85 + b, 85, a, b);
  }

  // ---------- whole groups

  function Encode(s: Bytes): (c: Bytes)
    requires |s| % 4 == 0
    ensures |c| == |s| / 4 * 5
  {
    if s == [] then [] else Encode(s[..|s| - 4]) + EncodeGroup(s[|s| - 4..])
  }

  function Decode(c: Bytes): (s: Bytes)
    requires |c| % 5 == 0 && Readable(c)
    ensures |s| == |c| / 5 * 4
  {
    if c == [] then [] else Decode(c[..|c| - 5]) + DecodeGroup(c[|c| - 5..])
  }

  lemma {:induction false} RoundTrip(s: Bytes)
    requires |s| % 4 == 0
    ensures Readable(Encode(s)) && Canonical(Encode(s)) && Decode(Encode(s)) == s
  {
    hide EncodeGroup, DecodeGroup, InTable, InAlphabet;
    if s != [] {
      var init, last := s[..|s| - 4], s[|s| - 4..];
      RoundTrip(init);
      GroupRoundTrip(last);
      var c := Encode(s);
      assert c[..|c| - 5] == Encode(init) && c[|c| - 5..] == EncodeGroup(last);
    }
  }

  /** The example of RFC 32: eight bytes that stand for ten letters. */
  lemma HelloWorld()
    ensures Encode([0x86, 0x4F, 0xD2, 0x6F] + [0xB5, 0x59, 0xF7, 0x5B]) == [72, 101, 108, 108, 111] + [87, 111, 114, 108, 100]
  {
    hide Char;
    var a: Bytes, b: Bytes, none: Bytes := [0x86, 0x4F, 0xD2, 0x6F], [0xB5, 0x59, 0xF7, 0x5B], [];
    assert (a + b)[..4] == a && (a + b)[4..] == b && a[..0] == none && a[0..] == a;
    Hello(a);
    World(b);
    assert Encode(a) == Encode(none) + EncodeGroup(a) == EncodeGroup(a);
  }

  lemma Hello(g: Bytes)
    requires g == [0x86, 0x4F, 0xD2, 0x6F]
    ensures EncodeGroup(g) == [72, 101, 108, 108, 111]
  {
    hide Char, DigitAt;
    assert Value(g) == Horner(43, 14, 21, 21, 24);
    HornerDigits(43, 14, 21, 21, 24);
    CharRows(43);
    CharRows(14);
    CharRows(21);
    CharRows(24);
    GroupIs(g, 43, 14, 21, 21, 24);
  }

  lemma World(g: Bytes)
    requires g == [0xB5, 0x59, 0xF7, 0x5B]
    ensures EncodeGroup(g) == [87, 111, 114, 108, 100]
  {
    hide Char, DigitAt;
    assert Value(g) == Horner(58, 24, 27, 21, 13);
    HornerDigits(58, 24, 27, 21, 13);
    CharRows(58);
    CharRows(24);
    CharRows(27);
    CharRows(21);
    CharRows(13);
    GroupIs(g, 58, 24, 27, 21, 13);
  }

  lemma GroupIs(g: Bytes, a: nat, b: nat, c: nat, d: nat, e: nat)
    requires |g| == 4 && a < 85 && b < 85 && c < 85 && d < 85 && e < 85
    requires DigitAt(Value(g), 4) == a && DigitAt(Value(g), 3) == b && DigitAt(Value(g), 2) == c && DigitAt(Value(g), 1) == d && DigitAt(Value(g), 0) == e
    ensures EncodeGroup(g) == [Char(a), Char(b), Char(c), Char(d), Char(e)]
  {
    hide Char, DigitAt, Value;
  }

  // ---------- padding

  function Zeros(n: nat): (z: Bytes)
    ensures |z| == n
  {
    seq(n, _ => 0)
  }

  /** The tail of at most three bytes is filled up with zeros, and the number of bytes in the last group
      goes ahead of everything as a character. */
  function EncodePadded(s: Bytes): Bytes {
    if s == [] then [] else
    var t := |s| % 4;
    [48 + if t == 0 then 4 else t] + Encode(s[..|s| - t]) + if t == 0 then [] else EncodeGroup(s[|s| - t..] + Zeros(4 - t))
  }

  function DecodePadded(c: Bytes): Bytes
    requires Decodable(c)
  {
    if c == [] || (|c| - 1) % 5 != 0 || !(49 <= c[0] <= 52) then [] else
    Decode(c[1..|c| - 5]) + DecodeGroup(c[|c| - 5..])[..c[0] - 48]
  }

  /** What the decoder may be given. */
  predicate Decodable(c: Bytes) { |c| != 1 && (|c| > 0 ==> Readable(c[1..])) }

  /** Decoding undoes encoding, for every string of bytes. */
  lemma PaddedRoundTrip(s: Bytes)
    ensures Decodable(EncodePadded(s)) && DecodePadded(EncodePadded(s)) == s
    ensures Canonical(EncodePadded(s))
  {
    hide Decodable, DecodePadded, EncodePadded, Canonical;
    if s == [] {
      NothingPadded();
    } else {
      var init, last, k := Groups(s);
      Unpadded(init, last, k, EncodePadded(s));
    }
  }

  /** The groups that are encoded: whole ones, and the last, of which `k` bytes count. */
  lemma Groups(s: Bytes) returns (init: Bytes, last: Bytes, k: nat)
    requires s != []
    ensures |init| % 4 == 0 && |last| == 4 && 1 <= k <= 4 && init + last[..k] == s
    ensures EncodePadded(s) == [48 + k] + Encode(init) + EncodeGroup(last)
  {
    hide Encode, EncodeGroup, EncodePadded;
    if |s| % 4 == 0 {
      init, last, k := WholeGroup(s);
    } else {
      init, last, k := TailGroup(s);
    }
  }

  lemma WholeGroup(s: Bytes) returns (init: Bytes, last: Bytes, k: nat)
    requires s != [] && |s| % 4 == 0
    ensures |init| % 4 == 0 && |last| == 4 && k == 4 && init + last[..k] == s
    ensures EncodePadded(s) == [48 + k] + Encode(init) + EncodeGroup(last)
  {
    hide Encode, EncodeGroup, EncodePadded;
    var n := |s| - 4;
    init, last, k := s[..n], s[n..], 4;
    EncodeLast(s);
    NoTail(s);
    assert last[..4] == last;
    assert [52] + (Encode(init) + EncodeGroup(last)) == [52] + Encode(init) + EncodeGroup(last);
  }

  lemma EncodeLast(s: Bytes)
    requires s != [] && |s| % 4 == 0
    ensures |s| >= 4 && (|s| - 4) % 4 == 0 && Encode(s) == Encode(s[..|s| - 4]) + EncodeGroup(s[|s| - 4..])
  {
    hide EncodeGroup;
  }

  lemma NoTail(s: Bytes)
    requires s != [] && |s| % 4 == 0
    ensures EncodePadded(s) == [52] + Encode(s)
  {
    hide Encode, EncodeGroup;
    assert s[..|s| - 0] == s;
  }

  lemma TailGroup(s: Bytes) returns (init: Bytes, last: Bytes, k: nat)
    requires |s| % 4 != 0
    ensures |init| % 4 == 0 && |last| == 4 && 1 <= k <= 4 && init + last[..k] == s
    ensures EncodePadded(s) == [48 + k] + Encode(init) + EncodeGroup(last)
  {
    hide Encode, EncodeGroup;
    k := |s| % 4;
    var n := |s| - k;
    init, last := s[..n], s[n..] + Zeros(4 - k);
    assert last[..k] == s[n..];
  }

  lemma NothingPadded()
    ensures EncodePadded([]) == [] && Decodable([]) && DecodePadded([]) == [] && Canonical([])
  {
  }

  lemma Unpadded(init: Bytes, last: Bytes, k: nat, c: Bytes)
    requires |init| % 4 == 0 && |last| == 4 && 1 <= k <= 4 && c == [48 + k] + Encode(init) + EncodeGroup(last)
    ensures Decodable(c) && DecodePadded(c) == init + last[..k] && Canonical(c)
  {
    hide Encode, EncodeGroup, Decode, DecodeGroup, InTable, InAlphabet;
    RoundTrip(init);
    GroupRoundTrip(last);
    assert c[1..] == Encode(init) + EncodeGroup(last);
    assert c[1..|c| - 5] == Encode(init) && c[|c| - 5..] == EncodeGroup(last);
    PadChar(k);
  }

  lemma PadChar(k: nat)
    requires 1 <= k <= 4
    ensures InAlphabet(48 + k)
  {
    CharRows(k);
    TablesInverse(k);
  }

  // ---------- bounds

  const MAX_SIZE := 0x1_0000_0000_0000_0000

  /** `Z85_encode_bound` and `Z85_decode_bound`, in 64-bit `size_t`. */
  function EncodeBound(size: nat): nat { size * 5 % MAX_SIZE / 4 }

  function DecodeBound(size: nat): nat { size * 4 % MAX_SIZE / 5 }

  function EncodeWithPaddingBound(size: nat): nat {
    if size == 0 then 0 else
    var b := EncodeBound(size);
    b + (5 - b % 5) % 5 + 1
  }

  function DecodeWithPaddingBound(first: Byte, size: nat): nat {
    if size == 0 then 0 else
    var pad := (first + 208) % 256;
    if pad == 0 || pad > 4 then 0 else
    var bound := DecodeBound(size - 1);
    if bound + pad < 4 then 0 else bound + pad - 4
  }

  /** The bound is the length, exactly when `size * 5` does not overflow. */
  lemma EncodedLength(s: Bytes)
    requires |s| < MAX_SIZE
    ensures |EncodePadded(s)| == EncodeWithPaddingBound(|s|) <==> |s| * 5 < MAX_SIZE
  {
    var n := |s|;
    if n * 5 < MAX_SIZE {
      NoOverflow(n * 5);
    } else {
      Overflow(n * 5);
    }
    var q, t := n / 4, n % 4;
    assert n * 5 / 4 == 5 * q + t;
  }

  lemma NoOverflow(v: nat)
    requires v < MAX_SIZE
    ensures v % MAX_SIZE == v
  {
  }

  lemma Overflow(v: nat)
    requires v >= MAX_SIZE
    ensures v % MAX_SIZE <= v - MAX_SIZE
  {
  }

  /** The bound is no less than the length of what is decoded, if `size * 4` does not overflow. For a legal
      size and tail count it is that length, exactly when it does not. */
  lemma DecodedLength(c: Bytes)
    requires 0 < |c| < MAX_SIZE && Decodable(c)
    ensures (|c| - 1) * 4 < MAX_SIZE ==> |DecodePadded(c)| <= DecodeWithPaddingBound(c[0], |c|)
    ensures (|c| - 1) % 5 == 0 && 49 <= c[0] <= 52 ==>
              (|DecodePadded(c)| == DecodeWithPaddingBound(c[0], |c|) <==> (|c| - 1) * 4 < MAX_SIZE)
  {
    hide Readable, Decode, DecodeGroup;
    var n := |c| - 1;
    if n % 5 == 0 && 49 <= c[0] <= 52 {
      BodySize(n / 5, c);
      PaddedSize(c);
      if n * 4 < MAX_SIZE { NoOverflow(n * 4); } else { Overflow(n * 4); }
    }
  }

  lemma PaddedSize(c: Bytes)
    requires Decodable(c) && |c| >= 6 && (|c| - 1) % 5 == 0 && 49 <= c[0] <= 52
    ensures |DecodePadded(c)| == (|c| - 1) / 5 * 4 + c[0] - 52
  {
    hide Readable, Decode, DecodeGroup;
  }

  lemma BodySize(q: nat, c: Bytes)
    requires |c| == 5 * q + 1
    ensures (|c| - 1) * 4 / 5 == 4 * q
  {
  }

  // ---------- the loops

  /** `old` with `part` from `at` on. */
  ghost predicate Written(was: Bytes, now: Bytes, at: nat, part: Bytes) {
    at + |part| <= |was| == |now| && now == was[..at] + part + was[at + |part|..]
  }

  lemma WrittenMore(a: Bytes, b: Bytes, c: Bytes, at: nat, x: Bytes, y: Bytes)
    requires Written(a, b, at, x) && Written(b, c, at + |x|, y)
    ensures Written(a, c, at, x + y)
  {
    var n := at + |x|;
    assert b[..n] == a[..at] + x;
    assert b[n + |y|..] == a[n + |y|..];
  }

  lemma NothingWritten(a: Bytes, at: nat)
    requires at <= |a|
    ensures Written(a, a, at, [])
  {
  }

  /** One round of `Z85_encode_unsafe`. */
  method EncodeFour(source: array<Byte>, src: nat, dest: array<Byte>, dst: nat)
    requires source != dest && src + 4 <= source.Length && dst + 5 <= dest.Length
    modifies dest
    ensures Written(old(dest[..]), dest[..], dst, EncodeGroup(source[src..src + 4]))
  {
    hide Char, DigitAt;
    var v := BigEndian(source[src], source[src + 1], source[src + 2], source[src + 3]);
    assert v == Value(source[src..src + 4]);
    var d0, d1, d2, d3, d4 := DigitsByDiv85(v);
    dest[dst + 4] := Char(d4);
    dest[dst + 3] := Char(d3);
    dest[dst + 2] := Char(d2);
    dest[dst + 1] := Char(d1);
    dest[dst] := Char(d0);
    assert dest[dst..dst + 5] == EncodeGroup(source[src..src + 4]);
    assert dest[..] == dest[..dst] + dest[dst..dst + 5] + dest[dst + 5..];
  }

  /** Four divisions by way of `DIV85`; the remainders are formed without a division. */
  method DigitsByDiv85(v: nat) returns (d0: nat, d1: nat, d2: nat, d3: nat, d4: nat)
    requires v < MAX_WORD32
    ensures d0 == DigitAt(v, 4) && d1 == DigitAt(v, 3) && d2 == DigitAt(v, 2) && d3 == DigitAt(v, 1) && d4 == DigitAt(v, 0)
  {
    hide Div85, DigitAt;
    DigitsOf(v);
    TopDigit(v);
    Div85Exact(v);
    var v1 := Div85(v);
    Div85Exact(v1);
    var v2 := Div85(v1);
    Div85Exact(v2);
    var v3 := Div85(v2);
    Div85Exact(v3);
    var v4 := Div85(v3);
    d0, d1, d2, d3, d4 := v4, v3 - v4 * 85, v2 - v3 * 85, v1 - v2 * 85, v - v1 * 85;
  }

  lemma Slice(s: Bytes, from: nat, to: nat, i: nat, j: nat)
    requires from <= to <= |s| && i <= j <= to - from
    ensures s[from..to][i..j] == s[from + i..from + j]
  {
    var t := s[from..to];
    var x, y := t[i..j], s[from + i..from + j];
    forall k | 0 <= k < j - i ensures x[k] == y[k] {
      assert x[k] == t[i + k] == s[from + (i + k)];
    }
    assert x == y;
  }

  lemma EncodeStep(s: Bytes, k: nat)
    requires k % 4 == 0 && k + 4 <= |s|
    ensures Encode(s[..k + 4]) == Encode(s[..k]) + EncodeGroup(s[k..k + 4])
  {
    hide EncodeGroup;
    var t := s[..k + 4];
    assert t[..|t| - 4] == s[..k] && t[|t| - 4..] == s[k..k + 4];
  }

  lemma DecodeStep(c: Bytes, k: nat)
    requires k % 5 == 0 && k + 5 <= |c| && Readable(c)
    ensures Readable(c[..k]) && Readable(c[..k + 5]) && Readable(c[k..k + 5]) && Decode(c[..k + 5]) == Decode(c[..k]) + DecodeGroup(c[k..k + 5])
  {
    hide DecodeGroup, InTable;
    var t := c[..k + 5];
    assert t[..|t| - 5] == c[..k] && t[|t| - 5..] == c[k..k + 5];
  }

  /** `Z85_encode_unsafe`. */
  method EncodeUnsafe(source: array<Byte>, from: nat, to: nat, dest: array<Byte>, at: nat) returns (next: nat)
    requires source != dest && from <= to <= source.Length && (to - from) % 4 == 0 && at + (to - from) / 4 * 5 <= dest.Length
    modifies dest
    ensures next == at + (to - from) / 4 * 5 && Written(old(dest[..]), dest[..], at, Encode(source[from..to]))
  {
    hide EncodeGroup, Encode, Written;
    ghost var s, was := source[from..to], dest[..];
    var src := from;
    next := at;
    NothingWritten(was, at);
    NothingCoded(s);
    while src != to
      invariant from <= src <= to && (src - from) % 4 == 0 && next == at + (src - from) / 4 * 5
      invariant s == source[from..to] && Written(was, dest[..], at, Encode(s[..src - from]))
    {
      ghost var now := dest[..];
      Slice(source[..], from, to, src - from, src - from + 4);
      EncodeFour(source, src, dest, next);
      EncodeStep(s, src - from);
      WrittenMore(was, now, dest[..], at, Encode(s[..src - from]), EncodeGroup(s[src - from..src - from + 4]));
      src := src + 4;
      next := next + 5;
    }
    assert s[..to - from] == s;
  }

  lemma NothingCoded(s: Bytes)
    ensures Encode(s[..0]) == [] && Decode(s[..0]) == []
  {
  }

  /** One round of `Z85_decode_unsafe`, in 32 bits. */
  method DecodeFive(source: array<Byte>, src: nat, dest: array<Byte>, dst: nat)
    requires source != dest && src + 5 <= source.Length && dst + 4 <= dest.Length && Readable(source[src..src + 5])
    modifies dest
    ensures Written(old(dest[..]), dest[..], dst, DecodeGroup(source[src..src + 5]))
  {
    hide Digit, Wrap32, Horner, InTable;
    ghost var c := source[src..src + 5];
    ReadableAt(c);
    var v := Digit(source[src]);
    v := Wrap32(v * 85 + Digit(source[src + 1]));
    v := Wrap32(v * 85 + Digit(source[src + 2]));
    v := Wrap32(v * 85 + Digit(source[src + 3]));
    v := Wrap32(v * 85 + Digit(source[src + 4]));
    NumberFive(c);
    HornerWraps(Digit(c[0]), Digit(c[1]), Digit(c[2]), Digit(c[3]), Digit(c[4]));
    dest[dst], dest[dst + 1], dest[dst + 2], dest[dst + 3] := v / 16777216, v / 65536 % 256, v / 256 % 256, v % 256;
    assert dest[dst..dst + 4] == DecodeGroup(c);
    assert dest[..] == dest[..dst] + dest[dst..dst + 4] + dest[dst + 4..];
  }

  lemma ReadableAt(c: Bytes)
    requires Readable(c)
    ensures forall i :: 0 <= i < |c| ==> InTable(c[i])
  {
  }

  lemma WrapAgain(a: nat, b: nat)
    ensures Wrap32(Wrap32(a) * 85 + b) == Wrap32(a * 85 + b)
  {
    var q, r := a / MAX_WORD32, Wrap32(a);
    assert a * 85 + b == q * 85 * MAX_WORD32 + (r * 85 + b);
    var x := (r * 85 + b) / MAX_WORD32;
    DivUnique(a * 85 + b, MAX_WORD32, q * 85 + x, Wrap32(r * 85 + b));
  }

  /** Wrapping at every step is wrapping at the end. */
  lemma HornerWraps(a: nat, b: nat, c: nat, d: nat, e: nat)
    ensures Wrap32(Wrap32(Wrap32(Wrap32(a * 85 + b) * 85 + c) * 85 + d) * 85 + e) == Wrap32(Horner(a, b, c, d, e))
  {
    hide Wrap32;
    WrapAgain(a * 85 + b, c);
    WrapAgain((a * 85 + b) * 85 + c, d);
    WrapAgain(((a * 85 + b) * 85 + c) * 85 + d, e);
  }

  /** `Z85_decode_unsafe`. */
  method DecodeUnsafe(source: array<Byte>, from: nat, to: nat, dest: array<Byte>, at: nat) returns (next: nat)
    requires source != dest && from <= to <= source.Length && (to - from) % 5 == 0 && at + (to - from) / 5 * 4 <= dest.Length
    requires Readable(source[from..to])
    modifies dest
    ensures next == at + (to - from) / 5 * 4 && Written(old(dest[..]), dest[..], at, Decode(source[from..to]))
  {
    hide DecodeGroup, Decode, Written, Readable;
    ghost var c, was := source[from..to], dest[..];
    var src := from;
    next := at;
    NothingWritten(was, at);
    NothingCoded(c);
    NothingReadable(c);
    while src != to
      invariant from <= src <= to && (src - from) % 5 == 0 && next == at + (src - from) / 5 * 4
      invariant c == source[from..to] && Readable(c[..src - from]) && Written(was, dest[..], at, Decode(c[..src - from]))
    {
      ghost var now := dest[..];
      Slice(source[..], from, to, src - from, src - from + 5);
      DecodeStep(c, src - from);
      DecodeFive(source, src, dest, next);
      WrittenMore(was, now, dest[..], at, Decode(c[..src - from]), DecodeGroup(c[src - from..src - from + 5]));
      src := src + 5;
      next := next + 4;
    }
    assert c[..to - from] == c;
  }

  lemma NothingReadable(c: Bytes)
    ensures Readable(c[..0])
  {
  }

  // ---------- the padded codecs

  lemma TailBuffer(b: Bytes, part: Bytes, n: nat)
    requires |b| == 4 && |part| == n <= 4 && forall k :: 0 <= k < 4 ==> b[k] == if k < n then part[k] else 0
    ensures b == part + Zeros(4 - n)
  {
  }

  /** The `switch` over the tail's bytes. */
  method EncodeTail(source: array<Byte>, end: nat, tailBytes: nat, dest: array<Byte>, at: nat) returns (next: nat)
    requires source != dest && 1 <= tailBytes <= 3 && end + tailBytes <= source.Length && at + 5 <= dest.Length
    modifies dest
    ensures next == at + 5 && Written(old(dest[..]), dest[..], at, EncodeGroup(source[end..end + tailBytes] + Zeros(4 - tailBytes)))
  {
    hide EncodeGroup, Written;
    var tailBuf := new Byte[4](_ => 0);
    if tailBytes == 3 { tailBuf[2] := source[end + 2]; }
    if tailBytes >= 2 { tailBuf[1] := source[end + 1]; }
    tailBuf[0] := source[end];
    ghost var g := source[end..end + tailBytes] + Zeros(4 - tailBytes);
    TailBuffer(tailBuf[0..4], source[end..end + tailBytes], tailBytes);
    next := EncodeUnsafe(tailBuf, 0, 4, dest, at);
    OneGroup(g);
  }

  /** `Z85_encode_with_padding`. */
  method EncodeWithPadding(source: array?<Byte>, dest: array?<Byte>, inputSize: nat) returns (size: nat)
    requires source != null ==> inputSize <= source.Length
    requires source != null && dest != null ==> source != dest && |EncodePadded(source[..inputSize])| <= dest.Length
    modifies dest
    ensures source == null || dest == null ==> size == 0
    ensures source != null && dest != null ==>
              size == |EncodePadded(source[..inputSize])| && Written(old(dest[..]), dest[..], 0, EncodePadded(source[..inputSize]))
  {
    hide EncodeGroup, Written, EncodePadded, Encode;
    if source == null || dest == null { return 0; }
    ghost var s, was := source[..inputSize], dest[..];
    if inputSize == 0 {
      NothingPadded();
      NothingWritten(was, 0);
      assert s == [];
      return 0;
    }
    var tailBytes := inputSize % 4;
    WholeFours(inputSize, tailBytes);
    ghost var end := inputSize - tailBytes;
    PaddedParts(s, tailBytes, end);
    ArrayCut(source, inputSize, 0, end);
    ArrayCut(source, inputSize, end, inputSize);
    assert s[..end] == s[0..end] && s[end..] == s[end..inputSize];
    size := EncodeParts(source, dest, inputSize, tailBytes);
  }

  /** The tail count, the whole groups, and the tail. */
  method EncodeParts(source: array<Byte>, dest: array<Byte>, inputSize: nat, tailBytes: nat) returns (size: nat)
    requires source != dest && tailBytes <= inputSize <= source.Length && tailBytes < 4 && (inputSize - tailBytes) % 4 == 0
    requires 1 + (inputSize - tailBytes) / 4 * 5 + (if tailBytes == 0 then 0 else 5) <= dest.Length
    modifies dest
    ensures var out := [48 + if tailBytes == 0 then 4 else tailBytes] + Encode(source[0..inputSize - tailBytes]) +
                       if tailBytes == 0 then [] else EncodeGroup(source[inputSize - tailBytes..inputSize] + Zeros(4 - tailBytes));
            size == |out| && Written(old(dest[..]), dest[..], 0, out)
  {
    hide EncodeGroup, Written, Encode, Zeros;
    var end := inputSize - tailBytes;
    ghost var was, body, last := dest[..], source[0..end], source[end..inputSize];
    ghost var head: Bytes := [48 + if tailBytes == 0 then 4 else tailBytes];
    dest[0] := if tailBytes == 0 then 52 else 48 + tailBytes;
    FirstWritten(was, dest[..], head);
    ghost var b1 := dest[..];
    size := EncodeUnsafe(source, 0, end, dest, 1);
    assert size == |head + Encode(body)|;
    WrittenMore(was, b1, dest[..], 0, head, Encode(body));
    if tailBytes > 0 {
      ghost var b2 := dest[..];
      size := EncodeTail(source, end, tailBytes, dest, size);
      assert last == source[end..end + tailBytes];
      WrittenMore(was, b2, dest[..], 0, head + Encode(body), EncodeGroup(last + Zeros(4 - tailBytes)));
    } else {
      assert head + Encode(body) + [] == head + Encode(body);
    }
  }

  lemma PaddedParts(s: Bytes, tailBytes: nat, end: nat)
    requires s != [] && tailBytes == |s| % 4 && end == |s| - tailBytes
    ensures end % 4 == 0
    ensures EncodePadded(s) == [48 + if tailBytes == 0 then 4 else tailBytes] + Encode(s[..end]) +
                               if tailBytes == 0 then [] else EncodeGroup(s[end..] + Zeros(4 - tailBytes))
    ensures |EncodePadded(s)| == 1 + end / 4 * 5 + if tailBytes == 0 then 0 else 5
    ensures tailBytes == 0 ==> EncodePadded(s) == [52] + Encode(s[..end])
  {
    hide EncodeGroup, Encode, Zeros;
    WholeFours(|s|, tailBytes);
    if tailBytes == 0 {
      assert [52] + Encode(s[..end]) + [] == [52] + Encode(s[..end]);
    }
  }

  lemma WholeFours(n: nat, t: nat)
    requires t == n % 4
    ensures (n - t) % 4 == 0
  {
  }

  lemma FirstWritten(was: Bytes, now: Bytes, head: Bytes)
    requires |head| == 1 && |was| >= 1 && now == was[0 := head[0]]
    ensures Written(was, now, 0, head)
  {
  }

  lemma OneGroup(g: Bytes)
    requires |g| == 4
    ensures Encode(g) == EncodeGroup(g)
  {
    hide EncodeGroup;
    assert Encode(g[..0]) == [];
  }

  lemma OneGroupBack(c: Bytes)
    requires |c| == 5 && Readable(c)
    ensures Decode(c) == DecodeGroup(c)
  {
    hide DecodeGroup, InTable;
    assert Decode(c[..0]) == [];
  }

  /** The last group goes through a buffer, and its first bytes are taken. */
  method DecodeTail(source: array<Byte>, end: nat, tailBytes: nat, dest: array<Byte>, dst: nat)
    requires source != dest && end + 5 <= source.Length && Readable(source[end..end + 5]) && 1 <= tailBytes <= 4 && dst + tailBytes <= dest.Length
    modifies dest
    ensures Written(old(dest[..]), dest[..], dst, DecodeGroup(source[end..end + 5])[..tailBytes])
  {
    hide DecodeGroup, InTable, Written;
    ghost var was, c := dest[..], source[end..end + 5];
    var tailBuf := new Byte[4](_ => 0);
    ghost var before := tailBuf[..];
    var rest := DecodeUnsafe(source, end, end + 5, tailBuf, 0);
    OneGroupBack(c);
    WholeBuffer(before, tailBuf[..], DecodeGroup(c));
    PutTail(tailBuf, tailBytes, dest, dst);
    assert tailBuf[..tailBytes] == DecodeGroup(c)[..tailBytes];
  }

  /** The `switch` over the tail's bytes. */
  method PutTail(tailBuf: array<Byte>, tailBytes: nat, dest: array<Byte>, dst: nat)
    requires tailBuf != dest && tailBuf.Length == 4 && 1 <= tailBytes <= 4 && dst + tailBytes <= dest.Length
    modifies dest
    ensures Written(old(dest[..]), dest[..], dst, tailBuf[..tailBytes])
  {
    hide Written;
    ghost var was := dest[..];
    if tailBytes == 4 { dest[dst + 3] := tailBuf[3]; }
    if tailBytes >= 3 { dest[dst + 2] := tailBuf[2]; }
    if tailBytes >= 2 { dest[dst + 1] := tailBuf[1]; }
    dest[dst] := tailBuf[0];
    TailWritten(was, dest[..], dst, tailBuf[..tailBytes]);
  }

  /** `Z85_decode_with_padding`; one character alone is not a legal input. */
  method DecodeWithPadding(source: array?<Byte>, dest: array?<Byte>, inputSize: nat) returns (size: nat)
    requires source != null ==> inputSize <= source.Length && Decodable(source[..inputSize])
    requires source != null && dest != null ==> source != dest && |DecodePadded(source[..inputSize])| <= dest.Length
    modifies dest
    ensures source == null || dest == null ==> size == 0
    ensures source != null && dest != null ==>
              size == |DecodePadded(source[..inputSize])| && Written(old(dest[..]), dest[..], 0, DecodePadded(source[..inputSize]))
  {
    hide DecodeGroup, Written, InTable, DecodePadded, Decode, Readable;
    if source == null || dest == null { return 0; }
    ghost var c, was := source[..inputSize], dest[..];
    NothingWritten(was, 0);
    Unpads(c);
    if inputSize == 0 || (inputSize - 1) % 5 != 0 { return 0; }
    if !(49 <= source[0] <= 52) { return 0; }
    ArrayCut(source, inputSize, 1, inputSize - 5);
    ArrayCut(source, inputSize, inputSize - 5, inputSize);
    assert c[|c| - 5..] == c[|c| - 5..|c|];
    PaddedSize(c);
    size := DecodeLegal(source, dest, inputSize, source[0] - 48);
  }

  /** An input of a legal size with a legal tail count. */
  method DecodeLegal(source: array<Byte>, dest: array<Byte>, inputSize: nat, tailBytes: nat) returns (size: nat)
    requires source != dest && 6 <= inputSize <= source.Length && (inputSize - 6) % 5 == 0 && 1 <= tailBytes <= 4
    requires Readable(source[1..inputSize - 5]) && Readable(source[inputSize - 5..inputSize])
    requires (inputSize - 6) / 5 * 4 + tailBytes <= dest.Length
    modifies dest
    ensures var out := Decode(source[1..inputSize - 5]) + DecodeGroup(source[inputSize - 5..inputSize])[..tailBytes];
            size == |out| && Written(old(dest[..]), dest[..], 0, out)
  {
    hide DecodeGroup, Written, InTable, Decode, Readable;
    ghost var body, last, was := source[1..inputSize - 5], source[inputSize - 5..inputSize], dest[..];
    NothingWritten(was, 0);
    var end, dst := inputSize - 5, 0;
    if end != 1 {
      dst := DecodeUnsafe(source, 1, end, dest, 0);
    } else {
      NothingDecoded(body);
    }
    assert dst == |Decode(body)|;
    ghost var b1 := dest[..];
    DecodeTail(source, end, tailBytes, dest, dst);
    ghost var tail := DecodeGroup(last)[..tailBytes];
    assert last == source[end..end + 5] && Written(b1, dest[..], |Decode(body)|, tail);
    WrittenMore(was, b1, dest[..], 0, Decode(body), tail);
    size := dst + tailBytes;
  }

  lemma ArrayCut(a: array<Byte>, n: nat, i: nat, j: nat)
    requires i <= j <= n <= a.Length
    ensures a[..n][i..j] == a[i..j]
  {
  }

  lemma NothingDecoded(c: Bytes)
    requires c == []
    ensures Readable(c) && Decode(c) == []
  {
  }

  lemma Unpads(c: Bytes)
    requires Decodable(c)
    ensures if c == [] || (|c| - 1) % 5 != 0 || !(49 <= c[0] <= 52) then DecodePadded(c) == [] else
              && |c| >= 6 && (|c| - 6) % 5 == 0 && Readable(c[1..|c| - 5]) && Readable(c[|c| - 5..])
              && DecodePadded(c) == Decode(c[1..|c| - 5]) + DecodeGroup(c[|c| - 5..])[..c[0] - 48]
  {
    hide DecodeGroup, InTable, Decode;
    if c != [] && (|c| - 1) % 5 == 0 {
      assert c[1..|c| - 5] == c[1..][..|c| - 6] && c[|c| - 5..] == c[1..][|c| - 6..];
    }
  }

  lemma WholeBuffer(was: Bytes, b: Bytes, g: Bytes)
    requires |b| == |g| == |was| == 4 && Written(was, b, 0, g)
    ensures b == g
  {
  }

  lemma TailWritten(was: Bytes, now: Bytes, at: nat, tail: Bytes)
    requires at + |tail| <= |was| == |now| && forall k :: 0 <= k < |was| ==> now[k] == if at <= k < at + |tail| then tail[k - at] else was[k]
    ensures Written(was, now, at, tail)
  {
  }

  // ---------- what the web store accepts

  /** `isalnum` in the C locale. */
  predicate Alnum(c: Byte) { 48 <= c <= 57 || 65 <= c <= 90 || 97 <= c <= 122 }

  lemma AlnumDigit(c: Byte) returns (d: nat)
    requires Alnum(c)
    ensures d < 62 && Char(d) == c
  {
    d := if c <= 57 then c - 48 else if c <= 90 then c - 65 + 36 else c - 97 + 10;
    CharRows(d);
  }

  /** `is_Z85_digit`. */
  method IsDigit(c: Byte) returns (r: bool)
    ensures r <==> InAlphabet(c)
  {
    hide Char, Digit, InTable;
    if Alnum(c) {
      ghost var d := AlnumDigit(c);
      TablesInverse(d);
      return true;
    }
    var i := 62;
    while i < 85
      invariant 62 <= i <= 85 && forall d :: 62 <= d < i ==> Char(d) != c
    {
      if c == Char(i) {
        TablesInverse(i);
        return true;
      }
      i := i + 1;
    }
    if InAlphabet(c) { CharRows(Digit(c)); }
    r := false;
  }

  /** `Z85_validate`: true when the data are refused. */
  method Validate(data: seq<Byte>) returns (bad: bool)
    ensures bad <==> !Canonical(data)
  {
    hide InAlphabet;
    var i := 0;
    while i < |data|
      invariant 0 <= i <= |data| && forall k :: 0 <= k < i ==> InAlphabet(data[k])
    {
      var ok := IsDigit(data[i]);
      if !ok { return true; }
      i := i + 1;
    }
    bad := false;
  }

  const MIN_POST := 5

  /** The tests of a POST: a length of at least five characters, all of the alphabet. */
  method AcceptPost(data: seq<Byte>) returns (ok: bool)
    ensures ok <==> |data| >= MIN_POST && Canonical(data)
  {
    if |data| < MIN_POST { return false; }
    var bad := Validate(data);
    ok := !bad;
  }

  /** Every encoding of something passes them. */
  lemma EncodingAccepted(s: Bytes)
    requires s != []
    ensures |EncodePadded(s)| >= 6 > MIN_POST && Canonical(EncodePadded(s))
  {
    hide EncodePadded, Canonical;
    PaddedRoundTrip(s);
    var init, last, k := Groups(s);
  }
}
