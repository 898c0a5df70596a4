/** Version 7 identifiers: the 16 bytes of RFC 9562 section 5.7 and their text form of section 4. */
module Uuid {
  import opened Bytes
  import Lexicographic

  // ---------------------------------------------------------------------------
  // Big-endian bytes.

  /** The low `n` bytes of `x`, most significant first. */
  function BigEndian(x: int, n: nat): (b: seq<Byte>)
    ensures |b| == n
    decreases n
  {
    if n == 0 then [] else BigEndian(x / 256, n - 1) + [x % 256]
  }

  function Value(b: seq<Byte>): nat {
    if b == [] then 0 else 256 * Value(b[..|b| - 1]) + b[|b| - 1]
  }

  function Range(n: nat): nat { if n == 0 then 1 else 256 * Range(n - 1) }

  lemma {:induction false} BigEndianValue(x: nat, n: nat)
    requires x < Range(n)
    ensures Value(BigEndian(x, n)) == x
  {
    if n > 0 {
      BigEndianValue(x / 256, n - 1);
      assert BigEndian(x, n)[..n - 1] == BigEndian(x / 256, n - 1);
    }
  }

  lemma {:induction false} ValueInjective(b: seq<Byte>, c: seq<Byte>)
    requires |b| == |c| && Value(b) == Value(c)
    ensures b == c
  {
    if b != [] {
      ValueInjective(b[..|b| - 1], c[..|c| - 1]);
      assert b == b[..|b| - 1] + [b[|b| - 1]] && c == c[..|c| - 1] + [c[|c| - 1]];
    }
  }

  /** Smaller numbers have the smaller byte at the first place where the bytes differ. */
  lemma {:induction false} BigEndianOrder(x: nat, y: nat, n: nat) returns (i: nat)
    requires x < y < Range(n)
    ensures i < n && BigEndian(x, n)[..i] == BigEndian(y, n)[..i]
    ensures BigEndian(x, n)[i] < BigEndian(y, n)[i]
  {
    var p, q := BigEndian(x / 256, n - 1), BigEndian(y / 256, n - 1);
    if x / 256 < y / 256 {
      i := BigEndianOrder(x / 256, y / 256, n - 1);
      assert BigEndian(x, n)[..i] == p[..i] && BigEndian(y, n)[..i] == q[..i];
    } else {
      i := n - 1;
      assert BigEndian(x, n)[..i] == p && BigEndian(y, n)[..i] == q;
    }
  }

  // ---------------------------------------------------------------------------
  // The layout.

  /** 48 bits of milliseconds, version 7, 12 random bits, variant 10, 62 random bits. */
  function Layout(now: int, rand: seq<Byte>): (b: seq<Byte>)
    requires |rand| == 10
    ensures |b| == 16
  {
    BigEndian(now, 6) + [0x70 + rand[0] % 16, rand[1], 0x80 + rand[2] % 64] + rand[3..]
  }

  lemma TwoBytes(v: int)
    ensures BigEndian(v, 2) == [v / 256 % 256, v % 256]
  {
    assert BigEndian(v / 256, 1) == BigEndian(v / 256 / 256, 0) + [v / 256 % 256];
  }

  lemma FourBytes(v: int)
    ensures BigEndian(v, 4) == [v / 0x100_0000 % 256, v / 0x1_0000 % 256, v / 256 % 256, v % 256]
  {
    TwoBytes(v / 0x1_0000);
    assert v / 256 / 256 == v / 0x1_0000 && v / 0x1_0000 / 256 == v / 0x100_0000;
    assert BigEndian(v / 256, 3) == BigEndian(v / 0x1_0000, 2) + [v / 256 % 256];
  }

  lemma Regroup(q: int, r: int)
    ensures q * (256 * r) == 256 * (q * r)
  {
  }

  lemma DropMultiple(x: int, m: int)
    ensures (x + 256 * m) / 256 == x / 256 + m && (x + 256 * m) % 256 == x % 256
  {
  }

  /** Multiples of 256^n do not reach the low `n` bytes. */
  lemma {:induction false} LowBytes(x: int, q: int, n: nat)
    ensures BigEndian(x + q * Range(n), n) == BigEndian(x, n)
    decreases n
  {
    if n > 0 {
      Regroup(q, Range(n - 1));
      DropMultiple(x, q * Range(n - 1));
      LowBytes(x / 256, q, n - 1);
    }
  }

  lemma Euclid(x: int, m: nat)
    requires m > 0
    ensures x % m + x / m * m == x
  {
  }

  lemma LowPart(x: int, n: nat, m: nat)
    requires m == Range(n) && m > 0
    ensures BigEndian(x % m, n) == BigEndian(x, n)
  {
    Euclid(x, m);
    LowBytes(x % m, x / m, n);
  }

  lemma Ranges()
    ensures Range(2) == 0x1_0000 && Range(4) == 0x1_0000_0000
  {
    assert Range(2) == 256 * (256 * 1) && Range(4) == 256 * (256 * Range(2));
  }

  lemma LowTwo(h: int)
    ensures BigEndian(h % 0x1_0000, 2) == BigEndian(h, 2)
  {
    Ranges();
    LowPart(h, 2, 0x1_0000);
  }

  lemma LowFour(v: int)
    ensures BigEndian(v % 0x1_0000_0000, 4) == BigEndian(v, 4)
  {
    Ranges();
    LowPart(v, 4, 0x1_0000_0000);
  }

  lemma {:induction false} Split(x: int, n: nat, m: nat)
    ensures BigEndian(x, n + m) == BigEndian(Shifted(x, m), n) + BigEndian(x, m)
    decreases m
  {
    if m == 0 {
      assert BigEndian(x, n) + [] == BigEndian(x, n);
    } else {
      Split(x / 256, n, m - 1);
    }
  }

  function Shifted(x: int, m: nat): int
    decreases m
  {
    if m == 0 then x else Shifted(x / 256, m - 1)
  }

  lemma ShiftedFour(x: int)
    ensures Shifted(x, 4) == x / 0x1_0000_0000
  {
    assert Shifted(x, 4) == Shifted(x / 256 / 256, 2) == x / 256 / 256 / 256 / 256;
  }

  /** The two writes together are the low six bytes, whatever the sign and size of the clock. */
  lemma SixBytes(now: int)
    ensures BigEndian(now / 0x1_0000_0000 % 0x1_0000, 2) + BigEndian(now % 0x1_0000_0000, 4) == BigEndian(now, 6)
  {
    Split(now, 2, 4);
    ShiftedFour(now);
    LowTwo(now / 0x1_0000_0000);
    LowFour(now);
  }

  method PutUint16(b: array<Byte>, at: nat, v: int)
    requires at + 2 <= b.Length && 0 <= v < 0x1_0000
    modifies b
    ensures b[at..at + 2] == BigEndian(v, 2)
    ensures forall k :: 0 <= k < b.Length && !(at <= k < at + 2) ==> b[k] == old(b[k])
  {
    TwoBytes(v);
    b[at] := v / 256;
    b[at + 1] := v % 256;
  }

  lemma TopByte(v: int)
    requires 0 <= v < 0x1_0000_0000
    ensures 0 <= v / 0x100_0000 < 256 && v / 0x100_0000 % 256 == v / 0x100_0000
  {
  }

  method PutUint32(b: array<Byte>, at: nat, v: int)
    requires at + 4 <= b.Length && 0 <= v < 0x1_0000_0000
    modifies b
    ensures b[at..at + 4] == BigEndian(v, 4)
    ensures forall k :: 0 <= k < b.Length && !(at <= k < at + 4) ==> b[k] == old(b[k])
  {
    FourBytes(v);
    TopByte(v);
    b[at] := v / 0x100_0000;
    b[at + 1] := v / 0x1_0000 % 256;
    b[at + 2] := v / 256 % 256;
    b[at + 3] := v % 256;
  }

  method PutTimestamp(b: array<Byte>, now: int)
    requires b.Length == 16
    modifies b
    ensures b[..6] == BigEndian(now, 6)
  {
    PutUint16(b, 0, now / 0x1_0000_0000 % 0x1_0000);
    ghost var high := b[0..2];
    PutUint32(b, 2, now % 0x1_0000_0000);
    assert b[0..2] == high;
    assert b[..6] == b[0..2] + b[2..6];
    SixBytes(now);
  }

  /** Version, variant and random bits, as the code writes and overwrites them. */
  method PutRandom(b: array<Byte>, rand: array<Byte>)
    requires b.Length == 16 && rand.Length == 10 && b != rand
    modifies b
    ensures b[..6] == old(b[..6])
    ensures b[6..] == [0x70 + rand[0] % 16, rand[1], 0x80 + rand[2] % 64] + rand[3..]
  {
    ghost var front := b[..6];
    b[6] := WithVersion(rand[0]);
    b[7] := rand[1];
    for i := 8 to 16
      invariant b[..6] == front && b[6] == 0x70 + rand[0] % 16 && b[7] == rand[1]
      invariant forall j :: 8 <= j < i ==> b[j] == rand[j - 6]
    {
      b[i] := rand[i - 6];
    }
    b[8] := WithVariant(b[8]);
    assert b[6..9] == [0x70 + rand[0] % 16, rand[1], 0x80 + rand[2] % 64];
    assert b[9..] == rand[3..];
    assert b[6..] == b[6..9] + b[9..];
  }

  // ---------------------------------------------------------------------------
  // The text.

  const HEX: string := "0123456789abcdef"

  function HexDigit(x: int): char
    requires 0 <= x < 16
  {
    if x < 10 then '0' + x as char else 'a' + (x - 10) as char
  }

  method Digits(v: Byte) returns (high: char, low: char)
    ensures high == HexDigit(v / 16) && low == HexDigit(v % 16)
  {
    var h, l := Nibbles(v);
    HexTable(h);
    HexTable(l);
    high, low := HEX[h], HEX[l];
  }

  lemma HexTable(x: nat)
    requires x < 16
    ensures HEX[x] == HexDigit(x)
  {
  }

  /** Column of the first digit of byte `i`: dashes follow bytes 3, 5, 7 and 9. */
  function Column(i: nat): nat {
    2 * i + (if i < 4 then 0 else if i < 6 then 1 else if i < 8 then 2 else if i < 10 then 3 else 4)
  }

  predicate IsDash(k: nat) { k == 8 || k == 13 || k == 18 || k == 23 }

  predicate Encodes(text: string, at: nat, v: Byte) {
    at + 1 < |text| && text[at] == HexDigit(v / 16) && text[at + 1] == HexDigit(v % 16)
  }

  predicate Filled(text: string, b: seq<Byte>, n: nat) {
    |text| == 36 && n <= |b| && forall i :: 0 <= i < n ==> Encodes(text, Column(i), b[i])
  }

  /** The canonical 8-4-4-4-12 form of 16 bytes. */
  predicate IsText(text: string, b: seq<Byte>) {
    |b| == 16 && Filled(text, b, 16) && text[8] == '-' && text[13] == '-' && text[18] == '-' && text[23] == '-'
  }

  method Encode(out: array<char>, dst: nat, b: array<Byte>, src: nat)
    requires out.Length == 36 && b.Length == 16 && src < 16 && dst == Column(src)
    requires Filled(out[..], b[..], src)
    modifies out
    ensures Filled(out[..], b[..], src + 1)
    ensures forall k :: 0 <= k < 36 && k != dst && k != dst + 1 ==> out[k] == old(out[k])
  {
    out[dst], out[dst + 1] := Digits(b[src]);
  }

  method Dash(out: array<char>, k: nat, ghost b: seq<Byte>, ghost n: nat)
    requires out.Length == 36 && IsDash(k) && Filled(out[..], b, n) && n <= 16
    modifies out
    ensures Filled(out[..], b, n) && out[k] == '-'
    ensures forall j :: 0 <= j < 36 && j != k ==> out[j] == old(out[j])
  {
    out[k] := '-';
  }

  method FormatFront(out: array<char>, b: array<Byte>)
    requires out.Length == 36 && b.Length == 16
    modifies out
    ensures Filled(out[..], b[..], 8) && out[8] == '-' && out[13] == '-'
  {
    Encode(out, 0, b, 0);
    Encode(out, 2, b, 1);
    Encode(out, 4, b, 2);
    Encode(out, 6, b, 3);
    Dash(out, 8, b[..], 4);
    Encode(out, 9, b, 4);
    Encode(out, 11, b, 5);
    Dash(out, 13, b[..], 6);
    Encode(out, 14, b, 6);
    Encode(out, 16, b, 7);
  }

  method FormatMiddle(out: array<char>, b: array<Byte>)
    requires out.Length == 36 && b.Length == 16 && Filled(out[..], b[..], 8)
    modifies out
    ensures Filled(out[..], b[..], 10) && out[18] == '-' && out[23] == '-'
    ensures forall k :: 0 <= k < 18 ==> out[k] == old(out[k])
  {
    Dash(out, 18, b[..], 8);
    Encode(out, 19, b, 8);
    Encode(out, 21, b, 9);
    Dash(out, 23, b[..], 10);
  }

  method FormatBack(out: array<char>, b: array<Byte>)
    requires out.Length == 36 && b.Length == 16 && Filled(out[..], b[..], 10)
    modifies out
    ensures Filled(out[..], b[..], 16)
    ensures forall k :: 0 <= k < 24 ==> out[k] == old(out[k])
  {
    Encode(out, 24, b, 10);
    Encode(out, 26, b, 11);
    Encode(out, 28, b, 12);
    Encode(out, 30, b, 13);
    Encode(out, 32, b, 14);
    Encode(out, 34, b, 15);
  }

  method Format(b: array<Byte>) returns (text: string)
    requires b.Length == 16
    ensures IsText(text, b[..])
  {
    var out := new char[36](i => ' ');
    FormatFront(out, b);
    FormatMiddle(out, b);
    FormatBack(out, b);
    text := out[..];
  }

  /** The form spelled out: four dashes, and each byte as two lower case digits, high one first. */
  lemma CanonicalForm(text: string, b: seq<Byte>, i: nat)
    requires IsText(text, b) && i < 16
    ensures |text| == 36 && text[8] == '-' && text[13] == '-' && text[18] == '-' && text[23] == '-'
    ensures var k := 2 * i + (if i < 4 then 0 else if i < 6 then 1 else if i < 8 then 2 else if i < 10 then 3 else 4);
            text[k] == "0123456789abcdef"[b[i] / 16] && text[k + 1] == "0123456789abcdef"[b[i] % 16]
  {
    assert Encodes(text, Column(i), b[i]);
    HexTable(b[i] / 16);
    HexTable(b[i] % 16);
  }

  /** The generator, given the clock and ten random bytes. */
  method NewV7(now: int, rand: array<Byte>) returns (text: string)
    requires rand.Length == 10
    ensures IsText(text, Layout(now, rand[..]))
  {
    var b := new Byte[16](i => 0);
    PutTimestamp(b, now);
    PutRandom(b, rand);
    assert b[..] == b[..6] + b[6..];
    text := Format(b);
  }

  // ---------------------------------------------------------------------------
  // Reading the fields back from the text.

  function HexValue(c: char): nat {
    if '0' <= c <= '9' then (c - '0') as nat else if 'a' <= c <= 'f' then 10 + (c - 'a') as nat else 0
  }

  function ReadByte(text: string, i: nat): nat
    requires i < 16 && |text| == 36
  {
    16 * HexValue(text[Column(i)]) + HexValue(text[Column(i) + 1])
  }

  /** Bytes `i` up to `j` of the text, as one number. */
  function Field(text: string, i: nat, j: nat): nat
    requires i <= j <= 16 && |text| == 36
    decreases j
  {
    if i == j then 0 else 256 * Field(text, i, j - 1) + ReadByte(text, j - 1)
  }

  lemma ReadsByte(text: string, b: seq<Byte>, i: nat)
    requires IsText(text, b) && i < 16
    ensures ReadByte(text, i) == b[i]
  {
    assert Encodes(text, Column(i), b[i]);
  }

  lemma ValueSnoc(b: seq<Byte>, v: Byte)
    ensures Value(b + [v]) == 256 * Value(b) + v
  {
    assert (b + [v])[..|b|] == b;
  }

  lemma {:induction false} ReadsField(text: string, b: seq<Byte>, i: nat, j: nat)
    requires IsText(text, b) && i <= j <= 16
    ensures Field(text, i, j) == Value(b[i..j])
    decreases j
  {
    if i < j {
      ReadsField(text, b, i, j - 1);
      ReadsByte(text, b, j - 1);
      ValueSnoc(b[i..j - 1], b[j - 1]);
      assert b[i..j] == b[i..j - 1] + [b[j - 1]];
    }
  }

  const MILLISECONDS: nat := 0x1_0000_0000_0000

  lemma SixByteRange()
    ensures Range(6) == MILLISECONDS
  {
    assert Range(3) == 256 * (256 * 256);
    assert Range(6) == 256 * (256 * (256 * Range(3)));
  }

  lemma ReadsMillisecond(text: string, now: nat, rand: seq<Byte>)
    requires |rand| == 10 && now < MILLISECONDS && IsText(text, Layout(now, rand))
    ensures Field(text, 0, 6) == now
  {
    ReadsField(text, Layout(now, rand), 0, 6);
    assert Layout(now, rand)[0..6] == BigEndian(now, 6);
    SixByteRange();
    BigEndianValue(now, 6);
  }

  lemma ReadsTags(text: string, now: nat, rand: seq<Byte>)
    requires |rand| == 10 && IsText(text, Layout(now, rand))
    ensures ReadByte(text, 6) == 0x70 + rand[0] % 16 && ReadByte(text, 7) == rand[1]
    ensures ReadByte(text, 8) == 0x80 + rand[2] % 64
  {
    var b := Layout(now, rand);
    ReadsByte(text, b, 6);
    ReadsByte(text, b, 7);
    ReadsByte(text, b, 8);
  }

  lemma ReadsTail(text: string, now: nat, rand: seq<Byte>)
    requires |rand| == 10 && IsText(text, Layout(now, rand))
    ensures Field(text, 9, 16) == Value(rand[3..])
  {
    ReadsField(text, Layout(now, rand), 9, 16);
    assert Layout(now, rand)[9..16] == rand[3..];
  }

  lemma Tags(v: nat, w: nat, r: Byte, q: Byte)
    requires v == 0x70 + r % 16 && w == 0x80 + q % 64
    ensures v / 16 == 7 && v % 16 == r % 16 && w / 64 == 2 && w % 64 == q % 64
  {
  }

  /** The millisecond, the version, the variant and all 74 random bits are in the text. */
  lemma ReadBack(text: string, now: nat, rand: seq<Byte>)
    requires |rand| == 10 && now < MILLISECONDS && IsText(text, Layout(now, rand))
    ensures Field(text, 0, 6) == now
    ensures ReadByte(text, 6) / 16 == 7 && ReadByte(text, 8) / 64 == 2
    ensures ReadByte(text, 6) % 16 == rand[0] % 16 && ReadByte(text, 7) == rand[1]
    ensures ReadByte(text, 8) % 64 == rand[2] % 64 && Field(text, 9, 16) == Value(rand[3..])
  {
    ReadsMillisecond(text, now, rand);
    ReadsTags(text, now, rand);
    ReadsTail(text, now, rand);
    Tags(ReadByte(text, 6), ReadByte(text, 8), rand[0], rand[2]);
  }

  /** What two generations with the same text have in common: the millisecond and the random
      bits, byte for byte. */
  lemma SameTextSameFields(text: string, now: nat, rand: seq<Byte>, now': nat, rand': seq<Byte>)
    requires |rand| == 10 && now < MILLISECONDS && IsText(text, Layout(now, rand))
    requires |rand'| == 10 && now' < MILLISECONDS && IsText(text, Layout(now', rand'))
    ensures now == now'
    ensures rand[0] % 16 == rand'[0] % 16 && rand[1] == rand'[1]
    ensures rand[2] % 64 == rand'[2] % 64 && rand[3..] == rand'[3..]
  {
    ReadBack(text, now, rand);
    ReadBack(text, now', rand');
    ValueInjective(rand[3..], rand'[3..]);
  }

  /** No two byte strings have the same text, and no byte string has two. */
  lemma TextInjective(text: string, text': string, b: seq<Byte>, b': seq<Byte>)
    requires IsText(text, b) && IsText(text', b')
    ensures text == text' <==> b == b'
  {
    if text == text' {
      forall i | 0 <= i < 16 ensures b[i] == b'[i] {
        ReadsByte(text, b, i);
        ReadsByte(text', b', i);
      }
    }
    if b == b' {
      forall k: nat | k < 36 ensures text[k] == text'[k] {
        SameColumn(text, text', b, 16, k);
      }
    }
  }

  function ByteAt(k: nat): nat {
    if k < 8 then k / 2 else if k < 13 then (k - 1) / 2 else if k < 18 then (k - 2) / 2
    else if k < 23 then (k - 3) / 2 else (k - 4) / 2
  }

  /** Texts of bytes that agree on the first `n` agree up to the columns of byte `n`. */
  lemma SameColumn(text: string, text': string, b: seq<Byte>, n: nat, k: nat)
    requires n <= 16 && Filled(text, b, n) && Filled(text', b, n) && k < Column(n) && k < 36
    requires forall j: nat :: IsDash(j) ==> text[j] == text'[j]
    ensures text[k] == text'[k]
  {
    if !IsDash(k) {
      var i := ByteAt(k);
      assert i < n && (k == Column(i) || k == Column(i) + 1);
      assert Encodes(text, Column(i), b[i]) && Encodes(text', Column(i), b[i]);
    }
  }

  lemma HexOrder(x: nat, y: nat)
    requires x < y < 16
    ensures HexDigit(x) < HexDigit(y)
  {
  }

  /** A later millisecond gives a text that is lexicographically larger, whatever the random bits. */
  lemma TextOrder(text: string, text': string, now: nat, later: nat, rand: seq<Byte>, rand': seq<Byte>)
    requires |rand| == 10 && |rand'| == 10 && now < later < MILLISECONDS
    requires IsText(text, Layout(now, rand)) && IsText(text', Layout(later, rand'))
    ensures Lexicographic.Less(text, text')
  {
    SixByteRange();
    var i := BigEndianOrder(now, later, 6);
    var b, b' := Layout(now, rand), Layout(later, rand');
    assert b[..i] == BigEndian(now, 6)[..i] && b'[..i] == BigEndian(later, 6)[..i];
    assert b[i] == BigEndian(now, 6)[i] && b'[i] == BigEndian(later, 6)[i];
    FirstDigit(text, text', b, b', i);
  }

  lemma FirstDigit(text: string, text': string, b: seq<Byte>, b': seq<Byte>, i: nat)
    requires IsText(text, b) && IsText(text', b') && i < 16
    requires b[..i] == b'[..i] && b[i] < b'[i]
    ensures Lexicographic.Less(text, text')
  {
    assert Encodes(text, Column(i), b[i]) && Encodes(text', Column(i), b'[i]);
    assert forall j :: 0 <= j < i ==> b[j] == b[..i][j] == b'[..i][j] == b'[j];
    forall k: nat | k < Column(i) ensures text[k] == text'[k] {
      SameColumn(text, text', b, i, k);
    }
    var k := if b[i] / 16 == b'[i] / 16 then Column(i) + 1 else Column(i);
    if b[i] / 16 == b'[i] / 16 {
      HexOrder(b[i] % 16, b'[i] % 16);
    } else {
      HexOrder(b[i] / 16, b'[i] / 16);
    }
    assert text[..k] == text'[..k];
    Lexicographic.LessAtFirstDifference(text, text', k);
  }
}
