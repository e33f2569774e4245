/**
 The id generator and the id check of server/src/common/ids.ts: a UUIDv7 whose 48-bit
 millisecond timestamp and 12-bit counter (section 6.2, Method 1 of RFC 9562) are packed into
 16 bytes and printed as lower-case hex with dashes.

 The module carries the order of the pair (timestamp, counter) through bytes, hexadecimal
 digits and dashes into the order of the printed strings.
 */
module Uuid {
  import opened Bits
  import opened Characters
  import opened Options

  type byte = x: int | 0 <= x < 256

  /** 2^48: the first value that Buffer.writeUIntBE refuses to put into six bytes. */
  const TIMESTAMP_END: nat := 0x1_0000_0000_0000
  const COUNTER_SIZE: nat := 0x1000

  // ---------------------------------------------------------------- base-16 digits

  /** The k low-order hexadecimal digits of v, most significant first. */
  function Digits(v: nat, k: nat): (d: seq<nat>)
    ensures |d| == k
    ensures forall i :: 0 <= i < k ==> d[i] < 16
  {
    if k == 0 then [] else Digits(v / 16, k - 1) + [v % 16]
  }

  function Value(d: seq<nat>): nat {
    if d == [] then 0 else 16 * Value(d[..|d| - 1]) + d[|d| - 1]
  }

  function Pow16(k: nat): nat {
    if k == 0 then 1 else 16 * Pow16(k - 1)
  }

  lemma {:induction false} ValueOfDigits(v: nat, k: nat)
    requires v < Pow16(k)
    ensures Value(Digits(v, k)) == v
  {
    if k > 0 {
      ValueOfDigits(v / 16, k - 1);
      assert Digits(v, k)[..k - 1] == Digits(v / 16, k - 1);
    }
  }

  /** Fixed-width digits order like the numbers they stand for; i is where they part. */
  lemma {:induction false} NumericOrderIsDigitOrder(v: nat, w: nat, k: nat) returns (i: nat)
    requires v < w < Pow16(k)
    ensures i < k
    ensures Digits(v, k)[..i] == Digits(w, k)[..i]
    ensures Digits(v, k)[i] < Digits(w, k)[i]
  {
    var d, e := Digits(v, k), Digits(w, k);
    var d', e' := Digits(v / 16, k - 1), Digits(w / 16, k - 1);
    if v / 16 < w / 16 {
      i := NumericOrderIsDigitOrder(v / 16, w / 16, k - 1);
      assert d[..i] == d'[..i] && e[..i] == e'[..i];
    } else {
      i := k - 1;
      assert d[..i] == d' && e[..i] == e';
    }
  }

  // ---------------------------------------------------------------- bytes and text

  /** Buffer.writeUIntBE: n as k bytes, most significant first. */
  function BigEndian(n: nat, k: nat): (b: seq<byte>)
    ensures |b| == k
  {
    if k == 0 then [] else BigEndian(n / 256, k - 1) + [n % 256]
  }

  function Nibbles(b: seq<byte>): (d: seq<nat>)
    ensures |d| == 2 * |b|
    ensures forall i :: 0 <= i < |d| ==> d[i] < 16
  {
    if b == [] then [] else Nibbles(b[..|b| - 1]) + [b[|b| - 1] / 16, b[|b| - 1] % 16]
  }

  /** Buffer.toString('hex'). */
  function Hex(b: seq<byte>): (h: string)
    ensures |h| == 2 * |b|
  {
    var d := Nibbles(b);
    seq(|d|, i requires 0 <= i < |d| => HexChar(d[i]))
  }

  function Dashed(h: string): (s: string)
    requires |h| == 32
    ensures |s| == 36
  {
    h[..8] + "-" + h[8..12] + "-" + h[12..16] + "-" + h[16..20] + "-" + h[20..]
  }

  /** The 16 bytes newUuid leaves in its buffer; `random` is what randomBytes put there. */
  function Packed(ms: nat, count: nat, random: seq<byte>): (b: seq<byte>)
    requires count < COUNTER_SIZE && |random| == 16
    ensures |b| == 16
  {
    BigEndian(ms, 6) + [0x70 + count / 256, count % 256, 0x80 + random[8] % 64] + random[9..]
  }

  function Encode(ms: nat, count: nat, random: seq<byte>): (s: string)
    requires count < COUNTER_SIZE && |random| == 16
    ensures |s| == 36
  {
    Dashed(Hex(Packed(ms, count, random)))
  }

  /** The shift and mask operations of newUuid are the arithmetic of Advance and Packed. */
  lemma MasksAreArithmetic(start: nat, count: nat, b: byte)
    requires count < COUNTER_SIZE
    ensures And(start, 0x7ff) == start % 0x800
    ensures Or(0x70, Shr(count, 8)) == 0x70 + count / 256
    ensures And(count, 0xff) == count % 256
    ensures Or(And(b, 0x3f), 0x80) == 0x80 + b % 64
  {
    assert Pow2(4) == 16;
    assert Pow2(6) == 4 * Pow2(4);
    assert Pow2(8) == 4 * Pow2(6);
    assert Pow2(11) == 8 * Pow2(8);
    AndMask(start, 11);
    ShrDivides(count, 8);
    OrAdds(0x70, count / 256, 4);
    AndMask(count, 8);
    AndMask(b, 6);
    OrAdds(0x80, b % 64, 6);
  }

  // ---------------------------------------------------------------- the accepted form

  predicate IsDashPosition(i: int) {
    i == 8 || i == 13 || i == 18 || i == 23
  }

  /** UUID_RE: lower-case 8-4-4-4-12 hexadecimal. */
  predicate IsUuid(s: string) {
    |s| == 36 &&
    forall i :: 0 <= i < |s| ==> if IsDashPosition(i) then s[i] == '-' else IsHexChar(s[i])
  }

  /** What a request field may hold: a string or some other JSON value. */
  datatype Field = Text(text: string) | NotText

  datatype Parsed = Accepted(id: string) | InvalidId(field: string)

  function ParseUuid(value: Field, field: string): (r: Parsed)
    ensures r.Accepted? ==> value == Text(r.id) && IsUuid(r.id)
    ensures r.InvalidId? ==> r.field == field && (value.NotText? || !IsUuid(value.text))
    ensures r.Accepted? <==>
            && value.Text? && |value.text| == 36
            && forall i :: 0 <= i < 36 ==>
                 if i in {8, 13, 18, 23} then value.text[i] == '-'
                 else '0' <= value.text[i] <= '9' || 'a' <= value.text[i] <= 'f'
  {
    if value.Text? && IsUuid(value.text) then Accepted(value.text) else InvalidId(field)
  }

  function HexValue(h: string): nat {
    Value(seq(|h|, i requires 0 <= i < |h| => HexDigitValue(h[i])))
  }

  /** The timestamp a reader takes from a UUIDv7 string. */
  function TimestampOf(s: string): nat
    requires |s| == 36
  {
    HexValue(s[..8] + s[9..13])
  }

  /** The counter in rand_a. */
  function CounterOf(s: string): nat
    requires |s| == 36
  {
    HexValue(s[15..18])
  }

  // ---------------------------------------------------------------- from numbers to text

  lemma {:induction false} NibblesOfBigEndian(n: nat, k: nat)
    ensures Nibbles(BigEndian(n, k)) == Digits(n, 2 * k)
  {
    if k > 0 {
      NibblesOfBigEndian(n / 256, k - 1);
      TwoDigits(n, 2 * k - 2);
      ByteNibbles(n);
      LastByte(BigEndian(n / 256, k - 1), n % 256);
    }
  }

  lemma TwoDigits(n: nat, k: nat)
    ensures Digits(n, k + 2) == Digits(n / 16 / 16, k) + [n / 16 % 16, n % 16]
  {
    assert Digits(n, k + 2) == Digits(n / 16, k + 1) + [n % 16];
  }

  lemma ByteNibbles(n: nat)
    ensures n / 16 / 16 == n / 256 && n % 256 / 16 == n / 16 % 16 && n % 256 % 16 == n % 16
  {
  }

  lemma LastByte(b: seq<byte>, last: byte)
    ensures Nibbles(b + [last]) == Nibbles(b) + [last / 16, last % 16]
  {
    assert (b + [last])[..|b|] == b;
  }

  lemma {:induction false} NibblesConcat(a: seq<byte>, b: seq<byte>)
    ensures Nibbles(a + b) == Nibbles(a) + Nibbles(b)
  {
    if b == [] {
      assert a + b == a;
    } else {
      NibblesConcat(a, b[..|b| - 1]);
      assert (a + b)[..|a + b| - 1] == a + b[..|b| - 1];
    }
  }

  /** The first eight bytes, read as one number: timestamp, version nibble, counter. */
  function Prefix(ms: nat, count: nat): nat {
    65536 * ms + 0x7000 + count
  }

  lemma LeadingNibbles(ms: nat, count: nat, random: seq<byte>)
    requires count < COUNTER_SIZE && |random| == 16
    ensures Nibbles(Packed(ms, count, random))[..16] == Digits(Prefix(ms, count), 16)
  {
    var v := Prefix(ms, count);
    var head := BigEndian(v, 8);
    assert v / 256 == 256 * ms + 0x70 + count / 256;
    assert v / 256 / 256 == ms;
    assert head == BigEndian(v / 256, 7) + [v % 256];
    assert BigEndian(v / 256, 7) == BigEndian(ms, 6) + [0x70 + count / 256];
    var rest: seq<byte> := [0x80 + random[8] % 64] + random[9..];
    assert Packed(ms, count, random) == head + rest;
    NibblesConcat(head, rest);
    NibblesOfBigEndian(v, 8);
  }

  /** Where the i-th hexadecimal digit stands in the dashed string. */
  function Place(i: nat): nat {
    i + (if i < 8 then 0 else if i < 12 then 1 else if i < 16 then 2 else if i < 20 then 3 else 4)
  }

  lemma DashedAt(h: string)
    requires |h| == 32
    ensures forall i :: 0 <= i < 32 ==> Place(i) < 36 && Dashed(h)[Place(i)] == h[i]
    ensures forall p :: 0 <= p < 36 && IsDashPosition(p) ==> Dashed(h)[p] == '-'
  {
  }

  lemma EveryPlace(p: nat) returns (i: nat)
    requires p < 36 && !IsDashPosition(p)
    ensures i < 32 && Place(i) == p
  {
    i := p - (if p < 8 then 0 else if p < 13 then 1 else if p < 18 then 2 else if p < 23 then 3 else 4);
  }

  /** JavaScript's `<` on strings. */
  ghost predicate StringLess(s: string, t: string) {
    exists i :: 0 <= i <= |s| && i < |t| && s[..i] == t[..i] && (i == |s| || s[i] < t[i])
  }

  lemma DashedKeepsOrder(g: string, h: string, i: nat)
    requires |g| == |h| == 32 && i < 32
    requires g[..i] == h[..i] && g[i] < h[i]
    ensures StringLess(Dashed(g), Dashed(h))
  {
    DashedAt(g);
    DashedAt(h);
    var p := Place(i);
    forall q | 0 <= q < p
      ensures Dashed(g)[q] == Dashed(h)[q]
    {
      if !IsDashPosition(q) {
        var j := EveryPlace(q);
        assert g[j] == g[..i][j] && h[j] == h[..i][j];
      }
    }
    assert Dashed(g)[..p] == Dashed(h)[..p];
  }

  lemma HexKeepsOrder(b: seq<byte>, c: seq<byte>, i: nat)
    requires |b| == |c| == 16 && i < 16
    requires Nibbles(b)[..16][..i] == Nibbles(c)[..16][..i] && Nibbles(b)[..16][i] < Nibbles(c)[..16][i]
    ensures Hex(b)[..i] == Hex(c)[..i] && Hex(b)[i] < Hex(c)[i]
  {
    hide Nibbles;
    var d, e := Nibbles(b), Nibbles(c);
    forall j | 0 <= j < i ensures Hex(b)[j] == Hex(c)[j] {
      assert d[j] == d[..16][..i][j] && e[j] == e[..16][..i][j];
    }
  }

  lemma EncodeKeepsOrder(ms: nat, count: nat, random: seq<byte>, ms': nat, count': nat, random': seq<byte>)
    requires count < COUNTER_SIZE && count' < COUNTER_SIZE && |random| == |random'| == 16
    requires ms' < TIMESTAMP_END
    requires ms < ms' || (ms == ms' && count < count')
    ensures StringLess(Encode(ms, count, random), Encode(ms', count', random'))
  {
    hide Digits;
    hide Packed;
    hide Hex;
    hide Dashed;
    hide StringLess;
    hide Pow16;
    assert Pow16(16) == 65536 * TIMESTAMP_END by { Pow16Of16(); }
    LeadingNibbles(ms, count, random);
    LeadingNibbles(ms', count', random');
    var i := NumericOrderIsDigitOrder(Prefix(ms, count), Prefix(ms', count'), 16);
    HexKeepsOrder(Packed(ms, count, random), Packed(ms', count', random'), i);
    DashedKeepsOrder(Hex(Packed(ms, count, random)), Hex(Packed(ms', count', random')), i);
  }

  lemma Pow16Of16()
    ensures Pow16(3) == 0x1000
    ensures Pow16(12) == TIMESTAMP_END
    ensures Pow16(16) == 65536 * TIMESTAMP_END
  {
    assert Pow16(4) == 65536;
    assert Pow16(8) == 65536 * 65536;
    assert Pow16(12) == 65536 * 65536 * 65536;
    assert Pow16(16) == 65536 * Pow16(12);
  }

  // ---------------------------------------------------------------- reading an id back

  lemma DigitOfChar(n: nat)
    requires n < 16
    ensures HexDigitValue(HexChar(n)) == n
  {
  }

  lemma HexValueOfNibbles(h: string, d: seq<nat>)
    requires |h| == |d|
    requires forall i :: 0 <= i < |d| ==> d[i] < 16 && h[i] == HexChar(d[i])
    ensures HexValue(h) == Value(d)
  {
    hide HexChar;
    hide HexDigitValue;
    hide Value;
    forall i | 0 <= i < |d| ensures HexDigitValue(h[i]) == d[i] {
      DigitOfChar(d[i]);
    }
    assert seq(|h|, i requires 0 <= i < |h| => HexDigitValue(h[i])) == d;
  }

  lemma PrefixArithmetic(ms: nat, count: nat)
    requires count < COUNTER_SIZE
    ensures var v := Prefix(ms, count);
            && v / 16 / 16 / 16 / 16 == ms
            && v / 16 / 16 / 16 % 16 == 7
            && v / 16 / 16 % 16 == count / 256
            && v / 16 % 16 == count / 16 % 16
            && v % 16 == count % 16
  {
    var v := Prefix(ms, count);
    assert v / 16 == 4096 * ms + 0x700 + count / 16;
    assert v / 16 / 16 == 256 * ms + 0x70 + count / 256;
    assert v / 16 / 16 / 16 == 16 * ms + 7;
  }

  lemma PrefixDigits(ms: nat, count: nat)
    requires count < COUNTER_SIZE
    ensures Digits(Prefix(ms, count), 16) ==
            Digits(ms, 12) + [7, count / 256, count / 16 % 16, count % 16]
  {
    PrefixArithmetic(ms, count);
    LastFourDigits(Prefix(ms, count), 12);
  }

  lemma LastFourDigits(v: nat, k: nat)
    ensures Digits(v, k + 4) ==
            Digits(v / 16 / 16 / 16 / 16, k) + [v / 16 / 16 / 16 % 16, v / 16 / 16 % 16, v / 16 % 16, v % 16]
  {
    var v1, v2, v3 := v / 16, v / 16 / 16, v / 16 / 16 / 16;
    assert Digits(v, k + 4) == Digits(v1, k + 3) + [v % 16];
    assert Digits(v1, k + 3) == Digits(v2, k + 2) + [v1 % 16];
    assert Digits(v2, k + 2) == Digits(v3, k + 1) + [v2 % 16];
    assert Digits(v3, k + 1) == Digits(v3 / 16, k) + [v3 % 16];
  }

  lemma ValueOfThree(a: nat, b: nat, c: nat)
    ensures Value([a, b, c]) == 256 * a + 16 * b + c
  {
    assert [a, b, c][..2] == [a, b] && [a, b][..1] == [a] && [a][..0] == [];
    assert Value([a]) == a;
    assert Value([a, b]) == 16 * a + b;
  }

  /** The variant nibble is 8, 9, a or b. */
  lemma VariantNibble(ms: nat, count: nat, random: seq<byte>)
    requires count < COUNTER_SIZE && |random| == 16
    ensures 8 <= Nibbles(Packed(ms, count, random))[16] <= 11
  {
    var b := Packed(ms, count, random);
    var head, mid, tail := b[..8], b[8..9], b[9..];
    assert b == (head + mid) + tail;
    NibblesConcat(head + mid, tail);
    NibblesConcat(head, mid);
    assert mid == [b[8]];
    assert Nibbles(mid) == Nibbles([]) + [b[8] / 16, b[8] % 16] by { assert mid[..0] == []; }
  }

  lemma PrintedIsUuid(b: seq<byte>)
    requires |b| == 16
    ensures IsUuid(Dashed(Hex(b)))
  {
    var h := Hex(b);
    DashedAt(h);
    forall p | 0 <= p < 36 && !IsDashPosition(p)
      ensures IsHexChar(Dashed(h)[p])
    {
      var i := EveryPlace(p);
    }
  }

  lemma {:induction false} NibblesAt(b: seq<byte>, i: nat)
    requires i < |b|
    ensures Nibbles(b)[2 * i] == b[i] / 16 && Nibbles(b)[2 * i + 1] == b[i] % 16
  {
    if i < |b| - 1 {
      NibblesAt(b[..|b| - 1], i);
    }
  }

  /** The hexadecimal digits of a dashed string. */
  function Undashed(s: string): (h: string)
    requires |s| == 36
    ensures |h| == 32
  {
    s[..8] + s[9..13] + s[14..18] + s[19..23] + s[24..]
  }

  lemma UndashedAt(s: string)
    requires IsUuid(s)
    ensures Dashed(Undashed(s)) == s
    ensures forall i :: 0 <= i < 32 ==> IsHexChar(Undashed(s)[i])
  {
    hide IsHexChar;
    var h := Undashed(s);
    DashedAt(h);
    forall i | 0 <= i < 32 ensures h[i] == s[Place(i)] && !IsDashPosition(Place(i)) {
    }
    forall p | 0 <= p < 36 ensures Dashed(h)[p] == s[p] {
      if !IsDashPosition(p) {
        var i := EveryPlace(p);
      }
    }
  }

  /** The bytes that 32 hexadecimal digits print. */
  function Bytes(h: string): (b: seq<byte>)
    requires |h| == 32 && forall i :: 0 <= i < 32 ==> IsHexChar(h[i])
    ensures |b| == 16
  {
    seq(16, i requires 0 <= i < 16 => 16 * HexDigitValue(h[2 * i]) + HexDigitValue(h[2 * i + 1]))
  }

  lemma PairPrints(a: char, c: char)
    requires IsHexChar(a) && IsHexChar(c)
    ensures var v := 16 * HexDigitValue(a) + HexDigitValue(c);
            v < 256 && HexChar(v / 16) == a && HexChar(v % 16) == c
  {
    var x, y := HexDigitValue(a), HexDigitValue(c);
    assert x < 16 && y < 16 && (16 * x + y) / 16 == x && (16 * x + y) % 16 == y;
  }

  lemma HexAt(b: seq<byte>, i: nat)
    requires i < |b|
    ensures Hex(b)[2 * i] == HexChar(b[i] / 16) && Hex(b)[2 * i + 1] == HexChar(b[i] % 16)
  {
    hide HexChar;
    NibblesAt(b, i);
  }

  lemma BytesPrint(h: string)
    requires |h| == 32 && forall i :: 0 <= i < 32 ==> IsHexChar(h[i])
    ensures Hex(Bytes(h)) == h
  {
    hide Hex;
    hide HexChar;
    hide HexDigitValue;
    hide IsHexChar;
    var b := Bytes(h);
    forall k | 0 <= k < 32 ensures Hex(b)[k] == h[k] {
      var i := k / 2;
      HexAt(b, i);
      PairPrints(h[2 * i], h[2 * i + 1]);
      assert k == 2 * i || k == 2 * i + 1;
    }
  }

  lemma SameDigit(x: int, y: int)
    requires 0 <= x < 16 && 0 <= y < 16 && HexChar(x) == HexChar(y)
    ensures x == y
  {
    DigitOfChar(x);
    DigitOfChar(y);
  }

  lemma PrintedOnce(b: seq<byte>, c: seq<byte>)
    requires |b| == |c| == 16 && Dashed(Hex(b)) == Dashed(Hex(c))
    ensures b == c
  {
    hide Hex;
    hide HexChar;
    hide Dashed;
    DashedAt(Hex(b));
    DashedAt(Hex(c));
    forall i | 0 <= i < 16 ensures b[i] == c[i] {
      HexAt(b, i);
      HexAt(c, i);
      assert Hex(b)[2 * i] == Hex(c)[2 * i] && Hex(b)[2 * i + 1] == Hex(c)[2 * i + 1];
      SameDigit(b[i] / 16, c[i] / 16);
      SameDigit(b[i] % 16, c[i] % 16);
    }
  }

  /** parseUuid accepts exactly what the 16 bytes of a uuid print as, each value in one form only:
      what it lets through is byte-equal to what Postgres hands back. */
  lemma AcceptedIsPrinted(s: string, field: string)
    ensures ParseUuid(Text(s), field) == Accepted(s) <==> exists b: seq<byte> :: |b| == 16 && Dashed(Hex(b)) == s
    ensures forall b, c | |b| == |c| == 16 && Dashed(Hex(b)) == s == Dashed(Hex(c)) :: b == c
  {
    hide Hex;
    hide Dashed;
    if IsUuid(s) {
      UndashedAt(s);
      BytesPrint(Undashed(s));
      assert Dashed(Hex(Bytes(Undashed(s)))) == s;
    }
    forall b: seq<byte> | |b| == 16 && Dashed(Hex(b)) == s ensures IsUuid(s) {
      PrintedIsUuid(b);
    }
    forall b, c | |b| == |c| == 16 && Dashed(Hex(b)) == s == Dashed(Hex(c)) ensures b == c {
      PrintedOnce(b, c);
    }
  }

  /** The sixteen digits that stand before the variant nibble. */
  lemma LeadingHex(ms: nat, count: nat, random: seq<byte>)
    requires count < COUNTER_SIZE && |random| == 16
    ensures var d := Digits(ms, 12) + [7, count / 256, count / 16 % 16, count % 16];
            forall i :: 0 <= i < 16 ==> d[i] < 16 && Hex(Packed(ms, count, random))[i] == HexChar(d[i])
  {
    LeadingNibbles(ms, count, random);
    PrefixDigits(ms, count);
    var n := Nibbles(Packed(ms, count, random));
    forall i | 0 <= i < 16 ensures n[i] == n[..16][i] {
    }
  }

  lemma DashedSlices(h: string)
    requires |h| == 32
    ensures Dashed(h)[..8] + Dashed(h)[9..13] == h[..12]
    ensures Dashed(h)[15..18] == h[13..16]
    ensures Dashed(h)[14] == h[12] && Dashed(h)[19] == h[16]
  {
  }

  /** A printed id is accepted by parseUuid, is a version 7 UUID of variant 10, and still
      holds the exact timestamp and counter it was minted with. */
  lemma EncodeDecodes(ms: nat, count: nat, random: seq<byte>, field: string)
    requires ms < TIMESTAMP_END && count < COUNTER_SIZE && |random| == 16
    ensures var s := Encode(ms, count, random);
            && ParseUuid(Text(s), field) == Accepted(s)
            && s[14] == '7' && s[19] in "89ab"
            && TimestampOf(s) == ms && CounterOf(s) == count
  {
    var h := Hex(Packed(ms, count, random));
    PrintedIsUuid(Packed(ms, count, random));
    DashedSlices(h);
    LeadingHex(ms, count, random);
    VariantNibble(ms, count, random);
    TimestampDigits(h[..12], ms);
    CounterDigits(h[13..16], count);
  }

  lemma TimestampDigits(h: string, ms: nat)
    requires ms < TIMESTAMP_END && |h| == 12
    requires forall i :: 0 <= i < 12 ==> h[i] == HexChar(Digits(ms, 12)[i])
    ensures HexValue(h) == ms
  {
    HexValueOfNibbles(h, Digits(ms, 12));
    Pow16Of16();
    ValueOfDigits(ms, 12);
  }

  lemma ThreeDigits(n: nat)
    ensures 256 * (n / 256) + 16 * (n / 16 % 16) + n % 16 == n
  {
    assert n / 256 == n / 16 / 16;
  }

  lemma CounterDigits(h: string, count: nat)
    requires count < COUNTER_SIZE && |h| == 3
    requires h[0] == HexChar(count / 256) && h[1] == HexChar(count / 16 % 16) && h[2] == HexChar(count % 16)
    ensures HexValue(h) == count
  {
    hide HexValue;
    hide Value;
    HexValueOfNibbles(h, [count / 256, count / 16 % 16, count % 16]);
    ThreeDigits(count);
    ValueOfThree(count / 256, count / 16 % 16, count % 16);
  }

  /** The 16 bytes that an id stands for. */
  function BytesOf(s: string): (b: seq<byte>)
    requires IsUuid(s)
    ensures |b| == 16 && Dashed(Hex(b)) == s
  {
    UndashedAt(s);
    BytesPrint(Undashed(s));
    Bytes(Undashed(s))
  }

  /** 62 of the random bits are in the id: all but the two that say the variant. */
  lemma RandomReachesId(ms: nat, count: nat, random: seq<byte>)
    requires count < COUNTER_SIZE && |random| == 16
    ensures IsUuid(Encode(ms, count, random))
    ensures var b := BytesOf(Encode(ms, count, random));
            && (forall i :: 9 <= i < 16 ==> b[i] == random[i])
            && b[8] % 64 == random[8] % 64
  {
    hide Hex;
    hide Dashed;
    var packed := Packed(ms, count, random);
    PrintedIsUuid(packed);
    PrintedOnce(BytesOf(Encode(ms, count, random)), packed);
    assert packed[8] == 0x80 + random[8] % 64;
    assert (0x80 + random[8] % 64) % 64 == random[8] % 64;
  }

  /** What an id says: its form, its timestamp and counter, and its random bits. */
  lemma IdFacts(ms: nat, count: nat, random: seq<byte>)
    requires ms < TIMESTAMP_END && count < COUNTER_SIZE && |random| == 16
    ensures var id := Encode(ms, count, random);
            && ParseUuid(Text(id), "") == Accepted(id) && IsUuid(id)
            && id[14] == '7' && id[19] in "89ab"
            && TimestampOf(id) == ms && CounterOf(id) == count
            && (forall i :: 9 <= i < 16 ==> BytesOf(id)[i] == random[i])
            && BytesOf(id)[8] % 64 == random[8] % 64
  {
    hide Encode;
    EncodeDecodes(ms, count, random, "");
    RandomReachesId(ms, count, random);
  }

  // ---------------------------------------------------------------- the generator's state

  /** The module variables lastMs and seq. */
  datatype Counter = Counter(lastMs: nat, count: nat) {
    predicate Valid() { count < COUNTER_SIZE }

    function Key(): int { COUNTER_SIZE * lastMs + count }
  }

  /** One call of newUuid as the outside world decides it: the clock and the random bytes. */
  datatype Call = Call(now: int, start: nat, random: seq<byte>) {
    predicate Valid() { start < 0x1_0000 && |random| == 16 }
  }

  const INITIAL := Counter(0, 0)

  /** The new (lastMs, seq); a call resets the counter only when the clock moved past lastMs. */
  function Advance(c: Counter, call: Call): (c': Counter)
    requires c.Valid() && call.Valid()
    ensures c'.Valid()
  {
    if call.now > c.lastMs then Counter(call.now, call.start % 0x800)
    else if c.count + 1 > 0xfff then Counter(c.lastMs + 1, 0)
    else Counter(c.lastMs, c.count + 1)
  }

  ghost predicate ValidCalls(calls: seq<Call>) {
    forall i :: 0 <= i < |calls| ==> calls[i].Valid()
  }

  function After(c: Counter, calls: seq<Call>): (c': Counter)
    requires c.Valid() && forall i :: 0 <= i < |calls| ==> calls[i].Valid()
    ensures c'.Valid()
  {
    if calls == [] then c
    else Advance(After(c, calls[..|calls| - 1]), calls[|calls| - 1])
  }

  /** The string printed from the state a call left behind; None when writeUIntBE throws
      because the timestamp no longer fits in six bytes. */
  function Printed(c: Counter, call: Call): Option<string>
    requires c.Valid() && call.Valid()
  {
    if c.lastMs < TIMESTAMP_END then Some(Encode(c.lastMs, c.count, call.random)) else None
  }

  /** What the last of `calls` returns. */
  function Minted(c: Counter, calls: seq<Call>): Option<string>
    requires c.Valid() && calls != [] && forall i :: 0 <= i < |calls| ==> calls[i].Valid()
  {
    Printed(After(c, calls), calls[|calls| - 1])
  }

  lemma {:induction false} KeysIncrease(c: Counter, calls: seq<Call>, i: nat, j: nat)
    requires c.Valid() && ValidCalls(calls)
    requires i < j <= |calls|
    ensures After(c, calls[..i]).Key() < After(c, calls[..j]).Key()
    decreases j
  {
    assert calls[..j][..j - 1] == calls[..j - 1];
    if i < j - 1 {
      KeysIncrease(c, calls, i, j - 1);
    }
  }

  /** A call returns an id exactly when the timestamp in force fits in 48 bits. */
  lemma MintsBelow48Bits(c: Counter, calls: seq<Call>)
    requires c.Valid() && ValidCalls(calls) && calls != []
    ensures Minted(c, calls).Some? <==> After(c, calls).lastMs < 0x1_0000_0000_0000
  {
  }

  /** Ids of one process sort in the order they were minted, whatever the clock and the random
      bytes did in between: any two ids, not only neighbours. */
  lemma MintOrder(c: Counter, calls: seq<Call>, i: nat, j: nat)
    requires c.Valid() && ValidCalls(calls)
    requires 0 < i < j <= |calls|
    requires Minted(c, calls[..i]).Some? && Minted(c, calls[..j]).Some?
    ensures StringLess(Minted(c, calls[..i]).value, Minted(c, calls[..j]).value)
  {
    KeysIncrease(c, calls, i, j);
    var a, b := After(c, calls[..i]), After(c, calls[..j]);
    EncodeKeepsOrder(a.lastMs, a.count, calls[i - 1].random, b.lastMs, b.count, calls[j - 1].random);
  }

  /** Calls whose clock reading never passes the timestamp in force. */
  ghost predicate Stalled(c: Counter, calls: seq<Call>)
    requires c.Valid() && ValidCalls(calls)
  {
    forall i :: 0 <= i < |calls| ==> calls[i].now <= After(c, calls[..i]).lastMs
  }

  lemma AcceptedClock(c: Counter, call: Call)
    requires c.Valid() && call.Valid() && call.now > c.lastMs
    ensures Advance(c, call) == Counter(call.now, call.start % 0x800)
  {
  }

  lemma StalledStep(now: nat, total: nat, call: Call)
    requires call.Valid() && call.now <= now + total / COUNTER_SIZE
    ensures Advance(Counter(now + total / COUNTER_SIZE, total % COUNTER_SIZE), call) ==
            Counter(now + (total + 1) / COUNTER_SIZE, (total + 1) % COUNTER_SIZE)
  {
    var q, r := total / COUNTER_SIZE, total % COUNTER_SIZE;
    assert total + 1 == COUNTER_SIZE * q + (r + 1);
  }

  /** How far a stalled generator runs ahead: after the clock value `first.now` was accepted, k
      calls without a reset put the timestamp exactly (start + k) / 4096 ms past it. */
  lemma {:induction false} StalledLead(c: Counter, first: Call, calls: seq<Call>)
    requires c.Valid() && first.Valid() && ValidCalls(calls)
    requires first.now > c.lastMs
    requires Stalled(Advance(c, first), calls)
    ensures var start := first.start % 0x800;
            && start <= 0x7ff
            && After(Advance(c, first), calls) ==
               Counter(first.now + (start + |calls|) / COUNTER_SIZE, (start + |calls|) % COUNTER_SIZE)
  {
    hide Advance;
    if calls == [] {
      assert Advance(c, first) == Counter(first.now, first.start % 0x800) by { AcceptedClock(c, first); }
    } else {
      var n := |calls| - 1;
      var c0 := Advance(c, first);
      forall i | 0 <= i < n ensures calls[..n][i].now <= After(c0, calls[..n][..i]).lastMs {
        assert calls[..n][..i] == calls[..i];
      }
      StalledLead(c, first, calls[..n]);
      StalledStep(first.now, first.start % 0x800 + n, calls[n]);
    }
  }

  class Generator {
    var lastMs: nat
    var count: nat

    ghost predicate Valid()
      reads this
    {
      State().Valid()
    }

    function State(): Counter
      reads this
    {
      Counter(lastMs, count)
    }

    constructor ()
      ensures Valid() && State() == INITIAL
    {
      lastMs, count := 0, 0;
    }

    /** newUuid with the readings of Date.now and randomBytes as parameters. The state moves
        even when writeUIntBE then throws. */
    method NewUuid(call: Call) returns (id: Option<string>)
      requires Valid() && call.Valid()
      modifies this
      ensures Valid() && State() == Advance(old(State()), call)
      ensures id == Printed(State(), call)
      ensures if call.now > old(lastMs) then lastMs == call.now && count == call.start % 0x800
              else if old(count) == 0xfff then lastMs == old(lastMs) + 1 && count == 0
              else lastMs == old(lastMs) && count == old(count) + 1
      ensures id.Some? <==> lastMs < 0x1_0000_0000_0000
      ensures id.Some? ==>
                && ParseUuid(Text(id.value), "") == Accepted(id.value)
                && id.value[14] == '7' && id.value[19] in "89ab"
                && TimestampOf(id.value) == lastMs && CounterOf(id.value) == count
                && var b := BytesOf(id.value);
                   && (forall i :: 9 <= i < 16 ==> b[i] == call.random[i])
                   && b[8] % 64 == call.random[8] % 64
    {
      hide And;
      hide Or;
      hide Shr;
      hide Pow2;
      hide Hex;
      hide Dashed;
      hide TimestampOf;
      hide CounterOf;
      hide ParseUuid;
      hide IsUuid;
      if call.now > lastMs {
        lastMs := call.now;
        MasksAreArithmetic(call.start, 0, 0);
        count := And(call.start, 0x7ff);
      } else {
        count := count + 1;
        if count > 0xfff {
          lastMs := lastMs + 1;
          count := 0;
        }
      }
      if lastMs >= TIMESTAMP_END {
        return None;
      }
      var b := new byte[16](i requires 0 <= i < 16 => call.random[i]);
      var stamp := BigEndian(lastMs, 6);
      forall i | 0 <= i < 6 {
        b[i] := stamp[i];
      }
      MasksAreArithmetic(0, count, b[8]);
      b[6] := Or(0x70, Shr(count, 8));
      b[7] := And(count, 0xff);
      b[8] := Or(And(b[8], 0x3f), 0x80);
      assert b[..] == Packed(lastMs, count, call.random);
      id := Some(Dashed(Hex(b[..])));
      IdFacts(lastMs, count, call.random);
    }
  }
}
