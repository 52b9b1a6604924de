/**
 * The bytes of the MySQL client/server protocol: little-endian integers and
 * length-encoded integers ("Length-Encoded Integer"), as the driver decodes them.
 */
module WireFormat {
  import opened Optional

  newtype byte = x: int | 0 <= x < 256
  type bytes = seq<byte>

  const TWO_16 := 0x1_0000
  const TWO_24 := 0x100_0000
  const TWO_32 := 0x1_0000_0000
  const TWO_64 := 0x1_0000_0000_0000_0000
  /** What the decoder returns for the byte 251: all ones in an unsigned 64-bit integer. */
  const NULL_LENGTH := TWO_64 - 1

  function Power256(k: nat): (p: nat)
    ensures p > 0
  {
    if k == 0 then 1 else 256 * Power256(k - 1)
  }

  /** The low k bytes of n, least significant first. */
  function LittleEndian(k: nat, n: nat): (b: bytes)
    ensures |b| == k
  {
    if k == 0 then [] else [(n % 256) as byte] + LittleEndian(k - 1, n / 256)
  }

  /** The number b spells, least significant byte first. */
  function Unsigned(b: bytes): nat {
    if b == [] then 0 else b[0] as int + 256 * Unsigned(b[1..])
  }

  lemma {:induction false} LittleEndianRoundTrip(k: nat, n: nat)
    requires n < Power256(k)
    ensures Unsigned(LittleEndian(k, n)) == n
  {
    if k > 0 {
      LittleEndianRoundTrip(k - 1, n / 256);
      assert LittleEndian(k, n)[1..] == LittleEndian(k - 1, n / 256);
    }
  }

  lemma {:induction false} LittleEndianLow(k: nat, m: nat, n: nat)
    requires m <= k
    ensures LittleEndian(k, n)[..m] == LittleEndian(m, n)
  {
    if m > 0 {
      LittleEndianLow(k - 1, m - 1, n / 256);
      assert LittleEndian(k, n)[..m] == [(n % 256) as byte] + LittleEndian(k - 1, n / 256)[..m - 1];
    }
  }

  lemma {:induction false} LittleEndianMod(k: nat, n: nat)
    ensures LittleEndian(k, n) == LittleEndian(k, n % Power256(k))
  {
    if k > 0 {
      ModStep(n, Power256(k - 1));
      LittleEndianMod(k - 1, n / 256);
    }
  }

  /** Dividing by 256 * p, byte by byte. */
  lemma ModStep(n: nat, p: nat)
    requires p > 0
    ensures (n % (256 * p)) % 256 == n % 256
    ensures (n % (256 * p)) / 256 == (n / 256) % p
  {
    var h, l := n / 256, n % 256;
    var q, r := h / p, h % p;
    assert h == p * q + r;
    assert 256 * (p * q) == (256 * p) * q;
    assert 256 * r + l < 256 * p;
    DivModUnique(n, 256 * p, q, 256 * r + l);
  }

  lemma DivModUnique(n: nat, d: nat, q: nat, r: nat)
    requires d > 0 && r < d && n == d * q + r
    ensures n / d == q && n % d == r
  {
    var k := n / d - q;
    assert n == d * (n / d) + n % d;
    assert d * k == d * (n / d) - d * q;
    MultipleOf(d, k);
  }

  lemma MultipleOf(d: int, k: int)
    requires d > 0
    ensures k >= 1 ==> d * k >= d
    ensures k <= -1 ==> d * k <= -d
  {
  }

  lemma Powers256()
    ensures Power256(1) == 256 && Power256(2) == TWO_16 && Power256(3) == TWO_24
    ensures Power256(4) == TWO_32 && Power256(8) == TWO_64
  {
    assert Power256(1) == 256 * Power256(0);
    assert Power256(3) == 256 * Power256(2);
    assert Power256(5) == 256 * Power256(4);
    assert Power256(6) == 256 * Power256(5);
    assert Power256(7) == 256 * Power256(6);
  }

  /** Reading n as a two's-complement number of the given full range. */
  function Signed(n: nat, full: nat): int {
    if 2 * n >= full then n - full else n
  }

  /** The two's-complement pattern of v. */
  function Pattern(v: int, full: nat): nat
    requires v + full >= 0
  {
    if v < 0 then v + full else v
  }

  /** The k bytes at i. */
  function Word(p: bytes, i: nat, k: nat): nat
    requires i + k <= |p|
  {
    Unsigned(p[i..i + k])
  }

  lemma WordInside(pre: bytes, e: bytes, post: bytes, i: nat, k: nat)
    requires i + k <= |e|
    ensures (pre + e + post)[|pre| + i..|pre| + i + k] == e[i..i + k]
    ensures Word(pre + e + post, |pre| + i, k) == Unsigned(e[i..i + k])
  {
  }

  // ---- length-encoded integers

  /** A decoded value and the position behind it. */
  datatype Parsed<+T> = Parsed(value: T, next: nat)

  /** None when the decoder would read or step beyond the packet. */
  function LengthAt(p: bytes, i: nat): (r: Option<Parsed<nat>>)
    ensures r.Some? ==> i < r.value.next <= |p|
  {
    if i >= |p| then None
    else if p[i] < 251 then Some(Parsed(p[i] as int, i + 1))
    else if p[i] == 251 then Some(Parsed(NULL_LENGTH, i + 1))
    else if p[i] == 252 then if i + 3 <= |p| then Some(Parsed(Word(p, i + 1, 2), i + 3)) else None
    else if p[i] == 253 then if i + 4 <= |p| then Some(Parsed(Word(p, i + 1, 3), i + 4)) else None
    else if i + 9 <= |p| then Some(Parsed(Word(p, i + 1, 4), i + 9)) else None
  }

  /** The canonical encoding. */
  function LengthEncoded(n: nat): bytes {
    if n < 251 then [n as byte]
    else if n < TWO_16 then [252] + LittleEndian(2, n)
    else if n < TWO_24 then [253] + LittleEndian(3, n)
    else [254] + LittleEndian(8, n)
  }

  function LengthWidth(n: nat): nat {
    if n < 251 then 1 else if n < TWO_16 then 3 else if n < TWO_24 then 4 else 9
  }

  /** Of a 64-bit integer the decoder sees the low 32 bits; the pointer moves by 1, 3, 4 or 9. */
  lemma LengthRoundTrip(n: nat, pre: bytes, post: bytes)
    requires n < TWO_64
    ensures var p := pre + LengthEncoded(n) + post;
            LengthAt(p, |pre|) == Some(Parsed(n % TWO_32, |pre| + LengthWidth(n)))
    ensures |LengthEncoded(n)| == LengthWidth(n)
  {
    var e := LengthEncoded(n);
    var p := pre + e + post;
    Powers256();
    assert p[|pre|] == e[0];
    if 251 <= n < TWO_16 {
      WordInside(pre, e, post, 1, 2);
      assert e[1..3] == LittleEndian(2, n);
      LittleEndianRoundTrip(2, n);
    } else if TWO_16 <= n < TWO_24 {
      WordInside(pre, e, post, 1, 3);
      assert e[1..4] == LittleEndian(3, n);
      LittleEndianRoundTrip(3, n);
    } else if n >= TWO_24 {
      WordInside(pre, e, post, 1, 4);
      assert e[1..5] == LittleEndian(8, n)[..4];
      LittleEndianLow(8, 4, n);
      LittleEndianMod(4, n);
      LittleEndianRoundTrip(4, n % TWO_32);
    }
  }

  /** The decoder's own loop-free form, moving a position instead of a pointer. */
  method NetFieldLength(p: bytes, pos: nat) returns (length: nat, next: nat)
    requires LengthAt(p, pos).Some?
    ensures LengthAt(p, pos) == Some(Parsed(length, next))
  {
    if p[pos] < 251 {
      return p[pos] as int, pos + 1;
    }
    if p[pos] == 251 {
      return NULL_LENGTH, pos + 1;
    }
    if p[pos] == 252 {
      return Word(p, pos + 1, 2), pos + 3;
    }
    if p[pos] == 253 {
      return Word(p, pos + 1, 3), pos + 4;
    }
    return Word(p, pos + 1, 4), pos + 9;
  }
}
