/**
 RFC 1321, section 3: the MD5 digest of a byte string, in the table-driven form of
 the standard.
 */
module Rfc1321 {
  import opened JsWord

  datatype Quad = Quad(a: Word, b: Word, c: Word, d: Word)

  const INITIAL := Quad(0x67452301, 0xefcdab89, 0x98badcfe, 0x10325476)

  function F(x: Word, y: Word, z: Word): Word { WordOp(OrOp, WordOp(AndOp, x, y), WordOp(AndOp, WordNot(x), z)) }

  function G(x: Word, y: Word, z: Word): Word { WordOp(OrOp, WordOp(AndOp, x, z), WordOp(AndOp, y, WordNot(z))) }

  function H(x: Word, y: Word, z: Word): Word { WordOp(XorOp, WordOp(XorOp, x, y), z) }

  function I(x: Word, y: Word, z: Word): Word { WordOp(XorOp, y, WordOp(OrOp, x, WordNot(z))) }

  /** Moves every bit up one place; the top bit comes back in at the bottom. */
  function RotateOne(x: Word): Word { (2 * x) % 0x1_0000_0000 + x / 0x8000_0000 }

  function RotateLeft(x: Word, s: nat): Word {
    if s == 0 then x else RotateOne(RotateLeft(x, s - 1))
  }

  /** `b + ((a + f + x + t) <<< s)`, all additions modulo 2^32. */
  function Operation(f: Word, a: Word, b: Word, x: Word, s: nat, t: Word): Word {
    (b + RotateLeft((a + f + x + t) % 0x1_0000_0000, s)) % 0x1_0000_0000
  }

  function Mix(n: nat, x: Word, y: Word, z: Word): Word {
    if n < 16 then F(x, y, z)
    else if n < 32 then G(x, y, z)
    else if n < 48 then H(x, y, z)
    else I(x, y, z)
  }

  /** Which word of the block step n adds. */
  function Index(n: nat): (k: nat)
    ensures k < 16
  {
    if n < 16 then n
    else if n < 32 then (5 * n + 1) % 16
    else if n < 48 then (3 * n + 5) % 16
    else (7 * n) % 16
  }

  function Pick<T>(j: nat, w: T, x: T, y: T, z: T): T {
    if j == 0 then w else if j == 1 then x else if j == 2 then y else z
  }

  function Shift(n: nat): (s: nat)
    ensures 0 < s < 32
  {
    if n < 16 then Pick(n % 4, 7, 12, 17, 22)
    else if n < 32 then Pick(n % 4, 5, 9, 14, 20)
    else if n < 48 then Pick(n % 4, 4, 11, 16, 23)
    else Pick(n % 4, 6, 10, 15, 21)
  }

  /** Table T of section 3.4, counted from 0: the integer part of 2^32 * |sin(n + 1)|. */
  function Sine(n: nat): Word
    requires n < 64
  {
    match n
    case 0 => 0xd76aa478 case 1 => 0xe8c7b756 case 2 => 0x242070db case 3 => 0xc1bdceee
    case 4 => 0xf57c0faf case 5 => 0x4787c62a case 6 => 0xa8304613 case 7 => 0xfd469501
    case 8 => 0x698098d8 case 9 => 0x8b44f7af case 10 => 0xffff5bb1 case 11 => 0x895cd7be
    case 12 => 0x6b901122 case 13 => 0xfd987193 case 14 => 0xa679438e case 15 => 0x49b40821
    case 16 => 0xf61e2562 case 17 => 0xc040b340 case 18 => 0x265e5a51 case 19 => 0xe9b6c7aa
    case 20 => 0xd62f105d case 21 => 0x02441453 case 22 => 0xd8a1e681 case 23 => 0xe7d3fbc8
    case 24 => 0x21e1cde6 case 25 => 0xc33707d6 case 26 => 0xf4d50d87 case 27 => 0x455a14ed
    case 28 => 0xa9e3e905 case 29 => 0xfcefa3f8 case 30 => 0x676f02d9 case 31 => 0x8d2a4c8a
    case 32 => 0xfffa3942 case 33 => 0x8771f681 case 34 => 0x6d9d6122 case 35 => 0xfde5380c
    case 36 => 0xa4beea44 case 37 => 0x4bdecfa9 case 38 => 0xf6bb4b60 case 39 => 0xbebfbc70
    case 40 => 0x289b7ec6 case 41 => 0xeaa127fa case 42 => 0xd4ef3085 case 43 => 0x04881d05
    case 44 => 0xd9d4d039 case 45 => 0xe6db99e5 case 46 => 0x1fa27cf8 case 47 => 0xc4ac5665
    case 48 => 0xf4292244 case 49 => 0x432aff97 case 50 => 0xab9423a7 case 51 => 0xfc93a039
    case 52 => 0x655b59c3 case 53 => 0x8f0ccc92 case 54 => 0xffeff47d case 55 => 0x85845dd1
    case 56 => 0x6fa87e4f case 57 => 0xfe2ce6e0 case 58 => 0xa3014314 case 59 => 0x4e0811a1
    case 60 => 0xf7537e82 case 61 => 0xbd3af235 case 62 => 0x2ad7d2bb case 63 => 0xeb86d391
  }

  /** One operation of the standard, with the register names rotated afterwards. */
  function Step(q: Quad, block: seq<Word>, n: nat): Quad
    requires |block| == 16 && n < 64
  {
    Quad(q.d, Operation(Mix(n, q.b, q.c, q.d), q.a, q.b, block[Index(n)], Shift(n), Sine(n)), q.b, q.c)
  }

  function Steps(q: Quad, block: seq<Word>, n: nat): Quad
    requires |block| == 16 && n <= 64
  {
    if n == 0 then q else Step(Steps(q, block, n - 1), block, n - 1)
  }

  function Add(p: Quad, q: Quad): Quad {
    Quad((p.a + q.a) % 0x1_0000_0000, (p.b + q.b) % 0x1_0000_0000,
         (p.c + q.c) % 0x1_0000_0000, (p.d + q.d) % 0x1_0000_0000)
  }

  function Compress(q: Quad, block: seq<Word>): Quad
    requires |block| == 16
  {
    Add(Steps(q, block, 64), q)
  }

  // ---- Sections 3.1, 3.2 and 3.5: padding, the length field and the output.

  type Byte = x: int | 0 <= x < 256

  /** The least number of zero bytes that leaves room for the 8 length bytes. */
  function Zeros(n: nat): seq<Byte>
  {
    seq<Byte>((55 - n) % 64, i => 0)
  }

  function LittleEndian(v: nat, k: nat): (r: seq<Byte>)
    ensures |r| == k
  {
    if k == 0 then [] else [v % 256] + LittleEndian(v / 256, k - 1)
  }

  function Pad(m: seq<Byte>): seq<Byte> {
    m + [0x80] + Zeros(|m|) + LittleEndian(8 * |m| % 0x1_0000_0000_0000_0000, 8)
  }

  function ByteAt(m: seq<Byte>, j: nat): Byte { if j < |m| then m[j] else 0 }

  /** Word w of a byte string, low-order byte first; missing bytes are 0. */
  function WordOf(m: seq<Byte>, w: nat): Word {
    ByteAt(m, 4 * w) + 0x100 * ByteAt(m, 4 * w + 1)
      + 0x1_0000 * ByteAt(m, 4 * w + 2) + 0x100_0000 * ByteAt(m, 4 * w + 3)
  }

  function BlockOf(m: seq<Byte>, b: nat): (block: seq<Word>)
    ensures |block| == 16
    ensures forall k: nat {:trigger block[k]} | k < 16 :: block[k] == WordOf(m, 16 * b + k)
  {
    seq<Word>(16, k requires 0 <= k < 16 => WordOf(m, 16 * b + k))
  }

  /** The registers after the first b blocks. */
  function Blocks(m: seq<Byte>, b: nat): Quad {
    if b == 0 then INITIAL else Compress(Blocks(m, b - 1), BlockOf(m, b - 1))
  }

  function Output(q: Quad): (r: seq<Byte>)
    ensures |r| == 16
  {
    LittleEndian(q.a, 4) + LittleEndian(q.b, 4) + LittleEndian(q.c, 4) + LittleEndian(q.d, 4)
  }

  function Digest(m: seq<Byte>): (r: seq<Byte>)
    ensures |r| == 16
  {
    Output(Blocks(Pad(m), |Pad(m)| / 64))
  }

  lemma PadLength(m: seq<Byte>)
    ensures |Pad(m)| == 64 * ((|m| + 8) / 64 + 1)
  {
    hide LittleEndian;
    var n := |m|;
    var a, r := n / 64, n % 64;
    assert n == 64 * a + r;
    if r <= 55 {
      ModUnique(55 - n, 64, -a, 55 - r);
    } else {
      ModUnique(55 - n, 64, -a - 1, 119 - r);
    }
  }
}
