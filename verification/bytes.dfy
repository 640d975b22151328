/**
 * Byte- and word-level vocabulary shared by every layer of the stack: the C
 * code's `unsigned char` and `uint16_t`, the big-endian split of a 16-bit
 * field into two PDU bytes, and the coil bit packing in which coil `8k+j`
 * travels in bit `j` (least significant first) of data byte `k`.
 *
 * Bitwise operators are computed on `bv8`/`bv16` and converted back, so the
 * truncation C applies when an `int` is stored into an `unsigned char` is
 * explicit.
 */
module Bytes {

  /** `unsigned char`. */
  type byte = x: int | 0 <= x < 256

  /** `uint16_t`. */
  type u16 = x: int | 0 <= x < 0x1_0000

  /** The value C keeps when an `int` expression is stored into an `unsigned char`. */
  function Trunc8(x: int): (r: byte)
    ensures 0 <= x < 256 ==> r == x
    ensures (r - x) % 256 == 0
  {
    x % 256
  }

  /** The value C keeps when an `int` expression is stored into a `uint16_t`. */
  function Trunc16(x: int): (r: u16)
    ensures 0 <= x < 0x1_0000 ==> r == x
    ensures (r - x) % 0x1_0000 == 0
  {
    x % 0x1_0000
  }

  /** `w >> 8` stored into a byte: the big-endian first byte. */
  function Hi(w: u16): byte { w / 256 }

  /** `w` stored into a byte: the big-endian second byte. */
  function Lo(w: u16): byte { w % 256 }

  /** `hi << 8 | lo`: the 16-bit field a big-endian byte pair denotes. */
  function Word(hi: byte, lo: byte): (w: u16)
  {
    hi * 256 + lo
  }

  /** Splitting a word built from two bytes gives the bytes back. */
  lemma HalvesOfWord(hi: byte, lo: byte)
    ensures Hi(Word(hi, lo)) == hi && Lo(Word(hi, lo)) == lo
  {
  }

  /** Splitting a word and joining the halves gives the word back. */
  lemma WordOfHalves(w: u16)
    ensures Word(Hi(w), Lo(w)) == w
  {
  }

  /** A value that may be absent. */
  datatype Option<T> = None | Some(value: T)

  /** Size of every message buffer of the stack (`MAX_PDU` of the CAN build, the RTU frame buffers). */
  const BufferSize: nat := 256

  /** A fixed 256-byte buffer; bytes past a message's length keep whatever they held. */
  type Buffer = s: seq<byte> | |s| == BufferSize witness seq(BufferSize, _ => 0)

  /** A buffer holding only zeros: the C statics before anything is written. */
  function ZeroBuffer(): (b: Buffer)
    ensures forall i :: 0 <= i < BufferSize ==> b[i] == 0
  {
    seq(BufferSize, _ => 0)
  }

  /** `vals` written over `s` from position `at`, every other element of `s` kept. */
  function Splice<T>(s: seq<T>, at: nat, vals: seq<T>): (r: seq<T>)
    requires at + |vals| <= |s|
    ensures |r| == |s|
    ensures forall i :: at <= i < at + |vals| ==> r[i] == vals[i - at]
    ensures forall i :: 0 <= i < |s| && !(at <= i < at + |vals|) ==> r[i] == s[i]
  {
    s[..at] + vals + s[at + |vals|..]
  }

  /**
   * Registers as the PDU carries them: two bytes per value, high byte first
   * (`v >> 8` then `v` stored into a byte).
   */
  function Words(vals: seq<u16>): (r: seq<byte>)
    ensures |r| == 2 * |vals|
  {
    seq(2 * |vals|, k requires 0 <= k < 2 * |vals| => if k % 2 == 0 then Hi(vals[k / 2]) else Lo(vals[k / 2]))
  }

  /** Byte pairs read back as registers (`b[2i] << 8 | b[2i+1]`). */
  function Unwords(b: seq<byte>): (r: seq<u16>)
    requires |b| % 2 == 0
    ensures |r| == |b| / 2
  {
    seq(|b| / 2, i requires 0 <= i < |b| / 2 => Word(b[2 * i], b[2 * i + 1]))
  }

  /** Register `i` of an encoding sits in bytes `2i` and `2i+1`. */
  lemma WordsAt(vals: seq<u16>, i: nat)
    requires i < |vals|
    ensures Words(vals)[2 * i] == Hi(vals[i]) && Words(vals)[2 * i + 1] == Lo(vals[i])
  {
    assert (2 * i) % 2 == 0 && (2 * i) / 2 == i;
    assert (2 * i + 1) % 2 == 1 && (2 * i + 1) / 2 == i;
  }

  /** Round trip: decoding an encoding of registers gives the registers. */
  lemma UnwordsWords(vals: seq<u16>)
    ensures Unwords(Words(vals)) == vals
  {
    forall i | 0 <= i < |vals| ensures Unwords(Words(vals))[i] == vals[i] {
      WordsAt(vals, i);
      WordOfHalves(vals[i]);
    }
  }

  /** Round trip: encoding the registers decoded from an even-length byte string gives the bytes. */
  lemma WordsUnwords(b: seq<byte>)
    requires |b| % 2 == 0
    ensures Words(Unwords(b)) == b
  {
    var vals := Unwords(b);
    forall k | 0 <= k < |b| ensures Words(vals)[k] == b[k] {
      WordsAt(vals, k / 2);
      assert k == 2 * (k / 2) + k % 2;
    }
  }

  /**
   * Number of data bytes for `q` packed bits, written the way the C code does
   * it (`q/8`, plus one when `q%8 != 0`): the ceiling of `q/8`.
   */
  function ByteCount(q: nat): (n: nat)
    ensures 8 * n >= q && 8 * n < q + 8
  {
    if q % 8 == 0 then q / 8 else q / 8 + 1
  }

  /** Bitwise OR of two bytes (`a | b` stored into a byte). */
  function Or(a: byte, b: byte): (r: byte)
  {
    ((a as bv8) | (b as bv8)) as int
  }

  /** OR-ing 128 into a byte sets its top bit and keeps the seven below. */
  lemma OrTopBit(fc: byte)
    ensures Or(fc, 128) == fc % 128 + 128
  {
    TopBitV(fc as bv8);
    LowBits(fc);
  }

  /** The bit-vector half of `OrTopBit`. */
  lemma TopBitV(v: bv8)
    ensures (v | 128) as int == (v & 127) as int + 128
  {
  }

  /** The seven low bits of a byte are its remainder modulo 128. */
  lemma LowBits(fc: byte)
    ensures ((fc as bv8) & 127) as int == fc % 128
  {
    var v := fc as bv8;
    ByteAsVector(fc);
    if fc < 128 {
      assert v < 128;
      LowBitsV(v);
    } else {
      assert v >= 128;
      LowBitsV(v);
      TopBitDropped(v);
    }
  }

  /** A byte converted to a bit vector and back is unchanged. */
  lemma ByteAsVector(a: byte)
    ensures (a as bv8) as int == a
    ensures a < 128 <==> (a as bv8) < 128
  {
  }

  /** Masking with 127 clears the top bit, on bit vectors. */
  lemma LowBitsV(v: bv8)
    ensures v < 128 ==> v & 127 == v
    ensures v >= 128 ==> v & 127 == v - 128
  {
  }

  /** Removing the top bit of a vector that has it subtracts 128 from its value. */
  lemma TopBitDropped(v: bv8)
    requires v >= 128
    ensures (v - 128) as int == v as int - 128
  {
  }

  /** OR-ing zero into a byte leaves it unchanged. */
  lemma OrZero(a: byte)
    ensures Or(a, 0) == a && Or(0, a) == a
  {
    OrZeroV(a as bv8);
    ByteAsVector(a);
  }

  /** The bit-vector half of `OrZero`. */
  lemma OrZeroV(v: bv8)
    ensures v | 0 == v && 0 | v == v
  {
  }

  /** Bit `j` of a byte vector, on bit vectors. */
  function BitV(b: bv8, j: nat): (r: bv8)
    requires j < 8
    ensures r == 0 || r == 1
  {
    (b >> j) & 1
  }

  /** `(b >> j) & 1`: bit `j` of a byte. */
  function Bit(b: byte, j: nat): (r: byte)
    requires j < 8
    ensures r == 0 || r == 1
  {
    BitV(b as bv8, j) as int
  }

  /** A value a coil or discrete input may hold on the wire: 0 or 1. */
  predicate IsBit(v: int) { v == 0 || v == 1 }

  /** Every value is a single bit. */
  predicate AllBits(vs: seq<byte>) { forall i :: 0 <= i < |vs| ==> IsBit(vs[i]) }

  /**
   * The byte built by the packing loops from up to eight values: value `i`
   * is shifted left by `i` and OR-ed in, keeping 8 bits, starting from 0.
   */
  function PackByteV(chunk: seq<byte>): bv8
    requires |chunk| <= 8
    decreases |chunk|
  {
    if chunk == [] then 0
    else PackByteV(chunk[..|chunk| - 1]) | ((chunk[|chunk| - 1] as bv8) << (|chunk| - 1))
  }

  function PackByte(chunk: seq<byte>): byte
    requires |chunk| <= 8
  {
    PackByteV(chunk) as int
  }

  /**
   * The data bytes of a bit-packed field: eight values per byte, the last
   * byte holding the remainder. Used for write-multiple-coils requests and
   * for read-coils/read-inputs responses.
   */
  function Pack(vals: seq<byte>): (r: seq<byte>)
    ensures |r| == ByteCount(|vals|)
    decreases |vals|
  {
    if vals == [] then []
    else if |vals| <= 8 then [PackByte(vals)]
    else [PackByte(vals[..8])] + Pack(vals[8..])
  }

  /**
   * The first `q` bits of a packed field, least significant bit of each byte
   * first: what the response callback and the write-multiple-coils executor
   * extract with `(b >> j) & 1`.
   */
  function Unpack(data: seq<byte>, q: nat): (r: seq<byte>)
    requires q <= 8 * |data|
    ensures |r| == q
    ensures AllBits(r)
    ensures forall k :: 0 <= k < q ==> r[k] == Bit(data[k / 8], k % 8)
  {
    seq(q, k requires 0 <= k < q => Bit(data[k / 8], k % 8))
  }

  /** OR-ing `v << m` into `a` sets bit `m` when `v` is 1 and leaves every other bit. */
  lemma BitOfOrShift(a: bv8, v: bv8, m: nat, j: nat)
    requires v == 0 || v == 1
    requires m < 8 && j < 8
    ensures BitV(a | (v << m), j) == if j == m then BitV(a, j) | v else BitV(a, j)
  {
  }

  /** A slice of single-bit values holds only single-bit values. */
  lemma AllBitsSlice(vs: seq<byte>, lo: nat, hi: nat)
    requires AllBits(vs) && lo <= hi <= |vs|
    ensures AllBits(vs[lo .. hi])
  {
    forall c | 0 <= c < hi - lo ensures IsBit(vs[lo .. hi][c]) {
      assert vs[lo .. hi][c] == vs[lo + c];
    }
  }

  /** A packed byte holds value `j` in bit `j`, and zero in the unused high bits. */
  lemma {:induction false} BitOfPackByte(chunk: seq<byte>, j: nat)
    requires |chunk| <= 8 && j < 8
    requires AllBits(chunk)
    ensures BitV(PackByteV(chunk), j) == if j < |chunk| then chunk[j] as bv8 else 0
    decreases |chunk|
  {
    if chunk != [] {
      var n := |chunk| - 1;
      var prefix := chunk[..n];
      AllBitsSlice(chunk, 0, n);
      assert prefix == chunk[0 .. n];
      var v: bv8 := chunk[n] as bv8;
      assert IsBit(chunk[n]);
      BitOfPackByte(prefix, j);
      BitOfOrShift(PackByteV(prefix), v, n, j);
      if j < n {
        assert prefix[j] == chunk[j];
      }
    }
  }

  /** Value `j` of a chunk read back from its packed byte. */
  lemma BitOfPackByteInt(chunk: seq<byte>, j: nat)
    requires |chunk| <= 8 && j < |chunk|
    requires AllBits(chunk)
    ensures Bit(PackByte(chunk), j) == chunk[j]
  {
    BitOfPackByte(chunk, j);
    var b: bv8 := PackByteV(chunk);
    assert (b as int) as bv8 == b;
    assert BitV(b, j) == chunk[j] as bv8;
    assert IsBit(chunk[j]);
  }

  /** End of chunk `k` of `n` packed values: eight values, or what is left of them. */
  function ChunkEnd(n: nat, k: nat): nat
  {
    if 8 * k + 8 <= n then 8 * k + 8 else n
  }

  /** Eight more values take one more byte. */
  lemma ByteCountStep(n: nat)
    requires n > 8
    ensures ByteCount(n) == ByteCount(n - 8) + 1
  {
    assert n % 8 == (n - 8) % 8 && n / 8 == (n - 8) / 8 + 1;
  }

  /** Byte `k` of a packed field is the packed chunk of values `8k .. 8k+7`. */
  lemma {:induction false} PackAt(vals: seq<byte>, k: nat)
    requires k < ByteCount(|vals|)
    ensures 8 * k < ChunkEnd(|vals|, k) <= 8 * k + 8
    ensures Pack(vals)[k] == PackByte(vals[8 * k .. ChunkEnd(|vals|, k)])
    decreases |vals|
  {
    if |vals| <= 8 {
      assert vals[0 .. |vals|] == vals;
    } else if k == 0 {
      assert vals[0 .. 8] == vals[..8];
    } else {
      ByteCountStep(|vals|);
      PackAt(vals[8..], k - 1);
      PackDrop(vals, k);
      ChunkDrop(vals, k);
    }
  }

  /** Past the first eight values, byte `k` of a packed field is byte `k - 1` of the rest packed. */
  lemma PackDrop(vals: seq<byte>, k: nat)
    requires |vals| > 8 && 1 <= k < ByteCount(|vals|)
    ensures k - 1 < |Pack(vals[8..])| && Pack(vals)[k] == Pack(vals[8..])[k - 1]
  {
    ByteCountStep(|vals|);
  }

  /** Chunk `k` of the values is chunk `k - 1` of the values past the first eight. */
  lemma ChunkDrop(vals: seq<byte>, k: nat)
    requires |vals| > 8 && 1 <= k && 8 * k < |vals|
    ensures ChunkEnd(|vals| - 8, k - 1) + 8 == ChunkEnd(|vals|, k)
    ensures vals[8..][8 * (k - 1) .. ChunkEnd(|vals| - 8, k - 1)] == vals[8 * k .. ChunkEnd(|vals|, k)]
  {
    var lo, hi := 8 * (k - 1), ChunkEnd(|vals| - 8, k - 1);
    assert hi + 8 == ChunkEnd(|vals|, k) && lo + 8 == 8 * k;
    var rest := vals[8..];
    assert |rest[lo .. hi]| == hi - lo == |vals[lo + 8 .. hi + 8]|;
    forall i | 0 <= i < hi - lo
      ensures rest[lo .. hi][i] == vals[lo + 8 .. hi + 8][i]
    {
      assert rest[lo .. hi][i] == rest[lo + i] == vals[lo + 8 + i];
    }
  }

  /** Value `k` of `n` lies in chunk `k / 8`, at position `k % 8`. */
  lemma ChunkOf(n: nat, k: nat)
    requires k < n
    ensures k / 8 < ByteCount(n) && 8 * (k / 8) + k % 8 == k && k < ChunkEnd(n, k / 8)
  {
  }

  /** Value `k` of a field read back from its packed byte. */
  lemma UnpackAt(vals: seq<byte>, k: nat)
    requires AllBits(vals) && k < |vals|
    ensures k / 8 < |Pack(vals)|
    ensures Bit(Pack(vals)[k / 8], k % 8) == vals[k]
  {
    var i := k / 8;
    ChunkOf(|vals|, k);
    PackAt(vals, i);
    var chunk := vals[8 * i .. ChunkEnd(|vals|, i)];
    AllBitsSlice(vals, 8 * i, ChunkEnd(|vals|, i));
    BitOfPackByteInt(chunk, k % 8);
    assert chunk[k % 8] == vals[k];
  }

  /** Round trip: unpacking a packed field of single-bit values yields the values. */
  lemma UnpackPack(vals: seq<byte>)
    requires AllBits(vals)
    ensures |vals| <= 8 * |Pack(vals)|
    ensures Unpack(Pack(vals), |vals|) == vals
  {
    forall k | 0 <= k < |vals|
      ensures Unpack(Pack(vals), |vals|)[k] == vals[k]
    {
      UnpackAt(vals, k);
    }
  }

  /** The bits above the last value of a packed field are zero. */
  lemma PackPadding(vals: seq<byte>, j: nat)
    requires AllBits(vals) && vals != []
    requires (|vals| - 1) % 8 < j < 8
    ensures Bit(Pack(vals)[(|vals| - 1) / 8], j) == 0
  {
    var i := (|vals| - 1) / 8;
    PackAt(vals, i);
    var chunk := vals[8 * i .. |vals|];
    assert Pack(vals)[i] == PackByte(chunk);
    AllBitsSlice(vals, 8 * i, |vals|);
    BitOfPackByte(chunk, j);
    var b: bv8 := PackByteV(chunk);
    assert (b as int) as bv8 == b;
  }
}
