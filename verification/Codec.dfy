/**
  The default wire format: a ten-byte little-endian header, the payload, and a 32-bit FNV-1a
  checksum.  Encoding and decoding are inverse in both directions, and every corruption confined
  to two neighbouring bytes is caught.
 */
module Codec {
  import opened Serial
  import opened Words
  import opened Packets

  const HEADER_SIZE := 10
  const CRC_SIZE := 4
  const OVERHEAD := 14

  // ----- Little-endian fields -----

  function U16Bytes(v: Seq16): seq<Byte> {
    [v % 0x100, v / 0x100]
  }

  function U32Bytes(v: U32): seq<Byte> {
    [v % 0x100, v / 0x100 % 0x100, v / 0x1_0000 % 0x100, v / 0x100_0000]
  }

  function ReadU16(b: seq<Byte>, at: nat): Seq16
    requires at + 2 <= |b|
  {
    b[at] + 0x100 * (b[at + 1] as int)
  }

  function ReadU32(b: seq<Byte>, at: nat): U32
    requires at + 4 <= |b|
  {
    b[at] + 0x100 * (b[at + 1] as int) + 0x1_0000 * (b[at + 2] as int) + 0x100_0000 * (b[at + 3] as int)
  }

  lemma ByteDigits(v: U32)
    ensures v == v % 0x100 + 0x100 * (v / 0x100 % 0x100) + 0x1_0000 * (v / 0x1_0000 % 0x100) + 0x100_0000 * (v / 0x100_0000)
  {
    var q1, q2 := v / 0x100, v / 0x1_0000;
    assert q1 / 0x100 == q2;
    assert q2 / 0x100 == v / 0x100_0000;
  }

  lemma ReadU32At(b: seq<Byte>, at: nat, v: U32)
    requires at + 4 <= |b| && b[at..at + 4] == U32Bytes(v)
    ensures ReadU32(b, at) == v
  {
    var w := U32Bytes(v);
    ByteDigits(v);
    assert b[at] == w[0] && b[at + 1] == w[1] && b[at + 2] == w[2] && b[at + 3] == w[3];
  }

  /** The low byte and the rest of a stored word. */
  lemma ReadU32Parts(b: seq<Byte>, at: nat)
    requires at + 4 <= |b|
    ensures ReadU32(b, at) % 0x100 == b[at]
    ensures ReadU32(b, at) / 0x100 == b[at + 1] + 0x100 * (b[at + 2] as int) + 0x1_0000 * (b[at + 3] as int)
  {
  }

  lemma BytesOfReadU32(b: seq<Byte>, at: nat)
    requires at + 4 <= |b|
    ensures U32Bytes(ReadU32(b, at)) == b[at..at + 4]
  {
    var v := ReadU32(b, at);
    assert v / 0x100 == b[at + 1] + 0x100 * (b[at + 2] as int) + 0x1_0000 * (b[at + 3] as int);
    assert v / 0x1_0000 == b[at + 2] + 0x100 * (b[at + 3] as int);
    assert v / 0x100_0000 == b[at + 3];
  }

  lemma BytesOfReadU16(b: seq<Byte>, at: nat)
    requires at + 2 <= |b|
    ensures U16Bytes(ReadU16(b, at)) == b[at..at + 2]
  {
  }

  // ----- FNV-1a -----

  const OFFSET_BASIS: U32 := 2166136261
  const PRIME: U32 := 16777619
  const PRIME_INVERSE: U32 := 899433627

  /** `h *= 16777619u`. */
  function Multiplied(h: U32): U32 {
    h * PRIME % WORD
  }

  /** `h ^= b` for a byte `b`: only the low byte of the word changes. */
  function Mixed(h: U32, b: Byte): (r: U32)
    ensures r / 0x100 == h / 0x100
  {
    HalvedEightTimes(b);
    HalvedEightTimes(h);
    HalvedEightTimes(Xor(h, b));
    XorAbove(h, b, 8);
    Xor(h, b)
  }

  function Step(h: U32, b: Byte): U32 {
    Multiplied(Mixed(h, b))
  }

  /** The checksum loop started from `h`. */
  function FnvFrom(h: U32, data: seq<Byte>): U32 {
    if data == [] then h else Step(FnvFrom(h, data[..|data| - 1]), data[|data| - 1])
  }

  function Fnv(data: seq<Byte>): U32 {
    FnvFrom(OFFSET_BASIS, data)
  }

  // ----- Frames -----

  function Header(p: Packet): seq<Byte> {
    [p.kind] + U16Bytes(p.sequence) + U16Bytes(p.ack) + U32Bytes(p.ackBits) + [p.channel]
  }

  function Body(p: Packet): seq<Byte> {
    Header(p) + p.payload
  }

  /** The bytes `encode` produces. */
  function Frame(p: Packet): seq<Byte> {
    Body(p) + U32Bytes(Fnv(Body(p)))
  }

  function Decode(b: seq<Byte>): Result<Packet> {
    if |b| < HEADER_SIZE + CRC_SIZE then
      Err(BadPacket)
    else
      var n := |b| - CRC_SIZE;
      var storedCrc := ReadU32(b, n);
      if storedCrc != Fnv(b[..n]) then
        Err(BadPacket)
      else
        Ok(Packet(b[0], ReadU16(b, 1), ReadU16(b, 3), ReadU32(b, 5), b[9], b[HEADER_SIZE..n], storedCrc))
  }

  /** The checksum loop over the first `len` bytes of a buffer. */
  method Checksum(data: array<Byte>, len: nat) returns (h: U32)
    requires len <= data.Length
    ensures h == Fnv(data[..len])
  {
    h := OFFSET_BASIS;
    for i := 0 to len
      invariant h == Fnv(data[..i])
    {
      assert data[..i + 1] == data[..i] + [data[i]];
      h := Step(h, data[i]);
    }
  }

  method WriteU16(out: array<Byte>, at: nat, v: Seq16)
    requires at + 2 <= out.Length
    modifies out
    ensures out[at..at + 2] == U16Bytes(v)
    ensures forall i :: 0 <= i < out.Length && !(at <= i < at + 2) ==> out[i] == old(out[i])
  {
    out[at], out[at + 1] := v % 0x100, v / 0x100;
  }

  method WriteU32(out: array<Byte>, at: nat, v: U32)
    requires at + 4 <= out.Length
    modifies out
    ensures out[at..at + 4] == U32Bytes(v)
    ensures forall i :: 0 <= i < out.Length && !(at <= i < at + 4) ==> out[i] == old(out[i])
  {
    out[at], out[at + 1] := v % 0x100, v / 0x100 % 0x100;
    out[at + 2], out[at + 3] := v / 0x1_0000 % 0x100, v / 0x100_0000;
  }

  method WriteHeader(p: Packet, out: array<Byte>)
    requires HEADER_SIZE <= out.Length
    modifies out
    ensures out[..HEADER_SIZE] == Header(p)
    ensures forall i :: HEADER_SIZE <= i < out.Length ==> out[i] == old(out[i])
  {
    out[0] := p.kind;
    WriteU16(out, 1, p.sequence);
    assert out[..3] == [p.kind] + out[1..3];
    WriteU16(out, 3, p.ack);
    assert out[..5] == [p.kind] + U16Bytes(p.sequence) + out[3..5];
    ghost var front := out[..5];
    WriteU32(out, 5, p.ackBits);
    assert out[..5] == front;
    assert out[..9] == front + out[5..9];
    ghost var fields := out[..9];
    out[9] := p.channel;
    assert out[..9] == fields;
    assert out[..10] == fields + [p.channel];
  }

  /** Writes the body of the frame at the front of the buffer. */
  method WriteBody(p: Packet, out: array<Byte>)
    requires HEADER_SIZE + |p.payload| <= out.Length
    modifies out
    ensures out[..HEADER_SIZE + |p.payload|] == Body(p)
    ensures forall i :: HEADER_SIZE + |p.payload| <= i < out.Length ==> out[i] == old(out[i])
  {
    WriteHeader(p, out);
    ghost var header := out[..HEADER_SIZE];
    forall i | 0 <= i < |p.payload| {
      out[HEADER_SIZE + i] := p.payload[i];
    }
    assert out[..HEADER_SIZE] == header;
    assert out[HEADER_SIZE..HEADER_SIZE + |p.payload|] == p.payload;
    assert out[..HEADER_SIZE + |p.payload|] == header + p.payload;
  }

  /**
    Fills the front of a caller's buffer with the frame and returns its size; a buffer that is
    too small is left alone and 0 is returned.
   */
  method Encode(p: Packet, out: array<Byte>) returns (size: nat)
    modifies out
    ensures size == 0 <==> out.Length < |p.payload| + OVERHEAD
    ensures size == 0 ==> out[..] == old(out[..])
    ensures size > 0 ==>
              && size == |p.payload| + OVERHEAD
              && out[..size] == Frame(p)
              && forall i :: size <= i < out.Length ==> out[i] == old(out[i])
  {
    var n := HEADER_SIZE + |p.payload|;
    if out.Length < n + CRC_SIZE {
      return 0;
    }
    WriteBody(p, out);
    var crc := Checksum(out, n);
    ghost var body := out[..n];
    WriteU32(out, n, crc);
    size := n + CRC_SIZE;
    assert out[..n] == body;
    assert out[..size] == body + out[n..n + 4];
  }

  // ----- Encoding and decoding are inverse -----

  lemma FieldsOfHeader(p: Packet, b: seq<Byte>)
    requires |b| >= HEADER_SIZE && b[..HEADER_SIZE] == Header(p)
    ensures b[0] == p.kind && b[9] == p.channel
    ensures ReadU16(b, 1) == p.sequence && ReadU16(b, 3) == p.ack && ReadU32(b, 5) == p.ackBits
  {
    var h := Header(p);
    assert forall i :: 0 <= i < HEADER_SIZE ==> b[i] == h[i];
    assert b[1] == p.sequence % 0x100 && b[2] == p.sequence / 0x100;
    assert b[3] == p.ack % 0x100 && b[4] == p.ack / 0x100;
    assert h[5..9] == U32Bytes(p.ackBits) && b[5..9] == h[5..9];
    ReadU32At(b, 5, p.ackBits);
  }

  /** Every packet survives the wire; only the checksum field is filled in. */
  lemma DecodeOfFrame(p: Packet)
    ensures Decode(Frame(p)) == Ok(p.(crc := Fnv(Body(p))))
  {
    var b, n, crc := Frame(p), |Body(p)|, Fnv(Body(p));
    assert b[..n] == Body(p);
    assert b[..HEADER_SIZE] == Header(p);
    FieldsOfHeader(p, b);
    assert b[n..n + 4] == U32Bytes(crc);
    ReadU32At(b, n, crc);
    assert b[HEADER_SIZE..n] == p.payload;
  }

  /** Every byte string that decodes is the frame of the packet it decodes to. */
  lemma FrameOfDecoded(b: seq<Byte>)
    requires Decode(b).Ok?
    ensures Frame(Decode(b).value) == b
  {
    var p, n := Decode(b).value, |b| - CRC_SIZE;
    BytesOfReadU16(b, 1);
    BytesOfReadU16(b, 3);
    BytesOfReadU32(b, 5);
    BytesOfReadU32(b, n);
    assert Body(p) == b[..n] by {
      assert b[..n] == [b[0]] + b[1..3] + b[3..5] + b[5..9] + [b[9]] + b[10..n];
    }
    assert b == b[..n] + b[n..n + 4];
  }

  /** Decoding accepts exactly the frames, each for exactly one packet content. */
  lemma DecodeAcceptsFrames(b: seq<Byte>)
    ensures Decode(b).Ok? <==> exists p :: Frame(p) == b
  {
    if Decode(b).Ok? {
      FrameOfDecoded(b);
    }
    forall p | Frame(p) == b ensures Decode(b).Ok? {
      DecodeOfFrame(p);
    }
  }

  // ----- Corruption -----

  lemma MultipliedBack(h: U32)
    ensures Multiplied(h) * PRIME_INVERSE % WORD == h
  {
    var t, k := h * PRIME / WORD, PRIME * PRIME_INVERSE / WORD;
    assert PRIME * PRIME_INVERSE == k * WORD + 1;
    assert Multiplied(h) == h * PRIME - t * WORD;
    assert Multiplied(h) * PRIME_INVERSE == h + WORD * (k * h - t * PRIME_INVERSE);
    WordResidue(h, k * h - t * PRIME_INVERSE);
  }

  lemma WordResidue(h: U32, z: int)
    ensures (h + WORD * z) % WORD == h
  {
  }

  lemma MultipliedInjective(g: U32, h: U32)
    requires Multiplied(g) == Multiplied(h)
    ensures g == h
  {
    MultipliedBack(g);
    MultipliedBack(h);
  }

  /** No multiple of the prime by 1..255 comes within 255 of a multiple of 2^32. */
  lemma PrimeStaysFar(d: int, k: int)
    requires 1 <= d <= 0xFF
    ensures d * PRIME - k * WORD >= 0x100 || d * PRIME - k * WORD <= -0x100
  {
    assert 0x100 <= d * PRIME <= WORD - 0x100;
  }

  /** Words that differ in the low byte only differ above it after the multiplication. */
  lemma MultiplicationSpreads(g: U32, h: U32)
    requires g / 0x100 == h / 0x100 && g < h
    ensures Multiplied(g) / 0x100 != Multiplied(h) / 0x100
  {
    var d, k := h - g, h * PRIME / WORD - g * PRIME / WORD;
    assert 1 <= d <= 0xFF;
    assert Multiplied(h) - Multiplied(g) == d * PRIME - k * WORD;
    PrimeStaysFar(d, k);
  }

  lemma MixedInjectiveInWord(g: U32, h: U32, b: Byte)
    requires Mixed(g, b) == Mixed(h, b)
    ensures g == h
  {
    XorTwice(g, b);
    XorTwice(h, b);
  }

  lemma MixedInjectiveInByte(h: U32, b: Byte, c: Byte)
    requires Mixed(h, b) == Mixed(h, c)
    ensures b == c
  {
    XorCommutes(h, b);
    XorCommutes(h, c);
    XorTwice(b, h);
    XorTwice(c, h);
  }

  lemma {:induction false} XorCommutes(x: nat, y: nat)
    ensures Xor(x, y) == Xor(y, x)
  {
    if x != 0 && y != 0 { XorCommutes(x / 2, y / 2); }
  }

  /** Different words stay different over any common suffix. */
  lemma {:induction false} FnvInjective(g: U32, h: U32, data: seq<Byte>)
    requires g != h
    ensures FnvFrom(g, data) != FnvFrom(h, data)
  {
    if data != [] {
      var n := |data| - 1;
      var g', h' := FnvFrom(g, data[..n]), FnvFrom(h, data[..n]);
      FnvInjective(g, h, data[..n]);
      if FnvFrom(g, data) == FnvFrom(h, data) {
        MultipliedInjective(Mixed(g', data[n]), Mixed(h', data[n]));
        MixedInjectiveInWord(g', h', data[n]);
      }
    }
  }

  lemma {:induction false} FnvOfConcat(h: U32, a: seq<Byte>, b: seq<Byte>)
    ensures FnvFrom(h, a + b) == FnvFrom(FnvFrom(h, a), b)
  {
    if b == [] {
      assert a + b == a;
    } else {
      var n := |b| - 1;
      assert (a + b)[..|a + b| - 1] == a + b[..n];
      FnvOfConcat(h, a, b[..n]);
    }
  }

  /** One changed byte shows above the low byte of the checksum state. */
  lemma StepSpreads(h: U32, x: Byte, y: Byte)
    requires x != y
    ensures Step(h, x) / 0x100 != Step(h, y) / 0x100
  {
    if Mixed(h, x) == Mixed(h, y) { MixedInjectiveInByte(h, x, y); }
    if Mixed(h, x) < Mixed(h, y) {
      MultiplicationSpreads(Mixed(h, x), Mixed(h, y));
    } else {
      MultiplicationSpreads(Mixed(h, y), Mixed(h, x));
    }
  }

  /** Two steps over different pairs of bytes end in different states. */
  lemma TwoStepsInjective(h: U32, x: Byte, x2: Byte, y: Byte, y2: Byte)
    requires x != y || x2 != y2
    ensures Step(Step(h, x), x2) != Step(Step(h, y), y2)
  {
    var g1, g2 := Step(h, x), Step(h, y);
    if x != y {
      StepSpreads(h, x, y);
      assert Mixed(g1, x2) != Mixed(g2, y2);
    } else if Mixed(g1, x2) == Mixed(g2, y2) {
      MixedInjectiveInByte(g1, x2, y2);
    }
    if Step(g1, x2) == Step(g2, y2) {
      MultipliedInjective(Mixed(g1, x2), Mixed(g2, y2));
    }
  }

  /** The two byte strings are equal outside positions `i` and `i + 1`. */
  ghost predicate AgreeOutside(b: seq<Byte>, c: seq<Byte>, i: nat) {
    && |b| == |c|
    && forall k :: 0 <= k < |b| && k != i && k != i + 1 ==> b[k] == c[k]
  }

  lemma FnvOfSnoc(h: U32, data: seq<Byte>, x: Byte)
    ensures FnvFrom(h, data + [x]) == Step(FnvFrom(h, data), x)
  {
    assert (data + [x])[..|data|] == data;
  }

  lemma FnvOfPair(h: U32, x: Byte, y: Byte)
    ensures FnvFrom(h, [x, y]) == Step(Step(h, x), y)
  {
    assert [x, y] == ([] + [x]) + [y];
    FnvOfSnoc(h, [], x);
    FnvOfSnoc(h, [] + [x], y);
  }

  /** A change confined to two neighbouring bytes of a body changes its checksum. */
  lemma BodyCorruptionChangesFnv(b: seq<Byte>, c: seq<Byte>, i: nat)
    requires AgreeOutside(b, c, i) && b != c && i + 2 <= |b|
    ensures Fnv(b) != Fnv(c)
  {
    var pre, suf := b[..i], b[i + 2..];
    var h := FnvFrom(OFFSET_BASIS, pre);
    assert b == pre + ([b[i], b[i + 1]] + suf);
    assert c == pre + ([c[i], c[i + 1]] + suf);
    FnvOfConcat(OFFSET_BASIS, pre, [b[i], b[i + 1]] + suf);
    FnvOfConcat(OFFSET_BASIS, pre, [c[i], c[i + 1]] + suf);
    FnvOfConcat(h, [b[i], b[i + 1]], suf);
    FnvOfConcat(h, [c[i], c[i + 1]], suf);
    FnvOfPair(h, b[i], b[i + 1]);
    FnvOfPair(h, c[i], c[i + 1]);
    TwoStepsInjective(h, b[i], b[i + 1], c[i], c[i + 1]);
    FnvInjective(Step(Step(h, b[i]), b[i + 1]), Step(Step(h, c[i]), c[i + 1]), suf);
  }

  /** The last byte of the body and the first of the stored checksum change together. */
  lemma BoundaryCorruptionShows(b: seq<Byte>, c: seq<Byte>, n: nat)
    requires n >= 1 && |b| == n + 4 && AgreeOutside(b, c, n - 1) && b != c
    requires ReadU32(b, n) == Fnv(b[..n])
    ensures ReadU32(c, n) != Fnv(c[..n])
  {
    var h := Fnv(b[..n - 1]);
    assert b[..n] == b[..n - 1] + [b[n - 1]] && c[..n] == b[..n - 1] + [c[n - 1]];
    FnvOfSnoc(OFFSET_BASIS, b[..n - 1], b[n - 1]);
    FnvOfSnoc(OFFSET_BASIS, b[..n - 1], c[n - 1]);
    ReadU32Parts(b, n);
    ReadU32Parts(c, n);
    if b[n - 1] != c[n - 1] {
      StepSpreads(h, b[n - 1], c[n - 1]);
    }
  }

  /** A change inside the stored checksum alone. */
  lemma ChecksumCorruptionShows(b: seq<Byte>, c: seq<Byte>, n: nat)
    requires |b| == |c| == n + 4 && b[..n] == c[..n] && b != c
    requires ReadU32(b, n) == Fnv(b[..n])
    ensures ReadU32(c, n) != Fnv(c[..n])
  {
    BytesOfReadU32(b, n);
    BytesOfReadU32(c, n);
    assert b == b[..n] + b[n..n + 4] && c == c[..n] + c[n..n + 4];
  }

  /**
    Take any byte string that decodes and change one byte, or two neighbouring bytes, anywhere in
    it: header, payload, checksum, or across the boundary.  The result is rejected.
   */
  lemma AdjacentCorruptionRejected(b: seq<Byte>, c: seq<Byte>, i: nat)
    requires Decode(b).Ok? && AgreeOutside(b, c, i) && b != c
    ensures Decode(c) == Err(BadPacket)
  {
    var n := |b| - CRC_SIZE;
    if i + 2 <= n {
      assert b[n..] == c[n..];
      assert b == b[..n] + b[n..] && c == c[..n] + c[n..];
      BodyCorruptionChangesFnv(b[..n], c[..n], i);
    } else if i + 1 == n {
      BoundaryCorruptionShows(b, c, n);
    } else {
      ChecksumCorruptionShows(b, c, n);
    }
  }
}
