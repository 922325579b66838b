/**
  Known answers: checksums and whole frames byte by byte, so that every constant of the wire format counts.
 */
module KnownAnswers {
  import opened Words
  import opened Packets
  import opened Codec

  // ----- 32-bit FNV-1a -----

  type Digit = x: int | 0 <= x <= 1

  /** The binary digits of a byte, highest first. */
  datatype Digits = Digits(a: Digit, b: Digit, c: Digit, d: Digit, e: Digit, f: Digit, g: Digit, h: Digit)

  function Value(d: Digits): Byte {
    128 * d.a + 64 * d.b + 32 * d.c + 16 * d.d + 8 * d.e + 4 * d.f + 2 * d.g + d.h
  }

  function Differ(x: Digit, y: Digit): Digit {
    if x == y then 0 else 1
  }

  function Mix(d: Digits, e: Digits): Digits {
    Digits(Differ(d.a, e.a), Differ(d.b, e.b), Differ(d.c, e.c), Differ(d.d, e.d),
           Differ(d.e, e.e), Differ(d.f, e.f), Differ(d.g, e.g), Differ(d.h, e.h))
  }

  /** A byte `b` takes the word `x` to `y`, by the published rule: XOR into the low byte, then multiply by the prime. */
  predicate Takes(x: U32, b: Byte, y: U32, q: nat, d: Digits, e: Digits, carry: nat) {
    && x == 0x100 * q + Value(d) && b == Value(e)
    && (0x100 * q + Value(Mix(d, e))) * 16777619 == carry * 0x1_0000_0000 + y
  }

  lemma {:induction false} XorDigit(x: nat, y: nat, i: Digit, j: Digit)
    ensures Xor(2 * x + i, 2 * y + j) == 2 * Xor(x, y) + Differ(i, j)
  {
    var m, n := 2 * x + i, 2 * y + j;
    assert m / 2 == x && n / 2 == y && (m + n) % 2 == Differ(i, j);
    XorHalf(m, n);
  }

  lemma {:induction false} XorNothing(x: nat)
    ensures Xor(x, 0) == x
  {
  }

  lemma {:induction false} XorTwoDigits(x: nat, y: nat, a: Digit, b: Digit, s: Digit, t: Digit)
    ensures Xor(4 * x + 2 * a + b, 4 * y + 2 * s + t) == 4 * Xor(x, y) + 2 * Differ(a, s) + Differ(b, t)
  {
    var m, n := 2 * x + a, 2 * y + s;
    XorDigit(x, y, a, s);
    XorDigit(m, n, b, t);
    assert 2 * m + b == 4 * x + 2 * a + b && 2 * n + t == 4 * y + 2 * s + t;
  }

  lemma {:induction false} XorFourDigits(x: nat, y: nat, a: Digit, b: Digit, c: Digit, d: Digit,
                                         s: Digit, t: Digit, u: Digit, v: Digit)
    ensures Xor(16 * x + 8 * a + 4 * b + 2 * c + d, 16 * y + 8 * s + 4 * t + 2 * u + v) ==
            16 * Xor(x, y) + 8 * Differ(a, s) + 4 * Differ(b, t) + 2 * Differ(c, u) + Differ(d, v)
  {
    var m, n := 4 * x + 2 * a + b, 4 * y + 2 * s + t;
    XorTwoDigits(x, y, a, b, s, t);
    XorTwoDigits(m, n, c, d, u, v);
    assert 4 * m + 2 * c + d == 16 * x + 8 * a + 4 * b + 2 * c + d;
    assert 4 * n + 2 * u + v == 16 * y + 8 * s + 4 * t + 2 * u + v;
  }

  lemma {:induction false} XorIsMix(q: nat, d: Digits, e: Digits)
    ensures Xor(0x100 * q + Value(d), Value(e)) == 0x100 * q + Value(Mix(d, e))
  {
    XorFourDigits(q, 0, d.a, d.b, d.c, d.d, e.a, e.b, e.c, e.d);
    XorFourDigits(16 * q + 8 * d.a + 4 * d.b + 2 * d.c + d.d, 8 * e.a + 4 * e.b + 2 * e.c + e.d,
                  d.e, d.f, d.g, d.h, e.e, e.f, e.g, e.h);
    XorNothing(q);
  }

  lemma Remainder(product: nat, carry: nat, y: U32)
    requires product == carry * 0x1_0000_0000 + y
    ensures product % 0x1_0000_0000 == y
  {
  }

  lemma {:induction false} TakesIsStep(x: U32, b: Byte, y: U32, q: nat, d: Digits, e: Digits, carry: nat)
    requires Takes(x, b, y, q, d, e, carry)
    ensures Step(x, b) == y
  {
    var m := 0x100 * q + Value(Mix(d, e));
    XorIsMix(q, d, e);
    assert Mixed(x, b) == m;
    Remainder(m * 16777619, carry, y);
  }

  /** One step: the word before, its high part and low digits, the digits of the byte, the word after and its carry. */
  datatype Hop = Hop(word: U32, high: nat, low: Digits, byte: Digits, next: U32, carry: nat)

  /** Hop `i` takes byte `i`, from where the one before ended. */
  predicate Fits(start: U32, data: seq<Byte>, hops: seq<Hop>, i: nat)
    requires i < |data| == |hops|
  {
    && hops[i].word == (if i == 0 then start else hops[i - 1].next)
    && Takes(hops[i].word, data[i], hops[i].next, hops[i].high, hops[i].low, hops[i].byte, hops[i].carry)
  }

  ghost predicate AllFit(start: U32, data: seq<Byte>, hops: seq<Hop>) {
    |data| == |hops| && forall i {:trigger Fits(start, data, hops, i)} :: 0 <= i < |data| ==> Fits(start, data, hops, i)
  }

  lemma {:induction false} FnvThrough(start: U32, data: seq<Byte>, hops: seq<Hop>)
    requires AllFit(start, data, hops)
    ensures FnvFrom(start, data) == if data == [] then start else hops[|data| - 1].next
  {
    if data != [] {
      var n := |data| - 1;
      forall i {:trigger Fits(start, data[..n], hops[..n], i)} | 0 <= i < n ensures Fits(start, data[..n], hops[..n], i) {
        assert Fits(start, data, hops, i);
      }
      FnvThrough(start, data[..n], hops[..n]);
      assert Fits(start, data, hops, n);
      TakesIsStep(hops[n].word, data[n], hops[n].next, hops[n].high, hops[n].low, hops[n].byte, hops[n].carry);
    }
  }

  /** The checksum of the empty string is the offset basis. */
  lemma FnvOfNothing()
    ensures Fnv([]) == 0x811C9DC5
  {
  }

  lemma AHops(data: seq<Byte>) returns (hops: seq<Hop>)
    requires data == [0x61]
    ensures |hops| == 1 && hops[0].next == 0xE40C292C
    ensures AllFit(0x811C9DC5, data, hops)
  {
    hops := [
      Hop(0x811C9DC5, 0x811C9D, Digits(1, 1, 0, 0, 0, 1, 0, 1), Digits(0, 1, 1, 0, 0, 0, 0, 1), 0xE40C292C, 0x811D68)
    ];
    assert Fits(0x811C9DC5, data, hops, 0);
  }

  lemma FnvOfA(data: seq<Byte>)
    requires data == [0x61]
    ensures Fnv(data) == 0xE40C292C
  {
    var hops := AHops(data);
    FnvThrough(OFFSET_BASIS, data, hops);
  }

  lemma FoobarHops(data: seq<Byte>) returns (hops: seq<Hop>)
    requires data == [0x66, 0x6F, 0x6F, 0x62, 0x61, 0x72]
    ensures |hops| == 6 && hops[5].next == 0xBF9CF968
    ensures AllFit(0x811C9DC5, data, hops)
  {
    hops := [
      Hop(0x811C9DC5, 0x811C9D, Digits(1, 1, 0, 0, 0, 1, 0, 1), Digits(0, 1, 1, 0, 0, 1, 1, 0), 0xE30C2799, 0x811D68),
      Hop(0xE30C2799, 0xE30C27, Digits(1, 0, 0, 1, 1, 0, 0, 1), Digits(0, 1, 1, 0, 1, 1, 1, 1), 0x6222E842, 0xE30D8D),
      Hop(0x6222E842, 0x6222E8, Digits(0, 1, 0, 0, 0, 0, 1, 0), Digits(0, 1, 1, 0, 1, 1, 1, 1), 0xA9F37ED7, 0x622382),
      Hop(0xA9F37ED7, 0xA9F37E, Digits(1, 1, 0, 1, 0, 1, 1, 1), Digits(0, 1, 1, 0, 0, 0, 1, 0), 0x3F5076EF, 0xA9F48A),
      Hop(0x3F5076EF, 0x3F5076, Digits(1, 1, 1, 0, 1, 1, 1, 1), Digits(0, 1, 1, 0, 0, 0, 0, 1), 0x39AAA18A, 0x3F50DA),
      Hop(0x39AAA18A, 0x39AAA1, Digits(1, 0, 0, 0, 1, 0, 1, 0), Digits(0, 1, 1, 1, 0, 0, 1, 0), 0xBF9CF968, 0x39AAFC)
    ];
    assert Fits(0x811C9DC5, data, hops, 0);
    assert Fits(0x811C9DC5, data, hops, 1);
    assert Fits(0x811C9DC5, data, hops, 2);
    assert Fits(0x811C9DC5, data, hops, 3);
    assert Fits(0x811C9DC5, data, hops, 4);
    assert Fits(0x811C9DC5, data, hops, 5);
  }

  lemma FnvOfFoobar(data: seq<Byte>)
    requires data == [0x66, 0x6F, 0x6F, 0x62, 0x61, 0x72]
    ensures Fnv(data) == 0xBF9CF968
  {
    var hops := FoobarHops(data);
    FnvThrough(OFFSET_BASIS, data, hops);
  }

  // ----- Whole frames -----

  lemma DataFirstHops(data: seq<Byte>) returns (hops: seq<Hop>)
    requires data == [0x10, 0x34, 0x12, 0x78, 0x56, 0xF0]
    ensures |hops| == 6 && hops[5].next == 0x03DDB48D
    ensures AllFit(0x811C9DC5, data, hops)
  {
    hops := [
      Hop(0x811C9DC5, 0x811C9D, Digits(1, 1, 0, 0, 0, 1, 0, 1), Digits(0, 0, 0, 1, 0, 0, 0, 0), 0x150C764F, 0x811D69),
      Hop(0x150C764F, 0x150C76, Digits(0, 1, 0, 0, 1, 1, 1, 1), Digits(0, 0, 1, 1, 0, 1, 0, 0), 0x9D9E83A1, 0x150C97),
      Hop(0x9D9E83A1, 0x9D9E83, Digits(1, 0, 1, 0, 0, 0, 0, 1), Digits(0, 0, 0, 1, 0, 0, 1, 0), 0xD38952C9, 0x9D9F7B),
      Hop(0xD38952C9, 0xD38952, Digits(1, 1, 0, 0, 1, 0, 0, 1), Digits(0, 1, 1, 1, 1, 0, 0, 0), 0xB22D2CA3, 0xD38A9F),
      Hop(0xB22D2CA3, 0xB22D2C, Digits(1, 0, 1, 0, 0, 0, 1, 1), Digits(0, 1, 0, 1, 0, 1, 1, 0), 0x721DC5AF, 0xB22E45),
      Hop(0x721DC5AF, 0x721DC5, Digits(1, 0, 1, 0, 1, 1, 1, 1), Digits(1, 1, 1, 1, 0, 0, 0, 0), 0x03DDB48D, 0x721E79)
    ];
    assert Fits(0x811C9DC5, data, hops, 0);
    assert Fits(0x811C9DC5, data, hops, 1);
    assert Fits(0x811C9DC5, data, hops, 2);
    assert Fits(0x811C9DC5, data, hops, 3);
    assert Fits(0x811C9DC5, data, hops, 4);
    assert Fits(0x811C9DC5, data, hops, 5);
  }

  lemma DataSecondHops(data: seq<Byte>) returns (hops: seq<Hop>)
    requires data == [0xDE, 0xBC, 0x9A, 0x05, 0x61, 0x62]
    ensures |hops| == 6 && hops[5].next == 0x6B73E13D
    ensures AllFit(0x03DDB48D, data, hops)
  {
    hops := [
      Hop(0x03DDB48D, 0x03DDB4, Digits(1, 0, 0, 0, 1, 1, 0, 1), Digits(1, 1, 0, 1, 1, 1, 1, 0), 0x6902DEA9, 0x3DDBA),
      Hop(0x6902DEA9, 0x6902DE, Digits(1, 0, 1, 0, 1, 0, 0, 1), Digits(1, 0, 1, 1, 1, 1, 0, 0), 0x64839B0F, 0x690383),
      Hop(0x64839B0F, 0x64839B, Digits(0, 0, 0, 0, 1, 1, 1, 1), Digits(1, 0, 0, 1, 1, 0, 1, 0), 0xD02DEB8F, 0x648439),
      Hop(0xD02DEB8F, 0xD02DEB, Digits(1, 0, 0, 0, 1, 1, 1, 1), Digits(0, 0, 0, 0, 0, 1, 0, 1), 0x4249CA3E, 0xD02F33),
      Hop(0x4249CA3E, 0x4249CA, Digits(0, 0, 1, 1, 1, 1, 1, 0), Digits(0, 1, 1, 0, 0, 0, 0, 1), 0xB929938D, 0x424A32),
      Hop(0xB929938D, 0xB92993, Digits(1, 0, 0, 0, 1, 1, 0, 1), Digits(0, 1, 1, 0, 0, 0, 1, 0), 0x6B73E13D, 0xB92AB7)
    ];
    assert Fits(0x03DDB48D, data, hops, 0);
    assert Fits(0x03DDB48D, data, hops, 1);
    assert Fits(0x03DDB48D, data, hops, 2);
    assert Fits(0x03DDB48D, data, hops, 3);
    assert Fits(0x03DDB48D, data, hops, 4);
    assert Fits(0x03DDB48D, data, hops, 5);
  }

  lemma FnvOfData(first: seq<Byte>, second: seq<Byte>)
    requires first == [0x10, 0x34, 0x12, 0x78, 0x56, 0xF0] && second == [0xDE, 0xBC, 0x9A, 0x05, 0x61, 0x62]
    ensures Fnv(first + second) == 0x6B73E13D
  {
    var one := DataFirstHops(first);
    FnvThrough(OFFSET_BASIS, first, one);
    var two := DataSecondHops(second);
    FnvThrough(0x03DDB48D, second, two);
    FnvOfConcat(OFFSET_BASIS, first, second);
  }

  lemma DataBody(p: Packet) returns (first: seq<Byte>, second: seq<Byte>)
    requires p.kind == DATA && p.sequence == 0x1234 && p.ack == 0x5678 && p.ackBits == 0x9ABCDEF0 && p.channel == 5
    requires p.payload == [0x61, 0x62]
    ensures Body(p) == first + second && first == [0x10, 0x34, 0x12, 0x78, 0x56, 0xF0] && second == [0xDE, 0xBC, 0x9A, 0x05, 0x61, 0x62]
  {
    first, second := [0x10, 0x34, 0x12, 0x78, 0x56, 0xF0], [0xDE, 0xBC, 0x9A, 0x05, 0x61, 0x62];
  }

  lemma DataChecksum(w: U32)
    requires w == 0x6B73E13D
    ensures U32Bytes(w) == [0x3D, 0xE1, 0x73, 0x6B]
  {
  }

  /** A data packet with every field filled: sequence 0x1234, ACK 0x5678, history 0x9ABCDEF0, channel 5. */
  lemma DataFrame(p: Packet)
    requires p.kind == DATA && p.sequence == 0x1234 && p.ack == 0x5678 && p.ackBits == 0x9ABCDEF0 && p.channel == 5
    requires p.payload == [0x61, 0x62]
    ensures Frame(p) == [0x10, 0x34, 0x12, 0x78, 0x56, 0xF0] +
                        [0xDE, 0xBC, 0x9A, 0x05, 0x61, 0x62] +
                        [0x3D, 0xE1, 0x73, 0x6B]
  {
    var first, second := DataBody(p);
    FnvOfData(first, second);
    DataChecksum(Fnv(Body(p)));
  }

  /** The first byte of a frame, by kind. */
  lemma KindsOnTheWire(p: Packet)
    ensures p.kind == HANDSHAKE_INIT <==> Frame(p)[0] == 0x01
    ensures p.kind == HANDSHAKE_ACK <==> Frame(p)[0] == 0x02
    ensures p.kind == DATA <==> Frame(p)[0] == 0x10
    ensures p.kind == ACK <==> Frame(p)[0] == 0x11
    ensures p.kind == KEEPALIVE <==> Frame(p)[0] == 0x20
    ensures p.kind == DISCONNECT <==> Frame(p)[0] == 0x30
  {
  }
}
