/** The installer's table-driven CRC-32 against the bit-by-bit reflected definition. */
module Crc32 {
  import opened Bytes

  /** Polynomial of section 8 of RFC 1952, reflected. */
  const POLYNOMIAL: bv32 := 0xedb88320

  /** `crc32_table`, by high and low nibble of the index. */
  function Table(i: bv8): bv32 {
    match i >> 4 {
      case 0 => match i & 15 {
        case 0 => 0x00000000 case 1 => 0x77073096 case 2 => 0xee0e612c case 3 => 0x990951ba
        case 4 => 0x076dc419 case 5 => 0x706af48f case 6 => 0xe963a535 case 7 => 0x9e6495a3
        case 8 => 0x0edb8832 case 9 => 0x79dcb8a4 case 10 => 0xe0d5e91e case 11 => 0x97d2d988
        case 12 => 0x09b64c2b case 13 => 0x7eb17cbd case 14 => 0xe7b82d07 case _ => 0x90bf1d91
      }
      case 1 => match i & 15 {
        case 0 => 0x1db71064 case 1 => 0x6ab020f2 case 2 => 0xf3b97148 case 3 => 0x84be41de
        case 4 => 0x1adad47d case 5 => 0x6ddde4eb case 6 => 0xf4d4b551 case 7 => 0x83d385c7
        case 8 => 0x136c9856 case 9 => 0x646ba8c0 case 10 => 0xfd62f97a case 11 => 0x8a65c9ec
        case 12 => 0x14015c4f case 13 => 0x63066cd9 case 14 => 0xfa0f3d63 case _ => 0x8d080df5
      }
      case 2 => match i & 15 {
        case 0 => 0x3b6e20c8 case 1 => 0x4c69105e case 2 => 0xd56041e4 case 3 => 0xa2677172
        case 4 => 0x3c03e4d1 case 5 => 0x4b04d447 case 6 => 0xd20d85fd case 7 => 0xa50ab56b
        case 8 => 0x35b5a8fa case 9 => 0x42b2986c case 10 => 0xdbbbc9d6 case 11 => 0xacbcf940
        case 12 => 0x32d86ce3 case 13 => 0x45df5c75 case 14 => 0xdcd60dcf case _ => 0xabd13d59
      }
      case 3 => match i & 15 {
        case 0 => 0x26d930ac case 1 => 0x51de003a case 2 => 0xc8d75180 case 3 => 0xbfd06116
        case 4 => 0x21b4f4b5 case 5 => 0x56b3c423 case 6 => 0xcfba9599 case 7 => 0xb8bda50f
        case 8 => 0x2802b89e case 9 => 0x5f058808 case 10 => 0xc60cd9b2 case 11 => 0xb10be924
        case 12 => 0x2f6f7c87 case 13 => 0x58684c11 case 14 => 0xc1611dab case _ => 0xb6662d3d
      }
      case 4 => match i & 15 {
        case 0 => 0x76dc4190 case 1 => 0x01db7106 case 2 => 0x98d220bc case 3 => 0xefd5102a
        case 4 => 0x71b18589 case 5 => 0x06b6b51f case 6 => 0x9fbfe4a5 case 7 => 0xe8b8d433
        case 8 => 0x7807c9a2 case 9 => 0x0f00f934 case 10 => 0x9609a88e case 11 => 0xe10e9818
        case 12 => 0x7f6a0dbb case 13 => 0x086d3d2d case 14 => 0x91646c97 case _ => 0xe6635c01
      }
      case 5 => match i & 15 {
        case 0 => 0x6b6b51f4 case 1 => 0x1c6c6162 case 2 => 0x856530d8 case 3 => 0xf262004e
        case 4 => 0x6c0695ed case 5 => 0x1b01a57b case 6 => 0x8208f4c1 case 7 => 0xf50fc457
        case 8 => 0x65b0d9c6 case 9 => 0x12b7e950 case 10 => 0x8bbeb8ea case 11 => 0xfcb9887c
        case 12 => 0x62dd1ddf case 13 => 0x15da2d49 case 14 => 0x8cd37cf3 case _ => 0xfbd44c65
      }
      case 6 => match i & 15 {
        case 0 => 0x4db26158 case 1 => 0x3ab551ce case 2 => 0xa3bc0074 case 3 => 0xd4bb30e2
        case 4 => 0x4adfa541 case 5 => 0x3dd895d7 case 6 => 0xa4d1c46d case 7 => 0xd3d6f4fb
        case 8 => 0x4369e96a case 9 => 0x346ed9fc case 10 => 0xad678846 case 11 => 0xda60b8d0
        case 12 => 0x44042d73 case 13 => 0x33031de5 case 14 => 0xaa0a4c5f case _ => 0xdd0d7cc9
      }
      case 7 => match i & 15 {
        case 0 => 0x5005713c case 1 => 0x270241aa case 2 => 0xbe0b1010 case 3 => 0xc90c2086
        case 4 => 0x5768b525 case 5 => 0x206f85b3 case 6 => 0xb966d409 case 7 => 0xce61e49f
        case 8 => 0x5edef90e case 9 => 0x29d9c998 case 10 => 0xb0d09822 case 11 => 0xc7d7a8b4
        case 12 => 0x59b33d17 case 13 => 0x2eb40d81 case 14 => 0xb7bd5c3b case _ => 0xc0ba6cad
      }
      case 8 => match i & 15 {
        case 0 => 0xedb88320 case 1 => 0x9abfb3b6 case 2 => 0x03b6e20c case 3 => 0x74b1d29a
        case 4 => 0xead54739 case 5 => 0x9dd277af case 6 => 0x04db2615 case 7 => 0x73dc1683
        case 8 => 0xe3630b12 case 9 => 0x94643b84 case 10 => 0x0d6d6a3e case 11 => 0x7a6a5aa8
        case 12 => 0xe40ecf0b case 13 => 0x9309ff9d case 14 => 0x0a00ae27 case _ => 0x7d079eb1
      }
      case 9 => match i & 15 {
        case 0 => 0xf00f9344 case 1 => 0x8708a3d2 case 2 => 0x1e01f268 case 3 => 0x6906c2fe
        case 4 => 0xf762575d case 5 => 0x806567cb case 6 => 0x196c3671 case 7 => 0x6e6b06e7
        case 8 => 0xfed41b76 case 9 => 0x89d32be0 case 10 => 0x10da7a5a case 11 => 0x67dd4acc
        case 12 => 0xf9b9df6f case 13 => 0x8ebeeff9 case 14 => 0x17b7be43 case _ => 0x60b08ed5
      }
      case 10 => match i & 15 {
        case 0 => 0xd6d6a3e8 case 1 => 0xa1d1937e case 2 => 0x38d8c2c4 case 3 => 0x4fdff252
        case 4 => 0xd1bb67f1 case 5 => 0xa6bc5767 case 6 => 0x3fb506dd case 7 => 0x48b2364b
        case 8 => 0xd80d2bda case 9 => 0xaf0a1b4c case 10 => 0x36034af6 case 11 => 0x41047a60
        case 12 => 0xdf60efc3 case 13 => 0xa867df55 case 14 => 0x316e8eef case _ => 0x4669be79
      }
      case 11 => match i & 15 {
        case 0 => 0xcb61b38c case 1 => 0xbc66831a case 2 => 0x256fd2a0 case 3 => 0x5268e236
        case 4 => 0xcc0c7795 case 5 => 0xbb0b4703 case 6 => 0x220216b9 case 7 => 0x5505262f
        case 8 => 0xc5ba3bbe case 9 => 0xb2bd0b28 case 10 => 0x2bb45a92 case 11 => 0x5cb36a04
        case 12 => 0xc2d7ffa7 case 13 => 0xb5d0cf31 case 14 => 0x2cd99e8b case _ => 0x5bdeae1d
      }
      case 12 => match i & 15 {
        case 0 => 0x9b64c2b0 case 1 => 0xec63f226 case 2 => 0x756aa39c case 3 => 0x026d930a
        case 4 => 0x9c0906a9 case 5 => 0xeb0e363f case 6 => 0x72076785 case 7 => 0x05005713
        case 8 => 0x95bf4a82 case 9 => 0xe2b87a14 case 10 => 0x7bb12bae case 11 => 0x0cb61b38
        case 12 => 0x92d28e9b case 13 => 0xe5d5be0d case 14 => 0x7cdcefb7 case _ => 0x0bdbdf21
      }
      case 13 => match i & 15 {
        case 0 => 0x86d3d2d4 case 1 => 0xf1d4e242 case 2 => 0x68ddb3f8 case 3 => 0x1fda836e
        case 4 => 0x81be16cd case 5 => 0xf6b9265b case 6 => 0x6fb077e1 case 7 => 0x18b74777
        case 8 => 0x88085ae6 case 9 => 0xff0f6a70 case 10 => 0x66063bca case 11 => 0x11010b5c
        case 12 => 0x8f659eff case 13 => 0xf862ae69 case 14 => 0x616bffd3 case _ => 0x166ccf45
      }
      case 14 => match i & 15 {
        case 0 => 0xa00ae278 case 1 => 0xd70dd2ee case 2 => 0x4e048354 case 3 => 0x3903b3c2
        case 4 => 0xa7672661 case 5 => 0xd06016f7 case 6 => 0x4969474d case 7 => 0x3e6e77db
        case 8 => 0xaed16a4a case 9 => 0xd9d65adc case 10 => 0x40df0b66 case 11 => 0x37d83bf0
        case 12 => 0xa9bcae53 case 13 => 0xdebb9ec5 case 14 => 0x47b2cf7f case _ => 0x30b5ffe9
      }
      case _ => match i & 15 {
        case 0 => 0xbdbdf21c case 1 => 0xcabac28a case 2 => 0x53b39330 case 3 => 0x24b4a3a6
        case 4 => 0xbad03605 case 5 => 0xcdd70693 case 6 => 0x54de5729 case 7 => 0x23d967bf
        case 8 => 0xb3667a2e case 9 => 0xc4614ab8 case 10 => 0x5d681b02 case 11 => 0x2a6f2b94
        case 12 => 0xb40bbe37 case 13 => 0xc30c8ea1 case 14 => 0x5a05df1b case _ => 0x2d02ef8d
      }
    }
  }

  // ---------- the definition, one bit at a time ----------

  /** One bit: shift right, and take the polynomial off when a one falls out. */
  function BitStep(s: bv32): bv32 {
    if s & 1 == 1 then (s >> 1) ^ POLYNOMIAL else s >> 1
  }

  function Step2(s: bv32): bv32 {
    BitStep(BitStep(s))
  }

  function Step4(s: bv32): bv32 {
    Step2(Step2(s))
  }

  function ByteStep(s: bv32): bv32 {
    Step4(Step4(s))
  }

  /** A byte as it is promoted for arithmetic with the register. */
  type Octet = w: bv32 | w < 256

  /** The bits of a byte, lowest first. */
  datatype Bits = Bits(a: bool, b: bool, c: bool, d: bool, e: bool, f: bool, g: bool, h: bool)

  function Odd(n: nat): bool {
    n % 2 == 1
  }

  function Half(n: nat): nat {
    n / 2
  }

  function BitsOf(n: nat): Bits {
    var n1 := Half(n);
    var n2 := Half(n1);
    var n3 := Half(n2);
    var n4 := Half(n3);
    var n5 := Half(n4);
    var n6 := Half(n5);
    Bits(Odd(n), Odd(n1), Odd(n2), Odd(n3), Odd(n4), Odd(n5), Odd(n6), Odd(Half(n6)))
  }

  function Place(bit: bool, weight: bv32): bv32 {
    if bit then weight else 0
  }

  function Pack(x: Bits): (o: Octet) {
    Place(x.a, 1) | Place(x.b, 2) | Place(x.c, 4) | Place(x.d, 8)
    | Place(x.e, 16) | Place(x.f, 32) | Place(x.g, 64) | Place(x.h, 128)
  }

  lemma PackInjective(x: Bits, y: Bits)
    requires Pack(x) == Pack(y)
    ensures x == y
  {
  }

  lemma HalfSpec(n: nat)
    ensures n == 2 * Half(n) + if Odd(n) then 1 else 0
  {
  }

  lemma SameNumber(n: nat, m: nat)
    requires Odd(n) == Odd(m) && Half(n) == Half(m)
    ensures n == m
  {
    HalfSpec(n);
    HalfSpec(m);
  }

  lemma EightHalves(n: nat)
    requires n < 256
    ensures Half(Half(Half(Half(Half(Half(Half(Half(n)))))))) == 0
  {
  }

  /** A byte is determined by its bits. */
  lemma BitsDetermine(n: byte, m: byte)
    requires BitsOf(n) == BitsOf(m)
    ensures n == m
  {
    hide Half, Odd;
    EightHalves(n);
    EightHalves(m);
    var a, x := Half(n), Half(m);
    var b, y := Half(a), Half(x);
    var c, z := Half(b), Half(y);
    var d, w := Half(c), Half(z);
    var e, v := Half(d), Half(w);
    var f, u := Half(e), Half(v);
    SameNumber(Half(f), Half(u));
    SameNumber(f, u);
    SameNumber(e, v);
    SameNumber(d, w);
    SameNumber(c, z);
    SameNumber(b, y);
    SameNumber(a, x);
    SameNumber(n, m);
  }

  function AsOctet(b: byte): Octet {
    Pack(BitsOf(b))
  }

  function Octets(s: seq<byte>): (o: seq<Octet>)
    ensures |o| == |s|
  {
    seq(|s|, i requires 0 <= i < |s| => AsOctet(s[i]))
  }

  /** A byte is added to the low end of the register, which then makes eight bit steps. */
  function Absorb(s: bv32, b: Octet): bv32 {
    ByteStep(s ^ b)
  }

  function Fold(step: (bv32, Octet) -> bv32, s: bv32, message: seq<Octet>): bv32
    decreases |message|
  {
    if message == [] then s else Fold(step, step(s, message[0]), message[1..])
  }

  function Final(s: bv32): bv32 {
    s ^ 0xffffffff
  }

  /** The CRC of section 8 of RFC 1952, bit by bit. */
  function Crc(message: seq<Octet>): bv32 {
    Final(Fold(Absorb, 0xffffffff, message))
  }

  // ---------- the table ----------

  lemma FirstQuarter(i: bv8)
    requires i < 64
    ensures Table(i) == ByteStep(i as bv32)
  {
  }

  lemma SecondQuarter(i: bv8)
    requires 64 <= i < 128
    ensures Table(i) == ByteStep(i as bv32)
  {
  }

  lemma ThirdQuarter(i: bv8)
    requires 128 <= i < 192
    ensures Table(i) == ByteStep(i as bv32)
  {
  }

  lemma FourthQuarter(i: bv8)
    requires 192 <= i
    ensures Table(i) == ByteStep(i as bv32)
  {
  }

  /** Every table entry is eight bit steps of its index. */
  lemma TableIsEightSteps(i: bv8)
    ensures Table(i) == ByteStep(i as bv32)
  {
    hide *;
    if i < 64 {
      FirstQuarter(i);
    } else if i < 128 {
      SecondQuarter(i);
    } else if i < 192 {
      ThirdQuarter(i);
    } else {
      FourthQuarter(i);
    }
  }

  lemma ShiftXor(s: bv32, x: bv32)
    ensures (s ^ x) >> 1 == (s >> 1) ^ (x >> 1)
  {
  }

  lemma LowBitXor(s: bv32, x: bv32)
    ensures (s ^ x) & 1 == 1 <==> (s & 1 == 1) != (x & 1 == 1)
  {
  }

  lemma XorMoves(a: bv32, b: bv32, p: bv32)
    ensures (a ^ p) ^ b == (a ^ b) ^ p && a ^ (b ^ p) == (a ^ b) ^ p && (a ^ p) ^ (b ^ p) == a ^ b
  {
  }

  /** Addition of polynomials over two elements. */
  function Add(x: bv32, y: bv32): bv32 {
    x ^ y
  }

  lemma BitStepXor(s: bv32, x: bv32)
    ensures BitStep(s ^ x) == BitStep(s) ^ BitStep(x)
  {
    ShiftXor(s, x);
    LowBitXor(s, x);
    XorMoves(s >> 1, x >> 1, POLYNOMIAL);
  }

  /** A bit step is linear: it treats the two parts of a sum alone. */
  lemma BitStepLinear(s: bv32, x: bv32)
    ensures BitStep(Add(s, x)) == Add(BitStep(s), BitStep(x))
  {
    hide BitStep;
    BitStepXor(s, x);
  }

  lemma Step2Linear(s: bv32, x: bv32)
    ensures Step2(Add(s, x)) == Add(Step2(s), Step2(x))
  {
    hide BitStep, Add;
    BitStepLinear(s, x);
    BitStepLinear(BitStep(s), BitStep(x));
  }

  lemma Step4Linear(s: bv32, x: bv32)
    ensures Step4(Add(s, x)) == Add(Step4(s), Step4(x))
  {
    hide Step2, Add;
    Step2Linear(s, x);
    Step2Linear(Step2(s), Step2(x));
  }

  /** So are eight. */
  lemma ByteStepLinear(s: bv32, x: bv32)
    ensures ByteStep(Add(s, x)) == Add(ByteStep(s), ByteStep(x))
  {
    hide Step4, Add;
    Step4Linear(s, x);
    Step4Linear(Step4(s), Step4(x));
  }

  lemma ClearBits(x: bv32)
    ensures x & 3 == 0 ==> x & 1 == 0 && (x >> 1) & 1 == 0 && (x >> 1) >> 1 == x >> 2
    ensures x & 0xf == 0 ==> x & 3 == 0 && (x >> 2) & 3 == 0 && (x >> 2) >> 2 == x >> 4
    ensures x & 0xff == 0 ==> x & 0xf == 0 && (x >> 4) & 0xf == 0 && (x >> 4) >> 4 == x >> 8
  {
  }

  lemma Step2Clear(x: bv32)
    requires x & 3 == 0
    ensures Step2(x) == x >> 2
  {
    ClearBits(x);
  }

  lemma Step4Clear(x: bv32)
    requires x & 0xf == 0
    ensures Step4(x) == x >> 4
  {
    hide Step2;
    ClearBits(x);
    Step2Clear(x);
    Step2Clear(x >> 2);
  }

  /** Bits above the lowest eight only move down. */
  lemma ByteStepClear(x: bv32)
    requires x & 0xff == 0
    ensures ByteStep(x) == x >> 8
  {
    hide Step4;
    ClearBits(x);
    Step4Clear(x);
    Step4Clear(x >> 4);
  }

  lemma HighPart(x: bv32)
    ensures (x & 0xffffff00) & 0xff == 0 && (x & 0xffffff00) >> 8 == x >> 8
    ensures Add(x & 0xff, x & 0xffffff00) == x
  {
  }

  lemma SplitSteps(s: bv32, low: bv32, high: bv32, moved: bv32)
    requires Add(low, high) == s && ByteStep(high) == moved
    ensures ByteStep(s) == Add(ByteStep(low), moved)
  {
    hide ByteStep, Add;
    ByteStepLinear(low, high);
  }

  lemma LowByteSteps(s: bv32)
    ensures ByteStep(s) == Add(ByteStep(s & 0xff), s >> 8)
  {
    hide ByteStep, Add;
    HighPart(s);
    HighSteps(s);
    SplitSteps(s, s & 0xff, s & 0xffffff00, s >> 8);
  }

  lemma HighSteps(s: bv32)
    ensures ByteStep(s & 0xffffff00) == s >> 8
  {
    hide ByteStep;
    HighPart(s);
    ByteStepClear(s & 0xffffff00);
  }

  lemma TableOfLowByte(s: bv32)
    ensures Table((s & 0xff) as bv8) == ByteStep(s & 0xff)
  {
    TableIsEightSteps((s & 0xff) as bv8);
  }

  lemma XorCommutes(x: bv32, y: bv32)
    ensures x ^ y == y ^ x
  {
  }

  /** One table step is eight bit steps, for every 32-bit state. */
  lemma TableStep(s: bv32)
    ensures (s >> 8) ^ Table((s & 0xff) as bv8) == ByteStep(s)
  {
    LowByteSteps(s);
    TableOfLowByte(s);
    XorCommutes(s >> 8, ByteStep(s & 0xff));
  }

  lemma TableStepAll()
    ensures forall s: bv32 {:trigger ByteStep(s)} :: (s >> 8) ^ Table((s & 0xff) as bv8) == ByteStep(s)
  {
    forall s: bv32 ensures (s >> 8) ^ Table((s & 0xff) as bv8) == ByteStep(s) {
      TableStep(s);
    }
  }

  lemma HighBytesKept(s: bv32, b: Octet, t: bv32)
    ensures (s >> 8) ^ t == ((s ^ b) >> 8) ^ t
  {
  }

  /** The loop body of `crc32` is the bit-by-bit step. */
  lemma TableFeeds(s: bv32, b: Octet)
    ensures (s >> 8) ^ Table(((s ^ b) & 0xff) as bv8) == ByteStep(s ^ b)
  {
    calc {
      (s >> 8) ^ Table(((s ^ b) & 0xff) as bv8);
      { HighBytesKept(s, b, Table(((s ^ b) & 0xff) as bv8)); }
      ((s ^ b) >> 8) ^ Table(((s ^ b) & 0xff) as bv8);
      { TableStepAll(); }
      ByteStep(s ^ b);
    }
  }

  lemma {:induction false} FoldAppend(step: (bv32, Octet) -> bv32, s: bv32, a: seq<Octet>, b: seq<Octet>)
    ensures Fold(step, s, a + b) == Fold(step, Fold(step, s, a), b)
    decreases |a|
  {
    if a == [] {
      assert a + b == b;
    } else {
      assert (a + b)[1..] == a[1..] + b;
      FoldAppend(step, step(s, a[0]), a[1..], b);
    }
  }

  lemma FoldOne(step: (bv32, Octet) -> bv32, s: bv32, message: seq<Octet>, i: nat)
    requires i < |message|
    ensures Fold(step, s, message[..i + 1]) == step(Fold(step, s, message[..i]), message[i])
  {
    assert message[..i + 1] == message[..i] + [message[i]];
    FoldAppend(step, s, message[..i], [message[i]]);
    assert [message[i]][1..] == [];
  }

  /** The loop body of `crc32` */
  method Advance(ret: bv32, b: Octet) returns (next: bv32)
    ensures next == Absorb(ret, b)
  {
    next := (ret >> 8) ^ Table(((ret ^ b) & 0xff) as bv8);
    TableFeeds(ret, b);
  }

  /** `crc32` */
  method Compute(stream: seq<byte>) returns (ret: bv32)
    ensures ret == Crc(Octets(stream))
  {
    ghost var octets := Octets(stream);
    ret := 0xffffffff;
    for i := 0 to |stream|
      invariant ret == Fold(Absorb, 0xffffffff, octets[..i])
    {
      FoldOne(Absorb, 0xffffffff, octets, i);
      ret := Advance(ret, AsOctet(stream[i]));
    }
    assert octets[..|stream|] == octets;
    ret := ret ^ 0xffffffff;
  }

  // ---------- error detection ----------

  lemma BitStepInjective(s: bv32, t: bv32)
    ensures BitStep(s) == BitStep(t) ==> s == t
  {
  }

  lemma Step2Injective(s: bv32, t: bv32)
    ensures Step2(s) == Step2(t) ==> s == t
  {
    BitStepInjective(s, t);
    BitStepInjective(BitStep(s), BitStep(t));
  }

  lemma Step4Injective(s: bv32, t: bv32)
    ensures Step4(s) == Step4(t) ==> s == t
  {
    Step2Injective(s, t);
    Step2Injective(Step2(s), Step2(t));
  }

  lemma ByteStepInjective(s: bv32, t: bv32)
    ensures ByteStep(s) == ByteStep(t) ==> s == t
  {
    Step4Injective(s, t);
    Step4Injective(Step4(s), Step4(t));
  }

  lemma XorRight(s: bv32, t: bv32, x: bv32)
    ensures s ^ x == t ^ x ==> s == t
  {
  }

  lemma XorLeft(s: bv32, x: bv32, y: bv32)
    ensures s ^ x == s ^ y ==> x == y
  {
  }

  lemma AbsorbInjects(s: bv32, t: bv32, b: Octet, c: Octet)
    ensures Absorb(s, b) == Absorb(t, c) ==> s ^ b == t ^ c
  {
    ByteStepInjective(s ^ b, t ^ c);
  }

  /** Registers that differ still differ after the same byte. */
  lemma StepKeepsDifference(s: bv32, t: bv32, b: Octet)
    ensures Absorb(s, b) == Absorb(t, b) ==> s == t
  {
    calc ==> {
      Absorb(s, b) == Absorb(t, b);
      { AbsorbInjects(s, t, b, b); }
      s ^ b == t ^ b;
      { XorRight(s, t, b); }
      s == t;
    }
  }

  /** One register tells different bytes apart. */
  lemma StepSeesDifference(s: bv32, b: Octet, c: Octet)
    ensures Absorb(s, b) == Absorb(s, c) ==> b == c
  {
    calc ==> {
      Absorb(s, b) == Absorb(s, c);
      { AbsorbInjects(s, s, b, c); }
      s ^ b == s ^ c;
      { XorLeft(s, b, c); }
      b == c;
    }
  }

  lemma {:induction false} FoldKeepsDifference(step: (bv32, Octet) -> bv32, s: bv32, t: bv32, tail: seq<Octet>)
    requires forall x, y, b :: step(x, b) == step(y, b) ==> x == y
    requires s != t
    ensures Fold(step, s, tail) != Fold(step, t, tail)
    decreases |tail|
  {
    if tail != [] {
      FoldKeepsDifference(step, step(s, tail[0]), step(t, tail[0]), tail[1..]);
    }
  }

  lemma FoldSeesDifference(step: (bv32, Octet) -> bv32, s: bv32, front: seq<Octet>, b: Octet, c: Octet, tail: seq<Octet>)
    requires forall x, y, b :: step(x, b) == step(y, b) ==> x == y
    requires forall x, b, c :: step(x, b) == step(x, c) ==> b == c
    requires b != c
    ensures Fold(step, s, front + [b] + tail) != Fold(step, s, front + [c] + tail)
  {
    var x := Fold(step, s, front);
    assert [b][1..] == [] && [c][1..] == [];
    FoldAppend(step, s, front + [b], tail);
    FoldAppend(step, s, front, [b]);
    FoldAppend(step, s, front + [c], tail);
    FoldAppend(step, s, front, [c]);
    FoldKeepsDifference(step, step(x, b), step(x, c), tail);
  }

  lemma AbsorbInjective()
    ensures forall x, y, b :: Absorb(x, b) == Absorb(y, b) ==> x == y
    ensures forall x, b, c :: Absorb(x, b) == Absorb(x, c) ==> b == c
  {
    forall x, y, b ensures Absorb(x, b) == Absorb(y, b) ==> x == y {
      StepKeepsDifference(x, y, b);
    }
    forall x, b, c ensures Absorb(x, b) == Absorb(x, c) ==> b == c {
      StepSeesDifference(x, b, c);
    }
  }

  /** Changing any one byte of a message changes its CRC. */
  lemma DetectsByteChange(message: seq<Octet>, i: nat, b: Octet)
    requires i < |message| && b != message[i]
    ensures Crc(message[i := b]) != Crc(message)
  {
    assert message[i := b] == message[..i] + [b] + message[i + 1..];
    assert message == message[..i] + [message[i]] + message[i + 1..];
    AbsorbInjective();
    FoldSeesDifference(Absorb, 0xffffffff, message[..i], b, message[i], message[i + 1..]);
    FinalInjective(Fold(Absorb, 0xffffffff, message[i := b]), Fold(Absorb, 0xffffffff, message));
  }

  lemma OctetDiffers(b: byte, c: byte)
    requires b != c
    ensures AsOctet(b) != AsOctet(c)
  {
    if AsOctet(b) == AsOctet(c) {
      PackInjective(BitsOf(b), BitsOf(c));
      BitsDetermine(b, c);
    }
  }

  /** The same for bytes. */
  lemma DetectsChange(s: seq<byte>, i: nat, c: byte)
    requires i < |s| && c != s[i]
    ensures Crc(Octets(s[i := c])) != Crc(Octets(s))
  {
    OctetDiffers(s[i], c);
    assert Octets(s[i := c]) == Octets(s)[i := AsOctet(c)];
    DetectsByteChange(Octets(s), i, AsOctet(c));
  }

  lemma FoldTail(step: (bv32, Octet) -> bv32, start: bv32, a: seq<Octet>, b: seq<Octet>, tail: seq<Octet>)
    requires forall x, y, b :: step(x, b) == step(y, b) ==> x == y
    ensures Fold(step, start, a + tail) == Fold(step, start, b + tail) <==> Fold(step, start, a) == Fold(step, start, b)
  {
    FoldAppend(step, start, a, tail);
    FoldAppend(step, start, b, tail);
    if Fold(step, start, a) != Fold(step, start, b) {
      FoldKeepsDifference(step, Fold(step, start, a), Fold(step, start, b), tail);
    }
  }

  lemma FinalInjective(s: bv32, t: bv32)
    ensures Final(s) == Final(t) <==> s == t
  {
  }

  lemma CrcsEqual(a: seq<Octet>, b: seq<Octet>)
    ensures Crc(a) == Crc(b) <==> Fold(Absorb, 0xffffffff, a) == Fold(Absorb, 0xffffffff, b)
  {
    hide Fold, Absorb, Final;
    FinalInjective(Fold(Absorb, 0xffffffff, a), Fold(Absorb, 0xffffffff, b));
  }

  lemma OctetsAppend(a: seq<byte>, b: seq<byte>)
    ensures Octets(a + b) == Octets(a) + Octets(b)
  {
  }

  /** The same bytes behind two messages neither make nor hide a difference of their CRCs. */
  lemma TailKeeps(a: seq<byte>, b: seq<byte>, tail: seq<byte>)
    ensures Crc(Octets(a + tail)) == Crc(Octets(b + tail)) <==> Crc(Octets(a)) == Crc(Octets(b))
  {
    hide Octets, Crc, Fold, Absorb;
    OctetsAppend(a, tail);
    OctetsAppend(b, tail);
    AbsorbInjective();
    FoldTail(Absorb, 0xffffffff, Octets(a), Octets(b), Octets(tail));
    CrcsEqual(Octets(a), Octets(b));
    CrcsEqual(Octets(a) + Octets(tail), Octets(b) + Octets(tail));
  }

  // ---------- check values ----------

  /** The digits as bytes, by their bits. */
  lemma LowDigitBits()
    ensures BitsOf(0x31) == Bits(true, false, false, false, true, true, false, false)
    ensures BitsOf(0x32) == Bits(false, true, false, false, true, true, false, false)
    ensures BitsOf(0x33) == Bits(true, true, false, false, true, true, false, false)
    ensures BitsOf(0x34) == Bits(false, false, true, false, true, true, false, false)
    ensures BitsOf(0x35) == Bits(true, false, true, false, true, true, false, false)
  {
  }

  lemma HighDigitBits()
    ensures BitsOf(0x36) == Bits(false, true, true, false, true, true, false, false)
    ensures BitsOf(0x37) == Bits(true, true, true, false, true, true, false, false)
    ensures BitsOf(0x38) == Bits(false, false, false, true, true, true, false, false)
    ensures BitsOf(0x39) == Bits(true, false, false, true, true, true, false, false)
  {
  }

  lemma DigitOctets()
    ensures AsOctet(0x31) == 0x31
    ensures AsOctet(0x32) == 0x32
    ensures AsOctet(0x33) == 0x33
    ensures AsOctet(0x34) == 0x34
    ensures AsOctet(0x35) == 0x35
    ensures AsOctet(0x36) == 0x36
    ensures AsOctet(0x37) == 0x37
    ensures AsOctet(0x38) == 0x38
    ensures AsOctet(0x39) == 0x39
  {
    hide BitsOf;
    LowDigitBits();
    HighDigitBits();
  }

  lemma DigitSteps()
    ensures Absorb(0xffffffff, 0x31) == 0x7c231048
    ensures Absorb(0x7c231048, 0x32) == 0xb0acbb32
    ensures Absorb(0xb0acbb32, 0x33) == 0x77b79c2d
    ensures Absorb(0x77b79c2d, 0x34) == 0x641c1f5c
    ensures Absorb(0x641c1f5c, 0x35) == 0x340ac5e3
    ensures Absorb(0x340ac5e3, 0x36) == 0xf68d2c9e
    ensures Absorb(0xf68d2c9e, 0x37) == 0xaffc9660
    ensures Absorb(0xaffc9660, 0x38) == 0x651f2550
    ensures Absorb(0x651f2550, 0x39) == 0x340bc6d9
  {
  }

  lemma FoldNext(s: bv32, message: seq<Octet>)
    requires message != []
    ensures Fold(Absorb, s, message) == Fold(Absorb, Absorb(s, message[0]), message[1..])
  {
  }

  /** The register after the rest of the message. */
  lemma FoldTwo(s: bv32, a: Octet, b: Octet, rest: seq<Octet>)
    ensures Fold(Absorb, s, [a, b] + rest) == Fold(Absorb, Absorb(Absorb(s, a), b), rest)
  {
    hide Absorb;
    var message := [a, b] + rest;
    FoldNext(s, message);
    FoldNext(Absorb(s, a), message[1..]);
    assert message[1..][1..] == rest;
  }

  /** The check value that catalogues of this CRC give: that of "123456789"; and nothing at all has the CRC 0. */
  lemma CheckValue()
    ensures Crc(Octets([0x31, 0x32, 0x33, 0x34, 0x35, 0x36, 0x37, 0x38, 0x39])) == 0xcbf43926
    ensures Crc([]) == 0
  {
    hide Absorb, AsOctet;
    DigitOctets();
    DigitSteps();
    var digits := [0x31, 0x32, 0x33, 0x34, 0x35, 0x36, 0x37, 0x38, 0x39];
    var e: seq<Octet> := [0x39];
    var d: seq<Octet> := [0x37, 0x38] + e;
    var c: seq<Octet> := [0x35, 0x36] + d;
    var b: seq<Octet> := [0x33, 0x34] + c;
    var a: seq<Octet> := [0x31, 0x32] + b;
    assert Octets(digits) == a;
    FoldTwo(0xffffffff, 0x31, 0x32, b);
    FoldTwo(0xb0acbb32, 0x33, 0x34, c);
    FoldTwo(0x641c1f5c, 0x35, 0x36, d);
    FoldTwo(0xf68d2c9e, 0x37, 0x38, e);
    FoldNext(0x651f2550, e);
    assert Final(0x340bc6d9) == 0xcbf43926;
  }
}
