/**
 CRC-32C (Castagnoli) as cache/crc32.c computes it.

 One bitwise definition, Crc, is the reference.  The byte-wise table loop, the four-at-a-time
 table loop and the alignment-peeling loop over the ARM instructions are methods proved equal to it.
 */
module Crc32c {

  type byte = bv8

  // The Castagnoli polynomial with its bits reversed.
  const POLYNOMIAL: bv32 := 0x82F63B78

  // The start value used for every key and every file (`~0`).
  const INITIAL: bv32 := 0xFFFFFFFF

  // Reference definition

  function Xor(a: bv32, b: bv32): bv32 {
    a ^ b
  }

  /** Shifts one bit out of the register, reducing by the polynomial. */
  function BitStep(c: bv32): bv32 {
    if c & 1 == 1 then (c >> 1) ^ POLYNOMIAL else c >> 1
  }

  function EightSteps(c: bv32): bv32 {
    BitStep(BitStep(BitStep(BitStep(BitStep(BitStep(BitStep(BitStep(c))))))))
  }

  /** Feeds one byte; this is also what the ARM instruction `crc32cb` does. */
  function Update(crc: bv32, b: byte): bv32 {
    EightSteps(Xor(crc, b as bv32))
  }

  function Crc(crc: bv32, s: seq<byte>): bv32
    decreases |s|
  {
    if s == [] then crc else Crc(Update(crc, s[0]), s[1..])
  }

  // The lookup table, one function for each row of sixteen entries

  function Row0(lo: bv4): bv32 {
    match lo
    case 0 => 0x00000000 case 1 => 0xF26B8303 case 2 => 0xE13B70F7 case 3 => 0x1350F3F4
    case 4 => 0xC79A971F case 5 => 0x35F1141C case 6 => 0x26A1E7E8 case 7 => 0xD4CA64EB
    case 8 => 0x8AD958CF case 9 => 0x78B2DBCC case 10 => 0x6BE22838 case 11 => 0x9989AB3B
    case 12 => 0x4D43CFD0 case 13 => 0xBF284CD3 case 14 => 0xAC78BF27 case _ => 0x5E133C24
  }

  function Row1(lo: bv4): bv32 {
    match lo
    case 0 => 0x105EC76F case 1 => 0xE235446C case 2 => 0xF165B798 case 3 => 0x030E349B
    case 4 => 0xD7C45070 case 5 => 0x25AFD373 case 6 => 0x36FF2087 case 7 => 0xC494A384
    case 8 => 0x9A879FA0 case 9 => 0x68EC1CA3 case 10 => 0x7BBCEF57 case 11 => 0x89D76C54
    case 12 => 0x5D1D08BF case 13 => 0xAF768BBC case 14 => 0xBC267848 case _ => 0x4E4DFB4B
  }

  function Row2(lo: bv4): bv32 {
    match lo
    case 0 => 0x20BD8EDE case 1 => 0xD2D60DDD case 2 => 0xC186FE29 case 3 => 0x33ED7D2A
    case 4 => 0xE72719C1 case 5 => 0x154C9AC2 case 6 => 0x061C6936 case 7 => 0xF477EA35
    case 8 => 0xAA64D611 case 9 => 0x580F5512 case 10 => 0x4B5FA6E6 case 11 => 0xB93425E5
    case 12 => 0x6DFE410E case 13 => 0x9F95C20D case 14 => 0x8CC531F9 case _ => 0x7EAEB2FA
  }

  function Row3(lo: bv4): bv32 {
    match lo
    case 0 => 0x30E349B1 case 1 => 0xC288CAB2 case 2 => 0xD1D83946 case 3 => 0x23B3BA45
    case 4 => 0xF779DEAE case 5 => 0x05125DAD case 6 => 0x1642AE59 case 7 => 0xE4292D5A
    case 8 => 0xBA3A117E case 9 => 0x4851927D case 10 => 0x5B016189 case 11 => 0xA96AE28A
    case 12 => 0x7DA08661 case 13 => 0x8FCB0562 case 14 => 0x9C9BF696 case _ => 0x6EF07595
  }

  function Row4(lo: bv4): bv32 {
    match lo
    case 0 => 0x417B1DBC case 1 => 0xB3109EBF case 2 => 0xA0406D4B case 3 => 0x522BEE48
    case 4 => 0x86E18AA3 case 5 => 0x748A09A0 case 6 => 0x67DAFA54 case 7 => 0x95B17957
    case 8 => 0xCBA24573 case 9 => 0x39C9C670 case 10 => 0x2A993584 case 11 => 0xD8F2B687
    case 12 => 0x0C38D26C case 13 => 0xFE53516F case 14 => 0xED03A29B case _ => 0x1F682198
  }

  function Row5(lo: bv4): bv32 {
    match lo
    case 0 => 0x5125DAD3 case 1 => 0xA34E59D0 case 2 => 0xB01EAA24 case 3 => 0x42752927
    case 4 => 0x96BF4DCC case 5 => 0x64D4CECF case 6 => 0x77843D3B case 7 => 0x85EFBE38
    case 8 => 0xDBFC821C case 9 => 0x2997011F case 10 => 0x3AC7F2EB case 11 => 0xC8AC71E8
    case 12 => 0x1C661503 case 13 => 0xEE0D9600 case 14 => 0xFD5D65F4 case _ => 0x0F36E6F7
  }

  function Row6(lo: bv4): bv32 {
    match lo
    case 0 => 0x61C69362 case 1 => 0x93AD1061 case 2 => 0x80FDE395 case 3 => 0x72966096
    case 4 => 0xA65C047D case 5 => 0x5437877E case 6 => 0x4767748A case 7 => 0xB50CF789
    case 8 => 0xEB1FCBAD case 9 => 0x197448AE case 10 => 0x0A24BB5A case 11 => 0xF84F3859
    case 12 => 0x2C855CB2 case 13 => 0xDEEEDFB1 case 14 => 0xCDBE2C45 case _ => 0x3FD5AF46
  }

  function Row7(lo: bv4): bv32 {
    match lo
    case 0 => 0x7198540D case 1 => 0x83F3D70E case 2 => 0x90A324FA case 3 => 0x62C8A7F9
    case 4 => 0xB602C312 case 5 => 0x44694011 case 6 => 0x5739B3E5 case 7 => 0xA55230E6
    case 8 => 0xFB410CC2 case 9 => 0x092A8FC1 case 10 => 0x1A7A7C35 case 11 => 0xE811FF36
    case 12 => 0x3CDB9BDD case 13 => 0xCEB018DE case 14 => 0xDDE0EB2A case _ => 0x2F8B6829
  }

  function Row8(lo: bv4): bv32 {
    match lo
    case 0 => 0x82F63B78 case 1 => 0x709DB87B case 2 => 0x63CD4B8F case 3 => 0x91A6C88C
    case 4 => 0x456CAC67 case 5 => 0xB7072F64 case 6 => 0xA457DC90 case 7 => 0x563C5F93
    case 8 => 0x082F63B7 case 9 => 0xFA44E0B4 case 10 => 0xE9141340 case 11 => 0x1B7F9043
    case 12 => 0xCFB5F4A8 case 13 => 0x3DDE77AB case 14 => 0x2E8E845F case _ => 0xDCE5075C
  }

  function Row9(lo: bv4): bv32 {
    match lo
    case 0 => 0x92A8FC17 case 1 => 0x60C37F14 case 2 => 0x73938CE0 case 3 => 0x81F80FE3
    case 4 => 0x55326B08 case 5 => 0xA759E80B case 6 => 0xB4091BFF case 7 => 0x466298FC
    case 8 => 0x1871A4D8 case 9 => 0xEA1A27DB case 10 => 0xF94AD42F case 11 => 0x0B21572C
    case 12 => 0xDFEB33C7 case 13 => 0x2D80B0C4 case 14 => 0x3ED04330 case _ => 0xCCBBC033
  }

  function RowA(lo: bv4): bv32 {
    match lo
    case 0 => 0xA24BB5A6 case 1 => 0x502036A5 case 2 => 0x4370C551 case 3 => 0xB11B4652
    case 4 => 0x65D122B9 case 5 => 0x97BAA1BA case 6 => 0x84EA524E case 7 => 0x7681D14D
    case 8 => 0x2892ED69 case 9 => 0xDAF96E6A case 10 => 0xC9A99D9E case 11 => 0x3BC21E9D
    case 12 => 0xEF087A76 case 13 => 0x1D63F975 case 14 => 0x0E330A81 case _ => 0xFC588982
  }

  function RowB(lo: bv4): bv32 {
    match lo
    case 0 => 0xB21572C9 case 1 => 0x407EF1CA case 2 => 0x532E023E case 3 => 0xA145813D
    case 4 => 0x758FE5D6 case 5 => 0x87E466D5 case 6 => 0x94B49521 case 7 => 0x66DF1622
    case 8 => 0x38CC2A06 case 9 => 0xCAA7A905 case 10 => 0xD9F75AF1 case 11 => 0x2B9CD9F2
    case 12 => 0xFF56BD19 case 13 => 0x0D3D3E1A case 14 => 0x1E6DCDEE case _ => 0xEC064EED
  }

  function RowC(lo: bv4): bv32 {
    match lo
    case 0 => 0xC38D26C4 case 1 => 0x31E6A5C7 case 2 => 0x22B65633 case 3 => 0xD0DDD530
    case 4 => 0x0417B1DB case 5 => 0xF67C32D8 case 6 => 0xE52CC12C case 7 => 0x1747422F
    case 8 => 0x49547E0B case 9 => 0xBB3FFD08 case 10 => 0xA86F0EFC case 11 => 0x5A048DFF
    case 12 => 0x8ECEE914 case 13 => 0x7CA56A17 case 14 => 0x6FF599E3 case _ => 0x9D9E1AE0
  }

  function RowD(lo: bv4): bv32 {
    match lo
    case 0 => 0xD3D3E1AB case 1 => 0x21B862A8 case 2 => 0x32E8915C case 3 => 0xC083125F
    case 4 => 0x144976B4 case 5 => 0xE622F5B7 case 6 => 0xF5720643 case 7 => 0x07198540
    case 8 => 0x590AB964 case 9 => 0xAB613A67 case 10 => 0xB831C993 case 11 => 0x4A5A4A90
    case 12 => 0x9E902E7B case 13 => 0x6CFBAD78 case 14 => 0x7FAB5E8C case _ => 0x8DC0DD8F
  }

  function RowE(lo: bv4): bv32 {
    match lo
    case 0 => 0xE330A81A case 1 => 0x115B2B19 case 2 => 0x020BD8ED case 3 => 0xF0605BEE
    case 4 => 0x24AA3F05 case 5 => 0xD6C1BC06 case 6 => 0xC5914FF2 case 7 => 0x37FACCF1
    case 8 => 0x69E9F0D5 case 9 => 0x9B8273D6 case 10 => 0x88D28022 case 11 => 0x7AB90321
    case 12 => 0xAE7367CA case 13 => 0x5C18E4C9 case 14 => 0x4F48173D case _ => 0xBD23943E
  }

  function RowF(lo: bv4): bv32 {
    match lo
    case 0 => 0xF36E6F75 case 1 => 0x0105EC76 case 2 => 0x12551F82 case 3 => 0xE03E9C81
    case 4 => 0x34F4F86A case 5 => 0xC69F7B69 case 6 => 0xD5CF889D case 7 => 0x27A40B9E
    case 8 => 0x79B737BA case 9 => 0x8BDCB4B9 case 10 => 0x988C474D case 11 => 0x6AE7C44E
    case 12 => 0xBE2DA0A5 case 13 => 0x4C4623A6 case 14 => 0x5F16D052 case _ => 0xAD7D5351
  }

  /** Entry `i` of the 256-entry table. */
  function Table(i: byte): bv32 {
    var lo := (i & 0x0F) as bv4;
    match (i >> 4) as bv4
    case 0 => Row0(lo) case 1 => Row1(lo) case 2 => Row2(lo) case 3 => Row3(lo)
    case 4 => Row4(lo) case 5 => Row5(lo) case 6 => Row6(lo) case 7 => Row7(lo)
    case 8 => Row8(lo) case 9 => Row9(lo) case 10 => RowA(lo) case 11 => RowB(lo)
    case 12 => RowC(lo) case 13 => RowD(lo) case 14 => RowE(lo) case _ => RowF(lo)
  }

  function Index(hi: bv4, lo: bv4): bv32 {
    ((hi as bv32) << 4) | (lo as bv32)
  }

  lemma Rows0and1(lo: bv4)
    ensures Row0(lo) == EightSteps(Index(0, lo))
    ensures Row1(lo) == EightSteps(Index(1, lo))
  {}

  lemma Rows2and3(lo: bv4)
    ensures Row2(lo) == EightSteps(Index(2, lo))
    ensures Row3(lo) == EightSteps(Index(3, lo))
  {}

  lemma Rows4and5(lo: bv4)
    ensures Row4(lo) == EightSteps(Index(4, lo))
    ensures Row5(lo) == EightSteps(Index(5, lo))
  {}

  lemma Rows6and7(lo: bv4)
    ensures Row6(lo) == EightSteps(Index(6, lo))
    ensures Row7(lo) == EightSteps(Index(7, lo))
  {}

  lemma Rows8and9(lo: bv4)
    ensures Row8(lo) == EightSteps(Index(8, lo))
    ensures Row9(lo) == EightSteps(Index(9, lo))
  {}

  lemma RowsAandB(lo: bv4)
    ensures RowA(lo) == EightSteps(Index(10, lo))
    ensures RowB(lo) == EightSteps(Index(11, lo))
  {}

  lemma RowsCandD(lo: bv4)
    ensures RowC(lo) == EightSteps(Index(12, lo))
    ensures RowD(lo) == EightSteps(Index(13, lo))
  {}

  lemma RowsEandF(lo: bv4)
    ensures RowE(lo) == EightSteps(Index(14, lo))
    ensures RowF(lo) == EightSteps(Index(15, lo))
  {}

  lemma SplitIndex(i: byte)
    ensures i as bv32 == Index((i >> 4) as bv4, (i & 0x0F) as bv4)
  {}

  /** Every table entry is eight bit steps of its index. */
  lemma TableIsEightSteps(i: byte)
    ensures Table(i) == EightSteps(i as bv32)
  {
    hide EightSteps, Index;
    var lo := (i & 0x0F) as bv4;
    Rows0and1(lo);
    Rows2and3(lo);
    Rows4and5(lo);
    Rows6and7(lo);
    Rows8and9(lo);
    RowsAandB(lo);
    RowsCandD(lo);
    RowsEandF(lo);
    SplitIndex(i);
  }

  // Algebra of the register: it evolves linearly over GF(2) and loses nothing

  lemma ShiftXor(a: bv32, b: bv32)
    ensures (a ^ b) >> 1 == (a >> 1) ^ (b >> 1)
    ensures (a ^ b) & 1 == (a & 1) ^ (b & 1)
    ensures a & 1 == 0 || a & 1 == 1
    ensures b & 1 == 0 || b & 1 == 1
  {}

  lemma XorCancel(x: bv32, y: bv32, p: bv32)
    ensures (x ^ p) ^ y == (x ^ y) ^ p
    ensures x ^ (y ^ p) == (x ^ y) ^ p
    ensures (x ^ p) ^ (y ^ p) == x ^ y
  {}

  lemma BitStepOfXor(a: bv32, b: bv32)
    ensures BitStep(a ^ b) == BitStep(a) ^ BitStep(b)
  {
    ShiftXor(a, b);
    XorCancel(a >> 1, b >> 1, POLYNOMIAL);
  }

  lemma BitStepLinear(a: bv32, b: bv32)
    ensures BitStep(Xor(a, b)) == Xor(BitStep(a), BitStep(b))
  {
    hide BitStep;
    BitStepOfXor(a, b);
  }

  lemma EightStepsLinear(a: bv32, b: bv32)
    ensures EightSteps(Xor(a, b)) == Xor(EightSteps(a), EightSteps(b))
  {
    hide BitStep, Xor;
    BitStepLinear(a, b);
    var a1, b1 := BitStep(a), BitStep(b);
    BitStepLinear(a1, b1);
    var a2, b2 := BitStep(a1), BitStep(b1);
    BitStepLinear(a2, b2);
    var a3, b3 := BitStep(a2), BitStep(b2);
    BitStepLinear(a3, b3);
    var a4, b4 := BitStep(a3), BitStep(b3);
    BitStepLinear(a4, b4);
    var a5, b5 := BitStep(a4), BitStep(b4);
    BitStepLinear(a5, b5);
    var a6, b6 := BitStep(a5), BitStep(b5);
    BitStepLinear(a6, b6);
    BitStepLinear(BitStep(a6), BitStep(b6));
  }

  /** The polynomial's top bit records the bit that is shifted out. */
  lemma BitStepInjective(a: bv32, b: bv32)
    requires BitStep(a) == BitStep(b)
    ensures a == b
  {}

  lemma EightStepsInjective(a: bv32, b: bv32)
    requires EightSteps(a) == EightSteps(b)
    ensures a == b
  {
    hide BitStep;
    var a1, b1 := BitStep(a), BitStep(b);
    var a2, b2 := BitStep(a1), BitStep(b1);
    var a3, b3 := BitStep(a2), BitStep(b2);
    var a4, b4 := BitStep(a3), BitStep(b3);
    var a5, b5 := BitStep(a4), BitStep(b4);
    var a6, b6 := BitStep(a5), BitStep(b5);
    BitStepInjective(BitStep(a6), BitStep(b6));
    BitStepInjective(a6, b6);
    BitStepInjective(a5, b5);
    BitStepInjective(a4, b4);
    BitStepInjective(a3, b3);
    BitStepInjective(a2, b2);
    BitStepInjective(a1, b1);
    BitStepInjective(a, b);
  }

  lemma XorInjective(a: bv32, b: bv32, w: bv32)
    ensures Xor(a, w) == Xor(b, w) ==> a == b
    ensures Xor(w, a) == Xor(w, b) ==> a == b
  {}

  // Splitting a register or a word into its low byte and the rest

  function LowByte(x: bv32): byte {
    (x & 0xFF) as byte
  }

  function High(x: bv32): bv32 {
    x & 0xFFFFFF00
  }

  function ShiftDown(x: bv32): bv32 {
    x >> 8
  }

  lemma SplitLow(c: bv32, x: bv32)
    ensures Xor(c, x) == Xor(Xor(c, LowByte(x) as bv32), High(x))
    ensures x == Xor(LowByte(x) as bv32, High(x))
  {}

  lemma HighShifts(x: bv32)
    ensures EightSteps(High(x)) == ShiftDown(x)
  {}

  /** Feeding a word is feeding its low byte and leaving the rest for later. */
  lemma PeelLowByte(c: bv32, w: bv32)
    ensures EightSteps(Xor(c, w)) == Xor(Update(c, LowByte(w)), ShiftDown(w))
  {
    hide EightSteps, Xor, LowByte, High, ShiftDown;
    SplitLow(c, w);
    EightStepsLinear(Xor(c, LowByte(w) as bv32), High(w));
    HighShifts(w);
  }

  // The table step

  /** The assignment in the byte loop. */
  function TableUpdate(crc: bv32, b: byte): bv32 {
    Xor(Table(LowByte(Xor(crc, b as bv32))), ShiftDown(crc))
  }

  lemma ByteLeavesHighBits(crc: bv32, b: byte)
    ensures ShiftDown(Xor(crc, b as bv32)) == ShiftDown(crc)
  {}

  /** One table step feeds one byte as the reference definition does. */
  lemma TableUpdateIsUpdate(crc: bv32, b: byte)
    ensures TableUpdate(crc, b) == Update(crc, b)
  {
    hide EightSteps, Xor, LowByte, High, Table, ShiftDown;
    var x := Xor(crc, b as bv32);
    ByteLeavesHighBits(crc, b);
    TableIsEightSteps(LowByte(x));
    SplitLow(crc, x);
    EightStepsLinear(LowByte(x) as bv32, High(x));
    HighShifts(x);
  }

  // Words

  /** Up to four bytes in little-endian order, as a word fetch delivers them. */
  function Pack(s: seq<byte>): bv32
    requires |s| <= 4
  {
    if s == [] then 0 else Prepend(s[0], Pack(s[1..]))
  }

  function Prepend(b: byte, rest: bv32): bv32 {
    (b as bv32) | (rest << 8)
  }

  function BytesSteps(c: bv32, n: nat): bv32
    decreases n
  {
    if n == 0 then c else BytesSteps(EightSteps(c), n - 1)
  }

  /** The bits of `w` above its lowest `n` bytes are zero. */
  predicate Fits(w: bv32, n: nat) {
    && (n < 4 ==> w & 0xFF000000 == 0)
    && (n < 3 ==> w & 0xFFFF0000 == 0)
    && (n < 2 ==> w & 0xFFFFFF00 == 0)
    && (n < 1 ==> w == 0)
  }

  lemma PrependParts(b: byte, rest: bv32, n: nat)
    requires n < 4 && Fits(rest, n)
    ensures Fits(Prepend(b, rest), n + 1)
    ensures ShiftDown(Prepend(b, rest)) == rest
    ensures LowByte(Prepend(b, rest)) == b
  {
    assert rest & 0xFF000000 == 0;
    PrependShifts(b, rest);
    if n == 0 {
    } else if n == 1 {
    } else if n == 2 {
    }
  }

  lemma PrependShifts(b: byte, rest: bv32)
    requires rest & 0xFF000000 == 0
    ensures ShiftDown(Prepend(b, rest)) == rest
    ensures LowByte(Prepend(b, rest)) == b
  {}

  lemma {:induction false} PackFits(s: seq<byte>)
    requires |s| <= 4
    ensures Fits(Pack(s), |s|)
  {
    hide Fits, Prepend;
    if s == [] {
      FitsZero();
    } else {
      PackFits(s[1..]);
      PrependParts(s[0], Pack(s[1..]), |s| - 1);
    }
  }

  lemma FitsZero()
    ensures Fits(0, 0)
  {}

  lemma PackParts(s: seq<byte>)
    requires 0 < |s| <= 4
    ensures LowByte(Pack(s)) == s[0]
    ensures ShiftDown(Pack(s)) == Pack(s[1..])
  {
    hide Fits, Prepend, LowByte, ShiftDown;
    PackFits(s[1..]);
    PrependParts(s[0], Pack(s[1..]), |s| - 1);
  }

  lemma XorZero(c: bv32)
    ensures Xor(c, 0) == c
  {}

  /** Up to four bytes fed one at a time equal one word fed at once. */
  lemma {:induction false} CrcOfWord(c: bv32, s: seq<byte>)
    requires |s| <= 4
    ensures Crc(c, s) == BytesSteps(Xor(c, Pack(s)), |s|)
    decreases |s|
  {
    hide Fits, Prepend, EightSteps, Xor, Update, LowByte, ShiftDown;
    if s == [] {
      XorZero(c);
    } else {
      PackParts(s);
      PeelLowByte(c, Pack(s));
      CrcOfWord(Update(c, s[0]), s[1..]);
    }
  }

  lemma {:induction false} PackInjective(s: seq<byte>, t: seq<byte>)
    requires |s| == |t| <= 4
    requires Pack(s) == Pack(t)
    ensures s == t
  {
    hide Pack, LowByte, ShiftDown;
    if s == [] {
    } else {
      PackParts(s);
      PackParts(t);
      PackInjective(s[1..], t[1..]);
      assert s == [s[0]] + s[1..] && t == [t[0]] + t[1..];
    }
  }

  lemma {:induction false} BytesStepsInjective(a: bv32, b: bv32, n: nat)
    requires BytesSteps(a, n) == BytesSteps(b, n)
    ensures a == b
    decreases n
  {
    hide EightSteps;
    if n == 0 {
    } else {
      BytesStepsInjective(EightSteps(a), EightSteps(b), n - 1);
      EightStepsInjective(a, b);
    }
  }

  // Laws of the whole checksum

  /** The checksum of a concatenation continues from the checksum of its first part. */
  lemma {:induction false} CrcConcat(c: bv32, s: seq<byte>, t: seq<byte>)
    ensures Crc(c, s + t) == Crc(Crc(c, s), t)
    decreases |s|
  {
    hide Update;
    if s == [] {
      assert s + t == t;
    } else {
      assert (s + t)[1..] == s[1..] + t;
      CrcConcat(Update(c, s[0]), s[1..], t);
    }
  }

  lemma CrcExtend(c: bv32, s: seq<byte>, i: nat, j: nat)
    requires i <= j <= |s|
    ensures Crc(c, s[..j]) == Crc(Crc(c, s[..i]), s[i..j])
  {
    assert s[..j] == s[..i] + s[i..j];
    CrcConcat(c, s[..i], s[i..j]);
  }

  lemma {:induction false} CrcInjectiveInState(c: bv32, d: bv32, s: seq<byte>)
    requires Crc(c, s) == Crc(d, s)
    ensures c == d
    decreases |s|
  {
    hide EightSteps, Xor;
    if s == [] {
    } else {
      CrcInjectiveInState(Update(c, s[0]), Update(d, s[0]), s[1..]);
      EightStepsInjective(Xor(c, s[0] as bv32), Xor(d, s[0] as bv32));
      XorInjective(c, d, s[0] as bv32);
    }
  }

  /** `s` and `t` have one length and agree outside the four bytes that start at `k`. */
  ghost predicate DifferWithinFour(s: seq<byte>, t: seq<byte>, k: nat) {
    && |s| == |t|
    && k <= |s|
    && s[..k] == t[..k]
    && (k + 4 <= |s| ==> s[k + 4..] == t[k + 4..])
  }

  /** A change confined to four consecutive bytes always changes the checksum. */
  lemma SmallChangeChangesCrc(c: bv32, s: seq<byte>, t: seq<byte>, k: nat)
    requires DifferWithinFour(s, t, k)
    requires Crc(c, s) == Crc(c, t)
    ensures s == t
  {
    hide Crc, Pack, Xor, BytesSteps;
    var e := if k + 4 <= |s| then k + 4 else |s|;
    assert s[e..] == t[e..];
    assert s[..|s|] == s && t[..|s|] == t;
    CrcExtend(c, s, e, |s|);
    CrcExtend(c, t, e, |s|);
    CrcInjectiveInState(Crc(c, s[..e]), Crc(c, t[..e]), s[e..]);
    CrcExtend(c, s, k, e);
    CrcExtend(c, t, k, e);
    var d := Crc(c, s[..k]);
    CrcOfWord(d, s[k..e]);
    CrcOfWord(d, t[k..e]);
    BytesStepsInjective(Xor(d, Pack(s[k..e])), Xor(d, Pack(t[k..e])), e - k);
    XorInjective(Pack(s[k..e]), Pack(t[k..e]), d);
    PackInjective(s[k..e], t[k..e]);
    assert s == s[..k] + s[k..e] + s[e..];
    assert t == t[..k] + t[k..e] + t[e..];
  }

  // The loops of cache/crc32.c

  lemma CrcNext(c: bv32, s: seq<byte>, i: nat)
    requires i < |s|
    ensures Crc(c, s[..i + 1]) == Update(Crc(c, s[..i]), s[i])
  {
    hide Update;
    CrcExtend(c, s, i, i + 1);
    assert s[i..i + 1] == [s[i]];
    assert [s[i]][1..] == [];
  }

  /** The table loop without BY_4_OPT. */
  method SingleTableCrc32c(crc0: bv32, buf: seq<byte>) returns (crc: bv32)
    ensures crc == Crc(crc0, buf)
  {
    hide Crc, Update, TableUpdate;
    crc := crc0;
    CrcOfNothing(crc0);
    var p := 0;
    while p < |buf|
      invariant 0 <= p <= |buf|
      invariant crc == Crc(crc0, buf[..p])
    {
      TableUpdateIsUpdate(crc, buf[p]);
      CrcNext(crc0, buf, p);
      crc := TableUpdate(crc, buf[p]);
      p := p + 1;
    }
    assert buf[..p] == buf;
  }

  lemma CrcOfNothing(c: bv32)
    ensures Crc(c, []) == c
  {}

  /** A four-byte little-endian fetch. */
  function Fetch(buf: seq<byte>, p: nat): bv32
    requires p + 4 <= |buf|
  {
    Pack(buf[p..p + 4])
  }

  /** The table step of the four-at-a-time loop: the byte comes from a shifted word. */
  function FetchedUpdate(crc: bv32, fetch: bv32): bv32 {
    Xor(Table(LowByte(Xor(crc, fetch))), ShiftDown(crc))
  }

  lemma FetchedUpdateUsesLowByte(crc: bv32, fetch: bv32)
    ensures FetchedUpdate(crc, fetch) == TableUpdate(crc, LowByte(fetch))
  {
    hide Table, Xor, LowByte, ShiftDown;
    LowByteOfXor(crc, fetch);
  }

  lemma LowByteOfXor(c: bv32, w: bv32)
    ensures LowByte(Xor(c, w)) == LowByte(Xor(c, LowByte(w) as bv32))
  {}

  lemma ShiftsCompose(w: bv32)
    ensures w >> 8 == ShiftDown(w)
    ensures w >> 16 == ShiftDown(ShiftDown(w))
    ensures w >> 24 == ShiftDown(ShiftDown(ShiftDown(w)))
  {}

  /** Shifting the fetched word by eight drops its first byte. */
  lemma FetchedBytes(buf: seq<byte>, p: nat)
    requires p + 4 <= |buf|
    ensures var w := Fetch(buf, p);
            && LowByte(w) == buf[p]
            && LowByte(ShiftDown(w)) == buf[p + 1]
            && LowByte(ShiftDown(ShiftDown(w))) == buf[p + 2]
            && LowByte(ShiftDown(ShiftDown(ShiftDown(w)))) == buf[p + 3]
  {
    hide Pack, LowByte, ShiftDown;
    var s := buf[p..p + 4];
    PackParts(s);
    PackParts(s[1..]);
    PackParts(s[2..]);
    PackParts(s[3..]);
    assert s[1..][1..] == s[2..] && s[2..][1..] == s[3..];
  }

  lemma FetchedUpdateIsUpdate(crc0: bv32, buf: seq<byte>, p: nat, w: bv32)
    requires p < |buf| && LowByte(w) == buf[p]
    ensures FetchedUpdate(Crc(crc0, buf[..p]), w) == Crc(crc0, buf[..p + 1])
  {
    hide Crc, Update, TableUpdate, FetchedUpdate, LowByte;
    FetchedUpdateUsesLowByte(Crc(crc0, buf[..p]), w);
    TableUpdateIsUpdate(Crc(crc0, buf[..p]), buf[p]);
    CrcNext(crc0, buf, p);
  }

  lemma FourFetchedUpdates(crc0: bv32, buf: seq<byte>, p: nat, w0: bv32, w1: bv32, w2: bv32, w3: bv32)
    requires p + 4 <= |buf|
    requires LowByte(w0) == buf[p] && LowByte(w1) == buf[p + 1]
    requires LowByte(w2) == buf[p + 2] && LowByte(w3) == buf[p + 3]
    ensures FetchedUpdate(FetchedUpdate(FetchedUpdate(FetchedUpdate(Crc(crc0, buf[..p]), w0), w1), w2), w3)
         == Crc(crc0, buf[..p + 4])
  {
    hide Crc, FetchedUpdate, LowByte;
    FetchedUpdateIsUpdate(crc0, buf, p, w0);
    FetchedUpdateIsUpdate(crc0, buf, p + 1, w1);
    FetchedUpdateIsUpdate(crc0, buf, p + 2, w2);
    FetchedUpdateIsUpdate(crc0, buf, p + 3, w3);
  }

  /** The table loop with BY_4_OPT: whole words first, then the last `size & 3` bytes. */
  method SingleTableCrc32cBy4(crc0: bv32, buf: seq<byte>) returns (crc: bv32)
    ensures crc == Crc(crc0, buf)
  {
    hide Crc, Update, TableUpdate, FetchedUpdate, Fetch, LowByte, ShiftDown;
    crc := crc0;
    CrcOfNothing(crc0);
    var p := 0;
    var size4 := |buf| / 4;
    while size4 > 0
      invariant 0 <= size4 && p + 4 * size4 + |buf| % 4 == |buf|
      invariant 0 <= p
      invariant crc == Crc(crc0, buf[..p])
    {
      var fetch := Fetch(buf, p);
      FetchedBytes(buf, p);
      ShiftsCompose(fetch);
      FourFetchedUpdates(crc0, buf, p, fetch, fetch >> 8, fetch >> 16, fetch >> 24);
      crc := FetchedUpdate(crc, fetch);
      crc := FetchedUpdate(crc, fetch >> 8);
      crc := FetchedUpdate(crc, fetch >> 16);
      crc := FetchedUpdate(crc, fetch >> 24);
      p := p + 4;
      size4 := size4 - 1;
    }
    var size := |buf| % 4;
    while size > 0
      invariant 0 <= size && p + size == |buf|
      invariant crc == Crc(crc0, buf[..p])
    {
      TableUpdateIsUpdate(crc, buf[p]);
      CrcNext(crc0, buf, p);
      crc := TableUpdate(crc, buf[p]);
      p := p + 1;
      size := size - 1;
    }
    assert buf[..p] == buf;
  }

  /** The ARM instruction `crc32cw`: thirty-two bit steps of the register xor the word. */
  function UpdateWord(crc: bv32, w: bv32): bv32 {
    BytesSteps(Xor(crc, w), 4)
  }

  lemma CrcNextWord(c: bv32, s: seq<byte>, i: nat)
    requires i + 4 <= |s|
    ensures Crc(c, s[..i + 4]) == UpdateWord(Crc(c, s[..i]), Fetch(s, i))
  {
    hide Crc, Pack, Xor, BytesSteps;
    CrcExtend(c, s, i, i + 4);
    CrcOfWord(Crc(c, s[..i]), s[i..i + 4]);
  }

  /** The switch after the word loop. */
  method LastBytes(crc0: bv32, buf: seq<byte>, p0: nat, len0: nat, crc1: bv32) returns (crc: bv32)
    requires p0 + len0 == |buf| && len0 < 4 && crc1 == Crc(crc0, buf[..p0])
    ensures crc == Crc(crc0, buf)
  {
    hide Crc, Update;
    crc := crc1;
    var p, len := p0, len0;
    // a fall-through switch on what is left
    if len == 3 {
      CrcNext(crc0, buf, p);
      crc, p, len := Update(crc, buf[p]), p + 1, len - 1;
    }
    if len == 2 {
      CrcNext(crc0, buf, p);
      crc, p, len := Update(crc, buf[p]), p + 1, len - 1;
    }
    if len == 1 {
      CrcNext(crc0, buf, p);
      crc, p, len := Update(crc, buf[p]), p + 1, len - 1;
    }
    assert buf[..p] == buf;
  }

  /**
   The ARM loop: bytes up to the first aligned address, then words, then the remaining bytes.
   `address` is the address of the first byte.
   */
  method IntrinsicCrc32c(crc0: bv32, address: nat, buf: seq<byte>) returns (crc: bv32)
    ensures crc == Crc(crc0, buf)
  {
    hide Crc, Update, UpdateWord, Fetch;
    crc := crc0;
    CrcOfNothing(crc0);
    var p := 0;
    var len := |buf|;
    if len > 3 {
      // a fall-through switch on the misalignment: three, two, one or no bytes
      var misalignment := address % 4;
      if misalignment == 1 {
        CrcNext(crc0, buf, p);
        crc, p, len := Update(crc, buf[p]), p + 1, len - 1;
      }
      if misalignment == 1 || misalignment == 2 {
        CrcNext(crc0, buf, p);
        crc, p, len := Update(crc, buf[p]), p + 1, len - 1;
      }
      if misalignment != 0 {
        CrcNext(crc0, buf, p);
        crc, p, len := Update(crc, buf[p]), p + 1, len - 1;
      }
      assert (address + p) % 4 == 0;
      while len >= 4
        invariant 0 <= p && 0 <= len && p + len == |buf|
        invariant (address + p) % 4 == 0
        invariant crc == Crc(crc0, buf[..p])
      {
        CrcNextWord(crc0, buf, p);
        crc := UpdateWord(crc, Fetch(buf, p));
        p := p + 4;
        len := len - 4;
      }
    }
    crc := LastBytes(crc0, buf, p, len, crc);
  }

  /** `crc32c` picks its loop at build time; the choice cannot be observed. */
  method Crc32c(arm: bool, by4: bool, crc0: bv32, address: nat, buf: seq<byte>) returns (crc: bv32)
    ensures crc == Crc(crc0, buf)
  {
    if arm {
      crc := IntrinsicCrc32c(crc0, address, buf);
    } else if by4 {
      crc := SingleTableCrc32cBy4(crc0, buf);
    } else {
      crc := SingleTableCrc32c(crc0, buf);
    }
  }
}
