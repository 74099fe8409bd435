/** The Ethernet CRC: bit by bit, by table lookup, and over buffers in chunks. */
module Crc {
  import opened NetBuffers

  /** One bit of the message. */
  function Bit(x: bv32): bv32 {
    if x & 1 == 1 then (x >> 1) ^ 0xEDB88320 else x >> 1
  }

  /** Two, four and eight bits, least significant first. */
  function Bits2(x: bv32): bv32 { Bit(Bit(x)) }

  function Bits4(x: bv32): bv32 { Bits2(Bits2(x)) }

  function Bits8(x: bv32): bv32 { Bits4(Bits4(x)) }

  function Row0(j: bv32): bv32 {
    match j
    case 0x0 => 0x00000000 case 0x1 => 0x77073096 case 0x2 => 0xEE0E612C case 0x3 => 0x990951BA
    case 0x4 => 0x076DC419 case 0x5 => 0x706AF48F case 0x6 => 0xE963A535 case 0x7 => 0x9E6495A3
    case 0x8 => 0x0EDB8832 case 0x9 => 0x79DCB8A4 case 0xA => 0xE0D5E91E case 0xB => 0x97D2D988
    case 0xC => 0x09B64C2B case 0xD => 0x7EB17CBD case 0xE => 0xE7B82D07 case _ => 0x90BF1D91
  }

  function Row1(j: bv32): bv32 {
    match j
    case 0x0 => 0x1DB71064 case 0x1 => 0x6AB020F2 case 0x2 => 0xF3B97148 case 0x3 => 0x84BE41DE
    case 0x4 => 0x1ADAD47D case 0x5 => 0x6DDDE4EB case 0x6 => 0xF4D4B551 case 0x7 => 0x83D385C7
    case 0x8 => 0x136C9856 case 0x9 => 0x646BA8C0 case 0xA => 0xFD62F97A case 0xB => 0x8A65C9EC
    case 0xC => 0x14015C4F case 0xD => 0x63066CD9 case 0xE => 0xFA0F3D63 case _ => 0x8D080DF5
  }

  function Row2(j: bv32): bv32 {
    match j
    case 0x0 => 0x3B6E20C8 case 0x1 => 0x4C69105E case 0x2 => 0xD56041E4 case 0x3 => 0xA2677172
    case 0x4 => 0x3C03E4D1 case 0x5 => 0x4B04D447 case 0x6 => 0xD20D85FD case 0x7 => 0xA50AB56B
    case 0x8 => 0x35B5A8FA case 0x9 => 0x42B2986C case 0xA => 0xDBBBC9D6 case 0xB => 0xACBCF940
    case 0xC => 0x32D86CE3 case 0xD => 0x45DF5C75 case 0xE => 0xDCD60DCF case _ => 0xABD13D59
  }

  function Row3(j: bv32): bv32 {
    match j
    case 0x0 => 0x26D930AC case 0x1 => 0x51DE003A case 0x2 => 0xC8D75180 case 0x3 => 0xBFD06116
    case 0x4 => 0x21B4F4B5 case 0x5 => 0x56B3C423 case 0x6 => 0xCFBA9599 case 0x7 => 0xB8BDA50F
    case 0x8 => 0x2802B89E case 0x9 => 0x5F058808 case 0xA => 0xC60CD9B2 case 0xB => 0xB10BE924
    case 0xC => 0x2F6F7C87 case 0xD => 0x58684C11 case 0xE => 0xC1611DAB case _ => 0xB6662D3D
  }

  function Row4(j: bv32): bv32 {
    match j
    case 0x0 => 0x76DC4190 case 0x1 => 0x01DB7106 case 0x2 => 0x98D220BC case 0x3 => 0xEFD5102A
    case 0x4 => 0x71B18589 case 0x5 => 0x06B6B51F case 0x6 => 0x9FBFE4A5 case 0x7 => 0xE8B8D433
    case 0x8 => 0x7807C9A2 case 0x9 => 0x0F00F934 case 0xA => 0x9609A88E case 0xB => 0xE10E9818
    case 0xC => 0x7F6A0DBB case 0xD => 0x086D3D2D case 0xE => 0x91646C97 case _ => 0xE6635C01
  }

  function Row5(j: bv32): bv32 {
    match j
    case 0x0 => 0x6B6B51F4 case 0x1 => 0x1C6C6162 case 0x2 => 0x856530D8 case 0x3 => 0xF262004E
    case 0x4 => 0x6C0695ED case 0x5 => 0x1B01A57B case 0x6 => 0x8208F4C1 case 0x7 => 0xF50FC457
    case 0x8 => 0x65B0D9C6 case 0x9 => 0x12B7E950 case 0xA => 0x8BBEB8EA case 0xB => 0xFCB9887C
    case 0xC => 0x62DD1DDF case 0xD => 0x15DA2D49 case 0xE => 0x8CD37CF3 case _ => 0xFBD44C65
  }

  function Row6(j: bv32): bv32 {
    match j
    case 0x0 => 0x4DB26158 case 0x1 => 0x3AB551CE case 0x2 => 0xA3BC0074 case 0x3 => 0xD4BB30E2
    case 0x4 => 0x4ADFA541 case 0x5 => 0x3DD895D7 case 0x6 => 0xA4D1C46D case 0x7 => 0xD3D6F4FB
    case 0x8 => 0x4369E96A case 0x9 => 0x346ED9FC case 0xA => 0xAD678846 case 0xB => 0xDA60B8D0
    case 0xC => 0x44042D73 case 0xD => 0x33031DE5 case 0xE => 0xAA0A4C5F case _ => 0xDD0D7CC9
  }

  function Row7(j: bv32): bv32 {
    match j
    case 0x0 => 0x5005713C case 0x1 => 0x270241AA case 0x2 => 0xBE0B1010 case 0x3 => 0xC90C2086
    case 0x4 => 0x5768B525 case 0x5 => 0x206F85B3 case 0x6 => 0xB966D409 case 0x7 => 0xCE61E49F
    case 0x8 => 0x5EDEF90E case 0x9 => 0x29D9C998 case 0xA => 0xB0D09822 case 0xB => 0xC7D7A8B4
    case 0xC => 0x59B33D17 case 0xD => 0x2EB40D81 case 0xE => 0xB7BD5C3B case _ => 0xC0BA6CAD
  }

  function Row8(j: bv32): bv32 {
    match j
    case 0x0 => 0xEDB88320 case 0x1 => 0x9ABFB3B6 case 0x2 => 0x03B6E20C case 0x3 => 0x74B1D29A
    case 0x4 => 0xEAD54739 case 0x5 => 0x9DD277AF case 0x6 => 0x04DB2615 case 0x7 => 0x73DC1683
    case 0x8 => 0xE3630B12 case 0x9 => 0x94643B84 case 0xA => 0x0D6D6A3E case 0xB => 0x7A6A5AA8
    case 0xC => 0xE40ECF0B case 0xD => 0x9309FF9D case 0xE => 0x0A00AE27 case _ => 0x7D079EB1
  }

  function Row9(j: bv32): bv32 {
    match j
    case 0x0 => 0xF00F9344 case 0x1 => 0x8708A3D2 case 0x2 => 0x1E01F268 case 0x3 => 0x6906C2FE
    case 0x4 => 0xF762575D case 0x5 => 0x806567CB case 0x6 => 0x196C3671 case 0x7 => 0x6E6B06E7
    case 0x8 => 0xFED41B76 case 0x9 => 0x89D32BE0 case 0xA => 0x10DA7A5A case 0xB => 0x67DD4ACC
    case 0xC => 0xF9B9DF6F case 0xD => 0x8EBEEFF9 case 0xE => 0x17B7BE43 case _ => 0x60B08ED5
  }

  function RowA(j: bv32): bv32 {
    match j
    case 0x0 => 0xD6D6A3E8 case 0x1 => 0xA1D1937E case 0x2 => 0x38D8C2C4 case 0x3 => 0x4FDFF252
    case 0x4 => 0xD1BB67F1 case 0x5 => 0xA6BC5767 case 0x6 => 0x3FB506DD case 0x7 => 0x48B2364B
    case 0x8 => 0xD80D2BDA case 0x9 => 0xAF0A1B4C case 0xA => 0x36034AF6 case 0xB => 0x41047A60
    case 0xC => 0xDF60EFC3 case 0xD => 0xA867DF55 case 0xE => 0x316E8EEF case _ => 0x4669BE79
  }

  function RowB(j: bv32): bv32 {
    match j
    case 0x0 => 0xCB61B38C case 0x1 => 0xBC66831A case 0x2 => 0x256FD2A0 case 0x3 => 0x5268E236
    case 0x4 => 0xCC0C7795 case 0x5 => 0xBB0B4703 case 0x6 => 0x220216B9 case 0x7 => 0x5505262F
    case 0x8 => 0xC5BA3BBE case 0x9 => 0xB2BD0B28 case 0xA => 0x2BB45A92 case 0xB => 0x5CB36A04
    case 0xC => 0xC2D7FFA7 case 0xD => 0xB5D0CF31 case 0xE => 0x2CD99E8B case _ => 0x5BDEAE1D
  }

  function RowC(j: bv32): bv32 {
    match j
    case 0x0 => 0x9B64C2B0 case 0x1 => 0xEC63F226 case 0x2 => 0x756AA39C case 0x3 => 0x026D930A
    case 0x4 => 0x9C0906A9 case 0x5 => 0xEB0E363F case 0x6 => 0x72076785 case 0x7 => 0x05005713
    case 0x8 => 0x95BF4A82 case 0x9 => 0xE2B87A14 case 0xA => 0x7BB12BAE case 0xB => 0x0CB61B38
    case 0xC => 0x92D28E9B case 0xD => 0xE5D5BE0D case 0xE => 0x7CDCEFB7 case _ => 0x0BDBDF21
  }

  function RowD(j: bv32): bv32 {
    match j
    case 0x0 => 0x86D3D2D4 case 0x1 => 0xF1D4E242 case 0x2 => 0x68DDB3F8 case 0x3 => 0x1FDA836E
    case 0x4 => 0x81BE16CD case 0x5 => 0xF6B9265B case 0x6 => 0x6FB077E1 case 0x7 => 0x18B74777
    case 0x8 => 0x88085AE6 case 0x9 => 0xFF0F6A70 case 0xA => 0x66063BCA case 0xB => 0x11010B5C
    case 0xC => 0x8F659EFF case 0xD => 0xF862AE69 case 0xE => 0x616BFFD3 case _ => 0x166CCF45
  }

  function RowE(j: bv32): bv32 {
    match j
    case 0x0 => 0xA00AE278 case 0x1 => 0xD70DD2EE case 0x2 => 0x4E048354 case 0x3 => 0x3903B3C2
    case 0x4 => 0xA7672661 case 0x5 => 0xD06016F7 case 0x6 => 0x4969474D case 0x7 => 0x3E6E77DB
    case 0x8 => 0xAED16A4A case 0x9 => 0xD9D65ADC case 0xA => 0x40DF0B66 case 0xB => 0x37D83BF0
    case 0xC => 0xA9BCAE53 case 0xD => 0xDEBB9EC5 case 0xE => 0x47B2CF7F case _ => 0x30B5FFE9
  }

  function RowF(j: bv32): bv32 {
    match j
    case 0x0 => 0xBDBDF21C case 0x1 => 0xCABAC28A case 0x2 => 0x53B39330 case 0x3 => 0x24B4A3A6
    case 0x4 => 0xBAD03605 case 0x5 => 0xCDD70693 case 0x6 => 0x54DE5729 case 0x7 => 0x23D967BF
    case 0x8 => 0xB3667A2E case 0x9 => 0xC4614AB8 case 0xA => 0x5D681B02 case 0xB => 0x2A6F2B94
    case 0xC => 0xB40BBE37 case 0xD => 0xC30C8EA1 case 0xE => 0x5A05DF1B case _ => 0x2D02EF8D
  }

  /** The table at lines 75 to 141 of ethernet.c, sixteen entries to a row. */
  function Crc32Table(i: bv32): bv32 {
    var j := i & 0xF;
    match i >> 4
    case 0x0 => Row0(j) case 0x1 => Row1(j) case 0x2 => Row2(j) case 0x3 => Row3(j)
    case 0x4 => Row4(j) case 0x5 => Row5(j) case 0x6 => Row6(j) case 0x7 => Row7(j)
    case 0x8 => Row8(j) case 0x9 => Row9(j) case 0xA => RowA(j) case 0xB => RowB(j)
    case 0xC => RowC(j) case 0xD => RowD(j) case 0xE => RowE(j) case _ => RowF(j)
  }

  // ----- the table is right -----

  lemma XorShift(x: bv32, y: bv32)
    ensures (x ^ y) & 1 == (x & 1) ^ (y & 1) && (x ^ y) >> 1 == (x >> 1) ^ (y >> 1)
  {
  }

  lemma LowBit(x: bv32)
    ensures x & 1 == 0 || x & 1 == 1
  {
  }

  lemma XorMoves(a: bv32, b: bv32, p: bv32)
    ensures (a ^ p) ^ (b ^ p) == a ^ b && (a ^ p) ^ b == (a ^ b) ^ p && a ^ (b ^ p) == (a ^ b) ^ p
  {
  }

  /** The bit step is linear over exclusive or. */
  lemma BitLinear(x: bv32, y: bv32)
    ensures Bit(x ^ y) == Bit(x) ^ Bit(y)
  {
    XorShift(x, y);
    LowBit(x);
    LowBit(y);
    XorMoves(x >> 1, y >> 1, 0xEDB88320);
  }

  function Xor(x: bv32, y: bv32): bv32 { x ^ y }

  lemma BitXor(x: bv32, y: bv32)
    ensures Bit(Xor(x, y)) == Xor(Bit(x), Bit(y))
  {
    BitLinear(x, y);
  }

  lemma Bits2Xor(x: bv32, y: bv32)
    ensures Bits2(Xor(x, y)) == Xor(Bits2(x), Bits2(y))
  {
    hide Bit, Xor;
    BitXor(x, y);
    BitXor(Bit(x), Bit(y));
  }

  lemma Bits4Xor(x: bv32, y: bv32)
    ensures Bits4(Xor(x, y)) == Xor(Bits4(x), Bits4(y))
  {
    hide Bits2, Xor;
    Bits2Xor(x, y);
    Bits2Xor(Bits2(x), Bits2(y));
  }

  lemma Bits8Xor(x: bv32, y: bv32)
    ensures Bits8(Xor(x, y)) == Xor(Bits8(x), Bits8(y))
  {
    hide Bits4, Xor;
    Bits4Xor(x, y);
    Bits4Xor(Bits4(x), Bits4(y));
  }

  lemma FirstRow(j: bv32)
    requires j < 0x10
    ensures Row0(j) == Bits8(j)
  {
  }

  lemma FirstColumn()
    ensures Row1(0) == Bits8(0x10)
    ensures Row2(0) == Bits8(0x20)
    ensures Row3(0) == Bits8(0x30)
    ensures Row4(0) == Bits8(0x40)
    ensures Row5(0) == Bits8(0x50)
    ensures Row6(0) == Bits8(0x60)
    ensures Row7(0) == Bits8(0x70)
    ensures Row8(0) == Bits8(0x80)
    ensures Row9(0) == Bits8(0x90)
    ensures RowA(0) == Bits8(0xA0)
    ensures RowB(0) == Bits8(0xB0)
    ensures RowC(0) == Bits8(0xC0)
    ensures RowD(0) == Bits8(0xD0)
    ensures RowE(0) == Bits8(0xE0)
    ensures RowF(0) == Bits8(0xF0)
  {
  }

  /** Every row is the first one with a constant added. */
  lemma RowsLinear(j: bv32)
    requires j < 0x10
    ensures Row1(j) == Xor(Row1(0), Row0(j))
    ensures Row2(j) == Xor(Row2(0), Row0(j))
    ensures Row3(j) == Xor(Row3(0), Row0(j))
    ensures Row4(j) == Xor(Row4(0), Row0(j))
    ensures Row5(j) == Xor(Row5(0), Row0(j))
    ensures Row6(j) == Xor(Row6(0), Row0(j))
    ensures Row7(j) == Xor(Row7(0), Row0(j))
  {
  }

  lemma RowsLinearHigh(j: bv32)
    requires j < 0x10
    ensures Row8(j) == Xor(Row8(0), Row0(j))
    ensures Row9(j) == Xor(Row9(0), Row0(j))
    ensures RowA(j) == Xor(RowA(0), Row0(j))
    ensures RowB(j) == Xor(RowB(0), Row0(j))
    ensures RowC(j) == Xor(RowC(0), Row0(j))
    ensures RowD(j) == Xor(RowD(0), Row0(j))
    ensures RowE(j) == Xor(RowE(0), Row0(j))
    ensures RowF(j) == Xor(RowF(0), Row0(j))
  {
  }

  lemma Nibbles(i: bv32, c: bv32)
    requires i < 0x100 && i >> 4 == c >> 4 && c & 0xF == 0
    ensures Xor(c, i & 0xF) == i && i & 0xF < 0x10
  {
  }

  lemma NibbleSum(i: bv32, c: bv32)
    requires i < 0x100 && i >> 4 == c >> 4 && c & 0xF == 0
    ensures Bits8(i) == Xor(Bits8(c), Bits8(i & 0xF))
  {
    hide Bits8, Xor;
    Nibbles(i, c);
    Bits8Xor(c, i & 0xF);
  }

  lemma HighNibble(i: bv32)
    requires i < 0x100
    ensures i & 0xF < 0x10 && i >> 4 < 0x10
    ensures i >> 4 == 0 ==> i & 0xF == i
  {
  }

  lemma LowEntry(i: bv32)
    requires i < 0x100 && i >> 4 < 8
    ensures Crc32Table(i) == Bits8(i)
  {
    hide Bits8, Xor, Row0, Row1, Row2, Row3, Row4, Row5, Row6, Row7, Row8, Row9, RowA, RowB, RowC, RowD, RowE, RowF;
    HighNibble(i);
    FirstRow(i & 0xF);
    FirstColumn();
    RowsLinear(i & 0xF);
    match i >> 4 {
      case 0x0 =>
      case 0x1 => NibbleSum(i, 0x10);
      case 0x2 => NibbleSum(i, 0x20);
      case 0x3 => NibbleSum(i, 0x30);
      case 0x4 => NibbleSum(i, 0x40);
      case 0x5 => NibbleSum(i, 0x50);
      case 0x6 => NibbleSum(i, 0x60);
      case _ => NibbleSum(i, 0x70);
    }
  }

  lemma HighEntry(i: bv32)
    requires i < 0x100 && 8 <= i >> 4 < 12
    ensures Crc32Table(i) == Bits8(i)
  {
    hide Bits8, Xor, Row0, Row1, Row2, Row3, Row4, Row5, Row6, Row7, Row8, Row9, RowA, RowB, RowC, RowD, RowE, RowF;
    HighNibble(i);
    FirstRow(i & 0xF);
    FirstColumn();
    RowsLinearHigh(i & 0xF);
    match i >> 4 {
      case 0x8 => NibbleSum(i, 0x80);
      case 0x9 => NibbleSum(i, 0x90);
      case 0xA => NibbleSum(i, 0xA0);
      case _ => NibbleSum(i, 0xB0);
    }
  }

  lemma TopEntry(i: bv32)
    requires i < 0x100 && i >> 4 >= 12
    ensures Crc32Table(i) == Bits8(i)
  {
    hide Bits8, Xor, Row0, Row1, Row2, Row3, Row4, Row5, Row6, Row7, Row8, Row9, RowA, RowB, RowC, RowD, RowE, RowF;
    HighNibble(i);
    FirstRow(i & 0xF);
    FirstColumn();
    RowsLinearHigh(i & 0xF);
    match i >> 4 {
      case 0xC => NibbleSum(i, 0xC0);
      case 0xD => NibbleSum(i, 0xD0);
      case 0xE => NibbleSum(i, 0xE0);
      case _ => NibbleSum(i, 0xF0);
    }
  }

  /** Every entry of the table is what eight single-bit steps make of its index. */
  lemma TableEntry(i: bv32)
    requires i < 0x100
    ensures Crc32Table(i) == Bits8(i)
  {
    if i >> 4 < 8 {
      LowEntry(i);
    } else if i >> 4 >= 12 {
      TopEntry(i);
    } else {
      HighEntry(i);
    }
  }

  function Low(crc: bv32, b: bv8): bv32 { (crc & 0xFF) ^ (b as bv32) }

  function High(crc: bv32): bv32 { crc & 0xFFFF_FF00 }

  lemma SplitLow(crc: bv32, b: bv8)
    ensures Xor(High(crc), Low(crc, b)) == Xor(crc, b as bv32)
    ensures High(crc) & 0xFF == 0 && High(crc) >> 8 == crc >> 8
    ensures Low(crc, b) < 0x100
  {
  }

  /** The table step of the fast loops, and the bit-by-bit step of the slow ones, for one byte. */
  function FastStep(crc: bv32, b: bv8): bv32 {
    Xor(crc >> 8, Crc32Table(Low(crc, b)))
  }

  function SlowStep(crc: bv32, b: bv8): bv32 {
    Bits8(Xor(crc, b as bv32))
  }

  /** One table lookup does the work of eight single-bit steps. */
  lemma FastIsSlow(crc: bv32, b: bv8)
    ensures FastStep(crc, b) == SlowStep(crc, b)
  {
    hide Bits8, Crc32Table, Xor, Low;
    SplitLow(crc, b);
    TableEntry(Low(crc, b));
    Bits8Xor(High(crc), Low(crc, b));
    HighBytes(High(crc));
  }

  /** Bits above the low byte are only shifted. */
  lemma HighBytes(x: bv32)
    requires x & 0xFF == 0
    ensures Bits8(x) == x >> 8
  {
    assert Bit(x) == x >> 1 && (x >> 1) & 0x7F == 0;
    assert Bit(x >> 1) == x >> 2 && (x >> 2) & 0x3F == 0;
    assert Bit(x >> 2) == x >> 3 && (x >> 3) & 0x1F == 0;
    assert Bit(x >> 3) == x >> 4 && (x >> 4) & 0x0F == 0;
    assert Bit(x >> 4) == x >> 5 && (x >> 5) & 0x07 == 0;
    assert Bit(x >> 5) == x >> 6 && (x >> 6) & 0x03 == 0;
    assert Bit(x >> 6) == x >> 7 && (x >> 7) & 0x01 == 0;
  }

  // ----- whole messages -----

  /** The register after the bytes `s`, bit by bit. */
  function Register(crc: bv32, s: seq<bv8>): bv32
    decreases |s|
  {
    if s == [] then crc else Register(SlowStep(crc, s[0]), s[1..])
  }

  function Not(x: bv32): bv32 { !x }

  function Crc32(s: seq<bv8>): bv32 {
    Not(Register(0xFFFF_FFFF, s))
  }

  lemma {:induction false} RegisterConcat(crc: bv32, a: seq<bv8>, b: seq<bv8>)
    ensures Register(crc, a + b) == Register(Register(crc, a), b)
    decreases |a|
  {
    hide SlowStep;
    if a == [] {
      assert a + b == b;
    } else {
      assert (a + b)[1..] == a[1..] + b;
      RegisterConcat(SlowStep(crc, a[0]), a[1..], b);
    }
  }

  lemma {:induction false} RegisterEmpty(crc: bv32)
    ensures Register(crc, []) == crc
  {
  }

  lemma {:induction false} RegisterSnoc(crc: bv32, a: seq<bv8>, b: bv8)
    ensures Register(crc, a + [b]) == SlowStep(Register(crc, a), b)
  {
    hide SlowStep;
    RegisterConcat(crc, a, [b]);
    assert [b][1..] == [];
  }

  /** ethCalcCrc with the lookup table. */
  method CalcCrc(data: seq<bv8>) returns (r: bv32)
    ensures r == Crc32(data)
  {
    hide SlowStep, FastStep;
    var crc: bv32 := 0xFFFF_FFFF;
    for i := 0 to |data|
      invariant crc == Register(0xFFFF_FFFF, data[..i])
    {
      FastIsSlow(crc, data[i]);
      RegisterSnoc(0xFFFF_FFFF, data[..i], data[i]);
      assert data[..i + 1] == data[..i] + [data[i]];
      crc := FastStep(crc, data[i]);
    }
    assert data[..|data|] == data;
    r := Not(crc);
  }

  function BitsN(n: nat, x: bv32): bv32 {
    if n == 0 then x else Bit(BitsN(n - 1, x))
  }

  lemma {:induction false} BitsNEight(x: bv32)
    ensures BitsN(8, x) == Bits8(x)
  {
    hide Bit;
    assert BitsN(1, x) == Bit(x);
    assert BitsN(2, x) == Bits2(x);
    assert BitsN(3, x) == Bit(Bits2(x));
    assert BitsN(4, x) == Bits4(x);
    assert BitsN(5, x) == Bit(Bits4(x));
    assert BitsN(6, x) == Bits2(Bits4(x));
    assert BitsN(7, x) == Bit(Bits2(Bits4(x)));
  }

  /** ethCalcCrc bit by bit. */
  method CalcCrcBitByBit(data: seq<bv8>) returns (r: bv32)
    ensures r == Crc32(data)
  {
    hide Xor, Bits8;
    var crc: bv32 := 0xFFFF_FFFF;
    for i := 0 to |data|
      invariant crc == Register(0xFFFF_FFFF, data[..i])
    {
      ghost var x := Xor(crc, data[i] as bv32);
      crc := Xor(crc, data[i] as bv32);
      for j := 0 to 8
        invariant crc == BitsN(j, x)
      {
        if crc & 1 == 1 {
          crc := (crc >> 1) ^ 0xEDB88320;
        } else {
          crc := crc >> 1;
        }
      }
      BitsNEight(x);
      RegisterSnoc(0xFFFF_FFFF, data[..i], data[i]);
      assert data[..i + 1] == data[..i] + [data[i]];
    }
    assert data[..|data|] == data;
    r := Not(crc);
  }

  lemma {:induction false} Finish(crc: bv32, s: seq<bv8>)
    requires crc == Register(0xFFFF_FFFF, s)
    ensures Not(crc) == Crc32(s)
  {
  }

  /** ethCalcCrcEx: any chunks, of any lengths, from any offset. */
  method CalcCrcEx(buffer: seq<Chunk<bv8>>, start: nat, total: nat) returns (r: bv32)
    ensures r == Crc32(Slice(Flat(buffer), start, total))
  {
    hide SlowStep, FastStep, Slice, Register, Flat, Crc32;
    var crc: bv32 := 0xFFFF_FFFF;
    var i: nat, offset: nat, length: nat := 0, start, total;
    ghost var all := Slice(Flat(buffer), start, total);
    ghost var done: seq<bv8> := [];
    RegisterEmpty(crc);
    assert buffer[0..] == buffer && done + all == all;
    while i < |buffer| && length > 0
      invariant i <= |buffer|
      invariant crc == Register(0xFFFF_FFFF, done)
      invariant all == done + Slice(Flat(buffer[i..]), offset, length)
    {
      var d := buffer[i].data;
      SliceStep(buffer[i..], offset, length);
      assert buffer[i..][1..] == buffer[i + 1..];
      if offset < |d| {
        var n: nat := if |d| - offset < length then |d| - offset else length;
        length := length - n;
        crc := FeedBytes(crc, d[offset..offset + n], done);
        done := done + d[offset..offset + n];
        offset := 0;
      } else {
        offset := offset - |d|;
      }
      i := i + 1;
    }
    WalkEnds(buffer[i..], offset, length);
    assert all == done + [] == done;
    Finish(crc, all);
    r := Not(crc);
  }

  /** The inner loop over the bytes of one chunk. */
  method FeedBytes(start: bv32, p: seq<bv8>, ghost done: seq<bv8>) returns (crc: bv32)
    requires start == Register(0xFFFF_FFFF, done)
    ensures crc == Register(0xFFFF_FFFF, done + p)
  {
    hide SlowStep, FastStep, Register;
    crc := start;
    assert done + p[..0] == done;
    for i := 0 to |p|
      invariant crc == Register(0xFFFF_FFFF, done + p[..i])
    {
      FastIsSlow(crc, p[i]);
      RegisterSnoc(0xFFFF_FFFF, done + p[..i], p[i]);
      assert done + p[..i + 1] == done + p[..i] + [p[i]];
      crc := FastStep(crc, p[i]);
    }
    assert p[..|p|] == p;
  }

  // ----- the residue -----

  /** The bit step can be undone: the top bit tells whether the polynomial was added. */
  function Unbit(y: bv32): bv32 {
    if y >= 0x8000_0000 then ((y ^ 0xEDB88320) << 1) | 1 else y << 1
  }

  lemma BitInvertible(x: bv32)
    ensures Unbit(Bit(x)) == x
  {
    LowBit(x);
    if x & 1 == 1 {
      Undo(x);
    }
  }

  lemma Undo(x: bv32)
    requires x & 1 == 1
    ensures (x >> 1) ^ 0xEDB88320 >= 0x8000_0000
    ensures ((((x >> 1) ^ 0xEDB88320) ^ 0xEDB88320) << 1) | 1 == x
  {
  }

  lemma Bits8Injective(x: bv32, y: bv32)
    requires Bits8(x) == Bits8(y)
    ensures x == y
  {
    Bits4Injective(Bits4(x), Bits4(y));
    Bits4Injective(x, y);
  }

  lemma Bits4Injective(x: bv32, y: bv32)
    requires Bits4(x) == Bits4(y)
    ensures x == y
  {
    hide Bit, Unbit;
    BitInvertible(x);
    BitInvertible(Bit(x));
    BitInvertible(Bits2(x));
    BitInvertible(Bit(Bits2(x)));
    BitInvertible(y);
    BitInvertible(Bit(y));
    BitInvertible(Bits2(y));
    BitInvertible(Bit(Bits2(y)));
  }

  /** Thirty-two bits. */
  function Bits32(x: bv32): bv32 {
    Bits8(Bits8(Bits8(Bits8(x))))
  }

  lemma Bits32Injective(x: bv32, y: bv32)
    requires Bits32(x) == Bits32(y)
    ensures x == y
  {
    hide Bits8;
    Bits8Injective(Bits8(Bits8(Bits8(x))), Bits8(Bits8(Bits8(y))));
    Bits8Injective(Bits8(Bits8(x)), Bits8(Bits8(y)));
    Bits8Injective(Bits8(x), Bits8(y));
    Bits8Injective(x, y);
  }

  /** A byte at each of the four positions of a word. */
  function At0(b: bv8): bv32 { b as bv32 }

  function At1(b: bv8): bv32 { (b as bv32) << 8 }

  function At2(b: bv8): bv32 { (b as bv32) << 16 }

  function At3(b: bv8): bv32 { (b as bv32) << 24 }

  /** Four bytes as the little-endian word they make. */
  function Word(a: bv8, b: bv8, c: bv8, d: bv8): bv32 {
    Xor(At0(a), Xor(At1(b), Xor(At2(c), At3(d))))
  }

  /** The four bytes of a word in little-endian order: how the sender appends its CRC. */
  function LittleEndian(c: bv32): (t: seq<bv8>)
    ensures |t| == 4
  {
    [(c & 0xFF) as bv8, ((c >> 8) & 0xFF) as bv8, ((c >> 16) & 0xFF) as bv8, (c >> 24) as bv8]
  }

  lemma LittleEndianWord(a: bv8, b: bv8, c: bv8, d: bv8)
    ensures LittleEndian(Word(a, b, c, d)) == [a, b, c, d]
  {
  }

  lemma WordLittleEndian(c: bv32)
    ensures var t := LittleEndian(c); Word(t[0], t[1], t[2], t[3]) == c
  {
  }

  /** `s` is `b` moved up one byte. */
  predicate Raised(s: bv32, b: bv32) {
    s & 0xFF == 0 && s >> 8 == b
  }

  /** Adding a byte after eight steps is adding it one position higher before them. */
  lemma Delay(x: bv32, b: bv32, s: bv32)
    requires Raised(s, b)
    ensures Xor(Bits8(x), b) == Bits8(Xor(x, s))
  {
    hide Bits8, Xor;
    Bits8Xor(x, s);
    HighBytes(s);
  }

  lemma FourDelays(x: bv32, b: bv32, b1: bv32, c: bv32, c1: bv32, c2: bv32, d: bv32, d1: bv32, d2: bv32, d3: bv32)
    requires Raised(b1, b) && Raised(c1, c) && Raised(c2, c1) && Raised(d1, d) && Raised(d2, d1) && Raised(d3, d2)
    ensures Bits8(Xor(Bits8(Xor(Bits8(Xor(Bits8(x), b)), c)), d)) == Bits32(Xor(Xor(Xor(x, b1), c2), d3))
  {
    hide Bits8, Xor, Raised;
    var y := Xor(x, b1);
    var z := Xor(y, c2);
    Delay(x, b, b1);
    Delay(Bits8(y), c, c1);
    Delay(y, c1, c2);
    Delay(Bits8(Bits8(z)), d, d1);
    Delay(Bits8(z), d1, d2);
    Delay(z, d2, d3);
  }

  lemma Raises(b: bv8)
    ensures Raised(At1(b), At0(b)) && Raised(At2(b), At1(b)) && Raised(At3(b), At2(b))
  {
  }

  lemma XorAssociative(x: bv32, y: bv32, z: bv32)
    ensures Xor(Xor(x, y), z) == Xor(x, Xor(y, z))
  {
  }

  lemma Gather(r: bv32, a: bv32, b: bv32, c: bv32, d: bv32)
    ensures Xor(Xor(Xor(Xor(r, a), b), c), d) == Xor(r, Xor(a, Xor(b, Xor(c, d))))
  {
    hide Xor;
    XorAssociative(Xor(Xor(r, a), b), c, d);
    XorAssociative(Xor(r, a), b, Xor(c, d));
    XorAssociative(r, a, Xor(b, Xor(c, d)));
  }

  lemma {:induction false} FourSteps(r: bv32, t: seq<bv8>)
    requires |t| == 4
    ensures Register(r, t) == SlowStep(SlowStep(SlowStep(SlowStep(r, t[0]), t[1]), t[2]), t[3])
  {
    hide SlowStep;
    assert t == ((([] + [t[0]]) + [t[1]]) + [t[2]]) + [t[3]];
    RegisterEmpty(r);
    RegisterSnoc(r, [], t[0]);
    RegisterSnoc(r, [] + [t[0]], t[1]);
    RegisterSnoc(r, [] + [t[0]] + [t[1]], t[2]);
    RegisterSnoc(r, [] + [t[0]] + [t[1]] + [t[2]], t[3]);
  }

  /** Feeding four bytes is thirty-two bit steps on the register plus the word they make. */
  lemma {:induction false} FourBytes(r: bv32, t: seq<bv8>)
    requires |t| == 4
    ensures Register(r, t) == Bits32(Xor(r, Word(t[0], t[1], t[2], t[3])))
  {
    hide Bits8, Xor, Raised, Bits32, Register;
    FourSteps(r, t);
    FourWords(r, t[0], t[1], t[2], t[3]);
  }

  lemma FourWords(r: bv32, a: bv8, b: bv8, c: bv8, d: bv8)
    ensures SlowStep(SlowStep(SlowStep(SlowStep(r, a), b), c), d) == Bits32(Xor(r, Word(a, b, c, d)))
  {
    hide Bits8, Xor, Raised, Bits32, At1, At2, At3;
    Raises(b);
    Raises(c);
    Raises(d);
    FourDelays(Xor(r, At0(a)), At0(b), At1(b), At0(c), At1(c), At2(c), At0(d), At1(d), At2(d), At3(d));
    Gather(r, At0(a), At1(b), At2(c), At3(d));
  }

  /**
   The residue: a frame with four more bytes passes the receiver's test, CRC equal to
   0x2144DF1C, exactly when those bytes are the CRC of the frame in little-endian order.
   */
  lemma Residue(s: seq<bv8>, t: seq<bv8>)
    requires |t| == 4
    ensures Crc32(s + t) == 0x2144_DF1C <==> t == LittleEndian(Crc32(s))
  {
    hide Register, Bits32, Xor, Word, LittleEndian, Not;
    var r := Register(0xFFFF_FFFF, s);
    var w := Word(t[0], t[1], t[2], t[3]);
    RegisterConcat(0xFFFF_FFFF, s, t);
    FourBytes(r, t);
    LittleEndianWord(t[0], t[1], t[2], t[3]);
    WordLittleEndian(Not(r));
    ResidueWord(r, w);
  }

  lemma ResidueWord(r: bv32, w: bv32)
    ensures Not(Bits32(Xor(r, w))) == 0x2144_DF1C <==> w == Not(r)
  {
    hide Bits32, Xor, Not;
    AllOnes();
    if w == Not(r) {
      ComplementSum(r);
    }
    if Not(Bits32(Xor(r, w))) == 0x2144_DF1C {
      NotInjective(Bits32(Xor(r, w)), Bits32(0xFFFF_FFFF));
      Bits32Injective(Xor(r, w), 0xFFFF_FFFF);
      SumComplement(r, w);
    }
  }

  lemma NotInjective(x: bv32, y: bv32)
    requires Not(x) == Not(y)
    ensures x == y
  {
  }

  lemma ComplementSum(r: bv32)
    ensures Xor(r, Not(r)) == 0xFFFF_FFFF
  {
  }

  lemma SumComplement(r: bv32, w: bv32)
    requires Xor(r, w) == 0xFFFF_FFFF
    ensures w == Not(r)
  {
  }

  lemma AllOnes()
    ensures Not(Bits32(0xFFFF_FFFF)) == 0x2144_DF1C
  {
    assert Bits8(0xFFFF_FFFF) == 0x2DFD_1072;
    assert Bits8(0x2DFD_1072) == 0xBE26_ED00;
    assert Bits8(0xBE26_ED00) == 0x00BE_26ED;
  }

  // ----- error detection -----

  lemma XorCancel(x: bv32, y: bv32, b: bv32)
    requires Xor(x, b) == Xor(y, b) || Xor(b, x) == Xor(b, y)
    ensures x == y
  {
  }

  /** Different registers stay different whatever bytes follow. */
  lemma {:induction false} RegisterInjective(x: bv32, y: bv32, s: seq<bv8>)
    requires Register(x, s) == Register(y, s)
    ensures x == y
    decreases |s|
  {
    hide Bits8, Xor;
    if s != [] {
      RegisterInjective(SlowStep(x, s[0]), SlowStep(y, s[0]), s[1..]);
      Bits8Injective(Xor(x, s[0] as bv32), Xor(y, s[0] as bv32));
      XorCancel(x, y, s[0] as bv32);
    }
  }

  lemma {:induction false} FourInjective(r: bv32, t: seq<bv8>, u: seq<bv8>)
    requires |t| == 4 && |u| == 4 && Register(r, t) == Register(r, u)
    ensures t == u
  {
    hide Register, Bits32, Xor, Word, LittleEndian;
    FourBytes(r, t);
    FourBytes(r, u);
    var v, w := Word(t[0], t[1], t[2], t[3]), Word(u[0], u[1], u[2], u[3]);
    Bits32Injective(Xor(r, v), Xor(r, w));
    XorCancel(v, w, r);
    LittleEndianWord(t[0], t[1], t[2], t[3]);
    LittleEndianWord(u[0], u[1], u[2], u[3]);
    assert t == [t[0], t[1], t[2], t[3]] && u == [u[0], u[1], u[2], u[3]];
  }

  lemma {:induction false} SameRegister(s: seq<bv8>, t: seq<bv8>)
    requires Crc32(s) == Crc32(t)
    ensures Register(0xFFFF_FFFF, s) == Register(0xFFFF_FFFF, t)
  {
    hide Register, Not;
    NotInjective(Register(0xFFFF_FFFF, s), Register(0xFFFF_FFFF, t));
  }

  lemma {:induction false} RegisterThree(crc: bv32, a: seq<bv8>, b: seq<bv8>, c: seq<bv8>)
    ensures Register(crc, a + b + c) == Register(Register(Register(crc, a), b), c)
  {
    hide Register;
    RegisterConcat(crc, a + b, c);
    RegisterConcat(crc, a, b);
  }

  /** Any damage confined to four consecutive bytes changes the CRC. */
  lemma BurstDetected(before: seq<bv8>, t: seq<bv8>, u: seq<bv8>, after: seq<bv8>)
    requires |t| == 4 && |u| == 4 && t != u
    ensures Crc32(before + t + after) != Crc32(before + u + after)
  {
    hide Register, Crc32;
    if Crc32(before + t + after) == Crc32(before + u + after) {
      var r := Register(0xFFFF_FFFF, before);
      SameRegister(before + t + after, before + u + after);
      RegisterThree(0xFFFF_FFFF, before, t, after);
      RegisterThree(0xFFFF_FFFF, before, u, after);
      RegisterInjective(Register(r, t), Register(r, u), after);
      FourInjective(r, t, u);
    }
  }
}
