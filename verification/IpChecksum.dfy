/**
 The Internet checksum: section 2 of RFC 1071, computed four bytes at a time from any
 alignment, and over buffers that come in chunks of any length.
 */
module IpChecksum {
  import opened Bytes
  import opened NetBuffers

  // ----- the plain definition -----

  /** 16-bit ones' complement addition: the carry out of the top goes back in at the bottom. */
  function OnesAdd(x: uint16, y: uint16): uint16 {
    if x + y > 0xFFFF then x + y - 0xFFFF else x + y
  }

  /** The ones' complement sum of the 16-bit words of `s`, low byte first, the last byte padded with zero. */
  function OnesSum(s: seq<byte>): uint16 {
    if |s| == 0 then 0
    else if |s| == 1 then s[0]
    else OnesAdd(Join(s[0], s[1]), OnesSum(s[2..]))
  }

  function Checksum(s: seq<byte>): uint16 {
    0xFFFF - OnesSum(s)
  }

  // ----- sums that are not folded yet -----

  /** The same words added as plain integers. */
  function Sum(s: seq<byte>): nat {
    if |s| == 0 then 0
    else if |s| == 1 then s[0]
    else Join(s[0], s[1]) + Sum(s[2..])
  }

  /** Both fold to the same 16-bit ones' complement value. */
  ghost predicate Same(a: nat, b: nat) {
    (a == 0 <==> b == 0) && a % 0xFFFF == b % 0xFFFF
  }

  lemma SameBy(a: nat, b: nat, q: int)
    requires a == b + 0xFFFF * q && (a == 0 <==> b == 0)
    ensures Same(a, b)
  {
  }

  lemma SameTrans(a: nat, b: nat, c: nat)
    requires Same(a, b) && Same(b, c)
    ensures Same(a, c)
  {
  }

  lemma SameSym(a: nat, b: nat)
    requires Same(a, b)
    ensures Same(b, a)
  {
  }

  lemma SameAdd(a: nat, b: nat, x: nat)
    requires Same(a, b)
    ensures Same(a + x, b + x)
  {
  }

  lemma SameTimes(a: nat, b: nat)
    requires Same(a, b)
    ensures Same(0x100 * a, 0x100 * b)
  {
    var q := a / 0xFFFF - b / 0xFFFF;
    assert a == b + 0xFFFF * q;
    SameBy(0x100 * a, 0x100 * b, 0x100 * q);
  }

  lemma SameUnique(a: uint16, b: uint16)
    requires Same(a, b)
    ensures a == b
  {
  }

  function Fold(c: nat): nat {
    c % 0x1_0000 + c / 0x1_0000
  }

  lemma FoldSame(c: nat)
    ensures Same(Fold(c), c)
  {
    SameBy(Fold(c), c, -(c / 0x1_0000));
  }

  function Swap(x: uint16): uint16 {
    x / 0x100 + (x % 0x100) * 0x100
  }

  /** Exchanging the two bytes multiplies by 256, and doing it twice changes nothing, up to folding. */
  lemma SwapSame(x: uint16, a: nat)
    ensures Same(x, a) ==> Same(Swap(x), 0x100 * a)
    ensures Same(x, 0x100 * a) ==> Same(Swap(x), a)
  {
    hide Same;
    SameBy(Swap(x), 0x100 * x, -(x / 0x100));
    if Same(x, a) {
      SameTimes(x, a);
      SameTrans(Swap(x), 0x100 * x, 0x100 * a);
    }
    if Same(x, 0x100 * a) {
      SameTimes(x, 0x100 * a);
      SameTrans(Swap(x), 0x100 * x, 0x1_0000 * a);
      SameBy(0x1_0000 * a, a, a);
      SameTrans(Swap(x), 0x1_0000 * a, a);
    }
  }

  /** The plain sum folds to the ones' complement sum; `q` is how often 0xFFFF is taken off. */
  lemma {:induction false} OnesSumFolds(s: seq<byte>) returns (q: int)
    ensures Sum(s) == OnesSum(s) + 0xFFFF * q && (OnesSum(s) == 0 <==> Sum(s) == 0)
  {
    if |s| < 2 {
      q := 0;
    } else {
      q := OnesSumFolds(s[2..]);
      if Join(s[0], s[1]) + OnesSum(s[2..]) > 0xFFFF {
        q := q + 1;
      }
    }
  }

  lemma {:induction false} SumConcat(a: seq<byte>, b: seq<byte>)
    ensures |a| % 2 == 0 ==> Sum(a + b) == Sum(a) + Sum(b)
    ensures |a| % 2 == 1 ==> Same(Sum(a + b), Sum(a) + 0x100 * Sum(b))
  {
    hide Same;
    if |a| == 0 {
      assert a + b == b;
    } else if |a| == 1 {
      SumShift(a + b);
      assert (a + b)[1..] == b;
    } else {
      assert (a + b)[2..] == a[2..] + b;
      SumConcat(a[2..], b);
      if |a| % 2 == 1 {
        SameAdd(Sum(a[2..] + b), Sum(a[2..]) + 0x100 * Sum(b), Join(a[0], a[1]));
      }
    }
  }

  lemma {:induction false} SumUnfold(s: seq<byte>)
    ensures |s| == 0 ==> Sum(s) == 0
    ensures |s| == 1 ==> Sum(s) == s[0]
    ensures |s| >= 2 ==> Sum(s) == Join(s[0], s[1]) + Sum(s[2..])
  {
  }

  /** Starting one byte late multiplies the sum by 256, up to folding. */
  lemma {:induction false} SumShift(s: seq<byte>)
    requires |s| >= 1
    ensures Same(Sum(s), s[0] + 0x100 * Sum(s[1..]))
    ensures Same(0x100 * Sum(s), 0x100 * s[0] + Sum(s[1..]))
  {
    hide Same, Sum;
    var s0: int, t := s[0], s[1..];
    SumUnfold(s);
    SumUnfold(t);
    if |s| == 1 {
      SameBy(s0, s0, 0);
      SameBy(0x100 * s0, 0x100 * s0, 0);
    } else if |s| == 2 {
      var s1: int := s[1];
      SumUnfold(s[2..]);
      SameBy(Sum(s), s0 + 0x100 * s1, 0);
      SameBy(0x100 * Sum(s), 0x100 * s0 + s1, s1);
    } else {
      SumShift(s[2..]);
      assert t[2..] == s[3..] && s[2..][1..] == s[3..];
      ShiftStep(s[0], s[1], s[2], Sum(s[2..]), Sum(s[3..]));
    }
  }

  lemma ShiftStep(s0: int, s1: int, s2: int, u: nat, v: nat)
    requires s0 >= 0 && s1 >= 0 && s2 >= 0
    requires Same(u, s2 + 0x100 * v) && Same(0x100 * u, 0x100 * s2 + v)
    ensures Same(s0 + 0x100 * s1 + u, s0 + 0x100 * (s1 + 0x100 * s2 + v))
    ensures Same(0x100 * (s0 + 0x100 * s1 + u), 0x100 * s0 + (s1 + 0x100 * s2 + v))
  {
    hide Same;
    var c: nat := s0 + 0x100 * s1;
    SameAdd(u, s2 + 0x100 * v, c);
    SameBy(c + s2 + 0x100 * v, s0 + 0x100 * (s1 + 0x100 * s2 + v), -s2);
    SameTrans(c + u, c + s2 + 0x100 * v, s0 + 0x100 * (s1 + 0x100 * s2 + v));
    SameAdd(0x100 * u, 0x100 * s2 + v, 0x100 * c);
    SameBy(0x100 * c + 0x100 * s2 + v, 0x100 * s0 + (s1 + 0x100 * s2 + v), s1);
    SameTrans(0x100 * (c + u), 0x100 * c + 0x100 * s2 + v, 0x100 * s0 + (s1 + 0x100 * s2 + v));
  }

  // ----- the fast form -----

  type uint32 = x: int | 0 <= x < 0x1_0000_0000

  /** Four bytes as a little-endian 32-bit word. */
  function Word32(s: seq<byte>, p: nat): uint32
    requires p + 4 <= |s|
  {
    Join(s[p], s[p + 1]) + 0x1_0000 * Join(s[p + 2], s[p + 3])
  }

  /** 32-bit addition with end-around carry, as the loop does it. */
  function AddCarry(c: uint32, w: uint32): uint32 {
    var temp := (c + w) % 0x1_0000_0000;
    if temp < c then temp + 1 else temp
  }

  /** The carry is never lost. */
  lemma AddCarryValue(c: uint32, w: uint32)
    ensures AddCarry(c, w) == if c + w < 0x1_0000_0000 then c + w else c + w - 0xFFFF_FFFF
  {
  }

  lemma {:induction false} SumFour(s: seq<byte>, p: nat)
    requires p + 4 <= |s|
    ensures Sum(s[p..]) == Join(s[p], s[p + 1]) + Join(s[p + 2], s[p + 3]) + Sum(s[p + 4..])
  {
    hide Sum;
    SumUnfold(s[p..]);
    SumUnfold(s[p + 2..]);
    assert s[p..][2..] == s[p + 2..] && s[p + 2..][2..] == s[p + 4..];
  }

  /** Adding two words as one of 32 bits, with the carry, is adding their sum. */
  lemma EndAround(c: uint32, low: uint16, high: uint16, rest: nat)
    ensures Same(AddCarry(c, low + 0x1_0000 * high) + rest, c + low + high + rest)
  {
    hide Same, AddCarry;
    var w: uint32 := low + 0x1_0000 * high;
    AddCarryValue(c, w);
    SameBy(AddCarry(c, w) + rest, c + low + high + rest, if c + w < 0x1_0000_0000 then high else high as int - 0x1_0001);
  }

  /** Folding twice brings what the last additions leave into 16 bits. */
  lemma FoldTwice(c: nat)
    requires c <= 0x3_00FC
    ensures Fold(Fold(c)) <= 0xFFFF && Same(Fold(Fold(c)), c)
  {
    FoldSame(c);
    FoldSame(Fold(c));
  }

  /** A 16-bit value that folds like the sum is the ones' complement sum. */
  lemma {:induction false} SumUnique(c: uint16, s: seq<byte>)
    requires Same(c, Sum(s))
    ensures c == OnesSum(s)
  {
    var q := OnesSumFolds(s);
    SameBy(OnesSum(s), Sum(s), -q);
    SameSym(OnesSum(s), Sum(s));
    SameTrans(c, Sum(s), OnesSum(s));
    SameUnique(c, OnesSum(s));
  }

  /** Folds the 32-bit sum, adds the left-over word and byte, and folds to 16 bits. */
  method FoldAdd(sum: uint32, rest: seq<byte>, ghost total: nat) returns (checksum: uint32)
    requires |rest| < 4 && Same(sum + Sum(rest), total)
    ensures checksum <= 0xFFFF && Same(checksum, total)
  {
    hide Same, Sum, Fold;
    FoldSame(sum);
    FoldBound(sum);
    SameAdd(Fold(sum), sum, Sum(rest));
    SameTrans(Fold(sum) + Sum(rest), sum + Sum(rest), total);
    SumUnfold(rest);
    checksum := Fold(sum);
    var p := 0;
    if |rest| >= 2 {
      SumUnfold(rest[2..]);
      checksum := checksum + Join(rest[0], rest[1]);
      p := 2;
    }
    if |rest| - p >= 1 {
      checksum := checksum + rest[p];
    }
    FoldTwice(checksum);
    FoldBound(checksum);
    SameTrans(Fold(Fold(checksum)), checksum, total);
    checksum := Fold(checksum);
    checksum := Fold(checksum);
  }

  lemma FoldBound(c: uint32)
    ensures Fold(c) <= 0x1_FFFE
  {
  }

  /**
   ipCalcChecksum: `align` is the address of the first byte. Bytes of an odd address are
   added with the weights exchanged, and the result is exchanged at the end.
   */
  method CalcChecksum(data: seq<byte>, align: nat) returns (r: uint16)
    ensures r == Checksum(data)
  {
    hide Same, Sum, OnesSum, Fold, Swap, AddCarry;
    var checksum: uint32 := 0;
    var p: nat, length: nat := 0, |data|;
    ghost var odd := align % 2 == 1 && |data| >= 1;
    ghost var total := if odd then 0x100 * data[0] + Sum(data[1..]) else Sum(data);
    if align % 2 != 0 {
      if length >= 1 {
        checksum := checksum + Join(0, data[p]);
        p, length := p + 1, length - 1;
      }
    }
    assert data[0..] == data;
    SameBy(checksum + Sum(data[p..]), total, 0);
    if (align + p) / 2 % 2 != 0 {
      if length >= 2 {
        SumUnfold(data[p..]);
        assert data[p..][2..] == data[p + 2..];
        checksum := checksum + Join(data[p], data[p + 1]);
        p, length := p + 2, length - 2;
      }
    }
    while length >= 4
      invariant p + length == |data|
      invariant Same(checksum + Sum(data[p..]), total)
    {
      SumFour(data, p);
      EndAround(checksum, Join(data[p], data[p + 1]), Join(data[p + 2], data[p + 3]), Sum(data[p + 4..]));
      SameTrans(AddCarry(checksum, Word32(data, p)) + Sum(data[p + 4..]), checksum + Sum(data[p..]), total);
      checksum := AddCarry(checksum, Word32(data, p));
      p, length := p + 4, length - 4;
    }
    checksum := FoldAdd(checksum, data[p..], total);
    if align % 2 != 0 {
      if odd {
        SumShift(data);
        SameSym(0x100 * Sum(data), total);
        SameTrans(checksum, total, 0x100 * Sum(data));
      } else {
        SumUnfold(data);
      }
      SwapSame(checksum, Sum(data));
      checksum := Swap(checksum);
    }
    SumUnique(checksum, data);
    r := 0xFFFF - checksum;
  }

  // ----- buffers in chunks -----

  /** Adding the folded sum of one more stretch of bytes, with the bytes exchanged when it starts at an odd position. */
  lemma {:induction false} AddStretch(c: uint16, done: seq<byte>, more: seq<byte>)
    requires Same(c, Sum(done))
    ensures |done| % 2 == 0 ==> Fold(c + OnesSum(more)) <= 0xFFFF && Same(Fold(c + OnesSum(more)), Sum(done + more))
    ensures |done| % 2 == 1 ==> Fold(Swap(c) + OnesSum(more)) <= 0xFFFF
                                && Same(Swap(Fold(Swap(c) + OnesSum(more))), Sum(done + more))
  {
    hide Same, Sum, OnesSum, Swap;
    var o: nat, a, b := OnesSum(more), Sum(done), Sum(more);
    var q := OnesSumFolds(more);
    SameBy(OnesSum(more), Sum(more), -q);
    SumConcat(done, more);
    if |done| % 2 == 0 {
      FoldSum(c, a, o, b);
    } else {
      SwapSame(c, a);
      FoldSum(Swap(c), 0x100 * a, o, b);
      var f: uint16 := Fold(Swap(c) + o);
      // f folds like 256 a + b, so exchanging its bytes folds like a + 256 b
      SwapSame(f, 0x100 * a + b);
      SameBy(0x100 * (0x100 * a + b), a + 0x100 * b, a);
      SameTrans(Swap(f), 0x100 * (0x100 * a + b), a + 0x100 * b);
      SameSym(Sum(done + more), a + 0x100 * b);
      SameTrans(Swap(f), a + 0x100 * b, Sum(done + more));
    }
  }

  lemma FoldSum(c: uint16, a: nat, o: uint16, b: nat)
    requires Same(c, a) && Same(o, b)
    ensures Fold(c + o) <= 0xFFFF && Same(Fold(c + o), a + b)
  {
    FoldSame(c + o);
    SameAdd(c, a, o);
    SameAdd(o, b, a);
    SameTrans(c + o, a + o, a + b);
    SameTrans(Fold(c + o), c + o, a + b);
  }

  /** ipCalcChecksumEx: any chunks, of any lengths and addresses. */
  method CalcChecksumEx(buffer: seq<Chunk<byte>>, start: nat, length: nat) returns (r: uint16)
    ensures r == Checksum(Slice(Flat(buffer), start, length))
  {
    hide Same, Sum, OnesSum, Fold, Swap, Slice, Flat;
    var checksum: uint16 := 0;
    var i, pos, offset: nat := 0, 0, start;
    ghost var all := Slice(Flat(buffer), start, length);
    ghost var done := [];
    SumUnfold([]);
    SameBy(0, 0, 0);
    assert buffer[0..] == buffer && done + all == all;
    while i < |buffer| && pos < length
      invariant i <= |buffer| && pos <= length && pos == |done|
      invariant Same(checksum, Sum(done))
      invariant all == done + Slice(Flat(buffer[i..]), offset, length - pos)
    {
      var d := buffer[i].data;
      SliceStep(buffer[i..], offset, length - pos);
      assert buffer[i..][1..] == buffer[i + 1..];
      if offset < |d| {
        var n := if |d| - offset < length - pos then |d| - offset else length - pos;
        var part := CalcChecksum(d[offset..offset + n], buffer[i].address + offset);
        AddStretch(checksum, done, d[offset..offset + n]);
        if pos % 2 != 0 {
          checksum := Swap(checksum);
        }
        checksum := Fold(checksum + (0xFFFF - part));
        if pos % 2 != 0 {
          checksum := Swap(checksum);
        }
        done := done + d[offset..offset + n];
        pos := pos + n;
        offset := 0;
      } else {
        offset := offset - |d|;
      }
      i := i + 1;
    }
    assert all == done by {
      WalkEnds(buffer[i..], offset, length - pos);
    }
    SumUnique(checksum, all);
    r := 0xFFFF - checksum;
  }

  /** A header filled up to an even length. */
  function Padded(s: seq<byte>): seq<byte> {
    if |s| % 2 == 0 then s else s + [0]
  }

  /** The folded sum of the pseudo header and that of the data make the sum of both. */
  lemma {:induction false} UpperLayer(pseudoHeader: seq<byte>, data: seq<byte>)
    ensures Fold(OnesSum(pseudoHeader) + OnesSum(data)) == OnesSum(Padded(pseudoHeader) + data)
  {
    hide Same, Sum, OnesSum, Fold;
    var h, o := Padded(pseudoHeader), OnesSum(pseudoHeader);
    var q := OnesSumFolds(pseudoHeader);
    SameBy(OnesSum(pseudoHeader), Sum(pseudoHeader), -q);
    if |pseudoHeader| % 2 == 1 {
      SumUnfold([0]);
      SumUnfold([]);
      assert [0][1..] == [];
      SumConcat(pseudoHeader, [0]);
      SameSym(Sum(h), Sum(pseudoHeader));
      SameTrans(o, Sum(pseudoHeader), Sum(h));
    }
    AddStretch(o, h, data);
    SumUnique(Fold(o + OnesSum(data)), h + data);
  }

  /** ipCalcUpperLayerChecksum: a pseudo header, then the data. */
  method CalcUpperLayerChecksum(pseudoHeader: seq<byte>, align: nat, data: seq<byte>, dataAlign: nat) returns (r: uint16)
    ensures r == Checksum(Padded(pseudoHeader) + data)
  {
    hide OnesSum, Fold;
    var a := CalcChecksum(pseudoHeader, align);
    var b := CalcChecksum(data, dataAlign);
    UpperLayer(pseudoHeader, data);
    var x: nat, y: nat := 0xFFFF - a, 0xFFFF - b;
    r := 0xFFFF - Fold(x + y);
  }

  /** ipCalcUpperLayerChecksumEx: the data is in chunks. */
  method CalcUpperLayerChecksumEx(pseudoHeader: seq<byte>, align: nat, buffer: seq<Chunk<byte>>, start: nat, length: nat)
    returns (r: uint16)
    ensures r == Checksum(Padded(pseudoHeader) + Slice(Flat(buffer), start, length))
  {
    hide OnesSum, Fold;
    var a := CalcChecksum(pseudoHeader, align);
    var b := CalcChecksumEx(buffer, start, length);
    UpperLayer(pseudoHeader, Slice(Flat(buffer), start, length));
    var x: nat, y: nat := 0xFFFF - a, 0xFFFF - b;
    r := 0xFFFF - Fold(x + y);
  }

  // ----- storing and verifying -----

  /** `s` with the 16-bit host-order field at `p` set to `c`. */
  function Stored(s: seq<byte>, p: nat, c: uint16): (r: seq<byte>)
    requires p + 2 <= |s|
  {
    s[p := Low(c)][p + 1 := High(c)]
  }

  lemma {:induction false} StoredSum(s: seq<byte>, p: nat, c: uint16)
    requires p % 2 == 0 && p + 2 <= |s| && s[p] == 0 && s[p + 1] == 0
    ensures Sum(Stored(s, p, c)) == Sum(s) + c
  {
    var t := Stored(s, p, c);
    if p == 0 {
      assert t[2..] == s[2..];
    } else {
      assert t[2..] == Stored(s[2..], p - 2, c);
      StoredSum(s[2..], p - 2, c);
    }
  }

  /**
   A packet whose zeroed checksum field receives the value `c` verifies, that is, its own
   checksum is 0, exactly when `c` is the checksum of the packet; when that is 0, its other
   ones' complement form 0xFFFF verifies as well.
   */
  lemma VerifiesExactly(s: seq<byte>, p: nat, c: uint16)
    requires p % 2 == 0 && p + 2 <= |s| && s[p] == 0 && s[p + 1] == 0
    ensures Checksum(Stored(s, p, c)) == 0 <==> c == Checksum(s) || (Checksum(s) == 0 && c == 0xFFFF)
  {
    StoredOnesSum(s, p, c);
  }

  /** Storing a field adds it to the ones' complement sum. */
  lemma {:induction false} StoredOnesSum(s: seq<byte>, p: nat, c: uint16)
    requires p % 2 == 0 && p + 2 <= |s| && s[p] == 0 && s[p + 1] == 0
    ensures OnesSum(Stored(s, p, c)) == OnesAdd(OnesSum(s), c)
  {
    hide Same, Sum, OnesSum, Stored;
    var x: nat := OnesSum(s);
    StoredSum(s, p, c);
    var q := OnesSumFolds(s);
    SameBy(OnesSum(s), Sum(s), -q);
    SameAdd(x, Sum(s), c);
    SameBy(OnesAdd(x, c), x + c, if x + c > 0xFFFF then -1 else 0);
    SameTrans(OnesAdd(x, c), x + c, Sum(s) + c);
    SumUnique(OnesAdd(x, c), Stored(s, p, c));
  }

  /** The sum is 0 for all-zero data only. */
  lemma {:induction false} ZeroSum(s: seq<byte>)
    ensures OnesSum(s) == 0 <==> forall i :: 0 <= i < |s| ==> s[i] == 0
  {
    if |s| >= 2 {
      ZeroSum(s[2..]);
      assert forall i :: 2 <= i < |s| ==> s[i] == s[2..][i - 2];
    }
  }
}
