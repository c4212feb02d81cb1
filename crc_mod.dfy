/** The conventional CRC-8 of sensor_pack/crc_mod.py: bit-serial, most
    significant bit first, no reflection, no final XOR.  The module documents
    the configuration polynomial 0x31 (x^8 + x^5 + x^4 + 1) with initial value
    0xFF; the function itself takes any polynomial and defaults the initial
    value to 0x00.  Every intermediate value is masked with 0xFF, so only the
    low bytes of the items, of the polynomial and of the initial value
    matter: the model masks them once (`Masked`, `Low`) and runs the loops on
    bytes. */
module CrcMod {
  import opened Bits

  /** One pass of the inner loop: shift left by one, XOR the polynomial iff
      bit 7 was set before the shift, keep the low 8 bits. */
  function Shift(crc: bv8, polynomial: bv8): bv8 {
    if crc & 0x80 != 0 then (crc << 1) ^ polynomial else crc << 1
  }

  /** `n` passes of the inner loop. */
  function Shifts(crc: bv8, polynomial: bv8, n: nat): bv8
    decreases n
  {
    if n == 0 then crc else Shifts(Shift(crc, polynomial), polynomial, n - 1)
  }

  /** One iteration of the outer loop: `crc ^= item`, then 8 shifts. */
  function Feed(crc: bv8, item: bv8, polynomial: bv8): bv8 {
    Shifts(crc ^ item, polynomial, 8)
  }

  /** The outer loop over the bytes `s`, started from `crc`. */
  function Fold(s: seq<bv8>, polynomial: bv8, crc: bv8): bv8
    decreases |s|
  {
    if s == [] then crc else Fold(s[1..], polynomial, Feed(crc, s[0], polynomial))
  }

  /** The items as the loop sees them: `item & 0xFF`. */
  function Masked(s: seq<int>): (r: seq<bv8>)
    ensures |r| == |s|
    ensures forall i :: 0 <= i < |s| ==> r[i] == Low(s[i])
  {
    seq(|s|, i requires 0 <= i < |s| => Low(s[i]))
  }

  /** `crc8(sequence, polynomial, init_value=0x00)`. */
  function Crc8(sequence: seq<int>, polynomial: int, initValue: int := 0x00): (r: bv8)
    ensures sequence == [] ==> r == Low(initValue)
  {
    Fold(Masked(sequence), Low(polynomial), Low(initValue))
  }

  /** The nested loop of `crc8` as the source writes it.  Only the low byte
      of `polynomial` survives `mask & (... ^ polynomial)`, so it is masked
      once before the loops. */
  method ComputeCrc8(sequence: seq<int>, polynomial: int, initValue: int := 0x00) returns (crc: bv8)
    ensures crc == Crc8(sequence, polynomial, initValue)
  {
    ghost var bytes := Masked(sequence);
    var p := Low(polynomial);
    crc := Low(initValue);
    for i := 0 to |sequence|
      invariant Fold(bytes[i..], p, crc) == Crc8(sequence, polynomial, initValue)
    {
      ghost var next := Feed(crc, bytes[i], p);
      assert Fold(bytes[i..], p, crc) == Fold(bytes[i + 1..], p, next) by {
        assert bytes[i..][1..] == bytes[i + 1..];
      }
      crc := crc ^ Low(sequence[i]);
      assert Shifts(crc, p, 8) == next;
      for j := 0 to 8
        invariant Shifts(crc, p, 8 - j) == next
      {
        ShiftsStep(crc, p, 8 - j);
        if crc & 0x80 != 0 {
          crc := (crc << 1) ^ p;
        } else {
          crc := crc << 1;
        }
      }
    }
    assert bytes[|sequence|..] == [];
  }

  lemma ShiftsStep(crc: bv8, polynomial: bv8, n: nat)
    requires n > 0
    ensures Shifts(crc, polynomial, n) == Shifts(Shift(crc, polynomial), polynomial, n - 1)
  {
  }

  // ---------------------------------------------------------------------
  // Reference definition: the textbook linear-feedback shift register that
  // consumes the message one bit at a time, most significant bit first.

  /** Feed one message bit: the feedback is bit 7 of the register XOR the
      incoming bit. */
  function FeedBit(crc: bv8, bit: bool, polynomial: bv8): bv8 {
    if (crc & 0x80 != 0) != bit then (crc << 1) ^ polynomial else crc << 1
  }

  /** The register run over a bit string. */
  function Lfsr(bits: seq<bool>, polynomial: bv8, crc: bv8): bv8
    decreases |bits|
  {
    if bits == [] then crc else Lfsr(bits[1..], polynomial, FeedBit(crc, bits[0], polynomial))
  }

  /** The top `n` bits of `x`, most significant first. */
  function TopBits(x: bv8, n: nat): (bits: seq<bool>)
    ensures |bits| == n
    decreases n
  {
    if n == 0 then [] else [x & 0x80 != 0] + TopBits(x << 1, n - 1)
  }

  /** What is left of `x` after `n` single shifts to the left. */
  function ShiftedLeft(x: bv8, n: nat): bv8
    decreases n
  {
    if n == 0 then x else ShiftedLeft(x << 1, n - 1)
  }

  /** The bits of a byte string, each byte most significant bit first. */
  function MessageBits(s: seq<bv8>): (bits: seq<bool>)
    ensures |bits| == 8 * |s|
  {
    if s == [] then [] else TopBits(s[0], 8) + MessageBits(s[1..])
  }

  lemma {:induction false} LfsrAppend(a: seq<bool>, b: seq<bool>, polynomial: bv8, crc: bv8)
    ensures Lfsr(a + b, polynomial, crc) == Lfsr(b, polynomial, Lfsr(a, polynomial, crc))
    decreases |a|
  {
    if a == [] {
      assert a + b == b;
    } else {
      assert (a + b)[1..] == a[1..] + b;
      LfsrAppend(a[1..], b, polynomial, FeedBit(crc, a[0], polynomial));
    }
  }

  /** One shift of a register into which a byte was XOR-ed is one bit fed
      serially, with the rest of the byte moved up by one. */
  lemma ShiftOfXor(crc: bv8, x: bv8, polynomial: bv8)
    ensures Shift(crc ^ x, polynomial) == FeedBit(crc, x & 0x80 != 0, polynomial) ^ (x << 1)
  {
    assert (crc ^ x) << 1 == (crc << 1) ^ (x << 1);
    assert ((crc ^ x) & 0x80 != 0) == ((crc & 0x80 != 0) != (x & 0x80 != 0));
    // Split on bit 7 of `crc`.
    if crc & 0x80 == 0 {
    }
  }

  /** Feeding the top `n` bits of `x` is feeding its top bit, then the top
      `n - 1` bits of the rest. */
  lemma LfsrOfTopBits(crc: bv8, x: bv8, polynomial: bv8, n: nat)
    requires n > 0
    ensures Lfsr(TopBits(x, n), polynomial, crc)
         == Lfsr(TopBits(x << 1, n - 1), polynomial, FeedBit(crc, x & 0x80 != 0, polynomial))
  {
    var rest := TopBits(x << 1, n - 1);
    assert TopBits(x, n) == [x & 0x80 != 0] + rest;
    assert ([x & 0x80 != 0] + rest)[1..] == rest;
  }

  /** One shift of the XOR-ed register, taken out of `n`. */
  lemma ShiftsOfXorStep(crc: bv8, x: bv8, polynomial: bv8, n: nat)
    requires n > 0
    ensures Shifts(crc ^ x, polynomial, n)
         == Shifts(FeedBit(crc, x & 0x80 != 0, polynomial) ^ (x << 1), polynomial, n - 1)
  {
    var c := crc ^ x;
    ShiftOfXor(crc, x, polynomial);
    assert Shifts(c, polynomial, n) == Shifts(Shift(c, polynomial), polynomial, n - 1);
  }

  /** XOR-ing the byte `x` into the register and shifting `n` times is the
      same as feeding the top `n` bits of `x` serially, up to the bits of `x`
      not yet shifted out. */
  predicate BitSerialAt(crc: bv8, x: bv8, polynomial: bv8, n: nat) {
    Shifts(crc ^ x, polynomial, n) == Lfsr(TopBits(x, n), polynomial, crc) ^ ShiftedLeft(x, n)
  }

  /** The case `n == 0` of `ShiftsAreBitSerial`. */
  lemma ShiftsAreBitSerialBase(crc: bv8, x: bv8, polynomial: bv8)
    ensures BitSerialAt(crc, x, polynomial, 0)
  {
    assert TopBits(x, 0) == [];
  }

  /** The induction step of `ShiftsAreBitSerial`: the claim for `n` follows
      from the claim for `n - 1` on the register after one bit was fed and
      the rest of the byte. */
  lemma ShiftsAreBitSerialStep(crc: bv8, x: bv8, polynomial: bv8, n: nat)
    requires n > 0
    ensures BitSerialAt(FeedBit(crc, x & 0x80 != 0, polynomial), x << 1, polynomial, n - 1)
        ==> BitSerialAt(crc, x, polynomial, n)
  {
    ShiftsOfXorStep(crc, x, polynomial, n);
    LfsrOfTopBits(crc, x, polynomial, n);
  }

  lemma {:induction false} ShiftsAreBitSerial(crc: bv8, x: bv8, polynomial: bv8, n: nat)
    ensures BitSerialAt(crc, x, polynomial, n)
    decreases n
  {
    if n == 0 {
      ShiftsAreBitSerialBase(crc, x, polynomial);
    } else {
      ShiftsAreBitSerial(FeedBit(crc, x & 0x80 != 0, polynomial), x << 1, polynomial, n - 1);
      ShiftsAreBitSerialStep(crc, x, polynomial, n);
    }
  }

  /** Eight shifts push every bit of a byte out. */
  lemma ShiftedOut(x: bv8)
    ensures ShiftedLeft(x, 8) == 0
  {
    var x1 := x << 1;
    var x2 := x1 << 1;
    var x3 := x2 << 1;
    var x4 := x3 << 1;
    var x5 := x4 << 1;
    var x6 := x5 << 1;
    var x7 := x6 << 1;
    assert x7 << 1 == 0;
    assert ShiftedLeft(x, 8) == ShiftedLeft(x7 << 1, 0);
  }

  /** One outer iteration feeds the item's 8 bits, most significant first. */
  lemma FeedIsBitSerial(crc: bv8, item: bv8, polynomial: bv8)
    ensures Feed(crc, item, polynomial) == Lfsr(TopBits(item, 8), polynomial, crc)
  {
    ShiftsAreBitSerial(crc, item, polynomial, 8);
    ShiftedOut(item);
  }

  lemma {:induction false} FoldIsLfsr(s: seq<bv8>, polynomial: bv8, crc: bv8)
    ensures Fold(s, polynomial, crc) == Lfsr(MessageBits(s), polynomial, crc)
    decreases |s|
  {
    if s != [] {
      FeedIsBitSerial(crc, s[0], polynomial);
      LfsrAppend(TopBits(s[0], 8), MessageBits(s[1..]), polynomial, crc);
      FoldIsLfsr(s[1..], polynomial, Feed(crc, s[0], polynomial));
    }
  }

  /** `crc8` computes the MSB-first, bit-at-a-time CRC-8 of the bits of the
      message (each item masked to a byte), with the low bytes of the
      polynomial and of the initial value. */
  lemma Crc8IsBitSerial(sequence: seq<int>, polynomial: int, initValue: int)
    ensures Crc8(sequence, polynomial, initValue)
         == Lfsr(MessageBits(Masked(sequence)), Low(polynomial), Low(initValue))
  {
    FoldIsLfsr(Masked(sequence), Low(polynomial), Low(initValue));
  }

  // ---------------------------------------------------------------------
  // Chaining and error detection.

  lemma {:induction false} FoldAppend(a: seq<bv8>, b: seq<bv8>, polynomial: bv8, crc: bv8)
    ensures Fold(a + b, polynomial, crc) == Fold(b, polynomial, Fold(a, polynomial, crc))
    decreases |a|
  {
    if a == [] {
      assert a + b == b;
    } else {
      assert (a + b)[1..] == a[1..] + b;
      FoldAppend(a[1..], b, polynomial, Feed(crc, a[0], polynomial));
    }
  }

  /** Appending one item to the message XORs its low byte into the CRC of
      the prefix and makes the eight passes of the inner loop. */
  lemma AppendOneByte(prefix: seq<int>, item: int, polynomial: int, initValue: int)
    ensures Crc8(prefix + [item], polynomial, initValue)
         == Shifts(Crc8(prefix, polynomial, initValue) ^ Low(item), Low(polynomial), 8)
  {
    assert Masked(prefix + [item]) == Masked(prefix) + [Low(item)];
    FoldAppend(Masked(prefix), [Low(item)], Low(polynomial), Low(initValue));
    assert [Low(item)][1..] == [];
  }

  /** The CRC of a concatenation is the CRC of the second part seeded with
      the CRC of the first. */
  lemma Chaining(a: seq<int>, b: seq<int>, polynomial: int, initValue: int)
    ensures Crc8(a + b, polynomial, initValue) == Crc8(b, polynomial, Crc8(a, polynomial, initValue) as int)
  {
    assert Masked(a + b) == Masked(a) + Masked(b);
    FoldAppend(Masked(a), Masked(b), Low(polynomial), Low(initValue));
    LowOfByte(Crc8(a, polynomial, initValue));
  }

  lemma ShiftInjective(c: bv8, d: bv8, polynomial: bv8)
    requires polynomial & 1 == 1
    requires Shift(c, polynomial) == Shift(d, polynomial)
    ensures c == d
  {
    EqualByTopBitAndShift(c, d);
    ShiftsAgreeInBitZero(c, d);
    // Split on bit 7 of `c` and of `d`; each case is closed by the two facts above.
    if c & 0x80 == 0 {
      if d & 0x80 == 0 {
      } else {
      }
    }
  }

  lemma {:induction false} ShiftsInjective(c: bv8, d: bv8, polynomial: bv8, n: nat)
    requires polynomial & 1 == 1
    requires Shifts(c, polynomial, n) == Shifts(d, polynomial, n)
    ensures c == d
    decreases n
  {
    if n > 0 {
      ShiftsInjective(Shift(c, polynomial), Shift(d, polynomial), polynomial, n - 1);
      ShiftInjective(c, d, polynomial);
    }
  }

  lemma FeedInjective(c: bv8, d: bv8, x: bv8, y: bv8, polynomial: bv8)
    requires polynomial & 1 == 1
    requires Feed(c, x, polynomial) == Feed(d, y, polynomial)
    ensures c ^ x == d ^ y
  {
    ShiftsInjective(c ^ x, d ^ y, polynomial, 8);
  }

  lemma {:induction false} FoldInjectiveInCrc(s: seq<bv8>, polynomial: bv8, c: bv8, d: bv8)
    requires polynomial & 1 == 1
    requires Fold(s, polynomial, c) == Fold(s, polynomial, d)
    ensures c == d
    decreases |s|
  {
    if s != [] {
      FoldInjectiveInCrc(s[1..], polynomial, Feed(c, s[0], polynomial), Feed(d, s[0], polynomial));
      FeedInjective(c, d, s[0], s[0], polynomial);
    }
  }

  /** On bytes: two strings that differ in exactly one position have
      different CRCs for an odd polynomial. */
  lemma FoldDetectsSingleByteError(data: seq<bv8>, corrupted: seq<bv8>, k: nat, polynomial: bv8, crc: bv8)
    requires polynomial & 1 == 1
    requires |corrupted| == |data| && k < |data|
    requires corrupted[k] != data[k]
    requires corrupted[..k] == data[..k] && corrupted[k + 1..] == data[k + 1..]
    ensures Fold(corrupted, polynomial, crc) != Fold(data, polynomial, crc)
  {
    var prefix, suffix := data[..k], data[k + 1..];
    assert data == prefix + [data[k]] + suffix;
    assert corrupted == prefix + [corrupted[k]] + suffix;
    var c := Fold(prefix, polynomial, crc);
    FoldAppend(prefix + [data[k]], suffix, polynomial, crc);
    FoldAppend(prefix + [corrupted[k]], suffix, polynomial, crc);
    FoldAppend(prefix, [data[k]], polynomial, crc);
    FoldAppend(prefix, [corrupted[k]], polynomial, crc);
    if Fold(corrupted, polynomial, crc) == Fold(data, polynomial, crc) {
      FoldInjectiveInCrc(suffix, polynomial, Feed(c, corrupted[k], polynomial), Feed(c, data[k], polynomial));
      FeedInjective(c, c, corrupted[k], data[k], polynomial);
    }
  }

  /** With an odd polynomial (0x31 is one) a message in which exactly one
      item was changed in its low 8 bits always gets a different CRC. */
  lemma SingleByteErrorDetected(data: seq<int>, corrupted: seq<int>, k: nat, polynomial: int, initValue: int)
    requires Low(polynomial) & 1 == 1
    requires |corrupted| == |data| && k < |data|
    requires Low(corrupted[k]) != Low(data[k])
    requires corrupted[..k] == data[..k] && corrupted[k + 1..] == data[k + 1..]
    ensures Crc8(corrupted, polynomial, initValue) != Crc8(data, polynomial, initValue)
  {
    var d, c := Masked(data), Masked(corrupted);
    assert c[..k] == d[..k] by {
      assert forall j :: 0 <= j < k ==> c[j] == Low(corrupted[..k][j]) == Low(data[..k][j]) == d[j];
    }
    assert c[k + 1..] == d[k + 1..] by {
      assert forall j :: k + 1 <= j < |c| ==> c[j] == Low(corrupted[k + 1..][j - k - 1]) == Low(data[k + 1..][j - k - 1]) == d[j];
    }
    FoldDetectsSingleByteError(d, c, k, Low(polynomial), Low(initValue));
  }

  // ---------------------------------------------------------------------
  // The examples of the module's documentation.

  /** The eight passes of the inner loop written out. */
  lemma FeedUnrolled(crc: bv8, item: bv8, polynomial: bv8)
    ensures var p := polynomial;
      Feed(crc, item, p) == Shift(Shift(Shift(Shift(Shift(Shift(Shift(Shift(crc ^ item, p), p), p), p), p), p), p), p)
  {
    var p := polynomial;
    var c1 := Shift(crc ^ item, p);
    var c2 := Shift(c1, p);
    var c3 := Shift(c2, p);
    var c4 := Shift(c3, p);
    var c5 := Shift(c4, p);
    var c6 := Shift(c5, p);
    var c7 := Shift(c6, p);
    ShiftsStep(crc ^ item, p, 8);
    ShiftsStep(c1, p, 7);
    ShiftsStep(c2, p, 6);
    ShiftsStep(c3, p, 5);
    ShiftsStep(c4, p, 4);
    ShiftsStep(c5, p, 3);
    ShiftsStep(c6, p, 2);
    ShiftsStep(c7, p, 1);
  }

  /** One outer iteration on concrete bytes. */
  lemma FeedValue(crc: bv8, item: bv8, polynomial: bv8, r: bv8)
    requires var p := polynomial;
      Shift(Shift(Shift(Shift(Shift(Shift(Shift(Shift(crc ^ item, p), p), p), p), p), p), p), p) == r
    ensures Feed(crc, item, polynomial) == r
  {
    FeedUnrolled(crc, item, polynomial);
  }

  /** Items that already are bytes pass the mask unchanged. */
  lemma MaskedOfBytes(s: seq<int>, bytes: seq<bv8>)
    requires |s| == |bytes|
    requires forall k :: 0 <= k < |s| ==> s[k] == bytes[k] as int
    ensures Masked(s) == bytes
  {
    forall k | 0 <= k < |s|
      ensures Masked(s)[k] == bytes[k]
    {
      LowOfByte(bytes[k]);
    }
  }

  /** With polynomial 0x31 and initial value 0xFF, 01 02 03 gives 0x87. */
  lemma DocumentedVectorShort()
    ensures Crc8([0x01, 0x02, 0x03], 0x31, 0xFF) == 0x87
  {
    var bytes: seq<bv8> := [0x01, 0x02, 0x03];
    MaskedOfBytes([0x01, 0x02, 0x03], bytes);
    LowOfByte(0x31);
    LowOfByte(0xFF);
    FeedValue(0xFF, 0x01, 0x31, 0x9D);
    FeedValue(0x9D, 0x02, 0x31, 0x17);
    FeedValue(0x17, 0x03, 0x31, 0x87);
    assert Fold(bytes, 0x31, 0xFF) == Fold(bytes[1..], 0x31, 0x9D);
    assert Fold(bytes[1..], 0x31, 0x9D) == Fold(bytes[2..], 0x31, 0x17);
  }

  /** The first half of the second documented example: 00 .. 04 from 0xFF. */
  lemma DigitsFirstHalf()
    ensures Fold([0, 1, 2, 3, 4], 0x31, 0xFF) == 0x6D
  {
    var bytes: seq<bv8> := [0, 1, 2, 3, 4];
    FeedValue(0xFF, 0, 0x31, 0xAC);
    FeedValue(0xAC, 1, 0x31, 0xB0);
    FeedValue(0xB0, 2, 0x31, 0xDD);
    FeedValue(0xDD, 3, 0x31, 0x1B);
    FeedValue(0x1B, 4, 0x31, 0x6D);
    assert Fold(bytes, 0x31, 0xFF) == Fold(bytes[1..], 0x31, 0xAC);
    assert Fold(bytes[1..], 0x31, 0xAC) == Fold(bytes[2..], 0x31, 0xB0);
    assert Fold(bytes[2..], 0x31, 0xB0) == Fold(bytes[3..], 0x31, 0xDD);
    assert Fold(bytes[3..], 0x31, 0xDD) == Fold(bytes[4..], 0x31, 0x1B);
  }

  /** The second half: 05 .. 09 from 0x6D. */
  lemma DigitsSecondHalf()
    ensures Fold([5, 6, 7, 8, 9], 0x31, 0x6D) == 0x52
  {
    var bytes: seq<bv8> := [5, 6, 7, 8, 9];
    FeedValue(0x6D, 5, 0x31, 0x02);
    FeedValue(0x02, 6, 0x31, 0xC4);
    FeedValue(0xC4, 7, 0x31, 0x14);
    FeedValue(0x14, 8, 0x31, 0x3E);
    FeedValue(0x3E, 9, 0x31, 0x52);
    assert Fold(bytes, 0x31, 0x6D) == Fold(bytes[1..], 0x31, 0x02);
    assert Fold(bytes[1..], 0x31, 0x02) == Fold(bytes[2..], 0x31, 0xC4);
    assert Fold(bytes[2..], 0x31, 0xC4) == Fold(bytes[3..], 0x31, 0x14);
    assert Fold(bytes[3..], 0x31, 0x14) == Fold(bytes[4..], 0x31, 0x3E);
  }

  /** With polynomial 0x31 and initial value 0xFF, 00 01 ... 09 gives 0x52. */
  lemma DocumentedVectorDigits()
    ensures Crc8([0, 1, 2, 3, 4, 5, 6, 7, 8, 9], 0x31, 0xFF) == 0x52
  {
    var first: seq<bv8> := [0, 1, 2, 3, 4];
    var second: seq<bv8> := [5, 6, 7, 8, 9];
    MaskedOfBytes([0, 1, 2, 3, 4, 5, 6, 7, 8, 9], first + second);
    LowOfByte(0x31);
    LowOfByte(0xFF);
    DigitsFirstHalf();
    DigitsSecondHalf();
    FoldAppend(first, second, 0x31, 0xFF);
  }

  /** The default initial value is 0x00, not the documented 0xFF: with the
      default the first documented example gives 0xCC instead of 0x87. */
  lemma DefaultInitialValue()
    ensures Crc8([], 0x31) == 0x00
    ensures Crc8([0x01, 0x02, 0x03], 0x31) == 0xCC
  {
    var bytes: seq<bv8> := [0x01, 0x02, 0x03];
    MaskedOfBytes([0x01, 0x02, 0x03], bytes);
    LowOfByte(0x31);
    LowOfByte(0x00);
    FeedValue(0x00, 0x01, 0x31, 0x31);
    FeedValue(0x31, 0x02, 0x31, 0x96);
    FeedValue(0x96, 0x03, 0x31, 0xCC);
    assert Fold(bytes, 0x31, 0x00) == Fold(bytes[1..], 0x31, 0x31);
    assert Fold(bytes[1..], 0x31, 0x31) == Fold(bytes[2..], 0x31, 0x96);
  }
}
