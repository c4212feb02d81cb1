/** The checksum of the ENS160 chip: `Ens160._crc8` in ens160sciosense.py.

    This is the vendor's own CRC8 variant, not the textbook bit-serial CRC8:
    each iteration folds a whole input byte into `crc << 1` and then makes a
    single conditional XOR with the polynomial, guarded by bit 7 of the crc
    as it was BEFORE the shift.  Bytes are `bv8`, so `0xFF & (...)` is the
    8-bit wrap-around of the shift. */
module Ens160Crc {
  import opened Bits

  /** `Ens160._CRC_POLY`, the polynomial the driver passes. */
  const Poly: bv8 := 0x1D

  /** One iteration of the loop of `_crc8`: `tmp = 0xFF & ((crc << 1) ^ item)`,
      then `tmp ^ polynomial` exactly when bit 7 of the previous `crc` is set. */
  function Step(crc: bv8, item: bv8, polynomial: bv8): bv8 {
    var tmp := (crc << 1) ^ item;
    if crc & 0x80 == 0 then tmp else tmp ^ polynomial
  }

  /** The loop of `_crc8` over `s`, started from `crc`. */
  function Fold(s: seq<bv8>, polynomial: bv8, crc: bv8): bv8
    decreases |s|
  {
    if s == [] then crc else Fold(s[1..], polynomial, Step(crc, s[0], polynomial))
  }

  /** `Ens160._crc8(sequence, polynomial, init_value)`: the loop starts from
      `init_value & 0xFF`. */
  function Crc8(sequence: seq<bv8>, polynomial: bv8, initValue: int): (r: bv8)
    ensures sequence == [] ==> r == Low(initValue)
  {
    Fold(sequence, polynomial, Low(initValue))
  }

  /** The loop of `_crc8` as the source writes it: a local `crc` that each
      item updates in place. */
  method ComputeCrc8(sequence: seq<bv8>, polynomial: bv8, initValue: int) returns (crc: bv8)
    ensures crc == Crc8(sequence, polynomial, initValue)
  {
    crc := Low(initValue);
    for i := 0 to |sequence|
      invariant Fold(sequence[i..], polynomial, crc) == Crc8(sequence, polynomial, initValue)
    {
      ghost var next := Step(crc, sequence[i], polynomial);
      assert Fold(sequence[i..], polynomial, crc) == Fold(sequence[i + 1..], polynomial, next) by {
        assert sequence[i..][1..] == sequence[i + 1..];
      }
      var tmp := (crc << 1) ^ sequence[i];
      if crc & 0x80 == 0 {
        crc := tmp;
      } else {
        crc := tmp ^ polynomial;
      }
      assert crc == next;
    }
    assert sequence[|sequence|..] == [];
  }

  lemma {:induction false} FoldAppend(a: seq<bv8>, b: seq<bv8>, polynomial: bv8, crc: bv8)
    ensures Fold(a + b, polynomial, crc) == Fold(b, polynomial, Fold(a, polynomial, crc))
    decreases |a|
  {
    if a == [] {
      assert a + b == b;
    } else {
      assert (a + b)[1..] == a[1..] + b;
      FoldAppend(a[1..], b, polynomial, Step(crc, a[0], polynomial));
    }
  }

  /** The checksum of a concatenation is the checksum of the second part
      seeded with the checksum of the first: the running (MISR-style) value
      the chip keeps across transfers. */
  lemma Chaining(a: seq<bv8>, b: seq<bv8>, polynomial: bv8, initValue: int)
    ensures Crc8(a + b, polynomial, initValue) == Crc8(b, polynomial, Crc8(a, polynomial, initValue) as int)
  {
    FoldAppend(a, b, polynomial, Low(initValue));
    LowOfByte(Crc8(a, polynomial, initValue));
  }

  /** Appending one byte to the input moves the checksum of the prefix by
      one place, XORs the byte in, and XORs the polynomial in exactly when
      bit 7 of the prefix's checksum was set. */
  lemma AppendOneByte(prefix: seq<bv8>, item: bv8, polynomial: bv8, initValue: int)
    ensures var c := Crc8(prefix, polynomial, initValue);
      Crc8(prefix + [item], polynomial, initValue)
        == if c & 0x80 == 0 then (c << 1) ^ item else ((c << 1) ^ item) ^ polynomial
  {
    AppendOneStep(prefix, item, polynomial, initValue);
  }

  lemma AppendOneStep(prefix: seq<bv8>, item: bv8, polynomial: bv8, initValue: int)
    ensures Crc8(prefix + [item], polynomial, initValue) == Step(Crc8(prefix, polynomial, initValue), item, polynomial)
  {
    FoldAppend(prefix, [item], polynomial, Low(initValue));
  }

  /** For an odd polynomial (bit 0 set, as 0x1D has) a step is one-to-one in
      the previous checksum ... */
  lemma StepInjectiveInCrc(c: bv8, d: bv8, item: bv8, polynomial: bv8)
    requires polynomial & 1 == 1
    requires Step(c, item, polynomial) == Step(d, item, polynomial)
    ensures c == d
  {
    EqualByTopBitAndShift(c, d);
    ShiftsAgreeInBitZero(c, d);
    // Split on bit 7 of `c` and of `d`; each case is closed by the two facts above.
    if c & 0x80 == 0 {
      if d & 0x80 == 0 {
      } else {
      }
    }
  }

  /** ... and, for any polynomial, one-to-one in the input byte. */
  lemma StepInjectiveInItem(crc: bv8, x: bv8, y: bv8, polynomial: bv8)
    requires Step(crc, x, polynomial) == Step(crc, y, polynomial)
    ensures x == y
  {
    // Split on bit 7 of `crc`, which decides whether the polynomial is XOR-ed in.
    if crc & 0x80 == 0 {
    }
  }

  lemma {:induction false} FoldInjectiveInCrc(s: seq<bv8>, polynomial: bv8, c: bv8, d: bv8)
    requires polynomial & 1 == 1
    requires Fold(s, polynomial, c) == Fold(s, polynomial, d)
    ensures c == d
    decreases |s|
  {
    if s != [] {
      FoldInjectiveInCrc(s[1..], polynomial, Step(c, s[0], polynomial), Step(d, s[0], polynomial));
      StepInjectiveInCrc(c, d, s[0], polynomial);
    }
  }

  lemma FoldDetectsSingleByteError(data: seq<bv8>, corrupted: seq<bv8>, k: nat, polynomial: bv8, crc: bv8)
    requires polynomial & 1 == 1
    requires |corrupted| == |data| && k < |data|
    requires corrupted[k] != data[k]
    requires corrupted[..k] == data[..k] && corrupted[k + 1..] == data[k + 1..]
    ensures Fold(corrupted, polynomial, crc) != Fold(data, polynomial, crc)
  {
    var prefix, suffix := data[..k], data[k + 1..];
    assert data == prefix + [data[k]] + suffix;
    assert corrupted == prefix + [corrupted[k]] + suffix;
    var c := Fold(prefix, polynomial, crc);
    FoldAppend(prefix + [data[k]], suffix, polynomial, crc);
    FoldAppend(prefix + [corrupted[k]], suffix, polynomial, crc);
    FoldAppend(prefix, [data[k]], polynomial, crc);
    FoldAppend(prefix, [corrupted[k]], polynomial, crc);
    if Fold(corrupted, polynomial, crc) == Fold(data, polynomial, crc) {
      FoldInjectiveInCrc(suffix, polynomial, Step(c, corrupted[k], polynomial), Step(c, data[k], polynomial));
      StepInjectiveInItem(c, corrupted[k], data[k], polynomial);
    }
  }

  /** A transfer in which exactly one byte was corrupted never passes the
      check: with the driver's polynomial (or any odd one) the checksums of
      the two byte strings differ, whatever the seed. */
  lemma SingleByteErrorDetected(data: seq<bv8>, corrupted: seq<bv8>, k: nat, polynomial: bv8, initValue: int)
    requires polynomial & 1 == 1
    requires |corrupted| == |data| && k < |data|
    requires corrupted[k] != data[k]
    requires corrupted[..k] == data[..k] && corrupted[k + 1..] == data[k + 1..]
    ensures Crc8(corrupted, polynomial, initValue) != Crc8(data, polynomial, initValue)
  {
    FoldDetectsSingleByteError(data, corrupted, k, polynomial, Low(initValue));
  }

  /** Fixed values with the driver's polynomial: the empty input gives the
      seed, one zero byte from seed 0x80 gives the polynomial itself. */
  lemma DriverVectors()
    ensures Crc8([], Poly, 0x5A) == 0x5A
    ensures Crc8([0x00], Poly, 0x80) == 0x1D
    ensures Crc8([0x01, 0x02, 0x03], Poly, 0x00) == 0x03
  {
    LowOfByte(0x5A);
    LowOfByte(0x80);
    LowOfByte(0x00);
    var bytes: seq<bv8> := [0x01, 0x02, 0x03];
    assert Fold(bytes, Poly, 0x00) == Fold(bytes[1..], Poly, 0x01);
    assert Fold(bytes[1..], Poly, 0x01) == Fold(bytes[2..], Poly, 0x00);
  }
}
