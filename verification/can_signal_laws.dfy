/**
  Laws of the signal decoder, stated about the raw value that DecodeRaw is proved to
  return: when fitsIn is exact, what the numbers are, byte-order duality, locality, and
  the round trip with an encoder.
*/
module CanSignalLaws {
  import opened BitWords
  import opened CanSignal
  import opened IntegerFacts

  // ---------- fitsIn against the walk ----------

  /** The Motorola frames that fitsIn accepts although the walk leaves the payload: the
      last byte is reached, but the start bit lies too low in its byte. */
  ghost predicate OverAccepts(spec: SignalSpec, dlc: Byte) {
    && spec.InRange() && !spec.littleEndian
    && spec.startBit / 8 + (spec.bitLength + 7) / 8 == Usable(dlc)
    && spec.startBit % 8 < (spec.bitLength - 1) % 8
  }

  /** A window of `l` bits from network-order position 8 * (s / 8) + 7 - s % 8 against the
      bytes its length fills. */
  lemma BytesOfBits(s: int, l: int, n: nat)
    requires 0 <= s && 1 <= l
    ensures var first, bytes := 8 * (s / 8) + 7 - s % 8, s / 8 + (l + 7) / 8;
            && (first + l <= 8 * n <==> bytes < n || (bytes == n && (l - 1) % 8 <= s % 8))
            && (bytes == n ==> 8 * n - first == l - (l - 1) % 8 + s % 8)
  {
    assert (l + 7) / 8 == (l - 1) / 8 + 1 && l - 1 == 8 * ((l - 1) / 8) + (l - 1) % 8;
  }

  lemma FitsExactly(spec: SignalSpec, dlc: Byte)
    ensures spec.FitsIn(dlc) <==> spec.Complete(dlc) || OverAccepts(spec, dlc)
    ensures !(spec.Complete(dlc) && OverAccepts(spec, dlc))
    ensures spec.FitsIn(dlc) ==>
      0 < spec.Reach(dlc) && spec.bitLength - spec.Reach(dlc) <= 7 - spec.startBit % 8
    ensures OverAccepts(spec, dlc) ==>
      spec.bitLength - spec.Reach(dlc) == (spec.bitLength - 1) % 8 - spec.startBit % 8
  {
    hide Usable;
    if spec.InRange() && !spec.littleEndian {
      BytesOfBits(spec.startBit, spec.bitLength, Usable(dlc));
    }
  }

  /** For Intel fitsIn asks for the whole window, in a frame of at most eight bytes. */
  lemma IntelFitsIff(spec: SignalSpec, dlc: Byte)
    requires spec.littleEndian
    ensures spec.FitsIn(dlc) <==>
      && 1 <= spec.bitLength && 0 <= spec.startBit
      && spec.startBit + spec.bitLength <= 8 * dlc && spec.startBit + spec.bitLength <= 64
  {}

  /** For Motorola it asks for as many bytes as the signal's length fills, counted from the
      byte of its start bit. */
  lemma MotorolaFitsIff(spec: SignalSpec, dlc: Byte)
    requires !spec.littleEndian
    ensures spec.FitsIn(dlc) <==>
      && 1 <= spec.bitLength && 0 <= spec.startBit
      && exists bytes: nat ::
           && 8 * (bytes - 1) < spec.bitLength <= 8 * bytes
           && spec.startBit / 8 + bytes <= dlc && spec.startBit / 8 + bytes <= 8
  {
    if 1 <= spec.bitLength {
      var bytes: nat := (spec.bitLength + 7) / 8;
      assert 8 * (bytes - 1) < spec.bitLength <= 8 * bytes;
    }
  }

  /** decode and process scale affinely: the offset at 0, and `scale` per step. */
  lemma ScaledAffine(spec: SignalSpec, a: int, b: int)
    ensures spec.Scaled(0) == spec.offset
    ensures spec.Scaled(a) - spec.Scaled(b) == (a - b) as real * spec.scale
  {}

  /** fitsIn promises a complete walk for exactly these specs and frames. */
  lemma FitsSufficesIff(spec: SignalSpec, dlc: Byte)
    requires spec.InRange()
    ensures (spec.FitsIn(dlc) ==> spec.Complete(dlc)) <==>
      spec.littleEndian
      || spec.startBit / 8 + (spec.bitLength + 7) / 8 != Usable(dlc)
      || (spec.bitLength - 1) % 8 <= spec.startBit % 8
  {
    FitsExactly(spec, dlc);
  }

  /** So a configuration is safe, whatever frames arrive, for exactly these specs. */
  lemma FitsAlwaysSufficesIff(spec: SignalSpec)
    requires spec.InRange()
    ensures (forall dlc: Byte :: spec.FitsIn(dlc) ==> spec.Complete(dlc)) <==>
      spec.littleEndian
      || (spec.bitLength - 1) % 8 <= spec.startBit % 8
      || spec.startBit / 8 + (spec.bitLength + 7) / 8 > 8
  {
    forall dlc: Byte
      ensures (spec.FitsIn(dlc) ==> spec.Complete(dlc)) <==>
        spec.littleEndian
        || spec.startBit / 8 + (spec.bitLength + 7) / 8 != Usable(dlc)
        || (spec.bitLength - 1) % 8 <= spec.startBit % 8
    {
      FitsSufficesIff(spec, dlc);
    }
    var last := spec.startBit / 8 + (spec.bitLength + 7) / 8;
    if last <= 8 {
      var dlc: Byte := last;
      assert Usable(dlc) == last;
      assert (spec.FitsIn(dlc) ==> spec.Complete(dlc)) <==>
        spec.littleEndian || (spec.bitLength - 1) % 8 <= spec.startBit % 8;
    }
  }

  lemma FitsMonotone(spec: SignalSpec, shorter: Byte, longer: Byte)
    requires shorter <= longer && spec.FitsIn(shorter)
    ensures spec.FitsIn(longer)
    ensures spec.Complete(shorter) ==> spec.Complete(longer)
  {}

  lemma TruncatedBit(spec: SignalSpec, data: Payload, shorter: Byte, longer: Byte, j: nat)
    requires spec.InRange() && !spec.littleEndian && shorter <= longer && j < spec.Reach(shorter)
    ensures spec.Reach(shorter) <= spec.Reach(longer)
    ensures spec.Window(data, shorter)[j] == spec.Window(data, longer)[spec.Reach(longer) - spec.Reach(shorter) + j]
  {
    hide PayloadBit, Sawtooth, SignalSpec.Window;
    MotorolaBit(spec, data, shorter, j);
    MotorolaBit(spec, data, longer, spec.Reach(longer) - spec.Reach(shorter) + j);
  }

  /** A frame that ends early yields the high-order part of the window. */
  lemma TruncatedWindow(spec: SignalSpec, data: Payload, shorter: Byte, longer: Byte)
    requires spec.InRange() && !spec.littleEndian && shorter <= longer
    ensures spec.Reach(shorter) <= spec.Reach(longer)
    ensures spec.Window(data, shorter) == spec.Window(data, longer)[spec.Reach(longer) - spec.Reach(shorter)..]
    ensures Number(spec.Window(data, shorter))
         == Number(spec.Window(data, longer)) / Pow2(spec.Reach(longer) - spec.Reach(shorter))
  {
    hide Number, Pow2, SignalSpec.Window, SignalSpec.Reach;
    var a, b := spec.Window(data, shorter), spec.Window(data, longer);
    if a != [] {
      TruncatedBit(spec, data, shorter, longer, 0);
    }
    forall j | 0 <= j < |a|
      ensures a[j] == b[|b| - |a| + j]
    {
      TruncatedBit(spec, data, shorter, longer, j);
    }
    assert a == b[|b| - |a|..];
    NumberSplit(b, |b| - |a|);
  }

  /** An incomplete walk is never sign-extended. */
  lemma OverAcceptedValue(spec: SignalSpec, data: Payload, dlc: Byte)
    requires OverAccepts(spec, dlc)
    ensures spec.RawValue(data, dlc) == Number(spec.Window(data, dlc)) < Pow2(spec.Reach(dlc))
  {
    FitsExactly(spec, dlc);
    NumberBound(spec.Window(data, dlc));
  }

  lemma OneOddBit(spec: SignalSpec, data: Payload)
    requires spec.InRange() && !spec.littleEndian && spec.startBit == 0 && 1 < spec.bitLength
    requires data[0] % 2 == 1
    ensures spec.RawValue(data, 1) == 1
  {
    assert spec.FirstBit() == 7 && spec.Reach(1) == 1;
    assert spec.Position(1, 0) == 0 && PayloadBit(data, 0);
    assert spec.Window(data, 1) == [true];
    assert Number([true]) == 1;
  }

  /** A signed byte at Motorola start bit 0 of a one-byte frame passes fitsIn, and the
      frame 0xFF decodes to 1: one bit was read, not eight. */
  lemma OverAcceptedWitness()
    ensures var spec := SignalSpec(true, 0, 0, 8, false, true, 1.0, 0.0);
            var data: Payload := [0xFF, 0, 0, 0, 0, 0, 0, 0];
            spec.FitsIn(1) && !spec.Complete(1) && spec.RawValue(data, 1) == 1
  {
    var spec := SignalSpec(true, 0, 0, 8, false, true, 1.0, 0.0);
    var data: Payload := [0xFF, 0, 0, 0, 0, 0, 0, 0];
    OneOddBit(spec, data);
  }

  // ---------- the numbers ----------

  ghost function LittleEndianSum(data: Payload, n: nat): nat
    requires n <= 8
  {
    if n == 0 then 0 else LittleEndianSum(data, n - 1) + Pow2(8 * (n - 1)) * data[n - 1]
  }

  ghost function PayloadBits(data: Payload, n: nat): (bits: seq<bool>)
    requires n <= 8
    ensures |bits| == 8 * n
  {
    seq(8 * n, p requires 0 <= p < 8 * n => PayloadBit(data, p))
  }

  lemma PayloadByte(data: Payload, i: nat)
    requires i < 8
    ensures forall p :: 8 * i <= p < 8 * i + 8 ==> PayloadBit(data, p) == Digits(data[i], 8)[p - 8 * i]
  {
    Pow2Eight();
    HighDigits(data[i], 8, 64);
    forall p | 8 * i <= p < 8 * i + 8
      ensures PayloadBit(data, p) == Digits(data[i], 8)[p - 8 * i]
    {
      assert p / 8 == i && p % 8 == p - 8 * i;
    }
  }

  lemma PayloadGrows(data: Payload, i: nat)
    requires i < 8
    ensures PayloadBits(data, i + 1) == PayloadBits(data, i) + Digits(data[i], 8)
    ensures Number(Digits(data[i], 8)) == data[i]
  {
    PayloadByte(data, i);
    Pow2Eight();
    NumberOfDigits(data[i], 8);
  }

  lemma {:induction false} SumOfBytes(data: Payload, n: nat)
    requires n <= 8
    ensures Number(PayloadBits(data, n)) == LittleEndianSum(data, n)
  {
    if n > 0 {
      SumOfBytes(data, n - 1);
      PayloadGrows(data, n - 1);
      NumberAppend(PayloadBits(data, n - 1), Digits(data[n - 1], 8));
    }
  }

  /** The OR-packing loop computes the little-endian sum of the usable bytes. */
  lemma PackedIsSum(packed: Word, data: Payload, n: nat)
    requires n <= 8 && Packs(packed, data, n)
    ensures packed == LittleEndianSum(data, n)
  {
    SumOfBytes(data, n);
    WordOfBits(packed);
    var high := Bits(packed)[8 * n..];
    assert Bits(packed) == PayloadBits(data, n) + high;
    NumberExtended(PayloadBits(data, n), high, false);
  }

  ghost const PADDING := seq(128, p => false)

  lemma IntelWindow(spec: SignalSpec, data: Payload, dlc: Byte)
    requires spec.InRange() && spec.littleEndian
    ensures (PayloadBits(data, Usable(dlc)) + PADDING)[spec.startBit..spec.startBit + spec.bitLength]
         == spec.Window(data, dlc)
  {}

  /** Shift and mask are division and remainder, for every Intel window, also one that
      runs past the payload. */
  lemma IntelNumber(spec: SignalSpec, data: Payload, dlc: Byte)
    requires spec.InRange() && spec.littleEndian
    ensures Number(spec.Window(data, dlc))
         == LittleEndianSum(data, Usable(dlc)) / Pow2(spec.startBit) % Pow2(spec.bitLength)
  {
    var n := Usable(dlc);
    SumOfBytes(data, n);
    NumberExtended(PayloadBits(data, n), PADDING, false);
    NumberSlice(PayloadBits(data, n) + PADDING, spec.startBit, spec.bitLength);
    IntelWindow(spec, data, dlc);
  }

  ghost predicate Representable(spec: SignalSpec, value: int)
    requires spec.InRange()
  {
    if spec.isSigned || spec.bitLength == 64 then
      -(Pow2(spec.bitLength - 1) as int) <= value < Pow2(spec.bitLength - 1)
    else
      0 <= value < Pow2(spec.bitLength)
  }

  /** The raw value is the window's number or that number less 2^L, as the top bit says,
      so it lies in the signal's range. */
  lemma RawRange(spec: SignalSpec, data: Payload, dlc: Byte)
    requires spec.Complete(dlc)
    ensures var raw, bits := spec.RawValue(data, dlc), spec.Window(data, dlc);
            && Representable(spec, raw)
            && raw == Number(bits) - (if raw < 0 then Pow2(spec.bitLength) else 0)
            && (raw < 0 <==> (spec.isSigned || spec.bitLength == 64) && bits[spec.bitLength - 1])
  {
    var bits := spec.Window(data, dlc);
    assert |bits| == spec.bitLength;
    NumberBound(bits);
    TopBit(bits);
  }

  /** A signal that fills the word is read as signed whatever is_signed says. */
  lemma SignednessIrrelevant(spec: SignalSpec, data: Payload, dlc: Byte)
    requires spec.InRange() && spec.bitLength == 64
    ensures spec.RawValue(data, dlc) == spec.(isSigned := !spec.isSigned).RawValue(data, dlc)
  {
    hide PayloadBit, Sawtooth, Number, Pow2;
    assert spec.Window(data, dlc) == spec.(isSigned := !spec.isSigned).Window(data, dlc);
  }

  // ---------- locality ----------

  lemma CompleteWindow(spec: SignalSpec, data: Payload, dlc: Byte)
    requires spec.Complete(dlc)
    ensures |spec.Window(data, dlc)| == spec.bitLength
    ensures forall j :: 0 <= j < spec.bitLength ==>
      spec.Window(data, dlc)[j] == PayloadBit(data, spec.Position(spec.bitLength, j))
  {
    hide PayloadBit, Sawtooth;
    forall j | 0 <= j < spec.bitLength
      ensures spec.Position(spec.bitLength, j) < 8 * Usable(dlc)
    {
      SawtoothBelow(spec.FirstBit() + spec.bitLength - 1 - j, Usable(dlc));
    }
  }

  /** Only the window's bits matter, not the rest of the payload and not dlc. */
  lemma Locality(spec: SignalSpec, a: Payload, dlcA: Byte, b: Payload, dlcB: Byte)
    requires spec.Complete(dlcA) && spec.Complete(dlcB)
    requires forall j :: 0 <= j < spec.bitLength ==>
      PayloadBit(a, spec.Position(spec.bitLength, j)) == PayloadBit(b, spec.Position(spec.bitLength, j))
    ensures spec.RawValue(a, dlcA) == spec.RawValue(b, dlcB)
  {
    CompleteWindow(spec, a, dlcA);
    CompleteWindow(spec, b, dlcB);
    assert spec.Window(a, dlcA) == spec.Window(b, dlcB);
  }

  // ---------- byte-order duality ----------

  /** The payload with its first `n` bytes in the opposite order. */
  ghost function Mirror(data: Payload, n: nat): (mirrored: Payload)
    requires n <= 8
  {
    seq(8, i requires 0 <= i < 8 => if i < n then data[n - 1 - i] else data[i])
  }

  lemma MirrorBit(data: Payload, n: nat, q: nat)
    requires n <= 8 && q < 8 * n
    ensures PayloadBit(Mirror(data, n), 8 * n - 1 - q) == PayloadBit(data, Sawtooth(q))
  {
    assert (8 * n - 1 - q) / 8 == n - 1 - q / 8 && (8 * n - 1 - q) % 8 == 7 - q % 8;
  }

  /** The same window in the other byte order, over `n` mirrored bytes. */
  ghost function Dual(spec: SignalSpec, n: nat): SignalSpec
    requires spec.InRange()
  {
    if spec.littleEndian then
      spec.(littleEndian := false,
            startBit := if spec.startBit + spec.bitLength <= 8 * n
                        then Sawtooth(8 * n - spec.startBit - spec.bitLength) else 0)
    else
      spec.(littleEndian := true, startBit := 8 * n - spec.FirstBit() - spec.bitLength)
  }

  lemma DualOfDual(spec: SignalSpec, dlc: Byte)
    requires spec.Complete(dlc)
    ensures Dual(spec, Usable(dlc)).Complete(dlc) && Dual(Dual(spec, Usable(dlc)), Usable(dlc)) == spec
  {
    if spec.littleEndian {
      SawtoothStep(8 * Usable(dlc) - spec.startBit - spec.bitLength);
    } else {
      SawtoothStep(spec.startBit);
    }
  }

  lemma MirrorOfMirror(data: Payload, n: nat)
    requires n <= 8
    ensures Mirror(Mirror(data, n), n) == data
  {}

  lemma DualWindow(spec: SignalSpec, data: Payload, dlc: Byte)
    requires spec.Complete(dlc) && !spec.littleEndian
    ensures Dual(spec, Usable(dlc)).Complete(dlc)
    ensures Dual(spec, Usable(dlc)).Window(Mirror(data, Usable(dlc)), dlc) == spec.Window(data, dlc)
  {
    hide PayloadBit, Mirror, SignalSpec.Window;
    var n := Usable(dlc);
    var dual, mirrored := Dual(spec, n), Mirror(data, n);
    DualOfDual(spec, dlc);
    CompleteWindow(spec, data, dlc);
    CompleteWindow(dual, mirrored, dlc);
    forall j | 0 <= j < spec.bitLength
      ensures PayloadBit(mirrored, dual.Position(spec.bitLength, j))
           == PayloadBit(data, spec.Position(spec.bitLength, j))
    {
      MirrorBit(data, n, spec.FirstBit() + spec.bitLength - 1 - j);
    }
    assert dual.Window(mirrored, dlc) == spec.Window(data, dlc);
  }

  /** Decoding a complete window equals decoding its dual on the mirrored bytes, from
      either byte order; mirroring twice and taking the dual twice change nothing. */
  lemma Duality(spec: SignalSpec, data: Payload, dlc: Byte)
    requires spec.Complete(dlc)
    ensures var n := Usable(dlc); var dual := Dual(spec, n);
            && dual.Complete(dlc)
            && Dual(dual, n) == spec
            && Mirror(Mirror(data, n), n) == data
            && dual.RawValue(Mirror(data, n), dlc) == spec.RawValue(data, dlc)
  {
    DualOfDual(spec, dlc);
    MirrorOfMirror(data, Usable(dlc));
    if spec.littleEndian {
      DualWindow(Dual(spec, Usable(dlc)), Mirror(data, Usable(dlc)), dlc);
    } else {
      DualWindow(spec, data, dlc);
    }
  }

  lemma CompleteMotorolaNumber(spec: SignalSpec, data: Payload, dlc: Byte)
    requires spec.Complete(dlc) && !spec.littleEndian
    ensures Number(spec.Window(data, dlc))
         == LittleEndianSum(Mirror(data, Usable(dlc)), Usable(dlc))
              / Pow2(8 * Usable(dlc) - spec.FirstBit() - spec.bitLength)
              % Pow2(spec.bitLength)
  {
    hide LittleEndianSum, PayloadBit, Mirror, Number, Pow2, SignalSpec.Window;
    DualWindow(spec, data, dlc);
    IntelNumber(Dual(spec, Usable(dlc)), Mirror(data, Usable(dlc)), dlc);
  }

  lemma ReachedWindow(spec: SignalSpec, data: Payload, dlc: Byte)
    requires spec.InRange() && !spec.littleEndian && 0 < spec.Reach(dlc)
    ensures var reached := spec.(bitLength := spec.Reach(dlc));
            && reached.Complete(dlc) && reached.Reach(dlc) == spec.Reach(dlc)
            && reached.Window(data, dlc) == spec.Window(data, dlc)
  {
    hide PayloadBit, Sawtooth;
  }

  /** The Motorola accumulator is the big-endian number of the usable bytes, shifted and
      masked to the bits the walk reaches, also when it breaks off early. */
  lemma MotorolaNumber(spec: SignalSpec, data: Payload, dlc: Byte)
    requires spec.InRange() && !spec.littleEndian
    ensures var n, reach := Usable(dlc), spec.Reach(dlc);
            Number(spec.Window(data, dlc)) ==
              if reach == 0 then 0
              else LittleEndianSum(Mirror(data, n), n) / Pow2(8 * n - spec.FirstBit() - reach) % Pow2(reach)
  {
    if spec.Reach(dlc) != 0 {
      ReachedWindow(spec, data, dlc);
      hide LittleEndianSum, Mirror, Number, Pow2, SignalSpec.Window, SignalSpec.Complete;
      CompleteMotorolaNumber(spec.(bitLength := spec.Reach(dlc)), data, dlc);
    }
  }

  // ---------- round trip ----------

  /** Index of payload position `p` in the window; inside when 0 <= index < bitLength. */
  ghost function WindowIndex(spec: SignalSpec, p: nat): int
    requires spec.InRange()
  {
    if spec.littleEndian then p - spec.startBit
    else spec.FirstBit() + spec.bitLength - 1 - Sawtooth(p)
  }

  ghost predicate InWindow(spec: SignalSpec, p: nat)
    requires spec.InRange()
  {
    0 <= WindowIndex(spec, p) < spec.bitLength
  }

  lemma IndexOfPosition(spec: SignalSpec, j: nat)
    requires spec.InRange() && j < spec.bitLength
    ensures WindowIndex(spec, spec.Position(spec.bitLength, j)) == j
  {
    if !spec.littleEndian {
      SawtoothStep(spec.FirstBit() + spec.bitLength - 1 - j);
    }
  }

  lemma PositionOfIndex(spec: SignalSpec, p: nat)
    requires spec.InRange() && InWindow(spec, p)
    ensures spec.Position(spec.bitLength, WindowIndex(spec, p)) == p
  {
    if !spec.littleEndian {
      SawtoothStep(p);
    }
  }

  ghost predicate EncodedBit(spec: SignalSpec, data: Payload, value: int, p: nat)
    requires spec.InRange() && p < 64
  {
    if InWindow(spec, p)
    then Digits(value % Pow2(spec.bitLength), spec.bitLength)[WindowIndex(spec, p)]
    else PayloadBit(data, p)
  }

  ghost function EncodedBits(spec: SignalSpec, data: Payload, value: int, i: nat): (bits: seq<bool>)
    requires spec.InRange() && i < 8
    ensures |bits| == 8
  {
    seq(8, k requires 0 <= k < 8 => EncodedBit(spec, data, value, 8 * i + k))
  }

  ghost function ByteOf(bits: seq<bool>): (b: Byte)
    requires |bits| == 8
    ensures forall k :: 0 <= k < 8 ==> Bits(b)[k] == bits[k]
  {
    NumberBound(bits);
    Pow2Eight();
    DigitsOfNumber(bits);
    HighDigits(Number(bits), 8, 64);
    Number(bits)
  }

  /** The payload with `value` written into the window, every other bit left alone. */
  ghost function Encode(spec: SignalSpec, data: Payload, value: int): Payload
    requires spec.InRange()
  {
    seq(8, i requires 0 <= i < 8 => ByteOf(EncodedBits(spec, data, value, i)))
  }

  lemma EncodeBit(spec: SignalSpec, data: Payload, value: int, p: nat)
    requires spec.InRange() && p < 64
    ensures PayloadBit(Encode(spec, data, value), p) == EncodedBit(spec, data, value, p)
  {
    var i, k := p / 8, p % 8;
    assert p == 8 * i + k;
    assert Encode(spec, data, value)[i] == ByteOf(EncodedBits(spec, data, value, i));
    assert EncodedBits(spec, data, value, i)[k] == EncodedBit(spec, data, value, 8 * i + k);
  }

  lemma OutsideBit(spec: SignalSpec, data: Payload, value: int, p: nat)
    requires spec.InRange() && p < 64 && !InWindow(spec, p)
    ensures PayloadBit(Encode(spec, data, value), p) == PayloadBit(data, p)
  {
    EncodeBit(spec, data, value, p);
  }

  lemma EncodedWindow(spec: SignalSpec, data: Payload, dlc: Byte, value: int)
    requires spec.Complete(dlc)
    ensures spec.Window(Encode(spec, data, value), dlc) == Digits(value % Pow2(spec.bitLength), spec.bitLength)
  {
    var l := spec.bitLength;
    var bits := Digits(value % Pow2(l), l);
    var written := Encode(spec, data, value);
    CompleteWindow(spec, written, dlc);
    forall j | 0 <= j < l
      ensures spec.Window(written, dlc)[j] == bits[j]
    {
      IndexOfPosition(spec, j);
      EncodeBit(spec, data, value, spec.Position(l, j));
    }
  }

  lemma ResidueOfSigned(n: int, m: int, value: int)
    requires 0 <= n < m && (value == n || value == n - m)
    ensures value % m == n
  {
    QuotientRemainder(n, n, 0, m);
    AddModulus(n - m, m);
  }

  lemma SignedResidue(value: int, l: nat)
    requires -(Pow2(l) as int) <= value < Pow2(l)
    ensures value % Pow2(l) == if value < 0 then value + Pow2(l) else value
  {
    ResidueOfSigned(if value < 0 then value + Pow2(l) else value, Pow2(l), value);
  }

  lemma TwosComplement(spec: SignalSpec, value: int)
    requires spec.InRange() && Representable(spec, value)
    ensures var bits := Digits(value % Pow2(spec.bitLength), spec.bitLength);
            Number(bits) - (if spec.Negative(bits) then Pow2(spec.bitLength) else 0) == value
  {
    var l := spec.bitLength;
    var bits := Digits(value % Pow2(l), l);
    NumberOfDigits(value % Pow2(l), l);
    TopBit(bits);
    hide Digits, Number, Pow2;
    SignedResidue(value, l);
  }

  /** Decoding an encoded value returns it, and no bit outside the window has changed. */
  lemma RoundTrip(spec: SignalSpec, data: Payload, dlc: Byte, value: int)
    requires spec.Complete(dlc) && Representable(spec, value)
    ensures spec.RawValue(Encode(spec, data, value), dlc) == value
    ensures forall p :: 0 <= p < 64 && !InWindow(spec, p) ==>
      PayloadBit(Encode(spec, data, value), p) == PayloadBit(data, p)
  {
    hide Encode, EncodedBit, Digits, Number, Pow2, Representable, InWindow, PayloadBit;
    EncodedWindow(spec, data, dlc, value);
    TwosComplement(spec, value);
    forall p | 0 <= p < 64 && !InWindow(spec, p)
      ensures PayloadBit(Encode(spec, data, value), p) == PayloadBit(data, p)
    {
      OutsideBit(spec, data, value, p);
    }
  }

  lemma RestoreBit(spec: SignalSpec, data: Payload, dlc: Byte, value: int, p: nat)
    requires spec.Complete(dlc) && p < 64
    requires Digits(value % Pow2(spec.bitLength), spec.bitLength) == spec.Window(data, dlc)
    ensures PayloadBit(Encode(spec, data, value), p) == PayloadBit(data, p)
  {
    EncodeBit(spec, data, value, p);
    if InWindow(spec, p) {
      PositionOfIndex(spec, p);
      CompleteWindow(spec, data, dlc);
    }
  }

  lemma SamePayload(a: Payload, b: Payload)
    requires forall p :: 0 <= p < 64 ==> PayloadBit(a, p) == PayloadBit(b, p)
    ensures a == b
  {
    forall i | 0 <= i < 8
      ensures a[i] == b[i]
    {
      ByteBits(a[i]);
      ByteBits(b[i]);
      forall k | 0 <= k < 8
        ensures Bits(a[i])[k] == Bits(b[i])[k]
      {
        assert (8 * i + k) / 8 == i && (8 * i + k) % 8 == k;
        assert PayloadBit(a, 8 * i + k) == PayloadBit(b, 8 * i + k);
      }
      assert Bits(a[i]) == Bits(b[i]);
      WordOfBits(a[i]);
      WordOfBits(b[i]);
    }
  }

  /** Re-encoding a decoded value restores the payload, bit for bit. */
  lemma Restore(spec: SignalSpec, data: Payload, dlc: Byte)
    requires spec.Complete(dlc)
    ensures Encode(spec, data, spec.RawValue(data, dlc)) == data
  {
    var bits := spec.Window(data, dlc);
    var raw := spec.RawValue(data, dlc);
    NumberBound(bits);
    ResidueOfSigned(Number(bits), Pow2(spec.bitLength), raw);
    DigitsOfNumber(bits);
    forall p | 0 <= p < 64
      ensures PayloadBit(Encode(spec, data, raw), p) == PayloadBit(data, p)
    {
      RestoreBit(spec, data, dlc, raw, p);
    }
    SamePayload(Encode(spec, data, raw), data);
  }
}
