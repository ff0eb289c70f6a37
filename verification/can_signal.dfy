/**
  A DBC-style signal inside a CAN frame: which payload bits make up its window, what
  number they denote, and the decoder's two loops proved to compute that number.
*/
module CanSignal {
  import opened BitWords

  type Byte = u: int | 0 <= u < 256

  /** A can_frame always carries eight data bytes; dlc says how many are meaningful. */
  type Payload = data: seq<Byte> | |data| == 8 witness [0, 0, 0, 0, 0, 0, 0, 0]

  function Usable(dlc: Byte): (n: nat)
    // the smaller of dlc and 8
    ensures n <= dlc && n <= 8 && (n == dlc || n == 8)
  {
    if dlc < 8 then dlc else 8
  }

  /** Bit `p` of a payload: byte p / 8, bit p % 8 of that byte. */
  ghost predicate PayloadBit(data: Payload, p: nat)
    requires p < 64
  {
    Bits(data[p / 8])[p % 8]
  }

  /** Between bit positions and network order (most significant bit of each byte first).
      It is its own inverse. */
  function Sawtooth(p: nat): (q: nat)
    ensures q / 8 == p / 8 && q % 8 == 7 - p % 8
    ensures q < 64 <==> p < 64
  {
    8 * (p / 8) + 7 - p % 8
  }

  datatype SignalSpec = SignalSpec(
    enabled: bool,
    canId: bv32,
    startBit: int,
    bitLength: int,
    littleEndian: bool,
    isSigned: bool,
    scale: real,
    offset: real)
  {
    /** The ranges the parameters are declared with. */
    ghost predicate InRange() {
      1 <= bitLength <= 64 && 0 <= startBit <= 63
    }

    /** Network-order number of a Motorola signal's first (most significant) bit. */
    function FirstBit(): nat
      requires 0 <= startBit
    {
      Sawtooth(startBit)
    }

    predicate FitsIn(dlc: Byte) {
      if bitLength < 1 || bitLength > 64 || startBit < 0 || startBit > 63 then
        false
      else
        var available := Usable(dlc) * 8;
        if littleEndian then
          startBit + bitLength <= available
        else
          var startByte := startBit / 8;
          var neededBytes := startByte + (bitLength + 7) / 8;
          neededBytes * 8 <= available + 7 && startByte * 8 < available
    }

    /** The affine scaling that decode and process apply to a raw value. */
    function Scaled(raw: int): real {
      raw as real * scale + offset
    }

    /** The whole window lies in the bytes the frame really has. */
    ghost predicate Complete(dlc: Byte) {
      && InRange()
      && (if littleEndian then startBit else FirstBit()) + bitLength <= 8 * Usable(dlc)
    }

    /** How many window bits a walk over the usable bytes meets. */
    ghost function Reach(dlc: Byte): nat
      requires InRange()
    {
      if littleEndian || FirstBit() + bitLength <= 8 * Usable(dlc) then bitLength
      else if FirstBit() < 8 * Usable(dlc) then 8 * Usable(dlc) - FirstBit()
      else 0
    }

    /** Payload position of the window's j-th bit, counted from the least significant one
        of the `reach` bits that are read. */
    ghost function Position(reach: nat, j: nat): nat
      requires 0 <= startBit && j < reach
    {
      if littleEndian then startBit + j else Sawtooth(FirstBit() + reach - 1 - j)
    }

    /** The bits read from the window, least significant first; bits of an Intel window
        past the usable bytes read as zero. */
    ghost function Window(data: Payload, dlc: Byte): (bits: seq<bool>)
      requires InRange()
      ensures |bits| == Reach(dlc)
    {
      var reach := Reach(dlc);
      seq(reach, j requires 0 <= j < reach =>
        var p := Position(reach, j);
        p < 8 * Usable(dlc) && PayloadBit(data, p))
    }

    /** The raw value: the window's number, in two's complement when the signal is signed
        or fills the word, provided the walk reached the sign bit. */
    ghost function RawValue(data: Payload, dlc: Byte): int
      requires InRange()
    {
      var bits := Window(data, dlc);
      Number(bits) - if Negative(bits) then Pow2(bitLength) else 0
    }

    ghost predicate Negative(bits: seq<bool>) {
      (isSigned || bitLength == 64) && 1 <= |bits| == bitLength && bits[bitLength - 1]
    }
  }

  lemma SawtoothStep(q: nat)
    ensures Sawtooth(q + 1) == if Sawtooth(q) % 8 == 0 then Sawtooth(q) + 15 else Sawtooth(q) - 1
    ensures Sawtooth(Sawtooth(q)) == q
  {}

  lemma SawtoothBelow(q: nat, n: nat)
    ensures Sawtooth(q) < 8 * n <==> q < 8 * n
    ensures Sawtooth(q) / 8 < n <==> q < 8 * n
  {}

  /** `w` holds exactly `bits`, with zeros above. */
  ghost predicate Holds(w: Word, bits: seq<bool>)
    requires |bits| <= 64
  {
    forall j :: 0 <= j < 64 ==> Bits(w)[j] == (j < |bits| && bits[j])
  }

  lemma ByteBits(b: Byte)
    ensures forall j :: 8 <= j < 64 ==> !Bits(b)[j]
  {
    Pow2Eight();
    HighDigits(b, 8, 64);
  }

  // ---------- the Intel path ----------

  /** Bits `p < 8 * n` are the payload's; the rest are zero. */
  ghost predicate Packs(packed: Word, data: Payload, n: nat) {
    forall p :: 0 <= p < 64 ==> Bits(packed)[p] == (p < 8 * n && PayloadBit(data, p))
  }

  lemma PackStep(packed: Word, data: Payload, i: nat)
    requires i < 8 && Packs(packed, data, i)
    ensures Packs(Or(packed, Shl(data[i], 8 * i)), data, i + 1)
  {
    var shifted := Shl(data[i], 8 * i);
    ByteBits(data[i]);
    forall p | 0 <= p < 64
      ensures Bits(shifted)[p] == (8 * i <= p < 8 * i + 8 && PayloadBit(data, p))
    {
      assert 8 * i <= p < 8 * i + 8 ==> p / 8 == i && p % 8 == p - 8 * i;
    }
  }

  method PackBytes(data: Payload, usable: nat) returns (packed: Word)
    requires usable <= 8
    ensures Packs(packed, data, usable)
  {
    packed := 0;
    ZeroBits();
    for i := 0 to usable
      invariant Packs(packed, data, i)
    {
      PackStep(packed, data, i);
      packed := Or(packed, Shl(data[i], 8 * i));
    }
  }

  lemma ShiftAndMask(spec: SignalSpec, data: Payload, dlc: Byte, packed: Word, mask: Word)
    requires spec.InRange() && spec.littleEndian && Packs(packed, data, Usable(dlc))
    requires forall j :: 0 <= j < 64 ==> Bits(mask)[j] == (j < spec.bitLength)
    ensures Holds(And(Shr(packed, spec.startBit), mask), spec.Window(data, dlc))
  {
    hide PayloadBit;
    forall j | 0 <= j < 64
      ensures Bits(And(Shr(packed, spec.startBit), mask))[j]
           == (j < spec.bitLength && spec.Window(data, dlc)[j])
    {
      var p: nat := spec.startBit + j;
      assert j < spec.bitLength ==> spec.Window(data, dlc)[j] == (p < 8 * Usable(dlc) && PayloadBit(data, p));
    }
  }

  method DecodeIntel(spec: SignalSpec, data: Payload, dlc: Byte) returns (value: Word)
    requires spec.InRange() && spec.littleEndian
    ensures Holds(value, spec.Window(data, dlc))
  {
    var packed := PackBytes(data, Usable(dlc));
    ZeroBits();
    var mask := if spec.bitLength == 64 then Not(0) else LowMask(spec.bitLength);
    ShiftAndMask(spec, data, dlc, packed, mask);
    value := And(Shr(packed, spec.startBit), mask);
  }

  // ---------- the Motorola path ----------

  /** The first `n` bits of the walk, least significant first. */
  ghost function Walked(spec: SignalSpec, data: Payload, n: nat): (bits: seq<bool>)
    requires 0 <= spec.startBit && spec.FirstBit() + n <= 64
    ensures |bits| == n
  {
    seq(n, j requires 0 <= j < n => PayloadBit(data, Sawtooth(spec.FirstBit() + n - 1 - j)))
  }

  /** Bit j of a Motorola window, in network order. */
  lemma MotorolaBit(spec: SignalSpec, data: Payload, dlc: Byte, j: nat)
    requires spec.InRange() && !spec.littleEndian && j < spec.Reach(dlc)
    ensures 0 <= spec.FirstBit() + spec.Reach(dlc) - 1 - j < 8 * Usable(dlc)
    ensures spec.Window(data, dlc)[j] == PayloadBit(data, Sawtooth(spec.FirstBit() + spec.Reach(dlc) - 1 - j))
  {
    hide PayloadBit, Sawtooth;
    SawtoothBelow(spec.FirstBit() + spec.Reach(dlc) - 1 - j, Usable(dlc));
  }

  lemma WalkedAll(spec: SignalSpec, data: Payload, dlc: Byte, n: nat)
    requires spec.InRange() && !spec.littleEndian && n <= spec.bitLength
    requires n > 0 ==> spec.FirstBit() + n <= 8 * Usable(dlc)
    requires n == spec.bitLength || 8 * Usable(dlc) <= spec.FirstBit() + n
    ensures spec.FirstBit() + n <= 64 && Walked(spec, data, n) == spec.Window(data, dlc)
  {
    hide PayloadBit, Sawtooth, SignalSpec.Window;
    assert n == spec.Reach(dlc);
    forall j | 0 <= j < n
      ensures Walked(spec, data, n)[j] == spec.Window(data, dlc)[j]
    {
      MotorolaBit(spec, data, dlc, j);
    }
  }

  method AppendBit(value: Word, data: Payload, bit: nat, ghost bits: seq<bool>) returns (next: Word)
    requires bit < 64 && |bits| < 64 && Holds(value, bits)
    ensures Holds(next, [PayloadBit(data, bit)] + bits)
  {
    OneBits();
    next := Or(Shl(value, 1), And(Shr(data[bit / 8], bit % 8), 1));
  }

  lemma WalkedStep(spec: SignalSpec, data: Payload, n: nat)
    requires 0 <= spec.startBit && spec.FirstBit() + n < 64
    ensures [PayloadBit(data, Sawtooth(spec.FirstBit() + n))] + Walked(spec, data, n) == Walked(spec, data, n + 1)
  {}

  /** One round of the walk: appends the bit it is at and moves to the next. */
  method ReadBit(spec: SignalSpec, data: Payload, value: Word, bit: nat, ghost i: nat)
    returns (next: Word, following: nat)
    requires spec.InRange() && spec.FirstBit() + i < 64 && bit == Sawtooth(spec.FirstBit() + i)
    requires Holds(value, Walked(spec, data, i))
    ensures Holds(next, Walked(spec, data, i + 1)) && following == Sawtooth(spec.FirstBit() + i + 1)
  {
    hide Holds, Walked, PayloadBit, Sawtooth, SignalSpec.FirstBit;
    next := AppendBit(value, data, bit, Walked(spec, data, i));
    WalkedStep(spec, data, i);
    SawtoothStep(spec.FirstBit() + i);
    following := if bit % 8 == 0 then bit + 15 else bit - 1;
  }

  method DecodeMotorola(spec: SignalSpec, data: Payload, dlc: Byte) returns (value: Word)
    requires spec.InRange() && !spec.littleEndian
    ensures Holds(value, spec.Window(data, dlc))
  {
    value := 0;
    ZeroBits();
    var bit := spec.startBit;
    var i := 0;
    SawtoothStep(spec.startBit);
    assert bit == Sawtooth(spec.FirstBit()) && spec.FirstBit() < 64 && Holds(value, Walked(spec, data, 0));
    hide Holds, Walked, PayloadBit, Sawtooth, SignalSpec.FirstBit, SignalSpec.Window, SignalSpec.Reach;
    while i < spec.bitLength
      invariant 0 <= i <= spec.bitLength && spec.FirstBit() + i <= 64
      invariant i > 0 ==> spec.FirstBit() + i <= 8 * Usable(dlc)
      invariant bit == Sawtooth(spec.FirstBit() + i)
      invariant Holds(value, Walked(spec, data, i))
      decreases spec.bitLength - i
    {
      SawtoothBelow(spec.FirstBit() + i, Usable(dlc));
      var byteIndex := bit / 8;
      if byteIndex >= Usable(dlc) || byteIndex < 0 {
        break;
      }
      value, bit := ReadBit(spec, data, value, bit, i);
      i := i + 1;
    }
    WalkedAll(spec, data, dlc, i);
  }

  // ---------- sign extension ----------

  method SignExtend(value: Word, spec: SignalSpec, ghost bits: seq<bool>) returns (extended: Word)
    requires spec.InRange() && |bits| <= spec.bitLength && Holds(value, bits)
    ensures ToSigned(extended) == Number(bits) - if spec.Negative(bits) then Pow2(spec.bitLength) else 0
  {
    extended := value;
    if spec.isSigned && spec.bitLength < 64 {
      TestBit(value, spec.bitLength - 1);
      if And(value, Shl(1, spec.bitLength - 1)) != 0 {
        extended := Or(value, Not(LowMask(spec.bitLength)));
      }
    }
    Extended(extended, bits, spec.Negative(bits));
  }

  /** SignalSpec::decodeRaw. */
  method DecodeRaw(spec: SignalSpec, data: Payload, dlc: Byte) returns (raw: int)
    requires spec.InRange()
    ensures raw == spec.RawValue(data, dlc)
  {
    var value: Word;
    if spec.littleEndian {
      value := DecodeIntel(spec, data, dlc);
    } else {
      value := DecodeMotorola(spec, data, dlc);
    }
    var extended := SignExtend(value, spec, spec.Window(data, dlc));
    raw := ToSigned(extended);
  }
}
