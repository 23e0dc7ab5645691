/** decode.rs: instruction fields and immediates of 32-bit RISC-V instruction words. */
module Decode {
  import opened Arithmetic
  import opened Bits
  import opened FlatMemory

  /** `x as i32`, and `i as u32`. */
  function ToSigned(x: u32): int { if x >= 0x8000_0000 then x - 0x1_0000_0000 else x }

  function ToUnsigned(i: int): u32 { i % 0x1_0000_0000 }

  lemma SignedRoundTrip(x: u32)
    ensures ToUnsigned(ToSigned(x)) == x
    ensures -0x8000_0000 <= ToSigned(x) < 0x8000_0000
  {
    if x >= 0x8000_0000 { DivModUnique(ToSigned(x), 0x1_0000_0000, -1, x); }
  }

  /** Register numbers. */
  type Reg = r: nat | r < 32

  function Opcode(insn: u32): nat { insn % 128 }
  function Rd(insn: u32): Reg { insn / 0x80 % 32 }
  function Funct3(insn: u32): nat { insn / 0x1000 % 8 }
  function Rs1(insn: u32): Reg { insn / 0x8000 % 32 }
  function Rs2(insn: u32): Reg { insn / 0x10_0000 % 32 }
  function Funct7(insn: u32): nat { insn / 0x200_0000 }

  /** The low twelve bits of the I-type immediate. */
  function Imm12(insn: u32): nat { insn / 0x10_0000 }

  /** The six fields make up the word, each in its place and within its width. */
  lemma FieldLayout(insn: u32)
    ensures insn == Opcode(insn) + 0x80 * Rd(insn) + 0x1000 * Funct3(insn) + 0x8000 * Rs1(insn)
      + 0x10_0000 * Rs2(insn) + 0x200_0000 * Funct7(insn)
    ensures Opcode(insn) < 128 && Funct3(insn) < 8 && Funct7(insn) < 128
    ensures Rd(insn) < 32 && Rs1(insn) < 32 && Rs2(insn) < 32
  {
    var a, b, c, d, e := insn / 0x80, insn / 0x1000, insn / 0x8000, insn / 0x10_0000, insn / 0x200_0000;
    assert b == a / 32 && c == b / 8 && d == c / 32 && e == d / 32;
  }

  /** The I-type immediate as twelve bits, and the U-type one: the fields they are made of. */
  lemma ImmediateFields(insn: u32)
    ensures Imm12(insn) == 32 * Funct7(insn) + Rs2(insn) && Imm12(insn) == ImmI(insn) % 0x1000
    ensures ImmU(insn) % 0x1000 == 0 && ImmU(insn) <= insn < ImmU(insn) + 0x1000
  {
    var d := insn / 0x10_0000;
    assert insn / 0x200_0000 == d / 32;
    ImmIMeaning(insn);
    SignedRoundTrip(ImmI(insn));
    LowTwelve(insn, d);
  }

  lemma LowTwelve(insn: u32, d: nat)
    requires d == insn / 0x10_0000 && ToSigned(ImmI(insn)) == SignPart(insn, 2048) + d % 2048
    ensures ImmI(insn) % 0x1000 == d
  {
    var v := ToSigned(ImmI(insn));
    if insn >= 0x8000_0000 {
      assert d >= 2048 && d % 2048 == d - 2048;
      DivModUnique(v, 0x1_0000_0000, -1, v + 0x1_0000_0000);
      assert ImmI(insn) == v + 0x1_0000_0000;
      DivModUnique(ImmI(insn), 0x1000, 0xF_FFFF, d);
    } else {
      assert d < 2048;
      SmallMod(d, 0x1000);
    }
  }

  /** Arithmetic right shift of the instruction word. */
  function SignedShift(insn: u32, place: nat): u32
    requires place > 0
  {
    ToUnsigned(ToSigned(insn) / place)
  }

  function ImmI(insn: u32): u32 { SignedShift(insn, 0x10_0000) }

  function ImmS(insn: u32): u32 {
    Bits.Widths();
    Or(32, Shl(32, SignedShift(insn, 0x200_0000), 5), insn / 0x80 % 32)
  }

  function ImmB(insn: u32): u32 {
    Bits.Widths();
    Or(32, Or(32, Or(32,
      Shl(32, SignedShift(insn, 0x8000_0000), 12),
      Shl(32, insn / 0x80 % 2, 11)),
      Shl(32, insn / 0x200_0000 % 64, 5)),
      Shl(32, insn / 0x100 % 16, 1))
  }

  function ImmU(insn: u32): u32 { insn / 0x1000 * 0x1000 }

  function ImmJ(insn: u32): u32 {
    Bits.Widths();
    Or(32, Or(32, Or(32,
      Shl(32, SignedShift(insn, 0x8000_0000), 20),
      Shl(32, insn / 0x1000 % 256, 12)),
      Shl(32, insn / 0x10_0000 % 2, 11)),
      Shl(32, insn / 0x20_0000 % 1024, 1))
  }

  /** What the sign bit contributes. */
  function SignPart(insn: u32, weight: nat): int { if insn >= 0x8000_0000 then -(weight as int) else 0 }

  /** I-type: the top twelve bits, sign-extended. */
  lemma ImmIMeaning(insn: u32)
    ensures ToSigned(ImmI(insn)) == SignPart(insn, 2048) + insn / 0x10_0000 % 2048
  {
    var v := ToSigned(insn) / 0x10_0000;
    if insn >= 0x8000_0000 {
      assert v == insn / 0x10_0000 - 0x1000;
      DivModUnique(v, 0x1_0000_0000, -1, v + 0x1_0000_0000);
    }
  }

  /** Shifting the sign of the word left by k leaves a multiple of 2^k, negative as a signed number. */
  lemma ShiftedSign(insn: u32, k: nat, place: nat)
    requires k < 31 && Pow2(k) == place < 0x8000_0000
    ensures var v := Shl(32, SignedShift(insn, 0x8000_0000), k);
      v % Pow2(k) == 0 && v == if insn >= 0x8000_0000 then 0x1_0000_0000 - place else 0
  {
    hide Pow;
    Bits.Widths();
    PowAdd(2, k, 32 - k);
    PowPositive(2, 32 - k);
    if insn >= 0x8000_0000 {
      assert ToSigned(insn) / 0x8000_0000 == -1;
      assert SignedShift(insn, 0x8000_0000) == 0xFFFF_FFFF;
      OnesShifted(place, Pow2(32 - k));
    } else {
      assert ToSigned(insn) / 0x8000_0000 == 0;
    }
  }

  lemma OnesShifted(place: nat, rest: nat)
    requires 0 < place < 0x8000_0000 && place * rest == 0x1_0000_0000
    ensures (0xFFFF_FFFF * place) % 0x1_0000_0000 == 0x1_0000_0000 - place
    ensures (0x1_0000_0000 - place) % place == 0
  {
    DivModUnique(0xFFFF_FFFF * place, 0x1_0000_0000, place - 1, 0x1_0000_0000 - place);
    assert (rest - 1) * place == place * rest - place;
    CongZero(0x1_0000_0000 - place, rest - 1, place);
  }

  /** Joining a field below what is already there. */
  lemma JoinField(x: u32, field: nat, k: nat, width: nat, place: nat)
    requires k < 32 && k + width <= 32 && Pow2(k) == place && field < Pow2(width)
    requires x % Pow2(k + width) == 0
    ensures var v := Or(32, x, Shl(32, field, k)); v == x + field * place && v < 0x1_0000_0000 && v % Pow2(k) == 0
  {
    hide Pow;
    hide Or;
    Bits.Widths();
    PowAdd(2, k, width);
    PowAdd(2, k + width, 32 - k - width);
    PowPositive(2, 32 - k - width);
    PowPositive(2, k);
    FieldFits(field, place, Pow2(width), Pow2(32 - k - width));
    SmallMod(field * place, 0x1_0000_0000);
    OrDisjoint(32, x, field * place, k + width);
    FieldMultiple(x, place, Pow2(width), field);
  }

  lemma FieldFits(field: nat, place: nat, w: nat, rest: nat)
    requires field < w && place >= 1 && rest >= 1
    ensures field * place < place * w && field * place < (place * w) * rest
  {
    assert (field + 1) * place <= w * place;
    BelowProduct(field * place, place * w, rest);
  }

  lemma BelowProduct(v: nat, t: nat, c: nat)
    requires v < t && c >= 1
    ensures v < t * c
  {
    assert t * c >= t * 1;
  }

  lemma FieldMultiple(x: nat, p: nat, w: nat, f: nat)
    requires p > 0 && w > 0 && p * w > 0 && x % (p * w) == 0
    ensures (x + f * p) % p == 0
  {
    var c := x / (p * w);
    assert x == (p * w) * c;
    assert (p * w) * c + f * p == (c * w + f) * p;
    CongZero(x + f * p, c * w + f, p);
  }

  /** S-type: seven bits and five bits, sign-extended. */
  lemma ImmSMeaning(insn: u32)
    ensures ToSigned(ImmS(insn)) == SignPart(insn, 2048) + 32 * (insn / 0x200_0000 % 64) + insn / 0x80 % 32
  {
    hide Or;
    hide Shl;
    hide Pow;
    Bits.Widths();
    Bits.Pow2Values();
    var field := insn / 0x200_0000 % 64;
    var v := ToSigned(insn) / 0x200_0000;
    var upper := ShiftedField(insn);
    OrDisjoint(32, upper, insn / 0x80 % 32, 5);
  }

  /** The sign-extended top seven bits, shifted left by five. */
  lemma ShiftedField(insn: u32) returns (upper: nat)
    ensures upper == Shl(32, SignedShift(insn, 0x200_0000), 5) && upper < 0x1_0000_0000 && upper % Pow2(5) == 0
    ensures upper == 32 * (insn / 0x200_0000 % 64) + if insn >= 0x8000_0000 then 0x1_0000_0000 - 2048 else 0
  {
    Bits.Widths();
    Bits.Pow2Values();
    hide Pow;
    var top, low := insn / 0x200_0000, insn % 0x200_0000;
    var field := if insn >= 0x8000_0000 then top - 64 else top;
    DivModUnique(top, 64, if insn >= 0x8000_0000 then 1 else 0, field);
    upper := Shl(32, SignedShift(insn, 0x200_0000), 5);
    if insn >= 0x8000_0000 {
      DivModUnique(ToSigned(insn), 0x200_0000, field - 64, low);
      DivModUnique(field - 64, 0x1_0000_0000, -1, field - 64 + 0x1_0000_0000);
      DivModUnique((field - 64 + 0x1_0000_0000) * 32, 0x1_0000_0000, 31, 32 * field + 0x1_0000_0000 - 2048);
      DivModUnique(upper, 32, field + 0x800_0000 - 64, 0);
    } else {
      SmallMod(field, 0x1_0000_0000);
      SmallMod(32 * field, 0x1_0000_0000);
      DivModUnique(upper, 32, field, 0);
    }
  }

  /** B-type: an even offset between -4096 and 4094. */
  lemma ImmBMeaning(insn: u32)
    ensures ImmB(insn) % 2 == 0
    ensures ToSigned(ImmB(insn)) ==
      SignPart(insn, 4096) + 2048 * (insn / 0x80 % 2) + 32 * (insn / 0x200_0000 % 64) + 2 * (insn / 0x100 % 16)
  {
    hide Or;
    hide Shl;
    hide Pow;
    Bits.Pow2Values();
    Bits.MiddlePowers();
    var sign := Shl(32, SignedShift(insn, 0x8000_0000), 12);
    ShiftedSign(insn, 12, 0x1000);
    JoinField(sign, insn / 0x80 % 2, 11, 1, 0x800);
    var two := Or(32, sign, Shl(32, insn / 0x80 % 2, 11));
    JoinField(two, insn / 0x200_0000 % 64, 5, 6, 32);
    var three := Or(32, two, Shl(32, insn / 0x200_0000 % 64, 5));
    JoinField(three, insn / 0x100 % 16, 1, 4, 2);
  }

  /** J-type: an even offset between -1048576 and 1048574. */
  lemma ImmJMeaning(insn: u32)
    ensures ImmJ(insn) % 2 == 0
    ensures ToSigned(ImmJ(insn)) ==
      SignPart(insn, 0x10_0000) + 0x1000 * (insn / 0x1000 % 256) + 0x800 * (insn / 0x10_0000 % 2)
      + 2 * (insn / 0x20_0000 % 1024)
  {
    hide Or;
    hide Shl;
    hide Pow;
    Bits.Pow2Values();
    Bits.MiddlePowers();
    var sign := Shl(32, SignedShift(insn, 0x8000_0000), 20);
    ShiftedSign(insn, 20, 0x10_0000);
    JoinField(sign, insn / 0x1000 % 256, 12, 8, 0x1000);
    var two := Or(32, sign, Shl(32, insn / 0x1000 % 256, 12));
    JoinField(two, insn / 0x10_0000 % 2, 11, 1, 0x800);
    var three := Or(32, two, Shl(32, insn / 0x10_0000 % 2, 11));
    JoinField(three, insn / 0x20_0000 % 1024, 1, 10, 2);
  }
}
