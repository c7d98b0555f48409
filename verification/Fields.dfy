/** The field a debug register selects out of a transferred word, in numbers. */
module Fields {

  /** Shifted down and masked, as the code does it. */
  function Field(w: bv32, lsb: bv8, width: bv8): bv32
    requires lsb < 32
  {
    (w >> lsb) & (if width >= 32 then 0xFFFF_FFFF else ((1 as bv32) << width) - 1)
  }

  function Shifted(w: bv32, n: bv8): bv32
    requires n < 32
  {
    w >> n
  }

  function Masked(w: bv32, width: bv8): bv32 {
    w & (if width >= 32 then 0xFFFF_FFFF else ((1 as bv32) << width) - 1)
  }

  lemma FieldIs(w: bv32, lsb: bv8, width: bv8)
    requires lsb < 32
    ensures Field(w, lsb, width) == Masked(Shifted(w, lsb), width)
  {
    hide Half, Halved, LowDigits;
  }

  function Half(w: bv32): bv32 { w / 2 }

  /** A number with one more binary digit at its end. */
  function Appended(w: bv32, digit: bv32): bv32 { 2 * w + digit }

  /** w halved n times. */
  function Halved(w: bv32, n: bv8): bv32
    decreases n
  {
    if n == 0 then w else Half(Halved(w, n - 1))
  }

  /** The n lowest binary digits of w. */
  function LowDigits(w: bv32, n: bv8): bv32
    decreases n
  {
    if n == 0 then 0 else Appended(LowDigits(Half(w), n - 1), w % 2)
  }

  lemma OneShift(w: bv32, n: bv8)
    requires 0 < n < 32
    ensures Shifted(w, n) == Half(Shifted(w, n - 1))
  {
  }

  lemma OneMask(w: bv32, n: bv8)
    requires 0 < n < 32
    ensures Masked(w, n) == Appended(Masked(Half(w), n - 1), w % 2)
  {
  }

  lemma WholeMask(w: bv32)
    ensures Masked(w, 32) == Appended(Masked(Half(w), 31), w % 2)
  {
  }

  lemma NoDigits(w: bv32)
    ensures Shifted(w, 0) == w && Masked(w, 0) == 0
  {
  }

  lemma AllDigits(w: bv32, width: bv8)
    requires width >= 32
    ensures Masked(w, width) == w
  {
  }

  lemma {:induction false} ShiftHalves(w: bv32, n: bv8)
    requires n < 32
    ensures Shifted(w, n) == Halved(w, n)
    decreases n
  {
    hide Shifted, Half;
    if n == 0 {
      NoDigits(w);
    } else {
      ShiftHalves(w, n - 1);
      OneShift(w, n);
    }
  }

  lemma {:induction false} MaskKeepsLow(w: bv32, n: bv8)
    requires n <= 32
    ensures Masked(w, n) == LowDigits(w, n)
    decreases n
  {
    hide Masked, Half, Appended;
    if n == 0 {
      NoDigits(w);
    } else {
      MaskKeepsLow(Half(w), n - 1);
      if n < 32 { OneMask(w, n); } else { WholeMask(w); }
    }
  }

  /** For every position and width, the field is w / 2^lsb, and of that the `width` lowest digits. */
  lemma FieldDigits(w: bv32, lsb: bv8, width: bv8)
    requires lsb < 32
    ensures width <= 32 ==> Field(w, lsb, width) == LowDigits(Halved(w, lsb), width)
    ensures width >= 32 ==> Field(w, lsb, width) == Halved(w, lsb)
  {
    hide Field, Halved, LowDigits, Shifted, Masked;
    FieldIs(w, lsb, width);
    ShiftHalves(w, lsb);
    if width <= 32 { MaskKeepsLow(Halved(w, lsb), width); }
    if width >= 32 { AllDigits(Halved(w, lsb), width); }
  }

  /** All the fields of the generated tables: whole words, the nine bits of IPSR, and the four bytes
      of REGSEL 20. */
  lemma TableFields(w: bv32)
    ensures Field(w, 0, 32) == w
    ensures Field(w, 0, 9) == w % 0x200
    ensures Field(w, 0, 8) == w % 0x100
    ensures Field(w, 8, 8) == (w / 0x100) % 0x100
    ensures Field(w, 16, 8) == (w / 0x1_0000) % 0x100
    ensures Field(w, 24, 8) == w / 0x100_0000
  {
    hide Half, Halved, LowDigits, Shifted, Masked;
  }

  /** PRIMASK, BASEPRI, FAULTMASK and CONTROL share REGSEL 20, a byte each: they recombine to it. */
  lemma LanesRecombine(w: bv32)
    ensures Field(w, 0, 8) | (Field(w, 8, 8) << 8) | (Field(w, 16, 8) << 16) | (Field(w, 24, 8) << 24) == w
  {
    hide Half, Halved, LowDigits, Shifted, Masked;
  }
}
