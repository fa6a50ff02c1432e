/** The VEX prefix that gencode chooses says the same in its two-byte and three-byte forms. */
module VexPrefix {
  import opened Wrappers
  import opened Encode

  /** The fields of a VEX prefix (section 2.3.5 of the Intel SDM, volume 2A). */
  datatype Fields = Fields(r: bool, x: bool, b: bool, w: bool, source: int, opcodeMap: int, lpp: int)

  /** The fields, as the processor reads them; the register bits are inverted. */
  function DecodeVex(p: seq<int>): Option<Fields> {
    if |p| == 2 && p[0] == 0xC5 then
      Some(Fields(p[1] / 128 % 2 == 0, false, false, false, 15 - p[1] / 8 % 16, 1, p[1] % 8))
    else if |p| == 3 && (p[0] == 0xC4 || p[0] == 0x8F) then
      Some(Fields(p[1] / 128 % 2 == 0, p[1] / 64 % 2 == 0, p[1] / 32 % 2 == 0, p[2] / 128 % 2 == 1,
                  15 - p[2] / 8 % 16, p[1] % 32, p[2] % 8))
    else None
  }

  /** Whichever form is chosen, it carries the instruction's own bits. */
  lemma VexPrefixDecodes(w: Work)
    requires w.cm >= 0 && w.wlp >= 0
    ensures DecodeVex(VexBytes(w))
         == Some(Fields(w.rex.r, w.rex.x, w.rex.b, w.rex.w, w.vexreg % 16, w.cm % 32, w.wlp % 8))
    ensures forall k :: 0 <= k < |VexBytes(w)| ==> 0 <= VexBytes(w)[k] < 256
    ensures VexBytes(w)[0] == if w.cm >= 64 then 0x8F else if |VexBytes(w)| == 3 then 0xC4 else 0xC5
  {
    hide VexLength;
    VexLengthIs(w);
    LastByte(if VexLength(w) == 3 then w.rex.w else !w.rex.r, w.vexreg % 16, w.wlp % 8);
    MapByte(!w.rex.r, !w.rex.x, !w.rex.b, w.cm % 32);
  }

  lemma VexLengthIs(w: Work)
    ensures VexLength(w) == 3 || (VexLength(w) == 2 && w.cm == 1 && !w.rex.w && !w.rex.x && !w.rex.b)
  {
  }

  lemma LastByte(top: bool, source: nat, lpp: nat)
    requires source < 16 && lpp < 8
    ensures var y := (if top then 0x80 else 0) + 8 * (15 - source) + lpp;
            0 <= y < 256 && y / 128 % 2 == (if top then 1 else 0) && y / 8 % 16 == 15 - source && y % 8 == lpp
  {
  }

  lemma MapByte(r: bool, x: bool, b: bool, m: nat)
    requires m < 32
    ensures var y := m + (if r then 0x80 else 0) + (if x then 0x40 else 0) + (if b then 0x20 else 0);
            0 <= y < 256 && y % 32 == m && y / 128 % 2 == (if r then 1 else 0)
            && y / 64 % 2 == (if x then 1 else 0) && y / 32 % 2 == (if b then 1 else 0)
  {
  }
}
