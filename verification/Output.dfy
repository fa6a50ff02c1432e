/** What `out` of assemble.c hands to the back end: bytes, and fields left to be relocated. */
module Output {
  import opened Bytes
  import opened Powers
  import opened Labels

  /** An output byte, one byte of a field that the back end has to relocate, one byte of
      reserved space, or one of the three bytes behind an EVEX escape. */
  datatype Cell =
    | Raw(byte: int)
    | Reloc(target: Address, base: int, index: nat)
    | Selector(segment: int, index: nat)
    | Reserved
    | EvexPayload(index: nat)

  function Raws(b: seq<int>): (r: seq<Cell>)
    ensures |r| == |b| && forall i :: 0 <= i < |b| ==> r[i] == Raw(b[i])
  {
    seq(|b|, i requires 0 <= i < |b| => Raw(b[i]))
  }

  /** WRITEADDR: the low `n` bytes, least significant first. */
  function WriteAddr(v: int, n: nat): (r: seq<int>)
    ensures |r| == n
    decreases n
  {
    if n == 0 then [] else [v % 256] + WriteAddr(v / 256, n - 1)
  }

  lemma {:induction false} WriteAddrValue(v: int, n: nat)
    ensures LittleEndian(WriteAddr(v, n)) == v % Power256(n)
    ensures forall i :: 0 <= i < n ==> 0 <= WriteAddr(v, n)[i] < 256
    decreases n
  {
    if n > 0 {
      WriteAddrValue(v / 256, n - 1);
      ByteSplit(v, Power256(n - 1));
    }
  }

  lemma ByteSplit(v: int, d: nat)
    requires d > 0
    ensures v % 256 + 256 * (v / 256 % d) == v % (256 * d)
  {
    var q, r := v / 256 / d, v / 256 % d;
    assert v == v / 256 * 256 + v % 256;
    assert v / 256 == q * d + r;
    assert (q * d + r) * 256 == q * (256 * d) + 256 * r;
    DivModUnique(v, 256 * d, q, v % 256 + 256 * r);
  }
}
