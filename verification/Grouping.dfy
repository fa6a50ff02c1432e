/** Templates by the operations they were written in: what calcsize and gencode make of them. */
module Grouping {
  import opened Bytecode
  import opened Output
  import opened Encode
  import opened Templates

  /** The template compiler writes no empty group of literal bytes. */
  predicate Filled(codes: seq<Code>) {
    forall k :: 0 <= k < |codes| && codes[k].Literal? ==> |codes[k].bytes| > 0
  }

  lemma {:induction false} SizeSplit(i: Instruction, s: Sizing, a: seq<Code>, b: seq<Code>)
    ensures SizeCodes(i, s, a + b) == SizeCodes(i, SizeCodes(i, s, a), b)
    decreases |a|
  {
    hide SizeStep;
    if |a| == 0 {
      assert a + b == b;
    } else {
      assert (a + b)[1..] == a[1..] + b;
      SizeSplit(i, SizeStep(i, s, a[0]), a[1..], b);
    }
  }

  lemma {:induction false} GenSplit(i: Instruction, place: Place, g: Gen, a: seq<Code>, b: seq<Code>)
    ensures GenCodes(i, place, g, a + b) == GenCodes(i, place, GenCodes(i, place, g, a), b)
    decreases |a|
  {
    hide GenStep;
    if |a| == 0 {
      assert a + b == b;
    } else {
      assert (a + b)[1..] == a[1..] + b;
      GenSplit(i, place, GenStep(i, place, g, a[0]), a[1..], b);
    }
  }

  /** A group is counted as its bytes are. */
  lemma {:induction false} GroupSized(i: Instruction, s: Sizing, b: seq<int>)
    ensures SizeCodes(i, s, Singles(b)) == SizeStep(i, s, Literal(b))
    decreases |b|
  {
    if |b| == 0 {
    } else {
      assert Singles(b)[1..] == Singles(b[1..]) && Singles(b)[0] == Literal([b[0]]);
      GroupSized(i, SizeStep(i, s, Literal([b[0]])), b[1..]);
    }
  }

  /** REX goes before the first of two runs of bytes, and only there. */
  lemma RunsJoin(i: Instruction, place: Place, g: Gen, a: seq<int>, b: seq<int>)
    ensures GenStep(i, place, GenStep(i, place, g, Literal(a)), Literal(b)) == GenStep(i, place, g, Literal(a + b))
  {
    hide RexByte, Rex.Mask, Rex.Vector;
    var e, h := EmitRex(i, g), GenStep(i, place, g, Literal(a));
    assert EmitRex(i, h) == h;
    assert e.out + Raws(a) + Raws(b) == e.out + Raws(a + b);
  }

  /** A group is emitted as its bytes are. */
  lemma {:induction false} GroupEmitted(i: Instruction, place: Place, g: Gen, b: seq<int>)
    requires |b| > 0
    ensures GenCodes(i, place, g, Singles(b)) == GenStep(i, place, g, Literal(b))
    decreases |b|
  {
    hide GenStep;
    var s := Singles(b);
    assert s[1..] == Singles(b[1..]) && s[0] == Literal([b[0]]);
    assert GenCodes(i, place, g, s) == GenCodes(i, place, GenStep(i, place, g, s[0]), s[1..]);
    assert [b[0]] + b[1..] == b;
    if |b| > 1 {
      GroupEmitted(i, place, GenStep(i, place, g, s[0]), b[1..]);
      RunsJoin(i, place, g, [b[0]], b[1..]);
    } else {
      assert s[1..] == [] && b == [b[0]];
    }
  }

  lemma {:induction false} UnjoinedSizes(i: Instruction, s: Sizing, codes: seq<Code>)
    ensures SizeCodes(i, s, codes) == SizeCodes(i, s, Unjoined(codes))
    decreases |codes|
  {
    hide SizeStep;
    if |codes| > 0 {
      var c := codes[0];
      var first := if c.Literal? then Singles(c.bytes) else [c];
      SizeSplit(i, s, first, Unjoined(codes[1..]));
      if c.Literal? {
        GroupSized(i, s, c.bytes);
      } else {
        assert [c][1..] == [];
      }
      UnjoinedSizes(i, SizeStep(i, s, c), codes[1..]);
    }
  }

  lemma {:induction false} UnjoinedEmits(i: Instruction, place: Place, g: Gen, codes: seq<Code>)
    requires Filled(codes)
    ensures GenCodes(i, place, g, codes) == GenCodes(i, place, g, Unjoined(codes))
    decreases |codes|
  {
    hide GenStep;
    if |codes| > 0 {
      var c := codes[0];
      var first := if c.Literal? then Singles(c.bytes) else [c];
      GenSplit(i, place, g, first, Unjoined(codes[1..]));
      if c.Literal? {
        GroupEmitted(i, place, g, c.bytes);
      } else {
        assert [c][1..] == [];
      }
      UnjoinedEmits(i, place, GenStep(i, place, g, c), codes[1..]);
    }
  }

  /** Codes read from a template have no empty groups. */
  lemma {:induction false} CodesFilled(t: bytes, i: nat, ext: int)
    requires i <= |t| && (ext == 0 || 5 <= ext <= 7) && Codes(t, i, ext).Some?
    ensures Filled(Codes(t, i, ext).value)
    decreases |t| - i
  {
    hide Dispatch;
    if t[i] != 0 {
      if 5 <= t[i] <= 7 {
        CodesFilled(t, i + 1, t[i]);
      } else {
        if t[i] >= 8 {
          NoLiteralDispatched(t, i, ext);
        }
        CodesFilled(t, i + 1 + Trailing(t[i]), 0);
      }
    }
  }

  lemma NoLiteralDispatched(t: bytes, i: nat, ext: int)
    requires i < |t| && 8 <= t[i] && (ext == 0 || 5 <= ext <= 7) && i + 1 + Trailing(t[i]) <= |t|
    ensures var c := Dispatch(t[i], ext, (t[i + 1..i + 1 + Trailing(t[i])] + [0, 0, 0])[..3]);
            c.Some? ==> !c.value.Literal?
  {
  }

  /**
    The length that calcsize announces and the cells that gencode emits for a compiled
    template are those of its operations one by one.
   */
  lemma CompiledMeans(i: Instruction, p: Prefixes, place: Place, w: Work, x: seq<byte>, codes: seq<Code>)
    requires Reading(x).Some? && Unjoined(Reading(x).value) == codes
    ensures Calcsize(i, p, Reading(x).value) == Calcsize(i, p, codes)
    ensures Gencode(i, place, w, Reading(x).value) == Gencode(i, place, w, codes)
  {
    hide SizeCodes, GenCodes, Finish, Unjoined, Codes;
    var read := Reading(x).value;
    CodesFilled(x + [0], 0, 0);
    UnjoinedSizes(i, Start(p), read);
    UnjoinedEmits(i, place, Gen(w.(kind := 0), false, Raws(PrefixBytes(i.bits, w.prefixes))), read);
  }
}
