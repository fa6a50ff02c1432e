/** strfunc.c: UTF-8 strings to UTF-16 and UTF-32, sized in one run and written in another. */
module StrFunc {
  import opened Wrappers
  import opened Utf8

  datatype Target = Utf16LE | Utf16BE | Utf32LE | Utf32BE

  /** The greatest value a target accepts. */
  function Top(kind: Target): int {
    if kind == Utf16LE || kind == Utf16BE then TOP_UNICODE else TOP31
  }

  type Scalar = v: int | 0 <= v <= TOP31

  // ----- what is emitted -----

  function Short(kind: Target, x: nat): seq<byte>
    requires x < 0x1_0000
  {
    if kind == Utf16BE then [x / 0x100, x % 0x100] else [x % 0x100, x / 0x100]
  }

  function Long(kind: Target, x: nat): seq<byte>
    requires x < 0x1_0000_0000
  {
    if kind == Utf32BE then [x / 0x100_0000, x / 0x1_0000 % 0x100, x / 0x100 % 0x100, x % 0x100]
    else [x % 0x100, x / 0x100 % 0x100, x / 0x1_0000 % 0x100, x / 0x100_0000]
  }

  function Lead(v: nat): nat
    requires 0x1_0000 <= v <= TOP_UNICODE
  {
    0xd800 + (v - 0x1_0000) / 0x400
  }

  function Trail(v: nat): nat
    requires 0x1_0000 <= v <= TOP_UNICODE
  {
    0xdc00 + (v - 0x1_0000) % 0x400
  }

  /** The bytes of one character; utf8_to_16be writes the trail surrogate first. */
  function Emitted(kind: Target, v: int): seq<byte>
    requires 0 <= v <= Top(kind)
  {
    match kind
    case Utf16LE => if v > 0xffff then Short(kind, Lead(v)) + Short(kind, Trail(v)) else Short(kind, v)
    case Utf16BE => if v > 0xffff then Short(kind, Trail(v)) + Short(kind, Lead(v)) else Short(kind, v)
    case _ => Long(kind, v)
  }

  function EmittedAll(kind: Target, vs: seq<int>): seq<byte>
    requires AllAcceptable(vs, Top(kind))
  {
    if |vs| == 0 then [] else Emitted(kind, vs[0]) + EmittedAll(kind, vs[1..])
  }

  lemma {:induction false} EmittedAppend(kind: Target, vs: seq<int>, v: int)
    requires AllAcceptable(vs, Top(kind)) && Acceptable(v, Top(kind))
    ensures AllAcceptable(vs + [v], Top(kind))
    ensures EmittedAll(kind, vs + [v]) == EmittedAll(kind, vs) + Emitted(kind, v)
  {
    hide Emitted;
    if |vs| == 0 {
      assert [v][1..] == [];
      assert EmittedAll(kind, []) == [];
      assert vs + [v] == [v];
    } else {
      EmittedAppend(kind, vs[1..], v);
      assert (vs + [v])[1..] == vs[1..] + [v];
    }
  }

  // ----- the decoder's state machine -----

  function Prepend(acc: seq<int>, o: Option<seq<int>>): Option<seq<int>> {
    match o
    case None => None
    case Some(r) => Some(acc + r)
  }

  /** One character of the reference decoder, at position `b`. */
  lemma DecodeAt(s: seq<byte>, b: nat, top: int)
    requires b < |s|
    ensures Following(s[b]).None? ==> DecodeAll(s[b..], top) == None
    ensures Following(s[b]).Some? ==>
              var n := Following(s[b]).value;
              && (b + n + 1 > |s| ==> DecodeAll(s[b..], top) == None)
              && (b + n + 1 <= |s| && !AllContinue(s, b + 1, n) ==> DecodeAll(s[b..], top) == None)
              && (b + n + 1 <= |s| && AllContinue(s, b + 1, n) ==>
                    var v := Gather(s, b + 1, n, LeadBits(s[b]));
                    DecodeAll(s[b..], top)
                    == if v < Least(n) || (n > 0 && !Acceptable(v, top)) then None
                       else Prepend([v], DecodeAll(s[b + n + 1..], top)))
  {
    hide Gather, LeadBits, Least, Acceptable;
    var t := s[b..];
    if Following(s[b]).Some? && b + Following(s[b]).value + 1 <= |s| {
      var n := Following(s[b]).value;
      assert t[n + 1..] == s[b + n + 1..];
      GatherShift(s, b, n, LeadBits(s[b]));
      if !AllContinue(s, b + 1, n) {
        var k :| b + 1 <= k < b + 1 + n && !IsContinuation(s[k]);
        assert t[k - b] == s[k];
      } else {
        assert forall k :: 1 <= k < n + 1 ==> t[k] == s[b + k];
      }
    }
  }

  lemma {:induction false} GatherShift(s: seq<byte>, b: nat, n: nat, v: nat)
    requires b + n + 1 <= |s|
    ensures Gather(s[b..], 1, n, v) == Gather(s, b + 1, n, v)
  {
    if n > 0 {
      GatherShift(s, b, n - 1, v);
    }
  }

  lemma PrependPrepend(acc: seq<int>, v: int, o: Option<seq<int>>)
    ensures Prepend(acc, Prepend([v], o)) == Prepend(acc + [v], o)
  {
    if o.Some? {
      assert acc + ([v] + o.value) == acc + [v] + o.value;
    }
  }

  lemma PrependNothing(o: Option<seq<int>>)
    ensures Prepend([], o) == o
  {
    if o.Some? {
      assert [] + o.value == o.value;
    }
  }

  /** In the middle of a character that began at `b`, with `need` bytes to come. */
  ghost predicate Pending(s: seq<byte>, b: nat, i: nat, need: nat, v: nat, vmin: nat) {
    && b < i <= |s| && Following(s[b]).Some?
    && 0 < need <= Following(s[b]).value && i == b + 1 + Following(s[b]).value - need
    && AllContinue(s, b + 1, i - b - 1)
    && v == Gather(s, b + 1, i - b - 1, LeadBits(s[b])) && vmin == Least(Following(s[b]).value)
  }

  /** A lead byte starts a character. */
  lemma Starts(s: seq<byte>, i: nat)
    requires i < |s| && Following(s[i]).Some? && Following(s[i]).value > 0
    ensures var n := Following(s[i]).value; Pending(s, i, i + 1, n, LeadBits(s[i]), Least(n))
  {
  }

  /** A continuation byte carries the character on, or completes it. */
  lemma Continues(s: seq<byte>, b: nat, i: nat, need: nat, v: nat, vmin: nat)
    requires Pending(s, b, i, need, v, vmin) && i < |s| && IsContinuation(s[i])
    ensures need > 1 ==> Pending(s, b, i + 1, need - 1, 64 * v + s[i] % 64, vmin)
    ensures need == 1 ==>
              var n := Following(s[b]).value;
              && i + 1 == b + n + 1 && AllContinue(s, b + 1, n)
              && 64 * v + s[i] % 64 == Gather(s, b + 1, n, LeadBits(s[b]))
  {
    hide LeadBits, Least;
    assert forall k :: b + 1 <= k < i + 1 ==> IsContinuation(s[k]);
  }

  lemma StopsOrEnds(s: seq<byte>, b: nat, i: nat, need: nat, v: nat, vmin: nat, top: int)
    requires Pending(s, b, i, need, v, vmin) && (i == |s| || !IsContinuation(s[i]))
    ensures DecodeAll(s[b..], top) == None
  {
    DecodeAt(s, b, top);
    var n := Following(s[b]).value;
    if i < |s| && b + n + 1 <= |s| {
      assert b + 1 <= i < b + 1 + n;
    }
  }

  /**
    The four transforms share one loop.  Without a destination it only measures; with one
    it writes.  Either way the result is the length of what the reference decoder's
    characters emit, or None when that decoder fails.
   */
  method Transform(kind: Target, s: seq<byte>, op: array?<byte>) returns (len: Option<nat>)
    requires op != null ==>
               DecodeAll(s, Top(kind)).Some? && AllAcceptable(DecodeAll(s, Top(kind)).value, Top(kind))
               && op.Length >= |EmittedAll(kind, DecodeAll(s, Top(kind)).value)|
    modifies op
    ensures match DecodeAll(s, Top(kind))
            case None => len == None
            case Some(vs) => AllAcceptable(vs, Top(kind)) && len == Some(|EmittedAll(kind, vs)|)
    ensures op != null && len.Some? ==>
              op[..len.value] == EmittedAll(kind, DecodeAll(s, Top(kind)).value)
              && op[len.value..] == old(op[len.value..])
  {
    hide DecodeAll, EmittedAll, Emitted, Gather, LeadBits, Least;
    ghost var acc: seq<int> := [];
    ghost var b: nat := 0;
    var i, need, outlen := 0, 0, 0;
    var v: nat, vmin: nat := 0, 0;
    assert s[0..] == s;
    PrependNothing(DecodeAll(s, Top(kind)));
    NothingEmitted(kind);
    DecodedIsAcceptable(s, Top(kind));
    while i < |s|
      invariant 0 <= i <= |s| && 0 <= need && b <= i && AllAcceptable(acc, Top(kind))
      invariant need == 0 ==> b == i
      invariant need > 0 ==> Pending(s, b, i, need, v, vmin)
      invariant DecodeAll(s, Top(kind)) == Prepend(acc, DecodeAll(s[b..], Top(kind)))
      invariant outlen == |EmittedAll(kind, acc)|
      invariant op != null ==> outlen <= op.Length && op[..outlen] == EmittedAll(kind, acc)
                               && op[outlen..] == old(op[outlen..])
    {
      var c := s[i];
      var complete := 0;
      DecodeAt(s, b, Top(kind));
      if need > 0 {
        if !IsContinuation(c) {
          StopsOrEnds(s, b, i, need, v, vmin, Top(kind));
          return None;
        }
        Continues(s, b, i, need, v, vmin);
        v := 64 * v + c % 64;
        need := need - 1;
        if need > 0 {
          i := i + 1;
          continue;
        }
        if v < vmin || v > Top(kind) || Surrogate(v) {
          return None;
        }
        complete := v;
      } else if c >= 0x80 {
        if Following(c).None? {
          return None;
        }
        Starts(s, i);
        v, need, vmin := LeadBits(c), Following(c).value, Least(Following(c).value);
        i := i + 1;
        continue;
      } else {
        SingleByte(s, i);
        complete := c;
      }
      i := i + 1;
      assert DecodeAll(s[b..], Top(kind)) == Prepend([complete], DecodeAll(s[i..], Top(kind)));
      PrependPrepend(acc, complete, DecodeAll(s[i..], Top(kind)));
      EmittedAppend(kind, acc, complete);
      var e := Emitted(kind, complete);
      if op != null {
        RoomFor(kind, acc + [complete], DecodeAll(s[i..], Top(kind)));
        ghost var tail := old(op[outlen + |e|..]);
        assert op[outlen + |e|..] == tail by { assert op[outlen..][|e|..] == op[outlen + |e|..]; }
        Write(op, outlen, e);
        assert op[..outlen + |e|] == op[..outlen] + op[outlen..outlen + |e|];
      }
      outlen := outlen + |e|;
      acc := acc + [complete];
      b := i;
    }
    if need > 0 {
      StopsOrEnds(s, b, i, need, v, vmin, Top(kind));
      return None;
    }
    EmptyTail(s, b, acc, Top(kind));
    len := Some(outlen);
  }

  lemma NothingEmitted(kind: Target)
    ensures EmittedAll(kind, []) == []
  {
  }

  lemma SingleByte(s: seq<byte>, i: nat)
    requires i < |s| && s[i] < 0x80
    ensures Following(s[i]) == Some(0) && Gather(s, i + 1, 0, LeadBits(s[i])) == s[i] && Least(0) == 0
  {
  }

  lemma EmptyTail(s: seq<byte>, b: nat, acc: seq<int>, top: int)
    requires b == |s|
    ensures Prepend(acc, DecodeAll(s[b..], top)) == Some(acc)
  {
    assert s[b..] == [];
    assert acc + [] == acc;
  }

  lemma DecodedIsAcceptable(s: seq<byte>, top: int)
    requires 0x7f <= top <= TOP31
    ensures DecodeAll(s, top).Some? ==> AllAcceptable(DecodeAll(s, top).value, top)
  {
    if DecodeAll(s, top).Some? {
      DecodesIff(s, top, DecodeAll(s, top).value);
    }
  }

  /** What is emitted so far is a prefix of what will be emitted. */
  lemma {:induction false} RoomFor(kind: Target, acc: seq<int>, o: Option<seq<int>>)
    requires Prepend(acc, o).Some? && AllAcceptable(Prepend(acc, o).value, Top(kind))
    ensures AllAcceptable(acc, Top(kind))
    ensures |EmittedAll(kind, acc)| <= |EmittedAll(kind, Prepend(acc, o).value)|
  {
    var all := acc + o.value;
    assert forall k :: 0 <= k < |acc| ==> all[k] == acc[k];
    hide Emitted;
    if |acc| > 0 {
      assert all[1..] == acc[1..] + o.value;
      RoomFor(kind, acc[1..], o);
    }
  }

  /** string_transform: measure, allocate one byte more, terminate, write. */
  method StringTransform(kind: Target, s: seq<byte>) returns (len: Option<nat>, out: array?<byte>)
    ensures len.Some? <==> DecodeAll(s, Top(kind)).Some?
    ensures len.None? ==> out == null
    ensures len.Some? ==> out != null && fresh(out) && out.Length == len.value + 1 && out[len.value] == 0
    ensures len.Some? ==> AllAcceptable(DecodeAll(s, Top(kind)).value, Top(kind))
                          && out[..len.value] == EmittedAll(kind, DecodeAll(s, Top(kind)).value)
  {
    hide DecodeAll, EmittedAll;
    len := Transform(kind, s, null);
    if len.None? {
      return None, null;
    }
    var buf := new byte[len.value + 1](_ => 0);
    buf[len.value] := 0;
    len := Transform(kind, s, buf);
    out := buf;
    assert out[len.value..][0] == 0;
  }

  // ----- what the emitted bytes mean -----

  /** The 16-bit units of a byte string, in the target's byte order. */
  function Units(kind: Target, b: seq<byte>): Option<seq<int>> {
    if |b| == 0 then Some([])
    else if |b| == 1 then None
    else
      match Units(kind, b[2..])
      case None => None
      case Some(rest) => Some([if kind == Utf16BE then 0x100 * b[0] + b[1] else b[0] + 0x100 * b[1]] + rest)
  }

  /** Section 2.2 of RFC 2781: decoding UTF-16. */
  function DecodeUtf16(u: seq<int>): Option<seq<int>> {
    if |u| == 0 then Some([])
    else if !Surrogate(u[0]) then
      (match DecodeUtf16(u[1..])
       case None => None
       case Some(rest) => Some([u[0]] + rest))
    else if u[0] > 0xdbff || |u| < 2 || !(0xdc00 <= u[1] <= 0xdfff) then None
    else
      match DecodeUtf16(u[2..])
      case None => None
      case Some(rest) => Some([(u[0] - 0xd800) * 0x400 + (u[1] - 0xdc00) + 0x1_0000] + rest)
  }

  function DecodeBytes16(kind: Target, b: seq<byte>): Option<seq<int>> {
    match Units(kind, b)
    case None => None
    case Some(u) => DecodeUtf16(u)
  }

  lemma ShortUnit(kind: Target, x: nat, rest: seq<byte>)
    requires x < 0x1_0000
    ensures Units(kind, Short(kind, x) + rest)
         == if Units(kind, rest).None? then None else Some([x] + Units(kind, rest).value)
  {
    assert (Short(kind, x) + rest)[2..] == rest;
  }

  lemma SurrogateArithmetic(v: nat)
    requires 0x1_0000 <= v <= TOP_UNICODE
    ensures 0xd800 <= Lead(v) <= 0xdbff && 0xdc00 <= Trail(v) <= 0xdfff
    ensures (Lead(v) - 0xd800) * 0x400 + (Trail(v) - 0xdc00) + 0x1_0000 == v
  {
  }

  /** UTF-16LE decodes to the characters of the source string. */
  lemma {:induction false} Utf16LERoundTrip(vs: seq<int>)
    requires AllAcceptable(vs, TOP_UNICODE)
    ensures Units(Utf16LE, EmittedAll(Utf16LE, vs)).Some?
    ensures DecodeBytes16(Utf16LE, EmittedAll(Utf16LE, vs)) == Some(vs)
  {
    hide Short, Lead, Trail;
    if |vs| > 0 {
      var rest := EmittedAll(Utf16LE, vs[1..]);
      Utf16LERoundTrip(vs[1..]);
      var v := vs[0];
      assert vs == [v] + vs[1..];
      if v > 0xffff {
        SurrogateArithmetic(v);
        var tail := Short(Utf16LE, Trail(v)) + rest;
        assert Short(Utf16LE, Lead(v)) + Short(Utf16LE, Trail(v)) + rest == Short(Utf16LE, Lead(v)) + tail;
        ShortUnit(Utf16LE, Trail(v), rest);
        ShortUnit(Utf16LE, Lead(v), tail);
        var u := Units(Utf16LE, rest).value;
        assert ([Lead(v)] + ([Trail(v)] + u))[2..] == u;
      } else {
        ShortUnit(Utf16LE, v, rest);
        var u := Units(Utf16LE, rest).value;
        assert ([v] + u)[1..] == u;
      }
    }
  }

  predicate AllBasic(vs: seq<int>) {
    forall k :: 0 <= k < |vs| ==> vs[k] <= 0xffff
  }

  /** UTF-16BE is right exactly for strings without supplementary characters: their
      surrogates come out in the wrong order, which no decoder accepts. */
  lemma {:induction false} Utf16BECorrectIff(vs: seq<int>)
    requires AllAcceptable(vs, TOP_UNICODE)
    ensures Units(Utf16BE, EmittedAll(Utf16BE, vs)).Some?
    ensures DecodeBytes16(Utf16BE, EmittedAll(Utf16BE, vs)) == Some(vs) <==> AllBasic(vs)
    ensures !AllBasic(vs) ==> DecodeBytes16(Utf16BE, EmittedAll(Utf16BE, vs)) == None
  {
    hide Short, Lead, Trail;
    if |vs| > 0 {
      var rest := EmittedAll(Utf16BE, vs[1..]);
      Utf16BECorrectIff(vs[1..]);
      var v := vs[0];
      assert vs == [v] + vs[1..];
      assert AllBasic(vs) <==> v <= 0xffff && AllBasic(vs[1..]) by {
        assert forall k :: 0 < k < |vs| ==> vs[k] == vs[1..][k - 1];
      }
      if v > 0xffff {
        SurrogateArithmetic(v);
        var tail := Short(Utf16BE, Lead(v)) + rest;
        assert Short(Utf16BE, Trail(v)) + Short(Utf16BE, Lead(v)) + rest == Short(Utf16BE, Trail(v)) + tail;
        ShortUnit(Utf16BE, Lead(v), rest);
        ShortUnit(Utf16BE, Trail(v), tail);
      } else {
        ShortUnit(Utf16BE, v, rest);
        var u := Units(Utf16BE, rest).value;
        assert ([v] + u)[1..] == u;
      }
    }
  }

  /** The 32-bit units of a byte string. */
  function DecodeBytes32(kind: Target, b: seq<byte>): Option<seq<int>> {
    if |b| == 0 then Some([])
    else if |b| < 4 then None
    else
      match DecodeBytes32(kind, b[4..])
      case None => None
      case Some(rest) =>
        Some([if kind == Utf32BE then b[3] + 0x100 * b[2] + 0x1_0000 * b[1] + 0x100_0000 * b[0]
              else b[0] + 0x100 * b[1] + 0x1_0000 * b[2] + 0x100_0000 * b[3]] + rest)
  }

  /** Both UTF-32 targets decode to the characters of the source string. */
  lemma {:induction false} Utf32RoundTrip(kind: Target, vs: seq<int>)
    requires (kind == Utf32LE || kind == Utf32BE) && AllAcceptable(vs, TOP31)
    ensures DecodeBytes32(kind, EmittedAll(kind, vs)) == Some(vs)
  {
    if |vs| > 0 {
      var rest := EmittedAll(kind, vs[1..]);
      Utf32RoundTrip(kind, vs[1..]);
      LongDigits(vs[0]);
      assert vs == [vs[0]] + vs[1..];
      assert (Long(kind, vs[0]) + rest)[4..] == rest;
    }
  }

  lemma LongDigits(x: nat)
    ensures x
         == x % 0x100 + 0x100 * (x / 0x100 % 0x100) + 0x1_0000 * (x / 0x1_0000 % 0x100) + 0x100_0000 * (x / 0x100_0000)
  {
    assert x / 0x1_0000 == x / 0x100 / 0x100 && x / 0x100_0000 == x / 0x1_0000 / 0x100;
  }

  // ----- well-formed UTF-8 -----

  predicate Between(c: byte, low: int, high: int) {
    low <= c <= high
  }

  predicate Tail(s: seq<byte>, p: nat, n: nat) {
    p + n <= |s| && forall k :: p <= k < p + n ==> Between(s[k], 0x80, 0xbf)
  }

  /** The length of the character that the ABNF of section 4 of RFC 3629 allows at the
      front, or zero. */
  function AbnfLength(s: seq<byte>): nat
    requires |s| > 0
  {
    var c := s[0];
    if Between(c, 0, 0x7f) then 1
    else if Between(c, 0xc2, 0xdf) && Tail(s, 1, 1) then 2
    else if c == 0xe0 && Tail(s, 1, 2) && Between(s[1], 0xa0, 0xbf) then 3
    else if Between(c, 0xe1, 0xec) && Tail(s, 1, 2) then 3
    else if c == 0xed && Tail(s, 1, 2) && Between(s[1], 0x80, 0x9f) then 3
    else if Between(c, 0xee, 0xef) && Tail(s, 1, 2) then 3
    else if c == 0xf0 && Tail(s, 1, 3) && Between(s[1], 0x90, 0xbf) then 4
    else if Between(c, 0xf1, 0xf3) && Tail(s, 1, 3) then 4
    else if c == 0xf4 && Tail(s, 1, 3) && Between(s[1], 0x80, 0x8f) then 4
    else 0
  }

  predicate WellFormed(s: seq<byte>)
    decreases |s|
  {
    |s| == 0 || (var n := AbnfLength(s); 0 < n <= |s| && WellFormed(s[n..]))
  }

  /** The first character is allowed by the ABNF exactly when the decoder accepts it. */
  lemma FirstCharacter(s: seq<byte>)
    requires |s| > 0
    ensures AbnfLength(s) == if Accepts(s) then Following(s[0]).value + 1 else 0
  {
    hide Accepts, AbnfLength;
    match Following(s[0]) {
      case None => NoCharacter(s);
      case Some(n) =>
        if n == 0 {
          FirstCharacter1(s);
        } else if n == 1 {
          FirstCharacter2(s);
        } else if n == 2 {
          FirstCharacter3(s);
        } else if n == 3 {
          FirstCharacter4(s);
        } else {
          LongCharacter(s, n);
        }
    }
  }

  /** The decoder accepts the first character, for the UTF-16 targets. */
  predicate Accepts(s: seq<byte>)
    requires |s| > 0
  {
    var n := Following(s[0]);
    && n.Some? && n.value + 1 <= |s| && AllContinue(s, 1, n.value)
    && Gather(s, 1, n.value, LeadBits(s[0])) >= Least(n.value)
    && (n.value == 0 || Acceptable(Gather(s, 1, n.value, LeadBits(s[0])), TOP_UNICODE))
  }

  lemma NoCharacter(s: seq<byte>)
    requires |s| > 0 && Following(s[0]).None?
    ensures AbnfLength(s) == 0 && !Accepts(s)
  {
  }

  lemma LongCharacter(s: seq<byte>, n: nat)
    requires |s| > 0 && Following(s[0]) == Some(n) && n >= 4
    ensures AbnfLength(s) == 0 && !Accepts(s)
  {
  }

  lemma FirstCharacter1(s: seq<byte>)
    requires |s| > 0 && Following(s[0]) == Some(0)
    ensures AbnfLength(s) == if Accepts(s) then 1 else 0
  {
    hide Gather;
    if 1 <= |s| {
      assert AllContinue(s, 1, 0) <==> Tail(s, 1, 0);
      GatherUnfolds(s, 0, LeadBits(s[0]));
    }
  }

  lemma FirstCharacter2(s: seq<byte>)
    requires |s| > 0 && Following(s[0]) == Some(1)
    ensures AbnfLength(s) == if Accepts(s) then 2 else 0
  {
    hide Gather;
    if 2 <= |s| {
      assert AllContinue(s, 1, 1) <==> Tail(s, 1, 1);
      GatherUnfolds(s, 1, LeadBits(s[0]));
    }
  }

  lemma FirstCharacter3(s: seq<byte>)
    requires |s| > 0 && Following(s[0]) == Some(2)
    ensures AbnfLength(s) == if Accepts(s) then 3 else 0
  {
    hide Gather;
    if 3 <= |s| {
      assert AllContinue(s, 1, 2) <==> Tail(s, 1, 2);
      GatherUnfolds(s, 2, LeadBits(s[0]));
    }
  }

  lemma FirstCharacter4(s: seq<byte>)
    requires |s| > 0 && Following(s[0]) == Some(3)
    ensures AbnfLength(s) == if Accepts(s) then 4 else 0
  {
    hide Gather;
    if 4 <= |s| {
      assert AllContinue(s, 1, 3) <==> Tail(s, 1, 3);
      GatherUnfolds(s, 3, LeadBits(s[0]));
    }
  }

  /** The UTF-16 transforms succeed exactly on well-formed UTF-8. */
  lemma {:induction false} AcceptsIffWellFormed(s: seq<byte>)
    ensures DecodeAll(s, TOP_UNICODE).Some? <==> WellFormed(s)
    decreases |s|
  {
    hide AbnfLength, Gather, LeadBits, Least, AllContinue, Acceptable;
    if |s| > 0 {
      FirstCharacter(s);
      if Following(s[0]).Some? && Following(s[0]).value + 1 <= |s| {
        AcceptsIffWellFormed(s[Following(s[0]).value + 1..]);
      }
    }
  }
}
