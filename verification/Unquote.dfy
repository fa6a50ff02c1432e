/** nasm_unquote and nasm_skip_string of quote.c: one state machine in place, one that skips. */
module Unquote {
  import opened Utf8
  import opened Quote

  datatype State = Start | AfterBackslash | InOctal | InHex | InUnicode

  /** `out` and what is still to come make up `total`. */
  predicate Leads(out: seq<byte>, rest: Dequoted, total: Dequoted) {
    out + rest.bytes == total.bytes && rest.end == total.end
  }

  lemma LeadsOn(out: seq<byte>, b: seq<byte>, rest: Dequoted, total: Dequoted)
    requires Leads(out, Prefixed(b, rest), total)
    ensures Leads(out + b, rest, total)
  {
    assert out + (b + rest.bytes) == out + b + rest.bytes;
  }

  /** How many digits an escape's letter at `e` asks for, their base, and where they start. */
  function Most(c: byte): nat {
    match EscapeOf(c)
    case Octal => 3
    case Hex => 2
    case Unicode(n) => n
    case _ => 0
  }

  /** The accumulator after `k` digits from `f` on. */
  function Accumulated(s: seq<byte>, state: State, f: nat, k: nat): int
    requires f + k <= |s|
  {
    match state
    case InOctal => ValueOf(s, f, k, 8)
    case InHex => ValueOf(s, f, k, 16)
    case InUnicode => Int32(ValueOf(s, f, k, 16))
    case _ => 0
  }

  predicate DigitState(state: State, c: byte) {
    match state
    case InOctal => EscapeOf(c).Octal?
    case InHex => EscapeOf(c).Hex?
    case InUnicode => EscapeOf(c).Unicode?
    case _ => false
  }

  function Base(state: State): nat {
    if state == InOctal then 8 else 16
  }

  /** The machine's state after the bytes before `p`: `out` has been written. */
  ghost predicate Machine(s: seq<byte>, p: nat, out: seq<byte>, state: State, escp: nat, ndig: int, nval: int,
                          total: Dequoted)
  {
    && p <= |s|
    && match state
       case Start => |out| + 1 <= p && Leads(out, Body(s, p), total)
       case AfterBackslash => |out| + 2 <= p && s[p - 1] == BACKSLASH && Leads(out, Body(s, p - 1), total)
       case _ => Digits(s, p, out, state, escp, ndig, nval, total)
  }

  /** In the digits of an escape whose letter is just before `escp`. */
  ghost predicate Digits(s: seq<byte>, p: nat, out: seq<byte>, state: State, escp: nat, ndig: int, nval: int,
                         total: Dequoted)
  {
    && 2 <= escp <= p <= |s| && |out| + 3 <= escp
    && s[escp - 2] == BACKSLASH && s[escp - 1] != 0 && DigitState(state, s[escp - 1])
    && var f := if state == InOctal then escp - 1 else escp;
       && f <= p && AllDigits(s, f, p - f, Base(state))
       && 0 < ndig == Most(s[escp - 1]) - (p - f)
       && nval == Accumulated(s, state, f, p - f)
       && Leads(out, Body(s, escp - 2), total)
  }

  // ----- the transitions -----

  lemma PlainStep(s: seq<byte>, p: nat, out: seq<byte>, total: Dequoted)
    requires p < |s| && |out| + 1 <= p && Leads(out, Body(s, p), total)
    requires s[p] != 0 && s[p] != BACK && s[p] != BACKSLASH
    ensures Machine(s, p + 1, out + [s[p]], Start, 0, 0, 0, total)
  {
    LeadsOn(out, [s[p]], Body(s, p + 1), total);
  }

  /** A complete escape from the backslash at `b` on. */
  lemma EscapeStep(s: seq<byte>, b: nat, p: nat, out: seq<byte>, e: seq<byte>, total: Dequoted)
    requires b + 1 < |s| && s[b] == BACKSLASH && s[b + 1] != 0 && |out| + 1 <= b && Leads(out, Body(s, b), total)
    requires p == EscapeEnd(s, b + 1) && e == EscapeBytes(s, b + 1)
    ensures Machine(s, p, out + e, Start, 0, 0, 0, total)
    ensures |out| + |e| <= p
  {
    hide EscapeBytes, EscapeEnd;
    LeadsOn(out, e, Body(s, p), total);
    EscapeFits(s, b);
  }

  /** The letters that are complete by themselves. */
  lemma SimpleEscape(s: seq<byte>, e: nat)
    requires e < |s| && (EscapeOf(s[e]).Code? || EscapeOf(s[e]).Itself?)
    ensures EscapeEnd(s, e) == e + 1
    ensures EscapeBytes(s, e) == [if EscapeOf(s[e]).Code? then EscapeOf(s[e]).value else s[e]]
  {
  }

  /** Entering the digit states. */
  lemma DigitsBegin(s: seq<byte>, p: nat, out: seq<byte>, state: State, total: Dequoted)
    requires 2 <= p <= |s| && |out| + 3 <= p && s[p - 2] == BACKSLASH && s[p - 1] != 0 && DigitState(state, s[p - 1])
    requires Leads(out, Body(s, p - 2), total)
    ensures state == InOctal ==> Digits(s, p, out, state, p, 2, DigitValue(s[p - 1]), total)
    ensures state != InOctal ==> Digits(s, p, out, state, p, Most(s[p - 1]), 0, total)
  {
    hide Body;
    if state == InOctal {
      assert ValueOf(s, p - 1, 1, 8) == 8 * ValueOf(s, p - 1, 0, 8) + DigitValue(s[p - 1]);
      assert AllDigits(s, p - 1, 1, 8);
    } else {
      assert ValueOf(s, p, 0, 16) == 0;
    }
  }

  /** One more digit. */
  lemma DigitStep(s: seq<byte>, p: nat, out: seq<byte>, state: State, escp: nat, ndig: int, nval: int, total: Dequoted)
    requires Digits(s, p, out, state, escp, ndig, nval, total) && p < |s| && IsDigit(s[p], Base(state))
    ensures var x := Base(state) * nval + DigitValue(s[p]);
            var y := if state == InUnicode then Int32(x) else x;
            var f := if state == InOctal then escp - 1 else escp;
            && y == Accumulated(s, state, f, p + 1 - f) && AllDigits(s, f, p + 1 - f, Base(state))
            && (ndig > 1 ==> Digits(s, p + 1, out, state, escp, ndig - 1, y, total))
  {
    hide Body;
    var f := if state == InOctal then escp - 1 else escp;
    assert ValueOf(s, f, p + 1 - f, Base(state)) == Base(state) * ValueOf(s, f, p - f, Base(state)) + DigitValue(s[p]);
    if state == InUnicode {
      Int32Accumulates(ValueOf(s, f, p - f, 16), DigitValue(s[p]));
    }
  }

  /** The digits are over at `p`: what they stand for is what the machine writes. */
  lemma DigitsDone(s: seq<byte>, p: nat, out: seq<byte>, state: State, escp: nat, nval: int, total: Dequoted)
    requires 2 <= escp <= p <= |s| && |out| + 3 <= escp && nval < 0x8000_0000
    requires s[escp - 2] == BACKSLASH && s[escp - 1] != 0 && DigitState(state, s[escp - 1])
    requires var f := if state == InOctal then escp - 1 else escp;
             && f <= p && AllDigits(s, f, p - f, Base(state)) && p - f <= Most(s[escp - 1])
             && nval == Accumulated(s, state, f, p - f)
             && (p - f == Most(s[escp - 1]) || p == |s| || !IsDigit(s[p], Base(state)))
    requires Leads(out, Body(s, escp - 2), total)
    ensures Machine(s, p, out + Value(s, p, state, escp, nval), Start, 0, 0, 0, total)
    ensures |out| + |Value(s, p, state, escp, nval)| <= p
  {
    hide Body;
    var f := if state == InOctal then escp - 1 else escp;
    RunIs(s, f, Most(s[escp - 1]), Base(state), p - f);
    EscapeStep(s, escp - 2, p, out, Value(s, p, state, escp, nval), total);
  }

  /** What the three digit states write when they are done. */
  function Value(s: seq<byte>, p: nat, state: State, escp: nat, nval: int): seq<byte>
    requires 1 <= escp <= |s| && nval < 0x8000_0000
  {
    if state == InOctal then [nval % 256]
    else if state == InHex then [if p > escp then nval % 256 else s[escp - 1]]
    else if p > escp then Encode(nval)
    else [s[escp - 1]]
  }

  lemma SmallAccumulator(s: seq<byte>, p: nat, out: seq<byte>, state: State, escp: nat, ndig: int, nval: int,
                         total: Dequoted)
    requires Digits(s, p, out, state, escp, ndig, nval, total)
    ensures state != InUnicode ==> 0 <= nval < 0x100
    ensures nval < 0x8000_0000
  {
    hide Body;
    if state == InHex {
      ValueBound(s, escp, p - escp);
      SmallPowers();
      assert p - escp <= 1;
      assert Power16(0) == 1;
    } else if state == InOctal {
      var f := escp - 1;
      assert p - f <= 2;
      OctalBound(s, f, p - f);
    }
  }

  lemma OctalBound(s: seq<byte>, f: nat, n: nat)
    requires n <= 2 && f + n <= |s| && AllDigits(s, f, n, 8)
    ensures 0 <= ValueOf(s, f, n, 8) < 64
  {
    if n >= 1 {
      assert IsDigit(s[f], 8);
      assert ValueOf(s, f, 1, 8) == 8 * ValueOf(s, f, 0, 8) + DigitValue(s[f]);
    }
    if n == 2 {
      assert IsDigit(s[f + 1], 8);
    }
  }

  /** The string ends inside an escape. */
  lemma Unterminated(s: seq<byte>, p: nat, out: seq<byte>, total: Dequoted)
    requires 0 < p < |s| && s[p] == 0 && s[p - 1] == BACKSLASH && Leads(out, Body(s, p - 1), total)
    ensures out == total.bytes && p == total.end
  {
    assert out + [] == out;
  }

  lemma AtEnd(s: seq<byte>, p: nat, out: seq<byte>, total: Dequoted)
    requires p < |s| && (s[p] == 0 || s[p] == BACK) && Leads(out, Body(s, p), total)
    ensures out == total.bytes && p == total.end
  {
    assert out + [] == out;
  }

  // ----- the state machine -----

  /** What has been written, and what has not been touched yet. */
  ghost predicate Written(buf: array<byte>, s: seq<byte>, q: nat, out: seq<byte>)
    reads buf
  {
    buf.Length == |s| && q == |out| <= |s| && buf[..q] == out && buf[q..] == s[q..]
  }

  /** Writes over bytes that have been read already. */
  method Put(buf: array<byte>, ghost s: seq<byte>, q: nat, ghost out: seq<byte>, e: seq<byte>) returns (q': nat)
    requires Written(buf, s, q, out) && q + |e| <= |s|
    modifies buf
    ensures Written(buf, s, q', out + e) && q' == q + |e|
  {
    Write(buf, q, e);
    q' := q + |e|;
    assert buf[..q'] == buf[..q] + buf[q..q'];
    assert buf[q'..] == s[q'..] by {
      assert s[q..][|e|..] == s[q'..];
    }
  }

  /** The first NUL is where reading stops. */
  ghost predicate Terminated(s: seq<byte>) {
    exists k :: 0 <= k < |s| && s[k] == 0
  }

  /** No NUL has been passed. */
  ghost predicate BeforeNul(s: seq<byte>, p: nat) {
    p < |s| && (forall k :: 0 <= k < p ==> s[k] != 0) && Terminated(s)
  }

  lemma StepBeforeNul(s: seq<byte>, p: nat)
    requires BeforeNul(s, p) && s[p] != 0
    ensures BeforeNul(s, p + 1)
  {
    var k :| 0 <= k < |s| && s[k] == 0;
    assert k > p;
  }

  /** The back-quoted branch of nasm_unquote. */
  method UnquoteBack(buf: array<byte>) returns (len: nat, ep: nat)
    requires Terminated(buf[..]) && buf.Length > 1 && buf[0] == BACK && BeforeNul(buf[..], 1)
    modifies buf
    ensures var d := Body(old(buf[..]), 1);
            len == |d.bytes| <= buf.Length && buf[..len] == d.bytes && ep == d.end < buf.Length
    ensures buf[len..] == old(buf[len..])
  {
    hide Body, Machine, Digits, EscapeBytes, EscapeEnd, Encode, ValueOf, Most, AllDigits, Accumulated, Leads;
    ghost var s := buf[..];
    ghost var total := Body(s, 1);
    ghost var out: seq<byte> := [];
    var p: nat, q: nat, escp: nat := 1, 0, 0;
    var state, ndig, nval := Start, 0, 0;
    Begin(s, total);
    while buf[p] != 0
      invariant Written(buf, s, q, out) && BeforeNul(s, p) && q < p
      invariant Machine(s, p, out, state, escp, ndig, nval, total)
      invariant state in {InOctal, InHex, InUnicode} ==> 2 <= escp <= p
      decreases |s| - p, if state in {InOctal, InHex, InUnicode} then 1 else 0
    {
      assert buf[p] == buf[q..][p - q] == s[p];
      var c := buf[p];
      StepBeforeNul(s, p);
      if state == Start {
        StartState(s, p, out, escp, ndig, nval, total);
        if c == BACK {
          AtEnd(s, p, out, total);
          return q, p;
        }
        if c == BACKSLASH {
          EnterBackslash(s, p, out, escp, ndig, nval, total);
          state := AfterBackslash;
        } else {
          PlainStep(s, p, out, total);
          q := Put(buf, s, q, out, [c]);
          out := out + [c];
          ForgetDigits(s, p + 1, out, escp, ndig, nval, total);
        }
        p := p + 1;
      } else if state == AfterBackslash {
        BackslashState(s, p, out, escp, ndig, nval, total);
        p := p + 1;
        escp, nval := p, 0;
        state := Start;
        match EscapeOf(c) {
          case Octal => state, ndig, nval := InOctal, 2, c - 48;
          case Hex => state, ndig := InHex, 2;
          case Unicode(n) => state, ndig := InUnicode, n;
          case Code(v) =>
            SimpleStep(s, p, out, total);
            q := Put(buf, s, q, out, [v]);
            out := out + [v];
            ForgetDigits(s, p, out, escp, ndig, nval, total);
          case Itself =>
            SimpleStep(s, p, out, total);
            q := Put(buf, s, q, out, [c]);
            out := out + [c];
            ForgetDigits(s, p, out, escp, ndig, nval, total);
        }
        if state != Start {
          DigitsStart(s, p, out, state, ndig, nval, total);
        }
      } else {
        DigitState1(s, p, out, state, escp, ndig, nval, total);
        SmallAccumulator(s, p, out, state, escp, ndig, nval, total);
        if IsDigit(c, Base(state)) {
          DigitStep(s, p, out, state, escp, ndig, nval, total);
          FullDigits(s, p, out, state, escp, ndig, nval, total);
          nval := Base(state) * nval + DigitValue(c);
          if state == InUnicode {
            nval := Int32(nval);
          }
          ndig := ndig - 1;
          p := p + 1;
          if ndig == 0 {
            q, out := Finish(buf, s, p, q, out, state, escp, nval, total);
            state := Start;
            ForgetDigits(s, p, out, escp, ndig, nval, total);
          } else {
            InDigits(s, p, out, state, escp, ndig, nval, total);
          }
        } else {
          PartDigits(s, p, out, state, escp, ndig, nval, total);
          q, out := Finish(buf, s, p, q, out, state, escp, nval, total);
          state := Start;
          ForgetDigits(s, p, out, escp, ndig, nval, total);
        }
      }
    }
    assert s[p] == buf[q..][p - q];
    if state == Start {
      StartState(s, p, out, escp, ndig, nval, total);
      AtEnd(s, p, out, total);
    } else if state == AfterBackslash {
      BackslashState(s, p, out, escp, ndig, nval, total);
      Unterminated(s, p, out, total);
    } else {
      DigitState1(s, p, out, state, escp, ndig, nval, total);
      SmallAccumulator(s, p, out, state, escp, ndig, nval, total);
      PartDigits(s, p, out, state, escp, ndig, nval, total);
      q, out := Finish(buf, s, p, q, out, state, escp, nval, total);
      StartState(s, p, out, 0, 0, 0, total);
      AtEnd(s, p, out, total);
    }
    return q, p;
  }

  /** Writing what the digits of an escape stand for; the letter may have to be read back. */
  method Finish(buf: array<byte>, ghost s: seq<byte>, p: nat, q: nat, ghost out: seq<byte>, state: State, escp: nat,
                nval: int, ghost total: Dequoted)
    returns (q': nat, ghost out': seq<byte>)
    requires Written(buf, s, q, out) && p < |s| && state in {InOctal, InHex, InUnicode}
    requires 1 <= escp <= p && q + 3 <= escp && nval < 0x8000_0000
    requires Machine(s, p, out + Value(s, p, state, escp, nval), Start, 0, 0, 0, total)
    requires |out| + |Value(s, p, state, escp, nval)| <= p
    modifies buf
    ensures Written(buf, s, q', out') && Machine(s, p, out', Start, 0, 0, 0, total) && q' < p
  {
    hide Body, Machine, Encode;
    StartRoom(s, p, out + Value(s, p, state, escp, nval), total);
    assert buf[escp - 1] == buf[q..][escp - 1 - q];
    var e;
    if state == InOctal {
      e := [nval % 256];
    } else if state == InHex {
      e := [if p > escp then nval % 256 else buf[escp - 1]];
    } else if p > escp {
      e := Encode(nval);
    } else {
      e := [buf[escp - 1]];
    }
    assert e == Value(s, p, state, escp, nval);
    q' := Put(buf, s, q, out, e);
    out' := out + e;
  }

  // ----- opening and closing the invariant -----

  lemma Begin(s: seq<byte>, total: Dequoted)
    requires |s| >= 1 && total == Body(s, 1)
    ensures Machine(s, 1, [], Start, 0, 0, 0, total)
  {
    assert [] + total.bytes == total.bytes;
  }

  lemma StartState(s: seq<byte>, p: nat, out: seq<byte>, escp: nat, ndig: int, nval: int, total: Dequoted)
    requires Machine(s, p, out, Start, escp, ndig, nval, total)
    ensures |out| + 1 <= p <= |s| && Leads(out, Body(s, p), total)
  {
    hide Body;
  }

  lemma EnterBackslash(s: seq<byte>, p: nat, out: seq<byte>, escp: nat, ndig: int, nval: int, total: Dequoted)
    requires p < |s| && s[p] == BACKSLASH && |out| + 1 <= p && Leads(out, Body(s, p), total)
    ensures Machine(s, p + 1, out, AfterBackslash, escp, ndig, nval, total)
  {
    hide Body;
  }

  lemma StartRoom(s: seq<byte>, p: nat, out: seq<byte>, total: Dequoted)
    requires Machine(s, p, out, Start, 0, 0, 0, total)
    ensures |out| + 1 <= p <= |s|
  {
  }

  /** The digit counters play no part outside the digit states. */
  lemma ForgetDigits(s: seq<byte>, p: nat, out: seq<byte>, escp: nat, ndig: int, nval: int, total: Dequoted)
    requires Machine(s, p, out, Start, 0, 0, 0, total)
    ensures Machine(s, p, out, Start, escp, ndig, nval, total) && |out| < p
  {
  }

  lemma BackslashState(s: seq<byte>, p: nat, out: seq<byte>, escp: nat, ndig: int, nval: int, total: Dequoted)
    requires Machine(s, p, out, AfterBackslash, escp, ndig, nval, total)
    ensures |out| + 2 <= p <= |s| && s[p - 1] == BACKSLASH && Leads(out, Body(s, p - 1), total)
  {
  }

  lemma SimpleStep(s: seq<byte>, p: nat, out: seq<byte>, total: Dequoted)
    requires 2 <= p <= |s| && |out| + 3 <= p && s[p - 2] == BACKSLASH && s[p - 1] != 0
    requires Leads(out, Body(s, p - 2), total) && (EscapeOf(s[p - 1]).Code? || EscapeOf(s[p - 1]).Itself?)
    ensures Machine(s, p, out + [if EscapeOf(s[p - 1]).Code? then EscapeOf(s[p - 1]).value else s[p - 1]],
                    Start, 0, 0, 0, total)
  {
    hide Body, EscapeBytes, EscapeEnd;
    SimpleEscape(s, p - 1);
    EscapeStep(s, p - 2, p, out, EscapeBytes(s, p - 1), total);
  }

  lemma DigitsStart(s: seq<byte>, p: nat, out: seq<byte>, state: State, ndig: int, nval: int, total: Dequoted)
    requires 2 <= p <= |s| && |out| + 3 <= p && s[p - 2] == BACKSLASH && s[p - 1] != 0 && DigitState(state, s[p - 1])
    requires Leads(out, Body(s, p - 2), total)
    requires if state == InOctal then ndig == 2 && nval == s[p - 1] - 48
             else nval == 0 && ndig == match EscapeOf(s[p - 1]) case Hex => 2 case Unicode(n) => n case _ => 0
    ensures Machine(s, p, out, state, p, ndig, nval, total)
  {
    hide Body;
    DigitsBegin(s, p, out, state, total);
  }

  lemma DigitState1(s: seq<byte>, p: nat, out: seq<byte>, state: State, escp: nat, ndig: int, nval: int,
                    total: Dequoted)
    requires Machine(s, p, out, state, escp, ndig, nval, total) && state in {InOctal, InHex, InUnicode}
    ensures Digits(s, p, out, state, escp, ndig, nval, total) && |out| + 3 <= escp && ndig > 0
  {
  }

  /** The last digit that the escape asks for. */
  lemma FullDigits(s: seq<byte>, p: nat, out: seq<byte>, state: State, escp: nat, ndig: int, nval: int, total: Dequoted)
    requires Digits(s, p, out, state, escp, ndig, nval, total) && p < |s| && IsDigit(s[p], Base(state))
    requires state in {InOctal, InHex, InUnicode} && nval < 0x8000_0000 && (state != InUnicode ==> 0 <= nval < 0x100)
    ensures ndig == 1 ==>
              var x := Base(state) * nval + DigitValue(s[p]);
              var y := if state == InUnicode then Int32(x) else x;
              y < 0x8000_0000
              && Machine(s, p + 1, out + Value(s, p + 1, state, escp, y), Start, 0, 0, 0, total)
              && |out| + |Value(s, p + 1, state, escp, y)| <= p + 1
  {
    hide Body, Machine, Value, Leads;
    DigitStep(s, p, out, state, escp, ndig, nval, total);
    var x := Base(state) * nval + DigitValue(s[p]);
    var y := if state == InUnicode then Int32(x) else x;
    if ndig == 1 {
      DigitsDone(s, p + 1, out, state, escp, y, total);
    }
  }

  /** A byte that is no digit ends the escape early. */
  lemma PartDigits(s: seq<byte>, p: nat, out: seq<byte>, state: State, escp: nat, ndig: int, nval: int, total: Dequoted)
    requires Digits(s, p, out, state, escp, ndig, nval, total) && p < |s| && !IsDigit(s[p], Base(state))
    requires state in {InOctal, InHex, InUnicode} && nval < 0x8000_0000
    ensures Machine(s, p, out + Value(s, p, state, escp, nval), Start, 0, 0, 0, total)
    ensures |out| + |Value(s, p, state, escp, nval)| <= p
  {
    hide Body, Machine, Value, Leads;
    DigitsDone(s, p, out, state, escp, nval, total);
  }

  lemma InDigits(s: seq<byte>, p: nat, out: seq<byte>, state: State, escp: nat, ndig: int, nval: int, total: Dequoted)
    requires Digits(s, p, out, state, escp, ndig, nval, total) && state in {InOctal, InHex, InUnicode}
    ensures Machine(s, p, out, state, escp, ndig, nval, total)
  {
  }

  // ----- the other quotes -----

  /** The loop for '...' and "...", which moves bytes one place to the left. */
  method UnquotePlain(buf: array<byte>) returns (len: nat, ep: nat)
    requires Terminated(buf[..]) && buf.Length > 1 && buf[0] != 0 && BeforeNul(buf[..], 1)
    modifies buf
    ensures var d := Plain(old(buf[..]), 1, old(buf[0]));
            len == |d.bytes| < buf.Length && buf[..len] == d.bytes && ep == d.end == len + 1 < buf.Length
    ensures buf[len] == 0 && buf[ep..] == old(buf[ep..])
  {
    hide Plain;
    ghost var s := buf[..];
    var bq := buf[0];
    ghost var total := Plain(s, 1, bq);
    ghost var out: seq<byte> := [];
    var p: nat, q: nat := 1, 0;
    assert [] + total.bytes == total.bytes;
    while buf[p] != 0 && buf[p] != bq
      invariant Written(buf, s, q, out) && BeforeNul(s, p) && p == q + 1
      invariant Leads(out, Plain(s, p, bq), total)
      decreases |s| - p
    {
      assert buf[p] == buf[q..][1] == s[p];
      StepBeforeNul(s, p);
      PlainMore(s, p, bq);
      LeadsOn(out, [s[p]], Plain(s, p + 1, bq), total);
      q := Put(buf, s, q, out, [buf[p]]);
      out := out + [s[p]];
      p := p + 1;
    }
    assert buf[p] == buf[q..][1] == s[p];
    PlainMore(s, p, bq);
    assert out + [] == out;
    assert buf[p..] == s[p..] by { assert buf[q..][1..] == s[q..][1..]; }
    buf[q] := 0;
    return q, p;
  }

  lemma PlainMore(s: seq<byte>, p: nat, q: byte)
    requires p < |s|
    ensures Plain(s, p, q) == if s[p] == 0 || s[p] == q then Dequoted([], p) else Prefixed([s[p]], Plain(s, p + 1, q))
  {
  }

  /** `strchr(str, '\0')` */
  method FindNul(buf: array<byte>) returns (p: nat)
    requires Terminated(buf[..])
    ensures p < buf.Length && Plain(buf[..], 0, 0) == Dequoted(buf[..p], p)
  {
    hide Plain;
    var s := buf[..];
    ghost var total := Plain(s, 0, 0);
    p := 0;
    assert [] + total.bytes == total.bytes;
    while buf[p] != 0
      invariant BeforeNul(s, p) && Leads(s[..p], Plain(s, p, 0), total)
      decreases |s| - p
    {
      StepBeforeNul(s, p);
      PlainMore(s, p, 0);
      LeadsOn(s[..p], [s[p]], Plain(s, p + 1, 0), total);
      assert s[..p + 1] == s[..p] + [s[p]];
      p := p + 1;
    }
    PlainMore(s, p, 0);
    assert s[..p] + [] == s[..p];
  }

  /**
    nasm_unquote.  The bytes end up in front, and `ep` says where the closing quote or the
    NUL was.  An empty string leaves `ep` as it was.
   */
  method NasmUnquote(buf: array<byte>, ep0: nat) returns (len: nat, ep: nat)
    requires Terminated(buf[..])
    modifies buf
    ensures var d := Dequote(old(buf[..]));
            && len == |d.bytes| <= buf.Length && buf[..len] == d.bytes
            && ep == if old(buf[0]) == 0 then ep0 else d.end
  {
    hide Body, Plain;
    if buf[0] == 0 {
      return 0, ep0;
    }
    assert BeforeNul(buf[..], 0);
    StepBeforeNul(buf[..], 0);
    if buf[0] == SINGLE || buf[0] == DOUBLE {
      len, ep := UnquotePlain(buf);
    } else if buf[0] == BACK {
      len, ep := UnquoteBack(buf);
    } else {
      ep := FindNul(buf);
      len := ep;
    }
  }

  // ----- nasm_skip_string -----

  /** The two-state machine's end. */
  function Skip(s: seq<byte>, p: nat, escaped: bool): (end: nat)
    requires p <= |s|
    ensures p <= end <= |s|
    decreases |s| - p
  {
    if p == |s| || s[p] == 0 then p
    else if escaped then Skip(s, p + 1, false)
    else if s[p] == BACKSLASH then Skip(s, p + 1, true)
    else if s[p] == BACK then p
    else Skip(s, p + 1, false)
  }

  /** Digits are ordinary bytes to it. */
  lemma {:induction false} SkipDigits(s: seq<byte>, p: nat, n: nat, base: nat)
    requires p + n <= |s| && AllDigits(s, p, n, base)
    ensures Skip(s, p, false) == Skip(s, p + n, false)
    decreases n
  {
    if n > 0 {
      assert IsDigit(s[p], base);
      assert forall k :: p + 1 <= k < p + n ==> IsDigit(s[k], base);
      SkipDigits(s, p + 1, n - 1, base);
    }
  }

  /** It need not know where an escape ends: two states stop where five do. */
  lemma {:induction false} SkipsToBodyEnd(s: seq<byte>, p: nat)
    requires p <= |s|
    ensures Skip(s, p, false) == Body(s, p).end
    decreases |s| - p
  {
    hide EscapeBytes, Run;
    if p < |s| && s[p] != 0 && s[p] != BACK {
      if s[p] != BACKSLASH {
        SkipsToBodyEnd(s, p + 1);
      } else if p + 1 < |s| && s[p + 1] != 0 {
        SkipEscape(s, p + 1);
        SkipsToBodyEnd(s, EscapeEnd(s, p + 1));
      }
    }
  }

  lemma SkipEscape(s: seq<byte>, e: nat)
    requires e < |s| && s[e] != 0
    ensures Skip(s, e, true) == Skip(s, EscapeEnd(s, e), false)
  {
    hide Run;
    match EscapeOf(s[e]) {
      case Octal =>
        var n := Run(s, e, 3, 8);
        RunDigits(s, e, 3, 8);
        if n > 0 {
          assert forall k :: e + 1 <= k < e + n ==> IsDigit(s[k], 8);
          SkipDigits(s, e + 1, n - 1, 8);
        }
      case Hex =>
        RunDigits(s, e + 1, 2, 16);
        SkipDigits(s, e + 1, Run(s, e + 1, 2, 16), 16);
      case Unicode(most) =>
        RunDigits(s, e + 1, most, 16);
        SkipDigits(s, e + 1, Run(s, e + 1, most, 16), 16);
      case _ =>
    }
  }

  /** nasm_skip_string: for a string in any of the three quotes, terminated or not, the
      index is the one nasm_unquote reports. */
  method NasmSkipString(s: seq<byte>) returns (end: nat)
    requires Terminated(s)
    ensures end < |s|
    ensures if IsQuote(s[0]) then end == Dequote(s).end else end == 0
  {
    hide Body, Plain, Skip;
    if s[0] == SINGLE || s[0] == DOUBLE {
      assert BeforeNul(s, 0);
      StepBeforeNul(s, 0);
      end := 1;
      while s[end] != 0 && s[end] != s[0]
        invariant BeforeNul(s, end) && 1 <= end && Plain(s, end, s[0]).end == Plain(s, 1, s[0]).end
        decreases |s| - end
      {
        StepBeforeNul(s, end);
        PlainMore(s, end, s[0]);
        end := end + 1;
      }
      PlainMore(s, end, s[0]);
    } else if s[0] == BACK {
      assert BeforeNul(s, 0);
      StepBeforeNul(s, 0);
      SkipsToBodyEnd(s, 1);
      var escaped := false;
      end := 1;
      while s[end] != 0
        invariant BeforeNul(s, end) && 1 <= end && Skip(s, end, escaped) == Skip(s, 1, false)
        decreases |s| - end
      {
        StepBeforeNul(s, end);
        SkipMore(s, end, escaped);
        if !escaped && s[end] == BACK {
          return;
        }
        escaped := !escaped && s[end] == BACKSLASH;
        end := end + 1;
      }
      SkipMore(s, end, escaped);
    } else {
      end := 0;
    }
  }

  lemma SkipMore(s: seq<byte>, p: nat, escaped: bool)
    requires p < |s|
    ensures s[p] == 0 || (!escaped && s[p] == BACK) ==> Skip(s, p, escaped) == p
    ensures s[p] != 0 && !(!escaped && s[p] == BACK) ==>
              Skip(s, p, escaped) == Skip(s, p + 1, !escaped && s[p] == BACKSLASH)
  {
  }
}
