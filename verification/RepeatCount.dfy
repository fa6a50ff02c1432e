/** How often a %rep block is repeated, line by line. */
module RepeatCount {
  import opened Powers
  import opened Repeat

  /** Below 2^62 a block is repeated as often as it says; a negative or larger count drops it. */
  lemma RepeatedLines<T>(count: int, s: seq<T>, k: nat)
    requires |s| > 0
    ensures var n := if 0 <= count < 0x4000_0000_0000_0000 then count else 0;
            var r := Times(Copies(count), s);
            |r| == n * |s| && (k < |r| ==> r[k] == s[k % |s|])
  {
    TimesLength(Copies(count), s);
    if k < |Times(Copies(count), s)| {
      TimesAt(Copies(count), s, k);
    }
  }

  lemma {:induction false} TimesLength<T>(n: nat, s: seq<T>)
    ensures |Times(n, s)| == n * |s|
  {
    if n > 0 {
      TimesLength(n - 1, s);
      OneFewer(n, |s|);
    }
  }

  lemma OneFewer(n: nat, m: nat)
    ensures n * m == (n - 1) * m + m
  {
  }

  lemma {:induction false} TimesAt<T>(n: nat, s: seq<T>, k: nat)
    requires |s| > 0 && k < |Times(n, s)|
    ensures Times(n, s)[k] == s[k % |s|]
  {
    if k < |s| {
      DivModUnique(k, |s|, 0, k);
    } else {
      TimesAt(n - 1, s, k - |s|);
      SameRest(k, |s|);
    }
  }

  lemma SameRest(k: nat, m: nat)
    requires 0 < m <= k
    ensures (k - m) % m == k % m
  {
    var q, r := (k - m) / m, (k - m) % m;
    assert k == (q + 1) * m + r;
    DivModUnique(k, m, q + 1, r);
  }
}
