/** The suggestion cursor: the index of the highlighted suggestion, moved by
    next and prev, reset when the number of results changes, and read on
    confirm. The index is a JavaScript number, so the arithmetic on an empty
    result list is written out as JavaScript performs it (`% 0` gives NaN,
    prev from 0 gives -1). */
module SuggestionCursor {
  import opened Strings
  import opened Document

  /** A JavaScript number used as an index: an integer or NaN. */
  datatype Index = Num(i: int) | NotANumber

  /** `s` indexes one of `n` results. */
  predicate InRange(s: Index, n: nat) {
    s.Num? && 0 <= s.i < n
  }

  /** JavaScript's `a % n` for a positive `n`: the remainder has the sign of `a`. */
  function JsRem(a: int, n: int): (r: int)
    requires n > 0
    ensures a >= 0 ==> r == a % n
    ensures a < 0 ==> -n < r <= 0
    ensures (a - r) % n == 0
  {
    if a >= 0 then
      MultipleMod(a / n, n);
      assert a - a % n == (a / n) * n;
      a % n
    else
      MultipleMod(-((-a) / n), n);
      assert a + (-a) % n == (-((-a) / n)) * n;
      -((-a) % n)
  }

  /** A multiple of `n` leaves no remainder. */
  lemma MultipleMod(q: int, n: int)
    requires n > 0
    ensures (q * n) % n == 0
  {
    var x := q * n;
    var d := q - x / n;
    assert x % n == n * d;
    ScaledBound(n, d);
  }

  lemma ScaledBound(n: int, d: int)
    requires n > 0
    ensures d >= 1 ==> n * d >= n
    ensures d <= -1 ==> n * d <= -n
  {
    if d >= 1 {
      assert n * d == n * (d - 1) + n;
    } else if d <= -1 {
      assert n * d == n * (d + 1) - n;
    }
  }

  /** `(selectedIndex + 1) % results.length` */
  function NextIndex(s: Index, n: nat): (r: Index)
    ensures InRange(s, n) ==> InRange(r, n)
    ensures n == 0 ==> r == NotANumber
  {
    if s.NotANumber? || n == 0 then NotANumber else Num(JsRem(s.i + 1, n))
  }

  /** `selectedIndex === 0 ? results.length - 1 : selectedIndex - 1` */
  function PrevIndex(s: Index, n: nat): (r: Index)
    ensures InRange(s, n) ==> InRange(r, n)
    ensures s == Num(0) && n == 0 ==> r == Num(-1)
  {
    match s
    case NotANumber => NotANumber
    case Num(i) => if i == 0 then Num(n - 1) else Num(i - 1)
  }

  /** Next and prev undo each other on an index in range. */
  lemma NextPrevInverse(i: int, n: nat)
    requires 0 <= i < n
    ensures PrevIndex(NextIndex(Num(i), n), n) == Num(i)
    ensures NextIndex(PrevIndex(Num(i), n), n) == Num(i)
  {
    if i + 1 < n {
      NextStep(i, n);
    } else {
      NextWrap(n);
    }
    if i > 0 {
      NextStep(i - 1, n);
    } else {
      NextWrap(n);
    }
  }

  /** Next from the last index wraps to the first. */
  lemma NextWrap(n: nat)
    requires n > 0
    ensures NextIndex(Num(n - 1), n) == Num(0)
  {
    assert n % n == 0;
  }

  /** `k` consecutive next steps. */
  function NextTimes(s: Index, n: nat, k: nat): Index {
    if k == 0 then s else NextIndex(NextTimes(s, n, k - 1), n)
  }

  lemma NextStep(m: int, n: nat)
    requires 0 <= m && m + 1 < n
    ensures NextIndex(Num(m), n) == Num(m + 1)
  {
    assert (m + 1) % n == m + 1;
  }

  /** Steps that stay below `n` advance the index one by one. */
  lemma {:induction false} NextTimesAdvance(i: int, n: nat, k: nat)
    requires 0 <= i && i + k < n
    ensures NextTimes(Num(i), n, k) == Num(i + k)
  {
    if k > 0 {
      NextTimesAdvance(i, n, k - 1);
      NextStep(i + k - 1, n);
    }
  }

  lemma {:induction false} NextTimesCompose(s: Index, n: nat, a: nat, b: nat)
    ensures NextTimes(s, n, a + b) == NextTimes(NextTimes(s, n, a), n, b)
  {
    if b > 0 {
      NextTimesCompose(s, n, a, b - 1);
    }
  }

  /** Next is circular: from the last index it wraps to 0, and `n` steps
      from any index in range come back to it. */
  lemma NextCycle(i: int, n: nat)
    requires 0 <= i < n
    ensures NextIndex(Num(n - 1), n) == Num(0)
    ensures NextTimes(Num(i), n, n) == Num(i)
  {
    NextWrap(n);
    var toLast := n - 1 - i;
    NextTimesAdvance(i, n, toLast);
    NextTimesCompose(Num(i), n, toLast, 1);
    assert NextTimes(Num(i), n, toLast + 1) == Num(0);
    NextTimesAdvance(0, n, i);
    NextTimesCompose(Num(i), n, toLast + 1, i);
  }

  /** The reset effect `if (selectedIndex > results.length - 1) setSelectedIndex(0)`. */
  function ResetIndex(s: Index, n: nat): (r: Index)
    ensures s.Num? && s.i > n - 1 ==> r == Num(0)
    ensures InRange(s, n) ==> r == s
    ensures s.Num? && s.i >= 0 && n > 0 ==> InRange(r, n)
    ensures s == NotANumber ==> r == NotANumber
  {
    match s
    case NotANumber => s
    case Num(i) => if i > n - 1 then Num(0) else s
  }

  /** `results[selectedIndex]`: undefined (None) unless the index is in range. */
  function Pick(s: Index, results: seq<SuggestionResult>): (r: Option<SuggestionResult>)
    ensures r.Some? <==> InRange(s, |results|)
    ensures r.Some? ==> r.value in results && r.value == results[s.i]
  {
    if InRange(s, |results|) then Some(results[s.i]) else None
  }

  /** The highlighted index and the result count the reset effect last saw. */
  class SuggestionList {
    var selected: Index
    var count: nat

    /** Mounting with `n` results highlights the first. */
    constructor (n: nat)
      ensures selected == Num(0) && count == n
    {
      selected := Num(0);
      count := n;
    }

    method Next(n: nat)
      modifies this
      ensures selected == NextIndex(old(selected), n) && count == old(count)
      ensures InRange(old(selected), n) ==> InRange(selected, n)
    {
      selected := NextIndex(selected, n);
    }

    method Prev(n: nat)
      modifies this
      ensures selected == PrevIndex(old(selected), n) && count == old(count)
      ensures InRange(old(selected), n) ==> InRange(selected, n)
    {
      selected := PrevIndex(selected, n);
    }

    /** The effect that runs when the number of results changes to `n`. */
    method ResultsChanged(n: nat)
      modifies this
      ensures count == n
      ensures selected == if n != old(count) then ResetIndex(old(selected), n) else old(selected)
      ensures n != old(count) && old(selected).Num? && old(selected).i >= 0 && n > 0 ==> InRange(selected, n)
    {
      if n != count {
        selected := ResetIndex(selected, n);
        count := n;
      }
    }

    /** The result that confirm hands to the commit, if the index is in range. */
    method Confirm(results: seq<SuggestionResult>) returns (r: Option<SuggestionResult>)
      ensures r.Some? <==> InRange(selected, |results|)
      ensures r.Some? ==> r.value == results[selected.i]
    {
      r := Pick(selected, results);
    }
  }
}
