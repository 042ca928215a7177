/** Decimal numbers as text: what `%lu` prints and what `wena_number` in server/region_response.c
    reads. */
module Decimals {
  import opened BitStreams

  type Text = seq<Byte>

  /** The largest `unsigned long`, of 64 bits. */
  const ULONG_MAX: nat := 0xFFFF_FFFF_FFFF_FFFF

  predicate IsDigit(b: Byte) { 48 <= b <= 57 }

  ghost predicate AllDigits(t: Text) { forall i :: 0 <= i < |t| ==> IsDigit(t[i]) }

  /** A number as it is printed. */
  function Decimal(n: nat): (t: Text)
    ensures t != []
  {
    if n < 10 then [48 + n] else Decimal(n / 10) + [48 + n % 10]
  }

  ghost function Value(t: Text): nat
    requires AllDigits(t)
  {
    if t == [] then 0 else 10 * Value(t[..|t| - 1]) + (t[|t| - 1] - 48)
  }

  /** The number a text stands for: digits, leading zeros allowed, neither zero nor too large. */
  ghost function NumberOf(t: Text): Option<nat>
  {
    if t != [] && AllDigits(t) && 0 < Value(t) <= ULONG_MAX then Some(Value(t)) else None
  }

  lemma {:induction false} PrintedValue(n: nat)
    ensures AllDigits(Decimal(n)) && Value(Decimal(n)) == n
  {
    if n >= 10 {
      PrintedValue(n / 10);
      assert Decimal(n)[..|Decimal(n)| - 1] == Decimal(n / 10);
    }
  }

  /** A printed number is read as itself. */
  lemma NumberOfPrinted(n: nat)
    requires 0 < n <= ULONG_MAX
    ensures NumberOf(Decimal(n)) == Some(n)
  {
    PrintedValue(n);
  }

  /** No text of a number is shorter than the printed one. */
  lemma {:induction false} PrintedIsShortest(t: Text)
    requires t != [] && AllDigits(t)
    ensures |Decimal(Value(t))| <= |t|
  {
    if |t| == 1 {
      assert Value(t[..0]) == 0;
    } else {
      var front, last := t[..|t| - 1], t[|t| - 1] - 48;
      PrintedIsShortest(front);
      if 10 <= Value(t) {
        LastDigit(Value(front), last);
      }
    }
  }

  lemma LastDigit(v: nat, d: nat)
    requires d < 10
    ensures (10 * v + d) / 10 == v && (10 * v + d) % 10 == d
  {
  }

  lemma {:induction false} ValueGrows(t: Text, n: nat)
    requires AllDigits(t) && n <= |t|
    ensures AllDigits(t[..n]) && Value(t[..n]) <= Value(t)
    decreases |t|
  {
    if n == |t| {
      assert t[..n] == t;
    } else {
      ValueGrows(t[..|t| - 1], n);
      assert t[..|t| - 1][..n] == t[..n];
    }
  }

  /** `wena_number`. */
  method ReadNumber(input: Text, start: nat, end: nat) returns (number: Option<nat>)
    requires start <= end <= |input|
    ensures number == NumberOf(input[start..end])
  {
    hide Value;
    if start == end {
      return None;
    }
    ghost var t := input[start..end];
    var result, at := 0, start;
    ValueNone();
    assert t[..0] == [];
    while at < end
      invariant start <= at <= end && AllDigits(t[..at - start]) && result == Value(t[..at - start]) <= ULONG_MAX
    {
      ghost var n := at - start;
      assert input[at] == t[n];
      if !IsDigit(input[at]) {
        assert !AllDigits(t);
        return None;
      }
      var digit := input[at] - 48;
      at := at + 1;
      ValueNext(t, n);
      if result > (ULONG_MAX - digit) / 10 {
        if AllDigits(t) {
          ValueGrows(t, n + 1);
        }
        return None;
      }
      result := result * 10 + digit;
    }
    assert t[..end - start] == t;
    number := if result == 0 then None else Some(result);
  }

  lemma ValueNone()
    ensures Value([]) == 0
  {
  }

  lemma ValueNext(t: Text, n: nat)
    requires n < |t| && AllDigits(t[..n]) && IsDigit(t[n])
    ensures AllDigits(t[..n + 1]) && Value(t[..n + 1]) == 10 * Value(t[..n]) + (t[n] - 48)
  {
    assert t[..n + 1][..n] == t[..n];
    var u := t[..n + 1];
    forall i | 0 <= i < |u| ensures IsDigit(u[i]) {
      assert i < n ==> u[i] == t[..n][i];
    }
  }

  /** What is read as which number: one or more digits, of a number that is neither zero nor beyond 64
      bits. None spell zero, and one more digit is ten times as much and itself. */
  lemma NumberExactly(t: Text, n: nat, d: Byte)
    requires 48 <= d <= 57
    ensures NumberOf(t) == Some(n) <==>
      && t != [] && (forall i :: 0 <= i < |t| ==> 48 <= t[i] <= 57)
      && AllDigits(t) && Value(t) == n && 0 < n <= 18446744073709551615
    ensures Value([]) == 0 && (AllDigits(t) ==> AllDigits(t + [d]) && Value(t + [d]) == 10 * Value(t) + (d - 48))
  {
    hide Value;
    ValueNone();
    var u := t + [d];
    assert u[..|t|] == t && u[..|t| + 1] == u;
    if AllDigits(t) {
      ValueNext(u, |t|);
    }
  }
}
