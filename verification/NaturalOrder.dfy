/** The natural order of titles (models/view_rows.c, `natural`): a run of digits compares as a
    number and case does not count. */
module NaturalOrder {
  import opened BitStreams

  /** A C string, without its final NUL. */
  type Text = seq<Byte>

  function Sign(a: int, b: int): int { if a < b then -1 else if a > b then 1 else 0 }

  predicate IsDigit(c: Byte) { '0' as nat <= c <= '9' as nat }

  function Lower(c: Byte): Byte { if 'A' as nat <= c <= 'Z' as nat then c - 'A' as nat + 'a' as nat else c }

  // ----- what a string ranks by

  /** A letter ranks by itself in lower case; a number ranks where digits do and then by its value. */
  datatype Token = Token(rank: nat, value: nat)

  function Pow10(n: nat): (p: nat)
    ensures 0 < p
  {
    if n == 0 then 1 else 10 * Pow10(n - 1)
  }

  /** How many digits a string begins with. */
  function Digits(s: Text): (n: nat)
    ensures n <= |s| && (forall i :: 0 <= i < n ==> IsDigit(s[i])) && (n < |s| ==> !IsDigit(s[n]))
  {
    if s == [] || !IsDigit(s[0]) then 0 else 1 + Digits(s[1..])
  }

  predicate AllDigits(s: Text) { forall i :: 0 <= i < |s| ==> IsDigit(s[i]) }

  function Value(s: Text): nat
    requires AllDigits(s)
  {
    if s == [] then 0 else (s[0] - '0' as nat) * Pow10(|s| - 1) + Value(s[1..])
  }

  /** The string as tokens. */
  function Key(s: Text): seq<Token>
    decreases |s|
  {
    if s == [] then []
    else
      var n := Digits(s);
      if n > 0 then [Token('0' as nat, Value(s[..n]))] + Key(s[n..])
      else [Token(Lower(s[0]), 0)] + Key(s[1..])
  }

  function CompareTokens(t: Token, u: Token): int
  {
    if t.rank != u.rank then Sign(t.rank, u.rank) else Sign(t.value, u.value)
  }

  /** The first tokens that differ decide, and otherwise a prefix goes first. */
  function CompareKeys(k: seq<Token>, l: seq<Token>): int
  {
    if k == [] && l == [] then 0
    else if k == [] then -1
    else if l == [] then 1
    else if CompareTokens(k[0], l[0]) != 0 then CompareTokens(k[0], l[0])
    else CompareKeys(k[1..], l[1..])
  }

  function Natural(a: Text, b: Text): int { CompareKeys(Key(a), Key(b)) }

  // ----- it is a total preorder

  lemma {:induction false} KeysReversed(k: seq<Token>, l: seq<Token>)
    ensures CompareKeys(l, k) == -CompareKeys(k, l)
  {
    if k != [] && l != [] {
      KeysReversed(k[1..], l[1..]);
    }
  }

  lemma {:induction false} KeysTransitive(k: seq<Token>, l: seq<Token>, m: seq<Token>)
    requires CompareKeys(k, l) <= 0 && CompareKeys(l, m) <= 0
    ensures CompareKeys(k, m) <= 0
  {
    if k != [] && l != [] && m != [] && CompareTokens(k[0], l[0]) == 0 && CompareTokens(l[0], m[0]) == 0 {
      KeysTransitive(k[1..], l[1..], m[1..]);
    }
  }

  lemma {:induction false} KeysEqual(k: seq<Token>, l: seq<Token>)
    ensures CompareKeys(k, l) == 0 <==> k == l
  {
    if k != [] && l != [] {
      KeysEqual(k[1..], l[1..]);
      assert k == [k[0]] + k[1..] && l == [l[0]] + l[1..];
    }
  }

  /** Two strings rank the same exactly when they read the same, up to case and leading zeros. */
  lemma NaturalIsPreorder(a: Text, b: Text, c: Text)
    ensures Natural(b, a) == -Natural(a, b)
    ensures Natural(a, b) <= 0 && Natural(b, c) <= 0 ==> Natural(a, c) <= 0
    ensures Natural(a, b) == 0 <==> Key(a) == Key(b)
  {
    hide Key, CompareKeys;
    KeysReversed(Key(a), Key(b));
    KeysEqual(Key(a), Key(b));
    if Natural(a, b) <= 0 && Natural(b, c) <= 0 {
      KeysTransitive(Key(a), Key(b), Key(c));
    }
  }

  // ----- comparing digits is comparing numbers

  lemma {:induction false} ValueBound(s: Text)
    requires AllDigits(s)
    ensures Value(s) < Pow10(|s|)
    ensures s != [] && s[0] != '0' as nat ==> Pow10(|s| - 1) <= Value(s)
  {
    if s != [] {
      ValueBound(s[1..]);
      Digit(s[0] - '0' as nat, Pow10(|s| - 1));
    }
  }

  lemma Digit(d: nat, p: nat)
    requires d <= 9
    ensures d * p <= 9 * p && (0 < d ==> p <= d * p)
  {
  }

  lemma LessDigit(d: nat, e: nat, p: nat)
    requires d < e
    ensures d * p + p <= e * p
  {
    assert e * p == (d + 1) * p + (e - (d + 1)) * p;
  }

  lemma {:induction false} PowerMonotone(m: nat, n: nat)
    requires m <= n
    ensures Pow10(m) <= Pow10(n)
  {
    if m < n {
      PowerMonotone(m, n - 1);
    }
  }

  /** Without leading zeros the shorter number is smaller. */
  lemma ShorterIsLess(x: Text, y: Text)
    requires AllDigits(x) && AllDigits(y) && |x| < |y| && y[0] != '0' as nat
    ensures Value(x) < Value(y)
  {
    ValueBound(x);
    ValueBound(y);
    PowerMonotone(|x|, |y| - 1);
  }

  /** `strncmp` on strings of one length: the first difference decides. */
  function StringCompare(x: Text, y: Text): (c: int)
    requires |x| == |y|
    ensures -1 <= c <= 1
  {
    if x == [] then 0 else if x[0] != y[0] then Sign(x[0], y[0]) else StringCompare(x[1..], y[1..])
  }

  lemma {:induction false} SameLengthCompares(x: Text, y: Text)
    requires AllDigits(x) && AllDigits(y) && |x| == |y|
    ensures StringCompare(x, y) == Sign(Value(x), Value(y))
  {
    if x != [] {
      var p := Pow10(|x| - 1);
      ValueBound(x[1..]);
      ValueBound(y[1..]);
      if x[0] < y[0] {
        LessDigit(x[0] - '0' as nat, y[0] - '0' as nat, p);
      } else if y[0] < x[0] {
        LessDigit(y[0] - '0' as nat, x[0] - '0' as nat, p);
      } else {
        SameLengthCompares(x[1..], y[1..]);
      }
    }
  }

  lemma {:induction false} LeadingZeros(s: Text, k: nat)
    requires AllDigits(s) && k <= |s| && forall i :: 0 <= i < k ==> s[i] == '0' as nat
    ensures Value(s) == Value(s[k..])
  {
    if k > 0 {
      LeadingZeros(s[1..], k - 1);
      assert s[1..][k - 1..] == s[k..];
    } else {
      assert s[0..] == s;
    }
  }

  // ----- the comparison

  /** Past the zeros, and past the digits after them. */
  method ScanNumber(s: Text, i: nat) returns (start: nat, end: nat)
    requires i < |s| && IsDigit(s[i])
    ensures i <= start <= end == i + Digits(s[i..])
    ensures (forall k :: i <= k < start ==> s[k] == '0' as nat) && (start < end ==> s[start] != '0' as nat)
  {
    start := i;
    while start < |s| && s[start] == '0' as nat
      invariant i <= start <= |s| && forall k :: i <= k < start ==> s[k] == '0' as nat
    {
      start := start + 1;
    }
    end := start;
    while end < |s| && IsDigit(s[end])
      invariant start <= end <= |s| && forall k :: i <= k < end ==> IsDigit(s[k])
    {
      end := end + 1;
    }
    DigitsEnd(s[i..], end - i);
    assert start < end ==> s[start] != '0' as nat;
  }

  lemma {:induction false} DigitsEnd(s: Text, n: nat)
    requires n <= |s| && (forall k :: 0 <= k < n ==> IsDigit(s[k])) && (n < |s| ==> !IsDigit(s[n]))
    ensures Digits(s) == n
  {
    if n > 0 {
      DigitsEnd(s[1..], n - 1);
    }
  }

  /** A number at the front of both strings. */
  lemma NumbersFirst(a: Text, i: nat, x: nat, x1: nat, b: Text, j: nat, y: nat, y1: nat)
    requires i < |a| && IsDigit(a[i]) && i <= x <= x1 == i + Digits(a[i..])
    requires j < |b| && IsDigit(b[j]) && j <= y <= y1 == j + Digits(b[j..])
    requires (forall k :: i <= k < x ==> a[k] == '0' as nat) && (x < x1 ==> a[x] != '0' as nat)
    requires (forall k :: j <= k < y ==> b[k] == '0' as nat) && (y < y1 ==> b[y] != '0' as nat)
    ensures var c := if x1 - x != y1 - y then Sign(x1 - x, y1 - y) else StringCompare(a[x..x1], b[y..y1]);
      Natural(a[i..], b[j..]) == if c != 0 then c else Natural(a[x1..], b[y1..])
  {
    hide Value, CompareTokens, StringCompare, Digits, CompareKeys;
    var m, n := a[i..x1], b[j..y1];
    FirstNumber(a, i, x1);
    FirstNumber(b, j, y1);
    LeadingZeros(m, x - i);
    LeadingZeros(n, y - j);
    assert m[x - i..] == a[x..x1] && n[y - j..] == b[y..y1];
    if x1 - x < y1 - y {
      ShorterIsLess(a[x..x1], b[y..y1]);
    } else if y1 - y < x1 - x {
      ShorterIsLess(b[y..y1], a[x..x1]);
    } else {
      SameLengthCompares(a[x..x1], b[y..y1]);
    }
    FirstTokens(Token('0' as nat, Value(m)), Key(a[x1..]), Token('0' as nat, Value(n)), Key(b[y1..]));
  }

  lemma FirstNumber(s: Text, i: nat, end: nat)
    requires i < |s| && IsDigit(s[i]) && end == i + Digits(s[i..])
    ensures i < end && AllDigits(s[i..end]) && Key(s[i..]) == [Token('0' as nat, Value(s[i..end]))] + Key(s[end..])
  {
    hide Value;
    assert s[i..][..end - i] == s[i..end] && s[i..][end - i..] == s[end..];
  }

  lemma FirstLetter(s: Text, i: nat)
    requires i < |s| && !IsDigit(s[i])
    ensures Key(s[i..]) == [Token(Lower(s[i]), 0)] + Key(s[i + 1..])
  {
    assert s[i..][1..] == s[i + 1..];
  }

  lemma FirstTokens(t: Token, k: seq<Token>, u: Token, l: seq<Token>)
    ensures CompareTokens(Token(t.rank, t.value), u) == if t.rank != u.rank then Sign(t.rank, u.rank) else Sign(t.value, u.value)
    ensures CompareKeys([t] + k, [u] + l) == if CompareTokens(t, u) != 0 then CompareTokens(t, u) else CompareKeys(k, l)
  {
    assert ([t] + k)[1..] == k && ([u] + l)[1..] == l;
  }

  /** Characters of which at least one is no digit. */
  lemma LettersFirst(a: Text, i: nat, b: Text, j: nat)
    requires i < |a| && j < |b| && !(IsDigit(a[i]) && IsDigit(b[j]))
    ensures var c := Sign(Lower(a[i]), Lower(b[j]));
      Natural(a[i..], b[j..]) == if c != 0 then c else Natural(a[i + 1..], b[j + 1..])
  {
    hide Value, Digits, CompareTokens, CompareKeys;
    if IsDigit(a[i]) {
      var n := i + Digits(a[i..]);
      FirstNumber(a, i, n);
      FirstLetter(b, j);
      FirstTokens(Token('0' as nat, Value(a[i..n])), Key(a[n..]), Token(Lower(b[j]), 0), Key(b[j + 1..]));
    } else if IsDigit(b[j]) {
      var n := j + Digits(b[j..]);
      FirstNumber(b, j, n);
      FirstLetter(a, i);
      FirstTokens(Token(Lower(a[i]), 0), Key(a[i + 1..]), Token('0' as nat, Value(b[j..n])), Key(b[n..]));
    } else {
      FirstLetter(a, i);
      FirstLetter(b, j);
      FirstTokens(Token(Lower(a[i]), 0), Key(a[i + 1..]), Token(Lower(b[j]), 0), Key(b[j + 1..]));
    }
  }

  /** `natural`. */
  method CompareNatural(a: Text, b: Text) returns (r: int)
    ensures r == Natural(a, b)
  {
    hide Key, CompareKeys, Digits, Natural;
    var i, j := 0, 0;
    assert a[0..] == a && b[0..] == b;
    while i < |a| && j < |b|
      invariant i <= |a| && j <= |b| && Natural(a, b) == Natural(a[i..], b[j..])
      decreases |a| - i
    {
      if IsDigit(a[i]) && IsDigit(b[j]) {
        var x, x1 := ScanNumber(a, i);
        var y, y1 := ScanNumber(b, j);
        NumbersFirst(a, i, x, x1, b, j, y, y1);
        SomeDigit(a, i);
        if x1 - x != y1 - y {
          return if x1 - x < y1 - y then -1 else 1;
        }
        var order := StringCompare(a[x..x1], b[y..y1]);
        if order != 0 {
          return if order < 0 then -1 else 1;
        }
        i, j := x1, y1;
      } else {
        LettersFirst(a, i, b, j);
        if Lower(a[i]) != Lower(b[j]) {
          return if Lower(a[i]) < Lower(b[j]) then -1 else 1;
        }
        i, j := i + 1, j + 1;
      }
    }
    OneEnds(a[i..], b[j..]);
    r := if i < |a| then 1 else if j < |b| then -1 else 0;
  }

  lemma SomeDigit(s: Text, i: nat)
    requires i < |s| && IsDigit(s[i])
    ensures 0 < Digits(s[i..])
  {
  }

  lemma OneEnds(a: Text, b: Text)
    requires a == [] || b == []
    ensures Natural(a, b) == if a != [] then 1 else if b != [] then -1 else 0
  {
  }

  // ----- the order in the strings' own bytes

  /** Nothing goes before something. */
  lemma NothingFirst(s: Text)
    requires s != []
    ensures Natural([], s) < 0 && Natural(s, []) > 0 && Natural([], []) == 0
  {
  }

  /** First characters of which at least one is no digit: the capital letters A to Z count as the
      small ones 32 places on, every other byte as itself, the smaller goes first, and only
      characters that count the same leave it to what follows. */
  lemma ByCharacter(c: Byte, s: Text, d: Byte, t: Text)
    requires !(48 <= c <= 57 && 48 <= d <= 57)
    ensures var x, y := if 65 <= c <= 90 then c + 32 else c, if 65 <= d <= 90 then d + 32 else d;
      (x < y ==> Natural([c] + s, [d] + t) < 0) &&
      (y < x ==> Natural([c] + s, [d] + t) > 0) &&
      (x == y ==> Natural([c] + s, [d] + t) == Natural(s, t))
  {
    hide Natural;
    var a, b := [c] + s, [d] + t;
    assert a[0..] == a && b[0..] == b && a[1..] == s && b[1..] == t;
    LettersFirst(a, 0, b, 0);
  }

  /** Whole numbers at the front of both: the smaller number goes first, however it is spelled, and
      only equal numbers leave it to what follows. */
  lemma ByNumber(m: Text, s: Text, n: Text, t: Text)
    requires m != [] && n != []
    requires (forall i :: 0 <= i < |m| ==> 48 <= m[i] <= 57) && (forall i :: 0 <= i < |n| ==> 48 <= n[i] <= 57)
    requires s == [] || !(48 <= s[0] <= 57)
    requires t == [] || !(48 <= t[0] <= 57)
    ensures AllDigits(m) && AllDigits(n)
    ensures Value(m) < Value(n) ==> Natural(m + s, n + t) < 0
    ensures Value(n) < Value(m) ==> Natural(m + s, n + t) > 0
    ensures Value(m) == Value(n) ==> Natural(m + s, n + t) == Natural(s, t)
  {
    hide Value, Digits, Key, CompareKeys;
    NumberKey(m, s);
    NumberKey(n, t);
    FirstTokens(Token(48, Value(m)), Key(s), Token(48, Value(n)), Key(t));
  }

  lemma NumberKey(m: Text, s: Text)
    requires m != [] && AllDigits(m) && (s == [] || !IsDigit(s[0]))
    ensures Key(m + s) == [Token('0' as nat, Value(m))] + Key(s)
  {
    hide Value, Digits;
    DigitsEnd(m + s, |m|);
    assert (m + s)[..|m|] == m && (m + s)[|m|..] == s;
  }

  /** The number that digits spell: none is zero, and one more digit is ten times as much and itself. */
  lemma {:induction false} OneMoreDigit(s: Text, d: Byte)
    requires AllDigits(s) && 48 <= d <= 57
    ensures AllDigits(s + [d]) && Value([]) == 0 && Value(s + [d]) == 10 * Value(s) + (d - 48)
  {
    if s == [] {
      assert Value([d]) == (d - 48) * Pow10(0) + Value([d][1..]);
    } else {
      OneMoreDigit(s[1..], d);
      assert (s + [d])[1..] == s[1..] + [d];
      var k, p := s[0] - '0' as nat, Pow10(|s| - 1);
      assert k * (10 * p) == 10 * (k * p);
    }
  }
}
