/** UTF-8 (sections 3 and 4 of RFC 3629) and the three decoders of it: models/text.c
    (`wena_text_utf8_next`), models/model.c (`wena_model_text_valid`) and
    server/region_response.c (`wena_utf8`). None of them takes the NUL character. */
module Utf8Text {
  import opened BitStreams

  type Text = seq<Byte>

  /** A Unicode scalar value other than NUL. */
  predicate Scalar(c: nat) { 0 < c <= 0x10FFFF && !(0xD800 <= c <= 0xDFFF) }

  ghost predicate Scalars(cs: seq<nat>) { forall i :: 0 <= i < |cs| ==> Scalar(cs[i]) }

  /** The table of section 3. */
  ghost function Utf8(c: nat): (s: Text)
    requires Scalar(c)
    ensures 0 < |s| <= 4
  {
    if c < 0x80 then [c]
    else if c < 0x800 then [192 + c / 64, 128 + c % 64]
    else if c < 0x10000 then [224 + c / 4096, 128 + c / 64 % 64, 128 + c % 64]
    else [240 + c / 262144, 128 + c / 4096 % 64, 128 + c / 64 % 64, 128 + c % 64]
  }

  ghost function Encoded(cs: seq<nat>): Text
    requires Scalars(cs)
  {
    if cs == [] then [] else Utf8(cs[0]) + Encoded(cs[1..])
  }

  // ----- what the decoders compute

  /** How many bytes follow a first byte, 0 when there is no such first byte. */
  function Following(lead: Byte): nat
  {
    if 194 <= lead <= 223 then 1 else if 224 <= lead <= 239 then 2 else if 240 <= lead <= 244 then 3 else 0
  }

  function Bits(lead: Byte): nat
  {
    if 194 <= lead <= 223 then lead % 32 else if 224 <= lead <= 239 then lead % 16 else lead % 8
  }

  function Minimum(following: nat): nat { if following == 1 then 128 else if following == 2 then 2048 else 65536 }

  function Six(b: Byte): nat { b % 64 }

  function Continues(b: Byte): bool { 128 <= b <= 191 }

  /** The bits of the first byte and of `n` bytes after it. */
  ghost function Value(s: Text, n: nat): nat
    requires n < |s|
  {
    if n == 0 then Bits(s[0]) else 64 * Value(s, n - 1) + Six(s[n])
  }

  ghost predicate AllContinue(s: Text, n: nat)
    requires n < |s|
  {
    forall i :: 1 <= i <= n ==> Continues(s[i])
  }

  /** The scalar a string begins with. */
  ghost function First(s: Text): (c: Option<nat>)
    ensures c.Some? ==> Scalar(c.value)
  {
    if s == [] then None
    else if 0 < s[0] < 128 then Some(s[0])
    else
      var n := Following(s[0]);
      if n == 0 || |s| <= n || !AllContinue(s, n) then None
      else if Minimum(n) <= Value(s, n) && Scalar(Value(s, n)) then Some(Value(s, n))
      else None
  }

  lemma Unfold(s: Text)
    ensures 1 < |s| ==> Value(s, 1) == 64 * Bits(s[0]) + Six(s[1])
    ensures 2 < |s| ==> Value(s, 2) == 4096 * Bits(s[0]) + 64 * Six(s[1]) + Six(s[2])
    ensures 3 < |s| ==> Value(s, 3) == 262144 * Bits(s[0]) + 4096 * Six(s[1]) + 64 * Six(s[2]) + Six(s[3])
  {
    hide Six, Bits;
    if 3 < |s| {
      assert Value(s, 3) == 64 * Value(s, 2) + Six(s[3]);
    }
  }

  lemma Leads(lead: Byte)
    ensures Following(lead) <= 3
    ensures Following(lead) == 1 <==> 2 <= lead - 192 < 32
    ensures Following(lead) == 2 <==> 0 <= lead - 224 < 16
    ensures Following(lead) == 3 <==> 0 <= lead - 240 <= 4
    ensures Following(lead) == 1 ==> Bits(lead) == lead - 192
    ensures Following(lead) == 2 ==> Bits(lead) == lead - 224
    ensures Following(lead) == 3 ==> Bits(lead) == lead - 240
  {
  }

  lemma SixBits(b: Byte)
    ensures Continues(b) <==> 0 <= b - 128 < 64
    ensures Continues(b) ==> Six(b) == b - 128
  {
  }

  /** The digits of a scalar in base 64. */
  lemma Digits2(a: nat, b: nat)
    requires b < 64
    ensures var c := 64 * a + b; c / 64 == a && c % 64 == b
  {
  }

  lemma Digits3(a: nat, b: nat, d: nat)
    requires b < 64 && d < 64
    ensures var c := 4096 * a + 64 * b + d; c / 4096 == a && c / 64 % 64 == b && c % 64 == d
  {
    assert (4096 * a + 64 * b + d) / 64 == 64 * a + b;
  }

  lemma Digits4(a: nat, b: nat, d: nat, e: nat)
    requires b < 64 && d < 64 && e < 64
    ensures var c := 262144 * a + 4096 * b + 64 * d + e;
      c / 262144 == a && c / 4096 % 64 == b && c / 64 % 64 == d && c % 64 == e
  {
    assert (262144 * a + 4096 * b + 64 * d + e) / 4096 == 64 * a + b;
    assert (262144 * a + 4096 * b + 64 * d + e) / 64 == 64 * (64 * a + b) + d;
  }

  /** What a decoder reads was written for the scalar it reports. */
  lemma FirstIsWritten(s: Text)
    requires First(s).Some?
    ensures Utf8(First(s).value) <= s
    ensures |Utf8(First(s).value)| == if s[0] < 128 then 1 else Following(s[0]) + 1
  {
    hide Value, Six, Bits, Following;
    Unfold(s);
    if !(0 < s[0] < 128) {
      Leads(s[0]);
      var n, a := Following(s[0]), Bits(s[0]);
      assert AllContinue(s, n);
      SixBits(s[1]);
      if n == 1 {
        Digits2(a, Six(s[1]));
      } else if n == 2 {
        SixBits(s[2]);
        Digits3(a, Six(s[1]), Six(s[2]));
      } else {
        SixBits(s[2]);
        SixBits(s[3]);
        Digits4(a, Six(s[1]), Six(s[2]), Six(s[3]));
      }
    }
  }

  lemma Written2(c: nat, s: Text)
    requires Scalar(c) && 0x80 <= c < 0x800 && Utf8(c) <= s
    ensures First(s) == Some(c)
  {
    hide Value, Six, Bits, Following;
    Unfold(s);
    assert s[0] == Utf8(c)[0] && s[1] == Utf8(c)[1];
    Leads(s[0]);
    SixBits(s[1]);
  }

  lemma Written3(c: nat, s: Text)
    requires Scalar(c) && 0x800 <= c < 0x10000 && Utf8(c) <= s
    ensures First(s) == Some(c)
  {
    hide Value, Six, Bits, Following;
    Unfold(s);
    var u := Utf8(c);
    assert s[0] == u[0] && s[1] == u[1] && s[2] == u[2];
    Leads(s[0]);
    SixBits(s[1]);
    SixBits(s[2]);
  }

  lemma Groups4(c: nat) returns (a: nat, b: nat, d: nat, e: nat)
    ensures c == 262144 * a + 4096 * b + 64 * d + e && b < 64 && d < 64 && e < 64
    ensures a == c / 262144 && b == c / 4096 % 64 && d == c / 64 % 64 && e == c % 64
  {
    a, b, d, e := c / 262144, c / 4096 % 64, c / 64 % 64, c % 64;
    assert c == 64 * (c / 64) + e;
    assert c / 64 / 64 == c / 4096;
    assert c / 4096 / 64 == c / 262144;
  }

  lemma Written4(c: nat, s: Text)
    requires Scalar(c) && 0x10000 <= c && Utf8(c) <= s
    ensures First(s) == Some(c)
  {
    hide Value, Six, Bits, Following;
    Unfold(s);
    var a, b, d, e := Groups4(c);
    assert Utf8(c) == [240 + a, 128 + b, 128 + d, 128 + e];
    Begins4(a, b, d, e, s, c);
  }

  lemma Begins4(a: nat, b: nat, d: nat, e: nat, s: Text, c: nat)
    requires a <= 4 && b < 64 && d < 64 && e < 64 && [240 + a, 128 + b, 128 + d, 128 + e] <= s
    requires c == 262144 * a + 4096 * b + 64 * d + e && Scalar(c) && 0x10000 <= c
    ensures First(s) == Some(c)
  {
    hide Value, Six, Bits, Following;
    Unfold(s);
    var u: Text := [240 + a, 128 + b, 128 + d, 128 + e];
    assert s[0] == u[0] && s[1] == u[1] && s[2] == u[2] && s[3] == u[3];
    Leads(s[0]);
    SixBits(s[1]);
    SixBits(s[2]);
    SixBits(s[3]);
  }

  /** What was written for a scalar is read as that scalar. */
  lemma WrittenIsFirst(c: nat, s: Text)
    requires Scalar(c) && Utf8(c) <= s
    ensures First(s) == Some(c)
  {
    if c < 0x80 {
      assert s[0] == Utf8(c)[0];
    } else if c < 0x800 {
      Written2(c, s);
    } else if c < 0x10000 {
      Written3(c, s);
    } else {
      Written4(c, s);
    }
  }

  // ----- whole strings

  /** The scalars of a string, when it is well formed. */
  ghost function Decoded(s: Text): (r: Option<seq<nat>>)
    ensures r.Some? ==> Scalars(r.value)
    decreases |s|
  {
    if s == [] then Some([])
    else if First(s).None? then None
    else
      FirstIsWritten(s);
      match Decoded(s[|Utf8(First(s).value)|..])
      case None => None
      case Some(cs) => Some([First(s).value] + cs)
  }

  /** Decoding inverts encoding and takes nothing else. */
  lemma DecodedIsEncoded(s: Text, cs: seq<nat>)
    requires Scalars(cs)
    ensures Decoded(s) == Some(cs) <==> Encoded(cs) == s
  {
    if Decoded(s).Some? {
      EncodedOfDecoded(s);
    }
    if Encoded(cs) == s {
      DecodedOfEncoded(cs, []);
      assert s + [] == s && cs + [] == cs;
    }
  }

  lemma {:induction false} EncodedOfDecoded(s: Text)
    requires Decoded(s).Some?
    ensures Encoded(Decoded(s).value) == s
    decreases |s|
  {
    hide Utf8, First, Encoded;
    if s == [] {
      EncodedNone();
    } else {
      FirstIsWritten(s);
      var n, cs := |Utf8(First(s).value)|, Decoded(s[|Utf8(First(s).value)|..]).value;
      EncodedOfDecoded(s[n..]);
      EncodedCons(First(s).value, cs);
      assert s == s[..n] + s[n..];
    }
  }

  lemma EncodedNone()
    ensures Encoded([]) == []
  {
  }

  lemma EncodedCons(c: nat, cs: seq<nat>)
    requires Scalar(c) && Scalars(cs)
    ensures Encoded([c] + cs) == Utf8(c) + Encoded(cs)
  {
    hide Utf8;
    assert ([c] + cs)[1..] == cs;
  }

  lemma {:induction false} DecodedOfEncoded(cs: seq<nat>, after: Text)
    requires Scalars(cs) && Decoded(after).Some?
    ensures Decoded(Encoded(cs) + after) == Some(cs + Decoded(after).value)
    decreases |cs|
  {
    hide Utf8, First;
    if cs == [] {
      assert Encoded(cs) + after == after && cs + Decoded(after).value == Decoded(after).value;
    } else {
      var u, more := Utf8(cs[0]), Encoded(cs[1..]) + after;
      assert Encoded(cs) + after == u + more;
      WrittenIsFirst(cs[0], u + more);
      Parts(u, more);
      DecodedOfEncoded(cs[1..], after);
      assert [cs[0]] + (cs[1..] + Decoded(after).value) == cs + Decoded(after).value;
    }
  }

  lemma {:induction false} EncodedConcat(a: seq<nat>, b: seq<nat>)
    requires Scalars(a) && Scalars(b)
    ensures Encoded(a + b) == Encoded(a) + Encoded(b)
  {
    hide Utf8;
    if a == [] {
      assert a + b == b;
    } else {
      assert a + b == [a[0]] + (a[1..] + b) && a == [a[0]] + a[1..];
      EncodedCons(a[0], a[1..] + b);
      EncodedCons(a[0], a[1..]);
      EncodedConcat(a[1..], b);
      Associative(Utf8(a[0]), Encoded(a[1..]), Encoded(b));
    }
  }

  lemma EncodedSnoc(cs: seq<nat>, c: nat)
    requires Scalars(cs) && Scalar(c)
    ensures Encoded(cs + [c]) == Encoded(cs) + Utf8(c)
  {
    hide Utf8, Encoded;
    EncodedConcat(cs, [c]);
    EncodedNone();
    EncodedCons(c, []);
    assert [c] + [] == [c];
  }

  lemma DecodedStep(s: Text)
    requires s != []
    ensures match First(s)
      case None => Decoded(s).None?
      case Some(c) =>
        && |Utf8(c)| <= |s| && s[..|Utf8(c)|] == Utf8(c)
        && match Decoded(s[|Utf8(c)|..])
           case None => Decoded(s).None?
           case Some(cs) => Decoded(s) == Some([c] + cs)
  {
    hide Utf8, First;
    if First(s).Some? {
      FirstIsWritten(s);
    }
  }

  lemma NoNulBytes(c: nat)
    requires Scalar(c)
    ensures 0 !in Utf8(c)
  {
  }

  /** A well-formed string holds no NUL byte. */
  lemma {:induction false} NoNul(s: Text)
    requires Decoded(s).Some?
    ensures 0 !in s
    decreases |s|
  {
    hide Utf8, First, Decoded;
    if s != [] {
      DecodedStep(s);
      var n := |Utf8(First(s).value)|;
      NoNulBytes(First(s).value);
      NoNul(s[n..]);
      assert s == s[..n] + s[n..];
    }
  }

  /** No first byte is taken from a string whose rest would also give one: the code is prefix-free. */
  lemma OneScalarFirst(c: nat, d: nat, s: Text)
    requires Scalar(c) && Scalar(d) && Utf8(c) <= s && Utf8(d) <= s
    ensures c == d
  {
    hide Utf8, First;
    WrittenIsFirst(c, s);
    WrittenIsFirst(d, s);
  }

  // ----- the shared decoder

  /** `wena_text_utf8_next`: nothing moves on failure. */
  method Next(text: Text, offset: nat) returns (ok: bool, next: nat, codepoint: nat)
    requires offset < |text|
    ensures ok <==> First(text[offset..]).Some?
    ensures ok ==> codepoint == First(text[offset..]).value && next == offset + |Utf8(codepoint)| <= |text|
    ensures !ok ==> next == offset
  {
    hide Value, Bits, Following, Utf8;
    ghost var s := text[offset..];
    if First(s).Some? {
      FirstIsWritten(s);
    }
    var lead := text[offset];
    if 0 < lead < 128 {
      return true, offset + 1, lead;
    }
    var remaining := Following(lead);
    if remaining == 0 || |text| - offset <= remaining {
      return false, offset, 0;
    }
    Leads(lead);
    var value := Bits(lead);
    ValueNone(s);
    for i := 1 to remaining + 1
      invariant AllContinue(s, i - 1) && value == Value(s, i - 1)
    {
      var byte := text[offset + i];
      assert byte == s[i];
      if byte < 128 || byte > 191 {
        assert !AllContinue(s, remaining);
        return false, offset, 0;
      }
      ValueStep(s, i);
      value := 64 * value + Six(byte);
    }
    if value < Minimum(remaining) || value > 1114111 || 55296 <= value <= 57343 {
      return false, offset, 0;
    }
    MinimumPositive(remaining);
    ok, next, codepoint := true, offset + remaining + 1, value;
  }

  lemma ValueNone(s: Text)
    requires s != []
    ensures Value(s, 0) == Bits(s[0])
  {
  }

  lemma ValueStep(s: Text, i: nat)
    requires 0 < i < |s|
    ensures Value(s, i) == 64 * Value(s, i - 1) + Six(s[i])
  {
  }

  lemma MinimumPositive(n: nat)
    ensures 0 < Minimum(n)
  {
  }

  // ----- the validating decoders

  /** Region contents: no controls but line feeds and tabs. */
  predicate RegionAllows(c: nat) { c != 0x7f && (c >= 0x20 || c == 10 || c == 9) }

  /** Titles and, over several lines, descriptions: no controls but tabs and line ends. */
  predicate ModelAllows(c: nat, multiline: bool)
  {
    !(c < 32 || 127 <= c <= 159) || (multiline && (c == 9 || c == 10 || c == 13))
  }

  ghost predicate RegionText(s: Text) { Decoded(s).Some? && forall i :: 0 <= i < |Decoded(s).value| ==> RegionAllows(Decoded(s).value[i]) }

  ghost predicate ModelText(s: Text, multiline: bool)
  {
    Decoded(s).Some? && forall i :: 0 <= i < |Decoded(s).value| ==> ModelAllows(Decoded(s).value[i], multiline)
  }

  /** One scalar of a string. */
  lemma TextStep(s: Text, multiline: bool)
    requires s != []
    ensures First(s).None? ==> !RegionText(s) && !ModelText(s, multiline)
    ensures First(s).Some? ==>
      var c := First(s).value;
      && |Utf8(c)| <= |s|
      && (RegionText(s) <==> RegionAllows(c) && RegionText(s[|Utf8(c)|..]))
      && (ModelText(s, multiline) <==> ModelAllows(c, multiline) && ModelText(s[|Utf8(c)|..], multiline))
  {
    hide Utf8, First, RegionAllows, ModelAllows;
    if First(s).Some? {
      FirstIsWritten(s);
      var c := First(s).value;
      var rest := Decoded(s[|Utf8(c)|..]);
      if rest.Some? {
        var cs := [c] + rest.value;
        assert cs[0] == c && forall i :: 0 <= i < |rest.value| ==> cs[i + 1] == rest.value[i];
      }
    }
  }

  lemma TextEnds(multiline: bool)
    ensures RegionText([]) && ModelText([], multiline)
  {
  }

  /** A first byte below 128 is its own scalar. */
  lemma AsciiFirst(s: Text)
    requires s != [] && s[0] < 128
    ensures First(s) == if s[0] == 0 then None else Some(s[0])
    ensures s[0] != 0 ==> |Utf8(s[0])| == 1
  {
  }

  /** `wena_utf8`. */
  method RegionUtf8(value: Text) returns (ok: bool)
    ensures ok <==> RegionText(value)
  {
    hide Value, Bits, Following, Utf8, First, RegionText, ModelText;
    var index := 0;
    assert value[0..] == value;
    while index < |value|
      invariant index <= |value| && (RegionText(value) <==> RegionText(value[index..]))
      decreases |value| - index
    {
      ghost var s := value[index..];
      TextStep(s, false);
      var first := value[index];
      if first == 0 || first == 0x7f || (first < 0x20 && first != 10 && first != 9) {
        AsciiFirst(s);
        return false;
      }
      if first < 0x80 {
        AsciiFirst(s);
        assert s[1..] == value[index + 1..];
        index := index + 1;
        continue;
      }
      var continuation := Following(first);
      FirstLong(s);
      if continuation == 0 || index + continuation >= |value| {
        return false;
      }
      var codepoint := Bits(first);
      ValueNone(s);
      for offset := 1 to continuation + 1
        invariant AllContinue(s, offset - 1) && codepoint == Value(s, offset - 1)
      {
        var next := value[index + offset];
        assert next == s[offset];
        if !Continues(next) {
          assert !AllContinue(s, continuation);
          return false;
        }
        ValueStep(s, offset);
        codepoint := 64 * codepoint + Six(next);
      }
      LongMinimum(s);
      if (continuation == 2 && codepoint < 0x800) || (continuation == 3 && codepoint < 0x10000)
         || 0xd800 <= codepoint <= 0xdfff || codepoint > 0x10ffff {
        return false;
      }
      assert s[continuation + 1..] == value[index + continuation + 1..];
      index := index + continuation + 1;
    }
    assert value[index..] == [];
    TextEnds(false);
    ok := true;
  }

  /** A longer sequence. */
  lemma FirstLong(s: Text)
    requires s != [] && 128 <= s[0]
    ensures Following(s[0]) == 0 || |s| <= Following(s[0]) ==> First(s).None?
    ensures 0 < Following(s[0]) < |s| ==>
      var n := Following(s[0]);
      && First(s) == (if AllContinue(s, n) && Minimum(n) <= Value(s, n) && Scalar(Value(s, n)) then Some(Value(s, n)) else None)
      && (First(s).Some? ==> |Utf8(First(s).value)| == n + 1)
  {
    hide Value, Bits, Following, Utf8;
    if First(s).Some? {
      FirstIsWritten(s);
    }
  }

  /** Two bytes never spell less than their minimum, so nobody needs to look. */
  lemma LongMinimum(s: Text)
    requires s != [] && 0 < Following(s[0]) < |s| && AllContinue(s, Following(s[0]))
    ensures Following(s[0]) == 1 ==> Minimum(1) <= Value(s, 1)
    ensures 128 <= s[0] && (128 <= Value(s, Following(s[0])) ==> RegionAllows(Value(s, Following(s[0]))))
    ensures Following(s[0]) <= 3 && Minimum(2) == 0x800 && Minimum(3) == 0x10000
  {
    hide Value;
    Unfold(s);
    Leads(s[0]);
  }

  /** `wena_model_text_valid`. */
  method ModelTextValid(text: Text, capacity: nat, multiline: bool) returns (ok: bool)
    ensures ok <==> (multiline || text != []) && |text| < capacity && ModelText(text, multiline)
  {
    hide Value, Bits, Following, Utf8, First, RegionText, ModelText;
    if (!multiline && text == []) || |text| >= capacity {
      return false;
    }
    var index := 0;
    assert text[0..] == text;
    while index < |text|
      invariant index <= |text| && (ModelText(text, multiline) <==> ModelText(text[index..], multiline))
      decreases |text| - index
    {
      ghost var s := text[index..];
      TextStep(s, multiline);
      var lead := text[index];
      index := index + 1;
      if lead < 128 {
        AsciiFirst(s);
        assert s[1..] == text[index..];
      }
      if lead < 32 || lead == 127 {
        if multiline && (lead == 9 || lead == 10 || lead == 13) {
          continue;
        }
        return false;
      }
      if lead < 128 {
        continue;
      }
      FirstLong(s);
      var code, need, minimum := Bits(lead), Following(lead), Minimum(Following(lead));
      if need == 0 {
        return false;
      }
      ghost var n := need;
      ValueNone(s);
      while need != 0
        invariant need <= n && index == |text| - |s| + 1 + (n - need) && index <= |text|
        invariant AllContinue(s, n - need) && code == Value(s, n - need)
        decreases need
      {
        if index >= |text| {
          return false;
        }
        var c := text[index];
        assert c == s[n - need + 1];
        index := index + 1;
        if !Continues(c) {
          assert |s| <= n || !AllContinue(s, n);
          return false;
        }
        ValueStep(s, n - need + 1);
        code := 64 * code + Six(c);
        need := need - 1;
      }
      LongMinimum(s);
      if code < minimum || code > 1114111 || 55296 <= code <= 57343 || 128 <= code <= 159 {
        return false;
      }
      assert s[n + 1..] == text[index..];
    }
    assert text[index..] == [];
    TextEnds(multiline);
    ok := true;
  }

  /** The decoders agree on what is well formed: each takes exactly the well-formed strings whose
      scalars its own policy allows, and the shared decoder takes one step along them. */
  lemma DecodersAgree(s: Text, multiline: bool)
    ensures RegionText(s) || ModelText(s, multiline) ==> Decoded(s).Some? && Encoded(Decoded(s).value) == s
    ensures Decoded(s).Some? ==> (s == [] || First(s).Some?)
    ensures Decoded(s).Some? && (forall i :: 0 <= i < |Decoded(s).value| ==> 32 <= Decoded(s).value[i] && !(127 <= Decoded(s).value[i] <= 159)) ==>
              RegionText(s) && ModelText(s, multiline)
  {
    hide Utf8, First, Encoded;
    if Decoded(s).Some? {
      EncodedOfDecoded(s);
    }
  }

  // ----- the characters that are allowed

  /** A text of a region: the encoding of scalars of which none is a control but the tab and the line
      feed. */
  lemma RegionTextExactly(s: Text, cs: seq<nat>)
    requires Scalars(cs) && Encoded(cs) == s
    ensures RegionText(s) <==> forall c :: c in cs ==> c == 9 || c == 10 || (32 <= c && c != 127)
    ensures forall c :: c in cs ==> 0 < c < 0xD800 || 0xDFFF < c <= 0x10FFFF
  {
    hide Encoded;
    DecodedIsEncoded(s, cs);
    assert (forall i :: 0 <= i < |cs| ==> RegionAllows(cs[i])) <==> forall c :: c in cs ==> RegionAllows(c);
    assert forall c :: c in cs ==> Scalar(c);
  }

  /** A title, or a description of several lines: no control, of either range of them, but in a
      description the tab, the line feed and the carriage return. */
  lemma ModelTextExactly(s: Text, cs: seq<nat>)
    requires Scalars(cs) && Encoded(cs) == s
    ensures ModelText(s, false) <==> forall c :: c in cs ==> 32 <= c < 127 || 160 <= c
    ensures ModelText(s, true) <==> forall c :: c in cs ==> c == 9 || c == 10 || c == 13 || 32 <= c < 127 || 160 <= c
  {
    hide Encoded;
    DecodedIsEncoded(s, cs);
    forall multiline ensures ModelText(s, multiline) <==> forall c :: c in cs ==> ModelAllows(c, multiline) {
      assert (forall i :: 0 <= i < |cs| ==> ModelAllows(cs[i], multiline)) <==> forall c :: c in cs ==> ModelAllows(c, multiline);
    }
  }

  /** What is no encoding is neither. */
  lemma NoText(s: Text)
    requires forall cs :: Scalars(cs) ==> Encoded(cs) != s
    ensures !RegionText(s) && forall multiline :: !ModelText(s, multiline)
  {
    hide Encoded;
    if Decoded(s).Some? {
      DecodedIsEncoded(s, Decoded(s).value);
    }
  }

  /** One scalar of each length: a capital A, an e with an acute accent, the euro sign and a face. */
  lemma Utf8Examples()
    ensures Utf8(0x41) == [0x41] && Utf8(0xE9) == [0xC3, 0xA9]
    ensures Utf8(0x20AC) == [0xE2, 0x82, 0xAC] && Utf8(0x1F600) == [0xF0, 0x9F, 0x98, 0x80]
  {
  }
}
