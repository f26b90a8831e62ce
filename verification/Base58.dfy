/**
 Base 58 strings, src/base58.cpp: numbers are converted between base 256 and base 58 by long
 multiplication in a buffer whose size is estimated beforehand.  The estimates always suffice,
 and encoding and decoding are inverse to each other.
 */
module Base58 {
  import opened Common
  import opened IntMath
  import opened Radix

  // ---------------------------------------------------------------------------
  // The alphabet
  // ---------------------------------------------------------------------------

  /** The digits 1 to 9 and the letters without I, O and l, in the order of their codes. */
  function CharOf(d: nat): char
    requires d < 58
  {
    (if d < 9 then '1' as int + d
     else if d < 17 then 'A' as int + (d - 9)
     else if d < 22 then 'J' as int + (d - 17)
     else if d < 33 then 'P' as int + (d - 22)
     else if d < 44 then 'a' as int + (d - 33)
     else 'm' as int + (d - 44)) as char
  }

  /** The position of a character in the alphabet, or -1. */
  function DigitOf(c: char): (d: int)
    ensures -1 <= d < 58
  {
    var k := c as int;
    if '1' as int <= k <= '9' as int then k - '1' as int
    else if 'A' as int <= k <= 'H' as int then k - 'A' as int + 9
    else if 'J' as int <= k <= 'N' as int then k - 'J' as int + 17
    else if 'P' as int <= k <= 'Z' as int then k - 'P' as int + 22
    else if 'a' as int <= k <= 'k' as int then k - 'a' as int + 33
    else if 'm' as int <= k <= 'z' as int then k - 'm' as int + 44
    else -1
  }

  predicate IsSpace(c: char) { c == ' ' || 9 <= c as int <= 13 }

  lemma Alphabet(d: nat, c: char)
    requires d < 58
    ensures DigitOf(CharOf(d)) == d && !IsSpace(CharOf(d)) && (CharOf(d) == '1' <==> d == 0)
    ensures DigitOf(c) >= 0 ==> CharOf(DigitOf(c)) == c
    ensures DigitOf(c) == 0 <==> c == '1'
  {
  }

  /** The digits are the letters and numerals but for 0, O, I and l, in the order of their codes. */
  lemma AlphabetOrder(d: nat, e: nat, c: char)
    requires d < e < 58
    ensures CharOf(d) < CharOf(e)
    ensures DigitOf(c) >= 0 <==>
      ('0' <= c <= '9' || 'A' <= c <= 'Z' || 'a' <= c <= 'z') && c != '0' && c != 'O' && c != 'I' && c != 'l'
  {
  }

  function Chars(s: Digits): string
    requires AreDigits(s, 58)
  {
    seq(|s|, i requires 0 <= i < |s| => CharOf(s[i]))
  }

  predicate AllValid(s: string) { forall i :: 0 <= i < |s| ==> DigitOf(s[i]) >= 0 }

  function ValuesOf(s: string): (r: Digits)
    requires AllValid(s)
    ensures AreDigits(r, 58)
  {
    seq(|s|, i requires 0 <= i < |s| => DigitOf(s[i]))
  }

  // ---------------------------------------------------------------------------
  // What encoding and decoding mean
  // ---------------------------------------------------------------------------

  function LeadingZeros(s: Digits): (z: nat)
    ensures z <= |s| && (z < |s| ==> s[z] != 0) && forall i :: 0 <= i < z ==> s[i] == 0
  {
    if s != [] && s[0] == 0 then 1 + LeadingZeros(s[1..]) else 0
  }

  function Repeat<T>(x: T, n: nat): seq<T> { seq(n, _ => x) }

  ghost function Encode58(v: seq<Byte>): string {
    DigitsDenote(Num(v, 256), 58);
    Repeat('1', LeadingZeros(v)) + Chars(DigitsOf(Num(v, 256), 58))
  }

  function SpacesIn(s: string): (n: nat)
    ensures n <= |s| && (n < |s| ==> !IsSpace(s[n])) && forall i :: 0 <= i < n ==> IsSpace(s[i])
  {
    if s != [] && IsSpace(s[0]) then 1 + SpacesIn(s[1..]) else 0
  }

  function OnesIn(s: string): (n: nat)
    ensures n <= |s| && (n < |s| ==> s[n] != '1') && forall i :: 0 <= i < n ==> s[i] == '1'
  {
    if s != [] && s[0] == '1' then 1 + OnesIn(s[1..]) else 0
  }

  function WordIn(s: string): (n: nat)
    ensures n <= |s| && (n < |s| ==> IsSpace(s[n])) && forall i :: 0 <= i < n ==> !IsSpace(s[i])
  {
    if s != [] && !IsSpace(s[0]) then 1 + WordIn(s[1..]) else 0
  }

  /** One word with spaces around it; leading ones stand for zero bytes. */
  ghost function Decode58(s: string): Option<Digits> {
    DecodeTrimmed(s[SpacesIn(s)..])
  }

  ghost function DecodeTrimmed(t: string): Option<Digits> { DecodeBody(OnesIn(t), t[OnesIn(t)..]) }

  ghost function DecodeBody(z: nat, body: string): Option<Digits> {
    var w := WordIn(body);
    if !AllValid(body[..w]) || w + SpacesIn(body[w..]) != |body| then None
    else Some(DecodeWord(z, body[..w]))
  }

  ghost function DecodeWord(z: nat, core: string): Digits
    requires AllValid(core)
  {
    Repeat(0, z) + DigitsOf(Num(ValuesOf(core), 58), 256)
  }

  // ---------------------------------------------------------------------------
  // The two are inverse
  // ---------------------------------------------------------------------------

  lemma {:induction false} ZerosThen(z: nat, s: Digits)
    requires s != [] ==> s[0] != 0
    ensures LeadingZeros(Repeat(0, z) + s) == z && Num(Repeat(0, z) + s, 256) == Num(s, 256)
  {
    var whole := Repeat(0, z) + s;
    assert whole[z..] == s;
    var k := LeadingZeros(whole);
    if z < |whole| { assert whole[z] == s[0]; }
    assert k == z;
    NumSplit(Repeat(0, z), s, 256);
    ZerosDenoteZero(Repeat(0, z), 256);
    assert Num(Repeat(0, z), 256) * Pow(256, |s|) == 0;
  }

  /** Bytes are their leading zeros and the digits of their number. */
  lemma BytesAreDigits(v: seq<Byte>)
    ensures Repeat(0, LeadingZeros(v)) + DigitsOf(Num(v, 256), 256) == v
  {
    hide Num, DigitsOf;
    var z := LeadingZeros(v);
    assert AreDigits(v, 256);
    SkipZeros(v, z, 256);
    assert v == v[..z] + v[z..];
    assert v[..z] == Repeat(0, z);
  }

  /** Ones and then digits without a leading zero: the ones are recognised, and there is no space. */
  lemma EncodedShape(z: nat, d: Digits)
    requires Canonical(d, 58)
    ensures var s := Repeat('1', z) + Chars(d);
      && SpacesIn(s) == 0 && OnesIn(s) == z && s[z..] == Chars(d) && WordIn(Chars(d)) == |d|
      && AllValid(Chars(d)) && ValuesOf(Chars(d)) == d
  {
    hide CharOf, DigitOf, IsSpace;
    var c := Chars(d);
    var s := Repeat('1', z) + c;
    forall i | 0 <= i < |c| ensures DigitOf(c[i]) == d[i] && !IsSpace(c[i]) && (c[i] == '1' <==> d[i] == 0) {
      Alphabet(d[i], c[i]);
    }
    OneIsNoSpace();
    assert s[z..] == c;
    assert forall i :: 0 <= i < |s| ==> s[i] == if i < z then '1' else c[i - z];
  }

  lemma OneIsNoSpace()
    ensures !IsSpace('1')
  {
  }

  lemma EncodeThenDecode(v: seq<Byte>)
    ensures Decode58(Encode58(v)) == Some(v)
  {
    hide Num, DigitsOf, AllValid, WordIn, OnesIn, LeadingZeros, Chars, IsSpace, DigitOf, CharOf;
    var z, d := LeadingZeros(v), DigitsOf(Num(v, 256), 58);
    DigitsDenote(Num(v, 256), 58);
    EncodedShape(z, d);
    BytesAreDigits(v);
    var s := Encode58(v);
    assert s[0..] == s;
    var c := Chars(d);
    assert |c| == |d| by { CharsLength(d); }
    assert c[..|d|] == c && c[|d|..] == [];
  }

  lemma CharsLength(d: Digits)
    requires AreDigits(d, 58)
    ensures |Chars(d)| == |d|
  {
  }

  /** Every accepted word is the encoding of what it decodes to: no two words decode to the same bytes. */
  lemma DecodeThenEncode(s: string)
    requires Decode58(s).Some?
    ensures AreDigits(Decode58(s).value, 256)
    ensures
      var n := SpacesIn(s);
      Encode58(Decode58(s).value) == s[n..n + WordIn(s[n..])]
  {
    hide DecodeTrimmed, Encode58, SpacesIn, WordIn, AreDigits;
    var n := SpacesIn(s);
    TrimmedEncodes(s[n..]);
    assert s[n..n + WordIn(s[n..])] == s[n..][..WordIn(s[n..])];
  }

  lemma TrimmedEncodes(t: string)
    requires DecodeTrimmed(t).Some?
    ensures AreDigits(DecodeTrimmed(t).value, 256) && Encode58(DecodeTrimmed(t).value) == t[..WordIn(t)]
  {
    hide DecodeWord, Encode58, AllValid, SpacesIn, OnesIn, WordIn, IsSpace, AreDigits;
    var z := OnesIn(t);
    var body := t[z..];
    var w := WordIn(body);
    if body != [] { assert body[0] == t[z]; }
    WordAfterOnes(t, z, w);
    EncodeOfWord(z, body[..w]);
  }

  lemma EncodeOfWord(z: nat, core: string)
    requires AllValid(core) && (core != [] ==> core[0] != '1')
    ensures AreDigits(DecodeWord(z, core), 256) && Encode58(DecodeWord(z, core)) == Repeat('1', z) + core
  {
    hide Num, DigitsOf, Chars, ValuesOf, LeadingZeros;
    var number := Num(ValuesOf(core), 58);
    DigitsDenote(number, 256);
    ZerosThen(z, DigitsOf(number, 256));
    CoreIsCanonical(core);
    DigitsAreUnique(ValuesOf(core), 58);
    CharsOfValues(core);
  }

  lemma CoreIsCanonical(core: string)
    requires AllValid(core) && (core != [] ==> core[0] != '1')
    ensures Canonical(ValuesOf(core), 58)
  {
    if core != [] { Alphabet(0, core[0]); }
  }

  lemma CharsOfValues(s: string)
    requires AllValid(s)
    ensures Chars(ValuesOf(s)) == s
  {
    forall i | 0 <= i < |s| ensures CharOf(ValuesOf(s)[i]) == s[i] { Alphabet(0, s[i]); }
  }

  lemma WordAfterOnes(t: string, z: nat, w: nat)
    requires z == OnesIn(t) && w == WordIn(t[z..])
    ensures WordIn(t) == z + w && t[..z + w] == Repeat('1', z) + t[z..][..w]
  {
    hide IsSpace;
    OneIsNoSpace();
    forall i | 0 <= i < z + w ensures !IsSpace(t[i]) {
      if i >= z { assert t[i] == t[z..][i - z]; }
    }
    if z + w < |t| { assert t[z + w] == t[z..][w]; }
    assert t[..z] == Repeat('1', z) && t[..z + w] == t[..z] + t[z..][..w];
  }

  // ---------------------------------------------------------------------------
  // The buffers are large enough
  // ---------------------------------------------------------------------------

  /** 256^n < 58^size for the size that the encoder estimates: 138 digits hold 100 bytes. */
  lemma EncodeRoom(n: nat)
    ensures Pow(256, n) < Pow(58, n * 138 / 100 + 1)
  {
    hide Pow;
    var size := n * 138 / 100 + 1;
    HundredBytes();
    RaiseBoth(256, 100, 58, 138, n);
    Estimate(256, 58, n, size, 100, n * 100, n * 138, size * 100);
  }

  /** 58^n < 256^size for the size that the decoder estimates: 733 bytes hold 1000 digits. */
  lemma DecodeRoom(n: nat)
    ensures Pow(58, n) < Pow(256, n * 733 / 1000 + 1)
  {
    hide Pow;
    var size := n * 733 / 1000 + 1;
    ThousandDigits();
    RaiseBoth(58, 1000, 256, 733, n);
    Estimate(58, 256, n, size, 1000, n * 1000, n * 733, size * 1000);
  }

  /** From a^k <= b^m for one k and m to the same for all multiples. */
  lemma RaiseBoth(a: nat, k: nat, b: nat, m: nat, n: nat)
    requires Pow(a, k) <= Pow(b, m)
    ensures Pow(a, n * k) <= Pow(b, n * m)
  {
    hide Pow;
    PowBaseMonotone(Pow(a, k), Pow(b, m), n);
    PowMul(a, k, n);
    PowMul(b, m, n);
    assert k * n == n * k && m * n == n * m;
  }

  /** Taking the k-th root: a larger size suffices once its k-fold exceeds n times m. */
  lemma Estimate(a: nat, b: nat, n: nat, size: nat, k: nat, nk: nat, nm: nat, sk: nat)
    requires b >= 2 && nk == n * k && sk == size * k && Pow(a, nk) <= Pow(b, nm) && nm < sk
    ensures Pow(a, n) < Pow(b, size)
  {
    hide Pow;
    PowMul(a, n, k);
    PowMul(b, size, k);
    PowStrict(b, nm, sk);
    RootMonotone(Pow(a, n), Pow(b, size), k);
  }

  lemma RootMonotone(x: nat, y: nat, k: nat)
    requires Pow(x, k) < Pow(y, k)
    ensures x < y
  {
    hide Pow;
    if x >= y { PowBaseMonotone(y, x, k); }
  }

  lemma PowStrict(b: nat, m: nat, n: nat)
    requires b >= 2 && m < n
    ensures Pow(b, m) < Pow(b, n)
  {
    PowMonotone(b, m + 1, n);
    MulMonotone(2, b, Pow(b, m));
  }

  lemma HundredBytes()
    ensures Pow(256, 100) <= Pow(58, 138)
  {
    assert Pow(58, 6) == 38068692544;
    assert Pow(2, 8) == 256;
    ThirtyFiveBits();
    hide Pow;
    PowMul(58, 6, 23);
    PowMul(2, 35, 23);
    PowBaseMonotone(Pow(2, 35), Pow(58, 6), 23);
    PowMul(2, 8, 100);
    PowMonotone(2, 800, 805);
  }

  lemma ThirtyFiveBits()
    ensures Pow(2, 35) == 34359738368
  {
    assert Pow(2, 7) == 128;
    hide Pow;
    PowMul(2, 7, 5);
    FifthPower(128);
  }

  lemma FifthPower(x: nat)
    ensures Pow(x, 5) == x * (x * (x * (x * x)))
  {
    assert Pow(x, 1) == x * Pow(x, 0) == x;
    assert Pow(x, 2) == x * Pow(x, 1);
    assert Pow(x, 3) == x * Pow(x, 2);
    assert Pow(x, 4) == x * Pow(x, 3);
    assert Pow(x, 5) == x * Pow(x, 4);
  }

  lemma ThousandDigits()
    ensures Pow(58, 1000) <= Pow(256, 733)
  {
    DigitGroups();
    assert Pow(2, 8) == 256;
    hide Pow;
    PowMul(58, 22, 45);
    PowBaseMonotone(Pow(58, 22), Pow(2, 129), 45);
    PowMul(2, 129, 45);
    PowAdd(58, 990, 10);
    PowAdd(2, 5805, 59);
    MulMonotone(Pow(58, 990), Pow(2, 5805), Pow(58, 10));
    MulMonotone(Pow(58, 10), Pow(2, 59), Pow(2, 5805));
    PowMul(2, 8, 733);
  }

  lemma DigitGroups()
    ensures Pow(58, 22) <= Pow(2, 129) && Pow(58, 10) <= Pow(2, 59)
  {
    hide Pow;
    DigitPowers();
    BitPowers();
  }

  lemma DigitPowers()
    ensures Pow(58, 10) == 430804206899405824
    ensures Pow(58, 22) == 24986644000165537792 * 24986644000165537792
  {
    assert Pow(58, 5) == 656356768;
    assert Pow(58, 1) == 58;
    hide Pow;
    PowAdd(58, 5, 5);
    PowAdd(58, 10, 1);
    PowAdd(58, 11, 11);
  }

  lemma BitPowers()
    ensures Pow(2, 59) == 576460752303423488
    ensures Pow(2, 129) == 680564733841876926926749214863536422912
  {
    assert Pow(2, 9) == 512;
    assert Pow(2, 10) == 1024;
    hide Pow;
    PowMul(2, 10, 5);
    FifthPower(1024);
    PowAdd(2, 9, 50);
    PowAdd(2, 50, 59);
    PowAdd(2, 10, 10);
    PowAdd(2, 109, 20);
  }

  // ---------------------------------------------------------------------------
  // The algorithms
  // ---------------------------------------------------------------------------

  /** The buffer is zero in front of its last length digits. */
  predicate ZeroInFront(s: Digits, length: nat) {
    length <= |s| && forall i :: 0 <= i < |s| - length ==> s[i] == 0
  }

  /** Multiplies the number in a buffer and adds a digit; the carry that is left is zero. */
  method MulAdd(buf: array<nat>, length: nat, factor: nat, digit: nat, base: nat) returns (length': nat)
    requires base >= 2 && AreDigits(buf[..], base) && ZeroInFront(buf[..], length)
    requires Num(buf[..], base) * factor + digit < Pow(base, buf.Length)
    modifies buf
    ensures AreDigits(buf[..], base) && ZeroInFront(buf[..], length')
    ensures Num(buf[..], base) == old(Num(buf[..], base)) * factor + digit
  {
    hide Num, Pow, CarryOver, Quot, Rem;
    ghost var s := buf[..];
    var carry: nat, i := digit, 0;
    SuffixStart(s, base, factor, digit);
    assert buf[buf.Length..] == s[buf.Length..];
    while (carry != 0 || i < length) && i < buf.Length
      invariant 0 <= i <= buf.Length && AreDigits(buf[..], base)
      invariant forall j :: 0 <= j < buf.Length - i ==> buf[j] == s[j]
      invariant Num(buf[buf.Length - i..], base) + carry * Pow(base, i) == Num(s[buf.Length - i..], base) * factor + digit
    {
      ghost var u := buf[..];
      var j := buf.Length - 1 - i;
      var n := CarryOver(carry, factor, buf[j]);
      buf[j] := Rem(n, base);
      SuffixStep(u, buf[..], s, j, i, carry, n, base, factor, digit);
      carry := Quot(n, base);
      i := i + 1;
    }
    MulAddDone(s, buf[..], i, carry, length, base, factor, digit);
    assert carry == 0;
    length' := i;
  }

  function CarryOver(carry: nat, factor: nat, x: nat): nat { carry + factor * x }

  lemma SuffixStart(s: Digits, base: nat, factor: nat, digit: nat)
    ensures Num(s[|s|..], base) + digit * Pow(base, 0) == Num(s[|s|..], base) * factor + digit
  {
  }

  lemma SuffixStep(u: Digits, t: Digits, s: Digits, j: nat, i: nat, carry: nat, n: nat, base: nat, factor: nat, digit: nat)
    requires |u| == |t| == |s| && j < |s| && i == |s| - 1 - j && base >= 2
    requires u[j] == s[j] && t == u[j := Rem(n, base)] && n == CarryOver(carry, factor, s[j])
    requires Num(u[j + 1..], base) + carry * Pow(base, i) == Num(s[j + 1..], base) * factor + digit
    ensures Num(t[j..], base) + Quot(n, base) * Pow(base, i + 1) == Num(s[j..], base) * factor + digit
  {
    hide Num, Pow, Quot, Rem;
    assert t[j..] == [Rem(n, base)] + u[j + 1..];
    assert s[j..] == [s[j]] + s[j + 1..];
    NumSplit([Rem(n, base)], u[j + 1..], base);
    NumSplit([s[j]], s[j + 1..], base);
    OneDigit(Rem(n, base), base);
    OneDigit(s[j], base);
    PowStep(base, i);
    StepArithmetic(Quot(n, base), Rem(n, base), base, Pow(base, i), carry, factor, s[j]);
    StepProduct(s[j], Pow(base, i), Num(s[j + 1..], base), factor);
  }

  lemma OneDigit(x: nat, base: nat)
    ensures Num([x], base) == x
  {
    EmptyNum(base);
    assert [x][..0] == [];
  }

  lemma PowStep(b: nat, i: nat)
    ensures Pow(b, i + 1) == b * Pow(b, i)
  {
  }

  lemma StepArithmetic(q: nat, r: nat, base: nat, p: nat, carry: nat, factor: nat, x: nat)
    requires carry + factor * x == q * base + r
    ensures r * p + q * (base * p) == carry * p + x * p * factor
  {
    assert q * (base * p) == q * base * p;
    assert (q * base + r) * p == q * base * p + r * p;
    assert (carry + factor * x) * p == carry * p + factor * x * p;
    assert factor * x * p == x * p * factor;
  }

  lemma StepProduct(x: nat, p: nat, v: nat, factor: nat)
    ensures (x * p + v) * factor == x * p * factor + v * factor
  {
  }

  lemma MulAddDone(s: Digits, t: Digits, i: nat, carry: nat, length: nat, base: nat, factor: nat, digit: nat)
    requires |t| == |s| && i <= |s| && base >= 2 && ZeroInFront(s, length) && AreDigits(t, base)
    requires forall j :: 0 <= j < |s| - i ==> t[j] == s[j]
    requires Num(t[|s| - i..], base) + carry * Pow(base, i) == Num(s[|s| - i..], base) * factor + digit
    requires (carry == 0 && i >= length) || i == |s|
    requires Num(s, base) * factor + digit < Pow(base, |s|)
    ensures carry == 0 && ZeroInFront(t, i) && Num(t, base) == Num(s, base) * factor + digit
  {
    hide Num, Pow;
    if i == |s| {
      assert t[0..] == t && s[0..] == s;
      if carry > 0 { MulMonotone(1, carry, Pow(base, i)); }
    } else {
      var k := |s| - i;
      DropZeros(s, k, base);
      DropZeros(t, k, base);
    }
  }

  lemma DropZeros(s: Digits, k: nat, base: nat)
    requires k <= |s| && forall i :: 0 <= i < k ==> s[i] == 0
    ensures Num(s, base) == Num(s[k..], base)
  {
    hide Num, Pow;
    assert s == s[..k] + s[k..];
    NumSplit(s[..k], s[k..], base);
    ZerosDenoteZero(s[..k], base);
    assert 0 * Pow(base, |s[k..]|) == 0;
  }

  /** Cuts leading zeros off a finished buffer, beginning where the number can begin. */
  method Strip(buf: array<nat>, length: nat, base: nat) returns (r: Digits)
    requires base >= 2 && AreDigits(buf[..], base) && ZeroInFront(buf[..], length)
    ensures r == DigitsOf(Num(buf[..], base), base) && AreDigits(r, base)
  {
    hide Num, Pow;
    var it := buf.Length - length;
    while it < buf.Length && buf[it] == 0
      invariant 0 <= it <= buf.Length && forall j :: 0 <= j < it ==> buf[j] == 0
    {
      it := it + 1;
    }
    r := buf[it..];
    SkipZeros(buf[..], it, base);
    assert buf[..][it..] == r;
  }

  method EncodeBase58(v: seq<Byte>) returns (str: string)
    ensures str == Encode58(v)
  {
    hide Num, Pow, LeadingZeros, AreDigits, DigitsOf;
    var zeroes := 0;
    while zeroes < |v| && v[zeroes] == 0
      invariant 0 <= zeroes <= |v| && forall j :: 0 <= j < zeroes ==> v[j] == 0
    {
      zeroes := zeroes + 1;
    }
    var rest := v[zeroes..];
    assert LeadingZeros(v) == zeroes;
    DropZeros(v, zeroes, 256);
    var size := |rest| * 138 / 100 + 1;
    var b58 := new nat[size](_ => 0);
    FreshBuffer(b58[..], 58);
    EmptyNum(256);
    EncodeRoom(|rest|);
    var length := 0;
    for pos := 0 to |rest|
      invariant AreDigits(b58[..], 58) && ZeroInFront(b58[..], length)
      invariant Num(b58[..], 58) == Num(rest[..pos], 256)
    {
      PrefixStep(rest, pos, 256);
      length := MulAdd(b58, length, 256, rest[pos], 58);
    }
    assert rest[..|rest|] == rest;
    var digits := Strip(b58, length, 58);
    str := Repeat('1', zeroes);
    for i := 0 to |digits|
      invariant str == Repeat('1', zeroes) + Chars(digits)[..i]
    {
      str := str + [CharAt(digits, i)];
      assert Chars(digits)[..i + 1] == Chars(digits)[..i] + [Chars(digits)[i]];
    }
    assert Chars(digits)[..|digits|] == Chars(digits);
  }

  function CharAt(s: Digits, i: nat): (c: char)
    requires AreDigits(s, 58) && i < |s|
    ensures c == Chars(s)[i]
  {
    CharOf(s[i])
  }

  lemma FreshBuffer(s: Digits, base: nat)
    requires base >= 2 && forall i :: 0 <= i < |s| ==> s[i] == 0
    ensures AreDigits(s, base) && ZeroInFront(s, 0) && Num(s, base) == 0
  {
    ZerosDenoteZero(s, base);
  }

  /** The number so far, and the bound that all of it obeys. */
  lemma PrefixStep(v: Digits, pos: nat, base: nat)
    requires pos < |v| && base >= 1 && forall i :: 0 <= i < |v| ==> v[i] < base
    ensures Num(v[..pos + 1], base) == Num(v[..pos], base) * base + v[pos]
    ensures Num(v[..pos + 1], base) < Pow(base, |v|)
  {
    hide Num, Pow;
    assert v[..pos + 1] == v[..pos] + [v[pos]];
    NumAppend(v[..pos], v[pos], base);
    NumBound(v[..pos + 1], base);
    PowMonotone(base, pos + 1, |v|);
  }

  method DecodeBase58(psz: string) returns (r: Option<Digits>)
    ensures r == Decode58(psz)
  {
    hide IsSpace, SpacesIn, OnesIn, WordIn, AllValid, DecodeBody;
    var p := 0;
    while p < |psz| && IsSpace(psz[p])
      invariant 0 <= p <= |psz| && forall j :: 0 <= j < p ==> IsSpace(psz[j])
    {
      p := p + 1;
    }
    assert p == SpacesIn(psz);
    var t := psz[p..];
    var zeroes := 0;
    while zeroes < |t| && t[zeroes] == '1'
      invariant 0 <= zeroes <= |t| && forall j :: 0 <= j < zeroes ==> t[j] == '1'
    {
      zeroes := zeroes + 1;
    }
    assert zeroes == OnesIn(t);
    r := DecodeDigits(zeroes, t[zeroes..]);
  }

  /** The part after the leading ones. */
  method DecodeDigits(zeroes: nat, body: string) returns (r: Option<Digits>)
    ensures r == DecodeBody(zeroes, body)
  {
    hide IsSpace, SpacesIn, WordIn, AllValid, ValuesOf, AreDigits, Num, Pow, DigitOf, DigitsOf;
    var size := |body| * 733 / 1000 + 1;
    var b256 := new nat[size](_ => 0);
    FreshBuffer(b256[..], 256);
    NothingRead(body);
    var p, length := 0, 0;
    while p < |body| && !IsSpace(body[p])
      invariant 0 <= p <= |body| && (forall j :: 0 <= j < p ==> !IsSpace(body[j])) && AllValid(body[..p])
      invariant AreDigits(b256[..], 256) && ZeroInFront(b256[..], length)
      invariant Num(b256[..], 256) == Num(ValuesOf(body[..p]), 58)
    {
      var digit := DigitOf(body[p]);
      OneMoreChar(body, p);
      if digit < 0 {
        InvalidChar(body, p);
        return None;
      }
      length := MulAdd(b256, length, 58, digit, 256);
      p := p + 1;
    }
    assert p == WordIn(body);
    var rest := body[p..];
    var q := 0;
    while q < |rest| && IsSpace(rest[q])
      invariant 0 <= q <= |rest| && forall j :: 0 <= j < q ==> IsSpace(rest[j])
    {
      q := q + 1;
    }
    assert q == SpacesIn(rest);
    if q != |rest| { return None; }
    var digits := Strip(b256, length, 256);
    return Some(Repeat(0, zeroes) + digits);
  }

  lemma NothingRead(body: string)
    ensures AllValid(body[..0]) && Num(ValuesOf(body[..0]), 58) == 0
  {
    EmptyNum(58);
  }

  /** One more valid character is one more digit, within the estimate. */
  lemma OneMoreChar(body: string, p: nat)
    requires p < |body| && AllValid(body[..p])
    ensures AllValid(body[..p + 1]) <==> DigitOf(body[p]) >= 0
    ensures DigitOf(body[p]) >= 0 ==>
      && Num(ValuesOf(body[..p + 1]), 58) == Num(ValuesOf(body[..p]), 58) * 58 + DigitOf(body[p])
      && Num(ValuesOf(body[..p]), 58) * 58 + DigitOf(body[p]) < Pow(256, |body| * 733 / 1000 + 1)
  {
    hide DigitOf, Num, Pow, AreDigits, ValuesOf, AllValid;
    LongerPrefix(body, p);
    if DigitOf(body[p]) >= 0 {
      NumAppend(ValuesOf(body[..p]), DigitOf(body[p]), 58);
      NumBound(ValuesOf(body[..p + 1]), 58);
      PowMonotone(58, p + 1, |body|);
      DecodeRoom(|body|);
    }
  }

  lemma LongerPrefix(body: string, p: nat)
    requires p < |body| && AllValid(body[..p])
    ensures AllValid(body[..p + 1]) <==> DigitOf(body[p]) >= 0
    ensures DigitOf(body[p]) >= 0 ==>
      ValuesOf(body[..p + 1]) == ValuesOf(body[..p]) + [DigitOf(body[p])] && |ValuesOf(body[..p + 1])| == p + 1
  {
    hide DigitOf, AreDigits;
    var front, whole := body[..p], body[..p + 1];
    assert forall i :: 0 <= i < p ==> whole[i] == front[i];
    assert whole[p] == body[p];
  }

  lemma InvalidChar(body: string, p: nat)
    requires p < |body| && DigitOf(body[p]) < 0 && forall j :: 0 <= j <= p ==> !IsSpace(body[j])
    ensures !AllValid(body[..WordIn(body)])
  {
    hide IsSpace, WordIn, DigitOf;
    assert p < WordIn(body);
    assert body[..WordIn(body)][p] == body[p];
  }

  // ---------------------------------------------------------------------------
  // With a checksum
  // ---------------------------------------------------------------------------

  type Checksum = f: Digits -> seq<Byte> | forall v :: |f(v)| == 4 witness (_ => [0, 0, 0, 0])

  method EncodeBase58Check(v: seq<Byte>, checksum: Checksum) returns (str: string)
    ensures str == Encode58(v + checksum(v))
  {
    str := EncodeBase58(v + checksum(v));
  }

  ghost function DecodeCheck58(s: string, checksum: Checksum): Option<Digits> {
    match Decode58(s)
    case None => None
    case Some(b) =>
      if |b| < 4 || b[|b| - 4..] != checksum(b[..|b| - 4]) then None else Some(b[..|b| - 4])
  }

  method DecodeBase58Check(psz: string, checksum: Checksum) returns (r: Option<Digits>)
    ensures r == DecodeCheck58(psz, checksum)
  {
    hide Decode58;
    var bytes := DecodeBase58(psz);
    if bytes.None? || |bytes.value| < 4 { return None; }
    var n := |bytes.value| - 4;
    if checksum(bytes.value[..n]) != bytes.value[n..] { return None; }
    return Some(bytes.value[..n]);
  }

  lemma CheckRoundTrip(v: seq<Byte>, checksum: Checksum)
    ensures DecodeCheck58(Encode58(v + checksum(v)), checksum) == Some(v)
  {
    hide Decode58, Encode58;
    var b := v + checksum(v);
    EncodeThenDecode(b);
    assert b[..|v|] == v && b[|v|..] == checksum(v);
  }

  /** Nothing else is accepted. */
  lemma OnlyCheckedWords(s: string, checksum: Checksum)
    requires DecodeCheck58(s, checksum).Some?
    ensures AreDigits(DecodeCheck58(s, checksum).value, 256)
    ensures
      var n, v := SpacesIn(s), DecodeCheck58(s, checksum).value;
      s[n..n + WordIn(s[n..])] == Encode58(v + checksum(v))
  {
    hide Decode58, Encode58, SpacesIn, WordIn;
    DecodeThenEncode(s);
    var b := Decode58(s).value;
    assert b == b[..|b| - 4] + b[|b| - 4..];
  }
}
