/**
 Base58 (`src/base58.cpp`): encoding and decoding are inverse to each other, and the buffers that they
 allocate are always large enough.
 */
module Base58 {
  import opened Basics
  import opened Digits

  // ----- Buffer sizes -----

  lemma BytesInBase58() returns (bytes: nat, digits: nat)
    ensures bytes == 8 && digits == 11 && Pow(256, bytes) <= Pow(58, digits)
  {
    bytes, digits := 8, 11;
    assert Pow(256, 4) == 0x1_0000_0000;
    PowSum(256, 4, 4);
    assert Pow(256, 8) == 4294967296 * 4294967296 == 18446744073709551616;
    assert Pow(58, 5) == 656356768 && Pow(58, 6) == 38068692544;
    PowSum(58, 5, 6);
    assert Pow(58, 11) == 656356768 * 38068692544 == 24986644000165537792;
  }

  lemma Base58InBytes() returns (digits: nat, bytes: nat)
    ensures digits == 71 && bytes == 52 && Pow(58, digits) <= Pow(256, bytes)
  {
    digits, bytes := 71, 52;
    assert Pow(58, 4) == 11316496 && Pow(58, 3) == 195112;
    PowSum(58, 4, 4);
    assert Pow(58, 8) == 11316496 * 11316496 == 128063081718016;
    PowSum(58, 8, 8);
    assert Pow(58, 16) == 128063081718016 * 128063081718016 == 16400152899115243850138976256;
    PowSum(58, 16, 16);
    assert Pow(58, 32) == 16400152899115243850138976256 * 16400152899115243850138976256
      == 268965015114358137726910587140455987105619365599731777536;
    PowSum(58, 32, 32);
    assert Pow(58, 64)
      == 268965015114358137726910587140455987105619365599731777536
        * 268965015114358137726910587140455987105619365599731777536
          == 72342179355466901471258927612150153907721848234316445933056526044582001260898145151856420451025374266490194231296;
    PowSum(58, 4, 3);
    assert Pow(58, 7) == 11316496 * 195112 == 2207984167552;
    PowSum(58, 64, 7);
    assert Pow(58, 71)
      == 72342179355466901471258927612150153907721848234316445933056526044582001260898145151856420451025374266490194231296 * 2207984167552 == 159730386663078066345306447337161584696769904898410078913243029577507397293846405390982563136983769384625594118558891106107392;
    assert Pow(256, 4) == 4294967296;
    PowSum(256, 4, 4);
    assert Pow(256, 8) == 4294967296 * 4294967296 == 18446744073709551616;
    PowSum(256, 8, 8);
    assert Pow(256, 16) == 18446744073709551616 * 18446744073709551616 == 340282366920938463463374607431768211456;
    PowSum(256, 16, 16);
    assert Pow(256, 32) == 340282366920938463463374607431768211456 * 340282366920938463463374607431768211456
      == 115792089237316195423570985008687907853269984665640564039457584007913129639936;
    PowSum(256, 32, 16);
    assert Pow(256, 48)
      == 115792089237316195423570985008687907853269984665640564039457584007913129639936
        * 340282366920938463463374607431768211456
          == 39402006196394479212279040100143613805079739270465446667948293404245721771497210611414266254884915640806627990306816;
    PowSum(256, 48, 4);
    assert Pow(256, 52)
      == 39402006196394479212279040100143613805079739270465446667948293404245721771497210611414266254884915640806627990306816 * 4294967296 == 169230328010303641331690318856389386196071598838855992136870091590247882556495704531248437872567112920983350278405979725889536;
  }

  /** `138 / 100` digits are enough for a byte. */
  lemma EncodeFits(n: nat)
    ensures Pow(256, n) <= Pow(58, n * 138 / 100 + 1)
  {
    var bytes, digits := BytesInBase58();
    var k := n * 138 / 100 + 1;
    assert 100 * k > 138 * n;
    DigitsFit(256, bytes, 58, digits, n, k);
  }

  /** `733 / 1000` bytes are enough for a digit. */
  lemma DecodeFits(n: nat)
    ensures Pow(58, n) <= Pow(256, n * 733 / 1000 + 1)
  {
    var digits, bytes := Base58InBytes();
    var k := n * 733 / 1000 + 1;
    assert 1000 * k > 733 * n;
    DigitsFit(58, digits, 256, bytes, n, k);
  }

  // ----- The digit buffer -----

  /** What is in a digit buffer: `length` digits at its end, the first of them not zero. */
  ghost predicate Buffer(base: nat, s: seq<nat>, length: nat) {
    && length <= |s| && Below(base, s)
    && (forall k | 0 <= k < |s| - length :: s[k] == 0)
    && (length > 0 ==> s[|s| - length] > 0)
  }

  lemma BufferValue(base: nat, s: seq<nat>, length: nat)
    requires Buffer(base, s, length)
    ensures Value(base, s) == Value(base, s[|s| - length..]) && Canonical(base, s[|s| - length..])
  {
    ValueZeros(base, s, |s| - length);
  }

  datatype Carried = Carried(s: seq<nat>, i: nat, carry: nat)

  function Plus(carry: nat, mult: nat, d: nat): nat { carry + mult * d }

  /** The inner loop of both directions, from position `i` on. */
  function CarryFrom(base: nat, mult: nat, s: seq<nat>, length: nat, i: nat, carry: nat): (r: Carried)
    requires base > 0 && i <= |s|
    ensures |r.s| == |s| && i <= r.i <= |s| && (r.carry == 0 || r.i == |s|) && (r.i >= length || r.i == |s|)
    decreases |s| - i
  {
    if (carry != 0 || i < length) && i < |s| then
      var total := Plus(carry, mult, s[|s| - 1 - i]);
      CarryFrom(base, mult, s[|s| - 1 - i := total % base], length, i + 1, total / base)
    else Carried(s, i, carry)
  }

  method MultiplyAdd(b: array<nat>, base: nat, mult: nat, digit: nat, length: nat) returns (i: nat, carry: nat)
    requires base > 0
    modifies b
    ensures Carried(b[..], i, carry) == CarryFrom(base, mult, old(b[..]), length, 0, digit)
  {
    i, carry := 0, digit;
    var n := b.Length;
    while (carry != 0 || i < length) && i < n
      invariant 0 <= i <= n
      invariant CarryFrom(base, mult, b[..], length, i, carry) == CarryFrom(base, mult, old(b[..]), length, 0, digit)
      decreases n - i
    {
      ghost var s := b[..];
      carry := carry + mult * b[n - 1 - i];
      b[n - 1 - i] := carry % base;
      carry := carry / base;
      assert b[..] == s[n - 1 - i := b[n - 1 - i]];
      i := i + 1;
    }
  }

  /** The number that the loop is computing: `u` is still to be multiplied and counts with `p`, like the carry. */
  function Total(mult: nat, u: nat, p: nat, l: nat, carry: nat): nat { mult * u * p + l + carry * p }

  lemma TotalStep(base: nat, mult: nat, u: nat, d: nat, p: nat, l: nat, carry: nat)
    requires base > 0
    ensures var t := carry + mult * d;
            Total(mult, u * base + d, p, l, carry) == Total(mult, u, base * p, t % base * p + l, t / base)
  {
    var t := carry + mult * d;
    var q, r := t / base, t % base;
    DivMod(base, t);
    calc {
      mult * (u * base + d) * p + l + carry * p;
      mult * u * (base * p) + (carry + mult * d) * p + l;
      mult * u * (base * p) + (q * base + r) * p + l;
      mult * u * (base * p) + (r * p + l) + q * (base * p);
    }
  }

  ghost function TotalAt(base: nat, mult: nat, s: seq<nat>, i: nat, carry: nat): nat
    requires i <= |s|
  {
    Total(mult, Value(base, s[..|s| - i]), Pow(base, i), Value(base, s[|s| - i..]), carry)
  }

  /** One position of the loop keeps the number. */
  lemma TotalAtStep(base: nat, mult: nat, s: seq<nat>, i: nat, carry: nat)
    requires base > 0 && i < |s|
    ensures var t := Plus(carry, mult, s[|s| - 1 - i]);
            TotalAt(base, mult, s[|s| - 1 - i := t % base], i + 1, t / base) == TotalAt(base, mult, s, i, carry)
  {
    var k := |s| - 1 - i;
    var d := s[k];
    var t := carry + mult * d;
    var r := s[k := t % base];
    assert s[..k + 1][..k] == s[..k] == r[..k];
    assert r[k..] == [t % base] + s[k + 1..];
    ValuePrepend(base, t % base, s[k + 1..]);
    TotalStep(base, mult, Value(base, s[..k]), d, Pow(base, i), Value(base, s[k + 1..]), carry);
  }

  lemma {:induction false} CarryKeepsTotal(base: nat, mult: nat, s: seq<nat>, length: nat, i: nat, carry: nat)
    requires base > 0 && i <= |s|
    ensures var r := CarryFrom(base, mult, s, length, i, carry);
            TotalAt(base, mult, r.s, r.i, r.carry) == TotalAt(base, mult, s, i, carry)
    decreases |s| - i
  {
    if (carry != 0 || i < length) && i < |s| {
      var k := |s| - 1 - i;
      var t := Plus(carry, mult, s[k]);
      TotalAtStep(base, mult, s, i, carry);
      CarryKeepsTotal(base, mult, s[k := t % base], length, i + 1, t / base);
    }
  }

  lemma {:induction false} CarryBelow(base: nat, mult: nat, s: seq<nat>, length: nat, i: nat, carry: nat)
    requires base > 0 && i <= |s| && Below(base, s)
    ensures Below(base, CarryFrom(base, mult, s, length, i, carry).s)
    decreases |s| - i
  {
    if (carry != 0 || i < length) && i < |s| {
      var t := Plus(carry, mult, s[|s| - 1 - i]);
      DivMod(base, t);
      CarryBelow(base, mult, s[|s| - 1 - i := t % base], length, i + 1, t / base);
    }
  }

  /** The digits that the loop has not reached are as they were. */
  lemma {:induction false} CarryPrefix(base: nat, mult: nat, s: seq<nat>, length: nat, i: nat, carry: nat)
    requires base > 0 && i <= |s|
    ensures var r := CarryFrom(base, mult, s, length, i, carry);
            r.i >= i && forall k | 0 <= k < |s| - r.i :: r.s[k] == s[k]
    decreases |s| - i
  {
    if (carry != 0 || i < length) && i < |s| {
      var total := Plus(carry, mult, s[|s| - 1 - i]);
      CarryPrefix(base, mult, s[|s| - 1 - i := total % base], length, i + 1, total / base);
    }
  }

  /** The first digit that the loop leaves is not zero. */
  lemma {:induction false} CarryTop(base: nat, mult: nat, s: seq<nat>, length: nat, i: nat, carry: nat)
    requires base > 0 && mult > 0 && i <= |s| && length <= |s| && (length > 0 ==> s[|s| - length] > 0 || i >= length)
    requires carry == 0 && i >= length && i > 0 ==> s[|s| - i] > 0
    ensures var r := CarryFrom(base, mult, s, length, i, carry); r.carry == 0 && r.i > 0 ==> r.s[|s| - r.i] > 0
    decreases |s| - i
  {
    if (carry != 0 || i < length) && i < |s| {
      var k := |s| - 1 - i;
      var t := Plus(carry, mult, s[k]);
      DivMod(base, t);
      Positive(mult, s[k]);
      CarryTop(base, mult, s[k := t % base], length, i + 1, t / base);
    }
  }

  lemma Positive(mult: nat, d: nat)
    requires mult > 0
    ensures d > 0 ==> mult * d > 0
  {
  }

  lemma StartTotal(base: nat, mult: nat, s: seq<nat>, digit: nat)
    ensures TotalAt(base, mult, s, 0, digit) == mult * Value(base, s) + digit
  {
    assert s[..|s|] == s && s[|s|..] == [];
  }

  lemma NothingLeft(mult: nat, p: nat, l: nat, carry: nat)
    ensures Total(mult, 0, p, l, carry) == l + carry * p
  {
  }

  lemma EndTotal(base: nat, mult: nat, s: seq<nat>, i: nat, carry: nat)
    requires i <= |s| && forall k | 0 <= k < |s| - i :: s[k] == 0
    ensures TotalAt(base, mult, s, i, carry) == Value(base, s) + carry * Pow(base, i)
  {
    var u := s[..|s| - i];
    ValueZeros(base, s, |s| - i);
    assert Value(base, u) == 0 by {
      ValueZeros(base, u, |u|);
      assert u[|u|..] == [];
    }
    NothingLeft(mult, Pow(base, i), Value(base, s[|s| - i..]), carry);
  }

  lemma NoCarry(v: nat, carry: nat, p: nat)
    ensures v + carry * p < p ==> carry == 0
  {
    Monotone(1, carry, p);
  }

  lemma CarryZeros(base: nat, mult: nat, s: seq<nat>, length: nat, digit: nat)
    requires base > 0 && Buffer(base, s, length)
    ensures var r := CarryFrom(base, mult, s, length, 0, digit); forall k | 0 <= k < |s| - r.i :: r.s[k] == 0
  {
    CarryPrefix(base, mult, s, length, 0, digit);
  }

  lemma CarryTotal(base: nat, mult: nat, s: seq<nat>, length: nat, digit: nat)
    requires base > 0 && Buffer(base, s, length)
    ensures var r := CarryFrom(base, mult, s, length, 0, digit);
            Below(base, r.s) && Value(base, r.s) + r.carry * Pow(base, r.i) == mult * Value(base, s) + digit
  {
    var r := CarryFrom(base, mult, s, length, 0, digit);
    CarryKeepsTotal(base, mult, s, length, 0, digit);
    CarryBelow(base, mult, s, length, 0, digit);
    CarryZeros(base, mult, s, length, digit);
    StartTotal(base, mult, s, digit);
    EndTotal(base, mult, r.s, r.i, r.carry);
  }

  /** The loop does what it says: when there is room, the buffer holds the multiplied number plus the digit. */
  lemma CarryResult(base: nat, mult: nat, s: seq<nat>, length: nat, digit: nat)
    requires base > 1 && mult > 0 && Buffer(base, s, length) && mult * Value(base, s) + digit < Pow(base, |s|)
    ensures var r := CarryFrom(base, mult, s, length, 0, digit);
            r.carry == 0 && Buffer(base, r.s, r.i) && Value(base, r.s) == mult * Value(base, s) + digit
  {
    var r := CarryFrom(base, mult, s, length, 0, digit);
    CarryTotal(base, mult, s, length, digit);
    CarryZeros(base, mult, s, length, digit);
    NoCarry(Value(base, r.s), r.carry, Pow(base, r.i));
    CarryTop(base, mult, s, length, 0, digit);
  }

  // ----- Characters -----

  /** `mapBase58`: the digit of a character, -1 if it has none. */
  function MapBase58(c: char): (d: int)
    ensures -1 <= d < 58
  {
    if '1' <= c <= '9' then c as int - '1' as int
    else if 'A' <= c <= 'H' then c as int - 'A' as int + 9
    else if 'J' <= c <= 'N' then c as int - 'J' as int + 17
    else if 'P' <= c <= 'Z' then c as int - 'P' as int + 22
    else if 'a' <= c <= 'k' then c as int - 'a' as int + 33
    else if 'm' <= c <= 'z' then c as int - 'm' as int + 44
    else -1
  }

  /** `pszBase58`: digits, then capital letters without I and O, then small letters without l. */
  function CharOf(d: nat): (c: char)
    requires d < 58
  {
    if d < 9 then ('1' as int + d) as char
    else if d < 17 then ('A' as int + d - 9) as char
    else if d < 22 then ('J' as int + d - 17) as char
    else if d < 33 then ('P' as int + d - 22) as char
    else if d < 44 then ('a' as int + d - 33) as char
    else ('m' as int + d - 44) as char
  }

  /** The two tables are inverse to each other. */
  lemma TablesMatch(d: nat)
    requires d < 58
    ensures MapBase58(CharOf(d)) == d
  {
  }

  lemma TablesMatchBack(c: char)
    requires MapBase58(c) >= 0
    ensures CharOf(MapBase58(c)) == c
  {
  }

  // ----- Encoding -----

  function LeadingZeros(s: seq<nat>): (z: nat)
    ensures z <= |s| && (forall i | 0 <= i < z :: s[i] == 0) && (z < |s| ==> s[z] != 0)
  {
    if s == [] || s[0] != 0 then 0 else 1 + LeadingZeros(s[1..])
  }

  function Ones(n: nat): (r: string)
    ensures |r| == n && forall i | 0 <= i < n :: r[i] == '1'
  {
    seq(n, _ => '1')
  }

  function ZeroBytes(n: nat): (r: seq<nat>)
    ensures |r| == n && forall i | 0 <= i < n :: r[i] == 0
  {
    seq(n, _ => 0)
  }

  function Chars(digits: seq<nat>): (str: string)
    requires Below(58, digits)
    ensures |str| == |digits| && forall i | 0 <= i < |str| :: str[i] == CharOf(digits[i])
  {
    seq(|digits|, i requires 0 <= i < |digits| => CharOf(digits[i]))
  }

  /** What an encoding is: a '1' for each leading zero byte, and the rest as a number. */
  ghost function Encoded(input: seq<nat>): string {
    var z := LeadingZeros(input);
    OfIsCanonical(58, Value(256, input[z..]));
    Ones(z) + Chars(Of(58, Value(256, input[z..])))
  }

  /** There is room for one more byte. */
  lemma RoomFor(from: nat, to: nat, digits: seq<nat>, k: nat, size: nat)
    requires from > 0 && to > 0 && Below(from, digits) && k < |digits| && Pow(from, |digits|) <= Pow(to, size)
    ensures from * Value(from, digits[..k]) + digits[k] == Value(from, digits[..k + 1]) < Pow(to, size)
  {
    assert digits[..k + 1][..k] == digits[..k];
    ValueBound(from, digits[..k + 1]);
    PowIncreases(from, k + 1, |digits|);
  }

  /** One turn of the outer loop: the buffer holds the number of one more digit. */
  method Shift(b: array<nat>, from: nat, to: nat, ghost digits: seq<nat>, ghost k: nat, d: nat, length: nat)
    returns (i: nat)
    requires from > 0 && to > 1 && Below(from, digits) && k < |digits| && Pow(from, |digits|) <= Pow(to, b.Length)
    requires Buffer(to, b[..], length) && Value(to, b[..]) == Value(from, digits[..k]) && d == digits[k]
    modifies b
    ensures Buffer(to, b[..], i) && Value(to, b[..]) == Value(from, digits[..k + 1])
  {
    var carry;
    RoomFor(from, to, digits, k, b.Length);
    CarryResult(to, from, b[..], length, d);
    i, carry := MultiplyAdd(b, to, from, d, length);
    assert carry == 0;
  }

  /** The number in the buffer after all the digits of another base. */
  method Convert(digits: seq<nat>, from: nat, to: nat, size: nat) returns (b: array<nat>, length: nat)
    requires from > 0 && to > 1 && Below(from, digits) && Pow(from, |digits|) <= Pow(to, size)
    ensures fresh(b) && b.Length == size && Buffer(to, b[..], length)
            && b[size - length..] == Of(to, Value(from, digits))
  {
    b := new nat[size](_ => 0);
    length := 0;
    ValueZeros(to, b[..], size);
    assert b[..][size..] == [];
    for k := 0 to |digits|
      invariant Buffer(to, b[..], length) && Value(to, b[..]) == Value(from, digits[..k])
    {
      length := Shift(b, from, to, digits, k, digits[k], length);
    }
    assert digits[..|digits|] == digits;
    BufferValue(to, b[..], length);
    CanonicalIsOf(to, b[..][size - length..]);
    assert b[..][size - length..] == b[size - length..];
  }

  method CountZeros(input: seq<nat>) returns (zeroes: nat)
    ensures zeroes == LeadingZeros(input)
  {
    zeroes := 0;
    while zeroes < |input| && input[zeroes] == 0
      invariant zeroes <= |input| && zeroes + LeadingZeros(input[zeroes..]) == LeadingZeros(input)
    {
      assert input[zeroes..][1..] == input[zeroes + 1..];
      zeroes := zeroes + 1;
    }
  }

  method SkipZeros(b: array<nat>, start: nat) returns (it: nat)
    requires start <= b.Length
    ensures start <= it <= b.Length && (it < b.Length ==> b[it] != 0) && forall k | start <= k < it :: b[k] == 0
  {
    it := start;
    while it < b.Length && b[it] == 0
      invariant start <= it <= b.Length && forall k | start <= k < it :: b[k] == 0
    {
      it := it + 1;
    }
  }

  method Translate(digits: seq<nat>, prefix: string) returns (str: string)
    requires Below(58, digits)
    ensures str == prefix + Chars(digits)
  {
    str := prefix;
    for k := 0 to |digits|
      invariant str == prefix + Chars(digits[..k])
    {
      assert Chars(digits[..k + 1]) == Chars(digits[..k]) + [CharOf(digits[k])];
      str := str + [CharOf(digits[k])];
    }
    assert digits[..|digits|] == digits;
  }

  /** `EncodeBase58`. */
  method EncodeBase58(input: seq<nat>) returns (str: string)
    requires Below(256, input)
    ensures str == Encoded(input)
  {
    var zeroes := CountZeros(input);
    var rest := input[zeroes..];
    EncodeFits(|rest|);
    var size := |rest| * 138 / 100 + 1;
    var b58, length := Convert(rest, 256, 58, size);
    var it := SkipZeros(b58, size - length);
    assert it == size - length;
    str := Translate(b58[it..], Ones(zeroes));
  }

  // ----- Decoding -----

  predicate IsSpace(c: char) { c == ' ' || 9 <= c as int <= 13 }
  predicate AllSpaces(s: string) { forall i | 0 <= i < |s| :: IsSpace(s[i]) }
  predicate AllBase58(s: string) { forall i | 0 <= i < |s| :: MapBase58(s[i]) >= 0 }

  function LeadingSpaces(s: string): (n: nat)
    ensures n <= |s| && AllSpaces(s[..n]) && (n < |s| ==> !IsSpace(s[n]))
  {
    if s == "" || !IsSpace(s[0]) then 0 else 1 + LeadingSpaces(s[1..])
  }

  /** The length of the part before the next space. */
  function WordLength(s: string): (n: nat)
    ensures n <= |s| && (forall i | 0 <= i < n :: !IsSpace(s[i])) && (n < |s| ==> IsSpace(s[n]))
  {
    if s == "" || IsSpace(s[0]) then 0 else 1 + WordLength(s[1..])
  }

  function LeadingOnes(s: string): (n: nat)
    ensures n <= |s| && (forall i | 0 <= i < n :: s[i] == '1') && (n < |s| ==> s[n] != '1')
  {
    if s == "" || s[0] != '1' then 0 else 1 + LeadingOnes(s[1..])
  }

  function DigitsOf(s: string): (d: seq<nat>)
    requires AllBase58(s)
    ensures |d| == |s| && Below(58, d) && forall i | 0 <= i < |d| :: d[i] == MapBase58(s[i])
  {
    seq(|s|, i requires 0 <= i < |s| => MapBase58(s[i]))
  }

  /** The bytes of a word of base-58 characters. */
  ghost function Bytes(word: string): seq<nat>
    requires AllBase58(word)
  {
    var ones := LeadingOnes(word);
    ZeroBytes(ones) + Of(256, Value(58, DigitsOf(word[ones..])))
  }

  ghost function DecodedWord(t: string, maxLen: int): Option<seq<nat>> {
    var word, tail := t[..WordLength(t)], t[WordLength(t)..];
    if AllBase58(word) && AllSpaces(tail) && (word == "" || |Bytes(word)| <= maxLen) then Some(Bytes(word)) else None
  }

  /** What a string decodes to: one word between spaces, whose bytes are not too many. */
  ghost function Decoded(str: string, maxLen: int): Option<seq<nat>> { DecodedWord(str[LeadingSpaces(str)..], maxLen) }

  lemma {:induction false} LongerNumber(base: nat, m: nat, n: nat)
    requires base > 1 && m <= n
    ensures |Of(base, m)| <= |Of(base, n)|
    decreases n
  {
    if m > 0 {
      Smaller(base, m);
      Smaller(base, n);
      DivMod(base, m);
      DivMod(base, n);
      Monotone(n / base + 1, m / base, base);
      LongerNumber(base, m / base, n / base);
    }
  }

  lemma {:induction false} LongerDigits(base: nat, s: seq<nat>, k: nat)
    requires base > 0 && k <= |s|
    ensures Value(base, s[..k]) <= Value(base, s)
    decreases |s|
  {
    if k == |s| {
      assert s[..k] == s;
    } else {
      var n := |s| - 1;
      LongerDigits(base, s[..n], k);
      assert s[..n][..k] == s[..k];
      Monotone(1, base, Value(base, s[..n]));
    }
  }

  method SkipSpaces(str: string) returns (n: nat)
    ensures n == LeadingSpaces(str)
  {
    n := 0;
    while n < |str| && IsSpace(str[n])
      invariant n <= |str| && n + LeadingSpaces(str[n..]) == LeadingSpaces(str)
    {
      assert str[n..][1..] == str[n + 1..];
      n := n + 1;
    }
  }

  /** Skip and count leading '1's, up to a limit. */
  method CountOnes(t: string, maxLen: int) returns (ok: bool, zeroes: nat)
    ensures zeroes <= LeadingOnes(t) && (ok ==> zeroes == LeadingOnes(t))
            && (ok <==> LeadingOnes(t) <= maxLen || LeadingOnes(t) == 0)
  {
    zeroes := 0;
    while zeroes < |t| && t[zeroes] == '1'
      invariant zeroes <= |t| && zeroes + LeadingOnes(t[zeroes..]) == LeadingOnes(t)
                && (zeroes > 0 ==> zeroes <= maxLen)
    {
      assert t[zeroes..][1..] == t[zeroes + 1..];
      zeroes := zeroes + 1;
      if zeroes > maxLen { return false, zeroes; }
    }
    ok := true;
  }

  /** Leading '1's are part of the first word. */
  lemma {:induction false} OnesInWord(t: string)
    ensures LeadingOnes(t) <= WordLength(t) && LeadingOnes(t[..WordLength(t)]) == LeadingOnes(t)
  {
    if t != "" && t[0] == '1' {
      OnesInWord(t[1..]);
      assert t[..WordLength(t)][1..] == t[1..][..WordLength(t[1..])];
    }
  }

  /** How many bytes the characters read so far stand for. */
  ghost function ByteLength(digits: seq<nat>): nat { |Of(256, Value(58, digits))| }

  /** Reading more characters does not give fewer bytes. */
  lemma MoreBytes(digits: seq<nat>, k: nat)
    requires k <= |digits|
    ensures ByteLength(digits[..k]) <= ByteLength(digits)
  {
    LongerDigits(58, digits, k);
    LongerNumber(256, Value(58, digits[..k]), Value(58, digits));
  }

  /** The buffer holds the number of a word. */
  ghost predicate InBuffer(b: seq<nat>, word: string, length: nat) {
    AllBase58(word) && Buffer(256, b, length) && Value(256, b) == Value(58, DigitsOf(word))
  }

  lemma BufferBytes(b: seq<nat>, word: string, length: nat)
    requires InBuffer(b, word, length)
    ensures b[|b| - length..] == Of(256, Value(58, DigitsOf(word))) && length == ByteLength(DigitsOf(word))
  {
    BufferValue(256, b, length);
    CanonicalIsOf(256, b[|b| - length..]);
  }

  lemma EmptyBuffer(b: seq<nat>)
    requires forall k | 0 <= k < |b| :: b[k] == 0
    ensures InBuffer(b, "", 0)
  {
    ValueZeros(256, b, |b|);
    assert b[|b|..] == [];
  }

  /** One character. */
  method DecodeChar(b: array<nat>, rest: string, p: nat, length: nat) returns (i: nat)
    requires p < |rest| && Pow(58, |rest|) <= Pow(256, b.Length) && InBuffer(b[..], rest[..p], length)
             && MapBase58(rest[p]) >= 0
    modifies b
    ensures InBuffer(b[..], rest[..p + 1], i)
  {
    ghost var digits := DigitsOf(rest[..p + 1]);
    assert digits[..p] == DigitsOf(rest[..p]);
    PowIncreases(58, p + 1, |rest|);
    i := Shift(b, 58, 256, digits, p, MapBase58(rest[p]), length);
    assert digits[..p + 1] == digits;
  }

  /** Where the main loop of `DecodeBase58` gives up: no base-58 character, or too many bytes. */
  ghost predicate Undecodable(rest: string, zeroes: nat, p: nat, maxLen: int)
    requires p < |rest|
  {
    MapBase58(rest[p]) < 0 || (AllBase58(rest[..p + 1]) && zeroes + ByteLength(DigitsOf(rest[..p + 1])) > maxLen)
  }

  predicate NoSpace(s: string) { forall i | 0 <= i < |s| :: !IsSpace(s[i]) }

  lemma WordReaches(rest: string, p: nat)
    requires p <= |rest| && NoSpace(rest[..p])
    ensures p <= WordLength(rest)
            && (p < |rest| && !IsSpace(rest[p]) ==> NoSpace(rest[..p + 1]) && p < WordLength(rest))
    ensures p == |rest| || IsSpace(rest[p]) ==> p == WordLength(rest)
  {
    assert forall i | 0 <= i < p :: rest[..p][i] == rest[i];
  }

  /** The main loop of `DecodeBase58`: the characters up to the next space. */
  method DecodeLoop(b256: array<nat>, rest: string, zeroes: nat, maxLen: int) returns (ok: bool, p: nat, length: nat)
    requires Pow(58, |rest|) <= Pow(256, b256.Length) && InBuffer(b256[..], "", 0)
    modifies b256
    ensures p <= WordLength(rest) && (ok <==> p == WordLength(rest))
    ensures ok ==> InBuffer(b256[..], rest[..p], length) && (p > 0 ==> zeroes + length <= maxLen)
    ensures !ok ==> Undecodable(rest, zeroes, p, maxLen)
  {
    length := 0;
    p := 0;
    assert rest[..0] == "";
    while p < |rest| && !IsSpace(rest[p])
      invariant p <= |rest| && NoSpace(rest[..p])
      invariant InBuffer(b256[..], rest[..p], length)
      invariant p > 0 ==> length + zeroes <= maxLen
    {
      WordReaches(rest, p);
      if MapBase58(rest[p]) == -1 { return false, p, length; }
      length := DecodeChar(b256, rest, p, length);
      if length + zeroes > maxLen {
        BufferBytes(b256[..], rest[..p + 1], length);
        return false, p, length;
      }
      p := p + 1;
    }
    WordReaches(rest, p);
    ok := true;
  }

  method DecodeDigits(rest: string, zeroes: nat, maxLen: int) returns (ok: bool, p: nat, bytes: seq<nat>)
    ensures p <= |rest|
    ensures ok ==> p == WordLength(rest) && AllBase58(rest[..p]) && bytes == Of(256, Value(58, DigitsOf(rest[..p])))
    ensures ok && p > 0 ==> zeroes + |bytes| <= maxLen
    ensures !ok ==> p < WordLength(rest) && Undecodable(rest, zeroes, p, maxLen)
  {
    DecodeFits(|rest|);
    var size := |rest| * 733 / 1000 + 1;
    var b256 := new nat[size](_ => 0);
    EmptyBuffer(b256[..]);
    var length;
    ok, p, length := DecodeLoop(b256, rest, zeroes, maxLen);
    if !ok { return false, p, []; }
    BufferBytes(b256[..], rest[..p], length);
    assert b256[..][size - length..] == b256[size - length..];
    bytes := b256[size - length..];
  }

  lemma WordLengthIs(s: string, n: nat)
    requires n <= |s| && (forall i | 0 <= i < n :: !IsSpace(s[i])) && (n < |s| ==> IsSpace(s[n]))
    ensures WordLength(s) == n
  {
  }

  /** The word of a string is its leading '1's and the word after them. */
  lemma WordAfterOnes(t: string, z: nat)
    requires z <= LeadingOnes(t)
    ensures WordLength(t) == z + WordLength(t[z..])
  {
    var rest := t[z..];
    var n := z + WordLength(rest);
    forall i | 0 <= i < n ensures !IsSpace(t[i]) {
      if i >= z { assert t[i] == rest[i - z]; }
    }
    assert n < |t| ==> t[n] == rest[n - z];
    WordLengthIs(t, n);
  }

  /** If reading the word after the '1's fails, the string does not decode. */
  lemma FailsToDecode(t: string, z: nat, p: nat, maxLen: int)
    requires z == LeadingOnes(t) && p < WordLength(t[z..])
    requires Undecodable(t[z..], z, p, maxLen)
    ensures var word := t[..WordLength(t)]; word != "" && (AllBase58(word) ==> |Bytes(word)| > maxLen)
  {
    WordAfterOnes(t, z);
    OnesInWord(t);
    var word := t[..WordLength(t)];
    assert word[z + p] == t[z + p] == t[z..][p];
    if AllBase58(word) {
      DigitsOfStart(word[z..], t[z..], p + 1);
      MoreBytes(DigitsOf(word[z..]), p + 1);
    }
  }

  lemma DigitsOfStart(word: string, t: string, n: nat)
    requires n <= |word| <= |t| && word == t[..|word|] && AllBase58(word)
    ensures AllBase58(t[..n]) && DigitsOf(word)[..n] == DigitsOf(t[..n])
  {
    assert t[..n] == word[..n];
  }

  lemma TooManyOnes(t: string, maxLen: int)
    requires LeadingOnes(t) > 0 && LeadingOnes(t) > maxLen
    ensures DecodedWord(t, maxLen) == None
  {
    OnesInWord(t);
  }

  /** The end of `DecodeBase58`: only spaces may follow. */
  method DecodeTail(t: string, zeroes: nat, p: nat, bytes: seq<nat>, ghost maxLen: int) returns (r: Option<seq<nat>>)
    requires zeroes == LeadingOnes(t) && p == WordLength(t[zeroes..]) && AllBase58(t[zeroes..][..p])
    requires bytes == Of(256, Value(58, DigitsOf(t[zeroes..][..p])))
             && ((zeroes > 0 || p > 0) ==> zeroes + |bytes| <= maxLen)
    ensures r == DecodedWord(t, maxLen)
  {
    ReadWord(t, zeroes, p);
    var tail := t[zeroes..][p..];
    var q := SkipSpaces(tail);
    if q != |tail| { return None; }
    assert AllSpaces(tail[..q]) && tail[..q] == tail;
    return Some(ZeroBytes(zeroes) + bytes);
  }

  /** The part of `DecodeBase58` after the leading spaces. */
  method DecodeRest(t: string, maxLen: int) returns (r: Option<seq<nat>>)
    ensures r == DecodedWord(t, maxLen)
  {
    var ok, zeroes := CountOnes(t, maxLen);
    if !ok {
      TooManyOnes(t, maxLen);
      return None;
    }
    var p, bytes;
    ok, p, bytes := DecodeDigits(t[zeroes..], zeroes, maxLen);
    if !ok {
      FailsToDecode(t, zeroes, p, maxLen);
      return None;
    }
    if p == 0 { assert t[zeroes..][..p] == ""; }
    r := DecodeTail(t, zeroes, p, bytes, maxLen);
  }

  /** `DecodeBase58`. */
  method DecodeBase58(str: string, maxLen: int) returns (r: Option<seq<nat>>)
    ensures r == Decoded(str, maxLen)
  {
    var n := SkipSpaces(str);
    r := DecodeRest(str[n..], maxLen);
  }

  lemma ReadWord(t: string, z: nat, p: nat)
    requires z == LeadingOnes(t) && p == WordLength(t[z..]) && AllBase58(t[z..][..p])
    ensures var word := t[..WordLength(t)];
            AllBase58(word) && Bytes(word) == ZeroBytes(z) + Of(256, Value(58, DigitsOf(t[z..][..p])))
              && t[WordLength(t)..] == t[z..][p..]
    ensures (t[..WordLength(t)] == "") == (z == 0 && p == 0)
  {
    OnesInWord(t);
    WordAfterOnes(t, z);
    var word := t[..WordLength(t)];
    assert word[z..] == t[z..][..p];
    OnesThenDigits(word, z);
  }

  lemma OnesThenDigits(word: string, z: nat)
    requires z <= |word| && (forall i | 0 <= i < z :: word[i] == '1')
    ensures AllBase58(word) <==> AllBase58(word[z..])
  {
    forall i | z <= i < |word| ensures word[i] == word[z..][i - z] {}
    if AllBase58(word[z..]) {
      forall i | 0 <= i < |word| ensures MapBase58(word[i]) >= 0 {
        if i >= z { assert word[i] == word[z..][i - z]; }
      }
    }
  }

  // ----- Encoding and decoding are inverse -----

  lemma LeadingOnesIs(s: string, n: nat)
    requires n <= |s| && (forall i | 0 <= i < n :: s[i] == '1') && (n < |s| ==> s[n] != '1')
    ensures LeadingOnes(s) == n
  {
  }

  lemma LeadingSpacesIs(s: string, n: nat)
    requires n <= |s| && (forall i | 0 <= i < n :: IsSpace(s[i])) && (n < |s| ==> !IsSpace(s[n]))
    ensures LeadingSpaces(s) == n
  {
  }

  lemma LeadingZerosIs(s: seq<nat>, n: nat)
    requires n <= |s| && (forall i | 0 <= i < n :: s[i] == 0) && (n < |s| ==> s[n] != 0)
    ensures LeadingZeros(s) == n
  {
  }

  /** Characters of digits have these digits again. */
  lemma DigitsOfChars(d: seq<nat>)
    requires Below(58, d)
    ensures AllBase58(Chars(d)) && DigitsOf(Chars(d)) == d
  {
    forall i | 0 <= i < |d| ensures MapBase58(Chars(d)[i]) == d[i] { TablesMatch(d[i]); }
  }

  lemma CharsOfDigits(s: string)
    requires AllBase58(s)
    ensures Chars(DigitsOf(s)) == s
  {
    forall i | 0 <= i < |s| ensures Chars(DigitsOf(s))[i] == s[i] { TablesMatchBack(s[i]); }
  }

  /** A word of leading '1's and canonical digits is read as these. */
  lemma WordOf(z: nat, d: seq<nat>)
    requires Canonical(58, d)
    ensures var w := Ones(z) + Chars(d);
            AllBase58(w) && LeadingOnes(w) == z && AllBase58(w[z..]) && DigitsOf(w[z..]) == d
  {
    var w := Ones(z) + Chars(d);
    DigitsOfChars(d);
    assert w[z..] == Chars(d);
    OnesThenDigits(w, z);
    if d != [] { TablesMatch(d[0]); }
    LeadingOnesIs(w, z);
  }

  lemma BytesOfWord(z: nat, d: seq<nat>)
    requires Canonical(58, d)
    ensures var w := Ones(z) + Chars(d);
            AllBase58(w) && LeadingOnes(w) == z && Bytes(w) == ZeroBytes(z) + Of(256, Value(58, d))
  {
    WordOf(z, d);
  }

  /** Leading zeros, and a rest that has none. */
  lemma ZerosAndRest(x: seq<nat>, z: nat)
    requires Below(256, x) && z <= |x| && (forall i | 0 <= i < z :: x[i] == 0) && (z < |x| ==> x[z] != 0)
    ensures x == ZeroBytes(z) + x[z..] && x[z..] == Of(256, Value(256, x[z..]))
  {
    var rest := x[z..];
    assert Canonical(256, rest);
    CanonicalIsOf(256, rest);
  }

  /** The encoding of bytes is a word, with as many leading '1's as there are leading zeros, and reads as the bytes. */
  lemma BytesOfEncoded(x: seq<nat>)
    requires Below(256, x)
    ensures AllBase58(Encoded(x)) && LeadingOnes(Encoded(x)) == LeadingZeros(x) && Bytes(Encoded(x)) == x
  {
    var z := LeadingZeros(x);
    var n := Value(256, x[z..]);
    ZerosAndRest(x, z);
    OfIsCanonical(58, n);
    BytesOfWord(z, Of(58, n));
  }

  /** The digits after the leading '1's of a word are the canonical ones of their number. */
  lemma DigitsAfterOnes(word: string)
    requires AllBase58(word)
    ensures var rest := word[LeadingOnes(word)..];
            AllBase58(rest) && DigitsOf(rest) == Of(58, Value(58, DigitsOf(rest)))
  {
    var rest := word[LeadingOnes(word)..];
    if rest != "" { TablesMatchBack(rest[0]); }
    CanonicalIsOf(58, DigitsOf(rest));
  }

  lemma ZerosOfBytes(word: string)
    requires AllBase58(word)
    ensures var ones := LeadingOnes(word);
            LeadingZeros(Bytes(word)) == ones && Bytes(word)[ones..] == Of(256, Value(58, DigitsOf(word[ones..])))
  {
    var ones := LeadingOnes(word);
    OfIsCanonical(256, Value(58, DigitsOf(word[ones..])));
    LeadingZerosIs(Bytes(word), ones);
  }

  lemma EncodedOfBytes(word: string)
    requires AllBase58(word)
    ensures Encoded(Bytes(word)) == word
  {
    var ones := LeadingOnes(word);
    var rest := word[ones..];
    ZerosOfBytes(word);
    OfIsCanonical(256, Value(58, DigitsOf(rest)));
    DigitsAfterOnes(word);
    CharsOfDigits(rest);
    assert Encoded(Bytes(word)) == Ones(ones) + rest;
    OnesAndRest(word);
  }

  lemma OnesAndRest(word: string)
    ensures word == Ones(LeadingOnes(word)) + word[LeadingOnes(word)..]
  {
  }

  /** A word between spaces is what gets decoded. */
  lemma WordBetweenSpaces(before: string, word: string, after: string, maxLen: int)
    requires AllSpaces(before) && AllSpaces(after) && AllBase58(word)
    ensures Decoded(before + word + after, maxLen) == if word == "" || |Bytes(word)| <= maxLen then Some(Bytes(word))
            else None
  {
    var str := before + word + after;
    if word == "" {
      assert str == before + after;
      LeadingSpacesIs(str, |str|);
      assert str[|str|..] == "";
    } else {
      assert str[|before|] == word[0];
      LeadingSpacesIs(str, |before|);
      var t := str[|before|..];
      assert t == word + after;
      WordLengthIs(t, |word|);
      assert t[..|word|] == word && t[|word|..] == after;
    }
  }

  /** Decoding gives back what was encoded, whatever spaces are around it, if it may be that long. */
  lemma EncodeThenDecode(x: seq<nat>, before: string, after: string, maxLen: int)
    requires Below(256, x) && AllSpaces(before) && AllSpaces(after)
    ensures Decoded(before + Encoded(x) + after, maxLen) == if x == [] || |x| <= maxLen then Some(x) else None
  {
    BytesOfEncoded(x);
    WordBetweenSpaces(before, Encoded(x), after, maxLen);
    if Encoded(x) == "" { assert Bytes("") == []; }
  }

  lemma DecodedParts(str: string, maxLen: int)
    requires Decoded(str, maxLen).Some?
    ensures var t := str[LeadingSpaces(str)..];
      var word := t[..WordLength(t)];
      AllBase58(word) && Decoded(str, maxLen).value == Bytes(word) && AllSpaces(t[WordLength(t)..])
        && AllSpaces(str[..LeadingSpaces(str)])
  {
  }

  lemma ThreeParts(str: string, i: nat, j: nat)
    requires i <= |str| && j <= |str[i..]|
    ensures str == str[..i] + str[i..][..j] + str[i..][j..]
  {
  }

  /** Whatever decodes is, between its spaces, the encoding of what it decodes to. */
  lemma DecodeThenEncode(str: string, maxLen: int) returns (before: string, after: string)
    requires Decoded(str, maxLen).Some?
    ensures AllSpaces(before) && AllSpaces(after) && str == before + Encoded(Decoded(str, maxLen).value) + after
  {
    var t := str[LeadingSpaces(str)..];
    before, after := str[..LeadingSpaces(str)], t[WordLength(t)..];
    DecodedParts(str, maxLen);
    EncodedOfBytes(t[..WordLength(t)]);
    ThreeParts(str, LeadingSpaces(str), WordLength(t));
  }
}
