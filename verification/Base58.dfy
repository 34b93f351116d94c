/** Base58 (src/base58.cpp): conversion between byte strings and text by repeated multiplication in a
    buffer of fixed size. */
module Base58 {
  import opened Common
  import opened Radix

  type Bytes = seq<nat>

  const ALPHABET := "123456789" + ("ABCDEFGH" + ("JKLMN" + ("PQRSTUVWXYZ" + ("abcdefghijk" + "mnopqrstuvwxyz"))))

  // ---------------------------------------------------------------- characters

  function CharOf(d: nat): char
    requires d < 58
  {
    if d < 9 then '1' + d as char
    else if d < 17 then 'A' + (d - 9) as char
    else if d < 22 then 'J' + (d - 17) as char
    else if d < 33 then 'P' + (d - 22) as char
    else if d < 44 then 'a' + (d - 33) as char
    else 'm' + (d - 44) as char
  }

  predicate IsBase58(c: char) {
    '1' <= c <= '9' || 'A' <= c <= 'H' || 'J' <= c <= 'N' || 'P' <= c <= 'Z' || 'a' <= c <= 'k' || 'm' <= c <= 'z'
  }

  function DigitOf(c: char): (d: nat)
    requires IsBase58(c)
    ensures d < 58 && CharOf(d) == c
  {
    if c <= '9' then (c - '1') as nat
    else if c <= 'H' then (c - 'A') as nat + 9
    else if c <= 'N' then (c - 'J') as nat + 17
    else if c <= 'Z' then (c - 'P') as nat + 22
    else if c <= 'k' then (c - 'a') as nat + 33
    else (c - 'm') as nat + 44
  }

  /** The characters are those of the alphabet, in order. */
  lemma AlphabetInOrder(d: nat)
    requires d < 58
    ensures |ALPHABET| == 58 && ALPHABET[d] == CharOf(d)
  {
    assert forall i: nat | i < 9 :: "123456789"[i] == '1' + i as char;
    assert forall i: nat | i < 8 :: "ABCDEFGH"[i] == 'A' + i as char;
    assert forall i: nat | i < 5 :: "JKLMN"[i] == 'J' + i as char;
    assert forall i: nat | i < 11 :: "PQRSTUVWXYZ"[i] == 'P' + i as char;
    assert forall i: nat | i < 11 :: "abcdefghijk"[i] == 'a' + i as char;
    assert forall i: nat | i < 14 :: "mnopqrstuvwxyz"[i] == 'm' + i as char;
  }

  lemma CharFacts(d: nat)
    requires d < 58
    ensures IsBase58(CharOf(d)) && DigitOf(CharOf(d)) == d && !IsSpace(CharOf(d))
    ensures CharOf(d) == '1' <==> d == 0
  {
  }

  ghost function Chars(digits: seq<nat>): string
    requires AreDigits(58, digits)
  {
    seq(|digits|, i requires 0 <= i < |digits| => CharOf(digits[i]))
  }

  ghost predicate AllBase58(s: string) {
    forall i | 0 <= i < |s| :: IsBase58(s[i])
  }

  ghost function DigitsOf(s: string): (r: seq<nat>)
    requires AllBase58(s)
    ensures AreDigits(58, r)
  {
    seq(|s|, i requires 0 <= i < |s| => DigitOf(s[i]))
  }

  // ---------------------------------------------------------------- what encoding and decoding mean

  /** How many times `x` stands at the front. */
  ghost function Leading<T>(s: seq<T>, x: T): (k: nat)
    ensures k <= |s| && (forall i | 0 <= i < k :: s[i] == x) && (k < |s| ==> s[k] != x)
  {
    if s == [] || s[0] != x then 0 else 1 + Leading(s[1..], x)
  }

  lemma LeadingIs<T>(s: seq<T>, x: T, k: nat)
    requires k <= |s| && (forall i | 0 <= i < k :: s[i] == x) && (k < |s| ==> s[k] != x)
    ensures Leading(s, x) == k
  {
  }

  /** A `1` for each leading zero byte, then the rest as a number in base 58. */
  ghost function Encoded(bytes: Bytes): string
    requires AreDigits(256, bytes)
  {
    var z := Leading(bytes, 0);
    var digits := Digits(58, Value(256, bytes[z..]));
    DigitsValue(58, Value(256, bytes[z..]));
    seq(z, _ => '1') + Chars(digits)
  }

  ghost function Decoded(s: string): Bytes
    requires AllBase58(s)
  {
    var z := Leading(s, '1');
    seq(z, _ => 0) + Digits(256, Value(58, DigitsOf(s[z..])))
  }

  /** Decoding undoes encoding, for every byte string. */
  lemma DecodedEncoded(bytes: Bytes)
    requires AreDigits(256, bytes)
    ensures AllBase58(Encoded(bytes)) && Decoded(Encoded(bytes)) == bytes
    ensures forall i | 0 <= i < |Encoded(bytes)| :: !IsSpace(Encoded(bytes)[i])
  {
    hide Value, Digits, CharOf, DigitOf, IsBase58, IsSpace;
    var z := Leading(bytes, 0);
    var v := Value(256, bytes[z..]);
    var digits, s := Digits(58, v), Encoded(bytes);
    DigitsValue(58, v);
    CharFacts(0);
    forall i | 0 <= i < |digits|
      ensures IsBase58(CharOf(digits[i])) && DigitOf(CharOf(digits[i])) == digits[i] && !IsSpace(CharOf(digits[i]))
    {
      CharFacts(digits[i]);
    }
    if digits != [] {
      assert v > 0 by { NoDigits(58, v); }
      CharFacts(digits[0]);
    }
    LeadingIs(s, '1', z);
    assert s[z..] == Chars(digits);
    assert DigitsOf(s[z..]) == digits;
    ValueDigits(256, bytes[z..]);
    assert Decoded(s) == seq(z, _ => 0) + bytes[z..];
  }

  lemma NoDigits(base: nat, v: nat)
    requires base > 1
    ensures Digits(base, v) == [] <==> v == 0
  {
  }

  /** Encoding undoes decoding, for every text of base-58 characters. */
  lemma EncodedDecoded(s: string)
    requires AllBase58(s)
    ensures AreDigits(256, Decoded(s)) && Encoded(Decoded(s)) == s
  {
    hide Value, Digits, CharOf, DigitOf, IsBase58;
    var z := Leading(s, '1');
    var ds := DigitsOf(s[z..]);
    var v := Value(58, ds);
    var digits, bytes := Digits(256, v), Decoded(s);
    DigitsValue(256, v);
    CharFacts(0);
    if s[z..] != [] {
      assert CharOf(ds[0]) == s[z] != '1';
      CharFacts(ds[0]);
    }
    ValueDigits(58, ds);
    if digits != [] {
      assert v > 0 by { NoDigits(256, v); }
    }
    LeadingIs(bytes, 0, z);
    assert bytes[z..] == digits;
    assert Chars(ds) == s[z..];
    assert Encoded(bytes) == seq(z, _ => '1') + s[z..];
  }

  // ---------------------------------------------------------------- the buffers are large enough

  lemma EncodeFits(len: nat)
    ensures Pow(256, len) <= Pow(58, len * 138 / 100 + 1)
  {
    hide Pow;
    Base58To138();
    Fits(256, 58, 138, 100, len);
  }

  lemma DecodeFits(len: nat)
    ensures Pow(58, len) <= Pow(256, len * 733 / 1000 + 1)
  {
    hide Pow;
    Base58To1000();
    Fits(58, 256, 733, 1000, len);
  }

  /** 58^138 is at least 2^808, by 58^7 >= 2^41. */
  lemma Base58To138()
    ensures Pow(256, 100) <= Pow(58, 138)
  {
    hide Pow;
    Small();
    PowBase(Pow(2, 41), Pow(58, 7), 19);
    PowMul(2, 41, 19);
    PowMul(58, 7, 19);
    PowAdd(58, 133, 5);
    PowAdd(2, 779, 29);
    MulLess(Pow(2, 779), Pow(58, 133), Pow(2, 29), Pow(58, 5));
    PowMul(2, 8, 100);
    PowExponent(2, 800, 808);
  }

  /** 58^1000 is at most 2^5864, by 58^22 <= 2^129. */
  lemma Base58To1000()
    ensures Pow(58, 1000) <= Pow(256, 733)
  {
    hide Pow;
    Small();
    PowAdd(58, 10, 10);
    PowAdd(58, 20, 2);
    PowAdd(2, 59, 59);
    PowAdd(2, 118, 11);
    PowBase(Pow(58, 22), Pow(2, 129), 45);
    PowMul(58, 22, 45);
    PowMul(2, 129, 45);
    PowAdd(58, 990, 10);
    PowAdd(2, 5805, 59);
    MulLess(Pow(58, 990), Pow(2, 5805), Pow(58, 10), Pow(2, 59));
    PowMul(2, 8, 733);
  }

  lemma Small()
    ensures Pow(2, 8) == 256 && Pow(2, 29) <= Pow(58, 5) && Pow(2, 41) <= Pow(58, 7)
    ensures Pow(58, 10) == 430804206899405824 && Pow(58, 2) == 3364
    ensures Pow(2, 59) == 576460752303423488 && Pow(2, 11) == 2048
  {
    hide Pow;
    SmallOf2();
    SmallOf58();
  }

  lemma SmallOf2()
    ensures Pow(2, 8) == 256 && Pow(2, 11) == 2048 && Pow(2, 29) == 0x2000_0000
    ensures Pow(2, 41) == 0x200_0000_0000 && Pow(2, 59) == 0x800_0000_0000_0000
  {
    assert Pow(2, 8) == 256;
    PowAdd(2, 8, 8);
    PowAdd(2, 16, 16);
    PowAdd(2, 32, 8);
    PowAdd(2, 40, 1);
    PowAdd(2, 16, 8);
    PowAdd(2, 24, 5);
    PowAdd(2, 32, 16);
    PowAdd(2, 48, 11);
    PowAdd(2, 8, 3);
  }

  lemma SmallOf58()
    ensures Pow(58, 2) == 3364 && Pow(58, 5) == 656356768 && Pow(58, 7) == 2207984167552
    ensures Pow(58, 10) == 430804206899405824
  {
    PowAdd(58, 2, 3);
    PowAdd(58, 5, 2);
    PowAdd(58, 5, 5);
  }

  // ---------------------------------------------------------------- the conversions

  /** Appending a digit to a number that fits leaves no carry when the result fits. */
  lemma NoCarry(base: nat, mult: nat, digits: seq<nat>, size: nat, value: nat, carry: nat)
    requires AreDigits(mult, digits) && Pow(mult, |digits|) <= Pow(base, size)
    requires value + carry * Pow(base, size) == Value(mult, digits)
    ensures carry == 0
  {
    hide Value, Pow;
    ValueBound(mult, digits);
    if carry > 0 {
      MulLess(1, carry, Pow(base, size), Pow(base, size));
      assert false;
    }
  }

  /** Converts digits in base `mult` to digits in base `base`, most significant first, in a buffer of
      `size` digits; the carry is zero after every digit. */
  method Convert(digits: seq<nat>, mult: nat, base: nat, size: nat) returns (buf: array<nat>, length: nat)
    requires AreDigits(mult, digits) && base > 1 && mult > 1 && Pow(mult, |digits|) <= Pow(base, size)
    ensures fresh(buf) && buf.Length == size && length <= size && AreDigits(base, buf[..])
    ensures Value(base, buf[..]) == Value(mult, digits)
    ensures forall i | 0 <= i < size - length :: buf[i] == 0
  {
    hide Value, Pow;
    buf := new nat[size](_ => 0);
    length := 0;
    ValueOfZeros(base, buf[..]);
    NoValue(mult, digits);
    for p := 0 to |digits|
      invariant length <= size && AreDigits(base, buf[..]) && Value(base, buf[..]) == Value(mult, digits[..p])
      invariant forall i | 0 <= i < size - length :: buf[i] == 0
    {
      var carry;
      length, carry := MultiplyAdd(buf, base, mult, digits[p], length);
      ValueNext(mult, digits, p);
      PowExponent(mult, p + 1, |digits|);
      NoCarry(base, mult, digits[..p + 1], size, Value(base, buf[..]), carry);
      assert carry == 0;
    }
    assert digits[..|digits|] == digits;
  }

  lemma ValueOfZeros(base: nat, s: seq<nat>)
    requires forall i | 0 <= i < |s| :: s[i] == 0
    ensures Value(base, s) == 0
  {
    ValueZeros(base, s, |s|);
    assert s[|s|..] == [];
  }

  lemma NoValue(base: nat, s: seq<nat>)
    ensures Value(base, s[..0]) == 0
  {
  }

  lemma ValueNext(base: nat, s: seq<nat>, p: nat)
    requires p < |s|
    ensures Value(base, s[..p + 1]) == Value(base, s[..p]) * base + s[p]
  {
    assert s[..p + 1][..p] == s[..p];
  }

  /** The buffer without its leading zeros holds the shortest digits of its value. */
  lemma Shortest(base: nat, s: seq<nat>, k: nat)
    requires base > 1 && AreDigits(base, s) && k <= |s| && (forall i | 0 <= i < k :: s[i] == 0) && (k < |s| ==> s[k] != 0)
    ensures s[k..] == Digits(base, Value(base, s))
  {
    ValueZeros(base, s, k);
    ValueDigits(base, s[k..]);
  }

  method EncodeBase58(bytes: Bytes) returns (str: string)
    requires AreDigits(256, bytes)
    ensures str == Encoded(bytes)
  {
    hide Value, Pow, Digits, CharOf;
    var zeroes := 0;
    while zeroes < |bytes| && bytes[zeroes] == 0
      invariant zeroes <= |bytes| && forall i | 0 <= i < zeroes :: bytes[i] == 0
    {
      zeroes := zeroes + 1;
    }
    LeadingIs(bytes, 0, zeroes);
    var rest := bytes[zeroes..];
    EncodeFits(|rest|);
    var b58, length := Convert(rest, 256, 58, |rest| * 138 / 100 + 1);
    var it := SkipZeroes(b58, 58, length);
    var tail := Translate(b58, it);
    str := seq(zeroes, _ => '1') + tail;
  }

  /** The first digit that is not zero. */
  method SkipZeroes(buf: array<nat>, ghost base: nat, length: nat) returns (it: nat)
    requires base > 1 && AreDigits(base, buf[..]) && length <= buf.Length
    requires forall i | 0 <= i < buf.Length - length :: buf[i] == 0
    ensures it <= buf.Length && buf[it..] == Digits(base, Value(base, buf[..]))
  {
    it := buf.Length - length;
    while it < buf.Length && buf[it] == 0
      invariant it <= buf.Length && forall i | 0 <= i < it :: buf[i] == 0
    {
      it := it + 1;
    }
    Shortest(base, buf[..], it);
    assert buf[it..] == buf[..][it..];
  }

  method Translate(buf: array<nat>, from: nat) returns (str: string)
    requires from <= buf.Length && AreDigits(58, buf[from..])
    ensures str == Chars(buf[from..])
  {
    str := "";
    for it := from to buf.Length
      invariant |str| == it - from && forall i | 0 <= i < |str| :: str[i] == CharOf(buf[from + i])
    {
      assert buf[it] == buf[from..][it - from];
      str := str + [CharOf(buf[it])];
    }
  }

  /** The text is space, base-58 characters from `i` to `j`, and space. */
  ghost predicate IsCoreAt(text: string, i: nat, j: nat) {
    && i <= j <= |text| && AllBase58(text[i..j])
    && (forall k | 0 <= k < i :: IsSpace(text[k])) && forall k | j <= k < |text| :: IsSpace(text[k])
  }

  lemma InsideCore(text: string, i: nat, j: nat, p: nat)
    requires IsCoreAt(text, i, j) && p < |text|
    ensures if IsSpace(text[p]) then p < i || j <= p else i <= p < j && IsBase58(text[p])
  {
    assert i <= p < j ==> text[i..j][p - i] == text[p];
  }

  /** There is at most one reading that is not empty. */
  lemma OneCore(text: string, i: nat, j: nat, i': nat, j': nat)
    requires IsCoreAt(text, i, j) && IsCoreAt(text, i', j') && i < j
    ensures i' == i && j' == j
  {
    hide IsSpace, IsBase58;
    assert text[i..j][0] == text[i] && text[i..j][j - i - 1] == text[j - 1];
    DigitIsNoSpace(text[i]);
    DigitIsNoSpace(text[j - 1]);
    InsideCore(text, i', j', i);
    InsideCore(text, i', j', j - 1);
    assert text[i'..j'][0] == text[i'] && text[i'..j'][j' - i' - 1] == text[j' - 1];
    DigitIsNoSpace(text[i']);
    DigitIsNoSpace(text[j' - 1]);
    InsideCore(text, i, j, i');
    InsideCore(text, i, j, j' - 1);
  }

  lemma DigitIsNoSpace(c: char)
    ensures IsBase58(c) ==> !IsSpace(c)
  {
  }

  /** Reads the characters: where they start and end, the number of leading `1`, and the other digits. */
  method ReadDigits(text: string) returns (ok: bool, start: nat, end: nat, zeroes: nat, digits: seq<nat>)
    ensures ok ==> IsCoreAt(text, start, end) && zeroes == Leading(text[start..end], '1')
    ensures ok ==> digits == DigitsOf(text[start..end][zeroes..])
    ensures !ok ==> forall i: nat, j: nat :: !IsCoreAt(text, i, j)
  {
    hide DigitOf, IsSpace, IsBase58, CharOf;
    ok, start, end, zeroes, digits := true, 0, 0, 0, [];
    while start < |text| && IsSpace(text[start])
      invariant start <= |text| && forall k | 0 <= k < start :: IsSpace(text[k])
    {
      start := start + 1;
    }
    end := start;
    CharFacts(0);
    while end < |text| && text[end] == '1'
      invariant start <= end <= |text| && forall k | start <= k < end :: text[k] == '1'
    {
      end := end + 1;
    }
    zeroes := end - start;
    while end < |text| && !IsSpace(text[end])
      invariant start + zeroes <= end <= |text| && forall k | start <= k < end :: IsBase58(text[k]) && !IsSpace(text[k])
      invariant |digits| == end - start - zeroes && forall k | 0 <= k < |digits| :: digits[k] == DigitOf(text[start + zeroes + k])
    {
      if !IsBase58(text[end]) {
        NoCore(text, end);
        ok := false;
        return;
      }
      digits := digits + [DigitOf(text[end])];
      end := end + 1;
    }
    var p := end;
    while p < |text| && IsSpace(text[p])
      invariant end <= p <= |text| && forall k | end <= k < p :: IsSpace(text[k])
    {
      p := p + 1;
    }
    if p != |text| {
      NoCoreWithGap(text, start, end, p);
      ok := false;
      return;
    }
    ReadAll(text, start, end, zeroes, digits);
  }

  lemma ReadAll(text: string, start: nat, end: nat, zeroes: nat, digits: seq<nat>)
    requires start + zeroes <= end <= |text| && (forall k | start <= k < end :: IsBase58(text[k]))
    requires (forall k | 0 <= k < start :: IsSpace(text[k])) && forall k | end <= k < |text| :: IsSpace(text[k])
    requires (forall k | start <= k < start + zeroes :: text[k] == '1') && (start + zeroes < end ==> text[start + zeroes] != '1')
    requires |digits| == end - start - zeroes && forall k | 0 <= k < |digits| :: digits[k] == DigitOf(text[start + zeroes + k])
    ensures IsCoreAt(text, start, end) && zeroes == Leading(text[start..end], '1')
    ensures digits == DigitsOf(text[start..end][zeroes..])
  {
    hide DigitOf, IsSpace, IsBase58, CharOf, Leading;
    var core := text[start..end];
    assert forall k | 0 <= k < |core| :: core[k] == text[start + k];
    LeadingIs(core, '1', zeroes);
    assert forall k | 0 <= k < |core| - zeroes :: core[zeroes..][k] == text[start + zeroes + k];
  }

  lemma NoCore(text: string, p: nat)
    requires p < |text| && !IsSpace(text[p]) && !IsBase58(text[p])
    ensures forall i: nat, j: nat :: !IsCoreAt(text, i, j)
  {
    hide IsSpace, IsBase58;
    forall i: nat, j: nat ensures !IsCoreAt(text, i, j) {
      if IsCoreAt(text, i, j) {
        InsideCore(text, i, j, p);
      }
    }
  }

  lemma NoCoreWithGap(text: string, start: nat, gap: nat, p: nat)
    requires start < gap < p < |text| && !IsSpace(text[start]) && IsSpace(text[gap]) && !IsSpace(text[p])
    ensures forall i: nat, j: nat :: !IsCoreAt(text, i, j)
  {
    hide IsSpace, IsBase58;
    forall i: nat, j: nat ensures !IsCoreAt(text, i, j) {
      if IsCoreAt(text, i, j) {
        InsideCore(text, i, j, start);
        InsideCore(text, i, j, gap);
      }
    }
  }

  method DecodeBase58(text: string) returns (r: Option<Bytes>)
    ensures r.Some? ==> exists i: nat, j: nat :: IsCoreAt(text, i, j) && r.value == Decoded(text[i..j])
    ensures r.None? ==> forall i: nat, j: nat :: !IsCoreAt(text, i, j)
  {
    hide Value, Pow, Digits, DigitOf, IsSpace, IsBase58, CharOf;
    var ok, start, end, zeroes, digits := ReadDigits(text);
    if !ok {
      return None;
    }
    DecodeFits(|digits|);
    var b256, length := Convert(digits, 58, 256, |digits| * 733 / 1000 + 1);
    var it := SkipZeroes(b256, 256, length);
    r := Some(seq(zeroes, _ => 0) + b256[it..]);
  }

  /** The text of any bytes decodes to them. */
  method RoundTrip(bytes: Bytes) returns (r: Option<Bytes>)
    requires AreDigits(256, bytes)
    ensures r == Some(bytes)
  {
    hide IsSpace, IsBase58;
    var str := EncodeBase58(bytes);
    DecodedEncoded(bytes);
    assert IsCoreAt(str, 0, |str|) && str[0..|str|] == str;
    r := DecodeBase58(str);
    forall i: nat, j: nat | IsCoreAt(str, i, j) ensures str[i..j] == str {
      if str != "" {
        OneCore(str, 0, |str|, i, j);
      }
    }
  }

  // ---------------------------------------------------------------- with a checksum

  /** The first four bytes of the hash. */
  type Checksum = Bytes -> Bytes

  ghost predicate ChecksumOk(sum: Checksum) {
    forall b :: |sum(b)| == 4 && AreDigits(256, sum(b))
  }

  method EncodeBase58Check(bytes: Bytes, sum: Checksum) returns (str: string)
    requires AreDigits(256, bytes) && ChecksumOk(sum)
    ensures str == Encoded(bytes + sum(bytes))
  {
    str := EncodeBase58(bytes + sum(bytes));
  }

  method DecodeBase58Check(text: string, sum: Checksum) returns (r: Option<Bytes>)
    requires ChecksumOk(sum)
    ensures r.Some? ==> AreDigits(256, r.value) && exists i: nat, j: nat :: IsCoreAt(text, i, j) && text[i..j] == Encoded(r.value + sum(r.value))
    ensures r.None? ==> forall i: nat, j: nat, bytes | IsCoreAt(text, i, j) && AreDigits(256, bytes) :: text[i..j] != Encoded(bytes + sum(bytes))
  {
    hide IsSpace, IsBase58, Encoded, Decoded, AllBase58;
    var d := DecodeBase58(text);
    if d.None? {
      return None;
    }
    var all := d.value;
    ghost var i: nat, j: nat :| IsCoreAt(text, i, j) && all == Decoded(text[i..j]);
    EncodedDecoded(text[i..j]);
    if |all| < 4 || all[|all| - 4..] != sum(all[..|all| - 4]) {
      forall i': nat, j': nat, bytes | IsCoreAt(text, i', j') && AreDigits(256, bytes)
        ensures text[i'..j'] != Encoded(bytes + sum(bytes))
      {
        SameCore(text, i, j, i', j');
        NotChecked(text[i..j], sum, all, bytes);
      }
      return None;
    }
    r := Some(all[..|all| - 4]);
    assert r.value + sum(r.value) == all;
  }

  lemma NotChecked(core: string, sum: Checksum, all: Bytes, bytes: Bytes)
    requires ChecksumOk(sum) && AllBase58(core) && all == Decoded(core) && AreDigits(256, bytes)
    requires |all| < 4 || all[|all| - 4..] != sum(all[..|all| - 4])
    ensures core != Encoded(bytes + sum(bytes))
  {
    hide IsBase58, Encoded, Decoded;
    DecodedEncoded(bytes + sum(bytes));
    Suffix4(bytes, sum(bytes), bytes + sum(bytes));
  }

  lemma Suffix4(bytes: Bytes, sum: Bytes, all: Bytes)
    requires all == bytes + sum && |sum| == 4
    ensures |all| >= 4 && all[|all| - 4..] == sum && all[..|all| - 4] == bytes
  {
  }

  lemma SameCore(text: string, i: nat, j: nat, i': nat, j': nat)
    requires IsCoreAt(text, i, j) && IsCoreAt(text, i', j')
    ensures text[i..j] == text[i'..j']
  {
    hide IsSpace, IsBase58;
    if i < j {
      OneCore(text, i, j, i', j');
    } else if i' < j' {
      OneCore(text, i', j', i, j);
    }
  }
}
