/**
Base58 (src/base58.cpp): byte strings as text in an alphabet without the characters 0, I, O and l. Leading zero
bytes are written as leading '1's; the rest is a change of base, done digit by digit in a buffer.
*/
module Base58 {
  import opened Wrappers
  import opened Chars
  import opened Numbers
  import opened Radix

  // ---------------------------------------------------------------- the alphabet

  /** All alphanumeric characters except four, in order. */
  function Char(d: nat): char
    requires d < 58
  {
    if d < 9 then ('1' as int + d) as char
    else if d < 17 then ('A' as int + d - 9) as char
    else if d < 22 then ('J' as int + d - 17) as char
    else if d < 33 then ('P' as int + d - 22) as char
    else if d < 44 then ('a' as int + d - 33) as char
    else ('m' as int + d - 44) as char
  }

  function Digit(c: char): (r: Option<nat>)
    ensures r.Some? ==> r.value < 58
  {
    if '1' <= c <= '9' then Some(c as int - '1' as int)
    else if 'A' <= c <= 'H' then Some(c as int - 'A' as int + 9)
    else if 'J' <= c <= 'N' then Some(c as int - 'J' as int + 17)
    else if 'P' <= c <= 'Z' then Some(c as int - 'P' as int + 22)
    else if 'a' <= c <= 'k' then Some(c as int - 'a' as int + 33)
    else if 'm' <= c <= 'z' then Some(c as int - 'm' as int + 44)
    else None
  }

  lemma CharIs(d: nat)
    requires d < 58
    ensures Digit(Char(d)) == Some(d) && !IsSpace(Char(d)) && (Char(d) == '1' <==> d == 0)
  {
  }

  lemma DigitIs(c: char)
    ensures Digit(c).Some? ==> Char(Digit(c).value) == c && !IsSpace(c) && (Digit(c).value == 0 <==> c == '1')
  {
  }

  const Alphabet := "123456789" + "ABCDEFGH" + "JKLMN" + "PQRSTUVWXYZ" + "abcdefghijk" + "mnopqrstuvwxyz"

  /** The digits are the places in the alphabet. */
  lemma AlphabetIs(d: nat)
    requires d < 58
    ensures |Alphabet| == 58 && Alphabet[d] == Char(d)
  {
    Letters(d);
    var a, b, c := "123456789", "ABCDEFGH", "JKLMN";
    var e, f, g := "PQRSTUVWXYZ", "abcdefghijk", "mnopqrstuvwxyz";
    assert Alphabet == a + b + c + e + f + g;
    assert Alphabet[d] ==
      if d < 9 then a[d] else if d < 17 then b[d - 9] else if d < 22 then c[d - 17]
      else if d < 33 then e[d - 22] else if d < 44 then f[d - 33] else g[d - 44];
  }

  lemma Letters(d: nat)
    requires d < 58
    ensures d < 9 ==> "123456789"[d] == Char(d)
    ensures 9 <= d < 17 ==> "ABCDEFGH"[d - 9] == Char(d)
    ensures 17 <= d < 22 ==> "JKLMN"[d - 17] == Char(d)
    ensures 22 <= d < 33 ==> "PQRSTUVWXYZ"[d - 22] == Char(d)
    ensures 33 <= d < 44 ==> "abcdefghijk"[d - 33] == Char(d)
    ensures 44 <= d ==> "mnopqrstuvwxyz"[d - 44] == Char(d)
  {
  }

  /** Exactly the characters of the alphabet are digits. */
  lemma AlphabetHas(c: char)
    ensures Digit(c).Some? <==> c in Alphabet
  {
    if Digit(c).Some? {
      AlphabetIs(Digit(c).value);
      DigitIs(c);
    }
    if c in Alphabet {
      var d :| 0 <= d < |Alphabet| && Alphabet[d] == c;
      AlphabetIs(d);
      CharIs(d);
    }
  }

  // ---------------------------------------------------------------- encoding and decoding

  function Text(ds: seq<nat>): (r: string)
    requires Radix.Digits(ds, 58)
    ensures |r| == |ds| && forall k :: 0 <= k < |ds| ==> r[k] == Char(ds[k])
  {
    if ds == [] then "" else Text(ds[..|ds| - 1]) + [Char(ds[|ds| - 1])]
  }

  /** The digits of a text, None if a character is not in the alphabet. */
  function Values(t: string): (r: Option<seq<nat>>)
    ensures r.Some? ==> |r.value| == |t| && Radix.Digits(r.value, 58)
  {
    if t == "" then Some([]) else
      var prev, d := Values(t[..|t| - 1]), Digit(t[|t| - 1]);
      if prev.None? || d.None? then None else Some(prev.value + [d.value])
  }

  /** How many elements at the beginning are `x`. */
  function Leading<T(==)>(s: seq<T>, x: T): (n: nat)
    ensures n <= |s| && (forall k :: 0 <= k < n ==> s[k] == x) && (n < |s| ==> s[n] != x)
  {
    if s == [] || s[0] != x then 0 else
      var n := 1 + Leading(s[1..], x);
      assert forall k :: 1 <= k < n ==> s[k] == s[1..][k - 1];
      n
  }

  function Repeat<T>(x: T, n: nat): (r: seq<T>)
    ensures |r| == n && forall k :: 0 <= k < n ==> r[k] == x
  {
    seq(n, _ => x)
  }

  function Encode(bytes: seq<nat>): string
    requires Radix.Digits(bytes, 256)
  {
    var z := Leading(bytes, 0);
    ShortestIs(Num(bytes[z..], 256), 58);
    Repeat('1', z) + Text(Shortest(Num(bytes[z..], 256), 58))
  }

  /** An encoding is known by its digits: zeros in front, then the same number in the other base. */
  lemma EncodeIs(bytes: seq<nat>, z: nat, ds: seq<nat>)
    requires Radix.Digits(bytes, 256) && z < |bytes| && bytes[z] != 0 && forall k :: 0 <= k < z ==> bytes[k] == 0
    requires Radix.Digits(ds, 58) && ds != [] && ds[0] != 0 && Num(ds, 58) == Num(bytes[z..], 256)
    ensures Encode(bytes) == Repeat('1', z) + Text(ds)
  {
    hide Num, Shortest, Text;
    ShortestUnique(ds, 58);
    assert Leading(bytes, 0) == z;
  }

  lemma Num3(a: nat, b: nat, c: nat, base: nat)
    ensures Num([a, b, c], base) == (a * base + b) * base + c
  {
    Num2(a, b, base);
    NumSnoc([a, b], c, base);
    assert [a, b] + [c] == [a, b, c];
  }

  lemma Num2(a: nat, b: nat, base: nat)
    ensures Num([a], base) == a && Num([a, b], base) == a * base + b
  {
    NumSnoc([], a, base);
    NumSnoc([a], b, base);
    assert [] + [a] == [a] && [a] + [b] == [a, b];
  }

  lemma KnownLetters()
    ensures Text([1, 39]) == "2g" && Text([33, 2, 39, 28]) == "a3gV"
  {
    assert Char(1) == '2' && Char(39) == 'g' && Char(33) == 'a' && Char(2) == '3' && Char(28) == 'V';
  }

  /** Two texts that the repository's test data give for their bytes, and a zero in front. */
  lemma KnownTexts()
    ensures Encode([0x61]) == "2g" && Encode([0, 0x61]) == "1" + "2g" && Encode([0x62, 0x62, 0x62]) == "a3gV"
  {
    hide Num, Encode, Text, Char;
    Num2(0x61, 0, 256);
    Num2(1, 39, 58);
    assert [0x61][0..] == [0x61] == [0, 0x61][1..];
    EncodeIs([0x61], 0, [1, 39]);
    EncodeIs([0, 0x61], 1, [1, 39]);
    Num3(0x62, 0x62, 0x62, 256);
    Num3(33, 2, 39, 58);
    NumSnoc([33, 2, 39], 28, 58);
    assert [33, 2, 39] + [28] == [33, 2, 39, 28] && [0x62, 0x62, 0x62][0..] == [0x62, 0x62, 0x62];
    EncodeIs([0x62, 0x62, 0x62], 0, [33, 2, 39, 28]);
    KnownLetters();
    assert Repeat('1', 0) == "" && Repeat('1', 1) == "1";
  }

  function SkipSpaces(s: string): (r: string)
    ensures r != "" ==> !IsSpace(r[0])
  {
    if s != "" && IsSpace(s[0]) then SkipSpaces(s[1..]) else s
  }

  /** The characters before the first space. */
  function Word(s: string): (r: string)
    ensures |r| <= |s| && r == s[..|r|] && (|r| < |s| ==> IsSpace(s[|r|]))
    ensures forall k :: 0 <= k < |r| ==> !IsSpace(r[k])
  {
    if s == "" || IsSpace(s[0]) then "" else [s[0]] + Word(s[1..])
  }

  function Decode(s: string): Option<seq<nat>> {
    var t := SkipSpaces(s);
    var z := Leading(t, '1');
    var word := Word(t[z..]);
    var ds := Values(word);
    if ds.None? || SkipSpaces(t[z + |word|..]) != "" then None
    else Some(Repeat(0, z) + Shortest(Num(ds.value, 58), 256))
  }

  // ---------------------------------------------------------------- round trips

  lemma {:induction false} ValuesOfText(ds: seq<nat>)
    requires Radix.Digits(ds, 58)
    ensures Values(Text(ds)) == Some(ds)
  {
    if ds != [] {
      var n := |ds| - 1;
      ValuesOfText(ds[..n]);
      CharIs(ds[n]);
      assert Text(ds)[..n] == Text(ds[..n]) && Text(ds)[n] == Char(ds[n]);
      assert ds[..n] + [ds[n]] == ds;
    }
  }

  lemma {:induction false} TextOfValues(t: string)
    ensures Values(t).Some? ==> Text(Values(t).value) == t
  {
    if t != "" && Values(t).Some? {
      var n := |t| - 1;
      TextOfValues(t[..n]);
      DigitIs(t[n]);
    }
  }

  lemma {:induction false} WordOf(s: string)
    requires forall k :: 0 <= k < |s| ==> !IsSpace(s[k])
    ensures Word(s) == s
  {
    if s != "" { WordOf(s[1..]); }
  }

  lemma {:induction false} LeadingOf<T>(x: T, z: nat, s: seq<T>)
    requires s != [] ==> s[0] != x
    ensures Leading(Repeat(x, z) + s, x) == z
  {
    var r := Repeat(x, z) + s;
    if z == 0 {
      assert r == s;
    } else {
      LeadingOf(x, z - 1, s);
      assert r[1..] == Repeat(x, z - 1) + s;
    }
  }

  lemma TextWord(z: nat, ds: seq<nat>)
    requires Radix.Digits(ds, 58) && (ds != [] ==> ds[0] != 0)
    ensures var t := Repeat('1', z) + Text(ds);
      SkipSpaces(t) == t && Leading(t, '1') == z && t[z..] == Text(ds) && Word(Text(ds)) == Text(ds)
  {
    var t := Repeat('1', z) + Text(ds);
    if ds != [] { CharIs(ds[0]); }
    LeadingOf('1', z, Text(ds));
    assert t[z..] == Text(ds);
    forall k | 0 <= k < |ds| ensures !IsSpace(Text(ds)[k]) { CharIs(ds[k]); }
    WordOf(Text(ds));
  }

  lemma {:induction false} EncodeParts(bytes: seq<nat>)
    requires Radix.Digits(bytes, 256)
    ensures var z := Leading(bytes, 0);
      var ds := Shortest(Num(bytes[z..], 256), 58);
      && Radix.Digits(ds, 58) && (ds != [] ==> ds[0] != 0) && Num(ds, 58) == Num(bytes[z..], 256)
      && Encode(bytes) == Repeat('1', z) + Text(ds)
      && Repeat(0, z) + Shortest(Num(bytes[z..], 256), 256) == bytes
  {
    hide Shortest, Num, Text;
    var z := Leading(bytes, 0);
    ShortestIs(Num(bytes[z..], 256), 58);
    ShortestUnique(bytes[z..], 256);
    assert Repeat(0, z) + bytes[z..] == bytes;
  }

  /** Decoding a text that has no white space and no '1' after the leading ones. */
  lemma {:induction false} DecodeText(z: nat, ds: seq<nat>)
    requires Radix.Digits(ds, 58) && (ds != [] ==> ds[0] != 0)
    ensures Decode(Repeat('1', z) + Text(ds)) == Some(Repeat(0, z) + Shortest(Num(ds, 58), 256))
  {
    hide Shortest, Num, Text, Values, SkipSpaces, Leading, Word;
    TextWord(z, ds);
    ValuesOfText(ds);
    SkipNothing();
    var t := Repeat('1', z) + Text(ds);
    assert t[z + |Text(ds)|..] == "";
  }

  /** Decoding what was encoded gives back every byte string. */
  lemma {:induction false} DecodeEncode(bytes: seq<nat>)
    requires Radix.Digits(bytes, 256)
    ensures Decode(Encode(bytes)) == Some(bytes)
  {
    hide Shortest, Num, Text, Encode, Decode, Leading;
    EncodeParts(bytes);
    var z := Leading(bytes, 0);
    DecodeText(z, Shortest(Num(bytes[z..], 256), 58));
  }

  lemma SkipNothing()
    ensures SkipSpaces("") == ""
  {
  }

  /** Text without surrounding white space. */
  function Trim(s: string): string { TrimEnd(SkipSpaces(s)) }

  function TrimEnd(s: string): string {
    if s != "" && IsSpace(s[|s| - 1]) then TrimEnd(s[..|s| - 1]) else s
  }

  lemma {:induction false} TrimEndOf(s: string, n: nat)
    requires n <= |s| && (n > 0 ==> !IsSpace(s[n - 1])) && forall k :: n <= k < |s| ==> IsSpace(s[k])
    ensures TrimEnd(s) == s[..n]
  {
    if n < |s| {
      TrimEndOf(s[..|s| - 1], n);
      assert s[..|s| - 1][..n] == s[..n];
    }
  }

  lemma {:induction false} SkipAll(s: string)
    requires SkipSpaces(s) == ""
    ensures forall k :: 0 <= k < |s| ==> IsSpace(s[k])
  {
    if s != "" && IsSpace(s[0]) {
      SkipAll(s[1..]);
      assert forall k :: 1 <= k < |s| ==> s[k] == s[1..][k - 1];
    }
  }

  lemma DecodedDigits(z: nat, n: nat)
    ensures Radix.Digits(Repeat(0, z) + Shortest(n, 256), 256)
    ensures Leading(Repeat(0, z) + Shortest(n, 256), 0) == z
    ensures (Repeat(0, z) + Shortest(n, 256))[z..] == Shortest(n, 256)
    ensures Num(Shortest(n, 256), 256) == n
  {
    ShortestIs(n, 256);
    LeadingOf(0, z, Shortest(n, 256));
  }

  /** A text that decodes is white space, ones, a word and white space. */
  lemma {:induction false} DecodeParts(s: string)
    requires Decode(s).Some?
    ensures var t := SkipSpaces(s);
      var z := Leading(t, '1');
      var word := Word(t[z..]);
      && Values(word).Some? && Trim(s) == Repeat('1', z) + word && (word != "" ==> word[0] != '1')
      && Decode(s).value == Repeat(0, z) + Shortest(Num(Values(word).value, 58), 256)
  {
    hide Shortest, Num, Values, SkipSpaces, Leading, Word, TrimEnd;
    var t := SkipSpaces(s);
    var z := Leading(t, '1');
    var word := Word(t[z..]);
    var n := z + |word|;
    SkipAll(t[n..]);
    forall k | n <= k < |t| ensures IsSpace(t[k]) { assert t[k] == t[n..][k - n]; }
    assert t[..n] == Repeat('1', z) + word;
    assert n > 0 ==> t[n - 1] == t[..n][n - 1];
    TrimEndOf(t, n);
  }

  lemma {:induction false} TrimEndIs(t: string) returns (m: nat)
    ensures m <= |t| && TrimEnd(t) == t[..m] && forall k :: m <= k < |t| ==> IsSpace(t[k])
  {
    if t != "" && IsSpace(t[|t| - 1]) {
      m := TrimEndIs(t[..|t| - 1]);
      assert t[..|t| - 1][..m] == t[..m];
    } else {
      m := |t|;
    }
  }

  lemma {:induction false} SkipSpacesAll(s: string)
    requires forall k :: 0 <= k < |s| ==> IsSpace(s[k])
    ensures SkipSpaces(s) == ""
  {
    if s != "" { SkipSpacesAll(s[1..]); }
  }

  lemma {:induction false} ValuesWhen(t: string)
    ensures Values(t).Some? <==> forall k :: 0 <= k < |t| ==> Digit(t[k]).Some?
  {
    if t != "" { ValuesWhen(t[..|t| - 1]); }
  }

  /** Exactly the texts in the alphabet, with white space around them, can be decoded. */
  lemma {:induction false} DecodesExactly(s: string)
    ensures Decode(s).Some? <==> forall k :: 0 <= k < |Trim(s)| ==> Trim(s)[k] in Alphabet
  {
    hide Shortest, Num, Values, SkipSpaces, Leading, Word, TrimEnd, Digit, IsSpace, Alphabet;
    var t := SkipSpaces(s);
    var z := Leading(t, '1');
    var m := TrimEndIs(t);
    var word := Word(t[z..]);
    forall c ensures Digit(c).Some? <==> c in Alphabet { AlphabetHas(c); }
    forall c ensures Digit(c).Some? ==> !IsSpace(c) { DigitIs(c); }
    ValuesWhen(word);
    OneIsDigit();
    if Decode(s).Some? { DecodeParts(s); }
    if forall k :: 0 <= k < |Trim(s)| ==> Trim(s)[k] in Alphabet {
      assert Trim(s) == t[..m];
      assert forall k :: 0 <= k < m ==> t[k] == t[..m][k] && Digit(t[k]).Some?;
      WordEnds(t, z, m);
      assert forall k :: 0 <= k < |word| ==> word[k] == t[z + k];
      SkipSpacesAll(t[m..]);
      assert SkipSpaces(t[z + |word|..]) == "";
    }
  }

  lemma OneIsDigit()
    ensures Digit('1').Some? && !IsSpace('1')
  {
  }

  lemma WordEnds(t: string, z: nat, m: nat)
    requires z == Leading(t, '1') && m <= |t|
    requires (forall k :: 0 <= k < m ==> !IsSpace(t[k])) && forall k :: m <= k < |t| ==> IsSpace(t[k])
    ensures z <= m && z + |Word(t[z..])| == m
  {
    hide Leading, Word;
    var word := Word(t[z..]);
    assert m < |t| ==> IsSpace(t[m]) && t[m] != '1';
    var n := |word|;
    assert n < |t[z..]| ==> t[z..][n] == t[z + n];
    assert forall k :: 0 <= k < n ==> word[k] == t[z + k];
    assert forall k :: z <= k < z + n ==> t[k] == word[k - z];
  }

  /** Encoding what was decoded gives back the text, trimmed. */
  lemma {:induction false} EncodeDecode(s: string)
    requires Decode(s).Some?
    ensures Radix.Digits(Decode(s).value, 256) && Encode(Decode(s).value) == Trim(s)
  {
    hide Shortest, Num, Text, Values, SkipSpaces, Leading, Word, Decode, Trim;
    DecodeParts(s);
    var t := SkipSpaces(s);
    var z := Leading(t, '1');
    var word := Word(t[z..]);
    var ds := Values(word).value;
    DecodedDigits(z, Num(ds, 58));
    TextOfValues(word);
    if word != "" { FirstDigit(word); }
    ShortestUnique(ds, 58);
  }

  lemma FirstDigit(word: string)
    requires word != "" && Values(word).Some? && word[0] != '1'
    ensures Values(word).value[0] != 0
  {
    TextOfValues(word);
    CharIs(Values(word).value[0]);
  }

  // ---------------------------------------------------------------- the buffers are large enough

  lemma Powers()
    ensures Power(58, 5) == 656356768 && Power(58, 7) == 2207984167552
    ensures Power(2, 3) == 8 && Power(2, 8) == 256 && Power(2, 29) == 536870912 && Power(2, 41) == 2199023255552
  {
    PowersOfTwo();
    assert Power(58, 3) == 195112;
    PowerAdd(58, 3, 2);
    PowerAdd(58, 5, 2);
  }

  lemma PowersOfTwo()
    ensures Power(2, 3) == 8 && Power(2, 8) == 256 && Power(2, 29) == 536870912 && Power(2, 41) == 2199023255552
  {
    assert Power(2, 4) == 16 && Power(2, 5) == 32 && Power(2, 1) == 2;
    PowerAdd(2, 4, 4);
    PowerAdd(2, 8, 8);
    PowerAdd(2, 16, 8);
    PowerAdd(2, 24, 5);
    PowerAdd(2, 8, 4);
    PowerAdd(2, 29, 12);
  }

  /** 256^100 < 58^138. */
  lemma BytesFit()
    ensures Power(256, 100) <= Power(58, 138)
  {
    hide Power;
    Powers();
    PowerMul(2, 8, 100);
    PowerMul(58, 7, 19);
    PowerAdd(58, 133, 5);
    PowerMul(2, 41, 19);
    PowerAdd(2, 779, 29);
    BaseMonotone(Power(2, 41), Power(58, 7), 19);
    MulMonotone(Power(2, 779), Power(58, 133), Power(2, 29));
    MulMonotone(Power(2, 29), Power(58, 5), Power(58, 133));
    PowerMonotone(2, 800, 808);
  }

  lemma PowersOf58()
    ensures Power(58, 50) == 14838830640714294999983396511843381888381117770762056659674968992599706869653743415066624
  {
    hide Power;
    Powers();
    PowerAdd(58, 5, 5);
    PowerAdd(58, 10, 10);
    PowerAdd(58, 20, 20);
    PowerAdd(58, 40, 10);
  }

  lemma LargePowerOfTwo()
    ensures Power(2, 293) == 15914343565113172548972231940698266883214596825515126958094847260581103904401068017057792
  {
    hide Power;
    PowersOfTwo();
    PowerAdd(2, 29, 29);
    PowerAdd(2, 58, 58);
    PowerAdd(2, 116, 116);
    PowerAdd(2, 232, 58);
    PowerAdd(2, 290, 3);
  }

  /** 58^1000 < 256^733. */
  lemma CharactersFit()
    ensures Power(58, 1000) <= Power(256, 733)
  {
    hide Power;
    PowersOfTwo();
    PowersOf58();
    LargePowerOfTwo();
    PowerMul(58, 50, 20);
    PowerMul(2, 293, 20);
    BaseMonotone(Power(58, 50), Power(2, 293), 20);
    PowerMul(2, 8, 733);
    PowerMonotone(2, 5860, 5864);
  }

  lemma PowerSwap(a: nat, m: nat, n: nat)
    ensures Power(Power(a, m), n) == Power(Power(a, n), m)
  {
    hide Power;
    PowerMul(a, m, n);
    PowerMul(a, n, m);
    assert m * n == n * m;
  }

  lemma {:induction false} Rooted(x: nat, y: nat, p: nat)
    requires p > 0 && Power(x, p) <= Power(y, p)
    ensures x <= y
  {
    hide Power;
    if y < x { BaseStrict(y, x, p); }
  }

  /** If a^p <= b^r and m / n >= r / p, then a^n <= b^m. */
  lemma {:induction false} Fit(a: nat, b: nat, p: nat, r: nat, n: nat, m: nat)
    requires b > 0 && p > 0 && Power(a, p) <= Power(b, r) && r * n <= p * m
    ensures Power(a, n) <= Power(b, m)
  {
    hide Power;
    PowerSwap(a, n, p);
    BaseMonotone(Power(a, p), Power(b, r), n);
    PowerMul(b, r, n);
    PowerMonotone(b, r * n, p * m);
    PowerMul(b, p, m);
    PowerSwap(b, p, m);
    Rooted(Power(a, n), Power(b, m), p);
  }

  /** Room for the value of up to `n` bytes, and of up to `n` characters. */
  lemma BufferSizes(n: nat)
    ensures Power(256, n) <= Power(58, n * 138 / 100 + 1) && Power(58, n) <= Power(256, n * 733 / 1000 + 1)
  {
    hide Power;
    BytesFit();
    CharactersFit();
    Fit(256, 58, 100, 138, n, n * 138 / 100 + 1);
    Fit(58, 256, 1000, 733, n, n * 733 / 1000 + 1);
  }
}
