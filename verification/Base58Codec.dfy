/** The two loops of src/base58.cpp over a fixed buffer, proved to compute Encode and Decode. */
module Base58Codec {
  import opened Wrappers
  import opened Chars
  import opened Numbers
  import opened Radix
  import opened Base58

  /** One step of the inner loops, on values. */
  lemma CarryOver(carry: nat, factor: nat, x: nat, base: nat, p: nat, vnew: nat, vold: nat, digit: nat)
    requires base > 0 && vnew + carry * p == vold * factor + digit
    ensures var c := carry + factor * x;
      c >= 0 && c / base >= 0 && c % base >= 0 &&
      ((c % base) * p + vnew) + (c / base) * (base * p) == (x * p + vold) * factor + digit
  {
    MulPositive(factor, x);
    var c := carry + factor * x;
    var q, r := c / base, c % base;
    Division(c, base);
    assert r * p + q * (base * p) == (q * base + r) * p;
    assert (carry + factor * x) * p == carry * p + (x * p) * factor;
    assert (x * p + vold) * factor == (x * p) * factor + vold * factor;
  }

  lemma {:induction false} NumSuffix(s: seq<nat>, k: nat, b: nat)
    requires k < |s|
    ensures Num(s[k..], b) == s[k] * Power(b, |s| - k - 1) + Num(s[k + 1..], b)
  {
    hide Num, Power;
    assert s[k..] == [s[k]] + s[k + 1..];
    NumCons(s[k], s[k + 1..], b);
  }

  ghost predicate ZeroUpTo(s: seq<nat>, n: int) {
    n <= |s| && forall k :: 0 <= k < n ==> s[k] == 0
  }

  lemma {:induction false} SkipZeros(s: seq<nat>, n: nat, b: nat)
    requires ZeroUpTo(s, n)
    ensures Num(s, b) == Num(s[n..], b)
  {
    hide Num;
    assert s == s[..n] + s[n..];
    NumLeadingZeros(s[..n], s[n..], b);
  }

  /** Nothing is left over at the end of the buffer. */
  lemma NoCarry(v: nat, carry: nat, p: nat, total: nat)
    requires v + carry * p == total < p
    ensures carry == 0
  {
    if carry > 0 { MulMonotone(1, carry, p); }
  }

  /** Multiply the number in the buffer by `factor` and add a digit. */
  method Apply(buf: array<nat>, length: nat, factor: nat, base: nat, digit: nat) returns (length': nat)
    requires base >= 2 && length <= buf.Length && Radix.Digits(buf[..], base) && ZeroUpTo(buf[..], buf.Length - length)
    requires Num(buf[..], base) * factor + digit < Power(base, buf.Length)
    modifies buf
    ensures Radix.Digits(buf[..], base) && length' <= buf.Length && ZeroUpTo(buf[..], buf.Length - length')
    ensures Num(buf[..], base) == Num(old(buf[..]), base) * factor + digit
  {
    hide Num, Power;
    ghost var x := buf[..];
    var size := buf.Length;
    var carry: nat := digit;
    var i := 0;
    NumNone(x[size..], base);
    while (carry != 0 || i < length) && i < size
      invariant 0 <= i <= size && Radix.Digits(buf[..], base) && buf[..size - i] == x[..size - i]
      invariant Num(buf[size - i..], base) + carry * Power(base, i) == Num(x[size - i..], base) * factor + digit
      decreases size - i
    {
      var pos := size - 1 - i;
      ghost var before := buf[..];
      assert before[pos] == before[..size - i][pos] == x[pos];
      CarryOver(carry, factor, buf[pos], base, Power(base, i),
                Num(before[pos + 1..], base), Num(x[pos + 1..], base), digit);
      carry := carry + factor * buf[pos];
      Division(carry, base);
      buf[pos] := carry % base;
      carry := carry / base;
      NumSuffix(buf[..], pos, base);
      NumSuffix(x, pos, base);
      PowerNext(base, i);
      assert buf[..][pos + 1..] == before[pos + 1..];
      assert buf[..size - i - 1] == x[..size - i - 1];
      i := i + 1;
    }
    length' := i;
    Finish(x, buf[..], i, length, factor, base, digit, carry);
  }

  lemma NumNone(s: seq<nat>, b: nat)
    requires s == []
    ensures Num(s, b) == 0 && Power(b, 0) == 1
  {
  }

  lemma PowerNext(b: nat, i: nat)
    ensures Power(b, i + 1) == b * Power(b, i)
  {
  }

  /** When the inner loop stops, the carry is zero and the whole buffer has the new value. */
  lemma {:induction false} Finish(x: seq<nat>, y: seq<nat>, i: nat, length: nat, factor: nat, base: nat, digit: nat,
      carry: nat)
    requires |x| == |y| && i <= |x| && length <= |x| && y[..|x| - i] == x[..|x| - i] && ZeroUpTo(x, |x| - length)
    requires Num(y[|x| - i..], base) + carry * Power(base, i) == Num(x[|x| - i..], base) * factor + digit
    requires Num(x, base) * factor + digit < Power(base, |x|)
    requires (carry == 0 && i >= length) || i == |x|
    ensures carry == 0 && ZeroUpTo(y, |y| - i) && Num(y, base) == Num(x, base) * factor + digit
  {
    hide Num, Power;
    var n := |x| - i;
    assert i >= length ==> ZeroUpTo(x, n);
    forall k | 0 <= k < n ensures y[k] == 0 { assert y[k] == y[..n][k] == x[..n][k]; }
    if i == |x| {
      assert y[0..] == y && x[0..] == x;
      NoCarry(Num(y, base), carry, Power(base, i), Num(x, base) * factor + digit);
    } else {
      SkipZeros(x, n, base);
      SkipZeros(y, n, base);
    }
  }

  /** The digits in the buffer without leading zeros, as a sequence. */
  method Significant(buf: array<nat>, length: nat, base: nat) returns (ds: seq<nat>)
    requires base >= 2 && length <= buf.Length && Radix.Digits(buf[..], base) && ZeroUpTo(buf[..], buf.Length - length)
    ensures ds == Shortest(Num(buf[..], base), base)
  {
    hide Num, Shortest;
    var it := buf.Length - length;
    while it < buf.Length && buf[it] == 0
      invariant 0 <= it <= buf.Length && ZeroUpTo(buf[..], it)
    {
      it := it + 1;
    }
    ds := buf[it..];
    SkipZeros(buf[..], it, base);
    assert buf[..][it..] == ds;
    ShortestUnique(ds, base);
  }

  /** The change of base of EncodeBase58. */
  method BytesToDigits(rest: seq<nat>) returns (ds: seq<nat>)
    requires Radix.Digits(rest, 256)
    ensures ds == Shortest(Num(rest, 256), 58)
  {
    hide Num, Shortest, Power;
    var size := |rest| * 138 / 100 + 1;
    var b58 := new nat[size](_ => 0);
    var length := 0;
    ZeroBuffer(b58[..], 58);
    NumNone([], 256);
    for j := 0 to |rest|
      invariant length <= size && Radix.Digits(b58[..], 58) && ZeroUpTo(b58[..], size - length)
      invariant Num(b58[..], 58) == Num(rest[..j], 256)
    {
      assert rest[..j + 1] == rest[..j] + [rest[j]];
      NumSnoc(rest[..j], rest[j], 256);
      Room(rest, j + 1, size);
      length := Apply(b58, length, 256, 58, rest[j]);
    }
    assert rest[..|rest|] == rest;
    ds := Significant(b58, length, 58);
  }

  method EncodeBase58(bytes: seq<nat>) returns (str: string)
    requires Radix.Digits(bytes, 256)
    ensures str == Encode(bytes)
  {
    hide Num, Shortest, Text, Leading;
    var zeroes := 0;
    while zeroes < |bytes| && bytes[zeroes] == 0
      invariant zeroes <= |bytes| && forall k :: 0 <= k < zeroes ==> bytes[k] == 0
    {
      zeroes := zeroes + 1;
    }
    LeadingUnique(bytes, 0, zeroes);
    var ds := BytesToDigits(bytes[zeroes..]);
    ShortestIs(Num(bytes[zeroes..], 256), 58);
    str := Repeat('1', zeroes);
    for k := 0 to |ds|
      invariant str == Repeat('1', zeroes) + Text(ds[..k])
    {
      assert ds[..k + 1] == ds[..k] + [ds[k]];
      TextSnoc(ds[..k], ds[k]);
      str := str + [Char(ds[k])];
    }
    assert ds[..|ds|] == ds;
  }

  /** The change of base of DecodeBase58: characters up to the first space, or None for one outside the alphabet. */
  method DigitsToBytes(t: string) returns (bytes: Option<seq<nat>>, n: nat)
    ensures bytes == if Values(Word(t)).None? then None else Some(Shortest(Num(Values(Word(t)).value, 58), 256))
    ensures bytes.Some? ==> n == |Word(t)|
  {
    hide Num, Shortest, Power, Values, Word, Digit;
    var size := |t| * 733 / 1000 + 1;
    var b256 := new nat[size](_ => 0);
    var length := 0;
    ghost var ds: seq<nat> := [];
    ZeroBuffer(b256[..], 256);
    NumNone([], 58);
    ValuesNone(t[..0]);
    n := 0;
    while n < |t| && !IsSpace(t[n])
      invariant n <= |t| && forall k :: 0 <= k < n ==> !IsSpace(t[k])
      invariant Values(t[..n]) == Some(ds) && length <= size && Radix.Digits(b256[..], 256)
      invariant ZeroUpTo(b256[..], size - length)
      invariant Num(b256[..], 256) == Num(ds, 58)
    {
      var d := Digit(t[n]);
      ValuesNext(t, n);
      if d.None? {
        WordLonger(t, n + 1);
        ValuesFail(Word(t), n + 1);
        return None, n;
      }
      NumSnoc(ds, d.value, 58);
      WordRoom(ds + [d.value], |t|, size);
      length := Apply(b256, length, 58, 256, d.value);
      ds := ds + [d.value];
      n := n + 1;
    }
    WordIs(t, n);
    var r := Significant(b256, length, 256);
    bytes := Some(r);
  }

  method SkipWhite(s: string, start: nat) returns (p: nat)
    requires start <= |s|
    ensures start <= p <= |s| && s[p..] == SkipSpaces(s[start..])
  {
    hide SkipSpaces;
    p := start;
    SkipStart(s, p);
    while p < |s| && IsSpace(s[p])
      invariant start <= p <= |s| && SkipSpaces(s[start..]) == SkipSpaces(s[p..])
    {
      SkipStart(s, p);
      p := p + 1;
    }
    SkipStart(s, p);
  }

  method CountOnes(s: string, start: nat) returns (n: nat)
    requires start <= |s|
    ensures n == Leading(s[start..], '1')
  {
    n := 0;
    while start + n < |s| && s[start + n] == '1'
      invariant start + n <= |s| && forall k :: start <= k < start + n ==> s[k] == '1'
    {
      n := n + 1;
    }
    LeadingUnique(s[start..], '1', n);
  }

  /** A text without NUL characters, as a C string is. */
  method DecodeBase58(s: string) returns (vch: Option<seq<nat>>)
    ensures vch == Decode(s)
  {
    hide Num, Shortest, Values, Word, SkipSpaces, Leading;
    var p := SkipWhite(s, 0);
    ghost var t := s[p..];
    assert s[0..] == s;
    var zeroes := CountOnes(s, p);
    assert t[zeroes..] == s[p + zeroes..];
    var bytes, n := DigitsToBytes(s[p + zeroes..]);
    if bytes.None? { return None; }
    assert t[zeroes + n..] == s[p + zeroes + n..];
    p := SkipWhite(s, p + zeroes + n);
    if p < |s| { return None; }
    vch := Some(Repeat(0, zeroes) + bytes.value);
  }

  lemma SkipStart(s: string, p: nat)
    requires p <= |s|
    ensures p < |s| && IsSpace(s[p]) ==> SkipSpaces(s[p..]) == SkipSpaces(s[p + 1..])
    ensures !(p < |s| && IsSpace(s[p])) ==> SkipSpaces(s[p..]) == s[p..]
  {
    if p < |s| { assert s[p..][1..] == s[p + 1..]; }
  }

  lemma ValuesNone(t: string)
    requires t == ""
    ensures Values(t) == Some([])
  {
  }

  lemma {:induction false} ValuesNext(t: string, n: nat)
    requires n < |t|
    ensures Values(t[..n + 1]) ==
      if Values(t[..n]).None? || Digit(t[n]).None? then None else Some(Values(t[..n]).value + [Digit(t[n]).value])
  {
    assert t[..n + 1][..n] == t[..n];
  }

  lemma {:induction false} ValuesFail(w: string, n: nat)
    requires n <= |w| && Values(w[..n]).None?
    ensures Values(w).None?
    decreases |w| - n
  {
    if n == |w| {
      assert w[..n] == w;
    } else {
      ValuesNext(w, n);
      ValuesFail(w, n + 1);
    }
  }

  lemma {:induction false} WordIs(t: string, n: nat)
    requires n <= |t| && (forall k :: 0 <= k < n ==> !IsSpace(t[k])) && (n < |t| ==> IsSpace(t[n]))
    ensures Word(t) == t[..n]
  {
    if n > 0 {
      WordIs(t[1..], n - 1);
      assert t[..n] == [t[0]] + t[1..][..n - 1];
    }
  }

  lemma {:induction false} WordLonger(t: string, n: nat)
    requires n <= |t| && forall k :: 0 <= k < n ==> !IsSpace(t[k])
    ensures n <= |Word(t)| && Word(t)[..n] == t[..n]
  {
    if n > 0 {
      WordLonger(t[1..], n - 1);
      assert t[..n] == [t[0]] + t[1..][..n - 1];
    }
  }

  lemma {:induction false} WordRoom(ds: seq<nat>, n: nat, size: nat)
    requires Radix.Digits(ds, 58) && |ds| <= n && size == n * 733 / 1000 + 1
    ensures Num(ds, 58) < Power(256, size)
  {
    hide Num, Power;
    NumBound(ds, 58);
    PowerMonotone(58, |ds|, n);
    BufferSizes(n);
  }

  lemma {:induction false} LeadingUnique<T>(s: seq<T>, x: T, n: nat)
    requires n <= |s| && (forall k :: 0 <= k < n ==> s[k] == x) && (n < |s| ==> s[n] != x)
    ensures Leading(s, x) == n
  {
    if n > 0 { LeadingUnique(s[1..], x, n - 1); }
  }

  lemma ZeroBuffer(s: seq<nat>, b: nat)
    requires forall k :: 0 <= k < |s| ==> s[k] == 0
    ensures Num(s, b) == 0
  {
    hide Num;
    SkipZeros(s, |s|, b);
    NumNone(s[|s|..], b);
  }

  lemma {:induction false} TextSnoc(ds: seq<nat>, d: nat)
    requires Radix.Digits(ds, 58) && d < 58
    ensures Radix.Digits(ds + [d], 58) && Text(ds + [d]) == Text(ds) + [Char(d)]
  {
    assert (ds + [d])[..|ds|] == ds;
  }

  /** A prefix of the input has a value that fits in the buffer. */
  lemma {:induction false} Room(ds: seq<nat>, j: nat, size: nat)
    requires j <= |ds| && Radix.Digits(ds, 256) && size == |ds| * 138 / 100 + 1
    ensures Num(ds[..j], 256) < Power(58, size)
  {
    hide Num, Power;
    NumBound(ds[..j], 256);
    PowerMonotone(256, j, |ds|);
    BufferSizes(|ds|);
  }
}
