/** Formatted text input and output: whitespace-separated words and decimal
    integers, as C++ stream operators print and read them. */
module TextStream {
  import opened Common
  import opened Bytes

  predicate IsWs(c: char) {
    c == ' ' || c == '\n' || c == '\t' || c == '\r' || c == '\U{0b}' || c == '\U{0c}'
  }

  predicate IsDigit(c: char) {
    '0' <= c <= '9'
  }

  function SkipWs(s: string): (t: string)
    ensures |t| <= |s| && (t != [] ==> !IsWs(t[0]))
  {
    if s != [] && IsWs(s[0]) then SkipWs(s[1..]) else s
  }

  /** The length of the word at the start of `s`. */
  function WordLen(s: string): (n: nat)
    ensures n <= |s| && (s != [] && !IsWs(s[0]) ==> n > 0)
  {
    if s == [] || IsWs(s[0]) then 0 else 1 + WordLen(s[1..])
  }

  function ReadWord(s: string): Option<(string, string)> {
    var t := SkipWs(s);
    if t == [] then None else Some((t[..WordLen(t)], t[WordLen(t)..]))
  }

  function DigitOf(c: char): (d: nat)
    requires IsDigit(c)
    ensures d < 10
  {
    c as int - 48
  }

  function DigitChar(d: nat): (c: char)
    requires d < 10
    ensures IsDigit(c) && DigitOf(c) == d
  {
    (48 + d) as char
  }

  function DigitLen(s: string): (n: nat)
    ensures n <= |s| && forall i :: 0 <= i < n ==> IsDigit(s[i])
  {
    if s == [] || !IsDigit(s[0]) then 0 else 1 + DigitLen(s[1..])
  }

  function DigitsValue(s: string): nat
    requires forall i :: 0 <= i < |s| ==> IsDigit(s[i])
  {
    if s == [] then 0 else DigitsValue(s[..|s| - 1]) * 10 + DigitOf(s[|s| - 1])
  }

  function ReadSize(s: string): Option<(nat, string)> {
    var t := SkipWs(s);
    var k := DigitLen(t);
    if k == 0 then None else Some((DigitsValue(t[..k]), t[k..]))
  }

  function ReadInt(s: string): Option<(int, string)> {
    var t := SkipWs(s);
    var signed := t != [] && (t[0] == '-' || t[0] == '+');
    var u := if signed then t[1..] else t;
    var k := DigitLen(u);
    if k == 0 then None else
    var v := DigitsValue(u[..k]);
    var x: int := if signed && t[0] == '-' then -(v as int) else v;
    if IsInt32(x) then Some((x, u[k..])) else None
  }

  function SizeText(n: nat): (s: string)
    ensures |s| > 0 && forall i :: 0 <= i < |s| ==> IsDigit(s[i])
  {
    (if n < 10 then [] else SizeText(n / 10)) + [DigitChar(n % 10)]
  }

  function IntText(x: int): string {
    if x < 0 then "-" + SizeText(-x) else SizeText(x)
  }

  // ----- Words of a text -----

  predicate IsWord(w: string) {
    w != [] && forall i :: 0 <= i < |w| ==> !IsWs(w[i])
  }

  /** The words of a text; this is all that reading depends on. */
  function Words(s: string): seq<string>
    decreases |s|
  {
    var t := SkipWs(s);
    if t == [] then [] else [t[..WordLen(t)]] + Words(t[WordLen(t)..])
  }

  lemma {:induction false} WordLenOf(w: string, tail: string)
    requires forall i :: 0 <= i < |w| ==> !IsWs(w[i])
    requires tail == [] || IsWs(tail[0])
    ensures WordLen(w + tail) == |w|
  {
    if w == [] {
      assert w + tail == tail;
    } else {
      assert (w + tail)[1..] == w[1..] + tail;
      WordLenOf(w[1..], tail);
    }
  }

  lemma {:induction false} OneWord(w: string)
    requires IsWord(w)
    ensures Words(w) == [w]
  {
    WordLenOf(w, []);
    assert w + [] == w;
    assert SkipWs(w) == w;
    assert w[..|w|] == w && w[|w|..] == [];
  }

  lemma {:induction false} WordPrefix(s: string)
    ensures forall i :: 0 <= i < WordLen(s) ==> !IsWs(s[i])
    ensures WordLen(s) < |s| ==> IsWs(s[WordLen(s)])
  {
    if s != [] && !IsWs(s[0]) {
      WordPrefix(s[1..]);
      forall i | 0 <= i < WordLen(s) ensures !IsWs(s[i]) {
        if i > 0 { assert s[i] == s[1..][i - 1]; }
      }
    }
  }

  lemma {:induction false} WordsFirst(s: string, w: string, rest: string)
    requires IsWord(w) && s == w + rest && (rest == [] || IsWs(rest[0]))
    ensures Words(s) == [w] + Words(rest)
  {
    WordLenOf(w, rest);
    assert s[0] == w[0];
    assert s[..|w|] == w && s[|w|..] == rest;
  }

  /** The words of two texts with whitespace between them. */
  lemma {:induction false} WordsConcat(a: string, c: char, b: string)
    requires IsWs(c)
    ensures Words(a + [c] + b) == Words(a) + Words(b)
    decreases |a|
  {
    var s := a + [c] + b;
    if a == [] {
      assert s[1..] == b;
      assert SkipWs(s) == SkipWs(b);
    } else if IsWs(a[0]) {
      assert s[1..] == a[1..] + [c] + b;
      assert SkipWs(s) == SkipWs(s[1..]);
      WordsConcat(a[1..], c, b);
    } else {
      var n := WordLen(a);
      WordPrefix(a);
      assert SkipWs(a) == a && Words(a) == [a[..n]] + Words(a[n..]);
      hide Words, WordLen, SkipWs;
      var rest := a[n..] + [c] + b;
      WordsFirst(s, a[..n], rest);
      WordsConcat(a[n..], c, b);
    }
  }

  /** Reading a word takes the first word of the text. */
  lemma {:induction false} ReadWordTakes(s: string)
    requires Words(s) != []
    ensures ReadWord(s).Some? && ReadWord(s).value.0 == Words(s)[0]
    ensures Words(ReadWord(s).value.1) == Words(s)[1..]
  {
  }

  // ----- Integers -----

  lemma {:induction false} SizeTextValue(n: nat)
    ensures DigitsValue(SizeText(n)) == n
  {
    var s, last := SizeText(n), DigitChar(n % 10);
    if n >= 10 {
      SizeTextValue(n / 10);
      var front := SizeText(n / 10);
      assert s == front + [last] && s[..|s| - 1] == front;
    } else {
      assert s == [last] && s[..|s| - 1] == [];
    }
  }

  lemma {:induction false} DigitLenOf(ds: string, tail: string)
    requires forall i :: 0 <= i < |ds| ==> IsDigit(ds[i])
    requires tail == [] || !IsDigit(tail[0])
    ensures DigitLen(ds + tail) == |ds|
  {
    if ds == [] {
      assert ds + tail == tail;
    } else {
      assert (ds + tail)[1..] == ds[1..] + tail;
      DigitLenOf(ds[1..], tail);
    }
  }

  /** The text of an integer is one word, and reading it gives the integer back. */
  lemma {:induction false} ReadIntTakes(s: string, x: int)
    requires IsInt32(x) && Words(s) != [] && Words(s)[0] == IntText(x)
    ensures ReadInt(s).Some? && ReadInt(s).value.0 == x && Words(ReadInt(s).value.1) == Words(s)[1..]
  {
    var t := SkipWs(s);
    var n := WordLen(t);
    WordPrefix(t);
    ReadIntText(t, x, t[n..]);
    assert SkipWs(t) == t;
  }

  lemma {:induction false} ReadIntText(t: string, x: int, tail: string)
    requires IsInt32(x) && t == IntText(x) + tail && (tail == [] || !IsDigit(tail[0]))
    ensures ReadInt(t) == Some((x, tail))
  {
    if x < 0 {
      ReadNegative(t, -x, tail);
    } else {
      ReadPositive(t, x, tail);
    }
  }

  lemma {:induction false} ReadNegative(t: string, n: nat, tail: string)
    requires IsInt32(0 - n) && t == "-" + SizeText(n) + tail && (tail == [] || !IsDigit(tail[0]))
    ensures ReadInt(t) == Some((0 - n, tail))
  {
    NotWs(t[0]);
    assert t[1..] == SizeText(n) + tail;
    ReadDigits(n, t[1..], tail);
  }

  lemma {:induction false} ReadPositive(t: string, n: nat, tail: string)
    requires IsInt32(n) && t == SizeText(n) + tail && (tail == [] || !IsDigit(tail[0]))
    ensures ReadInt(t) == Some((n, tail))
  {
    assert t[0] == SizeText(n)[0] && IsDigit(t[0]);
    NotWs(t[0]);
    ReadDigits(n, t, tail);
  }

  lemma {:induction false} NotWs(c: char)
    requires IsDigit(c) || c == '-'
    ensures !IsWs(c)
  {
  }

  lemma {:induction false} ReadDigits(n: nat, u: string, tail: string)
    requires u == SizeText(n) + tail && (tail == [] || !IsDigit(tail[0]))
    ensures DigitLen(u) == |SizeText(n)| && DigitsValue(u[..DigitLen(u)]) == n && u[DigitLen(u)..] == tail
  {
    SizeTextValue(n);
    DigitLenOf(SizeText(n), tail);
    assert u[..|SizeText(n)|] == SizeText(n);
  }

  lemma {:induction false} ReadSizeTakes(s: string, k: nat)
    requires Words(s) != [] && Words(s)[0] == SizeText(k)
    ensures ReadSize(s).Some? && ReadSize(s).value.0 == k && Words(ReadSize(s).value.1) == Words(s)[1..]
  {
    var t := SkipWs(s);
    var n := WordLen(t);
    WordPrefix(t);
    var ds, tail := t[..n], t[n..];
    assert t == ds + tail;
    SizeTextValue(k);
    DigitLenOf(ds, tail);
  }

  lemma {:induction false} IntTextWord(x: int)
    ensures IsWord(IntText(x))
  {
  }
}
