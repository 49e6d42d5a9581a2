/** Character-string helpers used by the codec-list parser and the TCP
    access filter: splitting on a separator, joining, and decimal numbers. */
module Text {

  /** Index of the first `c` in `s` at or after `from`, or `|s|` if none. */
  function FindFrom(s: string, c: char, from: nat): (k: nat)
    requires from <= |s|
    ensures from <= k <= |s|
    ensures k < |s| ==> s[k] == c
    ensures forall j :: from <= j < k ==> s[j] != c
    decreases |s| - from
  {
    if from == |s| then |s|
    else if s[from] == c then from
    else FindFrom(s, c, from + 1)
  }

  /** Reference splitting: every occurrence of `c` separates two parts,
      so `n` separators always give `n + 1` parts (possibly empty). */
  function Split(s: string, c: char): (parts: seq<string>)
    ensures |parts| >= 1
    ensures forall i :: 0 <= i < |parts| ==> c !in parts[i]
    decreases |s|
  {
    var k := FindFrom(s, c, 0);
    if k == |s| then [s] else [s[..k]] + Split(s[k + 1..], c)
  }

  function Join(parts: seq<string>, c: char): string
  {
    if |parts| == 0 then ""
    else if |parts| == 1 then parts[0]
    else parts[0] + [c] + Join(parts[1..], c)
  }

  /** Joining the parts of a split with the same separator gives the input back. */
  lemma {:induction false} JoinSplit(s: string, c: char)
    ensures Join(Split(s, c), c) == s
    decreases |s|
  {
    var k := FindFrom(s, c, 0);
    if k < |s| {
      var rest := Split(s[k + 1..], c);
      JoinSplit(s[k + 1..], c);
      var parts := [s[..k]] + rest;
      assert Split(s, c) == parts;
      assert parts[1..] == rest;
      assert Join(parts, c) == s[..k] + [c] + Join(rest, c);
      assert s == s[..k] + [c] + s[k + 1..];
    }
  }

  /** The first-occurrence split used by the server's string utilities:
      the text before the first `c` and, when there is one, the text after it. */
  datatype Halves = Halves(before: string, after: string, found: bool)

  function SplitFirst(s: string, c: char): (h: Halves)
    ensures h.found <==> c in s
    ensures h.found ==> s == h.before + [c] + h.after && c !in h.before
    ensures !h.found ==> h.before == s && h.after == ""
  {
    var k := FindFrom(s, c, 0);
    if k == |s| then Halves(s, "", false)
    else
      assert s == s[..k] + [c] + s[k + 1..];
      Halves(s[..k], s[k + 1..], true)
  }

  /** The first separator is found right after a separator-free head. */
  lemma SplitFirstAt(x: string, c: char, y: string)
    requires c !in x
    ensures SplitFirst(x + [c] + y, c) == Halves(x, y, true)
  {
    var s := x + [c] + y;
    var k := FindFrom(s, c, 0);
    assert s[|x|] == c;
    assert forall j :: 0 <= j < |x| ==> s[j] == x[j];
    assert k == |x|;
    assert s[..k] == x;
    assert s[k + 1..] == y;
  }

  predicate IsDigit(ch: char) {
    '0' <= ch <= '9'
  }

  function DigitValue(ch: char): nat
    requires IsDigit(ch)
  {
    (ch as int) - ('0' as int)
  }

  /** Value of the leading run of decimal digits of `s` (0 when there is none),
      accumulated into `acc`. */
  function DigitsValue(s: string, acc: nat): nat
    decreases |s|
  {
    if |s| == 0 || !IsDigit(s[0]) then acc
    else DigitsValue(s[1..], acc * 10 + DigitValue(s[0]))
  }

  predicate IsSpace(ch: char) {
    ch == ' ' || ch == '\t' || ch == '\n' || ch == '\r' || ch == 11 as char || ch == 12 as char
  }

  /** C `atoi`: leading white space, an optional sign, then decimal digits;
      anything else stops the conversion. */
  function Atoi(s: string): int
    decreases |s|
  {
    if |s| > 0 && IsSpace(s[0]) then Atoi(s[1..])
    else if |s| > 0 && s[0] == '-' then -(DigitsValue(s[1..], 0) as int)
    else if |s| > 0 && s[0] == '+' then DigitsValue(s[1..], 0)
    else DigitsValue(s, 0)
  }

  /** Decimal rendering of a natural number, as `%u` prints it. */
  function Decimal(n: nat): (d: string)
    ensures |d| >= 1
    ensures forall i :: 0 <= i < |d| ==> IsDigit(d[i])
  {
    if n < 10 then [('0' as int + n) as char]
    else Decimal(n / 10) + [('0' as int + n % 10) as char]
  }

  /** Numbers below 1000 print in at most three digits. */
  lemma DecimalShort(n: nat)
    requires n < 1000
    ensures |Decimal(n)| <= 3
  {
    if n >= 10 {
      assert |Decimal(n / 10)| <= 2 by {
        if n / 10 >= 10 {
          assert |Decimal(n / 100)| == 1;
        }
      }
    }
  }

  lemma {:induction false} DigitsValueAppend(s: string, ch: char, acc: nat)
    requires forall i :: 0 <= i < |s| ==> IsDigit(s[i])
    requires IsDigit(ch)
    ensures DigitsValue(s + [ch], acc) == DigitsValue(s, acc) * 10 + DigitValue(ch)
    decreases |s|
  {
    if |s| == 0 {
      assert (s + [ch])[1..] == [];
    } else {
      assert (s + [ch])[0] == s[0];
      assert (s + [ch])[1..] == s[1..] + [ch];
      DigitsValueAppend(s[1..], ch, acc * 10 + DigitValue(s[0]));
    }
  }

  lemma {:induction false} DigitsValueStops(s: string, t: string, acc: nat)
    requires forall i :: 0 <= i < |s| ==> IsDigit(s[i])
    requires |t| == 0 || !IsDigit(t[0])
    ensures DigitsValue(s + t, acc) == DigitsValue(s, acc)
    decreases |s|
  {
    if |s| == 0 {
      assert s + t == t;
    } else {
      assert (s + t)[1..] == s[1..] + t;
      DigitsValueStops(s[1..], t, acc * 10 + DigitValue(s[0]));
    }
  }

  /** Reading back a printed number gives the number. */
  lemma {:induction false} DecimalDigits(n: nat)
    ensures DigitsValue(Decimal(n), 0) == n
  {
    if n < 10 {
    } else {
      DecimalDigits(n / 10);
      DigitsValueAppend(Decimal(n / 10), ('0' as int + n % 10) as char, 0);
    }
  }

  lemma {:induction false} AtoiDecimal(n: nat)
    ensures Atoi(Decimal(n)) == n
  {
    DecimalDigits(n);
    var d := Decimal(n);
    assert IsDigit(d[0]);
  }
}
