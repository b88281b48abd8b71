/** Row ids as text: the shortest decimal form of a positive uint64_t, and nothing else. */
module Decimal {
  import opened BPTreeGraph
  import opened Common

  const UINT64_MAX: nat := KEY_LIMIT - 1

  function DigitValue(c: char): nat
    requires IsDigit(c)
  {
    c as int - '0' as int
  }

  function DigitChar(d: nat): (c: char)
    requires d < 10
    ensures IsDigit(c) && DigitValue(c) == d
  {
    (d + '0' as int) as char
  }

  /** The number that a digit string denotes. */
  function Value(s: string): nat
    requires AllDigits(s)
  {
    if s == [] then 0 else 10 * Value(s[..|s| - 1]) + DigitValue(s[|s| - 1])
  }

  /** What printf writes for a uint64_t with PRIu64. */
  function Print(n: nat): (s: string)
    ensures s != [] && AllDigits(s)
  {
    if n < 10 then [DigitChar(n)] else Print(n / 10) + [DigitChar(n % 10)]
  }

  /** The id that a text stands for, if it is one. */
  function ParseId(text: string): Option<Key> {
    if text != [] && text[0] != '0' && AllDigits(text) && 0 < Value(text) <= UINT64_MAX then Some(Value(text)) else None
  }

  lemma {:induction false} ValueOfPrint(n: nat)
    ensures Value(Print(n)) == n
    ensures n > 0 ==> Print(n)[0] != '0'
  {
    var s := Print(n);
    if n < 10 {
      assert s[..|s| - 1] == [];
    } else {
      assert s[..|s| - 1] == Print(n / 10);
      ValueOfPrint(n / 10);
    }
  }

  lemma {:induction false} PrintOfValue(s: string)
    requires s != [] && s[0] != '0' && AllDigits(s)
    ensures Value(s) > 0 && Print(Value(s)) == s
  {
    var front, last := s[..|s| - 1], s[|s| - 1];
    assert s == front + [last];
    assert DigitChar(DigitValue(last)) == last;
    if front == [] {
      assert DigitValue(last) > 0;
    } else {
      PrintOfValue(front);
      assert Value(s) / 10 == Value(front) && Value(s) % 10 == DigitValue(last);
    }
  }

  /** A text is accepted exactly when it is the printed form of some n in 1..2^64-1, and n is what it
      is parsed to: parsing and printing are inverse to each other. */
  lemma ParseIdExact(text: string, n: nat)
    ensures (n < KEY_LIMIT && ParseId(text) == Some(n)) <==> (1 <= n < KEY_LIMIT && text == Print(n))
  {
    ValueOfPrint(n);
    if text != [] && text[0] != '0' && AllDigits(text) {
      PrintOfValue(text);
    }
  }

  lemma {:induction false} ValueGrows(s: string, k: nat)
    requires AllDigits(s) && k <= |s|
    ensures Value(s[..k]) <= Value(s)
    decreases |s|
  {
    if k < |s| {
      assert s[..|s| - 1][..k] == s[..k];
      ValueGrows(s[..|s| - 1], k);
    } else {
      assert s[..k] == s;
    }
  }

  /** The digit loop: the guard stops exactly when the next digit would overflow 64 bits. */
  method ParseCanonical(text: string) returns (r: Option<Key>)
    ensures r == ParseId(text)
  {
    var value := 0;
    if text == [] || text[0] == '0' {
      return None;
    }
    for i := 0 to |text|
      invariant AllDigits(text[..i]) && value == Value(text[..i]) <= UINT64_MAX
    {
      if text[i] < '0' || text[i] > '9' {
        return None;
      }
      var digit := text[i] as int - '0' as int;
      assert text[..i + 1][..i] == text[..i] && text[..i + 1][i] == text[i];
      if value > (UINT64_MAX - digit) / 10 {
        if AllDigits(text) {
          ValueGrows(text, i + 1);
        }
        return None;
      }
      value := value * 10 + digit;
    }
    assert text[..|text|] == text;
    if value == 0 {
      return None;
    }
    r := Some(value);
  }
}
