/** Printing and parsing of 64-bit counters, and splitting at colons. */
module Decimals {
  import opened Messages

  const MIN_INT64 := -0x8000_0000_0000_0000
  const MAX_INT64 := 0x7fff_ffff_ffff_ffff

  predicate IsInt64(n: int) {
    MIN_INT64 <= n <= MAX_INT64
  }

  predicate IsDigit(c: char) {
    '0' <= c <= '9'
  }

  function Digits(n: nat): (s: string)
    ensures s != [] && forall i :: 0 <= i < |s| ==> IsDigit(s[i])
  {
    var last := [('0' as int + n % 10) as char];
    if n < 10 then last else Digits(n / 10) + last
  }

  function Print(n: int): string {
    if n < 0 then "-" + Digits(-n) else Digits(n)
  }

  function Value(s: string): nat
    requires forall i :: 0 <= i < |s| ==> IsDigit(s[i])
  {
    if s == [] then 0
    else
      var last := s[|s| - 1];
      assert IsDigit(last);
      10 * Value(s[..|s| - 1]) + (last as int - '0' as int)
  }

  /** An optional sign, at least one digit, and a value that fits. */
  function ParseInt(s: string): Option<int> {
    var negative := s != [] && s[0] == '-';
    var body := if s != [] && (s[0] == '-' || s[0] == '+') then s[1..] else s;
    if body == [] || exists i :: 0 <= i < |body| && !IsDigit(body[i]) then None
    else
      var value: int := Value(body);
      var n := if negative then -value else value;
      if IsInt64(n) then Some(n) else None
  }

  /** Decimal notation: the last digit is the remainder, the others are the quotient. */
  lemma PrintIs(n: int, d: nat)
    requires d < 10
    ensures Print(d) == ["0123456789"[d]]
    ensures n > 0 ==> Print(10 * n + d) == Print(n) + Print(d) && Print(-n) == "-" + Print(n)
  {
    assert "0123456789"[d] == ('0' as int + d) as char;
    if n > 0 {
      assert (10 * n + d) / 10 == n && (10 * n + d) % 10 == d;
    }
  }

  lemma {:induction false} ValueOfDigits(n: nat)
    ensures Value(Digits(n)) == n
  {
    if n >= 10 {
      ValueOfDigits(n / 10);
      var s := Digits(n);
      assert s[..|s| - 1] == Digits(n / 10);
    } else {
      assert Digits(n)[..0] == [];
    }
  }

  /** Printed counters are parsed back, as long as they fit in 64 bits. */
  lemma ParsePrint(n: int)
    ensures ParseInt(Print(n)) == if IsInt64(n) then Some(n) else None
  {
    hide Digits, Value;
    var d := Digits(if n < 0 then -n else n);
    ValueOfDigits(if n < 0 then -n else n);
    var s := Print(n);
    assert IsDigit(d[0]);
    assert n < 0 ==> s[0] == '-' && s[1..] == d;
    assert n >= 0 ==> s == d && s[0] != '-' && s[0] != '+';
  }

  /** The parts between colons. */
  function Split(s: string): (parts: seq<string>)
    ensures parts != [] && forall i :: 0 <= i < |parts| ==> ':' !in parts[i]
  {
    if s == [] then [""]
    else
      var rest := Split(s[1..]);
      if s[0] == ':' then [""] + rest else [[s[0]] + rest[0]] + rest[1..]
  }

  function Join(parts: seq<string>): string
    requires parts != []
  {
    if |parts| == 1 then parts[0] else parts[0] + ":" + Join(parts[1..])
  }

  /** A character in front of the first part. */
  lemma JoinCons(c: char, parts: seq<string>)
    requires parts != []
    ensures Join([[c] + parts[0]] + parts[1..]) == [c] + Join(parts)
  {
    var more := [[c] + parts[0]] + parts[1..];
    assert more[1..] == parts[1..];
    if |parts| > 1 {
      assert [c] + (parts[0] + ":" + Join(parts[1..])) == ([c] + parts[0]) + ":" + Join(parts[1..]);
    }
  }

  lemma {:induction false} JoinSplit(s: string)
    ensures Join(Split(s)) == s
  {
    if s != [] {
      JoinSplit(s[1..]);
      var rest := Split(s[1..]);
      assert s == [s[0]] + s[1..];
      if s[0] == ':' {
        assert ([""] + rest)[1..] == rest;
      } else {
        JoinCons(s[0], rest);
      }
    }
  }

  lemma {:induction false} SplitWhole(s: string)
    requires ':' !in s
    ensures Split(s) == [s]
  {
    if s != [] {
      SplitWhole(s[1..]);
      assert s == [s[0]] + s[1..];
    }
  }

  lemma {:induction false} SplitFirst(a: string, b: string)
    requires ':' !in a
    ensures Split(a + ":" + b) == [a] + Split(b)
  {
    var s := a + ":" + b;
    if a == [] {
      assert s[1..] == b;
    } else {
      SplitFirst(a[1..], b);
      assert s[1..] == a[1..] + ":" + b;
      assert a == [a[0]] + a[1..];
    }
  }
}
