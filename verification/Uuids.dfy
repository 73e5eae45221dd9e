/**
UUIDs as the database reads and writes them: sixteen bytes, any accepted spelling
on the way in, the canonical lower-case spelling on the way out.
*/
module Uuids {
  import opened Messages
  import opened Strings

  const LENGTH := 16

  type Bytes = b: seq<nat> | |b| == LENGTH && forall i :: 0 <= i < |b| ==> b[i] < 256
    witness seq(LENGTH, _ => 0)

  predicate IsHex(c: char) {
    '0' <= c <= '9' || 'a' <= c <= 'f' || 'A' <= c <= 'F'
  }

  function HexValue(c: char): (n: nat)
    requires IsHex(c)
    ensures n < 16
  {
    if c <= '9' then c as int - '0' as int
    else if c <= 'F' then c as int - 'A' as int + 10
    else c as int - 'a' as int + 10
  }

  function HexDigit(n: nat): (c: char)
    requires n < 16
    ensures IsHex(c) && HexValue(c) == n
  {
    if n < 10 then ('0' as int + n) as char else ('a' as int + n - 10) as char
  }

  // ---------------------------------------------------------------------
  // Reading
  // ---------------------------------------------------------------------

  /** Bytes i to 15; a hyphen may follow every second byte but the last. */
  function ParseFrom(s: string, i: nat): (r: Option<seq<nat>>)
    requires i <= LENGTH
    ensures r.Some? ==> |r.value| == LENGTH - i && forall j :: 0 <= j < |r.value| ==> r.value[j] < 256
    decreases LENGTH - i
  {
    if i == LENGTH then (if s == [] then Some([]) else None)
    else if |s| < 2 || !IsHex(s[0]) || !IsHex(s[1]) then None
    else
      var rest := if i % 2 == 1 && i < LENGTH - 1 && |s| > 2 && s[2] == '-' then s[3..] else s[2..];
      var r := ParseFrom(rest, i + 1);
      if r.None? then None else Some([16 * HexValue(s[0]) + HexValue(s[1])] + r.value)
  }

  /** The whole text, possibly in braces. */
  function Parse(s: string): Option<Bytes> {
    var inner :=
      if s == [] || s[0] != '{' then Some(s)
      else if |s| > 1 && s[|s| - 1] == '}' then Some(s[1..|s| - 1])
      else None;
    if inner.None? then None
    else
      var r := ParseFrom(inner.value, 0);
      if r.None? then None else Some(r.value)
  }

  predicate IsUuid(s: string) {
    Parse(s).Some?
  }

  /** The digits in both spellings, and no other characters. */
  lemma HexDigitsAre(c: char, n: nat)
    requires n < 16
    ensures IsHex("0123456789abcdef"[n]) && HexValue("0123456789abcdef"[n]) == n
    ensures IsHex("0123456789ABCDEF"[n]) && HexValue("0123456789ABCDEF"[n]) == n
    ensures IsHex(c) ==> c == "0123456789abcdef"[HexValue(c)] || c == "0123456789ABCDEF"[HexValue(c)]
  {
  }

  lemma {:induction false} ParseFromEnds(s: string, i: nat)
    requires i < LENGTH && ParseFrom(s, i).Some?
    ensures |s| >= 2 * (LENGTH - i) && IsHex(s[0]) && IsHex(s[|s| - 1])
    decreases LENGTH - i
  {
    hide IsHex, HexValue;
    var rest := if i % 2 == 1 && i < LENGTH - 1 && |s| > 2 && s[2] == '-' then s[3..] else s[2..];
    if i + 1 < LENGTH {
      ParseFromEnds(rest, i + 1);
      assert rest[|rest| - 1] == s[|s| - 1];
    }
  }

  /** A UUID has at least 32 characters; it starts and ends with a digit, or is in braces and does so inside them. */
  lemma UuidEnds(s: string)
    requires IsUuid(s)
    ensures |s| >= 32
    ensures if s[0] == '{' then s[|s| - 1] == '}' && IsHex(s[1]) && IsHex(s[|s| - 2]) else IsHex(s[0]) && IsHex(s[|s| - 1])
  {
    hide ParseFrom, IsHex;
    ParseFromEnds(if s != [] && s[0] == '{' then s[1..|s| - 1] else s, 0);
  }

  // ---------------------------------------------------------------------
  // Writing
  // ---------------------------------------------------------------------

  function Hyphen(i: nat): string {
    if i in {3, 5, 7, 9} then "-" else ""
  }

  /** One byte as two digits. */
  function Pair(n: nat): (p: string)
    requires n < 256
    ensures |p| == 2
  {
    [HexDigit(n / 16), HexDigit(n % 16)]
  }

  function ShowFrom(b: Bytes, i: nat): string
    requires i <= LENGTH
    decreases LENGTH - i
  {
    if i == LENGTH then "" else Pair(b[i]) + (Hyphen(i) + ShowFrom(b, i + 1))
  }

  function Show(b: Bytes): string {
    ShowFrom(b, 0)
  }

  /** The spelling the database writes. */
  function Canonical(s: string): string
    requires IsUuid(s)
  {
    Show(Parse(s).value)
  }

  predicate IsCanonical(s: string) {
    IsUuid(s) && Canonical(s) == s
  }

  // ---------------------------------------------------------------------
  // Round trip
  // ---------------------------------------------------------------------

  lemma PairReads(n: nat)
    requires n < 256
    ensures var p := Pair(n); IsHex(p[0]) && IsHex(p[1]) && 16 * HexValue(p[0]) + HexValue(p[1]) == n
  {
    assert 16 * (n / 16) + n % 16 == n;
  }

  lemma ParsePair(n: nat, h: string, rest: string, i: nat)
    requires n < 256 && i < LENGTH
    requires if h == "" then rest == [] || rest[0] != '-' else h == "-" && i % 2 == 1 && i < LENGTH - 1
    ensures ParseFrom(Pair(n) + (h + rest), i) ==
            if ParseFrom(rest, i + 1).None? then None else Some([n] + ParseFrom(rest, i + 1).value)
  {
    hide Pair, IsHex, HexValue;
    var s := Pair(n) + (h + rest);
    PairReads(n);
    assert s[0] == Pair(n)[0] && s[1] == Pair(n)[1];
    if h == "" {
      assert s[2..] == rest;
    } else {
      assert s[2] == '-' && s[3..] == rest;
    }
  }

  lemma ShowStart(b: Bytes, i: nat)
    requires i < LENGTH
    ensures var s := ShowFrom(b, i); s != [] && s[0] != '-' && s[0] != '{'
  {
    assert ShowFrom(b, i)[0] == Pair(b[i])[0];
  }

  lemma {:induction false} ParseShowFrom(b: Bytes, i: nat)
    requires i <= LENGTH
    ensures ParseFrom(ShowFrom(b, i), i) == Some(b[i..])
    decreases LENGTH - i
  {
    hide Pair, ParseFrom, Hyphen;
    if i == LENGTH {
      ParseEnd();
    } else {
      HyphenIs(i);
      ParseShowFrom(b, i + 1);
      if i + 1 < LENGTH {
        ShowStart(b, i + 1);
      }
      ParsePair(b[i], Hyphen(i), ShowFrom(b, i + 1), i);
      assert b[i..] == [b[i]] + b[i + 1..];
    }
  }

  lemma HyphenIs(i: nat)
    ensures Hyphen(i) == "" || (Hyphen(i) == "-" && i % 2 == 1 && i < LENGTH - 1)
  {
  }

  lemma ParseEnd()
    ensures ParseFrom("", LENGTH) == Some([])
  {
  }

  /** What the database writes it reads back. */
  lemma ParseShow(b: Bytes)
    ensures Parse(Show(b)) == Some(b) && IsCanonical(Show(b))
  {
    hide ParseFrom, ShowFrom;
    ShowStart(b, 0);
    ParseShowFrom(b, 0);
    assert b[0..] == b;
  }

  /** How many characters are left at byte i: two for each byte, and the hyphens. */
  function Width(i: nat): nat {
    2 * (LENGTH - (if i <= LENGTH then i else LENGTH)) +
    (if i <= 3 then 4 else if i <= 5 then 3 else if i <= 7 then 2 else if i <= 9 then 1 else 0)
  }

  lemma HyphenWidth(i: nat)
    requires i < LENGTH
    ensures Width(i) == 2 + |Hyphen(i)| + Width(i + 1)
  {
  }

  lemma {:induction false} ShowWidth(b: Bytes, i: nat)
    requires i <= LENGTH
    ensures |ShowFrom(b, i)| == Width(i)
    decreases LENGTH - i
  {
    hide Pair, Hyphen;
    if i < LENGTH {
      ShowWidth(b, i + 1);
      HyphenWidth(i);
    }
  }

  lemma ShowSplit(b: Bytes, i: nat)
    requires i < LENGTH
    ensures ShowFrom(b, i) == (Pair(b[i]) + Hyphen(i)) + ShowFrom(b, i + 1)
  {
    hide Pair, Hyphen;
  }

  /** What follows byte i stands at the end of the whole text. */
  lemma {:induction false} ShowTail(b: Bytes, i: nat)
    requires i <= LENGTH
    ensures |ShowFrom(b, i)| <= |Show(b)| && Show(b)[|Show(b)| - |ShowFrom(b, i)|..] == ShowFrom(b, i)
  {
    hide Pair, Hyphen, ShowFrom;
    if i > 0 {
      ShowTail(b, i - 1);
      ShowSplit(b, i - 1);
      LastOfLast(Show(b), Pair(b[i - 1]) + Hyphen(i - 1), ShowFrom(b, i));
    }
  }

  lemma LastOfLast<T>(s: seq<T>, front: seq<T>, rest: seq<T>)
    requires |front + rest| <= |s| && s[|s| - |front + rest|..] == front + rest
    ensures s[|s| - |rest|..] == rest
  {
    var t := s[|s| - |front + rest|..];
    assert t[|front|..] == rest;
    assert s[|s| - |rest|..] == t[|front|..];
  }

  lemma HyphenBehind(b: Bytes, i: nat)
    requires i in {3, 5, 7, 9}
    ensures Width(i) <= |Show(b)| && Width(i) > 2 && Show(b)[|Show(b)| - Width(i) + 2] == '-'
  {
    hide Pair, Show;
    ShowTail(b, i);
    ShowWidth(b, i);
    var s, t := Show(b), ShowFrom(b, i);
    assert t[2] == '-' by {
      assert t == Pair(b[i]) + ("-" + ShowFrom(b, i + 1));
    }
    assert s[|s| - Width(i)..][2] == t[2];
  }

  /** 36 characters with hyphens behind 8, 12, 16 and 20 digits. */
  lemma ShowShape(b: Bytes)
    ensures var s := Show(b);
            |s| == 36 && s[8] == '-' && s[13] == '-' && s[18] == '-' && s[23] == '-'
  {
    hide ShowFrom;
    ShowWidth(b, 0);
    HyphenBehind(b, 3);
    HyphenBehind(b, 5);
    HyphenBehind(b, 7);
    HyphenBehind(b, 9);
  }

  // ---------------------------------------------------------------------
  // Order
  // ---------------------------------------------------------------------

  /** The first differing byte decides. */
  predicate BytesLess(a: seq<nat>, b: seq<nat>) {
    b != [] && (a == [] || a[0] < b[0] || (a[0] == b[0] && BytesLess(a[1..], b[1..])))
  }

  lemma DigitOrder(n: nat, k: nat)
    requires n < 16 && k < 16
    ensures HexDigit(n) < HexDigit(k) <==> n < k
    ensures HexDigit(n) == HexDigit(k) <==> n == k
  {
  }

  lemma LessFirst(a: string, b: string, c: char, d: char)
    ensures Less([c] + a, [d] + b) <==> c < d || (c == d && Less(a, b))
  {
    assert ([c] + a)[1..] == a && ([d] + b)[1..] == b;
  }

  lemma LessPair(a: string, b: string, n: nat, k: nat)
    requires n < 256 && k < 256
    ensures Less(Pair(n) + a, Pair(k) + b) <==> n < k || (n == k && Less(a, b))
  {
    hide Less, HexDigit;
    assert Pair(n) + a == [HexDigit(n / 16)] + ([HexDigit(n % 16)] + a);
    assert Pair(k) + b == [HexDigit(k / 16)] + ([HexDigit(k % 16)] + b);
    LessFirst([HexDigit(n % 16)] + a, [HexDigit(k % 16)] + b, HexDigit(n / 16), HexDigit(k / 16));
    LessFirst(a, b, HexDigit(n % 16), HexDigit(k % 16));
    DigitOrder(n / 16, k / 16);
    DigitOrder(n % 16, k % 16);
  }

  lemma LessBehind(h: string, a: string, b: string)
    requires |h| <= 1
    ensures Less(h + a, h + b) <==> Less(a, b)
  {
    hide Less;
    if h == [] {
      assert h + a == a && h + b == b;
    } else {
      assert h == [h[0]];
      LessFirst(a, b, h[0], h[0]);
    }
  }

  lemma BytesLessFrom(a: Bytes, b: Bytes, i: nat)
    requires i <= LENGTH
    ensures BytesLess(a[i..], b[i..]) <==> i < LENGTH && (a[i] < b[i] || (a[i] == b[i] && BytesLess(a[i + 1..], b[i + 1..])))
  {
    if i < LENGTH {
      assert a[i..][1..] == a[i + 1..] && b[i..][1..] == b[i + 1..];
    }
  }

  lemma {:induction false} ShowFromOrder(a: Bytes, b: Bytes, i: nat)
    requires i <= LENGTH
    ensures Less(ShowFrom(a, i), ShowFrom(b, i)) <==> BytesLess(a[i..], b[i..])
    decreases LENGTH - i
  {
    BytesLessFrom(a, b, i);
    if i < LENGTH {
      hide Less, Pair, BytesLess, Hyphen;
      var s, t := ShowFrom(a, i + 1), ShowFrom(b, i + 1);
      ShowFromOrder(a, b, i + 1);
      HyphenIs(i);
      LessPair(Hyphen(i) + s, Hyphen(i) + t, a[i], b[i]);
      LessBehind(Hyphen(i), s, t);
    }
  }

  /** Canonical spellings are ordered, and equal, as their bytes are. */
  lemma ShowOrder(a: Bytes, b: Bytes)
    ensures Less(Show(a), Show(b)) <==> BytesLess(a, b)
    ensures Show(a) == Show(b) <==> a == b
  {
    hide Less, ShowFrom, BytesLess, ParseFrom;
    ShowFromOrder(a, b, 0);
    assert a[0..] == a && b[0..] == b;
    ParseShow(a);
    ParseShow(b);
  }

  /** A UUID starts with a digit or a brace. */
  lemma NoUuid(s: string)
    requires s == [] || (!IsHex(s[0]) && s[0] != '{')
    ensures !IsUuid(s)
  {
  }

  /** Every UUID has other spellings, one of them in braces. */
  lemma Braced(s: string)
    requires IsCanonical(s)
    ensures Parse("{" + s + "}") == Parse(s) && "{" + s + "}" != s && !IsCanonical("{" + s + "}")
  {
    hide ParseFrom, ShowFrom;
    var braced := "{" + s + "}";
    assert braced[1..|braced| - 1] == s && |braced| == |s| + 2;
    ShowStart(Parse(s).value, 0);
  }
}
