/** The pieces of java.lang.String, Long and Integer that the protocol relies on:
    case folding for command-line tokens, prefix tests, String.split(" "),
    Long.parseLong / Integer.parseInt and Long.toString. */
module JavaText {
  import opened Prelude

  const LONG_MIN: int := -0x8000_0000_0000_0000
  const LONG_MAX: int := 0x7fff_ffff_ffff_ffff
  const INT_MIN: int := -0x8000_0000
  const INT_MAX: int := 0x7fff_ffff

  /** A value representable as a Java `long`. */
  predicate IsLong(n: int) {
    LONG_MIN <= n <= LONG_MAX
  }

  // ---------------------------------------------------------------------------
  // toLowerCase (ASCII letters only)

  function LowerChar(c: char): char {
    if 'A' <= c <= 'Z' then (c as int + 32) as char else c
  }

  /** No upper-case letter is left; each one becomes the same letter in lower case, and
      every other character is kept. */
  function ToLower(s: string): (r: string)
    ensures |r| == |s|
    ensures forall i :: 0 <= i < |r| ==> !('A' <= r[i] <= 'Z')
    ensures forall i :: 0 <= i < |s| && 'A' <= s[i] <= 'Z' ==>
      'a' <= r[i] <= 'z' && r[i] as int - 'a' as int == s[i] as int - 'A' as int
    ensures forall i :: 0 <= i < |s| && !('A' <= s[i] <= 'Z') ==> r[i] == s[i]
  {
    seq(|s|, i requires 0 <= i < |s| => LowerChar(s[i]))
  }

  /** Lower-casing is idempotent, so every token the client stores is already lower case. */
  lemma ToLowerIdempotent(s: string)
    ensures ToLower(ToLower(s)) == ToLower(s)
  {
    var t := ToLower(s);
    forall i | 0 <= i < |s|
      ensures ToLower(t)[i] == t[i]
    {
      assert t[i] == LowerChar(s[i]);
    }
  }

  predicate StartsWith(s: string, prefix: string) {
    |prefix| <= |s| && s[..|prefix|] == prefix
  }

  // ---------------------------------------------------------------------------
  // String.split(" ")

  /** Every field between single spaces, empty ones included (one more field than spaces). */
  function Fields(s: string): (r: seq<string>)
    ensures |r| >= 1
    decreases |s|
  {
    if |s| == 0 then [""]
    else
      var rest := Fields(s[1..]);
      if s[0] == ' ' then [""] + rest
      else [[s[0]] + rest[0]] + rest[1..]
  }

  function DropTrailingEmpty(ts: seq<string>): (r: seq<string>)
    ensures r <= ts
    ensures |r| > 0 ==> r[|r| - 1] != ""
    ensures forall k :: |r| <= k < |ts| ==> ts[k] == ""
    decreases |ts|
  {
    if |ts| > 0 && ts[|ts| - 1] == "" then DropTrailingEmpty(ts[..|ts| - 1]) else ts
  }

  /** Java's `s.split(" ")`: a string without a space comes back as the only element
      (even when it is empty); otherwise the fields, with trailing empty ones removed. */
  function Split(s: string): seq<string> {
    if ' ' !in s then [s] else DropTrailingEmpty(Fields(s))
  }

  /** The tokens joined by single spaces, the inverse of Split for well-formed tokens. */
  function JoinSpace(ts: seq<string>): string
    decreases |ts|
  {
    if |ts| == 0 then ""
    else if |ts| == 1 then ts[0]
    else ts[0] + " " + JoinSpace(ts[1..])
  }

  lemma JoinSpaceSmall(a: string, b: string, c: string, d: string)
    ensures JoinSpace([a, b]) == (a + " ") + b
    ensures JoinSpace([a, b, c]) == (a + " ") + b + (" " + c)
    ensures JoinSpace([a, b, c, d]) == (a + " ") + b + (" " + c) + (" " + d)
  {
    assert [a, b, c, d][1..] == [b, c, d];
    assert [a, b, c][1..] == [b, c];
    assert [b, c, d][1..] == [c, d];
    assert [b, c][1..] == [c];
    assert [c, d][1..] == [d];
    assert JoinSpace([c, d]) == c + " " + d;
    assert JoinSpace([b, c]) == b + " " + c;
    assert JoinSpace([b, c, d]) == b + " " + (c + " " + d);
    assert JoinSpace([a, b, c, d]) == a + " " + (b + " " + (c + " " + d));
    assert JoinSpace([a, b, c]) == a + " " + (b + " " + c);
  }

  predicate IsToken(t: string) {
    t != "" && ' ' !in t
  }

  lemma {:induction false} FieldsOfWord(a: string)
    requires ' ' !in a
    ensures Fields(a) == [a]
    decreases |a|
  {
    if |a| > 0 {
      FieldsOfWord(a[1..]);
      assert [a[0]] + a[1..] == a;
    }
  }

  lemma {:induction false} FieldsOfSpaced(a: string, b: string)
    requires ' ' !in a
    ensures Fields(a + " " + b) == [a] + Fields(b)
    decreases |a|
  {
    if |a| == 0 {
      assert a + " " + b == [' '] + b;
      assert (a + " " + b)[1..] == b;
    } else {
      var s := a + " " + b;
      assert s[1..] == a[1..] + " " + b;
      FieldsOfSpaced(a[1..], b);
      assert [a[0]] + a[1..] == a;
    }
  }

  lemma {:induction false} FieldsOfJoin(ts: seq<string>)
    requires |ts| >= 1
    requires forall k :: 0 <= k < |ts| ==> ' ' !in ts[k]
    ensures Fields(JoinSpace(ts)) == ts
    decreases |ts|
  {
    if |ts| == 1 {
      FieldsOfWord(ts[0]);
    } else {
      FieldsOfJoin(ts[1..]);
      FieldsOfSpaced(ts[0], JoinSpace(ts[1..]));
      assert [ts[0]] + ts[1..] == ts;
    }
  }

  /** Splitting a space-joined list of tokens gives the tokens back. */
  lemma SplitJoin(ts: seq<string>)
    requires |ts| >= 1
    requires forall k :: 0 <= k < |ts| ==> IsToken(ts[k])
    ensures Split(JoinSpace(ts)) == ts
  {
    FieldsOfJoin(ts);
    if |ts| >= 2 {
      var s := JoinSpace(ts);
      assert s == ts[0] + " " + JoinSpace(ts[1..]);
      assert s[|ts[0]|] == ' ';
    } else {
      assert JoinSpace(ts) == ts[0];
    }
  }

  // ---------------------------------------------------------------------------
  // Long.parseLong / Integer.parseInt (radix 10)

  predicate IsDigit(c: char) {
    '0' <= c <= '9'
  }

  predicate AllDigits(s: string) {
    forall i :: 0 <= i < |s| ==> IsDigit(s[i])
  }

  function DigitValue(c: char): nat
    requires IsDigit(c)
  {
    c as int - '0' as int
  }

  function DigitChar(d: nat): (c: char)
    requires d < 10
    ensures IsDigit(c) && DigitValue(c) == d
  {
    ('0' as int + d) as char
  }

  /** The value of a string of decimal digits, most significant first. */
  function DecimalValue(s: string): nat
    requires AllDigits(s)
    decreases |s|
  {
    if |s| == 0 then 0 else DecimalValue(s[..|s| - 1]) * 10 + DigitValue(s[|s| - 1])
  }

  /** An optional sign followed by at least one decimal digit, whose value lies in
      [lo, hi]; anything else is the NumberFormatException case, None. */
  function ParseDecimal(s: string, lo: int, hi: int): (r: Option<int>)
    ensures r.Some? ==> lo <= r.value <= hi
    ensures r.Some? ==> s != ""
    ensures r.Some? ==>
      var digits := if s[0] == '-' || s[0] == '+' then s[1..] else s;
      && |digits| > 0 && AllDigits(digits)
      && r.value == (if s[0] == '-' then 0 - DecimalValue(digits) else DecimalValue(digits) as int)
    ensures s != "" ==>
      var digits := if s[0] == '-' || s[0] == '+' then s[1..] else s;
      |digits| > 0 && AllDigits(digits) ==>
        var v := if s[0] == '-' then 0 - DecimalValue(digits) else DecimalValue(digits) as int;
        (r.Some? <==> lo <= v <= hi)
    ensures s != "" ==>
      var digits := if s[0] == '-' || s[0] == '+' then s[1..] else s;
      (|digits| == 0 || !AllDigits(digits)) ==> r.None?
  {
    if |s| == 0 then None
    else
      var digits := if s[0] == '-' || s[0] == '+' then s[1..] else s;
      if |digits| == 0 || !AllDigits(digits) then None
      else
        var magnitude: int := DecimalValue(digits);
        var v := if s[0] == '-' then -magnitude else magnitude;
        if lo <= v <= hi then Some(v) else None
  }

  function ParseLong(s: string): (r: Option<int>)
    ensures r.Some? ==> IsLong(r.value)
  {
    ParseDecimal(s, LONG_MIN, LONG_MAX)
  }

  function ParseInt(s: string): (r: Option<int>)
    ensures r.Some? ==> INT_MIN <= r.value <= INT_MAX
  {
    ParseDecimal(s, INT_MIN, INT_MAX)
  }

  // ---------------------------------------------------------------------------
  // Long.toString

  function NatToDecimal(n: nat): string
    decreases n
  {
    if n < 10 then [DigitChar(n)] else NatToDecimal(n / 10) + [DigitChar(n % 10)]
  }

  function LongToString(n: int): string {
    if n < 0 then "-" + NatToDecimal(-n) else NatToDecimal(n)
  }

  lemma {:induction false} NatToDecimalValue(n: nat)
    ensures NatToDecimal(n) != [] && AllDigits(NatToDecimal(n))
    ensures DecimalValue(NatToDecimal(n)) == n
    decreases n
  {
    if n >= 10 {
      NatToDecimalValue(n / 10);
      var s := NatToDecimal(n);
      assert s[..|s| - 1] == NatToDecimal(n / 10);
    }
  }

  /** Long.parseLong reads back what Long.toString wrote. */
  lemma LongToStringRoundTrip(n: int)
    requires IsLong(n)
    ensures ParseLong(LongToString(n)) == Some(n)
  {
    var s := LongToString(n);
    if n < 0 {
      NatToDecimalValue(-n);
      assert s[0] == '-' && s[1..] == NatToDecimal(-n);
    } else {
      NatToDecimalValue(n);
      assert '0' <= s[0] <= '9';
    }
  }

  /** Long.toString never produces a space, so it fits in one request token. */
  lemma LongToStringIsToken(n: int)
    ensures IsToken(LongToString(n))
  {
    var d := NatToDecimal(if n < 0 then -n else n);
    NatToDecimalValue(if n < 0 then -n else n);
    assert forall i :: 0 <= i < |d| ==> d[i] != ' ';
    if n < 0 {
      assert LongToString(n) == "-" + d;
      assert forall i :: 0 <= i < |"-" + d| ==> ("-" + d)[i] != ' ';
    }
  }
}
