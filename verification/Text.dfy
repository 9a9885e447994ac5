/** Decimal text: the parts of Go's `strconv` and `strings` the repository's text handling rests on. */
module Text {

  datatype Option<+T> = None | Some(value: T)

  const MAX_INT64: int := 0x7fff_ffff_ffff_ffff

  predicate IsDigit(c: char) {
    '0' <= c <= '9'
  }

  predicate AllDigits(s: string) {
    forall i :: 0 <= i < |s| ==> IsDigit(s[i])
  }

  function DigitChar(d: nat): (c: char)
    requires d < 10
    ensures IsDigit(c) && DigitValue(c) == d
  {
    '0' + d as char
  }

  function DigitValue(c: char): (d: nat)
    requires IsDigit(c)
    ensures d < 10
  {
    (c - '0') as nat
  }

  /** The number a run of digits denotes, most significant digit first. */
  function NatValue(s: string): nat
    requires AllDigits(s)
  {
    if s == "" then 0 else 10 * NatValue(s[..|s| - 1]) + DigitValue(s[|s| - 1])
  }

  /** `strconv.Itoa` on a natural number. */
  function NatText(n: nat): (s: string)
    ensures AllDigits(s) && s != ""
  {
    if n < 10 then [DigitChar(n)] else NatText(n / 10) + [DigitChar(n % 10)]
  }

  lemma {:induction false} NatTextRoundTrip(n: nat)
    ensures NatValue(NatText(n)) == n
  {
    if n >= 10 {
      NatTextRoundTrip(n / 10);
      var s := NatText(n);
      assert s[..|s| - 1] == NatText(n / 10);
    }
  }

  /** `strconv.Atoi`: an optional sign, then one or more digits, within 64 bits. */
  function Atoi(s: string): Option<int> {
    var negative := s != "" && s[0] == '-';
    var digits := if s != "" && (s[0] == '-' || s[0] == '+') then s[1..] else s;
    if digits == "" || !AllDigits(digits) then None
    else
      var m: int := NatValue(digits);
      var v := if negative then -m else m;
      if -MAX_INT64 - 1 <= v <= MAX_INT64 then Some(v) else None
  }

  lemma AtoiOfNatText(n: nat)
    requires n <= MAX_INT64
    ensures Atoi(NatText(n)) == Some(n)
  {
    NatTextRoundTrip(n);
    var s := NatText(n);
    assert IsDigit(s[0]);
  }

  /** A sign in front of the digits is read as such, and a number outside 64 bits is refused. */
  lemma AtoiOfSigned(n: nat)
    ensures var v: int := n;
      Atoi("-" + NatText(n)) == (if v <= MAX_INT64 + 1 then Some(-v) else None) &&
      Atoi("+" + NatText(n)) == Atoi(NatText(n)) == if v <= MAX_INT64 then Some(v) else None
  {
    hide NatValue, NatText;
    NatTextRoundTrip(n);
    var s := NatText(n);
    assert ("-" + s)[1..] == s && ("+" + s)[1..] == s && IsDigit(s[0]);
  }

  /** `strings.Join`. */
  function Join(parts: seq<string>, separator: string): string {
    if parts == [] then ""
    else if |parts| == 1 then parts[0]
    else parts[0] + separator + Join(parts[1..], separator)
  }

  /** Joining two parts puts the separator between them and keeps their order. */
  lemma {:induction false} JoinConcat(a: seq<string>, b: seq<string>, separator: string)
    requires a != [] && b != []
    ensures Join(a + b, separator) == Join(a, separator) + separator + Join(b, separator)
    decreases |a|
  {
    assert (a + b)[1..] == a[1..] + b;
    if |a| == 1 {
      assert a[1..] + b == b;
    } else {
      JoinConcat(a[1..], b, separator);
    }
  }

  /** The texts that are not empty, in order. */
  function NonEmpty(tokens: seq<string>): seq<string> {
    if tokens == [] then []
    else NonEmpty(tokens[..|tokens| - 1]) + if tokens[|tokens| - 1] == "" then [] else [tokens[|tokens| - 1]]
  }

  /** Dropping the empty texts drops nothing else, and works part by part. */
  lemma {:induction false} NonEmptyConcat(a: seq<string>, b: seq<string>)
    ensures NonEmpty(a + b) == NonEmpty(a) + NonEmpty(b)
  {
    if b == [] {
      assert a + b == a;
    } else {
      NonEmptyConcat(a, b[..|b| - 1]);
      assert (a + b)[..|a + b| - 1] == a + b[..|b| - 1];
    }
  }

  lemma NonEmptyOne(t: string)
    ensures NonEmpty([t]) == if t == "" then [] else [t]
  {
    assert [t][..0] == [];
  }
}
