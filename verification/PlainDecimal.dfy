/** Rewriting scientific notation as a plain decimal, digit for digit. */
module PlainDecimal {
  import opened Text

  // ------------------------------------------------------------ text helpers

  function LowerChar(c: char): char {
    if 'A' <= c <= 'Z' then c - 'A' + 'a' else c
  }

  function Lower(s: string): (r: string)
    ensures |r| == |s|
  {
    seq(|s|, i requires 0 <= i < |s| => LowerChar(s[i]))
  }

  /** The part before the first `c`, the part after it, and whether there is one. */
  function Cut(s: string, c: char): (string, string, bool) {
    if s == "" then ("", "", false)
    else if s[0] == c then ("", s[1..], true)
    else
      var (before, after, found) := Cut(s[1..], c);
      ([s[0]] + before, after, found)
  }

  /** Digits dropped from the front, then from the back. */
  function TrimLeft(s: string): string {
    if s != "" && IsDigit(s[0]) then TrimLeft(s[1..]) else s
  }

  function TrimRight(s: string): string {
    if s != "" && IsDigit(s[|s| - 1]) then TrimRight(s[..|s| - 1]) else s
  }

  function TrimDigits(s: string): string {
    TrimRight(TrimLeft(s))
  }

  function Zeros(n: nat): (s: string)
    ensures |s| == n && AllDigits(s)
  {
    seq(n, _ => '0')
  }

  // ---------------------------------------------------------------- rewriting

  /** A mantissa and exponent: sign, digits before the point, digits after it, power of ten. */
  datatype Scientific = Scientific(negative: bool, integer: string, fraction: string, exponent: int)

  /** What a text in scientific notation consists of, or None when it is malformed. */
  function ReadScientific(lowered: string): Option<Scientific> {
    var (mantissa, exponentText, _) := Cut(lowered, 'e');
    var exponent := Atoi(exponentText);
    var (integer, fraction, _) := Cut(WithoutSign(mantissa), '.');
    if exponent.None? || integer + fraction == "" || TrimDigits(integer + fraction) != "" then None
    else Some(Scientific(mantissa != "" && mantissa[0] == '-', integer, fraction, exponent.value))
  }

  function WithoutSign(mantissa: string): string {
    if mantissa != "" && (mantissa[0] == '-' || mantissa[0] == '+') then mantissa[1..] else mantissa
  }

  /** The digits with the decimal point put after the first `point` of them, zeros filling any gap. */
  function Spelled(s: Scientific, point: int): string {
    var digits := s.integer + s.fraction;
    (if s.negative then "-" else "") +
    if point <= 0 then "0" + ("." + (Zeros(-point) + digits))
    else if point >= |digits| then digits + Zeros(point - |digits|)
    else digits[..point] + ("." + digits[point..])
  }

  /** The plain spelling: the decimal point moved over the mantissa's own digits. */
  function Render(s: Scientific): string {
    Spelled(s, |s.integer| + s.exponent)
  }

  /** A sum or negation on a 64-bit machine. */
  function Wrap(n: int): int {
    (n + MAX_INT64 + 1) % (2 * MAX_INT64 + 2) - MAX_INT64 - 1
  }

  /** What rewriting does: the text, a refusal, or a crash on a negative repeat count. */
  datatype Outcome = Rewritten(text: string) | Malformed | Crashed

  /** Rendering on a 64-bit machine, where the position of the point can wrap. */
  function MachineRender(s: Scientific): Outcome {
    var point := Wrap(|s.integer| + s.exponent);
    if point <= 0 && Wrap(-point) < 0 then Crashed else Rewritten(Spelled(s, point))
  }

  function Plain(text: string): Outcome {
    var lowered := Lower(text);
    if !Cut(lowered, 'e').2 then Rewritten(text)
    else
      var s := ReadScientific(lowered);
      if s.None? then Malformed else MachineRender(s.value)
  }

  // ------------------------------------------------------------------- values

  /** Ten to an integer power. */
  ghost function Pow10(e: int): (r: real)
    ensures r > 0.0
    decreases if e < 0 then -e else e
  {
    if e == 0 then 1.0 else if e > 0 then 10.0 * Pow10(e - 1) else Pow10(e + 1) / 10.0
  }

  ghost function Prod(x: real, y: real): real {
    x * y
  }

  ghost function Signed(negative: bool, x: real): real {
    if negative then -x else x
  }

  /** The number a scientific text denotes. */
  ghost function Denotes(s: Scientific): real
    requires AllDigits(s.integer + s.fraction)
  {
    Signed(s.negative, Prod(NatValue(s.integer + s.fraction) as real, Pow10(s.exponent - |s.fraction|)))
  }

  /** The integer and fraction digits of a plain decimal, after its sign. */
  ghost function Unsigned(text: string): string {
    if text != "" && text[0] == '-' then text[1..] else text
  }

  ghost function PlainDigits(text: string): string {
    var (integer, fraction, _) := Cut(Unsigned(text), '.');
    integer + fraction
  }

  ghost predicate IsPlain(text: string) {
    PlainDigits(text) != "" && AllDigits(PlainDigits(text))
  }

  /** The number a plain decimal denotes. */
  ghost function PlainValue(text: string): real
    requires IsPlain(text)
  {
    var value := Prod(NatValue(PlainDigits(text)) as real, Pow10(-|Cut(Unsigned(text), '.').1|));
    Signed(text != "" && text[0] == '-', value)
  }

  lemma {:induction false} CutAt(a: string, c: char, b: string)
    requires c !in a
    ensures Cut(a + [c] + b, c) == (a, b, true) && Cut(a, c) == (a, "", false)
  {
    if a == "" {
      assert a + [c] + b == [c] + b;
      assert ([c] + b)[1..] == b;
    } else {
      CutAt(a[1..], c, b);
      assert (a + [c] + b)[1..] == a[1..] + [c] + b;
      assert [a[0]] + a[1..] == a;
    }
  }

  lemma {:induction false} CutParts(s: string, c: char)
    ensures var (before, after, found) := Cut(s, c);
      c !in before && (found <==> c in s) && s == before + (if found then [c] + after else "") &&
      (!found ==> after == "")
  {
    if s != "" {
      CutParts(s[1..], c);
      assert s == [s[0]] + s[1..];
    }
  }

  lemma ProdTen(x: real, y: real)
    ensures Prod(x, 10.0 * y) == Prod(10.0 * x, y) == 10.0 * Prod(x, y)
  {
  }

  lemma ProdAssoc(x: real, y: real, z: real)
    ensures Prod(Prod(x, y), z) == Prod(x, Prod(y, z)) && Prod(x, 1.0) == x == Prod(1.0, x)
  {
  }

  lemma {:induction false} ZerosOnTheRight(d: string, k: nat)
    requires AllDigits(d)
    ensures AllDigits(d + Zeros(k)) && NatValue(d + Zeros(k)) as real == Prod(NatValue(d) as real, Pow10(k))
  {
    hide Pow10, Prod;
    if k == 0 {
      assert d + Zeros(0) == d;
      PowZero();
      ProdAssoc(NatValue(d) as real, 0.0, 0.0);
    } else {
      ZerosOnTheRight(d, k - 1);
      var s := d + Zeros(k);
      assert s[..|s| - 1] == d + Zeros(k - 1) && s[|s| - 1] == '0';
      assert NatValue(s) == 10 * NatValue(d + Zeros(k - 1));
      PowStep(k - 1);
      ProdTen(NatValue(d) as real, Pow10(k - 1));
    }
  }

  lemma {:induction false} ZerosOnTheLeft(k: nat, d: string)
    requires AllDigits(d)
    ensures AllDigits(Zeros(k) + d) && NatValue(Zeros(k) + d) == NatValue(d)
    decreases |d| + k
  {
    var s := Zeros(k) + d;
    if d != "" {
      ZerosOnTheLeft(k, d[..|d| - 1]);
      assert s[..|s| - 1] == Zeros(k) + d[..|d| - 1];
    } else if k > 0 {
      ZerosOnTheLeft(k - 1, d);
      assert s[..|s| - 1] == Zeros(k - 1) + d;
    }
  }

  /** The trim test leaves something over exactly when there is a non-digit. */
  lemma {:induction false} TrimRejectsExactly(s: string)
    ensures TrimDigits(s) == "" <==> AllDigits(s)
  {
    TrimLeftStops(s);
    TrimRightStops(TrimLeft(s));
  }

  lemma {:induction false} TrimLeftStops(s: string)
    ensures AllDigits(TrimLeft(s)) <==> AllDigits(s)
    ensures TrimLeft(s) == "" || !IsDigit(TrimLeft(s)[0])
  {
    if s != "" && IsDigit(s[0]) {
      TrimLeftStops(s[1..]);
      assert s == [s[0]] + s[1..];
    }
  }

  lemma {:induction false} TrimRightStops(s: string)
    ensures TrimRight(s) == "" <==> AllDigits(s)
  {
    if s != "" && IsDigit(s[|s| - 1]) {
      TrimRightStops(s[..|s| - 1]);
      assert s == s[..|s| - 1] + [s[|s| - 1]];
    } else if s != "" {
      assert !IsDigit(s[|s| - 1]);
    }
  }

  // ----------------------------------------------------------------- theorems

  /** A well-formed mantissa. */
  ghost predicate Sound(s: Scientific) {
    s.integer + s.fraction != "" && AllDigits(s.integer + s.fraction)
  }

  /** Reading accepts exactly a machine-sized exponent with a mantissa of digits, at least one of them. */
  lemma ReadingIsExact(lowered: string)
    ensures var r := ReadScientific(lowered);
      var (mantissa, exponentText, _) := Cut(lowered, 'e');
      var (integer, fraction, _) := Cut(WithoutSign(mantissa), '.');
      (r.Some? <==> Atoi(exponentText).Some? && integer + fraction != "" && AllDigits(integer + fraction)) &&
      (r.Some? ==> Sound(r.value))
  {
    var (mantissa, exponentText, _) := Cut(lowered, 'e');
    var (integer, fraction, _) := Cut(WithoutSign(mantissa), '.');
    TrimRejectsExactly(integer + fraction);
  }

  /** The unsigned part of a spelling, and how many zeros it adds on either side. */
  lemma SpelledParts(s: Scientific, point: int) returns (integer: string, fraction: string, left: nat, right: nat)
    requires Sound(s)
    ensures AllDigits(integer) && AllDigits(fraction)
    ensures integer + fraction == Zeros(left) + (s.integer + s.fraction) + Zeros(right) && (left == 0 || right == 0)
    ensures right - |fraction| == point - |s.integer + s.fraction|
    ensures Spelled(s, point) ==
      (if s.negative then "-" else "") + (integer + if fraction == "" then "" else "." + fraction)
    ensures integer != ""
  {
    var digits := s.integer + s.fraction;
    if point <= 0 {
      integer, fraction, left, right := "0", Zeros(-point) + digits, 1 - point, 0;
      assert integer + fraction == Zeros(left) + digits + Zeros(0);
    } else if point >= |digits| {
      integer, fraction, left, right := digits + Zeros(point - |digits|), "", 0, point - |digits|;
      assert integer + fraction == Zeros(0) + digits + Zeros(right);
    } else {
      integer, fraction, left, right := digits[..point], digits[point..], 0, 0;
      assert integer + fraction == Zeros(0) + digits + Zeros(0);
    }
  }

  /** Cutting the plain spelling gives back its digits and sign. */
  lemma ReadBack(negative: bool, integer: string, fraction: string)
    requires AllDigits(integer) && AllDigits(fraction) && integer != ""
    ensures var text := (if negative then "-" else "") + (integer + if fraction == "" then "" else "." + fraction);
      PlainDigits(text) == integer + fraction && Cut(Unsigned(text), '.').1 == fraction &&
      (text != "" && text[0] == '-' <==> negative)
  {
    var body := integer + if fraction == "" then "" else "." + fraction;
    var text := (if negative then "-" else "") + body;
    assert IsDigit(integer[0]) && '.' !in integer;
    assert Unsigned(text) == body;
    CutAt(integer, '.', fraction);
    if fraction == "" {
      assert body == integer;
    } else {
      assert body == integer + ['.'] + fraction;
    }
  }

  /** `text` is `digits` with zeros added at one end only. */
  ghost predicate Padded(text: string, digits: string) {
    exists n: nat :: text == Zeros(n) + digits || text == digits + Zeros(n)
  }

  /**
    The plain text denotes exactly the number the scientific text denotes, and carries the mantissa's
    digits in order with zeros added only at one end.
   */
  lemma RenderingIsExact(s: Scientific)
    requires Sound(s)
    ensures IsPlain(Render(s)) && PlainValue(Render(s)) == Denotes(s)
    ensures Padded(PlainDigits(Render(s)), s.integer + s.fraction)
  {
    hide Pow10, NatValue, Cut, Spelled, Zeros, Prod, Padded;
    var integer, fraction, left, right := SpelledParts(s, |s.integer| + s.exponent);
    var digits := s.integer + s.fraction;
    ReadBack(s.negative, integer, fraction);
    ZerosOnTheLeft(left, digits);
    ZerosOnTheRight(Zeros(left) + digits, right);
    PowAdd(right, -|fraction|);
    ProdAssoc(NatValue(digits) as real, Pow10(right), Pow10(-|fraction|));
    PadOneEnd(left, digits, right);
  }

  /** A Go string and its exponent: both sizes fit a machine word. */
  ghost predicate MachineSized(s: Scientific) {
    |s.integer + s.fraction| <= MAX_INT64 && -MAX_INT64 - 1 <= s.exponent <= MAX_INT64
  }

  /** The position of the point and its negation stay inside a machine word. */
  ghost predicate PointFits(s: Scientific) {
    -MAX_INT64 <= |s.integer| + s.exponent <= MAX_INT64
  }

  /** The machine gives the plain spelling exactly when the position of the point fits. */
  lemma MachineRendersIff(s: Scientific)
    requires Sound(s) && MachineSized(s)
    ensures MachineRender(s) == Rewritten(Render(s)) <==> PointFits(s)
  {
    hide Wrap, Spelled;
    var exact := |s.integer| + s.exponent;
    WrapOnce(exact);
    WrapOnce(-Wrap(exact));
    if exact > MAX_INT64 {
      PointTells(s, Wrap(exact));
      PointTells(s, exact);
    }
  }

  lemma WrapOnce(n: int)
    requires -MAX_INT64 - 1 <= n <= 2 * MAX_INT64
    ensures Wrap(n) == if n <= MAX_INT64 then n else n - 2 * MAX_INT64 - 2
  {
  }

  /** A spelling holds a point unless the point comes after every digit. */
  lemma PointTells(s: Scientific, point: int)
    requires Sound(s)
    ensures '.' in Spelled(s, point) <==> point < |s.integer + s.fraction|
  {
    var digits, sign := s.integer + s.fraction, if s.negative then "-" else "";
    assert '.' !in sign && '.' !in digits;
    if point <= 0 {
      assert Spelled(s, point)[|sign| + 1] == '.';
    } else if point < |digits| {
      assert Spelled(s, point)[|sign| + point] == '.';
    } else {
      assert '.' !in Zeros(point - |digits|);
    }
  }

  /** One digit with the largest exponent wraps the position of the point and crashes. */
  lemma LargestExponentCrashes()
    ensures Plain("1e9223372036854775807") == Crashed
  {
    hide Plain, Atoi, Wrap, Spelled;
    var text := "9223372036854775807";
    LargestText();
    SpellingIsRead("", "1", false, "", 'e', text);
    assert "" + ("1" + "") + ['e'] + text == "1e9223372036854775807";
    WrapOnce(1 + MAX_INT64);
    WrapOnce(-Wrap(1 + MAX_INT64));
  }

  lemma LargestText()
    ensures Atoi("9223372036854775807") == Some(MAX_INT64)
  {
    hide NatValue, Atoi;
    var a, b, c, d, e := "922", "3372", "0368", "5477", "5807";
    ThreeDigits("", a);
    NoDigits();
    assert "" + a == a && NatValue(a) == 922;
    FiveParts(a, b, c, d, e);
    assert a + b + c + d + e == "9223372036854775807";
    AtoiOfDigits("9223372036854775807");
  }

  lemma FiveParts(a: string, b: string, c: string, d: string, e: string)
    requires AllDigits(a) && NatValue(a) == 922
    requires b == "3372" && c == "0368" && d == "5477" && e == "5807"
    ensures AllDigits(a + b + c + d + e) && NatValue(a + b + c + d + e) == MAX_INT64
  {
    hide NatValue;
    FourDigits(a, b);
    FourDigits(a + b, c);
    FourDigits(a + b + c, d);
    FourDigits(a + b + c + d, e);
  }

  lemma AtoiOfDigits(s: string)
    requires s != "" && AllDigits(s) && NatValue(s) <= MAX_INT64
    ensures Atoi(s) == Some(NatValue(s))
  {
    assert IsDigit(s[0]);
  }

  lemma NoDigits()
    ensures NatValue("") == 0
  {
  }

  lemma ThreeDigits(s: string, t: string)
    requires AllDigits(s) && AllDigits(t) && |t| == 3
    ensures AllDigits(s + t)
    ensures NatValue(s + t) == 1000 * NatValue(s) + 100 * DigitValue(t[0]) + 10 * DigitValue(t[1]) + DigitValue(t[2])
  {
    assert s + t == s + [t[0]] + [t[1]] + [t[2]];
    NextDigit(s, t[0]);
    NextDigit(s + [t[0]], t[1]);
    NextDigit(s + [t[0]] + [t[1]], t[2]);
  }

  lemma FourDigits(s: string, t: string)
    requires AllDigits(s) && AllDigits(t) && |t| == 4
    ensures AllDigits(s + t)
    ensures NatValue(s + t) ==
      10000 * NatValue(s) + 1000 * DigitValue(t[0]) + 100 * DigitValue(t[1]) + 10 * DigitValue(t[2]) + DigitValue(t[3])
  {
    hide NatValue;
    ThreeDigits(s, t[..3]);
    NextDigit(s + t[..3], t[3]);
    assert s + t[..3] + [t[3]] == s + t;
  }

  lemma NextDigit(s: string, c: char)
    requires AllDigits(s) && IsDigit(c)
    ensures AllDigits(s + [c]) && NatValue(s + [c]) == 10 * NatValue(s) + DigitValue(c)
  {
    assert (s + [c])[..|s|] == s;
  }

  lemma PadOneEnd(left: nat, digits: string, right: nat)
    requires left == 0 || right == 0
    ensures Padded(Zeros(left) + digits + Zeros(right), digits)
  {
    if right == 0 {
      assert Zeros(left) + digits + Zeros(right) == Zeros(left) + digits;
    } else {
      assert Zeros(left) + digits + Zeros(right) == digits + Zeros(right);
    }
  }

  lemma {:induction false} PowStep(e: int)
    ensures Pow10(e + 1) == 10.0 * Pow10(e)
  {
  }

  lemma PowZero()
    ensures Pow10(0) == 1.0
  {
  }

  lemma {:induction false} PowAdd(a: nat, b: int)
    ensures Prod(Pow10(a), Pow10(b)) == Pow10(a + b)
  {
    hide Pow10, Prod;
    if a > 0 {
      PowAdd(a - 1, b);
      PowStep(a - 1);
      PowStep(a - 1 + b);
      ProdTen(Pow10(a - 1), Pow10(b));
    } else {
      PowZero();
      ProdAssoc(Pow10(b), 0.0, 0.0);
    }
  }

  /** The parts of a spelled-out scientific number are read back, whatever the case of its letter. */
  lemma SpellingIsRead(sign: string, integer: string, point: bool, fraction: string, letter: char, exponentText: string)
    requires sign in {"", "-", "+"} && letter in {'e', 'E'} && (point || fraction == "")
    requires AllDigits(integer) && AllDigits(fraction) && integer + fraction != "" && Atoi(exponentText).Some?
    ensures var text := sign + (integer + if point then "." + fraction else "") + [letter] + exponentText;
      var s := Scientific(sign == "-", integer, fraction, Atoi(exponentText).value);
      Sound(s) && Plain(text) == MachineRender(s)
  {
    hide Cut, TrimDigits, Atoi, MachineRender, Lower, WithoutSign;
    var body := integer + if point then "." + fraction else "";
    LoweredText(sign, body, letter, exponentText);
    CutAt(sign + body, 'e', exponentText);
    SignOf(sign, body);
    CutPoint(integer, point, fraction);
    TrimRejectsExactly(integer + fraction);
  }

  lemma CutPoint(integer: string, point: bool, fraction: string)
    requires AllDigits(integer) && (point || fraction == "")
    ensures Cut(integer + if point then "." + fraction else "", '.') == (integer, fraction, point)
  {
    hide Cut;
    CutAt(integer, '.', fraction);
    if point {
      assert integer + ("." + fraction) == integer + ['.'] + fraction;
    } else {
      assert integer + "" == integer;
    }
  }

  lemma SignOf(sign: string, body: string)
    requires sign in {"", "-", "+"} && Numeric(body)
    ensures WithoutSign(sign + body) == body
    ensures sign + body != "" && (sign + body)[0] == '-' <==> sign == "-"
  {
    if sign == "" {
      assert sign + body == body;
      assert body != "" ==> body[0] != '-' && body[0] != '+';
    }
  }

  /** Digits and points only. */
  ghost predicate Numeric(s: string) {
    forall i :: 0 <= i < |s| ==> IsDigit(s[i]) || s[i] == '.'
  }

  lemma LoweredText(sign: string, body: string, letter: char, exponentText: string)
    requires sign in {"", "-", "+"} && letter in {'e', 'E'} && Numeric(body) && Atoi(exponentText).Some?
    ensures Lower(sign + body + [letter] + exponentText) == sign + body + ['e'] + exponentText
    ensures 'e' !in sign + body
  {
    AtoiText(exponentText);
    hide Atoi;
    assert 'e' !in sign && 'e' !in body;
    var text := sign + body + [letter] + exponentText;
    var want := sign + body + ['e'] + exponentText;
    forall i | 0 <= i < |text| ensures LowerChar(text[i]) == want[i] {
      if i < |sign| {
        assert text[i] == sign[i] == want[i];
      } else if i < |sign| + |body| {
        assert text[i] == body[i - |sign|] == want[i];
      } else if i > |sign| + |body| {
        assert text[i] == exponentText[i - |sign| - |body| - 1] == want[i];
      }
    }
  }

  /** An exponent is an optional sign and digits, so changing case leaves it alone. */
  lemma AtoiText(s: string)
    requires Atoi(s).Some?
    ensures forall i :: 0 <= i < |s| ==> IsDigit(s[i]) || s[i] == '-' || s[i] == '+'
  {
    var digits := if s[0] == '-' || s[0] == '+' then s[1..] else s;
    assert forall i :: 0 <= i < |digits| ==> IsDigit(digits[i]);
    forall i | 0 <= i < |s| ensures IsDigit(s[i]) || s[i] == '-' || s[i] == '+' {
      if s[0] == '-' || s[0] == '+' {
        if i > 0 {
          assert s[i] == digits[i - 1];
        }
      } else {
        assert s[i] == digits[i];
      }
    }
  }

  /** Rewriting a rewritten text changes nothing. */
  lemma RewritingIsIdempotent(text: string)
    requires Plain(text).Rewritten?
    ensures Plain(Plain(text).text) == Plain(text)
  {
    hide Cut, Spelled, Atoi, TrimDigits, WithoutSign, ReadScientific, Wrap;
    var lowered := Lower(text);
    if Cut(lowered, 'e').2 {
      ReadingIsExact(lowered);
      var s := ReadScientific(lowered).value;
      var point := Wrap(|s.integer| + s.exponent);
      var integer, fraction, _, _ := SpelledParts(s, point);
      var p := Spelled(s, point);
      forall i | 0 <= i < |p| ensures Lower(p)[i] != 'e' {
        assert p[i] == '-' || p[i] == '.' || IsDigit(p[i]);
      }
      CutParts(Lower(p), 'e');
    }
  }

  /**
    Every spelled-out scientific number whose point fits a machine word is rewritten as a plain text that
    denotes the same number with the same digits in order, zeros added at one end only. When the point
    does not fit, the text is never that one.
   */
  lemma RewriteIsExact(sign: string, integer: string, point: bool, fraction: string, letter: char, exponentText: string)
    requires sign in {"", "-", "+"} && letter in {'e', 'E'} && (point || fraction == "")
    requires AllDigits(integer) && AllDigits(fraction) && integer + fraction != "" && Atoi(exponentText).Some?
    requires |integer + fraction| <= MAX_INT64
    ensures var p := Plain(sign + (integer + if point then "." + fraction else "") + [letter] + exponentText);
      var s := Scientific(sign == "-", integer, fraction, Atoi(exponentText).value);
      (p == Rewritten(Render(s)) <==> PointFits(s)) &&
      IsPlain(Render(s)) && Padded(PlainDigits(Render(s)), integer + fraction) &&
      PlainValue(Render(s)) == Signed(sign == "-",
        Prod(NatValue(integer + fraction) as real, Pow10(Atoi(exponentText).value - |fraction|)))
  {
    hide Plain, Atoi, IsPlain, PlainValue, PlainDigits, Padded, Render, MachineRender, PointFits, Prod, NatValue,
      Pow10;
    AtoiRange(exponentText);
    SpellingIsRead(sign, integer, point, fraction, letter, exponentText);
    var s := Scientific(sign == "-", integer, fraction, Atoi(exponentText).value);
    MachineRendersIff(s);
    RenderingIsExact(s);
  }

  lemma AtoiRange(s: string)
    requires Atoi(s).Some?
    ensures -MAX_INT64 - 1 <= Atoi(s).value <= MAX_INT64
  {
  }
}
