/** Decimal numbers in text, as the C library reads them. */
module Numbers {
  import opened CString
  import opened Args

  predicate Digit(c: char) {
    '0' <= c <= '9'
  }

  function Digits(s: string, acc: int): int {
    if s == "" || !Digit(s[0]) then acc else Digits(s[1..], 10 * acc + (s[0] as int - '0' as int))
  }

  /** atoi, on numbers that fit an int: leading spaces, one sign, then digits up to the first other character. */
  function Atoi(s: string): int {
    var t := TrimLeft(s, SPACES);
    if t == "" then 0
    else if t[0] == '-' then -Digits(t[1..], 0)
    else if t[0] == '+' then Digits(t[1..], 0)
    else Digits(t, 0)
  }

  function Decimal(n: nat): (s: string)
    ensures s != ""
  {
    var d := ('0' as int + n % 10) as char;
    if n < 10 then [d] else Decimal(n / 10) + [d]
  }

  lemma {:induction false} DecimalDigits(n: nat)
    ensures forall c :: c in Decimal(n) ==> Digit(c)
    decreases n
  {
    if n >= 10 { DecimalDigits(n / 10); }
  }

  lemma {:induction false} DigitsSnoc(s: string, c: char, rest: string, acc: int)
    requires (forall x :: x in s ==> Digit(x)) && Digit(c) && (rest == "" || !Digit(rest[0]))
    ensures Digits(s + [c] + rest, acc) == 10 * Digits(s + rest, acc) + (c as int - '0' as int)
    decreases |s|
  {
    if s == "" {
      assert "" + [c] + rest == [c] + rest && ([c] + rest)[1..] == rest && "" + rest == rest;
    } else {
      DigitsSnoc(s[1..], c, rest, 10 * acc + (s[0] as int - '0' as int));
      assert (s + [c] + rest)[1..] == s[1..] + [c] + rest && (s + rest)[1..] == s[1..] + rest;
    }
  }

  lemma {:induction false} DigitsDecimal(n: nat, rest: string)
    requires rest == "" || !Digit(rest[0])
    ensures Digits(Decimal(n) + rest, 0) == n
    decreases n
  {
    var d := ('0' as int + n % 10) as char;
    if n < 10 {
      DigitsSnoc("", d, rest, 0);
      assert "" + [d] + rest == [d] + rest && "" + rest == rest;
    } else {
      DecimalDigits(n / 10);
      DigitsSnoc(Decimal(n / 10), d, rest, 0);
      DigitsDecimal(n / 10, rest);
    }
  }

  /** Reading a printed number gives the number back, whatever text follows it. */
  lemma AtoiDecimal(n: nat, rest: string)
    requires rest == "" || !Digit(rest[0])
    ensures Atoi(Decimal(n) + rest) == n
  {
    var s := Decimal(n) + rest;
    DecimalDigits(n);
    assert s[0] == Decimal(n)[0];
    assert s[0] in Decimal(n);
    DigitsDecimal(n, rest);
  }

  /** How a number is printed: its last digit behind the number without it. */
  lemma DecimalIs(n: nat, d: nat)
    requires d < 10
    ensures Decimal(d) == ["0123456789"[d]]
    ensures n > 0 ==> Decimal(10 * n + d) == Decimal(n) + ["0123456789"[d]]
  {
    assert (10 * n + d) % 10 == d && (10 * n + d) / 10 == n;
    assert "0123456789"[d] as int == '0' as int + d;
  }

  /** White space in front is skipped and one sign is read. */
  lemma AtoiSigned(w: string, n: nat, rest: string)
    requires forall c :: c in w ==> c in {' ', '\t', '\n', 11 as char, 12 as char, '\r'}
    requires rest == "" || !('0' <= rest[0] <= '9')
    ensures Atoi(w + Decimal(n) + rest) == Atoi(w + "+" + Decimal(n) + rest) == n
    ensures Atoi(w + "-" + Decimal(n) + rest) == -(n as int)
  {
    DecimalDigits(n);
    assert Decimal(n)[0] in Decimal(n);
    DigitsDecimal(n, rest);
    var t := Decimal(n) + rest;
    assert w + Decimal(n) + rest == w + t;
    assert w + "+" + Decimal(n) + rest == w + ("+" + t);
    assert w + "-" + Decimal(n) + rest == w + ("-" + t);
    SkipSpaces(w, t);
    SkipSpaces(w, "+" + t);
    SkipSpaces(w, "-" + t);
    assert ("+" + t)[1..] == t && ("-" + t)[1..] == t;
  }

  lemma SkipSpaces(w: string, t: string)
    requires (forall c :: c in w ==> c in SPACES) && t != "" && t[0] !in SPACES
    ensures TrimLeft(w + t, SPACES) == t
  {
    TrimLeftIs(w + t, SPACES, |w|);
    assert (w + t)[|w|..] == t;
  }
}
