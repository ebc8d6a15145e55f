/** Decimal text as Go's `strconv` writes and reads it, and int64 arithmetic. */
module Numbers {
  import opened Wrappers

  const MAX_INT64 := 0x7FFF_FFFF_FFFF_FFFF

  /** int64 arithmetic wraps around. */
  function Wrap64(x: int): (r: int)
    ensures -MAX_INT64 - 1 <= r <= MAX_INT64
    ensures -MAX_INT64 - 1 <= x <= MAX_INT64 ==> r == x
  {
    (x + 0x8000_0000_0000_0000) % 0x1_0000_0000_0000_0000 - 0x8000_0000_0000_0000
  }

  function Digit(d: int): char
    requires 0 <= d < 10
  {
    ('0' as int + d) as char
  }

  /** `strconv.Itoa` of a natural number. */
  function Itoa(n: nat): (s: string)
    ensures s != ""
    decreases n
  {
    if n < 10 then [Digit(n)] else Itoa(n / 10) + [Digit(n % 10)]
  }

  lemma {:induction false} ItoaIsDigits(n: nat)
    ensures forall c <- Itoa(n) :: '0' <= c <= '9'
    decreases n
  {
    if n >= 10 {
      ItoaIsDigits(n / 10);
    }
  }

  function Digits(s: string): Option<nat> {
    if s == "" then Some(0)
    else
      var c := s[|s| - 1];
      match Digits(s[..|s| - 1])
      case None => None
      case Some(n) => if '0' <= c <= '9' then Some(10 * n + (c as int - '0' as int)) else None
  }

  /** `strconv.Atoi`: an optional sign, at least one digit, a value in int64's range. */
  function Atoi(s: string): Option<int> {
    var signed := s != "" && (s[0] == '+' || s[0] == '-');
    var digits := if signed then s[1..] else s;
    if digits == "" then None
    else match Digits(digits)
      case None => None
      case Some(n) =>
        var m: int := n;
        var v := if signed && s[0] == '-' then -m else m;
        if -MAX_INT64 - 1 <= v <= MAX_INT64 then Some(v) else None
  }

  lemma {:induction false} DigitsOfItoa(n: nat)
    ensures Digits(Itoa(n)) == Some(n)
    decreases n
  {
    var s := Itoa(n);
    if n < 10 {
      assert s[..0] == "";
      assert Digits(s[..|s| - 1]) == Some(0);
    } else {
      DigitsOfItoa(n / 10);
      assert s[..|s| - 1] == Itoa(n / 10);
    }
  }

  lemma AtoiOfItoa(n: nat)
    requires n <= MAX_INT64
    ensures Atoi(Itoa(n)) == Some(n)
  {
    DigitsOfItoa(n);
    ItoaIsDigits(n);
    assert Itoa(n)[0] in Itoa(n);
  }

  /** `strconv.FormatInt` in base ten. */
  function Decimal(n: int): string {
    if n < 0 then ['-'] + Itoa(-n) else Itoa(n)
  }

  /** Decimal text determines its number. */
  lemma DecimalDetermines(a: int, b: int)
    requires Decimal(a) == Decimal(b)
    ensures a == b
  {
    var s, t := Itoa(if a < 0 then -a else a), Itoa(if b < 0 then -b else b);
    ItoaIsDigits(if a < 0 then -a else a);
    ItoaIsDigits(if b < 0 then -b else b);
    DigitsOfItoa(if a < 0 then -a else a);
    DigitsOfItoa(if b < 0 then -b else b);
    assert s[0] in s && t[0] in t;
    if a < 0 && b < 0 {
      assert Decimal(a)[1..] == s && Decimal(b)[1..] == t;
    }
  }
}
