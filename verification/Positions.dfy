/** Log positions as keys: decimal numbers, padded with zeros to 20 digits, so
    that the byte order of the keys is the order of the numbers. */
module Positions {
  import opened Keys

  const WIDTH := 20
  const POSITIONS := 0x1_0000_0000_0000_0000

  function Digit(d: nat): char
    requires d < 10
  {
    '0' + d as char
  }

  function Decimal(n: nat): string {
    if n < 10 then [Digit(n)] else Decimal(n / 10) + [Digit(n % 10)]
  }

  function Zeros(n: nat): string {
    seq(n, _ => '0')
  }

  /** Fills up with zeros in front. */
  function Fill(s: string, w: nat): string
    decreases w - |s|
  {
    if |s| < w then Fill("0" + s, w) else s
  }

  /** What setw(20) and setfill('0') print. */
  function Pad20(n: nat): string {
    Fill(Decimal(n), WIDTH)
  }

  predicate IsNumber(s: string) {
    forall i :: 0 <= i < |s| ==> '0' <= s[i] <= '9'
  }

  /** What lexical_cast reads. */
  function Parse(s: string): nat
    requires IsNumber(s)
  {
    if s == "" then 0
    else
      var c := s[|s| - 1];
      10 * Parse(s[..|s| - 1]) + (c as nat - '0' as nat)
  }

  /** Exactly `w` digits. */
  function Digits(n: nat, w: nat): string {
    if w == 0 then "" else Digits(n / 10, w - 1) + [Digit(n % 10)]
  }

  function Power10(w: nat): nat {
    if w == 0 then 1 else 10 * Power10(w - 1)
  }

  lemma {:induction false} DigitsOfZero(w: nat)
    ensures Digits(0, w) == Zeros(w)
  {
    if w > 0 {
      DigitsOfZero(w - 1);
    }
  }

  lemma {:induction false} DecimalLength(n: nat, w: nat)
    requires w > 0 && n < Power10(w)
    ensures 0 < |Decimal(n)| <= w
  {
    if n >= 10 {
      assert w > 1 by {
        assert Power10(1) == 10 * Power10(0);
      }
      DecimalLength(n / 10, w - 1);
    }
  }

  /** Padding with zeros gives the digits of a fixed width. */
  lemma {:induction false} PaddedDigits(n: nat, w: nat)
    requires w > 0 && n < Power10(w)
    ensures |Decimal(n)| <= w && Zeros(w - |Decimal(n)|) + Decimal(n) == Digits(n, w)
  {
    DecimalLength(n, w);
    if n < 10 {
      DigitsOfZero(w - 1);
    } else {
      assert w > 1 by {
        assert Power10(1) == 10 * Power10(0);
      }
      PaddedDigits(n / 10, w - 1);
      var z := Zeros(w - |Decimal(n)|);
      assert z + (Decimal(n / 10) + [Digit(n % 10)]) == (z + Decimal(n / 10)) + [Digit(n % 10)];
    }
  }

  lemma PadFits(n: nat)
    requires n < POSITIONS
    ensures n < Power10(WIDTH)
  {
    assert Power10(10) == 10_000_000_000 by {
      assert Power10(5) == 100_000;
    }
    assert Power10(15) == 1_000_000_000_000_000;
  }

  lemma {:induction false} FillZeros(s: string, w: nat)
    requires |s| <= w
    ensures Fill(s, w) == Zeros(w - |s|) + s
    decreases w - |s|
  {
    if |s| < w {
      FillZeros("0" + s, w);
      assert Zeros(w - |s|) == Zeros(w - |s| - 1) + "0";
      assert (Zeros(w - |s| - 1) + "0") + s == Zeros(w - |s| - 1) + ("0" + s);
    }
  }

  lemma Pad20Digits(n: nat)
    requires n < 0x1_0000_0000_0000_0000
    ensures Pad20(n) == Digits(n, 20)
  {
    PadFits(n);
    PaddedDigits(n, WIDTH);
    FillZeros(Decimal(n), WIDTH);
  }

  // -------------------------------------------------------------------- order

  lemma {:induction false} LessAppend(a: Key, b: Key, x: char, y: char)
    requires |a| == |b|
    ensures Less(a + [x], b + [y]) <==> Less(a, b) || (a == b && x < y)
  {
    if a == "" {
      assert (a + [x])[1..] == "" && (b + [y])[1..] == "";
    } else {
      assert (a + [x])[1..] == a[1..] + [x] && (b + [y])[1..] == b[1..] + [y];
      LessAppend(a[1..], b[1..], x, y);
      assert a == [a[0]] + a[1..] && b == [b[0]] + b[1..];
    }
  }

  lemma {:induction false} DigitsOrder(n: nat, m: nat, w: nat)
    requires n < m < Power10(w)
    ensures |Digits(n, w)| == |Digits(m, w)| == w && Less(Digits(n, w), Digits(m, w))
  {
    assert w > 0;
    LessAppend(Digits(n / 10, w - 1), Digits(m / 10, w - 1), Digit(n % 10), Digit(m % 10)) by {
      DigitsLength(n / 10, w - 1);
      DigitsLength(m / 10, w - 1);
    }
    DigitsLength(n, w);
    DigitsLength(m, w);
    if n / 10 < m / 10 {
      DigitsOrder(n / 10, m / 10, w - 1);
    }
  }

  lemma {:induction false} DigitsLength(n: nat, w: nat)
    ensures |Digits(n, w)| == w && IsNumber(Digits(n, w))
  {
    if w > 0 {
      DigitsLength(n / 10, w - 1);
    }
  }

  lemma {:induction false} DigitsParse(n: nat, w: nat)
    requires n < Power10(w)
    ensures IsNumber(Digits(n, w)) && Parse(Digits(n, w)) == n
  {
    DigitsLength(n, w);
    if w > 0 {
      DigitsParse(n / 10, w - 1);
      var s := Digits(n, w);
      assert s[..|s| - 1] == Digits(n / 10, w - 1);
      assert s[|s| - 1] == Digit(n % 10);
    }
  }

  // ------------------------------------------------------------------ the keys

  /** The key under which a committed intention is listed in the tree. */
  function CommitKey(pos: nat): Key {
    Prefixed(PREFIX_COMMITTED_INTENTION, Pad20(pos))
  }

  /** Keys order as the positions do, and read back as the positions. */
  lemma PadOrder(n: nat, m: nat)
    requires n < POSITIONS && m < POSITIONS
    ensures Less(Pad20(n), Pad20(m)) <==> n < m
    ensures Less(CommitKey(n), CommitKey(m)) <==> n < m
    ensures IsNumber(Pad20(n)) && Parse(Pad20(n)) == n
    ensures CommitKey(n) == CommitKey(m) <==> n == m
  {
    Pad20Digits(n);
    Pad20Digits(m);
    PadFits(n);
    PadFits(m);
    DigitsParse(n, WIDTH);
    DigitsParse(m, WIDTH);
    if n < m {
      DigitsOrder(n, m, WIDTH);
    } else if m < n {
      DigitsOrder(m, n, WIDTH);
      LessAsymmetric(Pad20(m), Pad20(n));
    } else {
      LessIrreflexive(Pad20(n));
    }
    var p := PREFIX_COMMITTED_INTENTION + SEPARATOR;
    assert CommitKey(n) == p + Pad20(n) && CommitKey(m) == p + Pad20(m);
    LessSamePrefix(p, Pad20(n), Pad20(m));
    assert CommitKey(n)[|p|..] == Pad20(n) && CommitKey(m)[|p|..] == Pad20(m);
  }

  /** All keys of committed intentions come before all user keys. */
  lemma CommitBeforeUser(pos: nat, k: Key)
    ensures Less(CommitKey(pos), Prefixed(PREFIX_USER, k)) && CommitKey(pos) != Prefixed(PREFIX_USER, k)
  {
    assert CommitKey(pos)[0] == 'C' && Prefixed(PREFIX_USER, k)[0] == 'U';
  }
}
