/**
 * The text protocol spoken with a Pencom relay controller
 * (pencompy/pencompy.py): board letters, the write and poll commands the
 * controller sends, and the decimal status bitmask it receives.
 */
module Wire {
  import opened Wrappers

  /** RELAYS_PER_BOARD: relays are 0-based in the program and 1-based on the wire. */
  const RelaysPerBoard: nat := 8

  /** Largest board index whose letter 'A' + b is still a character below the surrogate range. */
  const MaxBoard: nat := 0xD7FF - 65

  /** BOARD_NUM: board b is addressed by the character 'A' + b. */
  function BoardLetter(b: nat): char
    requires b <= MaxBoard
  {
    (65 + b) as char
  }

  // ---------------------------------------------------------------- decimals

  predicate IsDigit(c: char) { '0' <= c <= '9' }

  predicate AllDigits(s: string) { forall i :: 0 <= i < |s| ==> IsDigit(s[i]) }

  function DigitChar(d: nat): char
    requires d < 10
  {
    (48 + d) as char
  }

  function DigitValue(c: char): nat
    requires IsDigit(c)
  {
    c as int - 48
  }

  /** The `%d` rendering of a natural number: digits only, and no leading zero. */
  function Decimal(n: nat): (s: string)
    ensures |s| > 0 && AllDigits(s)
    ensures (s[0] == '0') == (n == 0)
    decreases n
  {
    if n < 10 then [DigitChar(n)] else Decimal(n / 10) + [DigitChar(n % 10)]
  }

  /** The value of a string of decimal digits, most significant first. */
  function DigitsValue(s: string): nat
    requires AllDigits(s)
    decreases |s|
  {
    if s == [] then 0 else DigitsValue(s[..|s| - 1]) * 10 + DigitValue(s[|s| - 1])
  }

  function ParseNat(s: string): Option<nat>
  {
    if |s| > 0 && AllDigits(s) then Some(DigitsValue(s)) else None
  }

  /**
   * The lines int() accepts in this model: an optional sign followed by at
   * least one ASCII decimal digit.
   */
  predicate IsIntLiteral(s: string)
  {
    |s| > 0 &&
    forall i :: 0 <= i < |s| ==> IsDigit(s[i]) || (i == 0 && |s| > 1 && (s[0] == '-' || s[0] == '+'))
  }

  /** int(data) on a stripped status line; None is the ValueError path. */
  function ParseInt(s: string): Option<int>
  {
    if |s| > 0 && (s[0] == '-' || s[0] == '+') then
      match ParseNat(s[1..])
      case Some(n) => var v: int := n; Some(if s[0] == '-' then -v else v)
      case None => None
    else
      match ParseNat(s)
      case Some(n) => Some(n)
      case None => None
  }

  lemma {:induction false} DecimalValue(n: nat)
    ensures DigitsValue(Decimal(n)) == n
    decreases n
  {
    if n >= 10 {
      var s := Decimal(n / 10);
      var d := Decimal(n);
      assert d == s + [DigitChar(n % 10)];
      assert d[..|d| - 1] == s;
      DecimalValue(n / 10);
    }
  }

  /** int() reads back exactly the number `%d` wrote, with or without a minus sign. */
  lemma ParseIntDecimal(n: nat)
    ensures ParseInt(Decimal(n)) == Some(n)
    ensures ParseInt("-" + Decimal(n)) == Some(-(n as int))
  {
    DecimalValue(n);
    assert ("-" + Decimal(n))[1..] == Decimal(n);
  }

  /** The parser accepts exactly the signed decimal literals. */
  lemma ParseIntAccepts(s: string)
    ensures ParseInt(s).Some? <==> IsIntLiteral(s)
  {
    if |s| > 0 && (s[0] == '-' || s[0] == '+') {
      var t := s[1..];
      assert forall i :: 0 <= i < |t| ==> t[i] == s[i + 1];
    }
  }

  // ---------------------------------------------------------------- commands

  /** The two commands the program sends: `set` and the poller's status request. */
  datatype Command = SetRelay(board: nat, relay: nat, on: bool) | Poll(board: nat)

  /** `'%s%s%d' % (BOARD_NUM(board), 'H' if state else 'L', addr+1)` and `'%sR0' % BOARD_NUM(board)`. */
  function Encode(cmd: Command): string
    requires cmd.board <= MaxBoard
  {
    match cmd
    case SetRelay(b, r, on) => [BoardLetter(b), if on then 'H' else 'L'] + Decimal(r + 1)
    case Poll(b) => [BoardLetter(b), 'R', '0']
  }

  /** How the relay controller reads a command line: the inverse of Encode. */
  function Decode(line: string): Option<Command>
  {
    if |line| < 2 || line[0] < 'A' then None
    else
      var b := line[0] as int - 65;
      if line[1] == 'R' then
        if line[2..] == "0" then Some(Poll(b)) else None
      else if line[1] == 'H' || line[1] == 'L' then
        match ParseNat(line[2..])
        case Some(n) => if n >= 1 then Some(SetRelay(b, n - 1, line[1] == 'H')) else None
        case None => None
      else None
  }

  /** Every command the program sends decodes back to itself, so distinct commands never share a line. */
  lemma EncodeDecode(cmd: Command)
    requires cmd.board <= MaxBoard
    ensures Decode(Encode(cmd)) == Some(cmd)
  {
    match cmd
    case SetRelay(b, r, on) =>
      var line := Encode(cmd);
      assert line[2..] == Decimal(r + 1);
      DecimalValue(r + 1);
    case Poll(b) =>
      assert Encode(cmd)[2..] == "0";
  }

  /** A write to a valid relay is three characters, the last the wire relay number 1..8. */
  lemma SetCommandShape(b: nat, r: nat, on: bool)
    requires b <= MaxBoard && r < RelaysPerBoard
    ensures var line := Encode(SetRelay(b, r, on));
      |line| == 3 && line[0] as int == 65 + b &&
      line[1] == (if on then 'H' else 'L') &&
      '1' <= line[2] <= '8' && line[2] as int - 48 == r + 1
  {
  }

  // ---------------------------------------------------------------- status

  function Pow2(k: nat): (p: nat)
    ensures p >= 1
  {
    if k == 0 then 1 else 2 * Pow2(k - 1)
  }

  /**
   * `(bits & (1 << r)) != 0`.  Dafny's division by a positive number rounds
   * down, so this is bit r of the two's complement of bits, also for
   * negative numbers, as with Python's unbounded integers.
   */
  predicate Bit(bits: int, r: nat)
  {
    (bits / Pow2(r)) % 2 == 1
  }

  /** The eight relay flags a status word carries, relay r in bit r. */
  function StatusBits(bits: int): seq<bool>
  {
    seq(RelaysPerBoard, r requires 0 <= r => Bit(bits, r))
  }

  /** The hardware's side: the status word for a sequence of relay flags, relay 0 in the lowest bit. */
  function MaskOf(v: seq<bool>): (m: nat)
    ensures m < Pow2(|v|)
  {
    if v == [] then 0 else (if v[0] then 1 else 0) + 2 * MaskOf(v[1..])
  }

  lemma {:induction false} MulAtLeast(d: int, t: int)
    requires d > 0 && t >= 1
    ensures d * t >= d
    decreases t
  {
    if t > 1 {
      assert d * t == d * (t - 1) + d;
      MulAtLeast(d, t - 1);
    }
  }

  /** Division by a positive number is determined by the quotient-remainder decomposition. */
  lemma DivUnique(n: int, d: int, q: int, s: int)
    requires d > 0 && 0 <= s < d && n == d * q + s
    ensures n / d == q
  {
    var q', s' := n / d, n % d;
    assert n == d * q' + s';
    if q' > q {
      assert d * (q' - q) == s - s';
      MulAtLeast(d, q' - q);
    } else if q' < q {
      assert d * (q - q') == s' - s;
      MulAtLeast(d, q - q');
    }
  }

  lemma DivHalf(n: int, d: int)
    requires d > 0
    ensures n / (2 * d) == (n / 2) / d
  {
    var q, s := (n / 2) / d, (n / 2) % d;
    assert n == (2 * d) * q + (2 * s + n % 2);
    DivUnique(n, 2 * d, q, 2 * s + n % 2);
  }

  /** Bit r + 1 of a number is bit r of its half. */
  lemma BitShift(n: int, r: nat)
    ensures Bit(n, r + 1) == Bit(n / 2, r)
  {
    DivHalf(n, Pow2(r));
  }

  lemma {:induction false} MaskOfBit(v: seq<bool>, r: nat)
    requires r < |v|
    ensures Bit(MaskOf(v), r) == v[r]
    decreases r
  {
    var rest := MaskOf(v[1..]);
    assert MaskOf(v) / 2 == rest;
    if r > 0 {
      BitShift(MaskOf(v), r - 1);
      MaskOfBit(v[1..], r - 1);
    }
  }

  /** Status round trip: the decimal of any eight relay flags decodes back to those flags. */
  lemma StatusRoundTrip(v: seq<bool>)
    requires |v| == RelaysPerBoard
    ensures MaskOf(v) < 256
    ensures ParseInt(Decimal(MaskOf(v))) == Some(MaskOf(v))
    ensures StatusBits(MaskOf(v)) == v
  {
    ParseIntDecimal(MaskOf(v));
    forall r | 0 <= r < RelaysPerBoard
      ensures StatusBits(MaskOf(v))[r] == v[r]
    {
      MaskOfBit(v, r);
    }
  }

  /** Bits at position 8 and above never reach a relay. */
  lemma StatusIgnoresHighBits(bits: int)
    ensures StatusBits(bits) == StatusBits(bits % 256)
  {
    forall r | 0 <= r < RelaysPerBoard
      ensures Bit(bits, r) == Bit(bits % 256, r)
    {
      BitBelow(bits, r);
    }
  }

  lemma BitBelow(n: int, r: nat)
    requires r < 8
    ensures Bit(n, r) == Bit(n % 256, r)
  {
    var k := Pow2(7 - r);
    assert Pow2(r) * (2 * k) == 256 by {
      Pow2Add(r, 8 - r);
      assert Pow2(8 - r) == 2 * k;
      assert Pow2(8) == 256;
    }
    ParityBelow(n, Pow2(r), k);
  }

  /** For a divisor p of 256 with an even cofactor, bit 0 of n / p only depends on n % 256. */
  lemma ParityBelow(n: int, p: int, k: int)
    requires p > 0 && k > 0 && p * (2 * k) == 256
    ensures (n / p) % 2 == ((n % 256) / p) % 2
  {
    var q, m := n / 256, n % 256;
    var a, b := m / p, m % p;
    var h := k * q;
    assert m == p * a + b;
    Regroup(p, k, q, a);
    DivUnique(n, p, 2 * h + a, b);
    EvenShift(h, a);
  }

  lemma Regroup(p: int, k: int, q: int, a: int)
    requires p * (2 * k) == 256
    ensures p * (2 * (k * q) + a) == 256 * q + p * a
  {
    assert p * (2 * (k * q)) == (p * (2 * k)) * q;
  }

  lemma EvenShift(h: int, a: int)
    ensures (2 * h + a) % 2 == a % 2
  {
  }

  /** Only bit 0 of 1 is set. */
  lemma OneBelowPow2(r: nat)
    requires r >= 1
    ensures 1 / Pow2(r) == 0
  {
    assert Pow2(r) == 2 * Pow2(r - 1);
    DivUnique(1, Pow2(r), 0, 1);
  }

  lemma {:induction false} Pow2Add(a: nat, b: nat)
    ensures Pow2(a) * Pow2(b) == Pow2(a + b)
    decreases a
  {
    if a > 0 {
      Pow2Add(a - 1, b);
    }
  }

  /** The status line "7" turns relays 0-2 On and relays 3-7 Off. */
  lemma SevenExample()
    ensures ParseInt("7") == Some(7)
    ensures StatusBits(7) == [true, true, true, false, false, false, false, false]
  {
    assert Bit(7, 0) && Bit(7, 1) && Bit(7, 2);
    assert !Bit(7, 3) && !Bit(7, 4) && !Bit(7, 5) && !Bit(7, 6) && !Bit(7, 7);
  }

  /** A negative status word sets every bit its two's complement sets: "-1" turns every relay On. */
  lemma MinusOneExample()
    ensures ParseInt("-1") == Some(-1)
    ensures StatusBits(-1) == [true, true, true, true, true, true, true, true]
  {
    assert Bit(-1, 0) && Bit(-1, 1) && Bit(-1, 2) && Bit(-1, 3);
    assert Bit(-1, 4) && Bit(-1, 5) && Bit(-1, 6) && Bit(-1, 7);
  }
}
