/** Integers as decimal text: `int_to_str`, `atoi` and `ip_to_str`. */
module Numbers {
  import opened Strings

  const INT_LIMIT := 0x8000_0000
  const UINT_LIMIT := 0x1_0000_0000

  function Digit(n: nat): (c: char)
    requires n < 10
    ensures '0' <= c <= '9' && c as int - '0' as int == n
  {
    (n + '0' as int) as char
  }

  predicate IsDigit(c: char) { '0' <= c <= '9' }

  /** The digits in the order in which division produces them; none for zero. */
  function DigitsReversed(n: nat): (r: string)
    ensures forall i :: 0 <= i < |r| ==> IsDigit(r[i])
  {
    if n == 0 then "" else [Digit(n % 10)] + DigitsReversed(n / 10)
  }

  /** Canonical decimal: no leading zero but in "0" itself, and a sign for negative numbers. */
  function Decimal(n: int): (r: string)
    ensures r != ""
    decreases n < 0, if n < 0 then -n else n
  {
    if n < 0 then "-" + Decimal(-n)
    else if n < 10 then [Digit(n)]
    else Decimal(n / 10) + [Digit(n % 10)]
  }

  function Reverse(s: string): (r: string)
    ensures |r| == |s| && forall i :: 0 <= i < |s| ==> r[i] == s[|s| - 1 - i]
  {
    seq(|s|, i requires 0 <= i < |s| => s[|s| - 1 - i])
  }

  lemma ReverseCons(c: char, s: string)
    ensures Reverse([c] + s) == Reverse(s) + [c]
    ensures Reverse(s + [c]) == [c] + Reverse(s)
  {
  }

  lemma {:induction false} DecimalIsReversed(n: nat)
    requires n > 0
    ensures Decimal(n) == Reverse(DigitsReversed(n))
    decreases n
  {
    ReverseCons(Digit(n % 10), DigitsReversed(n / 10));
    if n < 10 {
      assert DigitsReversed(0) == "" && Reverse("") == "";
    } else {
      DecimalIsReversed(n / 10);
    }
  }

  /** The value of the leading digits, as `atoi` reads them. */
  function ValueFrom(s: string, i: nat, res: nat): nat
    requires i <= |s|
    decreases |s| - i
  {
    if i < |s| && IsDigit(s[i]) then ValueFrom(s, i + 1, res * 10 + (s[i] as int - '0' as int)) else res
  }

  function Value(s: string): nat { ValueFrom(s, 0, 0) }

  lemma {:induction false} ValueSnoc(s: string, c: char, i: nat, res: nat)
    requires i <= |s| && IsDigit(c) && forall j :: i <= j < |s| ==> IsDigit(s[j])
    ensures ValueFrom(s + [c], i, res) == ValueFrom(s, i, res) * 10 + (c as int - '0' as int)
    decreases |s| - i
  {
    if i < |s| {
      ValueSnoc(s, c, i + 1, res * 10 + (s[i] as int - '0' as int));
    }
  }

  lemma {:induction false} DecimalDigits(n: nat)
    ensures Decimal(n) != "" && forall j :: 0 <= j < |Decimal(n)| ==> IsDigit(Decimal(n)[j])
    decreases n
  {
    if n >= 10 {
      DecimalDigits(n / 10);
    }
  }

  /** `atoi` reads back every non-negative number that was written. */
  lemma {:induction false} ValueOfDecimal(n: nat)
    ensures Value(Decimal(n)) == n
    decreases n
  {
    if n >= 10 {
      DecimalDigits(n / 10);
      ValueSnoc(Decimal(n / 10), Digit(n % 10), 0, 0);
      ValueOfDecimal(n / 10);
    } else {
      assert ValueFrom([Digit(n)], 1, n) == n;
    }
  }

  function Power10(k: nat): nat { if k == 0 then 1 else 10 * Power10(k - 1) }

  lemma {:induction false} DecimalLength(n: nat, k: nat)
    requires k > 0 && n < Power10(k)
    ensures |Decimal(n)| <= k
    decreases k
  {
    if n >= 10 {
      assert k > 1 by {
        assert Power10(1) == 10 * Power10(0);
      }
      DecimalLength(n / 10, k - 1);
    }
  }

  lemma TenDigits()
    ensures Power10(10) == 10_000_000_000 && Power10(3) == 1000
  {
    assert Power10(1) == 10 && Power10(2) == 100 && Power10(3) == 1000;
    assert Power10(4) == 10_000 && Power10(5) == 100_000 && Power10(6) == 1_000_000;
    assert Power10(7) == 10_000_000 && Power10(8) == 100_000_000 && Power10(9) == 1_000_000_000;
  }

  /** The text of an int never takes more than eleven characters. */
  lemma IntTextFits(n: int)
    requires -INT_LIMIT < n < INT_LIMIT
    ensures |Decimal(n)| <= 11
  {
    TenDigits();
    DecimalLength(if n < 0 then -n else n, 10);
  }

  /** Two ints with the same text are equal, the sign included. */
  lemma DecimalInjective(m: int, n: int)
    requires Decimal(m) == Decimal(n)
    ensures m == n
  {
    var a, b := if m < 0 then -m else m, if n < 0 then -n else n;
    DecimalDigits(a);
    DecimalDigits(b);
    ValueOfDecimal(a);
    ValueOfDecimal(b);
    assert m < 0 ==> Decimal(m)[1..] == Decimal(a);
    assert n < 0 ==> Decimal(n)[1..] == Decimal(b);
    assert Decimal(m)[0] == '-' <==> m < 0;
    assert Decimal(n)[0] == '-' <==> n < 0;
  }

  /** What the text of a number is: a sign for negative ones, then its digits in base ten, without leading zeros. */
  lemma {:induction false} DecimalIs(n: int)
    requires n >= 0
    ensures n > 0 ==> Decimal(-n) == "-" + Decimal(n)
    ensures Decimal(n)[|Decimal(n)| - 1] as int - '0' as int == n % 10
    ensures n < 10 ==> |Decimal(n)| == 1
    ensures n >= 10 ==> Decimal(n)[..|Decimal(n)| - 1] == Decimal(n / 10)
    ensures n > 0 ==> Decimal(n)[0] != '0'
    decreases n
  {
    if n >= 10 {
      DecimalIs(n / 10);
      DecimalDigits(n / 10);
    }
  }

  lemma {:induction false} ValueStops(s: string, rest: string, i: nat, res: nat)
    requires i <= |s| && (forall j :: i <= j < |s| ==> IsDigit(s[j])) && (rest == "" || !IsDigit(rest[0]))
    ensures ValueFrom(s + rest, i, res) == ValueFrom(s, i, res)
    decreases |s| - i
  {
    if i < |s| {
      ValueStops(s, rest, i + 1, res * 10 + (s[i] as int - '0' as int));
    }
  }

  /** `atoi` reads a number up to the first character that is no digit; without digits it is zero. */
  lemma ValueOfText(n: nat, rest: string)
    requires rest == "" || !('0' <= rest[0] <= '9')
    ensures Value(Decimal(n) + rest) == n && Value(rest) == 0
  {
    DecimalDigits(n);
    ValueStops(Decimal(n), rest, 0, 0);
    ValueOfDecimal(n);
  }

  // ---------- int_to_str ----------

  /** A terminated text at an offset of a buffer. */
  ghost predicate TextAt(buf: seq<char>, at: nat, text: string) {
    at + |text| < |buf| && buf[at..at + |text|] == text && buf[at + |text|] == '\0'
  }

  lemma DigitStep(done: string, rest: nat)
    requires rest > 0
    ensures done + DigitsReversed(rest) == (done + [Digit(rest % 10)]) + DigitsReversed(rest / 10)
  {
  }

  /** The digits of a positive number, last one first. */
  method WriteDigits(num: nat, str: array<char>, at: nat) returns (i: nat)
    requires at + |DigitsReversed(num)| < str.Length
    modifies str
    ensures i == |DigitsReversed(num)| && str[at..at + i] == DigitsReversed(num)
    ensures forall j :: 0 <= j < str.Length && !(at <= j < at + i) ==> str[j] == old(str[j])
  {
    i := 0;
    var rest := num;
    ghost var done: string := "";
    while rest != 0
      invariant i == |done| && done + DigitsReversed(rest) == DigitsReversed(num)
      invariant at + i <= str.Length && str[at..at + i] == done
      invariant forall j :: 0 <= j < str.Length && !(at <= j < at + i) ==> str[j] == old(str[j])
      decreases rest
    {
      DigitStep(done, rest);
      str[at + i] := Digit(rest % 10);
      assert str[at..at + i] == done;
      done := done + [Digit(rest % 10)];
      rest := rest / 10;
      i := i + 1;
    }
  }

  /** The digits, last one first, and the sign after them. */
  method WriteReversed(num: int, str: array<char>, at: nat) returns (i: nat)
    requires -INT_LIMIT < num < INT_LIMIT && at + |Decimal(num)| < str.Length
    modifies str
    ensures i == |Decimal(num)| && str[at..at + i] == Reverse(Decimal(num))
    ensures forall j :: 0 <= j < str.Length && !(at <= j < at + i) ==> str[j] == old(str[j])
  {
    DecimalShape(num);
    if num == 0 {
      str[at] := '0';
      return 1;
    }
    i := WriteDigits(if num < 0 then -num else num, str, at);
    if num < 0 {
      ghost var digits := str[at..at + i];
      str[at + i] := '-';
      assert str[at..at + i] == digits;
      i := i + 1;
    }
  }

  /** The reversed text is the reversed digits, then the sign. */
  lemma DecimalShape(num: int)
    ensures var size := if num < 0 then -num else num;
            Reverse(Decimal(num)) ==
            (if num == 0 then "0" else DigitsReversed(size)) + if num < 0 then "-" else ""
  {
    var size := if num < 0 then -num else num;
    if size > 0 {
      DecimalIsReversed(size);
      assert Reverse(Reverse(DigitsReversed(size))) == DigitsReversed(size);
      ReverseCons('-', Decimal(size));
      assert DigitsReversed(size) + "" == DigitsReversed(size);
    } else {
      assert Reverse("0") == "0" + "";
    }
  }

  method ReverseInPlace(str: array<char>, at: nat, n: nat)
    requires at + n <= str.Length
    modifies str
    ensures str[at..at + n] == Reverse(old(str[at..at + n]))
    ensures forall j :: 0 <= j < str.Length && !(at <= j < at + n) ==> str[j] == old(str[j])
  {
    var start, end := 0, n - 1;
    ghost var mirror := 2 * at + n - 1;
    while start < end
      invariant 0 <= start && start + end == n - 1 && -1 <= end
      invariant forall i :: at <= i < at + n && !(at + start <= i <= at + end) ==> str[i] == old(str[mirror - i])
      invariant forall i :: at + start <= i <= at + end ==> str[i] == old(str[i])
      invariant forall j :: 0 <= j < str.Length && !(at <= j < at + n) ==> str[j] == old(str[j])
    {
      var tmp := str[at + start];
      str[at + start] := str[at + end];
      str[at + end] := tmp;
      start := start + 1;
      end := end - 1;
    }
    Mirrored(str[..], old(str[..]), at, n);
    assert str[..][at..at + n] == str[at..at + n];
  }

  lemma Mirrored(now: seq<char>, was: seq<char>, at: nat, n: nat)
    requires |now| == |was| && at + n <= |was|
    requires forall i :: at <= i < at + n ==> now[i] == was[2 * at + n - 1 - i]
    ensures now[at..at + n] == Reverse(was[at..at + n])
  {
  }

  method IntToStr(num: int, str: array<char>, at: nat) returns (length: nat)
    requires -INT_LIMIT < num < INT_LIMIT && at + |Decimal(num)| < str.Length
    modifies str
    ensures length == |Decimal(num)| && TextAt(str[..], at, Decimal(num))
    ensures forall j :: 0 <= j < str.Length && !(at <= j <= at + length) ==> str[j] == old(str[j])
  {
    length := WriteReversed(num, str, at);
    str[at + length] := '\0';
    assert str[at..at + length] == Reverse(Decimal(num));
    ReverseInPlace(str, at, length);
    assert Reverse(Reverse(Decimal(num))) == Decimal(num);
    assert str[..][at..at + length] == str[at..at + length];
  }

  method Atoi(str: string) returns (res: nat)
    requires Value(str) < INT_LIMIT
    ensures res == Value(str)
  {
    res := 0;
    var i := 0;
    while i < |str| && IsDigit(str[i])
      invariant i <= |str| && ValueFrom(str, i, res) == Value(str)
    {
      res := res * 10 + (str[i] as int - '0' as int);
      i := i + 1;
    }
  }

  // ---------- ip_to_str ----------

  function Octet(ip: nat, k: nat): nat
    requires k < 4
  {
    (if k == 0 then ip / 0x100_0000 else if k == 1 then ip / 0x1_0000 else if k == 2 then ip / 0x100 else ip) % 0x100
  }

  function OctetTexts(ip: nat): seq<string> {
    [Decimal(Octet(ip, 0)), Decimal(Octet(ip, 1)), Decimal(Octet(ip, 2)), Decimal(Octet(ip, 3))]
  }

  function IpText(ip: nat): string { Join(OctetTexts(ip), '.') }

  /** The address that a dotted text stands for. */
  function IpValue(text: string): nat
    requires |Split(text, '.')| == 4
  {
    var parts := Split(text, '.');
    Value(parts[0]) * 0x100_0000 + Value(parts[1]) * 0x1_0000 + Value(parts[2]) * 0x100 + Value(parts[3])
  }

  lemma JoinFour(a: string, b: string, c: string, d: string)
    ensures Join([a, b, c, d], '.') == a + "." + b + "." + c + "." + d
  {
    assert [a, b, c, d][1..] == [b, c, d] && [b, c, d][1..] == [c, d] && [c, d][1..] == [d];
    assert Join([c, d], '.') == c + "." + d;
    assert Join([b, c, d], '.') == b + "." + (c + "." + d);
  }

  lemma OctetText(ip: nat, k: nat)
    requires k < 4
    ensures var text := Decimal(Octet(ip, k)); '.' !in text && |text| <= 3 && Value(text) == Octet(ip, k)
  {
    TenDigits();
    DecimalDigits(Octet(ip, k));
    DecimalLength(Octet(ip, k), 3);
    ValueOfDecimal(Octet(ip, k));
  }

  lemma OctetsSum(ip: nat)
    requires ip < UINT_LIMIT
    ensures ip == Octet(ip, 0) * 0x100_0000 + Octet(ip, 1) * 0x1_0000 + Octet(ip, 2) * 0x100 + Octet(ip, 3)
  {
  }

  lemma IpParts(ip: nat)
    ensures Split(IpText(ip), '.') == OctetTexts(ip) && |IpText(ip)| <= 15
  {
    OctetText(ip, 0);
    OctetText(ip, 1);
    OctetText(ip, 2);
    OctetText(ip, 3);
    var texts := OctetTexts(ip);
    SplitJoin(texts, '.');
    JoinFour(texts[0], texts[1], texts[2], texts[3]);
  }

  /** The text is at most fifteen characters, and the address can be read back from it. */
  lemma IpRoundTrip(ip: nat)
    requires ip < UINT_LIMIT
    ensures |IpText(ip)| <= 15
    ensures |Split(IpText(ip), '.')| == 4 && IpValue(IpText(ip)) == ip
  {
    IpParts(ip);
    OctetText(ip, 0);
    OctetText(ip, 1);
    OctetText(ip, 2);
    OctetText(ip, 3);
    OctetsSum(ip);
  }

  /** The four numbers of a dotted text are the bytes of the address, the highest first. */
  lemma IpTextIs(a: nat, b: nat, c: nat, d: nat)
    requires a < 256 && b < 256 && c < 256 && d < 256
    ensures IpText(((a * 256 + b) * 256 + c) * 256 + d) ==
            Decimal(a) + "." + Decimal(b) + "." + Decimal(c) + "." + Decimal(d)
  {
    OctetsOf(a, b, c, d);
    JoinFour(Decimal(a), Decimal(b), Decimal(c), Decimal(d));
  }

  lemma OctetsOf(a: nat, b: nat, c: nat, d: nat)
    requires a < 256 && b < 256 && c < 256 && d < 256
    ensures var ip := ((a * 256 + b) * 256 + c) * 256 + d;
            Octet(ip, 0) == a && Octet(ip, 1) == b && Octet(ip, 2) == c && Octet(ip, 3) == d
  {
  }

  lemma IpTextInjective(ip: nat, other: nat)
    requires ip < UINT_LIMIT && other < UINT_LIMIT && IpText(ip) == IpText(other)
    ensures ip == other
  {
    IpRoundTrip(ip);
    IpRoundTrip(other);
  }

  /** Write the four numbers and the dots between them through a pointer that moves along. */
  method IpToStr(ip: nat, buf: array<char>)
    requires ip < UINT_LIMIT && buf.Length >= 16
    modifies buf
    ensures TextAt(buf[..], 0, IpText(ip))
  {
    IpParts(ip);
    ghost var t := OctetTexts(ip);
    JoinFour(t[0], t[1], t[2], t[3]);
    var p := WriteOctet(Octet(ip, 0), buf, 0, "", true);
    assert "" + t[0] == t[0];
    p := WriteOctet(Octet(ip, 1), buf, p, t[0] + ".", true);
    p := WriteOctet(Octet(ip, 2), buf, p, t[0] + "." + t[1] + ".", true);
    p := WriteOctet(Octet(ip, 3), buf, p, t[0] + "." + t[1] + "." + t[2] + ".", false);
  }

  /** One number after what is written already, and a dot in place of its terminator. */
  method WriteOctet(n: nat, buf: array<char>, at: nat, ghost before: string, dot: bool) returns (next: nat)
    requires n < 0x100 && at == |before| && at + 4 <= buf.Length
    requires buf[..at] == before
    modifies buf
    ensures at < next <= at + 4 && next == at + |Decimal(n)| + (if dot then 1 else 0)
    ensures if dot then buf[..next] == before + Decimal(n) + "." else TextAt(buf[..], 0, before + Decimal(n))
  {
    TenDigits();
    DecimalLength(n, 3);
    var length := IntToStr(n, buf, at);
    next := at + length;
    assert buf[..at] == before;
    assert buf[..next] == buf[..at] + buf[..][at..next];
    if dot {
      buf[next] := '.';
      next := next + 1;
      assert buf[..next] == before + Decimal(n) + ".";
    } else {
      assert buf[..][0..0 + next] == buf[..next];
    }
  }
}
