/**
 * The `-r WxH` option: the argument is split at its first 'x' with
 * `std::string::find` and `substr`, and each side goes through `atoi`.
 *
 * `find` returns `npos`, the largest `size_t`, when there is no 'x'; then
 * `substr(0, npos)` is the whole string and `npos + 1` wraps around to 0, so
 * `substr(npos + 1)` is the whole string as well.
 */
module Resolution {

  /** `std::string::npos` with a 64-bit `size_t`. */
  const NPOS: nat := 0xFFFF_FFFF_FFFF_FFFF

  /** Arithmetic on `size_t` is modulo this. */
  const SIZE_MODULUS: nat := 0x1_0000_0000_0000_0000

  /** `s.find(ch, i)`: the first index at or after `i` holding `ch`, or `npos`. */
  function FindFrom(s: string, ch: char, i: nat): (r: nat)
    requires i <= |s| < NPOS
    ensures r == NPOS ==> ch !in s[i..]
    ensures r != NPOS ==> i <= r < |s| && s[r] == ch && ch !in s[i..r]
    decreases |s| - i
  {
    if i == |s| then NPOS
    else if s[i] == ch then i
    else FindFrom(s, ch, i + 1)
  }

  /** `s.find(ch)`. */
  function Find(s: string, ch: char): (r: nat)
    requires |s| < NPOS
    ensures r == NPOS <==> ch !in s
    ensures r != NPOS ==> r < |s| && s[r] == ch && ch !in s[..r]
  {
    FindFrom(s, ch, 0)
  }

  function Min(a: int, b: int): (r: int)
    ensures r <= a && r <= b && (r == a || r == b)
  {
    if a < b then a else b
  }

  /** `s.substr(pos, count)`: at most `count` characters from `pos` on. */
  function Substr(s: string, pos: nat, count: nat): (r: string)
    requires pos <= |s|
    ensures |r| == Min(count, |s| - pos)
    ensures forall k | 0 <= k < |r| :: r[k] == s[pos + k]
    ensures count >= |s| - pos ==> r == s[pos..]
  {
    s[pos..pos + Min(count, |s| - pos)]
  }

  /** The characters `isspace` accepts in the C locale. */
  predicate IsSpace(c: char)
  {
    c == ' ' || c == '\t' || c == '\n' || c == '\U{B}' || c == '\U{C}' || c == '\r'
  }

  predicate IsDigit(c: char)
  {
    '0' <= c <= '9'
  }

  predicate AllDigits(d: string)
  {
    forall k | 0 <= k < |d| :: IsDigit(d[k])
  }

  /** What is left of `s` once its leading white space is skipped. */
  function SkipSpace(s: string): (r: string)
    ensures |r| <= |s| && r == s[|s| - |r|..]
    ensures |r| == 0 || !IsSpace(r[0])
  {
    if |s| > 0 && IsSpace(s[0]) then SkipSpace(s[1..]) else s
  }

  /** The longest prefix of `s` made of decimal digits. */
  function DigitRun(s: string): (d: string)
    ensures AllDigits(d)
  {
    if |s| > 0 && IsDigit(s[0]) then [s[0]] + DigitRun(s[1..]) else []
  }

  /** The number a string of decimal digits denotes. */
  function DigitsValue(d: string): (r: nat)
    requires AllDigits(d)
  {
    if |d| == 0 then 0 else DigitsValue(d[..|d| - 1]) * 10 + (d[|d| - 1] as int - '0' as int)
  }

  /**
   * `atoi`: leading white space is skipped, an optional sign is read, and the
   * digits that follow are converted; a string with no digits there gives 0.
   */
  function Atoi(s: string): (r: int)
    ensures var t := SkipSpace(s);
      && (r < 0 ==> |t| > 0 && t[0] == '-')
      && (|t| == 0 || !(t[0] == '-' || t[0] == '+' || IsDigit(t[0])) ==> r == 0)
  {
    var t := SkipSpace(s);
    if |t| > 0 && t[0] == '-' then -(DigitsValue(DigitRun(t[1..])) as int)
    else if |t| > 0 && t[0] == '+' then DigitsValue(DigitRun(t[1..]))
    else DigitsValue(DigitRun(t))
  }

  /**
   * The width and height the `-r` option sets: `atoi` of the text before
   * the first 'x' and of the text after it; with no 'x', `npos` and the
   * wrapped `npos + 1 == 0` make both `atoi` of the whole argument.
   */
  function SplitResolution(arg: string): (r: (int, int))
    requires |arg| < NPOS
    ensures 'x' !in arg ==> r == (Atoi(arg), Atoi(arg))
    ensures 'x' in arg ==> var k := Find(arg, 'x'); r == (Atoi(arg[..k]), Atoi(arg[k + 1..]))
  {
    var index := Find(arg, 'x');
    var next := (index + 1) % SIZE_MODULUS;
    assert index == NPOS ==> next == 0 && Substr(arg, 0, index) == arg && Substr(arg, next, NPOS) == arg;
    assert index != NPOS ==> next == index + 1 && Substr(arg, 0, index) == arg[..index] && Substr(arg, next, NPOS) == arg[index + 1..];
    (Atoi(Substr(arg, 0, index)), Atoi(Substr(arg, next, NPOS)))
  }

  /** The decimal spelling of `n`, without sign or leading zeros. */
  function Decimal(n: nat): (r: string)
    ensures |r| >= 1 && AllDigits(r)
  {
    if n < 10 then [('0' as int + n) as char]
    else Decimal(n / 10) + [('0' as int + n % 10) as char]
  }

  lemma NoXInDigits(d: string)
    requires AllDigits(d)
    ensures 'x' !in d
  {
  }

  /** The digit run of a digit string followed by a non-digit is that digit string. */
  lemma {:induction false} DigitRunOfDigits(d: string, rest: string)
    requires AllDigits(d)
    requires rest == [] || !IsDigit(rest[0])
    ensures DigitRun(d + rest) == d
  {
    if |d| > 0 {
      assert (d + rest)[1..] == d[1..] + rest;
      DigitRunOfDigits(d[1..], rest);
    } else {
      assert d + rest == rest;
    }
  }

  /** Reading back the decimal spelling of `n` gives `n`. */
  lemma {:induction false} DecimalValue(n: nat)
    ensures DigitsValue(Decimal(n)) == n
  {
    if n >= 10 {
      var d := Decimal(n);
      assert d[..|d| - 1] == Decimal(n / 10);
      DecimalValue(n / 10);
    }
  }

  /** `atoi` of a decimal number, followed by anything that is not a digit, is that number. */
  lemma AtoiDecimal(n: nat, rest: string)
    requires rest == [] || !IsDigit(rest[0])
    ensures Atoi(Decimal(n) + rest) == n
  {
    var s := Decimal(n) + rest;
    assert s[0] == Decimal(n)[0];
    assert SkipSpace(s) == s;
    DigitRunOfDigits(Decimal(n), rest);
    DecimalValue(n);
  }

  /**
   * The split happens at the first 'x': the width is `atoi` of what comes
   * before it and the height `atoi` of everything after it.
   */
  lemma SplitAtFirstX(arg: string, k: nat)
    requires k < |arg| < NPOS
    requires arg[k] == 'x' && 'x' !in arg[..k]
    ensures SplitResolution(arg) == (Atoi(arg[..k]), Atoi(arg[k + 1..]))
  {
    var r := Find(arg, 'x');
    assert r == k;
    assert (r + 1) % SIZE_MODULUS == k + 1;
    assert Substr(arg, 0, r) == arg[..k];
    assert Substr(arg, k + 1, NPOS) == arg[k + 1..];
  }

  /** `-r WxH` with W and H written in decimal sets exactly width W and height H. */
  lemma SplitRoundTrip(width: nat, height: nat)
    requires |Decimal(width)| + 1 + |Decimal(height)| < NPOS
    ensures SplitResolution(Decimal(width) + "x" + Decimal(height)) == (width, height)
  {
    var a, b := Decimal(width), Decimal(height);
    var arg := a + "x" + b;
    assert arg[..|a|] == a && a + [] == a;
    assert arg[|a| + 1..] == b && b + [] == b;
    NoXInDigits(a);
    AtoiDecimal(width, []);
    AtoiDecimal(height, []);
    SplitAtFirstX(arg, |a|);
  }

  /** `-r N` with a single decimal number gives a square N x N surface. */
  lemma SplitSingleNumber(n: nat)
    requires |Decimal(n)| < NPOS
    ensures SplitResolution(Decimal(n)) == (n, n)
  {
    var d := Decimal(n);
    NoXInDigits(d);
    AtoiDecimal(n, []);
    assert d + [] == d;
  }
}
