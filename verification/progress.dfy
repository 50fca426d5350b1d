/** The fixed-width text progress bar built by `progressString` in modbus.py.
    The result is `name + ": [" + hashes + spaces + "]" + percent + "%" + end`,
    with `width * percent // 100` hashes followed by `width - left` spaces. */
module Progress {

  /** Python's `c * n` for a one-character string `c`: empty when `n <= 0`. */
  function Repeat(c: char, n: int): (r: string)
    ensures |r| == if n <= 0 then 0 else n
    ensures forall k :: 0 <= k < |r| ==> r[k] == c
    decreases n
  {
    if n <= 0 then "" else Repeat(c, n - 1) + [c]
  }

  /** Number of characters `c * n` produces. */
  function Clamp(n: int): nat
  {
    if n <= 0 then 0 else n
  }

  /** `left = width * percent // 100`. Python's `//` floors; with the positive
      divisor 100 that is exactly Dafny's Euclidean `/`, for negative products too. */
  function Fill(percent: int, width: int): int
  {
    width * percent / 100
  }

  /** The text between the brackets: `"#" * left + " " * (width - left)`. */
  function Bar(percent: int, width: int): (b: string)
    ensures |b| == Clamp(Fill(percent, width)) + Clamp(width - Fill(percent, width))
    ensures forall k :: 0 <= k < |b| ==> (b[k] == '#' <==> k < Fill(percent, width))
    ensures forall k :: 0 <= k < |b| ==> b[k] == '#' || b[k] == ' '
  {
    Repeat('#', Fill(percent, width)) + Repeat(' ', width - Fill(percent, width))
  }

  /** For a percentage in 0..100 and a non-negative width the bar is exactly
      `width` characters, of which the first `Fill` are hashes. */
  lemma BarWidth(percent: int, width: int)
    requires 0 <= percent <= 100 && 0 <= width
    ensures 0 <= Fill(percent, width) <= width
    ensures |Bar(percent, width)| == width
  {
    assert 0 <= width * percent <= width * 100 by {
      MulBounds(width, percent, 100);
    }
  }

  /** `0 <= a * b <= a * c` for `0 <= b <= c` and `a >= 0`. */
  lemma {:induction false} MulBounds(a: int, b: int, c: int)
    requires 0 <= a && 0 <= b <= c
    ensures 0 <= a * b <= a * c
    decreases a
  {
    if a > 0 {
      MulBounds(a - 1, b, c);
      assert a * b == (a - 1) * b + b;
      assert a * c == (a - 1) * c + c;
    }
  }

  predicate IsDigit(c: char)
  {
    '0' <= c <= '9'
  }

  function DigitChar(d: nat): (c: char)
    requires d < 10
    ensures IsDigit(c)
  {
    "0123456789"[d]
  }

  function DigitValue(c: char): nat
  {
    if IsDigit(c) then (c as int) - ('0' as int) else 0
  }

  /** Decimal digits of a natural number, most significant first. */
  function NatToString(n: nat): (s: string)
    ensures |s| >= 1
    ensures forall k :: 0 <= k < |s| ==> IsDigit(s[k])
    ensures |s| > 1 ==> s[0] != '0'
  {
    if n < 10 then [DigitChar(n)] else NatToString(n / 10) + [DigitChar(n % 10)]
  }

  /** `str(n)` and `f"{n:.0f}"` for an integer `n`: an optional minus sign and the digits. */
  function IntToString(n: int): (s: string)
    ensures |s| >= 1
    ensures s[0] == '-' <==> n < 0
  {
    if n < 0 then "-" + NatToString(-n) else NatToString(n)
  }

  /** Reads a string of decimal digits back as a number. */
  function ParseNat(s: string): nat
  {
    if s == [] then 0 else ParseNat(s[..|s| - 1]) * 10 + DigitValue(s[|s| - 1])
  }

  function ParseInt(s: string): int
  {
    if |s| > 0 && s[0] == '-' then -(ParseNat(s[1..]) as int) else ParseNat(s)
  }

  lemma {:induction false} NatToStringRoundTrip(n: nat)
    ensures ParseNat(NatToString(n)) == n
  {
    var s := NatToString(n);
    if n < 10 {
      assert s[..0] == [];
    } else {
      assert s[..|s| - 1] == NatToString(n / 10);
      NatToStringRoundTrip(n / 10);
    }
  }

  /** The percentage printed in the progress text reads back as the same number. */
  lemma IntToStringRoundTrip(n: int)
    ensures ParseInt(IntToString(n)) == n
  {
    if n < 0 {
      NatToStringRoundTrip(-n);
      assert IntToString(n)[1..] == NatToString(-n);
    } else {
      NatToStringRoundTrip(n);
    }
  }

  /** modbus.py `progressString(percent, width, name, end)`. */
  function ProgressString(percent: int, width: int, name: string, end: string): (r: string)
    ensures |r| >= |name| + |end| + 6
    ensures r[..|name| + 3] == name + ": ["
    ensures r[|r| - 1 - |end| ..] == "%" + end
  {
    name + ": " + "[" + Bar(percent, width) + "]" + IntToString(percent) + "%" + end
  }

  /** Layout of the progress text for a percentage in 0..100: the label, `": ["`,
      exactly `width` bar characters (the first `width * percent // 100` of them
      hashes, the rest spaces), `"]"`, the percentage in decimal, `"%"` and `end`. */
  lemma ProgressStringLayout(percent: int, width: int, name: string, end: string)
    requires 0 <= percent <= 100 && 0 <= width
    ensures var r := ProgressString(percent, width, name, end);
            var open := |name| + 3;
            var close := open + width;
            && close + 2 + |end| <= |r|
            && r[..open] == name + ": ["
            && (forall k :: open <= k < close ==> r[k] == '#' || r[k] == ' ')
            && (forall k :: open <= k < close ==> (r[k] == '#' <==> k < open + width * percent / 100))
            && r[close] == ']'
            && r[close + 1 .. |r| - 1 - |end|] == IntToString(percent)
            && ParseInt(r[close + 1 .. |r| - 1 - |end|]) == percent
            && r[|r| - 1 - |end| ..] == "%" + end
  {
    var r := ProgressString(percent, width, name, end);
    var b := Bar(percent, width);
    var p := IntToString(percent);
    BarWidth(percent, width);
    IntToStringRoundTrip(percent);
    var open := |name| + 3;
    var close := open + width;
    assert r == (name + ": [") + b + "]" + p + ("%" + end);
    assert forall k :: open <= k < close ==> r[k] == b[k - open];
    assert r[close + 1 .. |r| - 1 - |end|] == p;
  }

  /** The message `read` queues before contacting a meter, for the percentage it
      actually passes (always 0): a label and an empty 40-character bar. */
  lemma ReadingProgressIsEmptyBar(contacted: nat, numMeters: nat)
    requires contacted < numMeters
    ensures ProgressString(contacted / numMeters, 40, "Reading", "") == "Reading: [" + Repeat(' ', 40) + "]0%"
  {
    assert contacted / numMeters == 0;
    assert Fill(0, 40) == 0;
    assert Repeat('#', 0) == "";
    assert Bar(0, 40) == Repeat(' ', 40);
  }
}
