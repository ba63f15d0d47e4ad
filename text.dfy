/** The pieces of Rust's `str` and integer formatting that the daemon relies on:
    `char::is_whitespace`, `trim`, `split_whitespace`, `lines`, `replace`,
    `u32::from_str` and the `Display` of integers. */
module Text {
  import opened Wrappers

  const U32_MAX: int := 0xFFFF_FFFF

  /** Rust's `u32`. */
  type U32 = x: int | 0 <= x <= U32_MAX

  // ---------------------------------------------------------------------------
  // Characters

  /** `char::is_whitespace`: the Unicode White_Space property. */
  predicate IsWhitespace(c: char) {
    var n := c as int;
    (9 <= n <= 13) || n == 32 || n == 0x85 || n == 0xA0 || n == 0x1680
    || (0x2000 <= n <= 0x200A) || n == 0x2028 || n == 0x2029 || n == 0x202F
    || n == 0x205F || n == 0x3000
  }

  predicate NoWhitespace(s: string) {
    forall i :: 0 <= i < |s| ==> !IsWhitespace(s[i])
  }

  predicate IsAsciiDigit(c: char) {
    '0' <= c <= '9'
  }

  /** A non-empty run of ASCII digits. */
  predicate IsDigits(ds: string) {
    |ds| > 0 && forall i :: 0 <= i < |ds| ==> IsAsciiDigit(ds[i])
  }

  function DigitValue(c: char): nat
    requires IsAsciiDigit(c)
  {
    c as int - '0' as int
  }

  function DigitChar(d: nat): (c: char)
    requires d < 10
    ensures IsAsciiDigit(c) && DigitValue(c) == d
  {
    ('0' as int + d) as char
  }

  // ---------------------------------------------------------------------------
  // Trimming

  function TrimStart(s: string): (r: string)
    ensures r == [] || !IsWhitespace(r[0])
    ensures |r| <= |s| && r == s[|s| - |r|..]
    decreases |s|
  {
    if s != [] && IsWhitespace(s[0]) then TrimStart(s[1..]) else s
  }

  function TrimEnd(s: string): (r: string)
    ensures r == [] || !IsWhitespace(r[|r| - 1])
    ensures r <= s
    decreases |s|
  {
    if s != [] && IsWhitespace(s[|s| - 1]) then TrimEnd(s[..|s| - 1]) else s
  }

  /** `str::trim`: drops leading and trailing white space. */
  function Trim(s: string): string {
    TrimEnd(TrimStart(s))
  }

  lemma DigitNotWhitespace(c: char)
    requires IsAsciiDigit(c)
    ensures !IsWhitespace(c)
  {
  }

  /** Text that neither starts nor ends with white space is left as it is. */
  lemma TrimKeeps(s: string)
    requires s == [] || (!IsWhitespace(s[0]) && !IsWhitespace(s[|s| - 1]))
    ensures Trim(s) == s
  {
  }

  // ---------------------------------------------------------------------------
  // Decimal numerals

  /** The `Display` of a non-negative integer: decimal digits, no sign and no
      leading zero. */
  function Decimal(n: nat): (r: string)
    ensures IsDigits(r)
    ensures r[0] == '0' ==> n == 0
    decreases n
  {
    if n < 10 then [DigitChar(n)] else Decimal(n / 10) + [DigitChar(n % 10)]
  }

  /** The `Display` of a signed integer such as an `i64`. */
  function IntString(i: int): string {
    if i < 0 then "-" + Decimal(-i) else Decimal(i)
  }

  /** The value that a run of decimal digits denotes. */
  function NumeralValue(ds: string): nat
    requires forall i :: 0 <= i < |ds| ==> IsAsciiDigit(ds[i])
  {
    if ds == [] then 0 else 10 * NumeralValue(ds[..|ds| - 1]) + DigitValue(ds[|ds| - 1])
  }

  /** The digits `u32::from_str` looks at: one leading `+` is allowed. */
  function Unsigned(s: string): string {
    if |s| > 0 && s[0] == '+' then s[1..] else s
  }

  /** `s.parse::<u32>()`: an optional `+`, then one or more ASCII digits whose
      value fits in 32 bits; anything else, the empty string included, is an
      error, which the daemon reads as `None`. */
  function ParseU32(s: string): (r: Option<U32>)
    ensures r.Some? ==> |s| > 0 && (s[0] == '+' || IsAsciiDigit(s[0]))
    ensures r.Some? ==> forall i :: 0 < i < |s| ==> IsAsciiDigit(s[i])
  {
    var ds := Unsigned(s);
    if IsDigits(ds) && NumeralValue(ds) <= U32_MAX then Some(NumeralValue(ds)) else None
  }

  /** `n` zero characters. */
  function Zeros(n: nat): (r: string)
    ensures |r| == n && forall i :: 0 <= i < n ==> r[i] == '0'
  {
    seq(n, _ => '0')
  }

  lemma {:induction false} NumeralOfDecimal(n: nat)
    ensures NumeralValue(Decimal(n)) == n
    decreases n
  {
    if n >= 10 {
      var s := Decimal(n / 10);
      assert Decimal(n) == s + [DigitChar(n % 10)];
      assert (s + [DigitChar(n % 10)])[..|s|] == s;
      NumeralOfDecimal(n / 10);
    }
  }

  /** Prefixing zeros does not change the value of a numeral. */
  lemma {:induction false} NumeralLeadingZeros(k: nat, ds: string)
    requires forall i :: 0 <= i < |ds| ==> IsAsciiDigit(ds[i])
    ensures NumeralValue(Zeros(k) + ds) == NumeralValue(ds)
    decreases |ds|
  {
    var z := Zeros(k);
    if ds == [] {
      NumeralOfZeros(k);
      assert z + ds == z;
    } else {
      var init := ds[..|ds| - 1];
      assert (z + ds)[..|z + ds| - 1] == z + init;
      NumeralLeadingZeros(k, init);
    }
  }

  lemma {:induction false} NumeralOfZeros(k: nat)
    ensures NumeralValue(Zeros(k)) == 0
  {
    if k > 0 {
      assert Zeros(k)[..k - 1] == Zeros(k - 1);
      NumeralOfZeros(k - 1);
    }
  }

  /** A numeral is at least as large as its first digit. */
  lemma {:induction false} NumeralAtLeastFirstDigit(ds: string)
    requires IsDigits(ds)
    ensures NumeralValue(ds) >= DigitValue(ds[0])
    decreases |ds|
  {
    if |ds| > 1 {
      NumeralAtLeastFirstDigit(ds[..|ds| - 1]);
    }
  }

  /** A numeral without a leading zero is the `Display` of its value. */
  lemma {:induction false} CanonicalNumeral(ds: string)
    requires IsDigits(ds) && (ds[0] != '0' || |ds| == 1)
    ensures Decimal(NumeralValue(ds)) == ds
    decreases |ds|
  {
    if |ds| > 1 {
      var init := ds[..|ds| - 1];
      var d := DigitValue(ds[|ds| - 1]);
      CanonicalNumeral(init);
      NumeralAtLeastFirstDigit(init);
      var v := NumeralValue(init);
      assert NumeralValue(ds) == 10 * v + d;
      ShiftDigit(v, d);
      assert DigitChar(d) == ds[|ds| - 1];
      assert Decimal(10 * v + d) == Decimal(v) + [DigitChar(d)];
      assert ds == init + [ds[|ds| - 1]];
    }
  }

  /** Appending the digit `d` to `v` and taking it off again. */
  lemma ShiftDigit(v: nat, d: nat)
    requires d < 10
    ensures (10 * v + d) / 10 == v && (10 * v + d) % 10 == d
  {
  }

  /** The number of redundant leading zeros of a run of digits. */
  function LeadingZeros(ds: string): nat
    requires IsDigits(ds)
    decreases |ds|
  {
    if ds[0] == '0' && |ds| > 1 then 1 + LeadingZeros(ds[1..]) else 0
  }

  /** A run of digits is its redundant zeros followed by the canonical numeral
      of its value. */
  lemma {:induction false} NumeralShape(ds: string)
    requires IsDigits(ds)
    ensures ds == Zeros(LeadingZeros(ds)) + Decimal(NumeralValue(ds))
    decreases |ds|
  {
    if ds[0] == '0' && |ds| > 1 {
      var rest := ds[1..];
      var k := LeadingZeros(rest);
      assert ds == Zeros(1) + rest by {
        assert ds == [ds[0]] + rest;
      }
      assert NumeralValue(ds) == NumeralValue(rest) by {
        NumeralLeadingZeros(1, rest);
      }
      assert Zeros(k + 1) == Zeros(1) + Zeros(k);
      calc {
        Zeros(LeadingZeros(ds)) + Decimal(NumeralValue(ds));
        Zeros(1) + (Zeros(k) + Decimal(NumeralValue(rest)));
        { NumeralShape(rest); }
        Zeros(1) + rest;
      }
    } else {
      CanonicalNumeral(ds);
      assert ds == Zeros(0) + Decimal(NumeralValue(ds));
    }
  }

  /** `u32::from_str` inverts `Display`: the text `write!` produces reads back. */
  lemma ParseDecimal(p: U32)
    ensures ParseU32(Decimal(p)) == Some(p)
  {
    NumeralOfDecimal(p);
  }

  /** A value past `u32::MAX` is refused, not wrapped. */
  lemma ParseOverflow(n: nat)
    requires n > U32_MAX
    ensures ParseU32(Decimal(n)) == None
  {
    var text := Decimal(n);
    assert text[0] != '+';
    assert Unsigned(text) == text;
    NumeralOfDecimal(n);
  }

  /** Texts `u32::from_str` refuses: a sign other than `+`, inner white space,
      nothing at all, or a sign alone. */
  lemma ParseRefuses()
    ensures ParseU32("-1") == None
    ensures ParseU32("12 34") == None
    ensures ParseU32("") == None
    ensures ParseU32("+") == None
  {
    assert "12 34"[2] == ' ';
  }

  /** A `+` and leading zeros are accepted. */
  lemma ParsePlusAndZeros()
    ensures ParseU32("+007") == Some(7)
  {
    assert Decimal(7) == "7";
    assert Zeros(2) == "00";
    assert "+007" == "+" + Zeros(2) + Decimal(7);
    ShapeParses("+", 2, 7);
  }

  /** The shape of the text `u32::from_str` accepts for the value `p`. */
  ghost predicate DenotesU32(s: string, p: U32) {
    exists sign: string, k: nat :: (sign == "" || sign == "+") && s == sign + Zeros(k) + Decimal(p)
  }

  /** Everything `u32::from_str` accepts is an optional `+`, leading zeros and
      the `Display` of the value. */
  lemma ParsedShape(s: string, p: U32)
    requires ParseU32(s) == Some(p)
    ensures DenotesU32(s, p)
  {
    var ds := Unsigned(s);
    NumeralShape(ds);
    var k := LeadingZeros(ds);
    var sign := if |s| > 0 && s[0] == '+' then "+" else "";
    assert s == sign + ds;
    assert s == sign + Zeros(k) + Decimal(p);
  }

  /** ... and every such text is accepted with that value. */
  lemma ShapeParses(sign: string, k: nat, p: U32)
    requires sign == "" || sign == "+"
    ensures ParseU32(sign + Zeros(k) + Decimal(p)) == Some(p)
  {
    var ds := Zeros(k) + Decimal(p);
    var s := sign + Zeros(k) + Decimal(p);
    assert s == sign + ds;
    assert IsAsciiDigit(ds[0]);
    assert Unsigned(s) == ds by {
      if sign == "+" { assert s[1..] == ds; } else { assert s == ds; }
    }
    NumeralLeadingZeros(k, Decimal(p));
    NumeralOfDecimal(p);
  }

  /** What `u32::from_str` accepts, in both directions. */
  lemma ParseU32Accepts(s: string, p: U32)
    ensures ParseU32(s) == Some(p) <==> DenotesU32(s, p)
  {
    if ParseU32(s) == Some(p) {
      ParsedShape(s, p);
    }
    if DenotesU32(s, p) {
      var sign: string, k: nat :| (sign == "" || sign == "+") && s == sign + Zeros(k) + Decimal(p);
      ShapeParses(sign, k, p);
    }
  }

  // ---------------------------------------------------------------------------
  // Splitting

  /** Length of the longest prefix of `s` without white space. */
  function WordEnd(s: string): (n: nat)
    ensures n <= |s|
    ensures forall i :: 0 <= i < n ==> !IsWhitespace(s[i])
    ensures n < |s| ==> IsWhitespace(s[n])
    decreases |s|
  {
    if s == [] || IsWhitespace(s[0]) then 0 else 1 + WordEnd(s[1..])
  }

  /** `str::split_whitespace`: the maximal white-space-free pieces, in order;
      none of them is empty. */
  function SplitWhitespace(s: string): (words: seq<string>)
    ensures forall i :: 0 <= i < |words| ==> |words[i]| > 0 && NoWhitespace(words[i])
    decreases |s|
  {
    if s == [] then []
    else if IsWhitespace(s[0]) then SplitWhitespace(s[1..])
    else
      var n := WordEnd(s);
      [s[..n]] + SplitWhitespace(s[n..])
  }

  /** A word followed by a white-space character is the first piece. */
  lemma SplitWord(w: string, c: char, rest: string)
    requires |w| > 0 && NoWhitespace(w) && IsWhitespace(c)
    ensures SplitWhitespace(w + [c] + rest) == [w] + SplitWhitespace(rest)
  {
    var s := w + [c] + rest;
    var n := WordEnd(s);
    assert s[|w|] == c;
    assert forall i :: 0 <= i < |w| ==> s[i] == w[i];
    assert n == |w|;
    assert s[..n] == w;
    assert s[n..] == [c] + rest;
    assert ([c] + rest)[1..] == rest;
  }

  /** Index of the first line feed, or `|s|` when there is none. */
  function FirstNewline(s: string): (i: nat)
    ensures i <= |s|
    ensures forall j :: 0 <= j < i ==> s[j] != '\n'
    ensures i < |s| ==> s[i] == '\n'
    decreases |s|
  {
    if s == [] || s[0] == '\n' then 0 else 1 + FirstNewline(s[1..])
  }

  predicate NoNewline(s: string) {
    forall i :: 0 <= i < |s| ==> s[i] != '\n'
  }

  /** One carriage return before a line feed belongs to the line ending. */
  function StripCr(line: string): string {
    if |line| > 0 && line[|line| - 1] == '\r' then line[..|line| - 1] else line
  }

  /** `str::lines`: split at `\n` (dropping a `\r` just before it); a final line
      ending is optional and yields no empty last line. */
  function Lines(s: string): seq<string>
    decreases |s|
  {
    if s == [] then []
    else
      var i := FirstNewline(s);
      if i == |s| then [s] else [StripCr(s[..i])] + Lines(s[i + 1..])
  }

  predicate EndsWithNewline(s: string) {
    |s| > 0 && s[|s| - 1] == '\n'
  }

  lemma {:induction false} FirstNewlineAppend(prev: string, next: string)
    requires FirstNewline(prev) < |prev|
    ensures FirstNewline(prev + next) == FirstNewline(prev)
    decreases |prev|
  {
    if prev[0] != '\n' {
      assert (prev + next)[1..] == prev[1..] + next;
      FirstNewlineAppend(prev[1..], next);
    }
  }

  /** Text made of complete lines splits independently of what follows it. */
  lemma {:induction false} LinesAppend(prev: string, next: string)
    requires prev == [] || EndsWithNewline(prev)
    ensures Lines(prev + next) == Lines(prev) + Lines(next)
    decreases |prev|
  {
    if prev == [] {
      assert prev + next == next;
    } else {
      var s := prev + next;
      var i := FirstNewline(prev);
      assert i < |prev| by {
        assert prev[|prev| - 1] == '\n';
      }
      var rest := prev[i + 1..];
      assert Lines(s) == [StripCr(prev[..i])] + Lines(rest + next) by {
        FirstNewlineAppend(prev, next);
        assert s[..i] == prev[..i];
        assert s[i + 1..] == rest + next;
      }
      assert rest == [] || EndsWithNewline(rest);
      LinesAppend(rest, next);
    }
  }

  /** Only the very end of a line can lose a carriage return. */
  lemma StripCrAppend(a: string, b: string)
    requires |b| > 0
    ensures StripCr(a + b) == a + StripCr(b)
  {
    if b[|b| - 1] == '\r' {
      assert (a + b)[..|a + b| - 1] == a + b[..|b| - 1];
    }
  }

  lemma TerminatedLine(line: string)
    requires NoNewline(line)
    ensures Lines(line + "\n") == [StripCr(line)]
  {
    var s := line + "\n";
    var i := FirstNewline(s);
    assert s[|line|] == '\n';
    assert forall j :: 0 <= j < |line| ==> s[j] == line[j];
    assert i == |line|;
    assert s[..i] == line;
    assert s[i + 1..] == [];
  }

  // ---------------------------------------------------------------------------
  // Substrings and replacement

  predicate StartsWith(s: string, prefix: string) {
    |prefix| <= |s| && s[..|prefix|] == prefix
  }

  /** `pat` occurs somewhere in `s`. */
  predicate Contains(s: string, pat: string)
    decreases |s|
  {
    StartsWith(s, pat) || (s != [] && Contains(s[1..], pat))
  }

  /** `str::replace`: every non-overlapping occurrence of `from`, scanning left
      to right, becomes `to`. */
  function ReplaceAll(s: string, from: string, to: string): string
    requires |from| > 0
    decreases |s|
  {
    if |s| < |from| then s
    else if s[..|from|] == from then to + ReplaceAll(s[|from|..], from, to)
    else [s[0]] + ReplaceAll(s[1..], from, to)
  }

  /** Replacing a pattern that does not occur changes nothing. */
  lemma {:induction false} ReplaceAbsent(s: string, from: string, to: string)
    requires |from| > 0 && !Contains(s, from)
    ensures ReplaceAll(s, from, to) == s
    decreases |s|
  {
    if |s| >= |from| {
      assert !StartsWith(s, from);
      ReplaceAbsent(s[1..], from, to);
      assert [s[0]] + s[1..] == s;
    }
  }

  /** On a text exactly as long as the pattern, `replace` swaps the whole
      text when it is the pattern and leaves it alone otherwise. */
  lemma ReplaceWhole(w: string, from: string, to: string)
    requires |w| == |from| > 0
    ensures ReplaceAll(w, from, to) == if w == from then to else w
  {
    if w == from {
      assert w[..|from|] == from;
      assert ReplaceAll(w[|from|..], from, to) == [];
      assert to + [] == to;
    } else {
      assert w[..|from|] == w;
      assert ReplaceAll(w[1..], from, to) == w[1..];
      assert [w[0]] + w[1..] == w;
    }
  }

  /** Replacing a pattern by a text of the same length keeps the length. */
  lemma {:induction false} ReplaceKeepsLength(s: string, from: string, to: string)
    requires |from| > 0 && |to| == |from|
    ensures |ReplaceAll(s, from, to)| == |s|
    decreases |s|
  {
    if |s| >= |from| {
      if s[..|from|] == from {
        ReplaceKeepsLength(s[|from|..], from, to);
      } else {
        ReplaceKeepsLength(s[1..], from, to);
      }
    }
  }
}
