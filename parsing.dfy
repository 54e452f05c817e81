// The text conversions the drivers rely on: GLib's g_strsplit on a single
// space, strtoul in base 16 (src/drv-input-proximity.c:36-40) and atoi
// (src/drv-iio-poll-compass-uncalibrated.c:48-56), together with the
// formatters the kernel uses for the same sysfs files ("%lx" words separated
// by spaces, "%d"), so that parsing can be stated as the inverse of printing.

module Parsing {
  import opened SensorTypes

  // ---------------------------------------------------------------------------
  // g_strsplit (string, " ", max_tokens)

  /** Index of the first occurrence of `c` in `s`. */
  function IndexOf(s: string, c: char): (i: nat)
    requires c in s
    ensures i < |s| && s[i] == c && c !in s[..i]
  {
    if s[0] == c then 0 else 1 + IndexOf(s[1..], c)
  }

  /** Splits `s` at spaces into at most `k` pieces; once k-1 pieces are cut,
      the remainder of the string, spaces included, is the last piece. */
  function SplitN(s: string, k: nat): (r: seq<string>)
    requires k >= 1
    ensures 1 <= |r| <= k
    decreases |s|
  {
    if k == 1 || ' ' !in s then [s]
    else
      var i := IndexOf(s, ' ');
      [s[..i]] + SplitN(s[i + 1..], k - 1)
  }

  /** g_strsplit with the delimiter " ": the empty string splits into no
      tokens at all, and a max_tokens below 1 means "no limit". */
  function GStrSplit(s: string, maxTokens: int): (r: seq<string>)
    ensures s == [] <==> r == []
    ensures maxTokens >= 1 ==> |r| <= maxTokens
  {
    if s == [] then [] else SplitN(s, if maxTokens < 1 then |s| + 1 else maxTokens)
  }

  /** The tokens separated by single spaces. */
  function Join(ts: seq<string>): string
  {
    if ts == [] then [] else if |ts| == 1 then ts[0] else ts[0] + " " + Join(ts[1..])
  }

  /** Splitting loses nothing: the pieces joined by spaces give the input back. */
  lemma {:induction false} JoinSplitN(s: string, k: nat)
    requires k >= 1
    ensures Join(SplitN(s, k)) == s
    decreases |s|
  {
    if k == 1 || ' ' !in s {
      assert SplitN(s, k) == [s];
    } else {
      var i := IndexOf(s, ' ');
      var rest := SplitN(s[i + 1..], k - 1);
      assert SplitN(s, k) == [s[..i]] + rest;
      JoinCons(s[..i], rest);
      JoinSplitN(s[i + 1..], k - 1);
      CutAt(s, i);
    }
  }

  /** Cutting out the character at `i` and putting a space back. */
  lemma CutAt(s: string, i: nat)
    requires i < |s| && s[i] == ' '
    ensures s == s[..i] + " " + s[i + 1..]
  {
  }

  lemma JoinCons(t: string, rest: seq<string>)
    requires |rest| >= 1
    ensures Join([t] + rest) == t + " " + Join(rest)
  {
    assert ([t] + rest)[1..] == rest;
  }

  lemma JoinSplit(s: string, maxTokens: int)
    ensures Join(GStrSplit(s, maxTokens)) == s
  {
    if s != [] {
      JoinSplitN(s, if maxTokens < 1 then |s| + 1 else maxTokens);
    }
  }

  /** The first space of `a + " " + b` is the one after `a` when `a` has none. */
  lemma {:induction false} SplitNSeparator(a: string, b: string, k: nat)
    requires ' ' !in a && k >= 2
    ensures SplitN(a + " " + b, k) == [a] + SplitN(b, k - 1)
  {
    var s := a + " " + b;
    assert s[|a|] == ' ';
    assert s[..|a|] == a && s[|a| + 1..] == b;
    assert IndexOf(s, ' ') == |a|;
  }

  /** Joining non-empty, space-free tokens and splitting again gives the same
      tokens, provided there are no more of them than the split allows. */
  lemma {:induction false} SplitNJoin(ts: seq<string>, k: nat)
    requires 1 <= |ts| <= k
    requires forall t :: t in ts ==> ' ' !in t
    ensures SplitN(Join(ts), k) == ts
    decreases |ts|
  {
    assert ts[0] in ts;
    if |ts| > 1 {
      var rest := ts[1..];
      assert Join(ts) == ts[0] + " " + Join(rest);
      SplitNSeparator(ts[0], Join(rest), k);
      forall t | t in rest ensures ' ' !in t {
        assert t in ts;
      }
      SplitNJoin(rest, k - 1);
      assert ts == [ts[0]] + rest;
    }
  }

  lemma SplitJoin(ts: seq<string>, maxTokens: int)
    requires 1 <= |ts| && (maxTokens < 1 || |ts| <= maxTokens)
    requires forall t :: t in ts ==> t != [] && ' ' !in t
    ensures GStrSplit(Join(ts), maxTokens) == ts
  {
    assert ts[0] in ts;
    JoinNonEmpty(ts);
    if maxTokens < 1 {
      JoinLength(ts);
    }
    SplitNJoin(ts, if maxTokens < 1 then |Join(ts)| + 1 else maxTokens);
  }

  lemma {:induction false} JoinNonEmpty(ts: seq<string>)
    requires |ts| >= 1 && ts[0] != []
    ensures Join(ts) != []
  {
  }

  lemma {:induction false} JoinLength(ts: seq<string>)
    ensures |Join(ts)| + 1 >= |ts|
    decreases |ts|
  {
    if |ts| > 1 {
      JoinLength(ts[1..]);
    }
  }

  // ---------------------------------------------------------------------------
  // Digits, numerals and their values

  type Base = b: nat | 2 <= b <= 16 witness 10

  /** The value of a digit character in any base up to 16 (both cases of the
      letters), or 16 when the character is no digit at all. */
  function DigitValue(c: char): (v: nat)
    ensures v <= 16
  {
    if '0' <= c <= '9' then c as nat - '0' as nat
    else if 'a' <= c <= 'f' then c as nat - 'a' as nat + 10
    else if 'A' <= c <= 'F' then c as nat - 'A' as nat + 10
    else 16
  }

  predicate IsDigit(c: char, base: Base)
  {
    DigitValue(c) < base
  }

  /** The lower-case digit of value `d`, as printf prints it. */
  function DigitChar(d: nat): (c: char)
    requires d < 16
    ensures DigitValue(c) == d
  {
    if d < 10 then ('0' as nat + d) as char else ('a' as nat + d - 10) as char
  }

  /** The leading digits of `s` in `base`. */
  function DigitPrefix(s: string, base: Base): string
  {
    if s == [] || !IsDigit(s[0], base) then [] else [s[0]] + DigitPrefix(s[1..], base)
  }

  /** DigitPrefix is the longest prefix made of digits only. */
  lemma {:induction false} DigitPrefixIsLongest(s: string, base: Base)
    ensures var p := DigitPrefix(s, base);
      && |p| <= |s| && p == s[..|p|]
      && (forall i :: 0 <= i < |p| ==> IsDigit(p[i], base))
      && (|p| < |s| ==> !IsDigit(s[|p|], base))
    decreases |s|
  {
    if s != [] && IsDigit(s[0], base) {
      DigitPrefixIsLongest(s[1..], base);
      var q := DigitPrefix(s[1..], base);
      assert DigitPrefix(s, base) == [s[0]] + q;
      assert s == [s[0]] + s[1..];
    }
  }

  /** The value of a string of digits, most significant first. */
  function Value(ds: string, base: Base): nat
  {
    if ds == [] then 0 else Value(ds[..|ds| - 1], base) * base + DigitValue(ds[|ds| - 1])
  }

  /** The numeral of `n` in `base`, most significant digit first, no leading zero. */
  function Numeral(n: nat, base: Base): (ds: string)
    ensures ds != []
  {
    if n < base then [DigitChar(n)] else Numeral(n / base, base) + [DigitChar(n % base)]
  }

  /** Every character of a numeral is a digit of its base. */
  lemma {:induction false} NumeralDigits(n: nat, base: Base)
    ensures forall i :: 0 <= i < |Numeral(n, base)| ==> IsDigit(Numeral(n, base)[i], base)
    decreases n
  {
    if n >= base {
      DivShrinks(n, base);
      NumeralDigits(n / base, base);
      var high := Numeral(n / base, base);
      var low := DigitChar(n % base);
      assert IsDigit(low, base);
      assert Numeral(n, base) == high + [low];
    }
  }

  lemma ValueSnoc(ds: string, c: char, base: Base)
    ensures Value(ds + [c], base) == Value(ds, base) * base + DigitValue(c)
  {
    assert (ds + [c])[..|ds|] == ds;
  }

  lemma DivShrinks(n: nat, base: Base)
    requires n >= base
    ensures n / base < n
  {
    var q := n / base;
    assert q * base <= n;
    assert q * base >= q * 2;
  }

  lemma DivMod(n: nat, base: Base)
    ensures n == (n / base) * base + n % base
  {
  }

  /** Reading a printed numeral gives the number back. */
  lemma {:induction false} ValueOfNumeral(n: nat, base: Base)
    ensures Value(Numeral(n, base), base) == n
    decreases n
  {
    if n >= base {
      var q, r := n / base, n % base;
      DivShrinks(n, base);
      DivMod(n, base);
      ValueOfNumeral(q, base);
      assert Numeral(n, base) == Numeral(q, base) + [DigitChar(r)];
      ValueSnoc(Numeral(q, base), DigitChar(r), base);
      assert Value(Numeral(n, base), base) == q * base + r;
    }
  }

  /** A numeral followed by a non-digit is exactly the digit prefix. */
  lemma {:induction false} DigitPrefixOfNumeral(ds: string, rest: string, base: Base)
    requires forall i :: 0 <= i < |ds| ==> IsDigit(ds[i], base)
    requires rest == [] || !IsDigit(rest[0], base)
    ensures DigitPrefix(ds + rest, base) == ds
    decreases |ds|
  {
    if ds != [] {
      assert (ds + rest)[1..] == ds[1..] + rest;
      DigitPrefixOfNumeral(ds[1..], rest, base);
      assert ds == [ds[0]] + ds[1..];
    } else {
      assert ds + rest == rest;
    }
  }

  // ---------------------------------------------------------------------------
  // strtoul (token, NULL, 16)

  /** strtoul in base 16: the value of the token's leading hexadecimal digits
      (0 when there are none), saturated at ULONG_MAX on overflow. */
  function Strtoul16(tok: string): (v: Word)
  {
    var n := Value(DigitPrefix(tok, 16), 16);
    if n > ULONG_MAX then ULONG_MAX else n
  }

  /** The kernel prints a word with "%lx"; strtoul reads it back, whatever
      non-digit follows (the separating space or the final newline). */
  lemma Strtoul16OfHex(w: Word, rest: string)
    requires rest == [] || !IsDigit(rest[0], 16)
    ensures Strtoul16(Numeral(w, 16) + rest) == w
  {
    NumeralDigits(w, 16);
    DigitPrefixOfNumeral(Numeral(w, 16), rest, 16);
    ValueOfNumeral(w, 16);
  }

  // ---------------------------------------------------------------------------
  // atoi (contents)

  predicate IsSpace(c: char)
  {
    c == ' ' || c == '\t' || c == '\n' || c == '\r' || c == '\U{0c}' || c == '\U{0b}'
  }

  function SkipSpace(s: string): (t: string)
    ensures |t| <= |s| && t == s[|s| - |t|..]
    ensures t == [] || !IsSpace(t[0])
  {
    if s != [] && IsSpace(s[0]) then SkipSpace(s[1..]) else s
  }

  /** atoi: leading white space, an optional sign, then the decimal digits
      that follow (0 when there are none). */
  function Atoi(s: string): int
  {
    var t := SkipSpace(s);
    if t != [] && t[0] == '-' then -(Value(DigitPrefix(t[1..], 10), 10) as int)
    else if t != [] && t[0] == '+' then Value(DigitPrefix(t[1..], 10), 10)
    else Value(DigitPrefix(t, 10), 10)
  }

  /** printf ("%d", n). */
  function DecimalString(n: int): string
  {
    if n < 0 then "-" + Numeral(-n, 10) else Numeral(n, 10)
  }

  /** A sysfs integer attribute printed with "%d\n" reads back as the same value. */
  lemma AtoiOfDecimal(n: int)
    ensures Atoi(DecimalString(n) + "\n") == n
  {
    if n < 0 {
      AtoiOfNegative(-n);
    } else {
      AtoiOfNatural(n);
    }
  }

  lemma AtoiOfNegative(m: nat)
    requires m > 0
    ensures Atoi("-" + Numeral(m, 10) + "\n") == -(m as int)
  {
    var t := Numeral(m, 10) + "\n";
    DecimalDigits(m);
    var s := "-" + Numeral(m, 10) + "\n";
    assert s == "-" + t;
    assert s[1..] == t;
    AtoiSigned(s);
  }

  lemma AtoiOfNatural(n: nat)
    ensures Atoi(Numeral(n, 10) + "\n") == n
  {
    var ds := Numeral(n, 10);
    var s := ds + "\n";
    NumeralDigits(n, 10);
    assert s[0] == ds[0];
    AtoiUnsigned(s);
    DecimalDigits(n);
  }

  /** The digits of a printed decimal, read up to the newline, give it back. */
  lemma DecimalDigits(n: nat)
    ensures Value(DigitPrefix(Numeral(n, 10) + "\n", 10), 10) == n
  {
    NumeralDigits(n, 10);
    DigitPrefixOfNumeral(Numeral(n, 10), "\n", 10);
    ValueOfNumeral(n, 10);
  }

  /** A text that starts with '-' is read as the negated digits after it. */
  lemma AtoiSigned(s: string)
    requires s != [] && s[0] == '-'
    ensures Atoi(s) == -(Value(DigitPrefix(s[1..], 10), 10) as int)
  {
    assert SkipSpace(s) == s;
  }

  /** A text that starts with a digit is read as its digit prefix. */
  lemma AtoiUnsigned(s: string)
    requires s != [] && IsDigit(s[0], 10)
    ensures Atoi(s) == Value(DigitPrefix(s, 10), 10)
  {
    assert !IsSpace(s[0]);
    assert SkipSpace(s) == s;
  }
}
