/** The parts of `java.lang.String` and `java.lang.Integer` that the chat
    protocol relies on: `trim`, `split` with a one-character pattern,
    `Integer.toString` and `Integer.parseInt`, all over `seq<char>`. */
module JavaText {
  import opened Wrappers

  // ---------------------------------------------------------------- trim

  /** A character that `String.trim` removes: any code point up to U+0020. */
  predicate IsTrimmable(c: char) {
    c <= ' '
  }

  /** The number of trimmable characters at the start of `s` (`trim`'s `st`). */
  function LeadingTrimmable(s: string): (n: nat)
    ensures n <= |s|
    ensures forall k :: 0 <= k < n ==> IsTrimmable(s[k])
    ensures n < |s| ==> !IsTrimmable(s[n])
    decreases |s|
  {
    if |s| > 0 && IsTrimmable(s[0]) then LeadingTrimmable(s[1..]) + 1 else 0
  }

  /** The length of `s` without its trailing trimmable characters (`trim`'s `len`). */
  function TrailingTrimmedEnd(s: string): (m: nat)
    ensures m <= |s|
    ensures forall k :: m <= k < |s| ==> IsTrimmable(s[k])
    ensures m > 0 ==> !IsTrimmable(s[m - 1])
    decreases |s|
  {
    if |s| > 0 && IsTrimmable(s[|s| - 1]) then TrailingTrimmedEnd(s[..|s| - 1]) else |s|
  }

  /** `String.trim`: the substring between the leading and the trailing
      trimmable characters. */
  function Trim(s: string): (r: string)
    ensures |r| <= |s|
    ensures r != [] ==> !IsTrimmable(r[0]) && !IsTrimmable(r[|r| - 1])
  {
    var t := s[LeadingTrimmable(s)..];
    t[..TrailingTrimmedEnd(t)]
  }

  /** A string that already starts and ends with a non-trimmable character is
      left as it is. */
  lemma TrimOfTrimmed(s: string)
    requires s != [] && !IsTrimmable(s[0]) && !IsTrimmable(s[|s| - 1])
    ensures Trim(s) == s
  {
  }

  /** `new String(buffer).trim()` sees the datagram's text followed by the
      unused, zero-filled rest of the receive buffer; the padding is
      trimmable, so the trimmed text is that of the datagram alone. */
  lemma TrimIgnoresPadding(s: string, pad: string)
    requires forall k :: 0 <= k < |pad| ==> IsTrimmable(pad[k])
    ensures Trim(s + pad) == Trim(s)
  {
    var x := s + pad;
    var n := LeadingTrimmable(s);
    var n' := LeadingTrimmable(x);
    if n == |s| {
      assert n' == |x|;
    } else {
      assert x[n] == s[n];
      assert n' <= n;
      assert x[n'] == s[n'];
      assert n' == n;
      var t := s[n..];
      var t' := x[n..];
      assert t' == t + pad;
      var m := TrailingTrimmedEnd(t);
      var m' := TrailingTrimmedEnd(t');
      assert t'[m - 1] == t[m - 1];
      assert m <= m';
      if m' - 1 < |t| {
        assert t'[m' - 1] == t[m' - 1];
      }
      assert m' == m;
      assert t'[..m'] == t[..m];
    }
  }

  /** When `s` starts with a non-trimmable character, `trim` keeps a prefix of
      `s` that reaches at least past its non-trimmable character `k - 1`. */
  lemma TrimKeepsPrefix(s: string, k: nat)
    requires 0 < k <= |s| && !IsTrimmable(s[0]) && !IsTrimmable(s[k - 1])
    ensures k <= |Trim(s)| && Trim(s) == s[..|Trim(s)|]
  {
  }

  // ---------------------------------------------------------------- split

  /** `s.endsWith(t)`. */
  predicate EndsWith(s: string, t: string) {
    |t| <= |s| && s[|s| - |t|..] == t
  }

  /** Position of the first `sep` in `s`. */
  function IndexOf(s: string, sep: char): (i: nat)
    requires sep in s
    ensures i < |s| && s[i] == sep && sep !in s[..i]
  {
    if s[0] == sep then 0
    else
      var i := IndexOf(s[1..], sep) + 1;
      assert s[..i] == [s[0]] + s[1..][..i - 1];
      i
  }

  /** The first `sep` after a separator-free prefix is the one right after it. */
  lemma IndexOfAfterPrefix(a: string, sep: char, b: string)
    requires sep !in a
    ensures IndexOf(a + [sep] + b, sep) == |a|
  {
    var s := a + [sep] + b;
    assert s[|a|] == sep;
    assert forall k :: 0 <= k < |a| ==> s[k] == a[k];
  }

  /** Every piece between occurrences of `sep`, trailing empty pieces included. */
  function Pieces(s: string, sep: char): (r: seq<string>)
    ensures |r| > 0
    decreases |s|
  {
    if sep !in s then [s]
    else
      var i := IndexOf(s, sep);
      [s[..i]] + Pieces(s[i + 1..], sep)
  }

  /** Drops empty strings from the end of `xs`. */
  function DropTrailingEmpty(xs: seq<string>): (r: seq<string>)
    ensures |r| <= |xs| && r == xs[..|r|]
    ensures r != [] ==> r[|r| - 1] != ""
    ensures forall k :: |r| <= k < |xs| ==> xs[k] == ""
  {
    if |xs| > 0 && xs[|xs| - 1] == "" then DropTrailingEmpty(xs[..|xs| - 1]) else xs
  }

  /** `s.split(sep)` for a separator that is not a regular-expression
      metacharacter, as `:` and `,` are: a string without `sep` gives itself
      (so "" gives [""]); otherwise the pieces, with trailing empty pieces
      removed (so ":" gives []). */
  function Split(s: string, sep: char): (r: seq<string>)
    ensures forall k :: 0 <= k < |r| ==> sep !in r[k]
    ensures sep !in s ==> r == [s]
  {
    if sep !in s then [s]
    else
      PiecesAvoidSeparator(s, sep);
      DropTrailingEmpty(Pieces(s, sep))
  }

  lemma {:induction false} PiecesAvoidSeparator(s: string, sep: char)
    ensures forall k :: 0 <= k < |Pieces(s, sep)| ==> sep !in Pieces(s, sep)[k]
    decreases |s|
  {
    if sep in s {
      var i := IndexOf(s, sep);
      PiecesAvoidSeparator(s[i + 1..], sep);
    }
  }

  /** `split` returns no fields at all exactly when the string is non-empty
      and made of separators only (so `parts[0]` throws). */
  lemma SplitEmptyIffSeparatorsOnly(s: string, sep: char)
    ensures Split(s, sep) == [] <==> |s| > 0 && forall k :: 0 <= k < |s| ==> s[k] == sep
  {
    if sep in s {
      JoinOfSplit(s, sep);
      if forall k :: 0 <= k < |s| ==> s[k] == sep {
        PiecesOfSeparators(s, sep);
      }
    } else if |s| > 0 {
      assert s[0] in s;
    }
  }

  /** A string of separators only splits into empty raw pieces. */
  lemma {:induction false} PiecesOfSeparators(s: string, sep: char)
    requires forall k :: 0 <= k < |s| ==> s[k] == sep
    ensures forall k :: 0 <= k < |Pieces(s, sep)| ==> Pieces(s, sep)[k] == ""
    decreases |s|
  {
    if |s| > 0 {
      assert s[0] == sep;
      PiecesOfSeparators(s[1..], sep);
    }
  }

  /** `String.join` with a one-character delimiter. */
  function Join(xs: seq<string>, sep: char): string
  {
    if |xs| == 0 then ""
    else if |xs| == 1 then xs[0]
    else xs[0] + [sep] + Join(xs[1..], sep)
  }

  lemma {:induction false} JoinSnoc(xs: seq<string>, sep: char, y: string)
    requires |xs| > 0
    ensures Join(xs + [y], sep) == Join(xs, sep) + [sep] + y
    decreases |xs|
  {
    if |xs| == 1 {
      assert xs + [y] == [xs[0], y];
    } else {
      assert (xs + [y])[1..] == xs[1..] + [y];
      JoinSnoc(xs[1..], sep, y);
    }
  }

  /** The raw pieces of `s` are its inverse under joining with `sep`. */
  lemma {:induction false} JoinPieces(s: string, sep: char)
    ensures Join(Pieces(s, sep), sep) == s
    decreases |s|
  {
    if sep in s {
      var i := IndexOf(s, sep);
      JoinPieces(s[i + 1..], sep);
      assert s == s[..i] + [sep] + s[i + 1..];
    }
  }

  /** Splitting pieces that contain no separator after joining them gives them back. */
  lemma {:induction false} PiecesOfJoin(xs: seq<string>, sep: char)
    requires |xs| > 0
    requires forall k :: 0 <= k < |xs| ==> sep !in xs[k]
    ensures Pieces(Join(xs, sep), sep) == xs
    decreases |xs|
  {
    if |xs| > 1 {
      var s := Join(xs, sep);
      assert s == xs[0] + [sep] + Join(xs[1..], sep);
      IndexOfAfterPrefix(xs[0], sep, Join(xs[1..], sep));
      assert s[..|xs[0]|] == xs[0];
      assert s[|xs[0]| + 1..] == Join(xs[1..], sep);
      PiecesOfJoin(xs[1..], sep);
    }
  }

  /** `split` undoes joining when no piece contains the separator and the last
      piece is not empty (otherwise Java drops it). */
  lemma SplitOfJoin(xs: seq<string>, sep: char)
    requires |xs| > 0 && xs[|xs| - 1] != ""
    requires forall k :: 0 <= k < |xs| ==> sep !in xs[k]
    ensures Split(Join(xs, sep), sep) == xs
  {
    PiecesOfJoin(xs, sep);
    if |xs| > 1 {
      var s := Join(xs, sep);
      assert s == xs[0] + [sep] + Join(xs[1..], sep);
      assert s[|xs[0]|] == sep;
    }
  }

  /** What `split` throws away: joining its result gives a prefix of `s`, and
      everything after that prefix is separators. */
  lemma {:induction false} JoinOfSplit(s: string, sep: char)
    ensures var j := Join(Split(s, sep), sep);
      |j| <= |s| && j == s[..|j|] && forall k :: |j| <= k < |s| ==> s[k] == sep
  {
    if sep in s {
      JoinPieces(s, sep);
      DropTrailingJoin(Pieces(s, sep), sep);
    }
  }

  lemma {:induction false} DropTrailingJoin(xs: seq<string>, sep: char)
    ensures var j := Join(DropTrailingEmpty(xs), sep);
      var whole := Join(xs, sep);
      |j| <= |whole| && j == whole[..|j|] && forall k :: |j| <= k < |whole| ==> whole[k] == sep
    decreases |xs|
  {
    if |xs| > 0 && xs[|xs| - 1] == "" {
      var init := xs[..|xs| - 1];
      assert xs == init + [""];
      DropTrailingJoin(init, sep);
      if |init| > 0 {
        JoinSnoc(init, sep, "");
      }
    }
  }

  // ---------------------------------------------------------------- integers

  const IntMin: int := -0x8000_0000
  const IntMax: int := 0x7fff_ffff

  /** The range of a Java `int`. */
  predicate IsInt32(n: int) {
    IntMin <= n <= IntMax
  }

  predicate IsDigit(c: char) {
    '0' <= c <= '9'
  }

  predicate AllDigits(s: string) {
    forall k :: 0 <= k < |s| ==> IsDigit(s[k])
  }

  function DigitChar(d: nat): (c: char)
    requires d < 10
    ensures IsDigit(c)
  {
    ('0' as int + d) as char
  }

  function DigitValue(c: char): (d: nat)
    requires IsDigit(c)
    ensures d < 10 && DigitChar(d) == c
  {
    c as int - '0' as int
  }

  /** The number a string of decimal digits denotes (leading zeros allowed). */
  function DigitsValue(s: string): nat
    requires AllDigits(s)
    decreases |s|
  {
    if |s| == 0 then 0 else DigitsValue(s[..|s| - 1]) * 10 + DigitValue(s[|s| - 1])
  }

  /** Decimal digits of `n`, without leading zeros. */
  function NatToString(n: nat): (r: string)
    ensures |r| > 0 && AllDigits(r)
    decreases n
  {
    if n < 10 then [DigitChar(n)] else NatToString(n / 10) + [DigitChar(n % 10)]
  }

  lemma {:induction false} DigitsValueOfNatToString(n: nat)
    ensures DigitsValue(NatToString(n)) == n
    decreases n
  {
    if n >= 10 {
      var s := NatToString(n);
      assert s[..|s| - 1] == NatToString(n / 10);
      DigitsValueOfNatToString(n / 10);
    }
  }

  /** `Integer.toString(n)`: a minus sign for negative numbers, then the digits. */
  function IntToString(n: int): (r: string)
    ensures |r| > 0 && IsDigit(r[|r| - 1])
    ensures forall k :: 0 <= k < |r| ==> IsDigit(r[k]) || r[k] == '-'
  {
    if n < 0 then "-" + NatToString(-n) else NatToString(n)
  }

  /** `Integer.parseInt(s)`: an optional `+` or `-`, at least one digit, and a
      value within the `int` range; anything else is a NumberFormatException,
      modelled as `None`. */
  function ParseInt(s: string): (r: Option<int>)
    ensures r.Some? ==> IsInt32(r.value)
    ensures r.Some? ==> |s| > 0 && forall k :: 0 < k < |s| ==> IsDigit(s[k])
    ensures r.Some? && s[0] == '-' ==> r.value <= 0
  {
    if |s| == 0 then None
    else if s[0] == '-' || s[0] == '+' then
      var digits := s[1..];
      if |digits| == 0 || !AllDigits(digits) then None
      else
        var v: int := if s[0] == '-' then -(DigitsValue(digits) as int) else DigitsValue(digits);
        if IsInt32(v) then Some(v) else None
    else if !AllDigits(s) then None
    else
      var v := DigitsValue(s);
      if IsInt32(v) then Some(v) else None
  }

  /** `Integer.parseInt` reads back every `int` that `Integer.toString` writes. */
  lemma ParseIntOfIntToString(n: int)
    requires IsInt32(n)
    ensures ParseInt(IntToString(n)) == Some(n)
  {
    var s := IntToString(n);
    if n < 0 {
      var d := NatToString(-n);
      DigitsValueOfNatToString(-n);
      assert s == "-" + d;
      assert s[0] == '-' && s[1..] == d;
    } else {
      DigitsValueOfNatToString(n);
      assert IsDigit(s[0]);
    }
  }
}
