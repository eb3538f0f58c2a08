/**
 * The string operations the GOLN reader is built from: splitting a string
 * once at a separator, splitting a text into lines, and reading an unsigned
 * machine-size (`usize`, 64-bit) decimal number. A decimal writer is the
 * inverse used by the round-trip lemmas.
 */
module Text {
  import opened Wrappers

  /** The largest value of a 64-bit `usize`. */
  const USIZE_MAX: nat := 0xFFFF_FFFF_FFFF_FFFF

  // ---------------------------------------------------------------------
  // Splitting

  /**
   * Split `s` at the first occurrence of `sep`: the part before it and the
   * part after it, or `None` when `sep` does not occur.
   */
  function SplitOnce(s: string, sep: char): (r: Option<(string, string)>)
    ensures r.Some? ==> |r.value.0| + 1 + |r.value.1| == |s|
  {
    if s == [] then None
    else if s[0] == sep then Some(([], s[1..]))
    else
      match SplitOnce(s[1..], sep)
      case None => None
      case Some(pair) => Some(([s[0]] + pair.0, pair.1))
  }

  /**
   * The split fails exactly when `sep` is absent, and otherwise cuts `s`
   * at a `sep` with none before it.
   */
  lemma {:induction false} SplitOnceMeaning(s: string, sep: char)
    ensures SplitOnce(s, sep).None? <==> sep !in s
    ensures SplitOnce(s, sep).Some? ==>
              var (a, b) := SplitOnce(s, sep).value;
              s == a + [sep] + b && sep !in a
  {
    if s != [] && s[0] != sep {
      SplitOnceMeaning(s[1..], sep);
      assert s == [s[0]] + s[1..];
    }
  }

  /** A string split at the first `sep` comes apart exactly where it was joined. */
  lemma SplitOnceJoin(a: string, sep: char, b: string)
    requires sep !in a
    ensures SplitOnce(a + [sep] + b, sep) == Some((a, b))
  {
    var s := a + [sep] + b;
    var r := SplitOnce(s, sep);
    SplitOnceMeaning(s, sep);
    assert s[|a|] == sep;
    var a', b' := r.value.0, r.value.1;
    assert forall i :: 0 <= i < |a| ==> s[i] == a[i];
    assert forall i :: 0 <= i < |a'| ==> s[i] == a'[i];
    assert s[|a'|] == sep;
    assert |a'| == |a|;
    assert a' == s[..|a|] == a;
    assert b' == s[|a| + 1..] == b;
  }

  /** Drop one carriage return that ends a line, as a `\r\n` line ending leaves it. */
  function StripCarriageReturn(line: string): (r: string)
    ensures line == r || line == r + ['\r']
    ensures |line| > 0 && line[|line| - 1] == '\r' ==> line == r + ['\r']
  {
    if |line| > 0 && line[|line| - 1] == '\r' then line[..|line| - 1] else line
  }

  /**
   * The lines of a text: split at every `\n`, each line without its line
   * ending (`\n` or `\r\n`); a final line ending adds no empty last line,
   * and the empty text has no lines.
   */
  function Lines(text: string): (ls: seq<string>)
    ensures text == [] <==> ls == []
    decreases |text|
  {
    if text == [] then []
    else
      SplitOnceMeaning(text, '\n');
      match SplitOnce(text, '\n')
      case None => [text]
      case Some(pair) => [StripCarriageReturn(pair.0)] + Lines(pair.1)
  }

  /** The lines joined with `\n` between them. */
  function JoinLines(ls: seq<string>): string
  {
    if |ls| == 0 then []
    else if |ls| == 1 then ls[0]
    else ls[0] + ['\n'] + JoinLines(ls[1..])
  }

  /** A line that `Lines` hands back unchanged: not empty, no `\n`, no final `\r`. */
  predicate PlainLine(line: string) {
    |line| > 0 && '\n' !in line && line[|line| - 1] != '\r'
  }

  /** Splitting joined plain lines gives the lines back. */
  lemma {:induction false} LinesOfJoin(ls: seq<string>)
    requires forall i :: 0 <= i < |ls| ==> PlainLine(ls[i])
    ensures Lines(JoinLines(ls)) == ls
  {
    if |ls| == 1 {
      SplitOnceMeaning(ls[0], '\n');
    } else if |ls| > 1 {
      var rest := JoinLines(ls[1..]);
      SplitOnceJoin(ls[0], '\n', rest);
      assert JoinLines(ls) != [];
      LinesOfJoin(ls[1..]);
      assert Lines(JoinLines(ls)) == [ls[0]] + ls[1..];
    }
  }

  // ---------------------------------------------------------------------
  // Unsigned decimal numbers

  predicate IsDigit(c: char) {
    '0' <= c <= '9'
  }

  predicate AllDigits(s: string) {
    forall i :: 0 <= i < |s| ==> IsDigit(s[i])
  }

  function DigitValue(c: char): (d: nat)
    requires IsDigit(c)
    ensures d <= 9
  {
    c as int - '0' as int
  }

  /** The number a string of decimal digits denotes, most significant first (0 for none). */
  function DigitsValue(s: string): nat
    requires AllDigits(s)
  {
    if s == [] then 0 else DigitsValue(s[..|s| - 1]) * 10 + DigitValue(s[|s| - 1])
  }

  /** Adding digits on the right never makes the value smaller. */
  lemma {:induction false} DigitsValuePrefix(s: string, k: nat)
    requires AllDigits(s) && k <= |s|
    ensures DigitsValue(s[..k]) <= DigitsValue(s)
    decreases |s| - k
  {
    if k < |s| {
      var t := s[..|s| - 1];
      assert t[..k] == s[..k];
      DigitsValuePrefix(t, k);
    } else {
      assert s[..k] == s;
    }
  }

  /**
   * The digit loop of the number reader: fold the digits of `s` into
   * `acc`, most significant first, failing on a non-digit or as soon as
   * the value would exceed `USIZE_MAX`.
   */
  function Accumulate(acc: nat, s: string): (r: Option<nat>)
    requires acc <= USIZE_MAX
    ensures r.Some? ==> r.value <= USIZE_MAX
    decreases |s|
  {
    if s == [] then Some(acc)
    else if !IsDigit(s[0]) then None
    else
      var next := acc * 10 + DigitValue(s[0]);
      if next > USIZE_MAX then None else Accumulate(next, s[1..])
  }

  /**
   * Continuing after the digits `p` succeeds exactly when the rest is all
   * digits and the whole number fits, and then yields the whole number.
   */
  lemma {:induction false} AccumulateDigits(p: string, s: string)
    requires AllDigits(p) && DigitsValue(p) <= USIZE_MAX
    ensures Accumulate(DigitsValue(p), s) ==
              if AllDigits(s) && DigitsValue(p + s) <= USIZE_MAX then Some(DigitsValue(p + s)) else None
    decreases |s|
  {
    if s == [] {
      assert p + s == p;
    } else if IsDigit(s[0]) {
      var p' := p + [s[0]];
      assert p'[..|p'| - 1] == p;
      if DigitsValue(p') > USIZE_MAX {
        if AllDigits(s) {
          assert (p + s)[..|p'|] == p';
          DigitsValuePrefix(p + s, |p'|);
        }
      } else {
        assert p' + s[1..] == p + s;
        AccumulateDigits(p', s[1..]);
        assert AllDigits(s) <==> AllDigits(s[1..]) by {
          if AllDigits(s[1..]) {
            forall i | 0 <= i < |s| ensures IsDigit(s[i]) {
              if i > 0 {
                assert s[i] == s[1..][i - 1];
              }
            }
          }
        }
      }
    } else {
      assert !AllDigits(s);
    }
  }

  /** The digits of a number text: a leading `+` is dropped when anything follows it. */
  function Magnitude(s: string): (r: string)
    ensures |s| > 0 ==> |r| > 0
  {
    if |s| > 1 && s[0] == '+' then s[1..] else s
  }

  /** `s` is the text of a `usize`: optional `+`, at least one digit, a value that fits. */
  predicate IsUsizeText(s: string) {
    |s| > 0 && AllDigits(Magnitude(s)) && DigitsValue(Magnitude(s)) <= USIZE_MAX
  }

  /**
   * Read an unsigned 64-bit decimal number, as `str::parse::<usize>` does:
   * an optional `+`, then one or more digits, failing on anything else or
   * once the value passes `USIZE_MAX`.
   */
  function ParseUsize(s: string): (r: Option<nat>)
    ensures r.Some? ==> r.value <= USIZE_MAX
  {
    if s == [] then None else Accumulate(0, Magnitude(s))
  }

  /**
   * The reader accepts exactly the `usize` texts and yields the number the
   * digits denote.
   */
  lemma ParseUsizeMeaning(s: string)
    ensures ParseUsize(s).Some? <==> IsUsizeText(s)
    ensures ParseUsize(s).Some? ==> ParseUsize(s).value == DigitsValue(Magnitude(s)) <= USIZE_MAX
  {
    if s != [] {
      AccumulateDigits([], Magnitude(s));
      assert [] + Magnitude(s) == Magnitude(s);
    }
  }

  /** Read a pair of numbers, as `(usize, usize)`; both must be valid. */
  function MapSplitOnceToUsize(pair: (string, string)): (r: Option<(nat, nat)>)
    ensures r.Some? ==> r.value.0 <= USIZE_MAX && r.value.1 <= USIZE_MAX
  {
    var a, b := ParseUsize(pair.0), ParseUsize(pair.1);
    if a.Some? && b.Some? then Some((a.value, b.value)) else None
  }

  /** A pair reads exactly when both halves are `usize` texts, as the numbers they denote. */
  lemma MapSplitOnceToUsizeMeaning(pair: (string, string))
    ensures MapSplitOnceToUsize(pair).Some? <==> IsUsizeText(pair.0) && IsUsizeText(pair.1)
    ensures MapSplitOnceToUsize(pair).Some? ==>
              MapSplitOnceToUsize(pair).value == (DigitsValue(Magnitude(pair.0)), DigitsValue(Magnitude(pair.1)))
  {
    ParseUsizeMeaning(pair.0);
    ParseUsizeMeaning(pair.1);
  }

  // ---------------------------------------------------------------------
  // Writing numbers

  function DigitChar(d: nat): (c: char)
    requires d <= 9
    ensures IsDigit(c) && DigitValue(c) == d
  {
    ('0' as int + d) as char
  }

  /** The shortest decimal text of `n`. */
  function NatText(n: nat): (s: string)
    ensures |s| > 0 && AllDigits(s)
  {
    if n < 10 then [DigitChar(n)] else NatText(n / 10) + [DigitChar(n % 10)]
  }

  /** Reading back a written number gives the number. */
  lemma {:induction false} NatTextValue(n: nat)
    ensures DigitsValue(NatText(n)) == n
  {
    if n >= 10 {
      var s := NatText(n);
      assert s[..|s| - 1] == NatText(n / 10);
      NatTextValue(n / 10);
    }
  }

  /** Every `usize` written in decimal is read back as itself. */
  lemma ParseNatText(n: nat)
    requires n <= USIZE_MAX
    ensures ParseUsize(NatText(n)) == Some(n)
  {
    NatTextValue(n);
    assert Magnitude(NatText(n)) == NatText(n) by {
      assert IsDigit(NatText(n)[0]);
    }
    ParseUsizeMeaning(NatText(n));
  }

  /** A written number holds only digits, so no separator or line ending. */
  lemma NatTextHasNo(n: nat, c: char)
    requires !IsDigit(c)
    ensures c !in NatText(n)
  {
  }
}
