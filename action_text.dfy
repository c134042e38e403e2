/**
 * The text handling of the action store (lyntin/modules/action.py): the
 * placeholder scanner `get_ordered_vars`, the number formatting of
 * `getStatus` and `getInfo`, the line substitution bound to `%a`, and the
 * string order `getActions` sorts by.
 */
module ActionText {

  predicate IsDigit(c: char)
  {
    '0' <= c <= '9'
  }

  predicate AllDigits(s: string)
  {
    forall k | 0 <= k < |s| :: IsDigit(s[k])
  }

  /** The number of leading digits of `s`: what `\d+` consumes, greedily. */
  function DigitRun(s: string): (n: nat)
    ensures n <= |s| && AllDigits(s[..n])
    ensures n < |s| ==> !IsDigit(s[n])
  {
    if s == [] || !IsDigit(s[0]) then 0
    else
      var n := 1 + DigitRun(s[1..]);
      assert forall k | 1 <= k < n :: s[..n][k] == s[1..][..n - 1][k - 1];
      n
  }

  /**
   * `get_ordered_vars(text)`: `re.findall('%_?(\d+)', text)`, the digit
   * strings of the placeholders `%N` and `%_N`, left to right, scanning
   * on after each match. Every name is a non-empty run of digits.
   */
  function OrderedVars(text: string): (names: seq<string>)
    decreases |text|
    ensures forall k | 0 <= k < |names| :: |names[k]| > 0 && AllDigits(names[k])
  {
    if text == [] then []
    else if text[0] != '%' then OrderedVars(text[1..])
    else
      var j := if |text| > 1 && text[1] == '_' then 2 else 1;
      var d := DigitRun(text[j..]);
      if d == 0 then OrderedVars(text[1..])
      else
        assert text[j..j + d] == text[j..][..d];
        [text[j..j + d]] + OrderedVars(text[j + d..])
  }

  /** The number of `%` signs in `s`. */
  function Percents(s: string): nat
  {
    if s == [] then 0 else (if s[0] == '%' then 1 else 0) + Percents(s[1..])
  }

  lemma {:induction false} PercentsAppend(a: string, b: string)
    ensures Percents(a + b) == Percents(a) + Percents(b)
  {
    if a != [] {
      assert (a + b)[1..] == a[1..] + b;
      PercentsAppend(a[1..], b);
    } else {
      assert a + b == b;
    }
  }

  /** There is at most one placeholder per `%` sign; a trigger without `%` has none. */
  lemma {:induction false} OrderedVarsBound(text: string)
    decreases |text|
    ensures |OrderedVars(text)| <= Percents(text)
  {
    if text != [] {
      if text[0] != '%' {
        OrderedVarsBound(text[1..]);
      } else {
        var j := if |text| > 1 && text[1] == '_' then 2 else 1;
        var d := DigitRun(text[j..]);
        if d == 0 {
          OrderedVarsBound(text[1..]);
        } else {
          var head, tail := text[..j + d], text[j + d..];
          OrderedVarsBound(tail);
          assert text == head + tail;
          PercentsAppend(head, tail);
          assert head[0] == '%';
        }
      }
    }
  }

  /** The scanner at a `%` that starts a placeholder with `d` digits from position `j`. */
  lemma {:induction false} OrderedVarsAt(text: string, j: nat, d: nat)
    requires |text| > 0 && text[0] == '%'
    requires j == (if |text| > 1 && text[1] == '_' then 2 else 1)
    requires j + d <= |text| && DigitRun(text[j..]) == d && d > 0
    ensures OrderedVars(text) == [text[j..j + d]] + OrderedVars(text[j + d..])
  {
  }

  /** A placeholder `%N` or `%_N` followed by a non-digit contributes `N`, then the scan goes on after it. */
  lemma {:induction false} OrderedVarsPlaceholder(underscore: bool, n: string, rest: string)
    requires |n| > 0 && AllDigits(n)
    requires rest == [] || !IsDigit(rest[0])
    ensures OrderedVars((if underscore then "%_" else "%") + n + rest) == [n] + OrderedVars(rest)
  {
    var prefix: string := if underscore then "%_" else "%";
    var text := prefix + n + rest;
    var j := |prefix|;
    assert text[1] == (if underscore then '_' else n[0]);
    assert text[j..] == n + rest by {
      assert text == prefix + (n + rest);
    }
    DigitRunOf(n, rest);
    OrderedVarsAt(text, j, |n|);
    assert text[j..j + |n|] == n;
    assert text[j + |n|..] == rest;
  }

  /** A character that starts no placeholder adds no name: the scan moves on by one. */
  lemma {:induction false} OrderedVarsSkip(c: char, rest: string)
    requires c == '%' ==> rest == [] || (!IsDigit(rest[0]) && (rest[0] == '_' ==> |rest| == 1 || !IsDigit(rest[1])))
    ensures OrderedVars([c] + rest) == OrderedVars(rest)
  {
    var text := [c] + rest;
    assert text[1..] == rest;
    if c == '%' && rest != [] {
      if rest[0] == '_' {
        assert text[2..] == rest[1..];
      } else {
        assert text[1..] == rest;
      }
    }
  }

  lemma {:induction false} DigitRunOf(n: string, rest: string)
    requires AllDigits(n)
    requires rest == [] || !IsDigit(rest[0])
    ensures DigitRun(n + rest) == |n|
  {
    if n != [] {
      assert (n + rest)[1..] == n[1..] + rest;
      DigitRunOf(n[1..], rest);
    } else {
      assert n + rest == rest;
    }
  }

  // ---------------------------------------------------------------------
  // Numbers.

  function DigitChar(d: nat): char
    requires d < 10
  {
    ['0', '1', '2', '3', '4', '5', '6', '7', '8', '9'][d]
  }

  function DigitValue(c: char): nat
    requires IsDigit(c)
  {
    (c as int) - ('0' as int)
  }

  /** `"%d" % n` for a natural number. */
  function NatToString(n: nat): (s: string)
    decreases n
  {
    if n < 10 then [DigitChar(n)] else NatToString(n / 10) + [DigitChar(n % 10)]
  }

  /** The value of a string of decimal digits. */
  function ParseNat(s: string): nat
    requires AllDigits(s)
    decreases |s|
  {
    if s == [] then 0 else 10 * ParseNat(s[..|s| - 1]) + DigitValue(s[|s| - 1])
  }

  /** `"%d" % n` is a string of digits, without leading zero, that reads back as `n`. */
  lemma {:induction false} NatToStringParses(n: nat)
    decreases n
    ensures |NatToString(n)| > 0 && AllDigits(NatToString(n))
    ensures NatToString(n)[0] == '0' ==> n == 0
    ensures ParseNat(NatToString(n)) == n
  {
    var s := NatToString(n);
    if n >= 10 {
      NatToStringParses(n / 10);
      var p := NatToString(n / 10);
      assert s[..|s| - 1] == p;
      assert s[0] == p[0];
    }
  }

  /** `"%d" % i` for any integer. */
  function IntToString(i: int): string
  {
    if i < 0 then "-" + NatToString(-i) else NatToString(i)
  }

  /** The status line `"%d action(s)." % count`. */
  function StatusLine(count: nat): string
  {
    NatToString(count) + " action(s)."
  }

  /** The status line reads back as the count it was made from. */
  lemma {:induction false} StatusLineParses(count: nat)
    ensures var s := StatusLine(count); var n := |s| - |" action(s)."|;
      n > 0 && s[n..] == " action(s)." && AllDigits(s[..n]) && ParseNat(s[..n]) == count
    ensures StatusLine(count)[0] == '0' ==> count == 0
  {
    NatToStringParses(count);
    var s := StatusLine(count);
    assert s[..|NatToString(count)|] == NatToString(count);
  }

  // ---------------------------------------------------------------------
  // The `%a` variable.

  /** `line.replace(';', '_')`. */
  function Neutralize(line: string): (r: string)
    ensures |r| == |line|
  {
    if line == [] then [] else [if line[0] == ';' then '_' else line[0]] + Neutralize(line[1..])
  }

  /** The bound line holds no `;`, and every other character is kept in place. */
  lemma {:induction false} NeutralizeMeans(line: string)
    ensures forall k | 0 <= k < |line| :: Neutralize(line)[k] == if line[k] == ';' then '_' else line[k]
  {
    if line != [] {
      NeutralizeMeans(line[1..]);
      forall k | 1 <= k < |line| ensures Neutralize(line)[k] == Neutralize(line[1..])[k - 1] {
      }
    }
  }

  // ---------------------------------------------------------------------
  // The order of Python 2 strings.

  /** `a < b` on Python 2 strings: the first differing character decides, a proper prefix comes first. */
  predicate LexLt(a: string, b: string)
    decreases |a|
  {
    if a == [] then b != []
    else if b == [] then false
    else if a[0] != b[0] then a[0] < b[0]
    else LexLt(a[1..], b[1..])
  }

  lemma {:induction false} LexLtIrreflexive(a: string)
    ensures !LexLt(a, a)
  {
    if a != [] {
      LexLtIrreflexive(a[1..]);
    }
  }

  /** Two different strings are ordered one way, and only one. */
  lemma {:induction false} LexLtTotal(a: string, b: string)
    ensures a != b ==> LexLt(a, b) || LexLt(b, a)
    ensures !(LexLt(a, b) && LexLt(b, a))
  {
    if a != [] && b != [] && a[0] == b[0] {
      LexLtTotal(a[1..], b[1..]);
      if a != b {
        assert a == [a[0]] + a[1..] && b == [b[0]] + b[1..];
      }
    }
  }

  lemma {:induction false} LexLtTransitive(a: string, b: string, c: string)
    requires LexLt(a, b) && LexLt(b, c)
    ensures LexLt(a, c)
  {
    if a != [] && a[0] == b[0] && b[0] == c[0] {
      LexLtTransitive(a[1..], b[1..], c[1..]);
    }
  }

  /** Strictly ascending: each string before every later one. */
  predicate Ascending(s: seq<string>)
  {
    forall i, j | 0 <= i < j < |s| :: LexLt(s[i], s[j])
  }

  // ---------------------------------------------------------------------
  // `getInfo` lines.

  /** `"\n".join(lines)`. */
  function JoinLines(lines: seq<string>): string
  {
    if lines == [] then ""
    else if |lines| == 1 then lines[0]
    else lines[0] + "\n" + JoinLines(lines[1..])
  }

  /** `'%s' % onetime` for a boolean flag. */
  function BoolText(b: bool): string
  {
    if b then "True" else "False"
  }
}
