/**
 * The few Python `str` operations the site relies on: `strip()`, `split(sep)`,
 * `sep.join(parts)` and `replace(old, new)`, with their defining properties.
 */
module Strings {

  /** Python's `str.isspace()` for one character (ASCII and Unicode white space). */
  predicate IsSpace(c: char) {
    || c == ' '
    || ('\t' <= c <= '\r')
    || ('\U{1C}' <= c <= '\U{1F}')
    || c == '\U{85}' || c == '\U{A0}' || c == '\U{1680}'
    || ('\U{2000}' <= c <= '\U{200A}')
    || c == '\U{2028}' || c == '\U{2029}' || c == '\U{202F}' || c == '\U{205F}' || c == '\U{3000}'
  }

  /** Neither end of `s` is white space (what `strip()` leaves behind). */
  predicate Stripped(s: string) {
    s == [] || (!IsSpace(s[0]) && !IsSpace(s[|s| - 1]))
  }

  /** `s` with its leading white space removed (`lstrip()`; see `TrimLeftSpec`). */
  function TrimLeft(s: string): (r: string)
    ensures |r| <= |s| && r == s[|s| - |r|..]
  {
    if s != [] && IsSpace(s[0]) then TrimLeft(s[1..]) else s
  }

  /** What `lstrip()` removes is white space, and what it keeps does not start with any. */
  lemma {:induction false} TrimLeftSpec(s: string)
    ensures TrimLeft(s) == [] || !IsSpace(TrimLeft(s)[0])
    ensures forall k :: 0 <= k < |s| - |TrimLeft(s)| ==> IsSpace(s[k])
  {
    if s != [] && IsSpace(s[0]) {
      TrimLeftSpec(s[1..]);
      forall k | 1 <= k < |s| - |TrimLeft(s)| ensures IsSpace(s[k]) {
        assert s[k] == s[1..][k - 1];
      }
    }
  }

  /** `s` with its trailing white space removed (`rstrip()`; see `TrimRightSpec`). */
  function TrimRight(s: string): (r: string)
    ensures |r| <= |s| && r == s[..|r|]
  {
    if s != [] && IsSpace(s[|s| - 1]) then TrimRight(s[..|s| - 1]) else s
  }

  /** What `rstrip()` removes is white space, and what it keeps does not end with any. */
  lemma {:induction false} TrimRightSpec(s: string)
    ensures TrimRight(s) == [] || !IsSpace(TrimRight(s)[|TrimRight(s)| - 1])
    ensures forall k :: |TrimRight(s)| <= k < |s| ==> IsSpace(s[k])
  {
    if s != [] && IsSpace(s[|s| - 1]) {
      TrimRightSpec(s[..|s| - 1]);
    }
  }

  /** Number of white-space characters `strip()` removes at the front of `s`. */
  function LeadingSpace(s: string): (n: nat)
    ensures n <= |s|
  {
    |s| - |TrimLeft(s)|
  }

  /** Python's `s.strip()`: white space removed from both ends (see `StripSpec`). */
  function Strip(s: string): (r: string)
    ensures |r| <= |s|
  {
    TrimRight(TrimLeft(s))
  }

  /**
   * What `strip()` returns: the infix of `s` that starts at `LeadingSpace(s)`,
   * such that everything cut off on either side is white space and neither
   * end of what is kept is.
   */
  lemma StripSpec(s: string)
    ensures Stripped(Strip(s))
    ensures LeadingSpace(s) + |Strip(s)| <= |s|
    ensures Strip(s) == s[LeadingSpace(s)..LeadingSpace(s) + |Strip(s)|]
    ensures forall k :: 0 <= k < LeadingSpace(s) ==> IsSpace(s[k])
    ensures forall k :: LeadingSpace(s) + |Strip(s)| <= k < |s| ==> IsSpace(s[k])
  {
    StripEnds(s);
    StripSlice(s);
    LeadingIsSpace(s);
    TrailingSpace(s);
  }

  /** Helper: neither end of what `strip()` keeps is white space. */
  lemma StripEnds(s: string)
    ensures Stripped(Strip(s))
  {
    TrimLeftSpec(s);
    StrippedAfterTrimRight(TrimLeft(s));
  }

  /** Helper: what `strip()` keeps is the infix of `s` starting after the leading white space. */
  lemma StripSlice(s: string)
    ensures LeadingSpace(s) + |Strip(s)| <= |s|
    ensures Strip(s) == s[LeadingSpace(s)..LeadingSpace(s) + |Strip(s)|]
  {
    PrefixOfSuffix(s, TrimLeft(s), Strip(s));
  }

  /** Helper: what `strip()` cuts off before the kept infix is white space. */
  lemma LeadingIsSpace(s: string)
    ensures forall k :: 0 <= k < LeadingSpace(s) ==> IsSpace(s[k])
  {
    TrimLeftSpec(s);
  }

  /** Helper: what `strip()` cuts off after the kept infix is white space. */
  lemma TrailingSpace(s: string)
    ensures forall k :: LeadingSpace(s) + |Strip(s)| <= k < |s| ==> IsSpace(s[k])
  {
    var l := TrimLeft(s);
    var r := TrimRight(l);
    TrimRightSpec(l);
    forall k | LeadingSpace(s) + |r| <= k < |s| ensures IsSpace(s[k]) {
      assert s[k] == l[k - (|s| - |l|)];
    }
  }

  /** Helper: trimming the right end of a string that does not start with white space leaves it stripped. */
  lemma StrippedAfterTrimRight(l: string)
    requires l == [] || !IsSpace(l[0])
    ensures Stripped(TrimRight(l))
  {
    TrimRightSpec(l);
    var r := TrimRight(l);
    if r != [] {
      assert r[0] == l[0];
    }
  }

  /** Helper: a prefix of a suffix of `s` is a slice of `s`. */
  lemma PrefixOfSuffix(s: string, l: string, r: string)
    requires |l| <= |s| && l == s[|s| - |l|..]
    requires |r| <= |l| && r == l[..|r|]
    ensures r == s[|s| - |l|..|s| - |l| + |r|]
  {
  }

  /** What `strip()` keeps holds no character that `s` lacks. */
  lemma StripKeepsOut(s: string, c: char)
    requires c !in s
    ensures c !in Strip(s)
  {
    StripSpec(s);
  }

  /** A string without white space at either end is left as it is by `strip()`. */
  lemma StripKeepsStripped(s: string)
    requires Stripped(s)
    ensures Strip(s) == s
  {
    StripSpec(s);
    var r := Strip(s);
    if s != [] {
      assert !IsSpace(s[0]);
      assert LeadingSpace(s) == 0;
      assert !IsSpace(s[|s| - 1]);
      assert |r| == |s|;
    }
  }

  /** A string made only of white space strips to the empty string. */
  lemma StripAllSpace(s: string)
    requires forall k :: 0 <= k < |s| ==> IsSpace(s[k])
    ensures Strip(s) == []
  {
    StripSpec(s);
  }

  /** Every character of `s` is white space. */
  predicate AllSpace(s: string) {
    forall k :: 0 <= k < |s| ==> IsSpace(s[k])
  }

  /** `lstrip()` removes exactly a white-space prefix in front of a non-space character. */
  lemma {:induction false} TrimLeftPadded(pre: string, t: string)
    requires AllSpace(pre)
    requires t == [] || !IsSpace(t[0])
    ensures TrimLeft(pre + t) == t
  {
    if pre != [] {
      assert (pre + t)[1..] == pre[1..] + t;
      TrimLeftPadded(pre[1..], t);
    } else {
      assert pre + t == t;
    }
  }

  /** `rstrip()` removes exactly a white-space suffix after a non-space character. */
  lemma {:induction false} TrimRightPadded(t: string, post: string)
    requires AllSpace(post)
    requires t == [] || !IsSpace(t[|t| - 1])
    ensures TrimRight(t + post) == t
  {
    if post != [] {
      var last := |post| - 1;
      assert (t + post)[..|t + post| - 1] == t + post[..last];
      TrimRightPadded(t, post[..last]);
    } else {
      assert t + post == t;
    }
  }

  /** `strip()` of a stripped text surrounded by white space gives that text back. */
  lemma StripPadded(pre: string, s: string, post: string)
    requires AllSpace(pre) && AllSpace(post)
    requires s != [] && Stripped(s)
    ensures Strip(pre + s + post) == s
  {
    assert pre + s + post == pre + (s + post);
    TrimLeftPadded(pre, s + post);
    TrimRightPadded(s, post);
  }

  /** Number of occurrences of `c` in `s`. */
  function Count(s: string, c: char): nat {
    if s == [] then 0 else (if s[0] == c then 1 else 0) + Count(s[1..], c)
  }

  /** Python's `sep.join(parts)` for a one-character separator. */
  function Join(parts: seq<string>, sep: char): string {
    if |parts| == 0 then []
    else if |parts| == 1 then parts[0]
    else parts[0] + [sep] + Join(parts[1..], sep)
  }

  /**
   * Python's `s.split(sep)` for a one-character separator: the pieces between
   * separators, never an empty list (`"".split(",") == [""]`). Joining the
   * pieces again gives `s` back, and there is one piece more than there are
   * separators.
   */
  function Split(s: string, sep: char): (r: seq<string>)
    ensures |r| == Count(s, sep) + 1
    ensures forall i :: 0 <= i < |r| ==> sep !in r[i]
    ensures Join(r, sep) == s
  {
    if s == [] then [[]]
    else
      var rest := Split(s[1..], sep);
      if s[0] == sep then
        assert [s[0]] + s[1..] == s;
        [[]] + rest
      else
        assert [s[0]] + rest[0] + Join(rest, sep)[|rest[0]|..] == s by {
          JoinHead(rest, sep);
        }
        JoinHead(rest, sep);
        JoinConsHead(rest, sep, s[0]);
        [[s[0]] + rest[0]] + rest[1..]
  }

  /** `Join(parts)` begins with the first part. */
  lemma JoinHead(parts: seq<string>, sep: char)
    requires |parts| >= 1
    ensures |parts[0]| <= |Join(parts, sep)| && Join(parts, sep)[..|parts[0]|] == parts[0]
  {
  }

  /** Prepending a character to the first part prepends it to the join. */
  lemma JoinConsHead(parts: seq<string>, sep: char, c: char)
    requires |parts| >= 1
    ensures Join([[c] + parts[0]] + parts[1..], sep) == [c] + Join(parts, sep)
  {
    var q := [[c] + parts[0]] + parts[1..];
    if |parts| > 1 {
      assert q[1..] == parts[1..];
    }
  }

  /** Splitting at the first separator: a separator-free head comes off as one piece. */
  lemma {:induction false} SplitAfterHead(a: string, sep: char, b: string)
    requires sep !in a
    ensures Split(a + [sep] + b, sep) == [a] + Split(b, sep)
  {
    if a == [] {
      assert a + [sep] + b == [sep] + b;
      assert ([sep] + b)[1..] == b;
    } else {
      assert (a + [sep] + b)[1..] == a[1..] + [sep] + b;
      SplitAfterHead(a[1..], sep, b);
      assert [a[0]] + a[1..] == a;
    }
  }

  /** Splitting a string whose head contains no separator at all yields that head. */
  lemma {:induction false} SplitNoSep(a: string, sep: char)
    requires sep !in a
    ensures Split(a, sep) == [a]
  {
    if a != [] {
      SplitNoSep(a[1..], sep);
      assert [a[0]] + a[1..] == a;
    }
  }

  /**
   * The other round trip: joining separator-free pieces and splitting again
   * gives the pieces back.
   */
  lemma {:induction false} SplitJoin(parts: seq<string>, sep: char)
    requires |parts| >= 1
    requires forall i :: 0 <= i < |parts| ==> sep !in parts[i]
    ensures Split(Join(parts, sep), sep) == parts
  {
    if |parts| == 1 {
      SplitNoSep(parts[0], sep);
    } else {
      SplitJoin(parts[1..], sep);
      SplitAfterHead(parts[0], sep, Join(parts[1..], sep));
    }
  }

  /** A character other than the separator that no part holds is not in their join. */
  lemma {:induction false} JoinKeepsOut(parts: seq<string>, sep: char, c: char)
    requires c != sep
    requires forall i :: 0 <= i < |parts| ==> c !in parts[i]
    ensures c !in Join(parts, sep)
  {
    if |parts| > 1 {
      JoinKeepsOut(parts[1..], sep, c);
    }
  }

  /** A character counted at least once occurs in the string. */
  lemma {:induction false} CountedIsIn(s: string, c: char)
    requires Count(s, c) > 0
    ensures c in s
  {
    if s[0] != c {
      CountedIsIn(s[1..], c);
    }
  }

  /** Three separator-free pieces joined by the separator split back into those pieces. */
  lemma SplitThree(a: string, b: string, c: string, sep: char)
    requires sep !in a && sep !in b && sep !in c
    ensures Split(a + [sep] + b + [sep] + c, sep) == [a, b, c]
  {
    var bc := b + [sep] + c;
    SplitNoSep(c, sep);
    SplitAfterHead(b, sep, c);
    assert Split(bc, sep) == [b, c];
    assert a + [sep] + b + [sep] + c == a + [sep] + bc;
    SplitAfterHead(a, sep, bc);
    assert [a] + [b, c] == [a, b, c];
  }

  /** `pat` occurs in `s` starting at index `i`. */
  predicate OccursAt(s: string, pat: string, i: nat) {
    i + |pat| <= |s| && s[i..i + |pat|] == pat
  }

  /** Python's `pat in s`. */
  predicate Contains(s: string, pat: string) {
    exists i: nat | i <= |s| :: OccursAt(s, pat, i)
  }

  /**
   * Python's `s.replace(pat, rep)`: every non-overlapping occurrence of `pat`,
   * found scanning from the left, is replaced by `rep`.
   */
  function ReplaceAll(s: string, pat: string, rep: string): (r: string)
    requires pat != []
    ensures |rep| == |pat| ==> |r| == |s|
    ensures rep == pat ==> r == s
    decreases |s|
  {
    if |s| < |pat| then s
    else if s[..|pat|] == pat then rep + ReplaceAll(s[|pat|..], pat, rep)
    else [s[0]] + ReplaceAll(s[1..], pat, rep)
  }

  /** `replace` leaves a string in which the pattern does not occur unchanged. */
  lemma {:induction false} ReplaceAbsent(s: string, pat: string, rep: string)
    requires pat != []
    requires !Contains(s, pat)
    ensures ReplaceAll(s, pat, rep) == s
    decreases |s|
  {
    if |s| >= |pat| {
      assert !OccursAt(s, pat, 0);
      assert s[..|pat|] == s[0..0 + |pat|];
      if Contains(s[1..], pat) {
        var i: nat :| i <= |s[1..]| && OccursAt(s[1..], pat, i);
        assert s[1..][i..i + |pat|] == s[i + 1..i + 1 + |pat|];
        assert OccursAt(s, pat, i + 1);
        assert false;
      }
      ReplaceAbsent(s[1..], pat, rep);
      assert [s[0]] + s[1..] == s;
    }
  }

  /**
   * `replace` copies a prefix holding no character that could start the
   * pattern, and carries on after it.
   */
  lemma {:induction false} ReplaceFreePrefix(a: string, rest: string, pat: string, rep: string)
    requires pat != [] && pat[0] !in a
    ensures ReplaceAll(a + rest, pat, rep) == a + ReplaceAll(rest, pat, rep)
    decreases |a|
  {
    var s := a + rest;
    if a == [] {
      assert s == rest;
    } else if |s| < |pat| {
      assert ReplaceAll(rest, pat, rep) == rest;
    } else {
      ReplaceSkipsChar(s, pat, rep);
      assert s[1..] == a[1..] + rest;
      ReplaceFreePrefix(a[1..], rest, pat, rep);
      assert a == [a[0]] + a[1..];
    }
  }

  /** Helper: a first character that does not start the pattern is copied. */
  lemma ReplaceSkipsChar(s: string, pat: string, rep: string)
    requires pat != [] && s != [] && s[0] != pat[0]
    ensures ReplaceAll(s, pat, rep) == [s[0]] + ReplaceAll(s[1..], pat, rep)
  {
    if |s| >= |pat| {
      assert s[..|pat|][0] == s[0];
    }
  }

  /** An occurrence of the pattern at the front is replaced, and the scan goes on after it. */
  lemma ReplaceAtFront(pat: string, rest: string, rep: string)
    requires pat != []
    ensures ReplaceAll(pat + rest, pat, rep) == rep + ReplaceAll(rest, pat, rep)
  {
    assert (pat + rest)[..|pat|] == pat;
    assert (pat + rest)[|pat|..] == rest;
  }

  /**
   * A piece that starts like the pattern but differs from it at some index
   * `j`, and holds the pattern's first character nowhere else, is copied.
   */
  lemma ReplaceMismatch(t: string, rest: string, pat: string, rep: string, j: nat)
    requires pat != [] && t != [] && pat[0] !in t[1..]
    requires j < |t| && j < |pat| && t[j] != pat[j]
    ensures ReplaceAll(t + rest, pat, rep) == t + ReplaceAll(rest, pat, rep)
  {
    var s := t + rest;
    if |s| >= |pat| {
      assert s[..|pat|][j] == t[j];
      assert s[1..] == t[1..] + rest;
      ReplaceFreePrefix(t[1..], rest, pat, rep);
      assert t == [t[0]] + t[1..];
    } else {
      assert |rest| < |pat|;
    }
  }

  /** Python's `sep.join(parts)` for a separator of any length. */
  function JoinWith(parts: seq<string>, sep: string): string {
    if |parts| == 0 then []
    else if |parts| == 1 then parts[0]
    else parts[0] + sep + JoinWith(parts[1..], sep)
  }

  /**
   * Python's identity `s.replace(pat, rep) == rep.join(s.split(pat))`, for
   * pieces in which the pattern's first character does not occur: joining
   * them with the pattern and replacing it gives them joined with `rep`.
   */
  lemma {:induction false} ReplaceJoin(parts: seq<string>, pat: string, rep: string)
    requires pat != []
    requires forall i :: 0 <= i < |parts| ==> pat[0] !in parts[i]
    ensures ReplaceAll(JoinWith(parts, pat), pat, rep) == JoinWith(parts, rep)
  {
    if |parts| == 1 {
      ReplaceFreePrefix(parts[0], [], pat, rep);
      assert parts[0] + [] == parts[0];
    } else if |parts| > 1 {
      var tail := JoinWith(parts[1..], pat);
      ReplaceJoin(parts[1..], pat, rep);
      assert JoinWith(parts, pat) == parts[0] + (pat + tail);
      ReplaceFreePrefix(parts[0], pat + tail, pat, rep);
      ReplaceAtFront(pat, tail, rep);
      assert JoinWith(parts, rep) == parts[0] + (rep + JoinWith(parts[1..], rep));
    }
  }

  /** Replacing by something no longer than the pattern never makes a string longer. */
  lemma {:induction false} ReplaceNotLonger(s: string, pat: string, rep: string)
    requires pat != [] && |rep| <= |pat|
    ensures |ReplaceAll(s, pat, rep)| <= |s|
    decreases |s|
  {
    if |s| >= |pat| {
      if s[..|pat|] == pat {
        ReplaceNotLonger(s[|pat|..], pat, rep);
      } else {
        ReplaceNotLonger(s[1..], pat, rep);
      }
    }
  }

  /** The value of one decimal digit. */
  function DigitValue(c: char): nat {
    if '0' <= c <= '9' then c as int - '0' as int else 0
  }

  /** The number a string of decimal digits denotes (`int(s)`), most significant first. */
  function DecimalValue(s: string): nat {
    if s == [] then 0 else 10 * DecimalValue(s[..|s| - 1]) + DigitValue(s[|s| - 1])
  }

  /** Helper: one more digit at the end multiplies the value by ten and adds the digit. */
  lemma DecimalValueSnoc(s: string, c: char)
    ensures DecimalValue(s + [c]) == 10 * DecimalValue(s) + DigitValue(c)
  {
    assert (s + [c])[..|s|] == s;
  }

  /** The decimal digits of `n`, most significant first (Python's `str(n)` for `n >= 0`); they denote `n`. */
  function Digits(n: nat): (r: string)
    ensures r != [] && forall k :: 0 <= k < |r| ==> '0' <= r[k] <= '9'
    ensures DecimalValue(r) == n
    decreases n
  {
    var c := (('0' as int) + n % 10) as char;
    if n < 10 then
      DecimalValueSnoc([], c);
      assert [] + [c] == [c];
      [c]
    else
      DecimalValueSnoc(Digits(n / 10), c);
      Digits(n / 10) + [c]
  }

  /** Every character of `s` is a decimal digit. */
  predicate AllDigits(s: string) {
    forall k :: 0 <= k < |s| ==> '0' <= s[k] <= '9'
  }

  /** Three groups joined by a separator: where each group sits in the result. */
  lemma ThreeGroups(x: string, y: string, z: string, sep: char)
    ensures var r := x + [sep] + y + [sep] + z;
      && |r| == |x| + |y| + |z| + 2
      && r[..|x|] == x && r[|x|] == sep
      && r[|x| + 1..|x| + 1 + |y|] == y && r[|x| + 1 + |y|] == sep
      && r[|x| + |y| + 2..] == z
      && (AllDigits(x) && AllDigits(y) && AllDigits(z) ==>
            forall k :: 0 <= k < |r| && k != |x| && k != |x| + 1 + |y| ==> '0' <= r[k] <= '9')
  {
    var r := x + [sep] + y + [sep] + z;
    if AllDigits(x) && AllDigits(y) && AllDigits(z) {
      forall k | 0 <= k < |r| && k != |x| && k != |x| + 1 + |y| ensures '0' <= r[k] <= '9' {
        if k < |x| {
          assert r[k] == x[k];
        } else if k < |x| + 1 + |y| {
          assert r[k] == y[k - |x| - 1];
        } else {
          assert r[k] == z[k - |x| - |y| - 2];
        }
      }
    }
  }

  /** A slice that lies within the first part of a concatenation is a slice of that part. */
  lemma SliceOfPrefix(a: string, b: string, i: nat, j: nat)
    requires i <= j <= |a|
    ensures (a + b)[i..j] == a[i..j]
  {
  }

  /** Leading zeros do not change the value of a digit string. */
  lemma {:induction false} LeadingZeros(z: string, d: string)
    requires forall k :: 0 <= k < |z| ==> z[k] == '0'
    ensures DecimalValue(z + d) == DecimalValue(d)
    decreases |d|
  {
    if d == [] {
      assert z + d == z;
      AllZeros(z);
    } else {
      var last := d[|d| - 1];
      assert z + d == (z + d[..|d| - 1]) + [last];
      DecimalValueSnoc(z + d[..|d| - 1], last);
      LeadingZeros(z, d[..|d| - 1]);
      assert d == d[..|d| - 1] + [last];
      DecimalValueSnoc(d[..|d| - 1], last);
    }
  }

  /** Helper: a string of zeros denotes zero. */
  lemma {:induction false} AllZeros(z: string)
    requires forall k :: 0 <= k < |z| ==> z[k] == '0'
    ensures DecimalValue(z) == 0
    decreases |z|
  {
    if z != [] {
      AllZeros(z[..|z| - 1]);
    }
  }

  function Pow10(k: nat): (r: nat)
    ensures r >= 1
  {
    if k == 0 then 1 else 10 * Pow10(k - 1)
  }

  /** A number below `10^k` has at most `k` digits. */
  lemma {:induction false} DigitsLength(n: nat, k: nat)
    ensures k >= 1 && n < Pow10(k) ==> |Digits(n)| <= k
    decreases k
  {
    if k >= 1 && n < Pow10(k) && n >= 10 {
      assert k >= 2;
      DigitsLength(n / 10, k - 1);
    }
  }

  /**
   * `n` in decimal, left-padded with zeros to at least `width` characters
   * (`%0*d`); exactly `width` characters when `n` has no more digits than that.
   */
  function ZeroPad(n: nat, width: nat): (r: string)
    ensures |r| >= width && forall k :: 0 <= k < |r| ==> '0' <= r[k] <= '9'
    ensures width >= 1 && n < Pow10(width) ==> |r| == width
  {
    DigitsLength(n, width);
    var d := Digits(n);
    if |d| >= width then d else seq(width - |d|, _ => '0') + d
  }

  /** The padded digits still denote `n`. */
  lemma ZeroPadValue(n: nat, width: nat)
    ensures DecimalValue(ZeroPad(n, width)) == n
  {
    var d := Digits(n);
    if |d| < width {
      LeadingZeros(seq(width - |d|, _ => '0'), d);
    }
  }

  // ---------------------------------------------------------------- splitlines

  /**
   * The characters `str.splitlines()` breaks at: line feed, vertical tab,
   * form feed, carriage return, the file, group and record separators, next
   * line and the Unicode line and paragraph separators.
   */
  predicate IsLineBoundary(c: char) {
    || ('\n' <= c <= '\r')
    || ('\U{1C}' <= c <= '\U{1E}')
    || c == '\U{85}' || c == '\U{2028}' || c == '\U{2029}'
  }

  /** Index of the first line boundary in `s`, or `|s|` when there is none. */
  function FirstBoundary(s: string): (i: nat)
    ensures i <= |s|
    ensures forall k :: 0 <= k < i ==> !IsLineBoundary(s[k])
    ensures i < |s| ==> IsLineBoundary(s[i])
  {
    if s == [] || IsLineBoundary(s[0]) then 0 else 1 + FirstBoundary(s[1..])
  }

  /** Where the text after the line break at `i` starts; `\r\n` is one break. */
  function BreakEnd(s: string, i: nat): nat
    requires i < |s|
  {
    if s[i] == '\r' && i + 1 < |s| && s[i + 1] == '\n' then i + 2 else i + 1
  }

  /**
   * Python's `s.splitlines()`: the lines of `s` without their breaks. The
   * empty string has no lines, and a break at the very end adds no empty line.
   */
  function SplitLines(s: string): (r: seq<string>)
    ensures r == [] <==> s == []
    ensures forall j :: 0 <= j < |r| ==> forall k :: 0 <= k < |r[j]| ==> !IsLineBoundary(r[j][k])
    decreases |s|
  {
    if s == [] then []
    else
      var i := FirstBoundary(s);
      if i == |s| then [s]
      else [s[..i]] + SplitLines(s[BreakEnd(s, i)..])
  }

  /** Some line break in `s` has text after it. */
  predicate SpansLines(s: string) {
    exists i :: 0 <= i < |s| && IsLineBoundary(s[i]) && BreakEnd(s, i) < |s|
  }

  /** `s` spans lines exactly when `splitlines()` gives more than one line. */
  lemma SpansLinesIff(s: string)
    ensures SpansLines(s) <==> |SplitLines(s)| > 1
  {
    if s != [] {
      var i := FirstBoundary(s);
      if i < |s| {
        var e := BreakEnd(s, i);
        assert |SplitLines(s)| == 1 + |SplitLines(s[e..])|;
        if e == |s| {
          forall j | 0 <= j < |s| && IsLineBoundary(s[j]) ensures BreakEnd(s, j) == |s| {
            assert i <= j;
          }
        } else {
          assert IsLineBoundary(s[i]) && BreakEnd(s, i) < |s|;
        }
      }
    }
  }

  /** A boundary with text after it, other than the `\n` of a final `\r\n`, splits the text. */
  lemma BreakInside(a: string, c: char, b: string)
    requires IsLineBoundary(c) && b != []
    requires c != '\r' || b != "\n"
    ensures SpansLines(a + [c] + b)
  {
    var s := a + [c] + b;
    assert s[|a|] == c;
    assert BreakEnd(s, |a|) < |s|;
  }

  /** A single line ended by `\r\n` is still one line. */
  lemma FinalBreakOneLine(a: string)
    requires forall k :: 0 <= k < |a| ==> !IsLineBoundary(a[k])
    ensures SplitLines(a + "\r\n") == [a]
    ensures !SpansLines(a + "\r\n")
  {
    var s := a + "\r\n";
    assert FirstBoundary(s) == |a| by {
      assert s[|a|] == '\r';
      assert forall k :: 0 <= k < |a| ==> s[k] == a[k];
    }
    assert s[..|a|] == a;
    assert BreakEnd(s, |a|) == |s|;
    assert s[|s|..] == [];
    SpansLinesIff(s);
  }
}
