/** The JavaScript string operations the application relies on, written out over
    `seq<char>`: `split` on a one-character separator, `join`, `trim`, and the
    decimal rendering of a count inside a template literal. */
module Text {
  import opened Seqs

  /** The code points `String.prototype.trim` strips: the ECMAScript WhiteSpace
      and LineTerminator sets (tab, vertical tab, form feed, space, no-break
      space, the byte-order mark, the Unicode space separators, LF, CR, and the
      line and paragraph separators). */
  predicate IsWhitespace(c: char) {
    || c == ' ' || c == '\t' || c == '\n' || c == '\r'
    || c == '\U{000B}' || c == '\U{000C}' || c == '\U{00A0}' || c == '\U{FEFF}'
    || c == '\U{1680}' || ('\U{2000}' <= c <= '\U{200A}')
    || c == '\U{2028}' || c == '\U{2029}'
    || c == '\U{202F}' || c == '\U{205F}' || c == '\U{3000}'
  }

  predicate AllWhitespace(s: string) {
    forall i :: 0 <= i < |s| ==> IsWhitespace(s[i])
  }

  /** Neither the first nor the last character is whitespace. */
  predicate IsTrimmed(s: string) {
    |s| == 0 || (!IsWhitespace(s[0]) && !IsWhitespace(s[|s| - 1]))
  }

  // ---------------------------------------------------------------------------
  // trim
  // ---------------------------------------------------------------------------

  /** The number of whitespace characters `s` starts with. */
  function LeadingSpace(s: string): (n: nat)
    ensures n <= |s|
    ensures n < |s| ==> !IsWhitespace(s[n])
  {
    if |s| > 0 && IsWhitespace(s[0]) then 1 + LeadingSpace(s[1..]) else 0
  }

  /** The number of whitespace characters `s` ends with. */
  function TrailingSpace(s: string): (n: nat)
    ensures n <= |s|
    ensures n < |s| ==> !IsWhitespace(s[|s| - 1 - n])
  {
    if |s| > 0 && IsWhitespace(s[|s| - 1]) then 1 + TrailingSpace(s[..|s| - 1]) else 0
  }

  /** What `LeadingSpace` counts is all whitespace. */
  lemma {:induction false} LeadingSpaceIsWhitespace(s: string)
    ensures AllWhitespace(s[..LeadingSpace(s)])
  {
    if |s| > 0 && IsWhitespace(s[0]) {
      LeadingSpaceIsWhitespace(s[1..]);
      assert s[..LeadingSpace(s)] == [s[0]] + s[1..][..LeadingSpace(s[1..])];
    }
  }

  /** What `TrailingSpace` counts is all whitespace. */
  lemma {:induction false} TrailingSpaceIsWhitespace(s: string)
    ensures AllWhitespace(s[|s| - TrailingSpace(s)..])
  {
    if |s| > 0 && IsWhitespace(s[|s| - 1]) {
      var p := s[..|s| - 1];
      TrailingSpaceIsWhitespace(p);
      var t, u := s[|s| - TrailingSpace(s)..], p[|p| - TrailingSpace(p)..];
      assert |t| == |u| + 1;
      forall i | 0 <= i < |t| ensures IsWhitespace(t[i]) {
        if i < |u| {
          assert t[i] == u[i];
        }
      }
    }
  }

  /** `s` without its leading whitespace, not itself starting with whitespace. */
  function TrimStart(s: string): (r: string)
    ensures |r| <= |s|
    ensures |r| == 0 || !IsWhitespace(r[0])
  {
    s[LeadingSpace(s)..]
  }

  /** `s` without its trailing whitespace, not itself ending with whitespace. */
  function TrimEnd(s: string): (r: string)
    ensures |r| <= |s|
    ensures |r| == 0 || !IsWhitespace(r[|r| - 1])
  {
    s[..|s| - TrailingSpace(s)]
  }

  /** JavaScript's `s.trim()`: no whitespace remains at either end, and the
      result is no longer than `s` (`TrimIsInfix` says which part it is). */
  function Trim(s: string): (r: string)
    ensures IsTrimmed(r)
    ensures |r| <= |s|
  {
    var t := TrimStart(s);
    var r := TrimEnd(t);
    assert |r| > 0 ==> r[0] == t[0];
    r
  }

  /** The trim of `s` is the infix of `s` left after removing whitespace from
      both ends: only whitespace is removed. */
  lemma TrimIsInfix(s: string)
    ensures var r := Trim(s);
      exists k :: 0 <= k <= |s| - |r| && r == s[k..k + |r|]
        && AllWhitespace(s[..k]) && AllWhitespace(s[k + |r|..])
  {
    var k := LeadingSpace(s);
    var t := TrimStart(s);
    var r := TrimEnd(t);
    LeadingSpaceIsWhitespace(s);
    TrailingSpaceIsWhitespace(t);
    assert r == s[k..k + |r|];
    assert s[k + |r|..] == t[|r|..];
  }

  /** Trimming never introduces a character. */
  lemma TrimKeepsAbsent(s: string, c: char)
    ensures c !in s ==> c !in Trim(s)
  {
    if c !in s {
      var t := TrimStart(s);
      AbsentFromSlice(s, c, LeadingSpace(s), |s|);
      AbsentFromSlice(t, c, 0, |TrimEnd(t)|);
    }
  }

  lemma AbsentFromSlice(s: string, c: char, lo: nat, hi: nat)
    requires lo <= hi <= |s| && c !in s
    ensures c !in s[lo..hi]
  {
    assert forall j :: 0 <= j < hi - lo ==> s[lo..hi][j] == s[lo + j];
  }

  /** A string with no whitespace at either end is its own trim. */
  lemma TrimOfTrimmed(s: string)
    requires IsTrimmed(s)
    ensures Trim(s) == s
  {
    assert TrimStart(s) == s;
  }

  /** Leading whitespace never survives a trim: `(" " + s).trim() == s.trim()`. */
  lemma TrimSkipsLeadingSpace(s: string)
    ensures Trim(" " + s) == Trim(s)
  {
    assert (" " + s)[1..] == s;
    assert TrimStart(" " + s) == TrimStart(s);
  }

  // ---------------------------------------------------------------------------
  // split and join
  // ---------------------------------------------------------------------------

  /** The position of the first `c` in `s`. */
  function IndexOf(s: string, c: char): (i: nat)
    requires c in s
    ensures i < |s| && s[i] == c && c !in s[..i]
  {
    if s[0] == c then 0 else 1 + IndexOf(s[1..], c)
  }

  /** JavaScript's `s.split(sep)` for a one-character separator: the pieces
      between consecutive separators, always at least one (`"".split(",")` is
      `[""]`), none containing the separator. */
  function Split(s: string, sep: char): (parts: seq<string>)
    ensures |parts| >= 1
    ensures forall i :: 0 <= i < |parts| ==> sep !in parts[i]
    decreases |s|
  {
    if sep !in s then [s]
    else
      var i := IndexOf(s, sep);
      [s[..i]] + Split(s[i + 1..], sep)
  }

  /** JavaScript's `parts.join(sep)`. */
  function Join(parts: seq<string>, sep: string): string {
    if |parts| == 0 then ""
    else if |parts| == 1 then parts[0]
    else parts[0] + sep + Join(parts[1..], sep)
  }

  /** The first piece of a split is the longest separator-free prefix: it is a
      prefix of `s`, and it stops at the first separator if there is one. */
  lemma {:induction false} SplitHead(s: string, sep: char)
    ensures var h := Split(s, sep)[0];
      && |h| <= |s| && h == s[..|h|] && sep !in h
      && (|h| < |s| ==> s[|h|] == sep)
      && (h == s <==> sep !in s)
  {
    if sep in s {
      var i := IndexOf(s, sep);
      assert Split(s, sep)[0] == s[..i];
      assert s[i] == sep && |s[..i]| < |s|;
    }
  }

  /** Splitting undoes joining with the separator. */
  lemma {:induction false} JoinSplit(s: string, sep: char)
    ensures Join(Split(s, sep), [sep]) == s
    decreases |s|
  {
    if sep in s {
      var i := IndexOf(s, sep);
      var rest := s[i + 1..];
      JoinSplit(rest, sep);
      ConsParts(s[..i], Split(rest, sep));
      assert Join(Split(s, sep), [sep]) == s[..i] + [sep] + Join(Split(rest, sep), [sep]);
      assert s == s[..i] + [sep] + rest;
    }
  }

  /** Splitting at a separator that was placed between `a` and `b` splits the
      two halves independently: order is kept and nothing is merged. */
  lemma {:induction false} SplitAppend(a: string, b: string, sep: char)
    requires sep !in a
    ensures Split(a + [sep] + b, sep) == [a] + Split(b, sep)
  {
    var s := a + [sep] + b;
    var i := IndexOf(s, sep);
    assert s[..|a|] == a && s[|a|] == sep;
    assert i == |a|;
    assert s[..i] == a;
    assert s[i + 1..] == b;
  }

  /** Once the first separator is found at `i`, the split is the piece before
      it followed by the split of the rest. */
  lemma SplitAt(s: string, sep: char, i: nat)
    requires i < |s| && s[i] == sep && sep !in s[..i]
    ensures Split(s, sep) == [s[..i]] + Split(s[i + 1..], sep)
  {
    assert IndexOf(s, sep) == i;
  }

  /** Splitting at a separator placed between two strings splits each half on
      its own and concatenates the pieces. */
  lemma {:induction false} SplitConcat(a: string, b: string, sep: char)
    ensures Split(a + [sep] + b, sep) == Split(a, sep) + Split(b, sep)
    decreases |a|
  {
    if sep !in a {
      SplitAppend(a, b, sep);
      assert Split(a, sep) == [a];
    } else {
      var i := IndexOf(a, sep);
      SplitConcat(a[i + 1..], b, sep);
      SplitConcatStep(a, b, sep, i);
    }
  }

  lemma SplitConcatStep(a: string, b: string, sep: char, i: nat)
    requires i < |a| && a[i] == sep && sep !in a[..i]
    requires Split(a[i + 1..] + [sep] + b, sep) == Split(a[i + 1..], sep) + Split(b, sep)
    ensures Split(a + [sep] + b, sep) == Split(a, sep) + Split(b, sep)
  {
    var s := a + [sep] + b;
    SliceAround(a, b, sep, i);
    SplitAt(s, sep, i);
    SplitAt(a, sep, i);
    Regroup(a[..i], Split(a[i + 1..], sep), Split(b, sep), Split(s, sep), Split(a, sep));
  }

  lemma SliceAround(a: string, b: string, sep: char, i: nat)
    requires i < |a|
    ensures var s := a + [sep] + b;
      && i < |s| && s[i] == a[i] && s[..i] == a[..i] && s[i + 1..] == a[i + 1..] + [sep] + b
  {
    var s := a + [sep] + b;
    assert s[..i] == a[..i];
    assert s[i + 1..] == a[i + 1..] + [sep] + b;
  }

  /** A character other than the separator put in front of `s` joins the
      first piece; the other pieces are unchanged. */
  lemma SplitPrepend(c: char, s: string, sep: char)
    requires c != sep
    ensures var parts := Split(s, sep);
      Split([c] + s, sep) == [[c] + parts[0]] + parts[1..]
  {
    var t := [c] + s;
    if sep in s {
      var i := IndexOf(s, sep);
      assert t[..i + 1] == [c] + s[..i];
      assert t[i + 2..] == s[i + 1..];
      SplitAt(t, sep, i + 1);
      SplitAt(s, sep, i);
    } else {
      assert sep !in t;
    }
  }

  /** Joining separator-free pieces and splitting again gives the pieces back. */
  lemma {:induction false} SplitJoin(parts: seq<string>, sep: char)
    requires |parts| >= 1
    requires forall i :: 0 <= i < |parts| ==> sep !in parts[i]
    ensures Split(Join(parts, [sep]), sep) == parts
    decreases |parts|
  {
    if |parts| > 1 {
      SplitJoin(parts[1..], sep);
      SplitAppend(parts[0], Join(parts[1..], [sep]), sep);
      assert parts[0] + [sep] + Join(parts[1..], [sep]) == Join(parts, [sep]);
      assert [parts[0]] + parts[1..] == parts;
    }
  }

  // ---------------------------------------------------------------------------
  // decimal numbers, as `${n}` renders a non-negative integer
  // ---------------------------------------------------------------------------

  predicate IsDigit(c: char) {
    '0' <= c <= '9'
  }

  function DigitChar(d: nat): (c: char)
    requires d < 10
    ensures IsDigit(c) && c as int - '0' as int == d
  {
    ('0' as int + d) as char
  }

  /** The decimal rendering of `n`: non-empty, digits only, no leading zero. */
  function NatToString(n: nat): (s: string)
    ensures |s| >= 1
    ensures forall i :: 0 <= i < |s| ==> IsDigit(s[i])
    ensures |s| > 1 ==> s[0] != '0'
  {
    if n < 10 then [DigitChar(n)]
    else NatToString(n / 10) + [DigitChar(n % 10)]
  }

  /** The value of a string of decimal digits. */
  function DigitsValue(s: string): nat
    requires forall i :: 0 <= i < |s| ==> IsDigit(s[i])
  {
    if |s| == 0 then 0
    else
      assert IsDigit(s[|s| - 1]);
      DigitsValue(s[..|s| - 1]) * 10 + (s[|s| - 1] as int - '0' as int)
  }

  /** Reading a rendered number back gives the number. */
  lemma {:induction false} NatToStringRoundTrip(n: nat)
    ensures DigitsValue(NatToString(n)) == n
  {
    if n >= 10 {
      NatToStringRoundTrip(n / 10);
      var s := NatToString(n);
      assert s[..|s| - 1] == NatToString(n / 10);
    }
  }

  /** Distinct numbers render differently. */
  lemma NatToStringInjective(a: nat, b: nat)
    requires NatToString(a) == NatToString(b)
    ensures a == b
  {
    NatToStringRoundTrip(a);
    NatToStringRoundTrip(b);
  }

  /** "N noun", with an "s" added unless N is 1: how both pages and the event
      card count things. */
  function Counted(n: nat, noun: string): (r: string)
    ensures var d := NatToString(n);
            && |r| > |d| && r[..|d|] == d && r[|d|] == ' '
            && |r| >= |d| + 1 + |noun| && r[|d| + 1..|d| + 1 + |noun|] == noun
            && (|r| == |d| + 1 + |noun| <==> n == 1)
            && (n != 1 ==> r[|r| - 1] == 's')
  {
    var d := NatToString(n);
    var r := d + " " + noun + (if n != 1 then "s" else "");
    assert r[..|d|] == d;
    assert r[|d| + 1..|d| + 1 + |noun|] == noun;
    r
  }

  /** A count of one reads "1 <noun>", with no plural "s". */
  lemma CountedOne(noun: string)
    ensures Counted(1, noun) == ['1', ' '] + noun
  {
    assert DigitChar(1) == '1';
    assert NatToString(1) == ['1'];
    var r := Counted(1, noun);
    assert |r| == |noun| + 2 && r[..1] == ['1'] && r[1] == ' ' && r[2..] == noun;
    assert r == [r[0], r[1]] + r[2..];
  }

  /** A count text names its number: two counts of the same noun read the same
      only when the numbers are equal. */
  lemma CountedReadsBack(n: nat, m: nat, noun: string)
    requires Counted(n, noun) == Counted(m, noun)
    ensures n == m
  {
    var dn, dm := NatToString(n), NatToString(m);
    var restN, restM := Counted(n, noun)[|dn| + 1..], Counted(m, noun)[|dm| + 1..];
    assert Counted(n, noun) == dn + [' '] + restN;
    assert Counted(m, noun) == dm + [' '] + restM;
    assert ' ' !in dn && ' ' !in dm;
    SplitAppend(dn, restN, ' ');
    SplitAppend(dm, restM, ' ');
    NatToStringInjective(n, m);
  }
}
