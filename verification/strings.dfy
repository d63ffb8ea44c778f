/** String primitives the engine takes from the JavaScript runtime: `startsWith`,
    `indexOf`, `split`, `join`, `replace` with a string pattern, and number-to-text
    conversion. Positions are positions in a `seq<char>`. */
module Strings {

  /** Reverses a sequence (the runtime's `Array.prototype.reverse`). */
  function Reverse<T>(s: seq<T>): (r: seq<T>)
    ensures |r| == |s|
    ensures forall i :: 0 <= i < |s| ==> r[i] == s[|s| - 1 - i]
  {
    if s == [] then [] else Reverse(s[1..]) + [s[0]]
  }

  lemma {:induction false} ReverseSnoc<T>(s: seq<T>, x: T)
    ensures Reverse(s + [x]) == [x] + Reverse(s)
  {
    var l, r := Reverse(s + [x]), [x] + Reverse(s);
    assert |l| == |r|;
    forall i | 0 <= i < |l| ensures l[i] == r[i] {
      if i > 0 {
        assert l[i] == (s + [x])[|s| - i];
      }
    }
  }

  predicate StartsWith(s: string, prefix: string)
  {
    |prefix| <= |s| && s[..|prefix|] == prefix
  }

  predicate EndsWith(s: string, suffix: string)
  {
    |suffix| <= |s| && s[|s| - |suffix|..] == suffix
  }

  /** `pat` occurs in `s` starting at position `i`. */
  predicate OccursAt(s: string, pat: string, i: int)
  {
    0 <= i && i + |pat| <= |s| && s[i..i + |pat|] == pat
  }

  /** `pat` occurs in `s` at position `i` and nowhere before it. */
  predicate FirstAt(s: string, pat: string, i: int)
  {
    OccursAt(s, pat, i) && forall j {:trigger OccursAt(s, pat, j)} :: 0 <= j < i ==> !OccursAt(s, pat, j)
  }

  /** The first occurrence of `pat` in `s` at or after position `from`, or -1
      (the runtime's `indexOf`). */
  function FindFrom(s: string, pat: string, from: nat): (r: int)
    requires |pat| > 0
    ensures r == -1 || (from <= r && OccursAt(s, pat, r))
    ensures forall j {:trigger OccursAt(s, pat, j)} :: from <= j && (r == -1 || j < r) ==> !OccursAt(s, pat, j)
    decreases |s| - from
  {
    if from + |pat| > |s| then -1
    else if s[from..from + |pat|] == pat then from
    else FindFrom(s, pat, from + 1)
  }

  function Find(s: string, pat: string): (r: int)
    requires |pat| > 0
    ensures r == -1 || OccursAt(s, pat, r)
    ensures forall j {:trigger OccursAt(s, pat, j)} :: 0 <= j && (r == -1 || j < r) ==> !OccursAt(s, pat, j)
  {
    FindFrom(s, pat, 0)
  }

  /** Whether `pat` occurs nowhere in `s`. */
  predicate Absent(s: string, pat: string)
  {
    forall j {:trigger OccursAt(s, pat, j)} :: 0 <= j < |s| ==> !OccursAt(s, pat, j)
  }

  /** Cuts `s` at every occurrence of the literal string `sep`, scanning from the
      left (the runtime's `split` with a string argument). */
  function Split(s: string, sep: string): (r: seq<string>)
    requires |sep| > 0
    ensures |r| >= 1
    decreases |s|
  {
    var i := Find(s, sep);
    if i < 0 then [s] else [s[..i]] + Split(s[i + |sep|..], sep)
  }

  lemma SplitAbsent(s: string, sep: string)
    requires |sep| > 0 && Absent(s, sep)
    ensures Split(s, sep) == [s]
  {
    assert Find(s, sep) == -1;
  }

  /** A single character `c` is absent from `s` as a pattern exactly when it is
      not an element of `s`. */
  lemma AbsentChar(s: string, c: char)
    requires c !in s
    ensures Absent(s, [c])
  {
    forall j | 0 <= j < |s| ensures !OccursAt(s, [c], j) {
      assert s[j..j + 1] == [s[j]];
    }
  }

  /** Splitting on a one-character separator peels off the text before its first
      occurrence. */
  lemma {:induction false} SplitCons(a: string, c: char, b: string)
    requires c !in a
    ensures Split(a + [c] + b, [c]) == [a] + Split(b, [c])
  {
    var s := a + [c] + b;
    assert OccursAt(s, [c], |a|);
    forall j | 0 <= j < |a| ensures !OccursAt(s, [c], j) {
      assert s[j..j + 1][0] == a[j];
    }
    assert Find(s, [c]) == |a|;
    assert s[..|a|] == a;
    assert s[|a| + 1..] == b;
  }

  /** Joins the strings of `xs` with `sep` in between (the runtime's `join`). */
  function Join(xs: seq<string>, sep: string): string
  {
    if xs == [] then "" else if |xs| == 1 then xs[0] else xs[0] + sep + Join(xs[1..], sep)
  }

  /** Splitting on a character that none of the parts holds undoes joining
      with it. */
  lemma {:induction false} SplitJoin(xs: seq<string>, c: char)
    requires |xs| > 0 && forall i :: 0 <= i < |xs| ==> c !in xs[i]
    ensures Split(Join(xs, [c]), [c]) == xs
    decreases |xs|
  {
    if |xs| == 1 {
      AbsentChar(xs[0], c);
      SplitAbsent(xs[0], [c]);
    } else {
      var tail := Join(xs[1..], [c]);
      SplitJoin(xs[1..], c);
      assert c !in xs[0];
      SplitCons(xs[0], c, tail);
      assert xs == [xs[0]] + xs[1..];
    }
  }

  /** The concatenation of all strings of `xs`. */
  function Concat(xs: seq<string>): string
  {
    if xs == [] then "" else xs[0] + Concat(xs[1..])
  }

  /** `substring(start, end)`: both positions are clamped into `0..|s|` and
      swapped when the first is the larger. */
  function Substring(s: string, start: int, end: int): (r: string)
    ensures 0 <= start <= end <= |s| ==> r == s[start..end]
    ensures start < 0 && end < 0 ==> r == ""
    ensures 0 <= start <= |s| && end >= |s| ==> r == s[start..]
    ensures start >= |s| ==> r == s[if end < 0 then 0 else if end > |s| then |s| else end..]
  {
    var a := if start < 0 then 0 else if start > |s| then |s| else start;
    var b := if end < 0 then 0 else if end > |s| then |s| else end;
    if a <= b then s[a..b] else s[b..a]
  }

  /** Replaces the first occurrence of `pat` by `rep` (the runtime's `replace`
      with a string pattern): text without `pat` is unchanged; otherwise the
      text before the leftmost occurrence and the text after it are kept, and
      that occurrence alone becomes `rep`. */
  function ReplaceFirst(s: string, pat: string, rep: string): (r: string)
    requires |pat| > 0
    ensures Absent(s, pat) ==> r == s
    ensures forall i {:trigger FirstAt(s, pat, i)} :: FirstAt(s, pat, i) ==> r == s[..i] + rep + s[i + |pat|..]
  {
    var i := Find(s, pat);
    if i < 0 then s else s[..i] + rep + s[i + |pat|..]
  }

  function DigitChar(d: nat): (c: char)
    requires d < 10
    ensures '0' <= c <= '9'
  {
    ['0', '1', '2', '3', '4', '5', '6', '7', '8', '9'][d]
  }

  function DigitValue(c: char): nat
  {
    if '0' <= c <= '9' then (c as int - '0' as int) as nat else 0
  }

  predicate IsDigits(s: string)
  {
    forall i :: 0 <= i < |s| ==> '0' <= s[i] <= '9'
  }

  /** Decimal text of a non-negative integer (`n + ''` in the source). */
  function NatToString(n: nat): (s: string)
    ensures |s| >= 1 && IsDigits(s)
  {
    if n < 10 then [DigitChar(n)] else NatToString(n / 10) + [DigitChar(n % 10)]
  }

  /** Value of a string of decimal digits, most significant first. */
  function DecimalValue(s: string): nat
  {
    if s == [] then 0 else DecimalValue(s[..|s| - 1]) * 10 + DigitValue(s[|s| - 1])
  }

  /** Reading back the decimal text of `n` gives `n`. */
  lemma {:induction false} DecimalRoundTrip(n: nat)
    ensures DecimalValue(NatToString(n)) == n
  {
    var s := NatToString(n);
    if n < 10 {
      assert s[..0] == [];
    } else {
      DecimalRoundTrip(n / 10);
      assert s[..|s| - 1] == NatToString(n / 10);
      assert DigitValue(DigitChar(n % 10)) == n % 10;
    }
  }

  /** Distinct numbers have distinct decimal texts. */
  lemma NatToStringInjective(m: nat, n: nat)
    requires NatToString(m) == NatToString(n)
    ensures m == n
  {
    DecimalRoundTrip(m);
    DecimalRoundTrip(n);
  }
}
