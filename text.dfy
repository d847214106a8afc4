/** String helpers that stand for the JavaScript string built-ins the core calls:
    `startsWith`, `endsWith`, case-insensitive regular expressions over a fixed
    fragment, `split`, `join` and number-to-string conversion. */
module Text {

  predicate StartsWith(s: string, prefix: string) {
    |prefix| <= |s| && s[..|prefix|] == prefix
  }

  predicate EndsWith(s: string, suffix: string) {
    |suffix| <= |s| && s[|s| - |suffix|..] == suffix
  }

  /** ASCII lower-casing of one character. A JavaScript regular expression with
      the `i` flag and no `u` flag never folds a non-ASCII character onto an
      ASCII letter, so for an all-ASCII fragment this is exactly its matching rule. */
  function FoldChar(c: char): (d: char)
    ensures 'A' <= c <= 'Z' ==> d as int == c as int + 32
    ensures !('A' <= c <= 'Z') ==> d == c
  {
    if 'A' <= c <= 'Z' then (c as int + 32) as char else c
  }

  function Fold(s: string): (r: string)
    ensures |r| == |s|
    ensures forall i :: 0 <= i < |s| ==> r[i] == FoldChar(s[i])
  {
    if s == [] then [] else [FoldChar(s[0])] + Fold(s[1..])
  }

  /** `fragment` equals the window of `s` starting at `i`, after folding case. */
  predicate MatchesAt(s: string, fragment: string, i: int) {
    0 <= i && i + |fragment| <= |s| && Fold(s[i..i + |fragment|]) == fragment
  }

  /** Some window of `s` equals `fragment` after folding case. */
  ghost predicate OccursFolded(s: string, fragment: string) {
    exists i :: MatchesAt(s, fragment, i)
  }

  /** Left-to-right scan for `fragment` (given in lower case) in `s`, folding case:
      the search a regular expression such as `/test/i` performs. */
  function ContainsFolded(s: string, fragment: string): (b: bool)
    ensures b <==> OccursFolded(s, fragment)
    decreases |s|
  {
    if |s| < |fragment| then
      false
    else if Fold(s[..|fragment|]) == fragment then
      assert MatchesAt(s, fragment, 0) by { assert s[0..0 + |fragment|] == s[..|fragment|]; }
      true
    else
      var b := ContainsFolded(s[1..], fragment);
      WindowShift(s, fragment);
      b
  }

  lemma WindowShift(s: string, fragment: string)
    requires |fragment| <= |s| && Fold(s[..|fragment|]) != fragment
    ensures OccursFolded(s, fragment) <==> OccursFolded(s[1..], fragment)
  {
    if OccursFolded(s, fragment) {
      var i :| MatchesAt(s, fragment, i);
      assert i != 0 by { assert s[0..|fragment|] == s[..|fragment|]; }
      assert s[1..][i - 1..i - 1 + |fragment|] == s[i..i + |fragment|];
      assert MatchesAt(s[1..], fragment, i - 1);
    }
    if OccursFolded(s[1..], fragment) {
      var i :| MatchesAt(s[1..], fragment, i);
      assert s[1..][i..i + |fragment|] == s[i + 1..i + 1 + |fragment|];
      assert MatchesAt(s, fragment, i + 1);
    }
  }

  /** JavaScript's `s.split(c)` for a one-character separator: the pieces between
      occurrences of `c`, always at least one. */
  function Split(s: string, c: char): (r: seq<string>)
    ensures |r| >= 1
    ensures forall k :: 0 <= k < |r| ==> c !in r[k]
    decreases |s|
  {
    if s == [] then [""]
    else
      var rest := Split(s[1..], c);
      if s[0] == c then [""] + rest else [[s[0]] + rest[0]] + rest[1..]
  }

  /** The first piece of a split is a prefix of the string that ends at the
      first separator, or at the end when there is none. */
  lemma {:induction false} SplitHead(s: string, c: char)
    ensures StartsWith(s, Split(s, c)[0])
    ensures |Split(s, c)[0]| == |s| || s[|Split(s, c)[0]|] == c
    decreases |s|
  {
    if s != [] && s[0] != c {
      SplitHead(s[1..], c);
    }
  }

  function TotalLength(xs: seq<string>): nat {
    if xs == [] then 0 else |xs[0]| + TotalLength(xs[1..])
  }

  /** JavaScript's `xs.join(sep)`: the pieces in order with one separator
      between each neighbouring pair. */
  function Join(xs: seq<string>, sep: string): (r: string)
    ensures xs != [] ==> StartsWith(r, xs[0])
  {
    if xs == [] then ""
    else if |xs| == 1 then xs[0]
    else xs[0] + sep + Join(xs[1..], sep)
  }

  /** A joined text is as long as its pieces plus one separator between each
      neighbouring pair. */
  lemma {:induction false} JoinLength(xs: seq<string>, sep: string)
    ensures |Join(xs, sep)| == TotalLength(xs) + (if xs == [] then 0 else (|xs| - 1) * |sep|)
    decreases |xs|
  {
    if |xs| > 1 {
      JoinLength(xs[1..], sep);
      assert (|xs| - 1) * |sep| == (|xs| - 2) * |sep| + |sep|;
    }
  }

  lemma {:induction false} SplitNoSeparator(x: string, c: char)
    requires c !in x
    ensures Split(x, c) == [x]
    decreases |x|
  {
    if x != [] {
      SplitNoSeparator(x[1..], c);
      assert [x[0]] + x[1..] == x;
    }
  }

  lemma {:induction false} SplitAtSeparator(x: string, c: char, y: string)
    requires c !in x
    ensures Split(x + [c] + y, c) == [x] + Split(y, c)
    decreases |x|
  {
    var s := x + [c] + y;
    if x == [] {
      assert s[0] == c && s[1..] == y;
    } else {
      assert s[0] == x[0] && s[1..] == x[1..] + [c] + y;
      SplitAtSeparator(x[1..], c, y);
      assert [x[0]] + x[1..] == x;
    }
  }

  /** Splitting a joined list on the separator gives the list back, provided no
      element contains the separator. */
  lemma {:induction false} SplitJoin(xs: seq<string>, c: char)
    requires |xs| >= 1
    requires forall k :: 0 <= k < |xs| ==> c !in xs[k]
    ensures Split(Join(xs, [c]), c) == xs
    decreases |xs|
  {
    if |xs| == 1 {
      SplitNoSeparator(xs[0], c);
    } else {
      SplitJoin(xs[1..], c);
      SplitAtSeparator(xs[0], c, Join(xs[1..], [c]));
      assert [xs[0]] + xs[1..] == xs;
    }
  }

  lemma SliceAfter(a: string, t: string, i: int, j: int)
    requires 0 <= i <= j <= |t|
    ensures (a + t)[|a| + i..|a| + j] == t[i..j]
  {
    assert (a + t)[|a|..] == t;
  }

  lemma TotalLengthPrefix(xs: seq<string>, k: int)
    requires 1 <= k <= |xs|
    ensures TotalLength(xs[..k]) == |xs[0]| + TotalLength(xs[1..][..k - 1])
  {
    assert xs[..k][1..] == xs[1..][..k - 1];
  }

  /** Where piece `k` of a join starts: after each earlier piece and its separator. */
  function PieceOffset(xs: seq<string>, sep: string, k: int): nat
    requires 0 <= k <= |xs|
    decreases k
  {
    if k == 0 then 0 else |xs[0]| + |sep| + PieceOffset(xs[1..], sep, k - 1)
  }

  /** Piece `k` starts after the `k` pieces before it and `k` separators. */
  lemma {:induction false} PieceOffsetValue(xs: seq<string>, sep: string, k: int)
    requires 0 <= k <= |xs|
    ensures PieceOffset(xs, sep, k) == TotalLength(xs[..k]) + k * |sep|
    decreases k
  {
    if k == 0 {
      assert xs[..0] == [];
    } else {
      PieceOffsetValue(xs[1..], sep, k - 1);
      TotalLengthPrefix(xs, k);
      assert k * |sep| == (k - 1) * |sep| + |sep|;
    }
  }

  /** Where `join` puts each piece: piece `k` is found at its offset, and the
      separator follows every piece but the last. */
  lemma {:induction false} JoinPiece(xs: seq<string>, sep: string, k: int)
    requires 0 <= k < |xs|
    ensures var r := Join(xs, sep);
      var o := PieceOffset(xs, sep, k);
      && o + |xs[k]| <= |r|
      && r[o..o + |xs[k]|] == xs[k]
      && (k < |xs| - 1 ==> o + |xs[k]| + |sep| <= |r| && r[o + |xs[k]|..o + |xs[k]| + |sep|] == sep)
    decreases |xs|
  {
    if k == 0 {
      if |xs| > 1 {
        assert Join(xs, sep) == xs[0] + sep + Join(xs[1..], sep);
      }
    } else {
      var head := xs[0] + sep;
      var tail := Join(xs[1..], sep);
      assert Join(xs, sep) == head + tail;
      var n := |xs[k]|;
      var o := PieceOffset(xs[1..], sep, k - 1);
      assert xs[1..][k - 1] == xs[k];
      JoinPiece(xs[1..], sep, k - 1);
      SliceAfter(head, tail, o, o + n);
      if k < |xs| - 1 {
        SliceAfter(head, tail, o + n, o + n + |sep|);
      }
    }
  }

  function DigitChar(d: nat): (c: char)
    requires d < 10
    ensures '0' <= c <= '9' && c as int == '0' as int + d
  {
    "0123456789"[d]
  }

  /** The number a string of decimal digits denotes, most significant first. */
  function DecimalValue(s: string): int {
    if s == [] then 0 else DecimalValue(s[..|s| - 1]) * 10 + (s[|s| - 1] as int - '0' as int)
  }

  /** Decimal rendering of a natural number, as a template literal renders it:
      digits only, with no leading zero. */
  function NatToString(n: nat): (s: string)
    ensures |s| >= 1
    ensures forall k :: 0 <= k < |s| ==> '0' <= s[k] <= '9'
    ensures n > 0 ==> s[0] != '0'
  {
    if n < 10 then [DigitChar(n)] else NatToString(n / 10) + [DigitChar(n % 10)]
  }

  /** The digits `NatToString` writes denote `n`. */
  lemma {:induction false} NatToStringValue(n: nat)
    ensures DecimalValue(NatToString(n)) == n
  {
    if n >= 10 {
      NatToStringValue(n / 10);
      var s := NatToString(n);
      assert s[..|s| - 1] == NatToString(n / 10);
    }
  }
}
