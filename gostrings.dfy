/**
 * The pieces of Go's `strings` package the analyzer relies on: `Index`,
 * `Contains`, `HasPrefix`, `Split` (with a one-character separator) and
 * `TrimSpace`. Go strings are UTF-8 byte strings; here a string is a sequence
 * of characters, which agrees with Go wherever the analyzer slices, because it
 * only slices at the ASCII markers `// +const:[`, `]` and `,`.
 */
module GoStrings {

  /** `p` occurs in `s` starting at index `i`. */
  predicate MatchAt(s: string, p: string, i: int) {
    0 <= i && i + |p| <= |s| && s[i..i + |p|] == p
  }

  /** strings.Contains */
  predicate Contains(s: string, p: string) {
    exists i | 0 <= i <= |s| :: MatchAt(s, p, i)
  }

  /** strings.HasPrefix */
  predicate HasPrefix(s: string, p: string) {
    MatchAt(s, p, 0)
  }

  /** The first index at or after `k` where `p` occurs in `s`, or -1. */
  function IndexFrom(s: string, p: string, k: nat): (r: int)
    requires k <= |s|
    ensures r == -1 || (k <= r && MatchAt(s, p, r))
    ensures r == -1 ==> forall j | k <= j :: !MatchAt(s, p, j)
    ensures r != -1 ==> forall j | k <= j < r :: !MatchAt(s, p, j)
    decreases |s| - k
  {
    if k + |p| > |s| then -1
    else if s[k..k + |p|] == p then k
    else IndexFrom(s, p, k + 1)
  }

  /** strings.Index: the first index of `p` in `s`, or -1 when it does not occur. */
  function Index(s: string, p: string): (r: int)
    ensures r == -1 <==> !Contains(s, p)
    ensures r != -1 ==> MatchAt(s, p, r) && forall j | 0 <= j < r :: !MatchAt(s, p, j)
  {
    IndexFrom(s, p, 0)
  }

  /** Two adjacent matches are a match of the concatenated pattern. */
  lemma MatchConcat(s: string, p: string, q: string, i: int)
    requires MatchAt(s, p, i) && MatchAt(s, q, i + |p|)
    ensures MatchAt(s, p + q, i)
  {
    assert s[i..i + |p + q|] == s[i..i + |p|] + s[i + |p|..i + |p| + |q|];
  }

  /** A one-character pattern matches exactly where that character stands. */
  lemma MatchChar(s: string, c: char, i: int)
    ensures MatchAt(s, [c], i) <==> (0 <= i < |s| && s[i] == c)
  {
    if 0 <= i < |s| {
      assert s[i..i + 1] == [s[i]];
    }
  }

  /** The pieces joined back with `sep` between each adjacent pair. */
  function Join(pieces: seq<string>, sep: char): string
    requires |pieces| >= 1
  {
    if |pieces| == 1 then pieces[0]
    else pieces[0] + [sep] + Join(pieces[1..], sep)
  }

  /**
   * strings.Split with a one-character separator: the pieces of `s` between
   * occurrences of `sep`, cut at the first occurrence each time. There is
   * always at least one piece (SplitSpec says what the pieces are).
   */
  function Split(s: string, sep: char): (r: seq<string>)
    ensures |r| >= 1
    decreases |s|
  {
    var i := Index(s, [sep]);
    if i == -1 then [s]
    else [s[..i]] + Split(s[i + 1..], sep)
  }

  /** No piece contains `sep`, and joining the pieces with `sep` gives `s` back. */
  lemma {:induction false} SplitSpec(s: string, sep: char)
    ensures forall i | 0 <= i < |Split(s, sep)| :: sep !in Split(s, sep)[i]
    ensures Join(Split(s, sep), sep) == s
    decreases |s|
  {
    var i := Index(s, [sep]);
    if i == -1 {
      forall j | 0 <= j < |s| ensures s[j] != sep { MatchChar(s, sep, j); }
    } else {
      MatchChar(s, sep, i);
      forall j | 0 <= j < i ensures s[..i][j] != sep { MatchChar(s, sep, j); }
      var rest := Split(s[i + 1..], sep);
      SplitSpec(s[i + 1..], sep);
      var r := [s[..i]] + rest;
      assert Split(s, sep) == r;
      assert r[1..] == rest;
      assert Join(r, sep) == s[..i] + [sep] + s[i + 1..];
      assert s == s[..i] + [sep] + s[i + 1..];
      forall k | 0 <= k < |r| ensures sep !in r[k] {
        if k > 0 {
          assert r[k] == rest[k - 1];
        }
      }
    }
  }

  /** Splitting undoes joining pieces that are free of the separator. */
  lemma {:induction false} SplitJoin(pieces: seq<string>, sep: char)
    requires |pieces| >= 1
    requires forall i | 0 <= i < |pieces| :: sep !in pieces[i]
    ensures Split(Join(pieces, sep), sep) == pieces
    decreases |pieces|
  {
    var s := Join(pieces, sep);
    if |pieces| == 1 {
      NoSepNoMatch(s, sep);
    } else {
      var p0 := pieces[0];
      var tail := Join(pieces[1..], sep);
      FirstSep(p0, sep, tail);
      SplitJoin(pieces[1..], sep);
      assert Split(s, sep) == [p0] + Split(tail, sep);
    }
  }

  /** A string free of the separator has no match of it. */
  lemma NoSepNoMatch(s: string, sep: char)
    requires sep !in s
    ensures Index(s, [sep]) == -1
  {
    forall j | 0 <= j <= |s| ensures !MatchAt(s, [sep], j) { MatchChar(s, sep, j); }
  }

  /** The first separator of `p0 + [sep] + tail`, with `p0` free of it, stands right after `p0`. */
  lemma FirstSep(p0: string, sep: char, tail: string)
    requires sep !in p0
    ensures var s := p0 + [sep] + tail;
            Index(s, [sep]) == |p0| && s[..|p0|] == p0 && s[|p0| + 1..] == tail
  {
    var s := p0 + [sep] + tail;
    forall j | 0 <= j < |p0| ensures !MatchAt(s, [sep], j) {
      MatchChar(s, sep, j);
      assert s[j] == p0[j];
    }
    MatchChar(s, sep, |p0|);
    assert s[..|p0|] == p0;
    assert s[|p0| + 1..] == tail;
  }

  /** The white-space characters of Go's unicode.IsSpace. */
  predicate IsSpace(c: char) {
    || c == ' ' || c == '\t' || c == '\n' || c == '\U{000B}' || c == '\U{000C}' || c == '\r'
    || c == '\U{0085}' || c == '\U{00A0}' || c == '\U{1680}'
    || ('\U{2000}' <= c <= '\U{200A}')
    || c == '\U{2028}' || c == '\U{2029}' || c == '\U{202F}' || c == '\U{205F}' || c == '\U{3000}'
  }

  /** `s` without its leading white space. */
  function TrimLeft(s: string): (r: string)
    ensures |r| <= |s| && r == s[|s| - |r|..]
    ensures forall k | 0 <= k < |s| - |r| :: IsSpace(s[k])
    ensures r == [] || !IsSpace(r[0])
  {
    if |s| > 0 && IsSpace(s[0]) then TrimLeft(s[1..]) else s
  }

  /** `s` without its trailing white space. */
  function TrimRight(s: string): (r: string)
    ensures |r| <= |s| && r == s[..|r|]
    ensures forall k | |r| <= k < |s| :: IsSpace(s[k])
    ensures r == [] || !IsSpace(r[|r| - 1])
  {
    if |s| > 0 && IsSpace(s[|s| - 1]) then TrimRight(s[..|s| - 1]) else s
  }

  /**
   * strings.TrimSpace: `s` without its leading and trailing white space.
   * TrimSpaceIsInfix states where the result sits in `s`.
   */
  function TrimSpace(s: string): (r: string)
    ensures |r| <= |s|
    ensures r == [] || (!IsSpace(r[0]) && !IsSpace(r[|r| - 1]))
  {
    TrimRight(TrimLeft(s))
  }

  /**
   * The trimmed string is the infix of `s` that starts at its first and ends
   * at its last non-space character: all that is cut off is white space.
   */
  lemma TrimSpaceIsInfix(s: string) returns (i: nat)
    ensures i + |TrimSpace(s)| <= |s| && s[i..i + |TrimSpace(s)|] == TrimSpace(s)
    ensures forall k | 0 <= k < i :: IsSpace(s[k])
    ensures forall k | i + |TrimSpace(s)| <= k < |s| :: IsSpace(s[k])
  {
    i := |s| - |TrimLeft(s)|;
    CutBothEnds(s, TrimLeft(s), TrimSpace(s));
  }

  /** `r`, a prefix of the suffix `l` of `s`, cut off only spaces on both sides. */
  lemma CutBothEnds(s: string, l: string, r: string)
    requires |l| <= |s| && l == s[|s| - |l|..]
    requires |r| <= |l| && r == l[..|r|]
    requires forall k | 0 <= k < |s| - |l| :: IsSpace(s[k])
    requires forall k | |r| <= k < |l| :: IsSpace(l[k])
    ensures var i := |s| - |l|;
            && i + |r| <= |s| && s[i..i + |r|] == r
            && (forall k | 0 <= k < i :: IsSpace(s[k]))
            && (forall k | i + |r| <= k < |s| :: IsSpace(s[k]))
  {
    var i := |s| - |l|;
    assert s[i..i + |r|] == r;
    forall k | i + |r| <= k < |s| ensures IsSpace(s[k]) {
      assert s[k] == l[k - i];
    }
  }

  /** Trimming is idempotent. */
  lemma TrimSpaceIdempotent(s: string)
    ensures TrimSpace(TrimSpace(s)) == TrimSpace(s)
  {
    var t := TrimSpace(s);
    var u := TrimSpace(t);
    var i := TrimSpaceIsInfix(t);
    if t != [] {
      assert !IsSpace(t[0]) && !IsSpace(t[|t| - 1]);
      assert i == 0;
      assert i + |u| == |t|;
    }
  }
}
