/**
 * The Python `str` operations the server relies on, stated over `string`
 * (a sequence of characters): `find` / `in`, `split(sep)`, `split(sep, 1)`,
 * `startswith`, slicing `s[n:]` and `str(n)` for a natural number.
 */
module Text {
  import opened Wrappers

  /** `sep` occurs in `s` starting at index `j`. */
  ghost predicate OccursAt(s: string, sep: string, j: int) {
    0 <= j && j + |sep| <= |s| && s[j..j + |sep|] == sep
  }

  /** The first occurrence of `sep` in `s` at or after index `k`. */
  function FindFrom(s: string, sep: string, k: nat): (r: Option<nat>)
    requires |sep| > 0
    ensures r.Some? ==> k <= r.value && OccursAt(s, sep, r.value)
    ensures r.Some? ==> forall j :: k <= j < r.value ==> !OccursAt(s, sep, j)
    ensures r.None? ==> forall j :: k <= j ==> !OccursAt(s, sep, j)
    decreases |s| - k
  {
    if k + |sep| > |s| then None
    else if s[k..k + |sep|] == sep then Some(k)
    else FindFrom(s, sep, k + 1)
  }

  /** `s.find(sep)`, with None for -1: the index of the first occurrence of `sep`. */
  function IndexOf(s: string, sep: string): (r: Option<nat>)
    requires |sep| > 0
    ensures r.Some? ==> OccursAt(s, sep, r.value)
    ensures r.Some? ==> forall j :: j < r.value ==> !OccursAt(s, sep, j)
    ensures r.None? <==> forall j :: !OccursAt(s, sep, j)
  {
    FindFrom(s, sep, 0)
  }

  /** `sep in s`. */
  predicate Contains(s: string, sep: string)
    requires |sep| > 0
  {
    IndexOf(s, sep).Some?
  }

  /** `s.startswith(prefix)`. */
  predicate StartsWith(s: string, prefix: string) {
    |prefix| <= |s| && s[..|prefix|] == prefix
  }

  /** `s.endswith(suffix)`. */
  predicate EndsWith(s: string, suffix: string) {
    |suffix| <= |s| && s[|s| - |suffix|..] == suffix
  }

  /** `s[n:]`: empty when `n` is past the end. */
  function SliceFrom(s: string, n: nat): string {
    if n <= |s| then s[n..] else ""
  }

  /** `t[len(prefix):]` on a text that starts with `prefix` is what follows the prefix. */
  lemma SliceAfterPrefix(prefix: string, t: string)
    ensures StartsWith(t, prefix) <==> exists rest :: t == prefix + rest
    ensures StartsWith(t, prefix) ==> t == prefix + SliceFrom(t, |prefix|)
  {
    if exists rest :: t == prefix + rest {
      var rest :| t == prefix + rest;
      assert t[..|prefix|] == prefix;
    }
    if StartsWith(t, prefix) {
      assert t == prefix + t[|prefix|..];
    }
  }

  /** `sep.join(parts)`. */
  function Join(parts: seq<string>, sep: string): string
    decreases |parts|
  {
    if |parts| == 0 then ""
    else if |parts| == 1 then parts[0]
    else parts[0] + sep + Join(parts[1..], sep)
  }

  /**
   * `s.split(sep)` for a non-empty separator: the pieces between the
   * occurrences of `sep` found from left to right.
   */
  function Split(s: string, sep: string): (r: seq<string>)
    requires |sep| > 0
    ensures |r| >= 1
    decreases |s|
  {
    match IndexOf(s, sep)
    case None => [s]
    case Some(i) => [s[..i]] + Split(s[i + |sep|..], sep)
  }

  /** Round trip: joining the pieces of a split with the same separator restores the text. */
  lemma {:induction false} JoinOfSplit(s: string, sep: string)
    requires |sep| > 0
    ensures Join(Split(s, sep), sep) == s
    decreases |s|
  {
    match IndexOf(s, sep)
    case None =>
    case Some(i) =>
      var rest := s[i + |sep|..];
      var pieces := Split(rest, sep);
      assert Split(s, sep) == [s[..i]] + pieces;
      assert ([s[..i]] + pieces)[1..] == pieces;
      JoinOfSplit(rest, sep);
      assert Join([s[..i]] + pieces, sep) == s[..i] + sep + rest;
      assert s == s[..i] + sep + rest;
  }

  /** No piece of a split contains the separator. */
  lemma {:induction false} SplitPiecesLackSeparator(s: string, sep: string)
    requires |sep| > 0
    ensures forall p :: p in Split(s, sep) ==> !Contains(p, sep)
    decreases |s|
  {
    match IndexOf(s, sep)
    case None =>
    case Some(i) =>
      var rest := s[i + |sep|..];
      SplitAt(s, sep, i);
      PrefixBeforeFirst(s, sep, i);
      SplitPiecesLackSeparator(rest, sep);
      forall p | p in Split(s, sep)
        ensures !Contains(p, sep)
      {
        if p != s[..i] {
          assert p in Split(rest, sep);
        }
      }
  }

  /**
   * `s.split(sep, 1)`: `[s]` when `sep` does not occur, otherwise the part
   * before the first occurrence and the part after it.
   */
  function SplitOnce(s: string, sep: string): (r: seq<string>)
    requires |sep| > 0
    ensures |r| == 1 || |r| == 2
    ensures |r| == 2 <==> Contains(s, sep)
    ensures |r| == 1 ==> r[0] == s
    ensures |r| == 2 ==> s == r[0] + sep + r[1] && !Contains(r[0], sep)
    ensures |r| == 2 ==> IndexOf(s, sep) == Some(|r[0]|)
  {
    match IndexOf(s, sep)
    case None => [s]
    case Some(i) =>
      PrefixBeforeFirst(s, sep, i);
      assert s == s[..i] + sep + s[i + |sep|..];
      [s[..i], s[i + |sep|..]]
  }

  /** The text before the first occurrence of `sep` does not contain `sep`. */
  lemma PrefixBeforeFirst(s: string, sep: string, i: nat)
    requires |sep| > 0 && IndexOf(s, sep) == Some(i)
    ensures !Contains(s[..i], sep)
  {
    forall j | OccursAt(s[..i], sep, j)
      ensures false
    {
      assert s[..i][j..j + |sep|] == s[j..j + |sep|];
      assert OccursAt(s, sep, j);
    }
  }

  /** A string without the first character of `sep` does not contain `sep`. */
  lemma NoFirstCharNoOccurrence(s: string, sep: string)
    requires |sep| > 0 && sep[0] !in s
    ensures !Contains(s, sep)
  {
    forall j | 0 <= j && j + |sep| <= |s|
      ensures s[j..j + |sep|][0] == s[j]
    {
    }
  }

  /** No proper suffix of `sep` is also a prefix of it, so two occurrences never overlap. */
  ghost predicate NoSelfOverlap(sep: string) {
    forall k :: 0 < k < |sep| ==> sep[k..] != sep[..|sep| - k]
  }

  /** In `a + sep`, no occurrence of `sep` starts inside `a` and runs into the appended `sep`. */
  ghost predicate NoStraddle(a: string, sep: string) {
    forall k :: 0 < k < |sep| && k <= |a| ==> a[|a| - k..] != sep[..k] || sep[k..] != sep[..|sep| - k]
  }

  lemma NoSelfOverlapNoStraddle(a: string, sep: string)
    requires NoSelfOverlap(sep)
    ensures NoStraddle(a, sep)
  {
  }

  /** Appending text after `a` does not move the first occurrence of `sep` in `a`. */
  lemma FirstOccurrenceKept(a: string, sep: string, t: string, i: nat)
    requires |sep| > 0 && IndexOf(a, sep) == Some(i)
    ensures IndexOf(a + t, sep) == Some(i)
  {
    var s := a + t;
    forall j | 0 <= j && j + |sep| <= |a|
      ensures OccursAt(s, sep, j) == OccursAt(a, sep, j)
    {
      assert s[j..j + |sep|] == a[j..j + |sep|];
    }
    assert OccursAt(s, sep, i);
  }

  /**
   * When `a` does not contain `sep` and no occurrence straddles its end,
   * the first occurrence of `sep` in `a + sep + b` is the one right after `a`.
   */
  lemma FirstOccurrenceAfter(a: string, sep: string, b: string)
    requires |sep| > 0 && !Contains(a, sep) && NoStraddle(a, sep)
    ensures IndexOf(a + sep + b, sep) == Some(|a|)
  {
    var s := a + sep + b;
    assert s[|a|..|a| + |sep|] == sep;
    assert OccursAt(s, sep, |a|);
    forall j | 0 <= j < |a|
      ensures !OccursAt(s, sep, j)
    {
      var w := s[j..j + |sep|];
      if j + |sep| <= |a| {
        assert w == a[j..j + |sep|];
        assert !OccursAt(a, sep, j);
      } else {
        var k := |a| - j;
        assert w[..k] == s[j..|a|] == a[j..];
        assert w[k..] == s[|a|..j + |sep|] == sep[..|sep| - k];
        assert a[|a| - k..] != sep[..k] || sep[k..] != sep[..|sep| - k];
        assert w[..k] != sep[..k] || w[k..] != sep[k..];
      }
    }
  }

  /** Unfolds `Split` at the first occurrence of the separator. */
  lemma SplitAt(s: string, sep: string, i: nat)
    requires |sep| > 0 && IndexOf(s, sep) == Some(i)
    ensures Split(s, sep) == [s[..i]] + Split(s[i + |sep|..], sep)
  {
  }

  /** Splitting around an occurrence of a non-overlapping separator splits each side on its own. */
  lemma {:induction false} SplitAround(a: string, sep: string, b: string)
    requires |sep| > 0 && NoSelfOverlap(sep)
    ensures Split(a + sep + b, sep) == Split(a, sep) + Split(b, sep)
    decreases |a|
  {
    if IndexOf(a, sep).None? {
      SplitFirstPiece(a, sep, b);
    } else {
      var i := IndexOf(a, sep).value;
      var rest := a[i + |sep|..];
      SplitStep(a, sep + b, sep, i);
      assert a + sep + b == a + (sep + b);
      assert rest + sep + b == rest + (sep + b);
      SplitAt(a, sep, i);
      SplitAround(rest, sep, b);
      assert [a[..i]] + (Split(rest, sep) + Split(b, sep)) == [a[..i]] + Split(rest, sep) + Split(b, sep);
    }
  }

  /** A first occurrence inside `a` is cut first from `a + t`, whatever follows. */
  lemma SplitStep(a: string, t: string, sep: string, i: nat)
    requires |sep| > 0 && IndexOf(a, sep) == Some(i)
    ensures Split(a + t, sep) == [a[..i]] + Split(a[i + |sep|..] + t, sep)
  {
    FirstOccurrenceKept(a, sep, t, i);
    SplitAt(a + t, sep, i);
    SlicesOfConcat(a, t, i);
    SlicesOfConcat(a, t, i + |sep|);
  }

  /** Cutting `a + t` inside `a` cuts `a`. */
  lemma SlicesOfConcat(a: string, t: string, k: nat)
    requires k <= |a|
    ensures (a + t)[..k] == a[..k]
    ensures (a + t)[k..] == a[k..] + t
  {
  }

  /** A separator-free first piece comes off a split on its own. */
  lemma SplitFirstPiece(a: string, sep: string, b: string)
    requires |sep| > 0 && NoSelfOverlap(sep) && !Contains(a, sep)
    ensures Split(a + sep + b, sep) == [a] + Split(b, sep)
  {
    var s := a + sep + b;
    NoSelfOverlapNoStraddle(a, sep);
    FirstOccurrenceAfter(a, sep, b);
    SplitAt(s, sep, |a|);
    assert s[..|a|] == a && s[|a| + |sep|..] == b;
  }

  /** Round trip: splitting the join of separator-free pieces gives the pieces back. */
  lemma {:induction false} SplitOfJoin(parts: seq<string>, sep: string)
    requires |sep| > 0 && NoSelfOverlap(sep) && |parts| >= 1
    requires forall p :: p in parts ==> !Contains(p, sep)
    ensures Split(Join(parts, sep), sep) == parts
    decreases |parts|
  {
    if |parts| == 1 {
      assert parts[0] in parts;
    } else {
      assert parts[0] in parts;
      SplitAround(parts[0], sep, Join(parts[1..], sep));
      SplitOfJoin(parts[1..], sep);
    }
  }

  /** `s.split(c)` for a one-character separator has one piece more than `s` has copies of `c`. */
  lemma {:induction false} SplitCount(s: string, c: char)
    ensures |Split(s, [c])| == multiset(s)[c] + 1
    decreases |s|
  {
    match IndexOf(s, [c])
    case None =>
      forall j | 0 <= j < |s|
        ensures s[j] != c
      {
        assert !OccursAt(s, [c], j);
        assert s[j..j + 1] == [s[j]];
      }
      assert c !in s;
    case Some(i) =>
      PrefixBeforeFirst(s, [c], i);
      var pre := s[..i];
      forall j | 0 <= j < |pre|
        ensures pre[j] != c
      {
        assert !OccursAt(pre, [c], j);
        assert pre[j..j + 1] == [pre[j]];
      }
      assert c !in pre;
      assert s[i..i + 1] == [c];
      assert s == pre + [c] + s[i + 1..];
      SplitAt(s, [c], i);
      SplitCount(s[i + 1..], c);
  }

  predicate IsDigit(c: char) {
    '0' <= c <= '9'
  }

  /** `str(n)`: the decimal digits of `n`, with no leading zero. */
  function NatToString(n: nat): (r: string)
    ensures |r| >= 1 && (|r| == 1 <==> n < 10)
    ensures forall i :: 0 <= i < |r| ==> IsDigit(r[i])
    ensures |r| > 1 ==> r[0] != '0'
    decreases n
  {
    if n < 10 then [(48 + n) as char]
    else NatToString(n / 10) + [(48 + n % 10) as char]
  }

  /** The number a string of decimal digits denotes, read from the left. */
  function ParseNat(s: string): nat
    requires forall i :: 0 <= i < |s| ==> IsDigit(s[i])
  {
    if |s| == 0 then 0
    else 10 * ParseNat(s[..|s| - 1]) + DigitValue(s[|s| - 1])
  }

  function DigitValue(c: char): nat
    requires IsDigit(c)
  {
    c as int - '0' as int
  }

  /** Reading back a formatted length gives the length. */
  lemma {:induction false} ParseNatOfNatToString(n: nat)
    ensures ParseNat(NatToString(n)) == n
    decreases n
  {
    if n >= 10 {
      var s := NatToString(n);
      assert s[..|s| - 1] == NatToString(n / 10);
      ParseNatOfNatToString(n / 10);
    }
  }
}
