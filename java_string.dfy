/**
 * The handful of java.lang.String operations the .env loader is built from:
 * `trim`, `startsWith`/`endsWith`, `indexOf`, `split(sep, 2)` and `substring`.
 *
 * A Java `String` is a sequence of UTF-16 code units and a Dafny `string` a
 * sequence of Unicode scalar values; every character these operations test
 * (blanks up to U+0020, '=', '#', the two quote marks) is a single code unit
 * in both, so the difference never shows here.
 */
module JavaString {

  /** The unchecked exception `substring` throws on bad bounds, with the three numbers of its message. */
  datatype StringException = StringIndexOutOfBounds(begin: int, end: int, length: int)

  /** A string operation either returns a value or throws. */
  datatype Result<T> = Ok(value: T) | Err(error: StringException)

  /** `trim` counts as blank every character whose code is at most U+0020 (not Character.isWhitespace). */
  predicate IsBlank(c: char) {
    c <= ' '
  }

  predicate AllBlank(s: string) {
    forall k :: 0 <= k < |s| ==> IsBlank(s[k])
  }

  /** Neither end of `r` is blank: nothing more for `trim` to take off. */
  predicate HasNoBlankEnds(r: string) {
    r == [] || (!IsBlank(r[0]) && !IsBlank(r[|r| - 1]))
  }

  /** `r` is `s` with a blank run cut off each end, starting at index `i` of `s`, and no more. */
  ghost predicate TrimmedFrom(s: string, r: string, i: nat) {
    && i + |r| <= |s|
    && (forall k :: 0 <= k < |r| ==> r[k] == s[i + k])
    && (forall k :: 0 <= k < i ==> IsBlank(s[k]))
    && (forall k :: i + |r| <= k < |s| ==> IsBlank(s[k]))
    && HasNoBlankEnds(r)
  }

  /** The first index at or after `from` that holds a non-blank character, or |s|: `trim`'s forward scan. */
  function SkipBlanks(s: string, from: nat): (i: nat)
    requires from <= |s|
    ensures from <= i <= |s|
    ensures i < |s| ==> !IsBlank(s[i])
    decreases |s| - from
  {
    if from < |s| && IsBlank(s[from]) then SkipBlanks(s, from + 1) else from
  }

  /** The forward scan passes over blanks only. */
  lemma {:induction false} SkipBlanksPassesBlanks(s: string, from: nat)
    requires from <= |s|
    ensures forall k :: from <= k < SkipBlanks(s, from) ==> IsBlank(s[k])
    decreases |s| - from
  {
    if from < |s| && IsBlank(s[from]) {
      SkipBlanksPassesBlanks(s, from + 1);
    }
  }

  /** Scanning back from `upto`, but not below `low`, the end of the last non-blank character: `trim`'s backward scan. */
  function SkipBlanksBack(s: string, low: nat, upto: nat): (j: nat)
    requires low <= upto <= |s|
    ensures low <= j <= upto
    ensures j > low ==> !IsBlank(s[j - 1])
    decreases upto - low
  {
    if low < upto && IsBlank(s[upto - 1]) then SkipBlanksBack(s, low, upto - 1) else upto
  }

  /** The backward scan passes over blanks only. */
  lemma {:induction false} SkipBlanksBackPassesBlanks(s: string, low: nat, upto: nat)
    requires low <= upto <= |s|
    ensures forall k :: SkipBlanksBack(s, low, upto) <= k < upto ==> IsBlank(s[k])
    decreases upto - low
  {
    if low < upto && IsBlank(s[upto - 1]) {
      SkipBlanksBackPassesBlanks(s, low, upto - 1);
    }
  }

  /** `String.trim`: scan forward over blanks, then back from the end, not past the first scan. */
  function Trim(s: string): (r: string)
    ensures |r| <= |s|
    ensures HasNoBlankEnds(r)
  {
    var b := SkipBlanks(s, 0);
    var e := SkipBlanksBack(s, b, |s|);
    s[b..e]
  }

  /** What `trim` takes away is blank, and what it keeps is one unbroken piece of `s`. */
  lemma TrimCutsOnlyBlanks(s: string)
    ensures exists i: nat :: TrimmedFrom(s, Trim(s), i)
  {
    var b := SkipBlanks(s, 0);
    SkipBlanksPassesBlanks(s, 0);
    SkipBlanksBackPassesBlanks(s, b, |s|);
    assert TrimmedFrom(s, Trim(s), b);
  }

  /** `trim` gives the empty string exactly for a string of blanks. */
  lemma TrimEmpty(s: string)
    ensures Trim(s) == [] <==> AllBlank(s)
  {
    TrimCutsOnlyBlanks(s);
  }

  /** `trim` is determined by its meaning: any way of cutting only blanks off the ends gives its result. */
  lemma TrimUnique(s: string, r: string, i: nat)
    requires TrimmedFrom(s, r, i)
    ensures Trim(s) == r
  {
    var b := SkipBlanks(s, 0);
    SkipBlanksPassesBlanks(s, 0);
    SkipBlanksBackPassesBlanks(s, b, |s|);
    if r == [] {
      assert b == |s|;
    } else {
      assert s[i] == r[0] && s[i + |r| - 1] == r[|r| - 1];
      assert b == i;
      assert SkipBlanksBack(s, b, |s|) == i + |r|;
    }
  }

  /** Trimming twice is trimming once. */
  lemma TrimIdempotent(s: string)
    ensures Trim(Trim(s)) == Trim(s)
  {
  }

  /** A string whose ends are not blank is left as it is. */
  lemma TrimNoBlankEnds(s: string)
    requires HasNoBlankEnds(s)
    ensures Trim(s) == s
  {
  }

  /** `trim` only removes characters, so one absent from `s` is absent from `trim(s)`. */
  lemma TrimKeepsOut(s: string, c: char)
    requires c !in s
    ensures c !in Trim(s)
  {
  }

  /** `s.startsWith(p)`. */
  predicate StartsWith(s: string, p: string) {
    |p| <= |s| && s[..|p|] == p
  }

  /** `s.endsWith(p)`. */
  predicate EndsWith(s: string, p: string) {
    |p| <= |s| && s[|s| - |p|..] == p
  }

  /** `s.substring(begin, end)`: throws unless 0 <= begin <= end <= length. */
  function Substring(s: string, begin: int, end: int): Result<string> {
    if 0 <= begin && begin <= end && end <= |s| then Ok(s[begin..end])
    else Err(StringIndexOutOfBounds(begin, end, |s|))
  }

  /** The first position at or after `from` that holds `c`, or -1. */
  function IndexOfFrom(s: string, c: char, from: nat): (r: int)
    requires from <= |s|
    ensures r == -1 || (from <= r < |s| && s[r] == c)
    decreases |s| - from
  {
    if from == |s| then -1
    else if s[from] == c then from
    else IndexOfFrom(s, c, from + 1)
  }

  /** The search passes over other characters only. */
  lemma {:induction false} IndexOfFromPassesOthers(s: string, c: char, from: nat)
    requires from <= |s|
    ensures forall k :: from <= k < (if IndexOfFrom(s, c, from) < 0 then |s| else IndexOfFrom(s, c, from)) ==> s[k] != c
    decreases |s| - from
  {
    if from < |s| && s[from] != c {
      IndexOfFromPassesOthers(s, c, from + 1);
    }
  }

  /** `s.indexOf(c)`: a position of `c`, or -1 when there is none. */
  function IndexOf(s: string, c: char): (r: int)
    ensures -1 <= r < |s|
    ensures r >= 0 ==> s[r] == c
    ensures r == -1 <==> c !in s
  {
    IndexOfFromPassesOthers(s, c, 0);
    IndexOfFrom(s, c, 0)
  }

  /** The position `indexOf` gives is the first one. */
  lemma IndexOfFirst(s: string, c: char)
    requires IndexOf(s, c) >= 0
    ensures c !in s[..IndexOf(s, c)]
  {
    IndexOfFromPassesOthers(s, c, 0);
  }

  /**
   * `s.split(sep, 2)` for a one-character separator: at most one cut, at the
   * first separator; an empty part before or after it is kept; a string
   * without the separator comes back whole as the only part.
   */
  function SplitLimitTwo(s: string, sep: char): (parts: seq<string>)
    ensures |parts| == 1 || |parts| == 2
    ensures |parts| == 1 <==> sep !in s
    ensures |parts| == 1 ==> parts[0] == s
  {
    var i := IndexOf(s, sep);
    if i < 0 then [s] else [s[..i], s[i + 1..]]
  }

  /** The first part holds no separator, and the two parts joined around it give the string back. */
  lemma SplitLimitTwoJoins(s: string, sep: char)
    requires sep in s
    ensures sep !in SplitLimitTwo(s, sep)[0]
    ensures SplitLimitTwo(s, sep)[0] + [sep] + SplitLimitTwo(s, sep)[1] == s
  {
    var i := IndexOf(s, sep);
    IndexOfFirst(s, sep);
    assert s[..i] + [sep] + s[i + 1..] == s;
  }

  /** The cut falls at the first separator: splitting `a + sep + b` with no separator in `a` gives back `a` and `b`. */
  lemma SplitAtFirst(a: string, b: string, sep: char)
    requires sep !in a
    ensures SplitLimitTwo(a + [sep] + b, sep) == [a, b]
  {
    var s := a + [sep] + b;
    var i := IndexOf(s, sep);
    IndexOfFirst(s, sep);
    assert s[|a|] == sep;
    assert forall k :: 0 <= k < |a| ==> s[k] == a[k];
    assert i == |a|;
    assert s[..i] == a && s[i + 1..] == b;
  }
}
