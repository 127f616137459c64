/** The string operations of Python that the checker relies on:
    `sep.join(parts)`, `s.split(sep)`, `s.replace(pat, "")`, `s.strip()`
    and searching for a literal. Strings are sequences of code points. */
module Text {
  import opened Wrappers

  /** The characters for which Python's `str.isspace()` holds; they are
      what `\s` matches in a `str` pattern and what `str.strip()` removes. */
  predicate IsSpace(c: char) {
    || c == ' '
    || ('\t' <= c <= '\r')
    || ('\U{1c}' <= c <= '\U{1f}')
    || c == '\U{85}' || c == '\U{a0}' || c == '\U{1680}'
    || ('\U{2000}' <= c <= '\U{200a}')
    || c == '\U{2028}' || c == '\U{2029}' || c == '\U{202f}'
    || c == '\U{205f}' || c == '\U{3000}'
  }

  /** `pat` occurs in `s` starting at index `i`. */
  predicate OccursAt(s: string, pat: string, i: nat) {
    i + |pat| <= |s| && s[i..i + |pat|] == pat
  }

  predicate Contains(s: string, pat: string) {
    exists i: nat :: i <= |s| && OccursAt(s, pat, i)
  }

  /** The first index at or after `from` where `pat` occurs. */
  function Find(s: string, pat: string, from: nat): (r: Option<nat>)
    ensures r.Some? ==> OccursAt(s, pat, r.value)
    decreases |s| - from
  {
    if from + |pat| > |s| then None
    else if OccursAt(s, pat, from) then Some(from)
    else Find(s, pat, from + 1)
  }

  /** `Find` reports the first occurrence: there is none before the one it
      reports, and none at all when it reports nothing. */
  lemma {:induction false} FindFirst(s: string, pat: string, from: nat)
    ensures Find(s, pat, from).Some? ==> from <= Find(s, pat, from).value
    ensures Find(s, pat, from).Some? ==> forall i :: from <= i < Find(s, pat, from).value ==> !OccursAt(s, pat, i)
    ensures Find(s, pat, from).None? ==> forall i: nat :: from <= i ==> !OccursAt(s, pat, i)
    decreases |s| - from
  {
    if from + |pat| <= |s| && !OccursAt(s, pat, from) {
      FindFirst(s, pat, from + 1);
    }
  }

  /** Any occurrence at or after `from` bounds the one `Find` reports. */
  lemma FindBefore(s: string, pat: string, from: nat, i: nat)
    requires from <= i && OccursAt(s, pat, i)
    ensures Find(s, pat, from).Some? && Find(s, pat, from).value <= i
  {
    FindFirst(s, pat, from);
  }

  /** `sep.join(parts)`. */
  function Join(parts: seq<string>, sep: string): string
  {
    if |parts| == 0 then ""
    else if |parts| == 1 then parts[0]
    else parts[0] + sep + Join(parts[1..], sep)
  }

  /** `s.split(sep)` for a one-character separator: the pieces between
      separators, always at least one. */
  function Split(s: string, sep: char): (r: seq<string>)
    ensures |r| >= 1
    ensures forall k :: 0 <= k < |r| ==> sep !in r[k]
    decreases |s|
  {
    FindFirst(s, [sep], 0);
    match Find(s, [sep], 0)
    case None =>
      assert forall j :: 0 <= j < |s| ==> !OccursAt(s, [sep], j) && s[j..j + 1] == [s[j]];
      [s]
    case Some(i) =>
      assert forall j :: 0 <= j < i ==> !OccursAt(s, [sep], j) && s[j..j + 1] == [s[j]];
      [s[..i]] + Split(s[i + 1..], sep)
  }

  /** Joining the pieces of a split gives back the string. */
  lemma {:induction false} JoinSplit(s: string, sep: char)
    ensures Join(Split(s, sep), [sep]) == s
    decreases |s|
  {
    match Find(s, [sep], 0)
    case None =>
    case Some(i) =>
      var rest := Split(s[i + 1..], sep);
      JoinSplit(s[i + 1..], sep);
      assert Split(s, sep) == [s[..i]] + rest;
      assert s[i..i + 1] == [sep];
      calc {
        Join(Split(s, sep), [sep]);
        s[..i] + [sep] + Join(rest, [sep]);
        s[..i] + [sep] + s[i + 1..];
        { assert s == s[..i] + s[i..i + 1] + s[i + 1..]; }
        s;
      }
  }

  /** Splitting a join of separator-free pieces gives back the pieces. */
  lemma {:induction false} SplitJoin(parts: seq<string>, sep: char)
    requires |parts| >= 1
    requires forall k :: 0 <= k < |parts| ==> sep !in parts[k]
    ensures Split(Join(parts, [sep]), sep) == parts
  {
    var s := Join(parts, [sep]);
    if |parts| == 1 {
      NoSeparatorNotFound(parts[0], sep);
    } else {
      var head := parts[0];
      var tail := Join(parts[1..], [sep]);
      assert s == head + [sep] + tail;
      assert OccursAt(s, [sep], |head|) by {
        assert s[|head|..|head| + 1] == [sep];
      }
      forall j | 0 <= j < |head| ensures !OccursAt(s, [sep], j) {
        assert s[j] == head[j];
        assert s[j..j + 1] == [head[j]];
      }
      FindFirst(s, [sep], 0);
      assert Find(s, [sep], 0) == Some(|head|);
      assert s[..|head|] == head;
      assert s[|head| + 1..] == tail;
      SplitJoin(parts[1..], sep);
    }
  }

  /** Within `a`, the one-character separator occurs in `a + [sep] + b`
      where it occurs in `a`. */
  lemma OccursInPrefix(a: string, b: string, sep: char, j: nat)
    requires j < |a|
    ensures OccursAt(a + [sep] + b, [sep], j) == OccursAt(a, [sep], j)
  {
    assert (a + [sep] + b)[j..j + 1] == a[j..j + 1];
  }

  /** The first separator of `a + [sep] + b` is the first one of `a`, or
      the one between the two parts when `a` has none. */
  lemma FirstSeparator(a: string, b: string, sep: char)
    ensures Find(a + [sep] + b, [sep], 0) ==
              Some(if Find(a, [sep], 0).Some? then Find(a, [sep], 0).value else |a|)
  {
    var s := a + [sep] + b;
    var i := if Find(a, [sep], 0).Some? then Find(a, [sep], 0).value else |a|;
    FindFirst(a, [sep], 0);
    FindFirst(s, [sep], 0);
    forall j | 0 <= j < i ensures !OccursAt(s, [sep], j) {
      OccursInPrefix(a, b, sep, j);
    }
    if i < |a| {
      OccursInPrefix(a, b, sep, i);
    } else {
      assert s[|a|..|a| + 1] == [sep];
    }
    FindBefore(s, [sep], 0, i);
  }

  /** A separator between two strings splits them apart: the pieces of the
      whole are the pieces of the left part followed by those of the right. */
  lemma {:induction false} SplitAround(a: string, b: string, sep: char)
    ensures Split(a + [sep] + b, sep) == Split(a, sep) + Split(b, sep)
    decreases |a|
  {
    var s := a + [sep] + b;
    FirstSeparator(a, b, sep);
    match Find(a, [sep], 0)
    case None =>
      assert s[..|a|] == a;
      assert s[|a| + 1..] == b;
    case Some(i) =>
      assert s[..i] == a[..i];
      assert s[i + 1..] == a[i + 1..] + [sep] + b;
      SplitAround(a[i + 1..], b, sep);
  }

  /** The pieces of every part, in order. */
  function SplitEach(parts: seq<string>, sep: char): seq<string>
  {
    if |parts| == 0 then [] else Split(parts[0], sep) + SplitEach(parts[1..], sep)
  }

  /** Splitting a join at its separator gives the pieces of every part in
      order, whatever separators the parts hold themselves. */
  lemma {:induction false} SplitJoinAll(parts: seq<string>, sep: char)
    requires |parts| >= 1
    ensures Split(Join(parts, [sep]), sep) == SplitEach(parts, sep)
  {
    if |parts| == 1 {
      assert SplitEach(parts, sep) == Split(parts[0], sep) + SplitEach(parts[1..], sep);
    } else {
      SplitAround(parts[0], Join(parts[1..], [sep]), sep);
      SplitJoinAll(parts[1..], sep);
    }
  }

  lemma NoSeparatorNotFound(s: string, sep: char)
    requires sep !in s
    ensures Find(s, [sep], 0).None?
  {
    forall i: nat | i < |s| ensures !OccursAt(s, [sep], i) {
      assert s[i..i + 1] == [s[i]];
    }
    FindFirst(s, [sep], 0);
  }

  /** `s.replace(pat, "")`: every occurrence of `pat`, scanned left to
      right without overlap, is deleted. */
  function Remove(s: string, pat: string): (r: string)
    requires |pat| > 0
    ensures |r| <= |s|
    decreases |s|
  {
    if |s| < |pat| then s
    else if s[..|pat|] == pat then Remove(s[|pat|..], pat)
    else [s[0]] + Remove(s[1..], pat)
  }

  /** A string without the pattern is left unchanged. */
  lemma {:induction false} RemoveAbsent(s: string, pat: string)
    requires |pat| > 0 && !Contains(s, pat)
    ensures Remove(s, pat) == s
    decreases |s|
  {
    if |s| >= |pat| {
      assert !OccursAt(s, pat, 0);
      assert s[..|pat|] != pat;
      assert !Contains(s[1..], pat) by {
        forall i: nat | i <= |s[1..]| && OccursAt(s[1..], pat, i) ensures OccursAt(s, pat, i + 1) {
          assert s[1..][i..i + |pat|] == s[i + 1..i + 1 + |pat|];
        }
      }
      RemoveAbsent(s[1..], pat);
      assert s == [s[0]] + s[1..];
    }
  }

  /** A label in front of a value that does not contain it is removed,
      leaving exactly the value. */
  lemma RemoveLabel(pat: string, value: string)
    requires |pat| > 0 && !Contains(value, pat)
    ensures Remove(pat + value, pat) == value
  {
    var s := pat + value;
    assert s[..|pat|] == pat;
    assert s[|pat|..] == value;
    RemoveAbsent(value, pat);
  }

  /** Before the first occurrence of the pattern nothing is removed. */
  lemma {:induction false} RemoveUnmatchedPrefix(s: string, pat: string, j: nat)
    requires |pat| > 0 && j <= |s|
    requires forall i :: 0 <= i < j ==> !OccursAt(s, pat, i)
    ensures Remove(s, pat) == s[..j] + Remove(s[j..], pat)
    decreases j
  {
    if j > 0 && |s| >= |pat| {
      assert !OccursAt(s, pat, 0);
      forall i | 0 <= i < j - 1 ensures !OccursAt(s[1..], pat, i) {
        assert !OccursAt(s, pat, i + 1);
        if i + |pat| <= |s[1..]| {
          assert s[1..][i..i + |pat|] == s[i + 1..i + 1 + |pat|];
        }
      }
      RemoveUnmatchedPrefix(s[1..], pat, j - 1);
      assert s[1..][..j - 1] == s[1..j];
      assert s[1..][j - 1..] == s[j..];
      assert s[..j] == [s[0]] + s[1..j];
    } else if j > 0 {
      assert s[j..] == [] || |s[j..]| < |pat|;
      assert s[..j] + s[j..] == s;
    }
  }

  /** `replace(pat, "")` in terms of `Find`: it keeps everything before the
      first occurrence, drops that occurrence and goes on after it; with no
      occurrence the string is unchanged. */
  lemma RemoveFirst(s: string, pat: string)
    requires |pat| > 0
    ensures Find(s, pat, 0).None? ==> Remove(s, pat) == s
    ensures Find(s, pat, 0).Some? ==>
              var i := Find(s, pat, 0).value;
              i + |pat| <= |s| && Remove(s, pat) == s[..i] + Remove(s[i + |pat|..], pat)
  {
    FindFirst(s, pat, 0);
    match Find(s, pat, 0)
    case None =>
      RemoveAbsent(s, pat);
    case Some(i) =>
      RemoveUnmatchedPrefix(s, pat, i);
      assert s[i..][..|pat|] == pat;
      assert s[i..][|pat|..] == s[i + |pat|..];
  }

  /** `s.lstrip()`. */
  function StripStart(s: string): string
    decreases |s|
  {
    if |s| > 0 && IsSpace(s[0]) then StripStart(s[1..]) else s
  }

  /** `lstrip` drops the leading whitespace and nothing else. */
  lemma {:induction false} StripStartSpec(s: string)
    ensures |StripStart(s)| <= |s| && StripStart(s) == s[|s| - |StripStart(s)|..]
    ensures forall k :: 0 <= k < |s| - |StripStart(s)| ==> IsSpace(s[k])
    ensures StripStart(s) != [] ==> !IsSpace(StripStart(s)[0])
    decreases |s|
  {
    if |s| > 0 && IsSpace(s[0]) {
      StripStartSpec(s[1..]);
      forall k | 1 <= k < |s| - |StripStart(s)| ensures IsSpace(s[k]) {
        assert s[k] == s[1..][k - 1];
      }
    }
  }

  /** `s.rstrip()`. */
  function StripEnd(s: string): string
    decreases |s|
  {
    if |s| > 0 && IsSpace(s[|s| - 1]) then StripEnd(s[..|s| - 1]) else s
  }

  /** `rstrip` drops the trailing whitespace and nothing else. */
  lemma {:induction false} StripEndSpec(s: string)
    ensures |StripEnd(s)| <= |s| && StripEnd(s) == s[..|StripEnd(s)|]
    ensures forall k :: |StripEnd(s)| <= k < |s| ==> IsSpace(s[k])
    ensures StripEnd(s) != [] ==> !IsSpace(StripEnd(s)[|StripEnd(s)| - 1])
    decreases |s|
  {
    if |s| > 0 && IsSpace(s[|s| - 1]) {
      StripEndSpec(s[..|s| - 1]);
      forall k | |StripEnd(s)| <= k < |s| - 1 ensures IsSpace(s[k]) {
        assert s[k] == s[..|s| - 1][k];
      }
    }
  }

  /** `s.strip()`. */
  function Strip(s: string): string
  {
    StripEnd(StripStart(s))
  }

  /** Stripping removes nothing from a string with no surrounding space. */
  lemma StripUnspaced(s: string)
    requires s != [] ==> !IsSpace(s[0]) && !IsSpace(s[|s| - 1])
    ensures Strip(s) == s
  {
  }

  /** `strip` keeps a slice of its argument that neither starts nor ends
      with whitespace and drops only whitespace around it. */
  lemma StripShape(s: string)
    ensures exists i, j ::
              && 0 <= i <= j <= |s| && Strip(s) == s[i..j]
              && (forall k :: 0 <= k < i ==> IsSpace(s[k]))
              && (forall k :: j <= k < |s| ==> IsSpace(s[k]))
    ensures Strip(s) != [] ==> !IsSpace(Strip(s)[0]) && !IsSpace(Strip(s)[|Strip(s)| - 1])
  {
    var t := StripStart(s);
    var r := StripEnd(t);
    StripStartSpec(s);
    StripEndSpec(t);
    var i := |s| - |t|;
    var j := i + |r|;
    assert s[i..j] == r;
    forall k | j <= k < |s| ensures IsSpace(s[k]) {
      assert s[k] == t[k - i];
    }
  }
}
