/**
 The string operations the chunker and the prompt builder rely on, modelled
 after Python's `str.strip()`, `str.split(sep)` and `sep.join(xs)`.
 Strings are `seq<char>`, one element per Unicode code point.
 */
module Text {

  datatype Option<T> = None | Some(value: T)

  /** The code points for which Python's `str.isspace()` holds; these are
      exactly the characters `str.strip()` with no argument removes. */
  predicate IsWhitespace(c: char) {
    || ('\t' <= c <= '\r')             // \t \n \v \f \r
    || ('\U{1C}' <= c <= '\U{1F}')     // file, group, record and unit separators
    || c == ' '
    || c == '\U{85}'                   // next line
    || c == '\U{A0}'                   // no-break space
    || c == '\U{1680}'
    || ('\U{2000}' <= c <= '\U{200A}')
    || c == '\U{2028}' || c == '\U{2029}'
    || c == '\U{202F}' || c == '\U{205F}' || c == '\U{3000}'
  }

  predicate AllWhitespace(s: string) {
    forall i :: 0 <= i < |s| ==> IsWhitespace(s[i])
  }

  /** A stripped string has no whitespace at either end. */
  predicate IsStripped(s: string) {
    |s| == 0 || (!IsWhitespace(s[0]) && !IsWhitespace(s[|s| - 1]))
  }

  /** The index of the first character at or after `i` that is not
      whitespace, or `|s|` when there is none. */
  function SkipWhitespace(s: string, i: nat): (k: nat)
    requires i <= |s|
    ensures i <= k <= |s|
    ensures k < |s| ==> !IsWhitespace(s[k])
    decreases |s| - i
  {
    if i < |s| && IsWhitespace(s[i]) then SkipWhitespace(s, i + 1) else i
  }

  /** `SkipWhitespace` passes over whitespace only. */
  lemma {:induction false} SkipWhitespaceSkipsOnlyWhitespace(s: string, i: nat)
    requires i <= |s|
    ensures forall m :: i <= m < SkipWhitespace(s, i) ==> IsWhitespace(s[m])
    decreases |s| - i
  {
    if i < |s| && IsWhitespace(s[i]) {
      SkipWhitespaceSkipsOnlyWhitespace(s, i + 1);
    }
  }

  /** The end of `s[lo..j]` once its trailing whitespace is dropped. */
  function SkipWhitespaceBack(s: string, lo: nat, j: nat): (k: nat)
    requires lo <= j <= |s|
    ensures lo <= k <= j
    ensures k > lo ==> !IsWhitespace(s[k - 1])
    decreases j
  {
    if j > lo && IsWhitespace(s[j - 1]) then SkipWhitespaceBack(s, lo, j - 1) else j
  }

  /** `SkipWhitespaceBack` passes over whitespace only. */
  lemma {:induction false} SkipWhitespaceBackSkipsOnlyWhitespace(s: string, lo: nat, j: nat)
    requires lo <= j <= |s|
    ensures forall m :: SkipWhitespaceBack(s, lo, j) <= m < j ==> IsWhitespace(s[m])
    decreases j
  {
    if j > lo && IsWhitespace(s[j - 1]) {
      SkipWhitespaceBackSkipsOnlyWhitespace(s, lo, j - 1);
    }
  }

  /** Where the stripped part of `s` starts (what `lstrip` drops). */
  function StripStart(s: string): (n: nat)
    ensures n <= |s|
  {
    SkipWhitespace(s, 0)
  }

  /** Where the stripped part of `s` ends (what `rstrip` then keeps). */
  function StripEnd(s: string): (n: nat)
    ensures StripStart(s) <= n <= |s|
  {
    SkipWhitespaceBack(s, StripStart(s), |s|)
  }

  /** `s.strip()`: the part of `s` between its leading and its trailing
      whitespace. */
  function Strip(s: string): (r: string)
    ensures IsStripped(r)
    ensures |r| <= |s|
  {
    s[StripStart(s)..StripEnd(s)]
  }

  /** Stripping removes only whitespace, from both ends: the string is
      its leading whitespace, its stripped part and its trailing whitespace. */
  lemma StripRemovesOnlyWhitespace(s: string)
    ensures s == s[..StripStart(s)] + Strip(s) + s[StripEnd(s)..]
    ensures forall m :: 0 <= m < StripStart(s) ==> IsWhitespace(s[m])
    ensures forall m :: StripEnd(s) <= m < |s| ==> IsWhitespace(s[m])
  {
    assert s == s[..StripStart(s)] + s[StripStart(s)..StripEnd(s)] + s[StripEnd(s)..];
    SkipWhitespaceSkipsOnlyWhitespace(s, 0);
    SkipWhitespaceBackSkipsOnlyWhitespace(s, StripStart(s), |s|);
  }

  /** Stripping yields the empty string exactly for blank strings. */
  lemma StripEmptyIffBlank(s: string)
    ensures |Strip(s)| == 0 <==> AllWhitespace(s)
  {
    StripRemovesOnlyWhitespace(s);
  }

  /** Stripping twice strips nothing more. */
  lemma StripIdempotent(s: string)
    ensures Strip(Strip(s)) == Strip(s)
  {
    StrippedIsFixpoint(Strip(s));
  }

  /** Stripping a string that is already stripped leaves it unchanged. */
  lemma StrippedIsFixpoint(s: string)
    requires IsStripped(s)
    ensures Strip(s) == s
  {
    assert StripStart(s) == 0;
    assert StripEnd(s) == |s|;
  }

  /** `t` occurs in `s` starting at index `i`. */
  predicate OccursAt(s: string, t: string, i: int) {
    0 <= i && i + |t| <= |s| && s[i..i + |t|] == t
  }

  /** Python's `t in s`. */
  predicate Contains(s: string, t: string) {
    exists i | 0 <= i <= |s| - |t| :: OccursAt(s, t, i)
  }

  /** `s.find(t, i)`: the first index at or after `i` where `t` occurs in `s`. */
  function FindFrom(s: string, t: string, i: nat): (r: Option<nat>)
    ensures r.Some? ==> i <= r.value && OccursAt(s, t, r.value)
    decreases |s| - i
  {
    if i + |t| > |s| then None
    else if OccursAt(s, t, i) then Some(i)
    else FindFrom(s, t, i + 1)
  }

  /** `s.find(t)`: the first index at which `t` occurs in `s`. */
  function FindFirst(s: string, t: string): (r: Option<nat>)
    ensures r.Some? ==> OccursAt(s, t, r.value)
  {
    FindFrom(s, t, 0)
  }

  /** `FindFrom` finds the first occurrence at or after `i`, and finds
      nothing only when there is none. */
  lemma {:induction false} FindFromIsFirst(s: string, t: string, i: nat)
    ensures FindFrom(s, t, i).Some? ==>
      forall j :: i <= j < FindFrom(s, t, i).value ==> !OccursAt(s, t, j)
    ensures FindFrom(s, t, i).None? ==> forall j :: i <= j ==> !OccursAt(s, t, j)
    decreases |s| - i
  {
    if i + |t| <= |s| && !OccursAt(s, t, i) {
      FindFromIsFirst(s, t, i + 1);
    }
  }

  /** `FindFirst` finds the first occurrence, and finds nothing exactly when
      `t` does not occur in `s`. */
  lemma FindFirstIsFirst(s: string, t: string)
    ensures FindFirst(s, t).Some? ==>
      forall j :: 0 <= j < FindFirst(s, t).value ==> !OccursAt(s, t, j)
    ensures FindFirst(s, t).None? <==> !Contains(s, t)
  {
    FindFromIsFirst(s, t, 0);
  }

  /** A slice of a slice is a slice of the original. */
  lemma SliceOfSlice<T>(s: seq<T>, i: int, j: int, a: int, b: int)
    requires 0 <= i <= j <= |s| && 0 <= a <= b <= j - i
    ensures s[i..j][a..b] == s[i + a..i + b]
  {
    forall k | 0 <= k < b - a
      ensures s[i..j][a..b][k] == s[i + a..i + b][k]
    {
    }
  }

  /** A slice of a string that does not contain `t` does not contain `t`. */
  lemma SliceAvoids(s: string, t: string, i: int, j: int)
    requires 0 <= i <= j <= |s|
    requires !Contains(s, t)
    ensures !Contains(s[i..j], t)
  {
    if Contains(s[i..j], t) {
      var k :| 0 <= k <= j - i - |t| && OccursAt(s[i..j], t, k);
      SliceOfSlice(s, i, j, k, k + |t|);
      assert OccursAt(s, t, i + k);
      assert false;
    }
  }

  /** The prefix of `s` before the first occurrence of `t` does not contain `t`. */
  lemma PrefixBeforeFirstAvoids(s: string, t: string, i: nat)
    requires i <= |s| && |t| > 0
    requires forall j :: 0 <= j < i ==> !OccursAt(s, t, j)
    ensures !Contains(s[..i], t)
  {
    if Contains(s[..i], t) {
      var k :| 0 <= k <= i - |t| && OccursAt(s[..i], t, k);
      SliceOfSlice(s, 0, i, k, k + |t|);
      assert s[..i] == s[0..i];
      assert OccursAt(s, t, k);
      assert false;
    }
  }

  /** `s.split(sep)` for a non-empty `sep`: the pieces between the
      non-overlapping occurrences of `sep`, found left to right. */
  function Split(s: string, sep: string): (r: seq<string>)
    requires |sep| > 0
    ensures |r| >= 1
    decreases |s|
  {
    match FindFirst(s, sep)
    case None => [s]
    case Some(i) => [s[..i]] + Split(s[i + |sep|..], sep)
  }

  /** No piece of a split contains the separator. */
  lemma {:induction false} SplitPiecesAvoidSeparator(s: string, sep: string)
    requires |sep| > 0
    ensures forall k :: 0 <= k < |Split(s, sep)| ==> !Contains(Split(s, sep)[k], sep)
    decreases |s|
  {
    FindFirstIsFirst(s, sep);
    match FindFirst(s, sep)
    case None =>
    case Some(i) =>
      PrefixBeforeFirstAvoids(s, sep, i);
      SplitPiecesAvoidSeparator(s[i + |sep|..], sep);
  }

  /** Splitting yields a single piece exactly when the separator does not
      occur, and that piece is then the whole string. */
  lemma SplitSingleIffNoSeparator(s: string, sep: string)
    requires |sep| > 0
    ensures |Split(s, sep)| == 1 <==> !Contains(s, sep)
    ensures !Contains(s, sep) ==> Split(s, sep) == [s]
  {
    FindFirstIsFirst(s, sep);
  }

  /** Every piece of a split is a slice of the split string, so a substring
      absent from the string is absent from each piece. */
  lemma {:induction false} SplitPiecesAvoid(s: string, sep: string, t: string)
    requires |sep| > 0
    requires !Contains(s, t)
    ensures forall k :: 0 <= k < |Split(s, sep)| ==> !Contains(Split(s, sep)[k], t)
    decreases |s|
  {
    match FindFirst(s, sep)
    case None =>
    case Some(i) =>
      SliceAvoids(s, t, 0, i);
      assert s[..i] == s[0..i];
      SliceAvoids(s, t, i + |sep|, |s|);
      assert s[i + |sep|..] == s[i + |sep|..|s|];
      SplitPiecesAvoid(s[i + |sep|..], sep, t);
  }

  /** Stripping cannot introduce a substring. */
  lemma StripAvoids(s: string, t: string)
    requires !Contains(s, t)
    ensures !Contains(Strip(s), t)
  {
    SliceAvoids(s, t, StripStart(s), StripEnd(s));
  }

  /** `sep.join(xs)`. */
  function Join(xs: seq<string>, sep: string): (r: string)
    ensures |xs| == 0 ==> r == ""
    ensures |xs| > 0 ==> |r| == JoinedLength(xs) + (|xs| - 1) * |sep|
  {
    if |xs| == 0 then ""
    else if |xs| == 1 then xs[0]
    else xs[0] + sep + Join(xs[1..], sep)
  }

  /** The total length of the strings in `xs`. */
  function JoinedLength(xs: seq<string>): nat {
    if |xs| == 0 then 0 else |xs[0]| + JoinedLength(xs[1..])
  }

  /** Splitting and re-joining with the same separator gives back the string. */
  lemma {:induction false} JoinSplit(s: string, sep: string)
    requires |sep| > 0
    ensures Join(Split(s, sep), sep) == s
    decreases |s|
  {
    var f := FindFirst(s, sep);
    if f.Some? {
      var i := f.value;
      var rest := s[i + |sep|..];
      var tail := Split(rest, sep);
      assert Split(s, sep) == [s[..i]] + tail;
      JoinSplit(rest, sep);
      JoinCons(s[..i], tail, sep);
      Reassemble(s, i, sep);
    }
  }

  /** Joining a list with a head puts the separator after the head. */
  lemma JoinCons(x: string, ys: seq<string>, sep: string)
    requires |ys| > 0
    ensures Join([x] + ys, sep) == x + sep + Join(ys, sep)
  {
    assert ([x] + ys)[1..] == ys;
  }

  /** A string is the part before an occurrence, the occurrence, and the rest. */
  lemma Reassemble(s: string, i: nat, t: string)
    requires OccursAt(s, t, i)
    ensures s == s[..i] + t + s[i + |t|..]
  {
    assert s == s[..i] + s[i..i + |t|] + s[i + |t|..];
  }

  /** Where the `k`-th string starts inside `sep.join(xs)`. */
  function JoinOffset(xs: seq<string>, sep: string, k: nat): nat
    requires k <= |xs|
  {
    if k == 0 then 0 else |xs[0]| + |sep| + JoinOffset(xs[1..], sep, k - 1)
  }

  /** Consecutive strings are one separator apart. */
  lemma {:induction false} JoinOffsetStep(xs: seq<string>, sep: string, k: nat)
    requires k < |xs|
    ensures JoinOffset(xs, sep, k + 1) == JoinOffset(xs, sep, k) + |xs[k]| + |sep|
  {
    if k > 0 {
      JoinOffsetStep(xs[1..], sep, k - 1);
    }
  }

  /** Each joined string sits in the result at its offset; with
      `JoinOffsetStep` this says the join keeps the order of `xs`. */
  lemma {:induction false} JoinPlacesEach(xs: seq<string>, sep: string, k: nat)
    requires k < |xs|
    ensures OccursAt(Join(xs, sep), xs[k], JoinOffset(xs, sep, k))
  {
    if |xs| > 1 {
      var tail := Join(xs[1..], sep);
      if k == 0 {
        OccursAtFront(xs[0], sep + tail);
        assert xs[0] + (sep + tail) == Join(xs, sep);
      } else {
        JoinPlacesEach(xs[1..], sep, k - 1);
        assert xs[1..][k - 1] == xs[k];
        OccursShift(xs[0] + sep, tail, xs[k], JoinOffset(xs[1..], sep, k - 1));
        assert Join(xs, sep) == (xs[0] + sep) + tail;
      }
    }
  }

  /** Between consecutive strings of the join sits the separator. */
  lemma {:induction false} JoinSeparatorAfter(xs: seq<string>, sep: string, k: nat)
    requires k + 1 < |xs|
    ensures OccursAt(Join(xs, sep), sep, JoinOffset(xs, sep, k) + |xs[k]|)
  {
    var tail := Join(xs[1..], sep);
    if k == 0 {
      OccursAtFront(sep, tail);
      OccursShift(xs[0], sep + tail, sep, 0);
      assert xs[0] + (sep + tail) == Join(xs, sep);
    } else {
      JoinSeparatorAfter(xs[1..], sep, k - 1);
      OccursShift(xs[0] + sep, tail, sep, JoinOffset(xs[1..], sep, k - 1) + |xs[k]|);
    }
  }

  /** A string occurs at the front of anything it starts. */
  lemma OccursAtFront(t: string, v: string)
    ensures OccursAt(t + v, t, 0)
  {
    assert (t + v)[0..|t|] == t;
  }

  /** Putting `u` in front moves every occurrence in `v` right by `|u|`. */
  lemma OccursShift(u: string, v: string, t: string, o: nat)
    requires OccursAt(v, t, o)
    ensures OccursAt(u + v, t, |u| + o)
  {
    assert (u + v)[|u| + o..|u| + o + |t|] == v[o..o + |t|];
  }
}
