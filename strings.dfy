/**
  The Python string operations the program calls, `str.strip()`,
  `str.split(sep)` and `sep.join(parts)`, together with `str.find()` and
  `str.count()`, which describe the lazy regular-expression group and the
  number of pieces a split yields.
 */
module Strings {
  import opened Wrappers

  /** The characters for which Python's `str.isspace()` holds; `str.strip()`
      with no argument removes exactly these from both ends. */
  predicate IsSpace(c: char) {
    || c == ' '
    || ('\t' <= c <= '\r')
    || ('\U{1c}' <= c <= '\U{1f}')
    || c == '\U{85}' || c == '\U{a0}' || c == '\U{1680}'
    || ('\U{2000}' <= c <= '\U{200a}')
    || c == '\U{2028}' || c == '\U{2029}' || c == '\U{202f}'
    || c == '\U{205f}' || c == '\U{3000}'
  }

  predicate AllSpace(s: string) {
    forall k :: 0 <= k < |s| ==> IsSpace(s[k])
  }

  /** Neither end of `s` is whitespace: what `strip()` leaves behind. */
  predicate Stripped(s: string) {
    s == [] || (!IsSpace(s[0]) && !IsSpace(s[|s| - 1]))
  }

  /** `s.lstrip()`: drops whitespace from the front. */
  function TrimStart(s: string): (r: string)
    ensures |r| <= |s|
  {
    if |s| > 0 && IsSpace(s[0]) then TrimStart(s[1..]) else s
  }

  /** `s.rstrip()`: drops whitespace from the back. */
  function TrimEnd(s: string): (r: string)
    ensures |r| <= |s|
  {
    if |s| > 0 && IsSpace(s[|s| - 1]) then TrimEnd(s[..|s| - 1]) else s
  }

  /** `lstrip()` keeps the longest suffix that does not start with
      whitespace. */
  lemma {:induction false} TrimStartSpec(s: string)
    ensures var r := TrimStart(s);
      && |r| <= |s| && r == s[|s| - |r|..]
      && AllSpace(s[..|s| - |r|])
      && (r == [] || !IsSpace(r[0]))
  {
    if |s| > 0 && IsSpace(s[0]) {
      TrimStartSpec(s[1..]);
    }
  }

  /** `rstrip()` keeps the longest prefix that does not end with
      whitespace. */
  lemma {:induction false} TrimEndSpec(s: string)
    ensures var r := TrimEnd(s);
      && |r| <= |s| && r == s[..|r|]
      && AllSpace(s[|r|..])
      && (r == [] || !IsSpace(r[|r| - 1]))
  {
    if |s| > 0 && IsSpace(s[|s| - 1]) {
      var init := s[..|s| - 1];
      TrimEndSpec(init);
      var r := TrimEnd(init);
      assert s[|r|..] == init[|r|..] + [s[|s| - 1]];
    }
  }

  /** `s.strip()`: `s` without its leading and trailing whitespace. */
  function Strip(s: string): (r: string)
    ensures Stripped(r)
    ensures Stripped(s) ==> r == s
  {
    var t := TrimStart(s);
    TrimStartSpec(s);
    TrimEndSpec(t);
    var r := TrimEnd(t);
    assert r == [] || !IsSpace(r[0]) by {
      if r != [] { assert r[0] == t[0]; }
    }
    r
  }

  /** `strip()` removes only whitespace: its result is the slice of `s` that
      starts after the leading whitespace, and what lies on either side of
      that slice is whitespace. */
  lemma {:induction false} StripRemovesOnlySpace(s: string)
    ensures var r := Strip(s); var d := |s| - |TrimStart(s)|;
      && d + |r| <= |s| && r == s[d..d + |r|]
      && AllSpace(s[..d]) && AllSpace(s[d + |r|..])
  {
    var t := TrimStart(s);
    TrimStartSpec(s);
    TrimEndSpec(t);
    var r := TrimEnd(t);
    assert Strip(s) == r;
    var d := |s| - |t|;
    assert r == t[..|r|];
    assert t == s[d..];
    assert s[d + |r|..] == t[|r|..];
    assert s[d..d + |r|] == r;
  }

  /** Appending whitespace never changes what `strip()` returns. */
  lemma {:induction false} StripIgnoresTrailingSpace(s: string, w: string)
    requires AllSpace(w)
    ensures Strip(s + w) == Strip(s)
  {
    TrimStartAppend(s, w);
    if AllSpace(s) {
      TrimStartAllSpace(s);
      TrimStartAllSpace(w);
    } else {
      TrimEndAppend(TrimStart(s), w);
    }
  }

  lemma {:induction false} TrimStartAllSpace(s: string)
    requires AllSpace(s)
    ensures TrimStart(s) == []
  {
    if |s| > 0 {
      assert AllSpace(s[1..]);
      TrimStartAllSpace(s[1..]);
    }
  }

  lemma {:induction false} TrimStartAppend(s: string, w: string)
    ensures AllSpace(s) ==> TrimStart(s + w) == TrimStart(w)
    ensures !AllSpace(s) ==> TrimStart(s + w) == TrimStart(s) + w
  {
    if |s| > 0 {
      assert (s + w)[1..] == s[1..] + w;
      if IsSpace(s[0]) {
        TrimStartAppend(s[1..], w);
        if !AllSpace(s) {
          var k :| 0 <= k < |s| && !IsSpace(s[k]);
          assert !IsSpace(s[1..][k - 1]);
        }
      }
    } else {
      assert s + w == w;
    }
  }

  lemma {:induction false} TrimEndAppend(s: string, w: string)
    requires AllSpace(w)
    ensures TrimEnd(s + w) == TrimEnd(s)
    decreases |w|
  {
    if |w| > 0 {
      assert (s + w)[..|s + w| - 1] == s + w[..|w| - 1];
      TrimEndAppend(s, w[..|w| - 1]);
    } else {
      assert s + w == s;
    }
  }

  /** `pat` occurs in `s` starting at index `i`. */
  predicate OccursAt(s: string, pat: string, i: int) {
    0 <= i && i + |pat| <= |s| && s[i..i + |pat|] == pat
  }

  predicate Occurs(s: string, pat: string) {
    exists i :: 0 <= i <= |s| && OccursAt(s, pat, i)
  }

  /** `s.find(pat)`: the index of the leftmost occurrence of `pat`, if any. */
  function Find(s: string, pat: string): (r: Option<nat>)
    requires |pat| > 0
    ensures r.Some? ==> r.value + |pat| <= |s|
    decreases |s|
  {
    if |s| < |pat| then None
    else if s[..|pat|] == pat then Some(0)
    else
      match Find(s[1..], pat)
      case None => None
      case Some(k) => Some(k + 1)
  }

  /** `find` reports the leftmost occurrence, and reports none exactly when
      there is none. */
  lemma {:induction false} FindSpec(s: string, pat: string)
    requires |pat| > 0
    ensures var r := Find(s, pat);
      && (r.Some? ==> OccursAt(s, pat, r.value))
      && (r.Some? ==> forall i :: 0 <= i < r.value ==> !OccursAt(s, pat, i))
      && (r.None? <==> !Occurs(s, pat))
  {
    FindSome(s, pat);
    FindNone(s, pat);
  }

  lemma {:induction false} FindSome(s: string, pat: string)
    requires |pat| > 0
    ensures var r := Find(s, pat);
      r.Some? ==> OccursAt(s, pat, r.value) && forall i :: 0 <= i < r.value ==> !OccursAt(s, pat, i)
    decreases |s|
  {
    if |s| >= |pat| && s[..|pat|] != pat {
      match Find(s[1..], pat)
      case None =>
      case Some(k) =>
        FindSome(s[1..], pat);
        OccursShift(s, pat, k);
        forall i | 0 < i < k + 1 ensures !OccursAt(s, pat, i) {
          OccursShift(s, pat, i - 1);
        }
    }
  }

  lemma {:induction false} FindNone(s: string, pat: string)
    requires |pat| > 0
    ensures Find(s, pat).None? ==> forall i :: 0 <= i <= |s| ==> !OccursAt(s, pat, i)
    decreases |s|
  {
    if |s| >= |pat| && s[..|pat|] != pat && Find(s[1..], pat).None? {
      FindNone(s[1..], pat);
      forall i | 0 < i <= |s| ensures !OccursAt(s, pat, i) {
        OccursShift(s, pat, i - 1);
      }
    }
  }

  /** Whether `pat` occurs at `i` depends only on the text up to the end of
      that occurrence. */
  lemma {:induction false} OccursInPrefix(s: string, n: nat, pat: string, i: nat)
    requires i + |pat| <= n <= |s|
    ensures OccursAt(s, pat, i) <==> OccursAt(s[..n], pat, i)
  {
    assert s[..n][i..i + |pat|] == s[i..i + |pat|];
  }

  /** An occurrence with none before it is what `find` reports. */
  lemma {:induction false} FindFirst(s: string, pat: string, k: nat)
    requires |pat| > 0 && OccursAt(s, pat, k)
    requires forall i :: 0 <= i < k ==> !OccursAt(s, pat, i)
    ensures Find(s, pat) == Some(k)
  {
    FindSpec(s, pat);
    assert Occurs(s, pat);
  }

  /** An occurrence one place further into `s` is an occurrence in `s[1..]`. */
  lemma {:induction false} OccursShift(s: string, pat: string, i: nat)
    requires |s| > 0
    ensures OccursAt(s, pat, i + 1) <==> OccursAt(s[1..], pat, i)
  {
    if i + 1 + |pat| <= |s| {
      assert s[1..][i..i + |pat|] == s[i + 1..i + 1 + |pat|];
    }
  }

  /** `s.count(pat)`: the number of non-overlapping occurrences of `pat`,
      counted from the left. */
  function Count(s: string, pat: string): nat
    requires |pat| > 0
    decreases |s|
  {
    if |s| < |pat| then 0
    else if s[..|pat|] == pat then 1 + Count(s[|pat|..], pat)
    else Count(s[1..], pat)
  }

  /** `s.split(sep)`: the pieces between the non-overlapping occurrences of
      `sep`, found from the left. */
  function Split(s: string, sep: string): (r: seq<string>)
    requires |sep| > 0
    ensures |r| >= 1
    decreases |s|
  {
    match Find(s, sep)
    case None => [s]
    case Some(i) => [s[..i]] + Split(s[i + |sep|..], sep)
  }

  /** `sep.join(parts)`: the parts, with one separator between each two. */
  function Join(parts: seq<string>, sep: string): string {
    if |parts| == 0 then ""
    else if |parts| == 1 then parts[0]
    else parts[0] + sep + Join(parts[1..], sep)
  }

  /** The split cuts at the leftmost occurrence: with the first occurrence
      of `sep` at `i`, the first block is everything before it and the rest
      is the split of what follows it. */
  lemma {:induction false} SplitAtFirst(s: string, sep: string, i: nat)
    requires |sep| > 0 && OccursAt(s, sep, i)
    requires forall j :: 0 <= j < i ==> !OccursAt(s, sep, j)
    ensures Split(s, sep) == [s[..i]] + Split(s[i + |sep|..], sep)
  {
    FindFirst(s, sep, i);
  }

  /** A text without the separator is a single block. */
  lemma {:induction false} SplitWithoutSeparator(s: string, sep: string)
    requires |sep| > 0 && !Occurs(s, sep)
    ensures Split(s, sep) == [s]
  {
    FindSpec(s, sep);
  }

  /** Joining the pieces of a split with the same separator gives back the
      original text. */
  lemma {:induction false} JoinSplit(s: string, sep: string)
    requires |sep| > 0
    ensures Join(Split(s, sep), sep) == s
    decreases |s|
  {
    FindSpec(s, sep);
    match Find(s, sep)
    case None =>
    case Some(i) =>
      var rest := s[i + |sep|..];
      var pieces := Split(rest, sep);
      calc {
        Join(Split(s, sep), sep);
        { JoinCons(s[..i], pieces, sep); }
        s[..i] + sep + Join(pieces, sep);
        { JoinSplit(rest, sep); }
        s[..i] + sep + rest;
        { assert s[i..i + |sep|] == sep; assert s == s[..i] + s[i..i + |sep|] + s[i + |sep|..]; }
        s;
      }
  }

  lemma {:induction false} JoinCons(x: string, parts: seq<string>, sep: string)
    requires parts != []
    ensures Join([x] + parts, sep) == x + sep + Join(parts, sep)
  {
    assert ([x] + parts)[1..] == parts;
  }

  /** No piece of a split contains the separator. */
  lemma {:induction false} SplitPiecesLackSeparator(s: string, sep: string)
    requires |sep| > 0
    ensures forall k :: 0 <= k < |Split(s, sep)| ==> !Occurs(Split(s, sep)[k], sep)
    decreases |s|
  {
    FindSpec(s, sep);
    match Find(s, sep)
    case None =>
    case Some(i) =>
      var rest := s[i + |sep|..];
      SplitPiecesLackSeparator(rest, sep);
      var r := Split(s, sep);
      assert r[1..] == Split(rest, sep);
      forall j | OccursAt(s[..i], sep, j) ensures false {
        assert s[..i][j..j + |sep|] == s[j..j + |sep|];
        assert OccursAt(s, sep, j);
      }
      forall k | 0 <= k < |r| ensures !Occurs(r[k], sep) {
        if k > 0 { assert r[k] == Split(rest, sep)[k - 1]; }
      }
  }

  /** A split yields one more piece than there are (non-overlapping)
      separator occurrences. */
  lemma {:induction false} SplitCount(s: string, sep: string)
    requires |sep| > 0
    ensures |Split(s, sep)| == Count(s, sep) + 1
    decreases |s|
  {
    match Find(s, sep)
    case None =>
      CountWithoutFind(s, sep);
    case Some(i) =>
      var rest := s[i + |sep|..];
      SplitCount(rest, sep);
      CountAtFind(s, sep, i);
      assert |Split(s, sep)| == 1 + |Split(rest, sep)|;
  }

  /** A text in which `find` fails holds no occurrence to count. */
  lemma {:induction false} CountWithoutFind(s: string, sep: string)
    requires |sep| > 0 && Find(s, sep).None?
    ensures Count(s, sep) == 0
  {
    FindNone(s, sep);
    CountSkips(s, sep, |s|);
    assert Count(s[|s|..], sep) == 0;
  }

  /** `count` agrees with `find`: the first occurrence counts once, and the
      rest is counted after it. */
  lemma {:induction false} CountAtFind(s: string, sep: string, i: nat)
    requires |sep| > 0 && Find(s, sep) == Some(i)
    ensures i + |sep| <= |s|
    ensures Count(s, sep) == 1 + Count(s[i + |sep|..], sep)
  {
    FindSome(s, sep);
    CountSkips(s, sep, i);
    var t := s[i..];
    assert t[..|sep|] == sep;
    assert t[|sep|..] == s[i + |sep|..];
  }

  /** `count` passes over a stretch of text that holds no occurrence. */
  lemma {:induction false} CountSkips(s: string, pat: string, i: nat)
    requires |pat| > 0 && i <= |s|
    requires forall j :: 0 <= j < i ==> !OccursAt(s, pat, j)
    ensures Count(s, pat) == Count(s[i..], pat)
    decreases i
  {
    if i > 0 {
      if |s| >= |pat| {
        assert !OccursAt(s, pat, 0);
        assert s[..|pat|] != pat;
      }
      forall j | 0 <= j < i - 1 ensures !OccursAt(s[1..], pat, j) {
        assert !OccursAt(s, pat, j + 1);
        if j + |pat| <= |s| - 1 {
          assert s[1..][j..j + |pat|] == s[j + 1..j + 1 + |pat|];
        }
      }
      if |s| >= |pat| {
        CountSkips(s[1..], pat, i - 1);
        assert s[1..][i - 1..] == s[i..];
      } else {
        assert Count(s[i..], pat) == 0;
      }
    }
  }

  /** Appending one more piece to a join adds one separator. */
  lemma {:induction false} JoinSnoc(parts: seq<string>, x: string, sep: string)
    ensures Join(parts + [x], sep) == if parts == [] then x else Join(parts, sep) + sep + x
    decreases |parts|
  {
    if |parts| > 1 {
      assert (parts + [x])[1..] == parts[1..] + [x];
      JoinSnoc(parts[1..], x, sep);
    } else if |parts| == 1 {
      assert (parts + [x])[1..] == [x];
    }
  }

  /** Extending a prefix of `parts` by one element extends its join by a
      separator and that element. */
  lemma {:induction false} JoinPrefixStep(parts: seq<string>, i: nat, sep: string)
    requires i < |parts|
    ensures Join(parts[..i + 1], sep) ==
      if i == 0 then parts[0] else Join(parts[..i], sep) + sep + parts[i]
  {
    assert parts[..i + 1] == parts[..i] + [parts[i]];
    JoinSnoc(parts[..i], parts[i], sep);
  }

  /** A join whose first part starts, and whose last part ends, with a
      character other than whitespace is already stripped. */
  lemma {:induction false} JoinStripped(parts: seq<string>, sep: string)
    requires parts != [] && parts[0] != [] && !IsSpace(parts[0][0])
    requires var last := parts[|parts| - 1]; last != [] && !IsSpace(last[|last| - 1])
    ensures Stripped(Join(parts, sep))
  {
    JoinEnds(parts, sep);
    var j := Join(parts, sep);
    var last := parts[|parts| - 1];
    assert j[0] == parts[0][0];
    assert j[|j| - 1] == last[|last| - 1];
  }

  /** A join starts with its first part and ends with its last part. */
  lemma {:induction false} JoinEnds(parts: seq<string>, sep: string)
    requires parts != []
    ensures parts[0] <= Join(parts, sep)
    ensures var j := Join(parts, sep); var last := parts[|parts| - 1];
      |last| <= |j| && j[|j| - |last|..] == last
    decreases |parts|
  {
    if |parts| > 1 {
      JoinEnds(parts[1..], sep);
    }
  }
}
