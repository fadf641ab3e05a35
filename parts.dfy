/**
  The two `<part N>` parsers of the notes writer and the notes checker.

  `split_outline_into_parts` runs `re.findall(r'<part (\d+)>(.*?)</part>',
  text, re.DOTALL)` and `split_notes_into_parts` runs the stricter
  `r'<part (\d+)>\n(.*?)\n</part>'`; both then build
  `{int(num): content.strip() for num, content in parts}`.

  For these two patterns the regular-expression engine behaves as a plain
  scanner: the greedy `\d+` must be followed by `>`, so it takes the whole
  digit run; the lazy `(.*?)` ends at the first closing marker after the
  opening tag. `findall` tries each position from the left, resumes after a
  match at the match's end, and after a failed attempt at the next position.
  `Scan` walks the text in exactly that way, on the remaining suffix.
 */
module Parts {
  import opened Wrappers
  import opened Strings
  import opened Numerals

  const OpenTag: string := "<part "

  /** What distinguishes the two patterns: the text required right after the
      opening tag's `>` and the closing marker. */
  datatype Pattern = Pattern(lead: string, close: string)

  /** `<part (\d+)>(.*?)</part>` */
  const OutlinePattern: Pattern := Pattern("", "</part>")

  /** `<part (\d+)>\n(.*?)\n</part>` */
  const NotesPattern: Pattern := Pattern("\n", "\n</part>")

  /** One match: the digits group, the content group, and the number of
      characters the whole match spans. */
  datatype Match = Match(digits: string, content: string, length: nat)

  /** A parsed document: part numbers with their stripped contents, in the
      dictionary's iteration order. */
  type PartList = seq<(nat, string)>

  /** `s` starts with `<part `, a non-empty run of digits and `>`. */
  predicate TagAt(s: string, digits: string) {
    var gt := |OpenTag| + |digits|;
    && gt < |s|
    && s[..|OpenTag|] == OpenTag
    && s[|OpenTag|..gt] == digits
    && s[gt] == '>'
    && digits != [] && AllDigits(digits)
  }

  /** The closing marker first occurs in `content + close` at its very end:
      the lazy group stops at the first closing marker. */
  predicate EndsAtFirstClose(content: string, close: string) {
    forall i :: 0 <= i < |content| ==> !OccursAt(content + close, close, i)
  }

  /** `rest` starts with `content` and then the closing marker, and the
      marker does not occur earlier. */
  predicate LazyAt(rest: string, close: string, content: string) {
    && |content| + |close| <= |rest|
    && rest[..|content| + |close|] == content + close
    && EndsAtFirstClose(content, close)
  }

  /** `m` is what the pattern matches at the start of `s`: the opening tag
      with its digits, the lead, then the content up to the first closing
      marker, and nothing beyond. */
  predicate Matches(s: string, pat: Pattern, m: Match) {
    var c := |OpenTag| + |m.digits| + 1;
    && TagAt(s, m.digits)
    && pat.lead <= s[c..]
    && LazyAt(s[c + |pat.lead|..], pat.close, m.content)
    && m.length == c + |pat.lead| + |m.content| + |pat.close|
  }

  /** The number of decimal digits at the front of `s`. */
  function DigitRun(s: string): (n: nat)
    ensures n <= |s|
  {
    if |s| > 0 && IsDigit(s[0]) then 1 + DigitRun(s[1..]) else 0
  }

  lemma {:induction false} DigitRunSpec(s: string)
    ensures AllDigits(s[..DigitRun(s)])
    ensures DigitRun(s) < |s| ==> !IsDigit(s[DigitRun(s)])
  {
    if |s| > 0 && IsDigit(s[0]) {
      DigitRunSpec(s[1..]);
      assert s[..DigitRun(s)] == [s[0]] + s[1..][..DigitRun(s[1..])];
    }
  }

  /** A run of `n` digits followed by a non-digit is the digit run. */
  lemma {:induction false} DigitRunExact(s: string, n: nat)
    requires n < |s| && AllDigits(s[..n]) && !IsDigit(s[n])
    ensures DigitRun(s) == n
  {
    if n > 0 {
      assert s[0] == s[..n][0];
      assert s[1..][..n - 1] == s[1..n];
      DigitRunExact(s[1..], n - 1);
    }
  }

  /** `(.*?)` followed by the closing marker, at the start of `rest`: the
      text before the first closing marker. */
  function LazyGroup(rest: string, close: string): (r: Option<string>)
    requires |close| > 0
    ensures r.Some? ==> |r.value| + |close| <= |rest|
  {
    match Find(rest, close)
    case None => None
    case Some(k) => Some(rest[..k])
  }

  /** The lazy group yields `content` exactly when `rest` starts with
      `content` and the closing marker, with no earlier closing marker. */
  lemma {:induction false} LazyGroupSpec(rest: string, close: string, content: string)
    requires |close| > 0
    ensures LazyGroup(rest, close) == Some(content) <==> LazyAt(rest, close, content)
  {
    if LazyGroup(rest, close) == Some(content) {
      LazyGroupSound(rest, close);
    }
    if LazyAt(rest, close, content) {
      LazyGroupComplete(rest, close, content);
    }
  }

  lemma {:induction false} LazyGroupSound(rest: string, close: string)
    requires |close| > 0 && LazyGroup(rest, close).Some?
    ensures LazyAt(rest, close, LazyGroup(rest, close).value)
  {
    var content := LazyGroup(rest, close).value;
    var k := |content|;
    var n := k + |close|;
    FindSpec(rest, close);
    assert rest[..n] == content + close by {
      assert rest[k..n] == close;
    }
    forall i | 0 <= i < k ensures !OccursAt(content + close, close, i) {
      OccursInPrefix(rest, n, close, i);
    }
  }

  lemma {:induction false} LazyGroupComplete(rest: string, close: string, content: string)
    requires |close| > 0 && LazyAt(rest, close, content)
    ensures LazyGroup(rest, close) == Some(content)
  {
    var k := |content|;
    var n := k + |close|;
    OccursInPrefix(rest, n, close, k);
    assert OccursAt(content + close, close, k) by {
      assert (content + close)[k..n] == close;
    }
    forall i | 0 <= i < k ensures !OccursAt(rest, close, i) {
      OccursInPrefix(rest, n, close, i);
    }
    FindFirst(rest, close, k);
    assert rest[..k] == rest[..n][..k];
  }

  /** `<part (\d+)>` at the start of `s`: the digits, when the tag is there. */
  function TagDigits(s: string): (r: Option<string>)
    ensures r.Some? ==> |OpenTag| + |r.value| < |s|
  {
    if !(OpenTag <= s) then None
    else
      var n := DigitRun(s[|OpenTag|..]);
      var gt := |OpenTag| + n;
      if n == 0 || gt >= |s| || s[gt] != '>' then None
      else Some(s[|OpenTag|..gt])
  }

  /** The tag is recognised exactly when it is there. */
  lemma {:induction false} TagDigitsSpec(s: string, digits: string)
    ensures TagDigits(s) == Some(digits) <==> TagAt(s, digits)
  {
    var t := |OpenTag|;
    var gt := t + |digits|;
    if TagDigits(s) == Some(digits) {
      DigitRunSpec(s[t..]);
      assert s[t..][..|digits|] == s[t..gt];
    }
    if TagAt(s, digits) {
      assert s[t..][..|digits|] == digits;
      DigitRunExact(s[t..], |digits|);
    }
  }

  /** Trying the pattern at the start of `s`. */
  function MatchHere(s: string, pat: Pattern): (r: Option<Match>)
    requires |pat.close| > 0
    ensures r.Some? ==> 0 < r.value.length <= |s|
  {
    match TagDigits(s)
    case None => None
    case Some(digits) =>
      var c := |OpenTag| + |digits| + 1;
      if !(pat.lead <= s[c..]) then None
      else
        var body := c + |pat.lead|;
        match LazyGroup(s[body..], pat.close)
        case None => None
        case Some(content) => Some(Match(digits, content, body + |content| + |pat.close|))
  }

  /** The attempt at the start of `s` yields `m` exactly when `m` is a match
      there: the scanner accepts what the pattern describes, nothing more,
      and the match is unique. */
  lemma {:induction false} MatchHereSpec(s: string, pat: Pattern, m: Match)
    requires |pat.close| > 0
    ensures MatchHere(s, pat) == Some(m) <==> Matches(s, pat, m)
  {
    if MatchHere(s, pat) == Some(m) {
      MatchHereSound(s, pat);
    }
    if Matches(s, pat, m) {
      MatchHereComplete(s, pat, m);
    }
  }

  lemma {:induction false} MatchHereSound(s: string, pat: Pattern)
    requires |pat.close| > 0
    requires MatchHere(s, pat).Some?
    ensures Matches(s, pat, MatchHere(s, pat).value)
  {
    var m := MatchHere(s, pat).value;
    var body := |OpenTag| + |m.digits| + 1 + |pat.lead|;
    assert TagDigits(s) == Some(m.digits);
    assert LazyGroup(s[body..], pat.close) == Some(m.content);
    TagDigitsSpec(s, m.digits);
    LazyGroupSpec(s[body..], pat.close, m.content);
  }

  lemma {:induction false} MatchHereComplete(s: string, pat: Pattern, m: Match)
    requires |pat.close| > 0
    requires Matches(s, pat, m)
    ensures MatchHere(s, pat) == Some(m)
  {
    var body := |OpenTag| + |m.digits| + 1 + |pat.lead|;
    TagDigitsSpec(s, m.digits);
    LazyGroupSpec(s[body..], pat.close, m.content);
  }

  /** A match ends with the closing marker. */
  lemma {:induction false} MatchEndsWithClose(s: string, pat: Pattern, m: Match)
    requires Matches(s, pat, m)
    ensures OccursAt(s, pat.close, m.length - |pat.close|)
  {
    var k := |m.content|;
    var n := k + |pat.close|;
    var body := m.length - n;
    var rest := s[body..];
    assert rest[k..n] == pat.close by {
      assert rest[k..n] == rest[..n][k..];
    }
    assert s[body + k..m.length] == rest[k..n];
  }

  /** `re.findall` with the pattern over `s`, from the left. Every match it
      reports has a digits group, so `int(num)` is defined on each. */
  function Scan(s: string, pat: Pattern): (r: seq<Match>)
    requires |pat.close| > 0
    ensures Numbered(r)
    decreases |s|
  {
    if s == [] then []
    else
      match MatchHere(s, pat)
      case Some(m) =>
        MatchHereSound(s, pat);
        [m] + Scan(s[m.length..], pat)
      case None => Scan(s[1..], pat)
  }

  /** The pattern matches `m` at some position of `s`. */
  ghost predicate MatchedAt(s: string, pat: Pattern, m: Match)
    requires |pat.close| > 0
  {
    exists p :: 0 <= p < |s| && MatchHere(s[p..], pat) == Some(m)
  }

  /** Every match the scanner reports is what the pattern matches at some
      position of the text (which `MatchHereSpec` characterises: digits after
      an opening tag there, content up to the first closing marker). */
  lemma {:induction false} ScanSound(s: string, pat: Pattern)
    requires |pat.close| > 0
    ensures forall i :: 0 <= i < |Scan(s, pat)| ==> MatchedAt(s, pat, Scan(s, pat)[i])
    decreases |s|
  {
    if s != [] {
      var r := Scan(s, pat);
      match MatchHere(s, pat)
      case Some(m) =>
        var tail := s[m.length..];
        var later := Scan(tail, pat);
        assert r == [m] + later;
        ScanSound(tail, pat);
        forall i | 0 <= i < |r| ensures MatchedAt(s, pat, r[i]) {
          if i == 0 {
            assert s[0..] == s;
          } else {
            MatchedAtShift(s, m.length, pat, later[i - 1]);
          }
        }
      case None =>
        ScanSound(s[1..], pat);
        forall i | 0 <= i < |r| ensures MatchedAt(s, pat, r[i]) {
          MatchedAtShift(s, 1, pat, r[i]);
        }
    }
  }

  /** A match somewhere after the first `n` characters is a match of the
      whole text. */
  lemma {:induction false} MatchedAtShift(s: string, n: nat, pat: Pattern, m: Match)
    requires |pat.close| > 0 && n <= |s|
    requires MatchedAt(s[n..], pat, m)
    ensures MatchedAt(s, pat, m)
  {
    var q :| 0 <= q < |s[n..]| && MatchHere(s[n..][q..], pat) == Some(m);
    assert s[n..][q..] == s[n + q..];
  }

  /** Text that contains no opening tag yields no match. */
  lemma {:induction false} ScanWithoutTag(s: string, pat: Pattern)
    requires |pat.close| > 0
    requires !Occurs(s, OpenTag)
    ensures Scan(s, pat) == []
    decreases |s|
  {
    if s != [] {
      assert !OccursAt(s, OpenTag, 0);
      assert !(OpenTag <= s);
      forall i | 0 <= i <= |s| - 1 ensures !OccursAt(s[1..], OpenTag, i) {
        OccursShift(s, OpenTag, i);
      }
      ScanWithoutTag(s[1..], pat);
    }
  }

  /** Text that contains no closing marker yields no match: an opening tag
      with no closing marker after it contributes nothing. */
  lemma {:induction false} ScanWithoutClose(s: string, pat: Pattern)
    requires |pat.close| > 0
    requires !Occurs(s, pat.close)
    ensures Scan(s, pat) == []
    decreases |s|
  {
    if s != [] {
      if MatchHere(s, pat).Some? {
        var m := MatchHere(s, pat).value;
        MatchHereSound(s, pat);
        MatchEndsWithClose(s, pat, m);
      }
      forall i | 0 <= i <= |s| - 1 ensures !OccursAt(s[1..], pat.close, i) {
        OccursShift(s, pat.close, i);
      }
      ScanWithoutClose(s[1..], pat);
    }
  }

  /** Text in front of the first opening tag is passed over and contributes
      nothing, whatever other markup it holds: only a `<part ` starting
      inside `junk` could begin a match there. */
  lemma {:induction false} ScanSkipsUntagged(junk: string, s: string, pat: Pattern)
    requires |pat.close| > 0
    requires forall i :: 0 <= i < |junk| ==> !OccursAt(junk + s, OpenTag, i)
    ensures Scan(junk + s, pat) == Scan(s, pat)
    decreases |junk|
  {
    if junk != [] {
      var t := junk + s;
      assert !(OpenTag <= t) by { assert !OccursAt(t, OpenTag, 0); }
      assert t[1..] == junk[1..] + s;
      forall i | 0 <= i < |junk| - 1 ensures !OccursAt(junk[1..] + s, OpenTag, i) {
        OccursShift(t, OpenTag, i);
      }
      ScanSkipsUntagged(junk[1..], s, pat);
    } else {
      assert junk + s == s;
    }
  }

  /** Whether the pattern matches `m` at the start of `s` depends only on
      the characters the match spans. */
  lemma {:induction false} MatchesInPrefix(s: string, n: nat, pat: Pattern, m: Match)
    requires m.length <= n <= |s|
    ensures Matches(s, pat, m) <==> Matches(s[..n], pat, m)
  {
    var c := |OpenTag| + |m.digits| + 1;
    var body := c + |pat.lead|;
    if Matches(s, pat, m) || Matches(s[..n], pat, m) {
      assert s[..n][..|OpenTag|] == s[..|OpenTag|];
      assert s[..n][|OpenTag|..c - 1] == s[|OpenTag|..c - 1];
      assert s[..n][c..][..|pat.lead|] == s[c..][..|pat.lead|];
      assert s[..n][body..][..|m.content| + |pat.close|] == s[body..][..|m.content| + |pat.close|];
    }
  }

  /** Every closing marker in `u` ends by position `n`. */
  predicate ClosesBy(u: string, n: int, close: string) {
    forall i :: 0 <= i <= |u| && OccursAt(u, close, i) ==> i + |close| <= n
  }

  lemma {:induction false} ClosesByDrop(u: string, n: int, close: string, l: nat)
    requires l <= |u| && ClosesBy(u, n, close)
    ensures ClosesBy(u[l..], n - l, close)
  {
    forall i | 0 <= i <= |u[l..]| && OccursAt(u[l..], close, i) ensures i + |close| <= n - l {
      assert u[l..][i..i + |close|] == u[l + i..l + i + |close|];
      assert OccursAt(u, close, l + i);
    }
  }

  /** The first step of the scan over `s + tail` is the first step of the
      scan over `s` when every closing marker ends inside `s`. */
  lemma {:induction false} MatchHereUnclosedTail(s: string, tail: string, pat: Pattern)
    requires |pat.close| > 0 && s != []
    requires ClosesBy(s + tail, |s|, pat.close)
    ensures MatchHere(s + tail, pat) == MatchHere(s, pat)
  {
    var u := s + tail;
    assert u[..|s|] == s;
    if MatchHere(u, pat).Some? {
      var m := MatchHere(u, pat).value;
      MatchHereSound(u, pat);
      MatchEndsWithClose(u, pat, m);
      MatchesInPrefix(u, |s|, pat, m);
      MatchHereComplete(s, pat, m);
    } else if MatchHere(s, pat).Some? {
      var m := MatchHere(s, pat).value;
      MatchHereSound(s, pat);
      MatchesInPrefix(u, |s|, pat, m);
      MatchHereComplete(u, pat, m);
    }
  }

  /** Text after the last closing marker contributes nothing: an opening
      tag that no closing marker follows, with whatever comes after it,
      adds no match. The condition says every closing marker of `s + tail`
      ends inside `s`. */
  lemma {:induction false} ScanIgnoresUnclosedTail(s: string, tail: string, pat: Pattern)
    requires |pat.close| > 0
    requires ClosesBy(s + tail, |s|, pat.close)
    ensures Scan(s + tail, pat) == Scan(s, pat)
    decreases |s|
  {
    var u := s + tail;
    if s == [] {
      assert u == tail;
      assert !Occurs(tail, pat.close);
      ScanWithoutClose(tail, pat);
    } else {
      MatchHereUnclosedTail(s, tail, pat);
      var l := match MatchHere(s, pat) case Some(m) => m.length case None => 1;
      assert u[l..] == s[l..] + tail;
      ClosesByDrop(u, |s|, pat.close, l);
      ScanIgnoresUnclosedTail(s[l..], tail, pat);
    }
  }

  /** Every match carries a non-empty digits group, as `\d+` requires. */
  predicate Numbered(ms: seq<Match>) {
    forall i :: 0 <= i < |ms| ==> ms[i].digits != [] && AllDigits(ms[i].digits)
  }

  /** The part numbers of a list of matches, as `int(num)` reads them. */
  function Numbers(ms: seq<Match>): (ns: seq<nat>)
    requires Numbered(ms)
    ensures |ns| == |ms|
    ensures forall i :: 0 <= i < |ms| ==> ns[i] == DigitsValue(ms[i].digits)
  {
    if ms == [] then [] else Numbers(ms[..|ms| - 1]) + [DigitsValue(ms[|ms| - 1].digits)]
  }

  /** The distinct elements of `xs`, each kept where it first occurs. */
  function Dedup(xs: seq<nat>): (r: seq<nat>)
    ensures forall x :: x in r <==> x in xs
    ensures forall i, j :: 0 <= i < j < |r| ==> r[i] != r[j]
  {
    if xs == [] then []
    else
      var init := Dedup(xs[..|xs| - 1]);
      var x := xs[|xs| - 1];
      assert xs == xs[..|xs| - 1] + [x];
      if x in init then init else init + [x]
  }

  /** `Dedup` keeps first-occurrence order: an element listed before
      another occurs in `xs` before every occurrence of the later one. */
  lemma {:induction false} DedupOrder(xs: seq<nat>)
    ensures forall i, j, q :: 0 <= i < j < |Dedup(xs)| && 0 <= q < |xs| && xs[q] == Dedup(xs)[j] ==>
      Dedup(xs)[i] in xs[..q]
    decreases |xs|
  {
    if xs != [] {
      var pre := xs[..|xs| - 1];
      var init := Dedup(pre);
      var r := Dedup(xs);
      DedupOrder(pre);
      assert xs == pre + [xs[|xs| - 1]];
      forall i, j, q | 0 <= i < j < |r| && 0 <= q < |xs| && xs[q] == r[j] ensures r[i] in xs[..q] {
        assert r[i] == init[i];
        if q == |xs| - 1 {
          assert init[i] in pre;
        } else {
          assert xs[q] == pre[q];
          assert pre[..q] == xs[..q];
          if j < |init| {
            assert r[j] == init[j];
          }
        }
      }
    }
  }

  function Keys(d: PartList): (ks: seq<nat>)
    ensures |ks| == |d|
  {
    seq(|d|, i requires 0 <= i < |d| => d[i].0)
  }

  predicate DistinctKeys(d: PartList) {
    forall i, j :: 0 <= i < j < |d| ==> d[i].0 != d[j].0
  }

  /** Where key `k` sits in `d`, or `|d|` when it is absent. */
  function KeyIndex(d: PartList, k: nat): (i: nat)
    ensures i <= |d|
    ensures i < |d| ==> d[i].0 == k
    ensures forall j :: 0 <= j < i ==> d[j].0 != k
  {
    if d == [] then 0 else if d[0].0 == k then 0 else 1 + KeyIndex(d[1..], k)
  }

  /** `d[k] = v` on a dictionary: an existing key keeps its place and takes
      the new value; a new key goes last. */
  function Assign(d: PartList, k: nat, v: string): PartList {
    var i := KeyIndex(d, k);
    if i < |d| then d[i := (k, v)] else d + [(k, v)]
  }

  lemma {:induction false} AssignSpec(d: PartList, k: nat, v: string)
    requires DistinctKeys(d)
    ensures var r := Assign(d, k, v);
      && DistinctKeys(r)
      && Keys(r) == (if k in Keys(d) then Keys(d) else Keys(d) + [k])
      && (k, v) in r
      && (forall e :: e in d && e.0 != k ==> e in r)
      && (forall e :: e in r ==> e in d || e == (k, v))
  {
    var i := KeyIndex(d, k);
    var r := Assign(d, k, v);
    if i < |d| {
      assert Keys(d)[i] == k;
      assert Keys(r) == Keys(d);
      forall e | e in d && e.0 != k ensures e in r {
        var j :| 0 <= j < |d| && d[j] == e;
        assert r[j] == e;
      }
    } else {
      assert k !in Keys(d);
      assert Keys(r) == Keys(d) + [k];
      assert r[|d|] == (k, v);
    }
  }

  /** `{int(num): content.strip() for num, content in matches}`: a
      dictionary, so no part number appears twice, and every value is a
      stripped content. */
  function Collect(ms: seq<Match>): (d: PartList)
    requires Numbered(ms)
    ensures DistinctKeys(d)
    ensures forall e :: e in d ==> Stripped(e.1)
  {
    if ms == [] then []
    else
      var last := ms[|ms| - 1];
      AssignSpec(Collect(ms[..|ms| - 1]), DigitsValue(last.digits), Strip(last.content));
      Assign(Collect(ms[..|ms| - 1]), DigitsValue(last.digits), Strip(last.content))
  }

  /** The dictionary holds each part number found once, in the order of
      first occurrence: a repeated number stays where it was first seen. */
  lemma {:induction false} CollectKeys(ms: seq<Match>)
    requires Numbered(ms)
    ensures DistinctKeys(Collect(ms))
    ensures Keys(Collect(ms)) == Dedup(Numbers(ms))
    decreases |ms|
  {
    if ms != [] {
      var init := ms[..|ms| - 1];
      var last := ms[|ms| - 1];
      CollectKeys(init);
      AssignSpec(Collect(init), DigitsValue(last.digits), Strip(last.content));
      assert Numbers(ms)[..|ms| - 1] == Numbers(init);
    }
  }

  /** When a part number repeats, the last match's content is its value. */
  lemma {:induction false} CollectLastWins(ms: seq<Match>, i: nat)
    requires Numbered(ms)
    requires i < |ms|
    requires forall j :: i < j < |ms| ==> DigitsValue(ms[j].digits) != DigitsValue(ms[i].digits)
    ensures (DigitsValue(ms[i].digits), Strip(ms[i].content)) in Collect(ms)
    decreases |ms|
  {
    var init := ms[..|ms| - 1];
    var last := ms[|ms| - 1];
    CollectKeys(init);
    AssignSpec(Collect(init), DigitsValue(last.digits), Strip(last.content));
    if i < |ms| - 1 {
      CollectLastWins(init, i);
    }
  }

  /** With no repeated number, the dictionary lists every match, in order. */
  lemma {:induction false} CollectWithoutRepeats(ms: seq<Match>)
    requires Numbered(ms)
    requires forall i, j :: 0 <= i < j < |ms| ==> DigitsValue(ms[i].digits) != DigitsValue(ms[j].digits)
    ensures |Collect(ms)| == |ms|
    ensures forall i :: 0 <= i < |ms| ==> Collect(ms)[i] == (DigitsValue(ms[i].digits), Strip(ms[i].content))
    decreases |ms|
  {
    if ms != [] {
      var init := ms[..|ms| - 1];
      var last := ms[|ms| - 1];
      var k := DigitsValue(last.digits);
      var v := Strip(last.content);
      CollectWithoutRepeats(init);
      var prev := Collect(init);
      assert k !in Keys(prev) by {
        CollectKeys(init);
        forall j | 0 <= j < |init| ensures Numbers(init)[j] != k {
          assert init[j] == ms[j];
        }
      }
      CollectFresh(ms);
      forall i | 0 <= i < |ms| ensures Collect(ms)[i] == (DigitsValue(ms[i].digits), Strip(ms[i].content)) {
        if i < |init| {
          assert ms[i] == init[i];
        }
      }
    }
  }

  /** A last match whose part number is new appends one entry. */
  lemma {:induction false} CollectFresh(ms: seq<Match>)
    requires Numbered(ms) && ms != []
    requires DigitsValue(ms[|ms| - 1].digits) !in Keys(Collect(ms[..|ms| - 1]))
    ensures Collect(ms) == Collect(ms[..|ms| - 1]) + [(DigitsValue(ms[|ms| - 1].digits), Strip(ms[|ms| - 1].content))]
  {
    var prev := Collect(ms[..|ms| - 1]);
    var k := DigitsValue(ms[|ms| - 1].digits);
    forall i | 0 <= i < |prev| ensures prev[i].0 != k {
      assert Keys(prev)[i] == prev[i].0;
    }
  }

  /** `split_outline_into_parts`: distinct part numbers, each with a
      stripped content, and nothing for a text without an opening tag. */
  function ParseOutline(text: string): (d: PartList)
    ensures DistinctKeys(d)
    ensures forall e :: e in d ==> Stripped(e.1)
    ensures !Occurs(text, OpenTag) ==> d == []
  {
    assert !Occurs(text, OpenTag) ==> Scan(text, OutlinePattern) == [] by {
      if !Occurs(text, OpenTag) {
        ScanWithoutTag(text, OutlinePattern);
      }
    }
    Collect(Scan(text, OutlinePattern))
  }

  /** `split_notes_into_parts`, with the same guarantees under the notes
      pattern. */
  function ParseNotes(text: string): (d: PartList)
    ensures DistinctKeys(d)
    ensures forall e :: e in d ==> Stripped(e.1)
    ensures !Occurs(text, OpenTag) ==> d == []
  {
    assert !Occurs(text, OpenTag) ==> Scan(text, NotesPattern) == [] by {
      if !Occurs(text, OpenTag) {
        ScanWithoutTag(text, NotesPattern);
      }
    }
    Collect(Scan(text, NotesPattern))
  }
}
