/**
  The notes writer and the notes checker (`MeetingNotesWriter.process` and
  `MeetingNotesChecker.process`). Each reads a tagged document, asks the
  model once per part in the order the parser lists the parts, and writes
  every stripped reply back inside its own `<part N>` tag, the tagged parts
  separated by a blank line. The writer parses an outline with the outline
  pattern; the checker parses the writer's notes with the stricter notes
  pattern, so the writer's output is the checker's input.

  The model's replies are a parameter: `replies(i)` is the completion text
  of the `i`-th call of a run.
 */
module Notes {
  import opened Wrappers
  import opened Strings
  import opened Numerals
  import opened Parts

  /** The closing marker of the notes pattern, which the writer emits. */
  const NotesClose: string := "\n</part>"

  /** `f"<part {n}>\n{body}\n</part>"`. */
  function WrapPart(n: nat, body: string): string {
    OpenTag + NatToString(n) + ">\n" + body + NotesClose
  }

  function Wrapped(parts: PartList): (ws: seq<string>)
    ensures |ws| == |parts|
    ensures forall i :: 0 <= i < |parts| ==> ws[i] == WrapPart(parts[i].0, parts[i].1)
  {
    if parts == [] then [] else [WrapPart(parts[0].0, parts[0].1)] + Wrapped(parts[1..])
  }

  /** `"\n\n".join(results)` over the wrapped parts: the text a run writes. */
  function Serialize(parts: PartList): string {
    Join(Wrapped(parts), "\n\n")
  }

  /** Each part number of `parts` with the stripped reply of its call: the
      same part numbers in the same order, every body stripped. */
  function Answered(parts: PartList, replies: nat -> string): (r: PartList)
    ensures Keys(r) == Keys(parts)
    ensures forall i :: 0 <= i < |r| ==> Stripped(r[i].1)
  {
    var r := seq(|parts|, i requires 0 <= i < |parts| => (parts[i].0, Strip(replies(i))));
    assert forall i :: 0 <= i < |r| ==> r[i].1 == Strip(replies(i));
    r
  }

  /** What one run of the writer or of the checker produces: the parsed
      parts that drove the calls, the tagged results, and the written text
      (which `process` also returns). */
  datatype Run = Run(parts: PartList, results: seq<string>, written: string)

  /** The loop both processes share: one call per part, in order, each
      stripped reply wrapped in the tag of its part number, then the tagged
      results joined by blank lines. */
  method WrapReplies(parts: PartList, replies: nat -> string) returns (results: seq<string>, written: string)
    ensures results == Wrapped(Answered(parts, replies))
    ensures written == Serialize(Answered(parts, replies))
  {
    results := [];
    var i := 0;
    while i < |parts|
      invariant 0 <= i <= |parts|
      invariant |results| == i
      invariant forall j :: 0 <= j < i ==> results[j] == WrapPart(parts[j].0, Strip(replies(j)))
    {
      var summary := Strip(replies(i));
      results := results + [WrapPart(parts[i].0, summary)];
      i := i + 1;
    }
    written := Join(results, "\n\n");
  }

  /** `MeetingNotesWriter.process`: the outline file (read and stripped) is
      parsed with the outline pattern and every part gets one call. An
      outline without any tag writes nothing. As long as no reply contains
      the notes closing marker, the checker's parser reads the written notes
      back as exactly the part numbers of the outline, in the same order,
      each with its stripped reply. */
  method WriterProcess(outlineText: string, replies: nat -> string) returns (run: Run)
    ensures run.parts == ParseOutline(Strip(outlineText))
    ensures run.results == Wrapped(Answered(run.parts, replies))
    ensures run.written == Serialize(Answered(run.parts, replies))
    ensures !Occurs(Strip(outlineText), OpenTag) ==> run.written == ""
    ensures (forall i :: 0 <= i < |run.parts| ==> !Occurs(Strip(replies(i)), NotesClose)) ==>
      ParseNotes(Strip(run.written)) == Answered(run.parts, replies)
  {
    var outlineParts := ParseOutline(Strip(outlineText));
    var results, written := WrapReplies(outlineParts, replies);
    run := Run(outlineParts, results, written);
    CollectKeys(Scan(Strip(outlineText), OutlinePattern));
    AnsweredRoundTrip(outlineParts, replies);
  }

  /** `MeetingNotesChecker.process`: the notes file (read and stripped) is
      parsed with the notes pattern and every part gets one call. Its output
      has the writer's format, so the checker can read its own output back
      the same way. */
  method CheckerProcess(notesText: string, replies: nat -> string) returns (run: Run)
    ensures run.parts == ParseNotes(Strip(notesText))
    ensures run.results == Wrapped(Answered(run.parts, replies))
    ensures run.written == Serialize(Answered(run.parts, replies))
    ensures !Occurs(Strip(notesText), OpenTag) ==> run.written == ""
    ensures (forall i :: 0 <= i < |run.parts| ==> !Occurs(Strip(replies(i)), NotesClose)) ==>
      ParseNotes(Strip(run.written)) == Answered(run.parts, replies)
  {
    var notesParts := ParseNotes(Strip(notesText));
    var results, written := WrapReplies(notesParts, replies);
    run := Run(notesParts, results, written);
    CollectKeys(Scan(Strip(notesText), NotesPattern));
    AnsweredRoundTrip(notesParts, replies);
  }

  /** Replies attached to distinct part numbers read back as written. */
  lemma {:induction false} AnsweredRoundTrip(parts: PartList, replies: nat -> string)
    requires DistinctKeys(parts)
    ensures (forall i :: 0 <= i < |parts| ==> !Occurs(Strip(replies(i)), NotesClose)) ==>
      ParseNotes(Strip(Serialize(Answered(parts, replies)))) == Answered(parts, replies)
  {
    var answered := Answered(parts, replies);
    if forall i :: 0 <= i < |parts| ==> !Occurs(Strip(replies(i)), NotesClose) {
      SerializeRoundTrip(answered);
    }
  }

  /** The notes closing marker begins with the only line break it holds, so
      in `body + "\n</part>"` it can first occur at the end, provided `body`
      does not contain it. */
  lemma {:induction false} CloseOnlyAtEnd(body: string)
    requires !Occurs(body, NotesClose)
    ensures EndsAtFirstClose(body, NotesClose)
  {
    var t := body + NotesClose;
    forall i | 0 <= i < |body| ensures !OccursAt(t, NotesClose, i) {
      if i + |NotesClose| <= |body| {
        assert t[i..i + |NotesClose|] == body[i..i + |NotesClose|];
        assert !OccursAt(body, NotesClose, i);
      } else if i + |NotesClose| <= |t| {
        var j := |body| - i;
        assert t[i..i + |NotesClose|][j] == t[|body|] == '\n';
        assert NotesClose[j] != '\n';
      }
    }
  }

  /** The notes pattern matches a wrapped part at the front of a text,
      giving back its number's digits and its body. */
  lemma {:induction false} WrapPartMatches(n: nat, body: string, rest: string)
    requires !Occurs(body, NotesClose)
    ensures MatchHere(WrapPart(n, body) + rest, NotesPattern) ==
      Some(Match(NatToString(n), body, |WrapPart(n, body)|))
  {
    WrapPartShape(n, body, rest);
    MatchHereComplete(WrapPart(n, body) + rest, NotesPattern, Match(NatToString(n), body, |WrapPart(n, body)|));
  }

  /** A wrapped part at the front of a text has the shape the notes pattern
      describes. */
  lemma {:induction false} WrapPartShape(n: nat, body: string, rest: string)
    requires !Occurs(body, NotesClose)
    ensures Matches(WrapPart(n, body) + rest, NotesPattern, Match(NatToString(n), body, |WrapPart(n, body)|))
  {
    var d := NatToString(n);
    var s := WrapPart(n, body) + rest;
    var t := |OpenTag|;
    var gt := t + |d|;
    var m := Match(d, body, |WrapPart(n, body)|);
    assert TagAt(s, d) by {
      assert s[..t] == OpenTag;
      assert s[t..gt] == d;
      assert s[gt] == '>';
    }
    assert "\n" <= s[gt + 1..];
    assert LazyAt(s[gt + 2..], NotesClose, body) by {
      assert s[gt + 2..][..|body| + |NotesClose|] == body + NotesClose;
      CloseOnlyAtEnd(body);
    }
  }

  /** The matches the notes pattern finds in serialized parts. */
  function WrapMatches(parts: PartList): (ms: seq<Match>)
    ensures |ms| == |parts|
    ensures forall i :: 0 <= i < |parts| ==>
      ms[i].digits == NatToString(parts[i].0) && ms[i].content == parts[i].1
  {
    if parts == [] then []
    else
      [Match(NatToString(parts[0].0), parts[0].1, |WrapPart(parts[0].0, parts[0].1)|)] + WrapMatches(parts[1..])
  }

  /** Scanning serialized parts finds each wrapped part, in order, and
      nothing else. */
  lemma {:induction false} ScanSerialized(parts: PartList)
    requires forall i :: 0 <= i < |parts| ==> !Occurs(parts[i].1, NotesClose)
    ensures Scan(Serialize(parts), NotesPattern) == WrapMatches(parts)
    decreases |parts|
  {
    if parts != [] {
      var w := WrapPart(parts[0].0, parts[0].1);
      var rest := if |parts| == 1 then "" else "\n\n" + Serialize(parts[1..]);
      assert Wrapped(parts)[1..] == Wrapped(parts[1..]);
      assert Serialize(parts) == w + rest;
      WrapPartMatches(parts[0].0, parts[0].1, rest);
      assert (w + rest)[|w|..] == rest;
      if |parts| > 1 {
        ScanSerialized(parts[1..]);
        ScanAfterBlankLine(Serialize(parts[1..]));
      }
    }
  }

  /** The blank line between two serialized parts contributes no match. */
  lemma {:induction false} ScanAfterBlankLine(later: string)
    ensures Scan("\n\n" + later, NotesPattern) == Scan(later, NotesPattern)
  {
    var s := "\n\n" + later;
    forall i | 0 <= i < 2 ensures !OccursAt(s, OpenTag, i) {
      if i + |OpenTag| <= |s| {
        assert s[i..i + |OpenTag|][0] == s[i] == '\n';
      }
    }
    ScanSkipsUntagged("\n\n", later, NotesPattern);
  }

  /** Serialized parts are already stripped: they start with `<` and end
      with `>`. */
  lemma {:induction false} SerializeStripped(parts: PartList)
    ensures Strip(Serialize(parts)) == Serialize(parts)
  {
    var ws := Wrapped(parts);
    if parts != [] {
      JoinEnds(ws, "\n\n");
      var j := Serialize(parts);
      var last := ws[|ws| - 1];
      assert j[0] == ws[0][0] == '<';
      assert j[|j| - 1] == last[|last| - 1] == '>';
    }
  }

  /** Round trip: the notes parser reads serialized parts back unchanged,
      provided the part numbers are distinct and every body is stripped and
      free of the notes closing marker. */
  lemma {:induction false} SerializeRoundTrip(parts: PartList)
    requires DistinctKeys(parts)
    requires forall i :: 0 <= i < |parts| ==> Stripped(parts[i].1) && !Occurs(parts[i].1, NotesClose)
    ensures ParseNotes(Strip(Serialize(parts))) == parts
  {
    SerializeStripped(parts);
    ScanSerialized(parts);
    var ms := WrapMatches(parts);
    forall i | 0 <= i < |ms| ensures DigitsValue(ms[i].digits) == parts[i].0 {
      ReadShownNumber(parts[i].0);
    }
    CollectWithoutRepeats(ms);
  }
}
