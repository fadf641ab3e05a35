/**
  The transcript reconciler (`MeetingNotesComparer`): the parallel transcripts
  are split into blocks, checked for equal block counts, grouped by position,
  each group is rendered as one labelled prompt body, and the per-group
  replies are assembled into the reconciled transcript.

  Reading the files is modelled by taking their texts; the language-model
  call is modelled by `replies(i)`, the raw text of the i-th completion.
 */
module Comparer {
  import opened Strings
  import Paths

  /** The literal block separator `\n---\n`, matched left to right without
      overlap: a `---` line separates only with a line before and after it,
      so one that comes first or last in the stripped text does not, and of
      two consecutive `---` lines only the first does. */
  const BlockSeparator: string := "\n---\n"

  datatype Result<T> = Ok(value: T) | BlockCountMismatch(counts: seq<nat>)

  /** What one run of the reconciler produces: the prompt body sent for each
      block group, the per-group results, and the text written to the output
      file. */
  datatype Reconciled = Reconciled(requests: seq<string>, results: seq<string>, written: string)

  /** The blocks of one transcript: its text, stripped, split on the separator. */
  function Blocks(text: string): seq<string> {
    Split(Strip(text), BlockSeparator)
  }

  /** The blocks of every transcript, in file order. */
  function BlockLists(texts: seq<string>): (r: seq<seq<string>>)
    ensures |r| == |texts|
  {
    seq(|texts|, j requires 0 <= j < |texts| => Blocks(texts[j]))
  }

  /** Reading and splitting every file, one after the other (the loop that
      fills `file_contents`). */
  method SplitFiles(texts: seq<string>) returns (contents: seq<seq<string>>)
    ensures contents == BlockLists(texts)
  {
    contents := [];
    for j := 0 to |texts|
      invariant contents == BlockLists(texts[..j])
    {
      assert texts[..j + 1][..j] == texts[..j];
      contents := contents + [Split(Strip(texts[j]), BlockSeparator)];
    }
    assert texts[..|texts|] == texts;
  }

  /** `list(zip(*files))` for files of equal length `n`: group `i` holds
      element `i` of every file, in file order. Built one file (one column)
      at a time. */
  function Transpose(files: seq<seq<string>>, n: nat): (r: seq<seq<string>>)
    requires forall j :: 0 <= j < |files| ==> |files[j]| == n
    ensures |r| == n
    ensures forall i :: 0 <= i < n ==> |r[i]| == |files|
    ensures forall i, j :: 0 <= i < n && 0 <= j < |files| ==> r[i][j] == files[j][i]
    decreases |files|
  {
    if files == [] then seq(n, i => [])
    else
      var last := files[|files| - 1];
      var t := Transpose(files[..|files| - 1], n);
      seq(n, i requires 0 <= i < n => t[i] + [last[i]])
  }

  /** The block-count check and the transposition of `read_and_split_files`:
      an error carrying every file's block count when two files differ,
      otherwise the position-aligned block groups. */
  function Align(contents: seq<seq<string>>): (r: Result<seq<seq<string>>>)
    ensures r.BlockCountMismatch? <==>
      exists j, k :: 0 <= j < |contents| && 0 <= k < |contents| && |contents[j]| != |contents[k]|
    ensures r.BlockCountMismatch? ==>
      |r.counts| == |contents| && forall j :: 0 <= j < |contents| ==> r.counts[j] == |contents[j]|
    ensures r.Ok? ==>
      && |r.value| == (if contents == [] then 0 else |contents[0]|)
      && (forall i :: 0 <= i < |r.value| ==> |r.value[i]| == |contents|)
      && (forall i, j :: 0 <= i < |r.value| && 0 <= j < |contents| ==> r.value[i][j] == contents[j][i])
  {
    var counts := seq(|contents|, j requires 0 <= j < |contents| => |contents[j]|);
    if exists j :: 0 <= j < |counts| && counts[j] != counts[0] then
      BlockCountMismatch(counts)
    else if contents == [] then
      Ok([])
    else
      assert forall j :: 0 <= j < |contents| ==> |contents[j]| == counts[j] == counts[0];
      Ok(Transpose(contents, |contents[0]|))
  }

  /** The section heading for one transcript: its file name without the
      extension, followed by the word for "transcription". */
  function Heading(fileName: string): string {
    "[" + Paths.Stem(fileName) + " 转写]\n"
  }

  /** The labelled sections of one block group, one per file, in file order. */
  function Sections(fileNames: seq<string>, group: seq<string>): (r: seq<string>)
    requires |group| <= |fileNames|
    ensures |r| == |group|
  {
    seq(|group|, i requires 0 <= i < |group| => Heading(fileNames[i]) + Strip(group[i]))
  }

  /** The prompt body for one block group: its sections separated by a blank
      line, the whole stripped. */
  function FormattedGroup(fileNames: seq<string>, group: seq<string>): string
    requires |group| <= |fileNames|
  {
    Strip(Join(Sections(fileNames, group), "\n\n"))
  }

  /** `format_blocks`: each section is appended with a blank line after it,
      and the trailing blank line is stripped at the end. */
  method FormatBlocks(fileNames: seq<string>, group: seq<string>) returns (text: string)
    requires |group| <= |fileNames|
    ensures text == FormattedGroup(fileNames, group)
  {
    ghost var sections := Sections(fileNames, group);
    var formatted := "";
    for i := 0 to |group|
      invariant formatted == if i == 0 then "" else Join(sections[..i], "\n\n") + "\n\n"
    {
      var section := Heading(fileNames[i]) + Strip(group[i]);
      assert section == sections[i];
      formatted := formatted + section + "\n\n";
      JoinPrefixStep(sections, i, "\n\n");
    }
    assert sections[..|group|] == sections;
    text := Strip(formatted);
    if |group| > 0 {
      StripIgnoresTrailingSpace(Join(sections, "\n\n"), "\n\n");
    }
  }

  /** When the last block of a group has visible text, the prompt body is
      exactly the sections joined by blank lines, opening with the first
      file's heading: the final strip removes nothing. */
  lemma {:induction false} FormattedGroupLayout(fileNames: seq<string>, group: seq<string>)
    requires 0 < |group| <= |fileNames|
    requires Strip(group[|group| - 1]) != []
    ensures FormattedGroup(fileNames, group) == Join(Sections(fileNames, group), "\n\n")
    ensures Heading(fileNames[0]) <= FormattedGroup(fileNames, group)
  {
    var sections := Sections(fileNames, group);
    SectionEnds(fileNames, group);
    JoinStripped(sections, "\n\n");
    JoinEnds(sections, "\n\n");
  }

  /** The first section opens with its heading, and the last one ends with
      the last character of its stripped, non-empty block. */
  lemma {:induction false} SectionEnds(fileNames: seq<string>, group: seq<string>)
    requires 0 < |group| <= |fileNames|
    requires Strip(group[|group| - 1]) != []
    ensures var sections := Sections(fileNames, group);
      && Heading(fileNames[0]) <= sections[0]
      && sections[|sections| - 1] != [] && !IsSpace(sections[|sections| - 1][|sections[|sections| - 1]| - 1])
  {
    var sections := Sections(fileNames, group);
    var last := sections[|sections| - 1];
    var tail := Strip(group[|group| - 1]);
    assert last == Heading(fileNames[|group| - 1]) + tail;
    assert last[|last| - 1] == tail[|tail| - 1];
  }

  /** The block group at position `i`: block `i` of every transcript. */
  function Group(texts: seq<string>, i: nat): (g: seq<string>)
    requires forall j :: 0 <= j < |texts| ==> i < |Blocks(texts[j])|
    ensures |g| == |texts|
  {
    seq(|texts|, j requires 0 <= j < |texts| => Blocks(texts[j])[i])
  }

  /** The transcripts disagree on their number of blocks. */
  predicate CountsDiffer(texts: seq<string>) {
    exists j, k :: 0 <= j < |texts| && 0 <= k < |texts| && |Blocks(texts[j])| != |Blocks(texts[k])|
  }

  /** The number of block groups when the counts agree. */
  function GroupCount(texts: seq<string>): nat {
    if texts == [] then 0 else |Blocks(texts[0])|
  }

  /** `read_and_split_files`: split every file, then check and align. It
      fails, reporting every file's block count, exactly when two transcripts
      differ in their number of blocks; otherwise group `i` holds block `i`
      of every transcript, in file order. */
  method ReadAndSplit(texts: seq<string>) returns (r: Result<seq<seq<string>>>)
    ensures r.BlockCountMismatch? <==> CountsDiffer(texts)
    ensures r.BlockCountMismatch? ==>
      |r.counts| == |texts| && forall j :: 0 <= j < |texts| ==> r.counts[j] == |Blocks(texts[j])|
    ensures r.Ok? ==>
      && |r.value| == GroupCount(texts)
      && (forall j :: 0 <= j < |texts| ==> |Blocks(texts[j])| == |r.value|)
      && (forall i :: 0 <= i < |r.value| ==> r.value[i] == Group(texts, i))
  {
    var contents := SplitFiles(texts);
    assert forall j :: 0 <= j < |texts| ==> contents[j] == Blocks(texts[j]);
    r := Align(contents);
    if r.Ok? {
      var groups := r.value;
      assert |groups| == GroupCount(texts);
      forall j | 0 <= j < |texts| ensures |Blocks(texts[j])| == |groups| {
        assert |contents[j]| == |contents[0]|;
      }
      forall i | 0 <= i < |groups| ensures groups[i] == Group(texts, i) {
        assert |groups[i]| == |texts|;
        forall j | 0 <= j < |texts| ensures groups[i][j] == Group(texts, i)[j] {
          assert groups[i][j] == contents[j][i];
        }
      }
    }
  }

  /** `MeetingNotesComparer.process`: one prompt body and one model call per
      block group, in group order; each stripped reply is prefixed by two
      newlines and the results are joined by a newline. A block-count
      mismatch fails before any model call. */
  method Process(fileNames: seq<string>, texts: seq<string>, replies: nat -> string)
    returns (r: Result<Reconciled>)
    requires |texts| == |fileNames|
    ensures r.BlockCountMismatch? <==> CountsDiffer(texts)
    ensures r.BlockCountMismatch? ==>
      |r.counts| == |texts| && forall j :: 0 <= j < |texts| ==> r.counts[j] == |Blocks(texts[j])|
    ensures r.Ok? ==>
      var n := GroupCount(texts);
      && (forall j :: 0 <= j < |texts| ==> |Blocks(texts[j])| == n)
      && |r.value.requests| == n && |r.value.results| == n
      && (forall i :: 0 <= i < n ==> r.value.requests[i] == FormattedGroup(fileNames, Group(texts, i)))
      && (forall i :: 0 <= i < n ==> r.value.results[i] == "\n\n" + Strip(replies(i)))
      && r.value.written == Join(r.value.results, "\n")
  {
    var aligned := ReadAndSplit(texts);
    if aligned.BlockCountMismatch? {
      return BlockCountMismatch(aligned.counts);
    }
    var groups := aligned.value;
    var requests, results := AskPerGroup(fileNames, groups, replies);
    r := Ok(Reconciled(requests, results, Join(results, "\n")));
  }

  /** The loop of `process` over the aligned block groups: group `k` is
      formatted into the `k`-th prompt body, and the `k`-th reply, stripped
      and prefixed by two newlines, is the `k`-th result. */
  method AskPerGroup(fileNames: seq<string>, groups: seq<seq<string>>, replies: nat -> string)
    returns (requests: seq<string>, results: seq<string>)
    requires forall k :: 0 <= k < |groups| ==> |groups[k]| <= |fileNames|
    ensures |requests| == |groups| && |results| == |groups|
    ensures forall k :: 0 <= k < |groups| ==> requests[k] == FormattedGroup(fileNames, groups[k])
    ensures forall k :: 0 <= k < |groups| ==> results[k] == "\n\n" + Strip(replies(k))
  {
    requests := [];
    results := [];
    for i := 0 to |groups|
      invariant requests == Requests(fileNames, groups[..i])
      invariant results == Results(replies, i)
    {
      var formatted := FormatBlocks(fileNames, groups[i]);
      var optimized := Strip(replies(i));
      assert groups[..i + 1][..i] == groups[..i];
      requests := requests + [formatted];
      results := results + ["\n\n" + optimized];
    }
    assert groups[..|groups|] == groups;
    forall k | 0 <= k < |groups| ensures requests[k] == FormattedGroup(fileNames, groups[k]) {
      RequestAt(fileNames, groups, k);
    }
    forall k | 0 <= k < |groups| ensures results[k] == "\n\n" + Strip(replies(k)) {
      ResultAt(replies, |groups|, k);
    }
  }

  /** The results of the first `n` calls, in call order. */
  function Results(replies: nat -> string, n: nat): (r: seq<string>)
    ensures |r| == n
  {
    if n == 0 then [] else Results(replies, n - 1) + ["\n\n" + Strip(replies(n - 1))]
  }

  /** Result `k` is the `k`-th stripped reply behind two newlines. */
  lemma {:induction false} ResultAt(replies: nat -> string, n: nat, k: nat)
    requires k < n
    ensures Results(replies, n)[k] == "\n\n" + Strip(replies(k))
  {
    if k < n - 1 {
      ResultAt(replies, n - 1, k);
    }
  }

  /** The prompt bodies of the block groups, in group order. */
  function Requests(fileNames: seq<string>, groups: seq<seq<string>>): (r: seq<string>)
    requires forall k :: 0 <= k < |groups| ==> |groups[k]| <= |fileNames|
    ensures |r| == |groups|
  {
    if groups == [] then []
    else Requests(fileNames, groups[..|groups| - 1]) + [FormattedGroup(fileNames, groups[|groups| - 1])]
  }

  /** Request `k` is the prompt body of group `k`. */
  lemma {:induction false} RequestAt(fileNames: seq<string>, groups: seq<seq<string>>, k: nat)
    requires forall j :: 0 <= j < |groups| ==> |groups[j]| <= |fileNames|
    requires k < |groups|
    ensures Requests(fileNames, groups)[k] == FormattedGroup(fileNames, groups[k])
    decreases |groups|
  {
    var n := |groups| - 1;
    if k < n {
      RequestAt(fileNames, groups[..n], k);
      assert groups[..n][k] == groups[k];
    }
  }

  /** The prefixed results `"\n\n" + r` of a run. */
  function Prefixed(results: seq<string>): (p: seq<string>)
    ensures |p| == |results|
  {
    seq(|results|, i requires 0 <= i < |results| => "\n\n" + results[i])
  }

  /** The written reconciled transcript opens with two newlines and separates
      consecutive results by three: joining the prefixed results by one
      newline is joining the bare results by three, behind two. */
  lemma {:induction false} WrittenLayout(results: seq<string>)
    ensures Join(Prefixed(results), "\n") ==
      if results == [] then "" else "\n\n" + Join(results, "\n\n\n")
    decreases |results|
  {
    if |results| > 1 {
      WrittenLayout(results[1..]);
      assert Prefixed(results)[1..] == Prefixed(results[1..]);
    }
  }
}
