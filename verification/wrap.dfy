/**
 The greedy line filler `wrap_text` of asit.py (lines 104-124).

 The text is cut into tokens with `split(' ')`. A current line, kept as a
 list of tokens, grows by one token while the trial line (the current
 tokens plus the new one, joined by spaces) measures at most `maxWidth`.
 When the trial is too wide, a non-empty current line is committed and the
 token starts a new one; a token too wide for an empty line is committed
 on its own and the current line stays empty. Whatever is left is committed
 at the end.

 The width measurement `font.size(line)[0]` is the parameter `measure`; no
 property of it is assumed, and `maxWidth` may be zero or negative.
 */
module Wrap {
  import opened Words

  /** The loop state: the committed lines and the tokens of the current line. */
  datatype Acc = Acc(lines: seq<string>, current: seq<string>)

  /** One pass of the loop body (asit.py:111-119) for token `w`: committed
      lines are never revised, at most one line is committed, and one is
      committed exactly when the trial line is too wide. */
  function Feed(measure: string -> int, maxWidth: int, acc: Acc, w: string): (r: Acc)
    ensures acc.lines <= r.lines && |r.lines| <= |acc.lines| + 1
    ensures r.lines != acc.lines <==> measure(Join(acc.current + [w])) > maxWidth
    ensures |r.lines| > 0 || |r.current| > 0
  {
    if measure(Join(acc.current + [w])) <= maxWidth then
      Acc(acc.lines, acc.current + [w])
    else if |acc.current| > 0 then
      Acc(acc.lines + [Join(acc.current)], [w])
    else
      Acc(acc.lines + [w], [])
  }

  /** The loop state after consuming all of `words` (asit.py:107-119): each
      token adds at most one committed line or current token, and once a
      token has been consumed the state is not empty. */
  function Run(measure: string -> int, maxWidth: int, words: seq<string>): (r: Acc)
    ensures |r.lines| + |r.current| <= |words|
    ensures |words| > 0 ==> |r.lines| > 0 || |r.current| > 0
    decreases |words|
  {
    if |words| == 0 then Acc([], [])
    else Feed(measure, maxWidth, Run(measure, maxWidth, words[..|words| - 1]), words[|words| - 1])
  }

  /** Commits a non-empty current line after the loop (asit.py:121-122):
      the committed lines stay in front, at most one line is added, and the
      result is empty only when the state was. */
  function Finish(acc: Acc): (r: seq<string>)
    ensures acc.lines <= r && |r| <= |acc.lines| + 1
    ensures |r| > 0 <==> |acc.lines| > 0 || |acc.current| > 0
  {
    if |acc.current| > 0 then acc.lines + [Join(acc.current)] else acc.lines
  }

  /** The tokens of each line, in order: what the lines were built from. */
  function Tokens(lines: seq<string>): seq<string>
    decreases |lines|
  {
    if |lines| == 0 then []
    else Tokens(lines[..|lines| - 1]) + Split(lines[|lines| - 1])
  }

  /** Every trial line formed while consuming `words` on one line fits. */
  predicate AllFit(measure: string -> int, maxWidth: int, words: seq<string>) {
    forall k :: 1 <= k <= |words| ==> measure(Join(words[..k])) <= maxWidth
  }

  /** `measure` never shrinks when text is appended. */
  ghost predicate GrowsWithSuffix(measure: string -> int) {
    forall s: string, t: string :: measure(s) <= measure(s + t)
  }

  /** One instance of `GrowsWithSuffix`. */
  lemma GrowsAt(measure: string -> int, s: string, t: string)
    requires GrowsWithSuffix(measure)
    ensures measure(s) <= measure(s + t)
  {
  }

  /** `wrap_text(text, font, max_width)`: the lines are the tokens of `text`,
      cut into consecutive blocks, in order and without loss; there is at
      least one line and never more lines than tokens. */
  function WrapText(measure: string -> int, maxWidth: int, text: string): (lines: seq<string>)
    ensures Tokens(lines) == Split(text)
    ensures 1 <= |lines| <= |Split(text)|
  {
    var words := Split(text);
    var acc := Run(measure, maxWidth, words);
    FinishPartition(measure, maxWidth, words);
    TokensLength(Finish(acc));
    Finish(acc)
  }

  // ---------------------------------------------------------------------
  // Facts about Tokens

  lemma TokensSnoc(lines: seq<string>, line: string)
    ensures Tokens(lines + [line]) == Tokens(lines) + Split(line)
  {
    assert (lines + [line])[..|lines|] == lines;
  }

  lemma {:induction false} TokensLength(lines: seq<string>)
    ensures |Tokens(lines)| >= |lines|
    decreases |lines|
  {
    if |lines| > 0 {
      TokensLength(lines[..|lines| - 1]);
    }
  }

  /** Joining the lines gives the same text as joining their tokens. */
  lemma {:induction false} JoinTokens(lines: seq<string>)
    ensures Join(lines) == Join(Tokens(lines))
    decreases |lines|
  {
    if |lines| > 0 {
      var init, last := lines[..|lines| - 1], lines[|lines| - 1];
      assert lines == init + [last];
      JoinSplit(last);
      if |init| > 0 {
        JoinTokens(init);
        JoinSnoc(init, last);
        TokensLength(init);
        JoinConcat(Tokens(init), Split(last));
      } else {
        assert Tokens(lines) == Split(last);
      }
    }
  }

  // ---------------------------------------------------------------------
  // Invariants of the loop

  lemma PrefixSpaceFree(words: seq<string>, n: nat)
    requires AllSpaceFree(words) && n <= |words|
    ensures AllSpaceFree(words[..n])
  {
    forall i | 0 <= i < n ensures SpaceFree(words[..n][i]) {
      assert words[..n][i] == words[i];
    }
  }

  /** The partition invariant of the loop state: the committed lines
      followed by the current line hold exactly the consumed tokens. */
  predicate Partitioned(acc: Acc, consumed: seq<string>) {
    Tokens(acc.lines) + acc.current == consumed && AllSpaceFree(acc.current)
  }

  /** One pass of the loop body moves token `w` into the state and loses
      nothing: a committed current line splits back into its tokens. */
  lemma FeedKeepsPartition(measure: string -> int, maxWidth: int, acc: Acc, consumed: seq<string>, w: string)
    requires Partitioned(acc, consumed) && SpaceFree(w)
    ensures Partitioned(Feed(measure, maxWidth, acc, w), consumed + [w])
  {
    var r := Feed(measure, maxWidth, acc, w);
    if measure(Join(acc.current + [w])) <= maxWidth {
      ExtendKeepsPartition(acc, consumed, w);
    } else if |acc.current| > 0 {
      CommitKeepsPartition(acc, consumed, w);
    } else {
      TokensSnoc(acc.lines, w);
      assert Tokens(r.lines) == Tokens(acc.lines) + [w];
    }
  }

  lemma ExtendKeepsPartition(acc: Acc, consumed: seq<string>, w: string)
    requires Partitioned(acc, consumed) && SpaceFree(w)
    ensures Partitioned(Acc(acc.lines, acc.current + [w]), consumed + [w])
  {
    var c := acc.current + [w];
    assert Tokens(acc.lines) + c == (Tokens(acc.lines) + acc.current) + [w];
    forall i | 0 <= i < |c| ensures SpaceFree(c[i]) {
      if i < |acc.current| {
        assert c[i] == acc.current[i];
      }
    }
  }

  lemma CommitKeepsPartition(acc: Acc, consumed: seq<string>, w: string)
    requires Partitioned(acc, consumed) && SpaceFree(w) && |acc.current| > 0
    ensures Partitioned(Acc(acc.lines + [Join(acc.current)], [w]), consumed + [w])
  {
    TokensSnoc(acc.lines, Join(acc.current));
    SplitJoin(acc.current);
    assert Tokens(acc.lines + [Join(acc.current)]) == Tokens(acc.lines) + acc.current;
  }

  /** No token is lost, duplicated or reordered by the loop. */
  lemma {:induction false} RunPartition(measure: string -> int, maxWidth: int, words: seq<string>)
    requires AllSpaceFree(words)
    ensures Partitioned(Run(measure, maxWidth, words), words)
    decreases |words|
  {
    if |words| > 0 {
      var p, w := words[..|words| - 1], words[|words| - 1];
      assert words == p + [w];
      PrefixSpaceFree(words, |words| - 1);
      RunPartition(measure, maxWidth, p);
      FeedKeepsPartition(measure, maxWidth, Run(measure, maxWidth, p), p, w);
    }
  }

  /** After the loop, the committed lines hold exactly the tokens. */
  lemma FinishPartition(measure: string -> int, maxWidth: int, words: seq<string>)
    requires AllSpaceFree(words)
    ensures Tokens(Finish(Run(measure, maxWidth, words))) == words
  {
    var acc := Run(measure, maxWidth, words);
    RunPartition(measure, maxWidth, words);
    if |acc.current| > 0 {
      TokensSnoc(acc.lines, Join(acc.current));
      SplitJoin(acc.current);
    }
  }

  /** Lines wider than `maxWidth` are single tokens. */
  predicate OnlyTokensTooWide(measure: string -> int, maxWidth: int, lines: seq<string>) {
    forall i :: 0 <= i < |lines| && measure(lines[i]) > maxWidth ==> SpaceFree(lines[i])
  }

  /** The width invariant of the loop state: committed lines too wide are
      single tokens, and a current line of two or more tokens passed the
      width test with exactly its contents. */
  predicate WidthState(measure: string -> int, maxWidth: int, acc: Acc) {
    OnlyTokensTooWide(measure, maxWidth, acc.lines)
    && (|acc.current| >= 2 ==> measure(Join(acc.current)) <= maxWidth)
  }

  /** Committing a line that is a single token or fits keeps the lines
      too wide down to single tokens. */
  lemma AppendKeepsWidth(measure: string -> int, maxWidth: int, lines: seq<string>, line: string)
    requires OnlyTokensTooWide(measure, maxWidth, lines)
    requires measure(line) > maxWidth ==> SpaceFree(line)
    ensures OnlyTokensTooWide(measure, maxWidth, lines + [line])
  {
    var ls := lines + [line];
    forall i | 0 <= i < |ls| && measure(ls[i]) > maxWidth ensures SpaceFree(ls[i]) {
      if i < |lines| {
        assert ls[i] == lines[i];
      }
    }
  }

  /** One pass of the loop body keeps the width invariant. */
  lemma FeedKeepsWidth(measure: string -> int, maxWidth: int, acc: Acc, w: string)
    requires WidthState(measure, maxWidth, acc)
    requires AllSpaceFree(acc.current) && SpaceFree(w)
    ensures WidthState(measure, maxWidth, Feed(measure, maxWidth, acc, w))
  {
  }

  /** Only single tokens can be wider than `maxWidth` during the loop. */
  lemma {:induction false} RunWidth(measure: string -> int, maxWidth: int, words: seq<string>)
    requires AllSpaceFree(words)
    ensures WidthState(measure, maxWidth, Run(measure, maxWidth, words))
    decreases |words|
  {
    if |words| > 0 {
      var p, w := words[..|words| - 1], words[|words| - 1];
      PrefixSpaceFree(words, |words| - 1);
      RunWidth(measure, maxWidth, p);
      RunPartition(measure, maxWidth, p);
      FeedKeepsWidth(measure, maxWidth, Run(measure, maxWidth, p), w);
    }
  }

  /** Every one of `lines` is too wide on its own. */
  predicate AllTooWide(measure: string -> int, maxWidth: int, lines: seq<string>) {
    forall j :: 0 <= j < |lines| ==> measure(lines[j]) > maxWidth
  }

  /** Line `i` was closed for one of the two reasons the loop has: it and
      every line before it were too wide alone, the leading run of oversized
      tokens committed while the current line is still empty
      (asit.py:118-119), or the first token of the next line did not fit
      behind it (asit.py:112-117). */
  predicate BrokeAt(measure: string -> int, maxWidth: int, lines: seq<string>, i: int)
    requires 0 <= i < |lines| - 1
  {
    AllTooWide(measure, maxWidth, lines[..i + 1])
    || measure(lines[i] + " " + FirstToken(lines[i + 1])) > maxWidth
  }

  /** Every line but the last was closed for one of the loop's reasons. */
  predicate AllBroke(measure: string -> int, maxWidth: int, lines: seq<string>) {
    forall i :: 0 <= i < |lines| - 1 ==> BrokeAt(measure, maxWidth, lines, i)
  }

  /** The last of `lines` may be followed by `line`: either every line so far
      is an oversized token, or the first token of `line` does not fit
      behind the last one. */
  predicate ClosedBefore(measure: string -> int, maxWidth: int, lines: seq<string>, line: string) {
    |lines| > 0 ==>
      AllTooWide(measure, maxWidth, lines)
      || measure(lines[|lines| - 1] + " " + FirstToken(line)) > maxWidth
  }

  /** The greedy invariant of the loop state: committed lines were closed
      for the loop's reasons; while the current line is empty every
      committed line is an oversized token; and the last committed line is
      one of them or the first current token did not fit behind it. */
  predicate GreedyState(measure: string -> int, maxWidth: int, acc: Acc) {
    AllBroke(measure, maxWidth, acc.lines)
    && (acc.current == [] ==> AllTooWide(measure, maxWidth, acc.lines))
    && (|acc.lines| > 0 && |acc.current| > 0 ==>
          AllTooWide(measure, maxWidth, acc.lines)
          || measure(acc.lines[|acc.lines| - 1] + " " + acc.current[0]) > maxWidth)
  }

  /** Appending a line that was closed after the last one keeps every line
      but the new last one closed for the loop's reasons. */
  lemma AppendKeepsGreedy(measure: string -> int, maxWidth: int, lines: seq<string>, line: string)
    requires AllBroke(measure, maxWidth, lines)
    requires ClosedBefore(measure, maxWidth, lines, line)
    ensures AllBroke(measure, maxWidth, lines + [line])
  {
    var ls := lines + [line];
    forall i | 0 <= i < |ls| - 1 ensures BrokeAt(measure, maxWidth, ls, i) {
      assert ls[..i + 1] == lines[..i + 1];
      assert ls[i] == lines[i];
      if i < |lines| - 1 {
        assert ls[i + 1] == lines[i + 1];
        assert BrokeAt(measure, maxWidth, lines, i);
      } else {
        assert lines[..i + 1] == lines;
        assert ls[i + 1] == line;
      }
    }
  }

  /** Appending an oversized token to oversized tokens keeps them all too wide. */
  lemma AppendTooWide(measure: string -> int, maxWidth: int, lines: seq<string>, line: string)
    requires AllTooWide(measure, maxWidth, lines) && measure(line) > maxWidth
    ensures AllTooWide(measure, maxWidth, lines + [line])
  {
    var ls := lines + [line];
    forall j | 0 <= j < |ls| ensures measure(ls[j]) > maxWidth {
      if j < |lines| {
        assert ls[j] == lines[j];
      }
    }
  }

  /** The trial line fitted: no line is committed and the current line keeps
      its first token. */
  lemma ExtendKeepsGreedy(measure: string -> int, maxWidth: int, acc: Acc, w: string)
    requires GreedyState(measure, maxWidth, acc)
    ensures GreedyState(measure, maxWidth, Acc(acc.lines, acc.current + [w]))
  {
    if |acc.current| > 0 {
      assert (acc.current + [w])[0] == acc.current[0];
    } else if |acc.lines| > 0 {
      assert (acc.current + [w])[0] == w;
    }
  }

  /** The trial line behind a non-empty current line was too wide: the
      current line is committed, closed by `w`, which starts the next one. */
  lemma CommitKeepsGreedy(measure: string -> int, maxWidth: int, acc: Acc, w: string)
    requires GreedyState(measure, maxWidth, acc)
    requires AllSpaceFree(acc.current) && |acc.current| > 0 && SpaceFree(w)
    requires measure(Join(acc.current) + " " + w) > maxWidth
    ensures GreedyState(measure, maxWidth, Acc(acc.lines + [Join(acc.current)], [w]))
  {
    FirstTokenJoin(acc.current);
    AppendKeepsGreedy(measure, maxWidth, acc.lines, Join(acc.current));
    var ls := acc.lines + [Join(acc.current)];
    assert ls[|ls| - 1] == Join(acc.current);
    FirstTokenJoin([w]);
  }

  /** A token too wide alone reaches an empty current line: it joins the
      leading run of oversized lines. */
  lemma AloneKeepsGreedy(measure: string -> int, maxWidth: int, acc: Acc, w: string)
    requires GreedyState(measure, maxWidth, acc)
    requires acc.current == [] && measure(w) > maxWidth
    ensures GreedyState(measure, maxWidth, Acc(acc.lines + [w], []))
  {
    AppendKeepsGreedy(measure, maxWidth, acc.lines, w);
    AppendTooWide(measure, maxWidth, acc.lines, w);
  }

  /** One pass of the loop body keeps the greedy invariant. */
  lemma FeedKeepsGreedy(measure: string -> int, maxWidth: int, acc: Acc, w: string)
    requires GreedyState(measure, maxWidth, acc)
    requires AllSpaceFree(acc.current) && SpaceFree(w)
    ensures GreedyState(measure, maxWidth, Feed(measure, maxWidth, acc, w))
  {
    if measure(Join(acc.current + [w])) <= maxWidth {
      ExtendKeepsGreedy(measure, maxWidth, acc, w);
    } else if |acc.current| > 0 {
      JoinSnoc(acc.current, w);
      CommitKeepsGreedy(measure, maxWidth, acc, w);
    } else {
      assert acc.current + [w] == [w];
      AloneKeepsGreedy(measure, maxWidth, acc, w);
    }
  }

  /** Every committed line was closed for one of the loop's reasons. */
  lemma {:induction false} RunGreedy(measure: string -> int, maxWidth: int, words: seq<string>)
    requires AllSpaceFree(words)
    ensures GreedyState(measure, maxWidth, Run(measure, maxWidth, words))
    decreases |words|
  {
    if |words| > 0 {
      var p, w := words[..|words| - 1], words[|words| - 1];
      PrefixSpaceFree(words, |words| - 1);
      RunGreedy(measure, maxWidth, p);
      RunPartition(measure, maxWidth, p);
      FeedKeepsGreedy(measure, maxWidth, Run(measure, maxWidth, p), w);
    }
  }

  /** While every trial line fits, nothing is committed and the current
      line holds every token consumed. */
  lemma {:induction false} RunAllFit(measure: string -> int, maxWidth: int, words: seq<string>)
    requires AllFit(measure, maxWidth, words)
    ensures Run(measure, maxWidth, words) == Acc([], words)
    decreases |words|
  {
    if |words| > 0 {
      var p, w := words[..|words| - 1], words[|words| - 1];
      AllFitPrefix(measure, maxWidth, words, |words| - 1);
      AllFitWhole(measure, maxWidth, words);
      RunAllFit(measure, maxWidth, p);
      assert p + [w] == words;
      RunSnoc(measure, maxWidth, p, w);
      ExtendWhenFits(measure, maxWidth, Acc([], p), w);
    }
  }

  /** A trial line that fits extends the current line and commits nothing
      (asit.py:112-113). */
  lemma ExtendWhenFits(measure: string -> int, maxWidth: int, acc: Acc, w: string)
    requires measure(Join(acc.current + [w])) <= maxWidth
    ensures Feed(measure, maxWidth, acc, w) == Acc(acc.lines, acc.current + [w])
  {
  }

  /** Consuming one more token is one more pass of the loop body. */
  lemma RunSnoc(measure: string -> int, maxWidth: int, p: seq<string>, w: string)
    ensures Run(measure, maxWidth, p + [w]) == Feed(measure, maxWidth, Run(measure, maxWidth, p), w)
  {
    assert (p + [w])[..|p|] == p;
  }

  /** The last trial line of a token list whose trial lines all fit is the
      whole list joined, and it fits. */
  lemma AllFitWhole(measure: string -> int, maxWidth: int, words: seq<string>)
    requires AllFit(measure, maxWidth, words) && |words| > 0
    ensures measure(Join(words)) <= maxWidth
  {
    assert words[..|words|] == words;
  }

  /** Every prefix of a token list whose trial lines all fit has the same
      property. */
  lemma AllFitPrefix(measure: string -> int, maxWidth: int, words: seq<string>, n: nat)
    requires AllFit(measure, maxWidth, words) && n <= |words|
    ensures AllFit(measure, maxWidth, words[..n])
  {
    forall k | 1 <= k <= n ensures measure(Join(words[..n][..k])) <= maxWidth {
      assert words[..n][..k] == words[..k];
    }
  }

  /** Conversely, a loop that has committed nothing has kept every token
      on the current line, and every trial line fitted. */
  lemma {:induction false} RunNoLines(measure: string -> int, maxWidth: int, words: seq<string>)
    requires Run(measure, maxWidth, words).lines == []
    ensures Run(measure, maxWidth, words).current == words
    ensures AllFit(measure, maxWidth, words)
    decreases |words|
  {
    if |words| > 0 {
      var p, w := words[..|words| - 1], words[|words| - 1];
      assert words == p + [w];
      var acc := Run(measure, maxWidth, p);
      assert measure(Join(acc.current + [w])) <= maxWidth && acc.lines == [];
      RunNoLines(measure, maxWidth, p);
      forall k | 1 <= k <= |words| ensures measure(Join(words[..k])) <= maxWidth {
        if k < |words| {
          assert words[..k] == p[..k];
        } else {
          assert words[..k] == p + [w];
        }
      }
    }
  }

  // ---------------------------------------------------------------------
  // Properties of wrap_text

  /** Joining the returned lines with single spaces gives back the input
      text exactly, runs of spaces included. */
  lemma WrapRoundTrip(measure: string -> int, maxWidth: int, text: string)
    ensures Join(WrapText(measure, maxWidth, text)) == text
  {
    var lines := WrapText(measure, maxWidth, text);
    JoinTokens(lines);
    JoinSplit(text);
  }

  /** A returned line wider than `maxWidth` is a single token with no
      space; every line holding a space passed the width test. */
  lemma WrapWidthBound(measure: string -> int, maxWidth: int, text: string)
    ensures var lines := WrapText(measure, maxWidth, text);
      forall i :: 0 <= i < |lines| && measure(lines[i]) > maxWidth ==> SpaceFree(lines[i])
  {
    var words := Split(text);
    var acc := Run(measure, maxWidth, words);
    RunWidth(measure, maxWidth, words);
    RunPartition(measure, maxWidth, words);
    if |acc.current| > 0 {
      if |acc.current| == 1 {
        assert SpaceFree(acc.current[0]);
      }
      AppendKeepsWidth(measure, maxWidth, acc.lines, Join(acc.current));
    }
    assert OnlyTokensTooWide(measure, maxWidth, Finish(acc));
  }

  /** Greedy break: each returned line but the last was closed because the
      first token of the next line did not fit behind it, unless it and every
      line before it are oversized tokens, each too wide on its own. */
  lemma WrapGreedyBreak(measure: string -> int, maxWidth: int, text: string)
    ensures var lines := WrapText(measure, maxWidth, text);
      forall i :: 0 <= i < |lines| - 1 ==>
        AllTooWide(measure, maxWidth, lines[..i + 1])
        || measure(lines[i] + " " + FirstToken(lines[i + 1])) > maxWidth
  {
    var words := Split(text);
    RunGreedy(measure, maxWidth, words);
    RunPartition(measure, maxWidth, words);
    var lines := Finish(Run(measure, maxWidth, words));
    FinishGreedy(measure, maxWidth, Run(measure, maxWidth, words));
    assert WrapText(measure, maxWidth, text) == lines;
    forall i | 0 <= i < |lines| - 1
      ensures AllTooWide(measure, maxWidth, lines[..i + 1])
        || measure(lines[i] + " " + FirstToken(lines[i + 1])) > maxWidth
    {
      assert BrokeAt(measure, maxWidth, lines, i);
    }
  }

  /** The final commit keeps every line but the last closed for the loop's
      reasons. */
  lemma FinishGreedy(measure: string -> int, maxWidth: int, acc: Acc)
    requires GreedyState(measure, maxWidth, acc) && AllSpaceFree(acc.current)
    ensures AllBroke(measure, maxWidth, Finish(acc))
  {
    if |acc.current| > 0 {
      FirstTokenJoin(acc.current);
      AppendKeepsGreedy(measure, maxWidth, acc.lines, Join(acc.current));
    }
  }

  /** Every trial line formed while the tokens `ts` were gathered on one
      line fitted: each prefix of two or more tokens is within the width
      (asit.py:111-113). The first token is not required to fit, since the
      token that starts a line after a commit is not measured alone. */
  predicate PrefixesFit(measure: string -> int, maxWidth: int, ts: seq<string>) {
    forall k :: 2 <= k <= |ts| ==> measure(Join(ts[..k])) <= maxWidth
  }

  /** Every one of `lines` was grown one token at a time by trial lines
      that fitted. */
  predicate LinesGrewByFit(measure: string -> int, maxWidth: int, lines: seq<string>) {
    forall i :: 0 <= i < |lines| ==> PrefixesFit(measure, maxWidth, Split(lines[i]))
  }

  /** The fit invariant of the loop state: committed lines and the current
      line were each grown only by trial lines that fitted. */
  predicate FitState(measure: string -> int, maxWidth: int, acc: Acc) {
    LinesGrewByFit(measure, maxWidth, acc.lines) && PrefixesFit(measure, maxWidth, acc.current)
  }

  /** A token joins the current line only through a trial line that fits,
      so the grown line still has only fitting prefixes. */
  lemma ExtendKeepsFit(measure: string -> int, maxWidth: int, ts: seq<string>, w: string)
    requires PrefixesFit(measure, maxWidth, ts)
    requires measure(Join(ts + [w])) <= maxWidth
    ensures PrefixesFit(measure, maxWidth, ts + [w])
  {
    var us := ts + [w];
    forall k | 2 <= k <= |us| ensures measure(Join(us[..k])) <= maxWidth {
      if k <= |ts| {
        assert us[..k] == ts[..k];
      } else {
        assert us[..k] == us;
      }
    }
  }

  /** Committing a line grown by fitting trials keeps every committed line so. */
  lemma AppendKeepsFit(measure: string -> int, maxWidth: int, lines: seq<string>, line: string)
    requires LinesGrewByFit(measure, maxWidth, lines)
    requires PrefixesFit(measure, maxWidth, Split(line))
    ensures LinesGrewByFit(measure, maxWidth, lines + [line])
  {
    var ls := lines + [line];
    forall i | 0 <= i < |ls| ensures PrefixesFit(measure, maxWidth, Split(ls[i])) {
      if i < |lines| {
        assert ls[i] == lines[i];
      }
    }
  }

  /** One pass of the loop body keeps the fit invariant: the current line
      grows only when the trial line fits, and a committed current line
      splits back into the tokens it was grown from. */
  lemma FeedKeepsFit(measure: string -> int, maxWidth: int, acc: Acc, w: string)
    requires FitState(measure, maxWidth, acc)
    requires AllSpaceFree(acc.current) && SpaceFree(w)
    ensures FitState(measure, maxWidth, Feed(measure, maxWidth, acc, w))
  {
    if measure(Join(acc.current + [w])) <= maxWidth {
      ExtendKeepsFit(measure, maxWidth, acc.current, w);
    } else if |acc.current| > 0 {
      SplitJoin(acc.current);
      AppendKeepsFit(measure, maxWidth, acc.lines, Join(acc.current));
    } else {
      AppendKeepsFit(measure, maxWidth, acc.lines, w);
    }
  }

  /** Throughout the loop, every line was grown only by trial lines that fitted. */
  lemma {:induction false} RunFit(measure: string -> int, maxWidth: int, words: seq<string>)
    requires AllSpaceFree(words)
    ensures FitState(measure, maxWidth, Run(measure, maxWidth, words))
    decreases |words|
  {
    if |words| > 0 {
      var p, w := words[..|words| - 1], words[|words| - 1];
      PrefixSpaceFree(words, |words| - 1);
      RunFit(measure, maxWidth, p);
      RunPartition(measure, maxWidth, p);
      FeedKeepsFit(measure, maxWidth, Run(measure, maxWidth, p), w);
    }
  }

  /** A token shares a returned line with the tokens before it only because
      every trial line that added a token to that line fitted: each prefix
      of two or more of a line's tokens is within the width. */
  lemma WrapLinesGrewByFit(measure: string -> int, maxWidth: int, text: string)
    ensures var lines := WrapText(measure, maxWidth, text);
      forall i :: 0 <= i < |lines| ==> PrefixesFit(measure, maxWidth, Split(lines[i]))
  {
    var words := Split(text);
    var acc := Run(measure, maxWidth, words);
    RunFit(measure, maxWidth, words);
    RunPartition(measure, maxWidth, words);
    if |acc.current| > 0 {
      SplitJoin(acc.current);
      AppendKeepsFit(measure, maxWidth, acc.lines, Join(acc.current));
    }
    assert LinesGrewByFit(measure, maxWidth, Finish(acc));
  }

  /** A single token always ends up alone on one line. */
  lemma OneTokenOneLine(measure: string -> int, maxWidth: int, words: seq<string>)
    requires |words| == 1
    ensures Finish(Run(measure, maxWidth, words)) == words
  {
    assert words[..0] == [];
    assert [] + [words[0]] == words;
  }

  /** With two or more tokens, one line comes out only if nothing was
      committed during the loop: a commit leaves either a current line
      behind it or, for an oversized token, a line committed before it. */
  lemma {:induction false} SeveralTokensOneLine(measure: string -> int, maxWidth: int, words: seq<string>)
    requires |words| >= 2
    requires |Finish(Run(measure, maxWidth, words))| == 1
    ensures Run(measure, maxWidth, words).lines == []
  {
    var p, w := words[..|words| - 1], words[|words| - 1];
    var prev := Run(measure, maxWidth, p);
    assert Run(measure, maxWidth, words) == Feed(measure, maxWidth, prev, w);
    if prev.lines == [] {
      RunNoLines(measure, maxWidth, p);
    }
  }

  /** The loop yields exactly one line when there is one token or every
      trial line fits. */
  lemma RunOneLine(measure: string -> int, maxWidth: int, words: seq<string>)
    requires |words| >= 1
    ensures |Finish(Run(measure, maxWidth, words))| == 1
        <==> |words| == 1 || AllFit(measure, maxWidth, words)
  {
    if |words| == 1 {
      OneTokenOneLine(measure, maxWidth, words);
    } else if AllFit(measure, maxWidth, words) {
      RunAllFit(measure, maxWidth, words);
    } else if |Finish(Run(measure, maxWidth, words))| == 1 {
      SeveralTokensOneLine(measure, maxWidth, words);
      RunNoLines(measure, maxWidth, words);
    }
  }

  /** The result is the whole text on one line exactly when the text is a
      single token or every trial line formed while consuming the tokens
      fits. */
  lemma WrapSingleLine(measure: string -> int, maxWidth: int, text: string)
    ensures WrapText(measure, maxWidth, text) == [text]
        <==> |Split(text)| == 1 || AllFit(measure, maxWidth, Split(text))
  {
    var lines := WrapText(measure, maxWidth, text);
    RunOneLine(measure, maxWidth, Split(text));
    WrapRoundTrip(measure, maxWidth, text);
    assert |lines| == 1 ==> lines == [lines[0]] && Join(lines) == lines[0];
  }

  /** `wrap_text("", ...)` is `[""]`, never the empty list, whatever the
      measurement and the width. */
  lemma WrapEmptyText(measure: string -> int, maxWidth: int)
    ensures WrapText(measure, maxWidth, "") == [""]
  {
  }

  /** Every trial line is a prefix of the joined tokens. */
  lemma JoinPrefix(words: seq<string>, k: nat)
    requires 1 <= k < |words|
    ensures Join(words) == Join(words[..k]) + (" " + Join(words[k..]))
  {
    assert words == words[..k] + words[k..];
    JoinConcat(words[..k], words[k..]);
  }

  /** Under a measurement that never shrinks when text is appended, a
      trial line measures no more than the whole joined text. */
  lemma TrialNoWiderThanWhole(measure: string -> int, words: seq<string>, k: nat)
    requires GrowsWithSuffix(measure)
    requires 1 <= k <= |words|
    ensures measure(Join(words[..k])) <= measure(Join(words))
  {
    if k < |words| {
      JoinPrefix(words, k);
      GrowsAt(measure, Join(words[..k]), " " + Join(words[k..]));
    } else {
      assert words[..k] == words;
    }
  }

  /** With a measurement that never shrinks when text is appended, a text
      that fits as a whole comes back as one line. */
  lemma WrapFitsWhenMonotone(measure: string -> int, maxWidth: int, text: string)
    requires GrowsWithSuffix(measure)
    requires measure(text) <= maxWidth
    ensures WrapText(measure, maxWidth, text) == [text]
  {
    var words := Split(text);
    JoinSplit(text);
    forall k | 1 <= k <= |words| ensures measure(Join(words[..k])) <= maxWidth {
      TrialNoWiderThanWhole(measure, words, k);
    }
    WrapSingleLine(measure, maxWidth, text);
  }

  /** Committed lines are never revised: the lines committed after any
      prefix of the tokens stay in front of the lines committed after all. */
  lemma {:induction false} RunLinesPrefix(measure: string -> int, maxWidth: int, words: seq<string>, k: nat)
    requires k <= |words|
    ensures Run(measure, maxWidth, words[..k]).lines <= Run(measure, maxWidth, words).lines
    decreases |words|
  {
    if k == |words| {
      assert words[..k] == words;
    } else {
      var p := words[..|words| - 1];
      assert p[..k] == words[..k];
      RunLinesPrefix(measure, maxWidth, p, k);
    }
  }

  /** The loop commits a token that reaches an empty current line and is
      too wide alone right behind the lines committed before it. */
  lemma OversizedCommitted(measure: string -> int, maxWidth: int, words: seq<string>, k: nat)
    requires k < |words|
    requires Run(measure, maxWidth, words[..k]).current == []
    requires measure(words[k]) > maxWidth
    ensures Run(measure, maxWidth, words[..k + 1]).lines
         == Run(measure, maxWidth, words[..k]).lines + [words[k]]
  {
    assert words[..k + 1][..k] == words[..k];
    assert Run(measure, maxWidth, words[..k]).current + [words[k]] == [words[k]];
  }

  /** After the final commit, such a token is the line at the position
      where it was committed. */
  lemma FinishKeepsOversizedToken(measure: string -> int, maxWidth: int, words: seq<string>, k: nat)
    requires k < |words|
    requires Run(measure, maxWidth, words[..k]).current == []
    requires measure(words[k]) > maxWidth
    ensures var at := |Run(measure, maxWidth, words[..k]).lines|;
      var lines := Finish(Run(measure, maxWidth, words));
      at < |lines| && lines[at] == words[k]
  {
    var before := Run(measure, maxWidth, words[..k]).lines;
    var after := Run(measure, maxWidth, words[..k + 1]).lines;
    OversizedCommitted(measure, maxWidth, words, k);
    RunLinesPrefix(measure, maxWidth, words, k + 1);
    var lines := Finish(Run(measure, maxWidth, words));
    assert after <= lines;
    assert after[|before|] == words[k];
  }

  /** A token that reaches an empty current line and is too wide alone is
      returned whole, as the line at the position where it was committed. */
  lemma WrapKeepsOversizedToken(measure: string -> int, maxWidth: int, text: string, k: nat)
    requires k < |Split(text)|
    requires Run(measure, maxWidth, Split(text)[..k]).current == []
    requires measure(Split(text)[k]) > maxWidth
    ensures var at := |Run(measure, maxWidth, Split(text)[..k]).lines|;
      var lines := WrapText(measure, maxWidth, text);
      at < |lines| && lines[at] == Split(text)[k]
  {
    FinishKeepsOversizedToken(measure, maxWidth, Split(text), k);
  }

  /** A new line is started with token `w` behind a non-empty current line
      only when the current line extended by a space and `w` is too wide
      (asit.py:112-117). */
  lemma FeedBreaksOnlyWhenTooWide(measure: string -> int, maxWidth: int, acc: Acc, w: string)
    requires |acc.current| > 0
    ensures Feed(measure, maxWidth, acc, w).lines != acc.lines
        <==> measure(Join(acc.current) + " " + w) > maxWidth
  {
    JoinSnoc(acc.current, w);
  }
}
