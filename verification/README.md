# Greedy text wrapping of `asit.py`

`asit.py` shows a fullscreen flashing intro, followed by a fullscreen message.
Before the message is drawn, `wrap_text(text, font, max_width)` (asit.py:104-124)
breaks it into lines that fit the screen. This project models that routine and
the Python string semantics it relies on, and proves what it returns.

- `words.dfy`, module `Words`: Python's `str.split(' ')` (`Split`) and
  `' '.join(...)` (`Join`). Splitting on a single space keeps empty tokens, so
  `"".split(' ') == [""]` and `"a  b".split(' ') == ["a", "", "b"]`. Both
  round trips between `Split` and `Join` are proved.
- `wrap.dfy`, module `Wrap`: the loop as a left fold. `Feed` is one pass of the
  loop body. `Run` consumes a token list. `Finish` commits the last line.
  `WrapText` is `wrap_text`. The loop state `Acc` holds the committed `lines`
  and the token list `current` (the source's `current_line`). The invariants
  of the loop are stated as predicates on `Acc` (`Partitioned`, `WidthState`,
  `GreedyState`, `FitState`). Each is proved preserved by `Feed` and then established for
  `Run` by induction.
- `wrap_loop.dfy`, module `WrapLoop`: `WrapTextLoop`, a `while` loop written
  the way the source writes its `for` loop, proved to compute `WrapText`.

The width measurement `font.size(test_line)[0]` becomes a parameter
`measure: string -> int`. No property of it is assumed, except in
`WrapFitsWhenMonotone`, which says so in its `requires`. `maxWidth` is an
unrestricted `int`. The caller passes `screen_width - 100` (asit.py:164), which
can be zero or negative.

Some behaviours of the code are easy to get wrong, and the model follows the
code on each of them:
- The empty text gives `[""]`, not `[]`. `"".split(' ')` is `[""]`. Either the
  empty token fits and `current_line == [""]` is a non-empty list, or it does
  not fit and is committed alone (`WrapEmptyText`).
- `if current_line:` tests the token list, not the joined string. So a current
  line made of one empty token is still committed.
- Only the space character separates tokens. A newline or tab stays inside its
  token. Consecutive spaces give empty tokens, and those are preserved exactly.
- After a commit, the token that starts the new line is not measured on its
  own. A line wider than `max_width` can therefore be a single token that
  followed a commit, and not only a token committed by the oversized branch.

## Model

| member | source | states |
|---|---|---|
| Words.Split | asit.py:106 | `text.split(' ')` has exactly one more token than the text has spaces, and no token contains a space; a space-free text is its own single token |
| Words.Join | asit.py:111 | `' '.join(tokens)` of a non-empty list of space-free tokens holds exactly `len(tokens) - 1` spaces; where they fall is stated by `Words.JoinConcat` and `Words.SplitJoin`, and with `Words.JoinSplit` the join is the inverse of `split(' ')` (the same join is used at asit.py:116 and 122) |
| Words.JoinSplit | asit.py:106 | `' '.join(text.split(' ')) == text` for every string, runs of spaces and the empty string included |
| Words.SplitJoin | asit.py:116 | splitting the `' '`-join of a non-empty list of space-free tokens gives back exactly that list |
| Words.SplitUnique | asit.py:106 | `split(' ')` is the only non-empty list of space-free tokens whose `' '`-join is the text |
| Words.JoinSnoc | asit.py:111 | the trial line `' '.join(current_line + [word])` of a non-empty current line is the joined current line, a space, and the word |
| Words.JoinConcat | asit.py:111 | joining two non-empty token lists puts exactly one space between their joins |
| Words.SpaceIffSeveralTokens | asit.py:106 | a string is not space-free if and only if it splits into two or more tokens |
| Words.SplitExamples | asit.py:106 | `"".split(' ') == [""]` and `"a  b".split(' ') == ["a", "", "b"]` |
| Wrap.Feed | asit.py:111-119 | one pass of the loop body never revises committed lines and commits at most one line, and it commits one exactly when the trial line `' '.join(current_line + [word])` is too wide; afterwards there is a committed or a current line. `Wrap.FeedKeepsPartition`, `Wrap.FeedKeepsWidth`, `Wrap.FeedKeepsGreedy` and `Wrap.FeedBreaksOnlyWhenTooWide` characterise it further |
| Wrap.Run | asit.py:107-119 | the `for` loop leaves at most as many committed lines plus current tokens as tokens consumed, and something once a token has been consumed; `Wrap.RunPartition`, `Wrap.RunWidth` and `Wrap.RunGreedy` give its invariants |
| Wrap.Finish | asit.py:121-122 | the final commit keeps the committed lines in front, adds at most one line, and returns nothing only when there was nothing; `Wrap.FinishPartition` shows the result holds exactly the tokens |
| Wrap.WrapText | asit.py:104-124 | the lines, split back into tokens and concatenated, are exactly the tokens of the text in order, so each line is the `' '`-join of its own non-empty contiguous block of tokens (`Words.JoinSplit`) and the blocks cover the tokens without loss or duplication; there is at least one line and at most one line per token |
| Wrap.FeedKeepsPartition | asit.py:111-119 | one pass of the loop body moves the token into the state with nothing lost: committed lines plus current line still hold exactly the consumed tokens |
| Wrap.RunPartition | asit.py:110-119 | after any number of tokens, the committed lines followed by the current line hold exactly the consumed tokens, in order |
| Wrap.FinishPartition | asit.py:121-122 | committing the leftover current line completes the partition: the result's tokens are exactly the input tokens |
| Wrap.FeedKeepsWidth | asit.py:111-119 | one pass of the loop body keeps every too-wide committed line a single token, and keeps a current line of two or more tokens within the width |
| Wrap.RunWidth | asit.py:110-119 | throughout the loop, too-wide committed lines are single tokens and a current line of two or more tokens fits |
| Wrap.FeedKeepsGreedy | asit.py:111-119 | one pass of the loop body keeps every committed line closed for one of the loop's reasons: the next line's first token did not fit behind it, or it belongs to the leading run of lines that are each too wide alone; while the current line is empty, every committed line is in that run |
| Wrap.RunGreedy | asit.py:110-119 | throughout the loop, each committed line was closed because the first token after it did not fit behind it, unless it and every line before it are too wide alone; an empty current line means every committed line is too wide alone |
| Wrap.RunAllFit | asit.py:110-113 | if every trial line fits, the loop commits nothing and the current line holds every token |
| Wrap.RunNoLines | asit.py:110-119 | if the loop committed nothing, the current line holds every token and every trial line fitted |
| Wrap.RunOneLine | asit.py:110-122 | for a non-empty token list, exactly one line comes out if and only if there is one token or every trial line fits |
| Wrap.WrapRoundTrip | asit.py:106-122 | joining the returned lines with single spaces reproduces the input text exactly |
| Wrap.WrapWidthBound | asit.py:111-122 | every returned line wider than `max_width` is a single token with no space in it |
| Wrap.WrapGreedyBreak | asit.py:111-119 | each returned line except the last is too wide once a space and the first token of the next line are appended, unless it and every line before it are each too wide alone (the leading oversized tokens committed while the current line was still empty) |
| Wrap.FeedKeepsFit | asit.py:111-119 | one pass of the loop body adds a token to the current line only through a trial line that fits, and a committed line splits back into tokens each of whose prefixes of two or more tokens fitted |
| Wrap.RunFit | asit.py:110-119 | throughout the loop, every committed line and the current line were grown only by trial lines that fitted |
| Wrap.WrapLinesGrewByFit | asit.py:111-113 | for every returned line, each prefix of two or more of its tokens, joined with spaces, is within `max_width`: a token joined the tokens before it only because that trial line fitted |
| Wrap.FinishGreedy | asit.py:121-122 | the final commit keeps every line but the last closed for one of the loop's reasons |
| Wrap.WrapSingleLine | asit.py:110-122 | the result is `[text]` if and only if the text is one token or every trial line formed while consuming its tokens fits |
| Wrap.WrapEmptyText | asit.py:106-122 | the empty text wraps to `[""]`, whatever the measurement and the width |
| Wrap.WrapFitsWhenMonotone | asit.py:110-122 | when appending text never makes the measurement smaller, a text that fits as a whole comes back as `[text]` |
| Wrap.RunLinesPrefix | asit.py:110-119 | committed lines are never revised: the lines committed after any prefix of the tokens are a prefix of the lines committed after all of them |
| Wrap.OversizedCommitted | asit.py:115-119 | a token that meets an empty current line and is too wide alone is committed whole, right behind the lines committed before it |
| Wrap.FinishKeepsOversizedToken | asit.py:115-122 | a token that meets an empty current line and is too wide alone is, after the final commit, the line at the index equal to the number of lines committed before it |
| Wrap.WrapKeepsOversizedToken | asit.py:115-122 | such a token is returned untruncated as a line of `wrap_text`'s result, at the index equal to the number of lines committed before it |
| Wrap.FeedBreaksOnlyWhenTooWide | asit.py:111-117 | with a non-empty current line, a line is committed if and only if the current line plus a space and the token is too wide |
| WrapLoop.WrapTextLoop | asit.py:104-124 | the imperative loop returns the same lines as `WrapText`: at least one line, and their space-join is the text |

## Left out

- `install_dependencies` (asit.py:18-31) and the console hiding on Windows (asit.py:13-15): calls into pip, subprocess and the operating system.
- `flash_screen` (asit.py:50-78): a pygame display loop driven by the wall clock. Its colour phase `int(elapsed * 2) % 2` comes from floating-point time.
- `download_image` (asit.py:80-102): an HTTP request, image decoding and a floating-point aspect-ratio resize, all done by library calls.
- `show_message` (asit.py:126-177) and `main` (asit.py:179-190): font loading, rendering, centring, event polling and process exit through pygame. The call to `wrap_text` at asit.py:164-165 is represented only by allowing any integer `maxWidth`.
- The configuration constants (asit.py:40-47): the text to wrap is an arbitrary input.
- `font.size(...)`: a foreign call, taken as an arbitrary total function `measure`.
