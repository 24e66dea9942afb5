/**
 The loop of `wrap_text` (asit.py:106-124) written as the source writes it:
 a `for` over the tokens that updates `lines` and `current_line` in place.
 */
module WrapLoop {
  import opened Words
  import opened Wrap

  /** Computes the same lines as the recursive model `WrapText`, and so
      returns at least one line whose space-join is the input text. */
  method WrapTextLoop(measure: string -> int, maxWidth: int, text: string)
    returns (lines: seq<string>)
    ensures lines == WrapText(measure, maxWidth, text)
    ensures Join(lines) == text && |lines| >= 1
  {
    var words := Split(text);
    lines := [];
    var current: seq<string> := [];
    var i := 0;
    while i < |words|
      invariant 0 <= i <= |words|
      invariant Acc(lines, current) == Run(measure, maxWidth, words[..i])
    {
      var word := words[i];
      var testLine := Join(current + [word]);
      if measure(testLine) <= maxWidth {
        current := current + [word];
      } else if |current| > 0 {
        lines := lines + [Join(current)];
        current := [word];
      } else {
        lines := lines + [word];
      }
      assert words[..i + 1][..i] == words[..i];
      i := i + 1;
    }
    assert words[..i] == words;
    if |current| > 0 {
      lines := lines + [Join(current)];
    }
    WrapRoundTrip(measure, maxWidth, text);
  }
}
