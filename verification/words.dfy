/**
 Python's `str.split(' ')` and `' '.join(...)` on strings, as `wrap_text`
 in asit.py uses them. Splitting on the single-space separator keeps empty
 tokens: `"".split(' ') == [""]` and `"a  b".split(' ') == ["a", "", "b"]`,
 so splitting and joining are exact inverses.
 */
module Words {

  /** True when `s` contains no space character, i.e. it is a single token. */
  predicate SpaceFree(s: string) {
    forall i :: 0 <= i < |s| ==> s[i] != ' '
  }

  /** Every element of `ws` is space-free. */
  predicate AllSpaceFree(ws: seq<string>) {
    forall i :: 0 <= i < |ws| ==> SpaceFree(ws[i])
  }

  /** Number of space characters in `s`. */
  function Spaces(s: string): nat {
    if |s| == 0 then 0
    else (if s[0] == ' ' then 1 else 0) + Spaces(s[1..])
  }

  /** `s.split(' ')`: the maximal space-free pieces between the spaces of `s`,
      one more piece than there are spaces. */
  function Split(s: string): (r: seq<string>)
    ensures |r| == Spaces(s) + 1
    ensures AllSpaceFree(r)
    ensures SpaceFree(s) ==> r == [s]
  {
    if |s| == 0 then [""]
    else
      var rest := Split(s[1..]);
      if s[0] == ' ' then [""] + rest
      else
        assert SpaceFree(s) ==> SpaceFree(s[1..]) by {
          if SpaceFree(s) {
            forall i | 0 <= i < |s[1..]| ensures s[1..][i] != ' ' {
              assert s[1..][i] == s[i + 1];
            }
          }
        }
        assert s == [s[0]] + s[1..];
        [[s[0]] + rest[0]] + rest[1..]
  }

  /** `' '.join(ws)`: the elements of `ws` with one space between neighbours. */
  function Join(ws: seq<string>): (r: string)
    ensures |ws| > 0 && AllSpaceFree(ws) ==> Spaces(r) == |ws| - 1
  {
    if |ws| == 0 then ""
    else if |ws| == 1 then
      SpacesCount(ws[0]);
      ws[0]
    else
      var rest := Join(ws[1..]);
      assert AllSpaceFree(ws) ==> AllSpaceFree(ws[1..]) by {
        if AllSpaceFree(ws) {
          forall i | 0 <= i < |ws[1..]| ensures SpaceFree(ws[1..][i]) {
            assert ws[1..][i] == ws[i + 1];
          }
        }
      }
      SpacesConcat(ws[0], " " + rest);
      SpacesConcat(" ", rest);
      SpacesCount(ws[0]);
      assert ws[0] + " " + rest == ws[0] + (" " + rest);
      ws[0] + " " + rest
  }

  /** Joining two non-empty token lists puts exactly one space between them. */
  lemma {:induction false} JoinConcat(xs: seq<string>, ys: seq<string>)
    requires |xs| > 0 && |ys| > 0
    ensures Join(xs + ys) == Join(xs) + " " + Join(ys)
  {
    if |xs| == 1 {
      assert (xs + ys)[1..] == ys;
    } else {
      assert (xs + ys)[1..] == xs[1..] + ys;
      JoinConcat(xs[1..], ys);
    }
  }

  /** Appending one token to a non-empty list extends the joined text by
      a space and that token. */
  lemma JoinSnoc(xs: seq<string>, w: string)
    requires |xs| > 0
    ensures Join(xs + [w]) == Join(xs) + " " + w
  {
    JoinConcat(xs, [w]);
  }

  /** Round trip: `' '.join(s.split(' ')) == s` for every string, including
      runs of spaces and the empty string. */
  lemma {:induction false} JoinSplit(s: string)
    ensures Join(Split(s)) == s
  {
    if |s| > 0 {
      var rest := Split(s[1..]);
      JoinSplit(s[1..]);
      if s[0] == ' ' {
        assert ([""] + rest)[1..] == rest;
      } else {
        var r := [[s[0]] + rest[0]] + rest[1..];
        assert s == [s[0]] + s[1..];
        if |rest| == 1 {
          assert r == [[s[0]] + rest[0]];
        } else {
          assert r[1..] == rest[1..];
          assert Join(rest) == rest[0] + " " + Join(rest[1..]);
          assert Join(r) == r[0] + " " + Join(r[1..]);
        }
      }
    }
  }

  /** Splitting at a space splits each side separately. */
  lemma {:induction false} SplitAtSpace(a: string, b: string)
    ensures Split(a + " " + b) == Split(a) + Split(b)
  {
    if |a| == 0 {
      assert a + " " + b == [' '] + b;
      assert ([' '] + b)[1..] == b;
    } else {
      var s := a + " " + b;
      assert s[0] == a[0];
      assert s[1..] == a[1..] + " " + b;
      SplitAtSpace(a[1..], b);
    }
  }

  /** The inverse round trip: a non-empty list of space-free tokens is what
      splitting its join gives back. */
  lemma {:induction false} SplitJoin(ws: seq<string>)
    requires |ws| > 0 && AllSpaceFree(ws)
    ensures Split(Join(ws)) == ws
  {
    if |ws| > 1 {
      SplitJoin(ws[1..]);
      SplitAtSpace(ws[0], Join(ws[1..]));
      assert ws == [ws[0]] + ws[1..];
    }
  }

  /** `Split` is the only way to read a string as a non-empty list of
      space-free tokens joined by single spaces. */
  lemma SplitUnique(s: string, ws: seq<string>)
    requires |ws| > 0 && AllSpaceFree(ws) && Join(ws) == s
    ensures ws == Split(s)
  {
    SplitJoin(ws);
  }

  /** A string holds a space exactly when it splits into two or more tokens. */
  lemma {:induction false} SpaceIffSeveralTokens(s: string)
    ensures !SpaceFree(s) <==> |Split(s)| >= 2
  {
    SpacesCount(s);
  }

  /** A string is space-free exactly when it counts no spaces. */
  lemma {:induction false} SpacesCount(s: string)
    ensures SpaceFree(s) <==> Spaces(s) == 0
  {
    if |s| > 0 {
      SpacesCount(s[1..]);
      if SpaceFree(s[1..]) && s[0] != ' ' {
        forall i | 0 <= i < |s| ensures s[i] != ' ' {
          if i > 0 {
            assert s[i] == s[1..][i - 1];
          }
        }
      }
      if SpaceFree(s) {
        forall i | 0 <= i < |s[1..]| ensures s[1..][i] != ' ' {
          assert s[1..][i] == s[i + 1];
        }
      }
    }
  }

  /** Counting spaces distributes over concatenation. */
  lemma {:induction false} SpacesConcat(a: string, b: string)
    ensures Spaces(a + b) == Spaces(a) + Spaces(b)
  {
    if |a| > 0 {
      assert (a + b)[1..] == a[1..] + b;
      SpacesConcat(a[1..], b);
    } else {
      assert a + b == b;
    }
  }

  /** The characters of `s` before its first space: its first token. */
  function FirstToken(s: string): (t: string)
    ensures SpaceFree(t) && |t| <= |s| && t == s[..|t|]
    ensures |t| < |s| ==> s[|t|] == ' '
  {
    if |s| == 0 || s[0] == ' ' then ""
    else [s[0]] + FirstToken(s[1..])
  }

  /** The first element of `s.split(' ')` is the first token of `s`. */
  lemma {:induction false} SplitHead(s: string)
    ensures Split(s)[0] == FirstToken(s)
  {
    if |s| > 0 && s[0] != ' ' {
      SplitHead(s[1..]);
    }
  }

  /** The first token of a join is the first element joined. */
  lemma FirstTokenJoin(ws: seq<string>)
    requires |ws| > 0 && AllSpaceFree(ws)
    ensures FirstToken(Join(ws)) == ws[0]
  {
    SplitJoin(ws);
    SplitHead(Join(ws));
  }

  /** Two corner cases of Python's `split` with an explicit separator: the
      empty string gives one empty token, and a run of two spaces gives an
      empty token between its neighbours. */
  lemma SplitExamples()
    ensures Split("") == [""]
    ensures Split("a  b") == ["a", "", "b"]
  {
    assert "a  b" == "a" + " " + " b";
    SplitAtSpace("a", " b");
    assert " b" == "" + " " + "b";
    SplitAtSpace("", "b");
  }
}
