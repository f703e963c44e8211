/** Text written line by line, each line followed by a line break, and read back by splitting at the breaks. */
module TextLines {
  import opened Strings

  /** Each line followed by a line break. */
  function Lines(ls: seq<string>): string
  {
    if |ls| == 0 then "" else Lines(ls[..|ls| - 1]) + ls[|ls| - 1] + "\n"
  }

  lemma {:induction false} LinesJoin(ls: seq<string>)
    ensures Lines(ls) == Join(ls + [""], "\n")
  {
    if |ls| > 0 {
      var init := ls[..|ls| - 1];
      var x := ls[|ls| - 1];
      assert ls == init + [x];
      LinesJoin(init);
      if |init| == 0 {
        assert ls + [""] == [x, ""];
      } else {
        JoinSnoc(init, "", "\n");
        JoinSnoc(init, x, "\n");
        assert ls + [""] == (init + [x]) + [""];
        JoinSnoc(init + [x], "", "\n");
      }
    }
  }

  /** No line holds a line break of its own. */
  predicate Unbroken(ls: seq<string>)
  {
    forall k :: 0 <= k < |ls| ==> '\n' !in ls[k]
  }

  /** Two texts without a line break make one without. */
  lemma NoBreakJoin(x: string, y: string)
    requires '\n' !in x && '\n' !in y
    ensures '\n' !in x + y
  {
  }

  lemma UnbrokenAppend(a: seq<string>, b: seq<string>)
    requires Unbroken(a) && Unbroken(b)
    ensures Unbroken(a + b)
  {
    forall k | 0 <= k < |a + b| ensures '\n' !in (a + b)[k] {
      if k >= |a| {
        assert (a + b)[k] == b[k - |a|];
      }
    }
  }

  /** Splitting the written text at line breaks gives back the lines (and the empty rest after the last break). */
  lemma LinesSplit(ls: seq<string>)
    requires Unbroken(ls)
    ensures Split(Lines(ls), '\n') == ls + [""]
  {
    LinesJoin(ls);
    SplitJoin(ls + [""], '\n');
  }

  /** One more line. */
  lemma LinesSnoc(ls: seq<string>, x: string)
    ensures Lines(ls + [x]) == Lines(ls) + x + "\n"
  {
    assert (ls + [x])[..|ls|] == ls;
  }

  /** A line written after the text of some lines is the text of the longer list. */
  lemma WroteLine(start: string, ls: seq<string>, x: string)
    ensures start + Lines(ls) + x + "\n" == start + Lines(ls + [x])
  {
    LinesSnoc(ls, x);
  }

  /** Writing the next line of a list extends the lines written so far by one. */
  lemma WroteNextLine(start: string, ls: seq<string>, n: nat)
    requires n < |ls|
    ensures start + Lines(ls[..n]) + ls[n] + "\n" == start + Lines(ls[..n + 1])
  {
    assert ls[..n + 1] == ls[..n] + [ls[n]];
    WroteLine(start, ls[..n], ls[n]);
  }

  /** Once every line of a list is written, the text is the list's. */
  lemma WroteAll(start: string, ls: seq<string>, n: nat)
    requires n == |ls|
    ensures start + Lines(ls[..n]) == start + Lines(ls)
  {
    assert ls[..n] == ls;
  }

  /** Two lines added one after the other are the pair added at once. */
  lemma SnocPair(ls: seq<string>, x: string, y: string)
    ensures ls + [x] + [y] == ls + [x, y]
  {
  }

  /** Lines written after the text of other lines. */
  lemma WroteLines(start: string, a: seq<string>, b: seq<string>)
    ensures start + Lines(a) + Lines(b) == start + Lines(a + b)
  {
    LinesAppend(a, b);
  }

  /** Writing lines one list after another writes the concatenated list. */
  lemma {:induction false} LinesAppend(a: seq<string>, b: seq<string>)
    ensures Lines(a + b) == Lines(a) + Lines(b)
  {
    if |b| > 0 {
      var init := b[..|b| - 1];
      assert (a + b)[..|a + b| - 1] == a + init;
      LinesAppend(a, init);
    } else {
      assert a + b == a;
    }
  }

  lemma {:induction false} JoinNoChar(parts: seq<string>, sep: string, c: char)
    requires c !in sep
    requires forall k :: 0 <= k < |parts| ==> c !in parts[k]
    ensures c !in Join(parts, sep)
  {
    if |parts| > 1 {
      JoinNoChar(parts[1..], sep, c);
    }
  }
}
