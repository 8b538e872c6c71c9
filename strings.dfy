/** The few Python `str` operations the core relies on: `startswith`, `split` and `join`. */
module Strings {

  /** `s.startswith(prefix)` */
  predicate StartsWith(s: string, prefix: string) {
    |prefix| <= |s| && s[..|prefix|] == prefix
  }

  /** The text of `s` before the first `sep`, or all of `s` when it holds none. */
  function TakeUntil(s: string, sep: char): (head: string)
    ensures |head| <= |s| && head == s[..|head|]
    ensures sep !in head
    ensures |head| < |s| ==> s[|head|] == sep
  {
    if |s| == 0 || s[0] == sep then ""
    else [s[0]] + TakeUntil(s[1..], sep)
  }

  /** `s.split(sep)` for a one-character separator: the pieces between separators, in order. */
  function Split(s: string, sep: char): (pieces: seq<string>)
    ensures |pieces| >= 1
    ensures forall i | 0 <= i < |pieces| :: sep !in pieces[i]
    decreases |s|
  {
    if |s| == 0 then [""]
    else
      var rest := Split(s[1..], sep);
      if s[0] == sep then [""] + rest
      else [[s[0]] + rest[0]] + rest[1..]
  }

  /** `sep.join(pieces)` */
  function Join(pieces: seq<string>, sep: char): (s: string)
  {
    if |pieces| == 0 then ""
    else if |pieces| == 1 then pieces[0]
    else pieces[0] + [sep] + Join(pieces[1..], sep)
  }

  /** A text splits into itself alone exactly when it holds no separator. */
  lemma {:induction false} SplitWithoutSep(s: string, sep: char)
    ensures Split(s, sep) == [s] <==> sep !in s
    decreases |s|
  {
    assert sep !in Split(s, sep)[0];
    if sep !in s && |s| > 0 {
      assert sep !in s[1..] by {
        forall i | 0 <= i < |s[1..]| ensures s[1..][i] != sep { assert s[1..][i] == s[i + 1]; }
      }
      SplitWithoutSep(s[1..], sep);
      assert s[0] != sep;
      assert [s[0]] + s[1..] == s;
    }
  }

  /** The first piece of a split is the text up to the first separator. */
  lemma {:induction false} SplitFirstIsTakeUntil(s: string, sep: char)
    ensures Split(s, sep)[0] == TakeUntil(s, sep)
    decreases |s|
  {
    if |s| > 0 && s[0] != sep {
      SplitFirstIsTakeUntil(s[1..], sep);
    }
  }

  lemma JoinCons(head: string, pieces: seq<string>, sep: char)
    requires |pieces| >= 1
    ensures Join([head] + pieces, sep) == head + [sep] + Join(pieces, sep)
  {
    assert ([head] + pieces)[1..] == pieces;
  }

  /** Prefixing the first piece with `c` prefixes the joined text with `c`. */
  lemma JoinExtendFirst(c: char, pieces: seq<string>, sep: char)
    requires |pieces| >= 1
    ensures Join([[c] + pieces[0]] + pieces[1..], sep) == [c] + Join(pieces, sep)
  {
    if |pieces| > 1 {
      JoinCons([c] + pieces[0], pieces[1..], sep);
      assert [pieces[0]] + pieces[1..] == pieces;
      JoinCons(pieces[0], pieces[1..], sep);
    }
  }

  /** Joining the pieces of a split gives back the original text. */
  lemma {:induction false} JoinSplit(s: string, sep: char)
    ensures Join(Split(s, sep), sep) == s
    decreases |s|
  {
    if |s| > 0 {
      var rest := Split(s[1..], sep);
      JoinSplit(s[1..], sep);
      if s[0] == sep {
        JoinCons("", rest, sep);
      } else {
        JoinExtendFirst(s[0], rest, sep);
      }
      assert [s[0]] + s[1..] == s;
    }
  }

  /** One step of `Split`: the first character either ends the first piece or joins it. */
  lemma SplitCons(c: char, t: string, sep: char)
    ensures Split([c] + t, sep) ==
      if c == sep then [""] + Split(t, sep) else [[c] + Split(t, sep)[0]] + Split(t, sep)[1..]
  {
    assert ([c] + t)[1..] == t;
  }

  /** Extending the first piece commutes with appending more pieces. */
  lemma ExtendFirstAppend(c: char, left: seq<string>, right: seq<string>)
    requires |left| >= 1
    ensures [[c] + (left + right)[0]] + (left + right)[1..] == ([[c] + left[0]] + left[1..]) + right
  {
    assert (left + right)[1..] == left[1..] + right;
  }

  /** Splitting `a + sep + b` splits `a` and `b` separately. */
  lemma {:induction false} SplitAppend(a: string, sep: char, b: string)
    ensures Split(a + [sep] + b, sep) == Split(a, sep) + Split(b, sep)
    decreases |a|
  {
    if |a| == 0 {
      assert a + [sep] + b == [sep] + b;
      SplitCons(sep, b, sep);
    } else {
      var c, tail := a[0], a[1..];
      assert a == [c] + tail;
      assert a + [sep] + b == [c] + (tail + [sep] + b);
      SplitAppend(tail, sep, b);
      SplitCons(c, tail + [sep] + b, sep);
      SplitCons(c, tail, sep);
      if c != sep {
        ExtendFirstAppend(c, Split(tail, sep), Split(b, sep));
      }
    }
  }

  /** Splitting a joined list gives back the pieces, when no piece holds the separator. */
  lemma {:induction false} SplitJoin(pieces: seq<string>, sep: char)
    requires |pieces| >= 1
    requires forall i | 0 <= i < |pieces| :: sep !in pieces[i]
    ensures Split(Join(pieces, sep), sep) == pieces
    decreases |pieces|
  {
    SplitWithoutSep(pieces[0], sep);
    if |pieces| > 1 {
      SplitJoin(pieces[1..], sep);
      SplitAppend(pieces[0], sep, Join(pieces[1..], sep));
      assert [pieces[0]] + pieces[1..] == pieces;
    }
  }

  /** A text splits into more than one piece exactly when it holds the separator. */
  lemma SplitCount(s: string, sep: char)
    ensures |Split(s, sep)| > 1 <==> sep in s
  {
    SplitWithoutSep(s, sep);
    if |Split(s, sep)| == 1 {
      JoinSplit(s, sep);
      assert Split(s, sep) == [s];
    }
  }

  /** Joining with one more piece at the end appends the separator and that piece. */
  lemma {:induction false} JoinSnoc(init: seq<string>, last: string, sep: char)
    requires |init| >= 1
    ensures Join(init + [last], sep) == Join(init, sep) + [sep] + last
    decreases |init|
  {
    assert (init + [last])[1..] == init[1..] + [last];
    if |init| > 1 {
      JoinSnoc(init[1..], last, sep);
    }
  }

  /** A character that is no piece's and is not the separator is not in the join. */
  lemma {:induction false} JoinWithout(pieces: seq<string>, sep: char, c: char)
    requires c != sep
    requires forall i | 0 <= i < |pieces| :: c !in pieces[i]
    ensures c !in Join(pieces, sep)
    decreases |pieces|
  {
    if |pieces| > 1 {
      JoinWithout(pieces[1..], sep, c);
    }
  }

  /** A separator right after a separator-free prefix ends the first piece there. */
  lemma {:induction false} TakeUntilPrefix(head: string, sep: char, rest: string)
    requires sep !in head
    ensures TakeUntil(head + [sep] + rest, sep) == head
    decreases |head|
  {
    if |head| > 0 {
      assert sep !in head[1..] by {
        forall i | 0 <= i < |head[1..]| ensures head[1..][i] != sep { assert head[1..][i] == head[i + 1]; }
      }
      TakeUntilPrefix(head[1..], sep, rest);
      assert (head + [sep] + rest)[1..] == head[1..] + [sep] + rest;
      assert [head[0]] + head[1..] == head;
    }
  }
}
