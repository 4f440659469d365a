/**
 * The two string operations the report script relies on: Python's
 * `str.endswith` and `str.split` on a one-character literal separator
 * (which is what pandas' `Series.str.split(";")` does row by row).
 */
module Strings {

  /** `s.endswith(suffix)` */
  predicate EndsWith(s: string, suffix: string) {
    |suffix| <= |s| && s[|s| - |suffix|..] == suffix
  }

  /** Number of occurrences of `c` in `s`. */
  function Occurrences(s: string, c: char): nat {
    multiset(s)[c]
  }

  /**
   * `s.split(sep)`: the maximal runs of `s` free of `sep`, in order. There is
   * always at least one token, possibly empty.
   */
  function Split(s: string, sep: char): (tokens: seq<string>)
    ensures |tokens| >= 1
    ensures forall i :: 0 <= i < |tokens| ==> sep !in tokens[i]
  {
    if |s| == 0 then [""]
    else
      var rest := Split(s[1..], sep);
      if s[0] == sep then [""] + rest
      else [[s[0]] + rest[0]] + rest[1..]
  }

  /** A split has one more token than the string has separators. */
  lemma {:induction false} SplitCount(s: string, sep: char)
    ensures |Split(s, sep)| == Occurrences(s, sep) + 1
    ensures |Split(s, sep)| > 1 <==> sep in s
  {
    if |s| > 0 {
      assert s == [s[0]] + s[1..];
      SplitCount(s[1..], sep);
    }
    assert sep in s <==> sep in multiset(s);
  }

  /** `sep.join(tokens)` */
  function Join(tokens: seq<string>, sep: char): string {
    if |tokens| == 0 then ""
    else if |tokens| == 1 then tokens[0]
    else tokens[0] + [sep] + Join(tokens[1..], sep)
  }

  /** Prepending one character to the first token prepends it to the joined string. */
  lemma JoinExtendHead(c: char, tokens: seq<string>, sep: char)
    requires |tokens| >= 1
    ensures Join([[c] + tokens[0]] + tokens[1..], sep) == [c] + Join(tokens, sep)
  {
    var ext := [[c] + tokens[0]] + tokens[1..];
    if |tokens| > 1 {
      assert ext[1..] == tokens[1..];
      assert ([c] + tokens[0]) + [sep] + Join(tokens[1..], sep) == [c] + (tokens[0] + [sep] + Join(tokens[1..], sep));
    }
  }

  /** Joining a token in front of at least one more token puts a separator between them. */
  lemma JoinCons(t: string, tokens: seq<string>, sep: char)
    requires |tokens| >= 1
    ensures Join([t] + tokens, sep) == t + [sep] + Join(tokens, sep)
  {
    assert ([t] + tokens)[1..] == tokens;
  }

  /** Splitting loses nothing: joining the tokens back gives the original string. */
  lemma {:induction false} JoinSplit(s: string, sep: char)
    ensures Join(Split(s, sep), sep) == s
  {
    if |s| > 0 {
      var tail := s[1..];
      var rest := Split(tail, sep);
      JoinSplit(tail, sep);
      assert s == [s[0]] + tail;
      if s[0] == sep {
        assert Split(s, sep) == [""] + rest;
        JoinCons("", rest, sep);
      } else {
        assert Split(s, sep) == [[s[0]] + rest[0]] + rest[1..];
        JoinExtendHead(s[0], rest, sep);
      }
    }
  }

  /** Splitting a separator-free prefix followed by more text: the prefix heads the first token. */
  lemma {:induction false} SplitFreePrefix(t: string, u: string, sep: char)
    requires sep !in t
    ensures Split(t + u, sep) == [t + Split(u, sep)[0]] + Split(u, sep)[1..]
  {
    if |t| > 0 {
      assert (t + u)[1..] == t[1..] + u;
      SplitFreePrefix(t[1..], u, sep);
      assert [t[0]] + (t[1..] + Split(u, sep)[0]) == t + Split(u, sep)[0];
    } else {
      var r := Split(u, sep);
      assert t + u == u;
      assert t + r[0] == r[0];
      assert [r[0]] + r[1..] == r;
    }
  }

  /** Joining separator-free tokens and splitting again gives the tokens back. */
  lemma {:induction false} SplitJoin(tokens: seq<string>, sep: char)
    requires |tokens| >= 1
    requires forall i :: 0 <= i < |tokens| ==> sep !in tokens[i]
    ensures Split(Join(tokens, sep), sep) == tokens
  {
    if |tokens| == 1 {
      SplitFreePrefix(tokens[0], "", sep);
      assert tokens[0] + "" == tokens[0];
    } else {
      var u := [sep] + Join(tokens[1..], sep);
      SplitJoin(tokens[1..], sep);
      assert Join(tokens, sep) == tokens[0] + u;
      SplitFreePrefix(tokens[0], u, sep);
      assert u[0] == sep && u[1..] == Join(tokens[1..], sep);
      assert Split(u, sep) == [""] + tokens[1..];
      assert tokens[0] + "" == tokens[0];
    }
  }

  /** The first token is a prefix of the joined string, followed by a separator when more tokens follow. */
  lemma JoinFirstToken(tokens: seq<string>, sep: char)
    requires |tokens| >= 1
    ensures var j, t := Join(tokens, sep), tokens[0];
      && |t| <= |j| && j[..|t|] == t
      && (|tokens| == 1 ==> j == t)
      && (|tokens| > 1 ==> |t| < |j| && j[|t|] == sep)
  {
    if |tokens| > 1 {
      var rest := [sep] + Join(tokens[1..], sep);
      assert Join(tokens, sep) == tokens[0] + rest;
    }
  }

  /** The second token sits right after the first separator, followed by a separator when more tokens follow. */
  lemma JoinSecondToken(tokens: seq<string>, sep: char)
    requires |tokens| >= 2
    ensures var j, start, t := Join(tokens, sep), |tokens[0]| + 1, tokens[1];
      && start + |t| <= |j|
      && j[start - 1] == sep
      && j[start..start + |t|] == t
      && (start + |t| < |j| ==> |tokens| > 2 && j[start + |t|] == sep)
  {
    var after := Join(tokens[1..], sep);
    assert Join(tokens, sep) == tokens[0] + [sep] + after;
    JoinFirstToken(tokens[1..], sep);
    var start := |tokens[0]| + 1;
    assert (tokens[0] + [sep] + after)[start..] == after;
    assert Join(tokens, sep)[start..start + |tokens[1]|] == after[..|tokens[1]|];
  }
}
