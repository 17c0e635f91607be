/** Text as a sequence of UTF-16 code units, the code units the layout engine
    treats specially, and the two string operations it relies on: splitting
    on a separator (String.prototype.split with a one-unit separator) and
    joining pieces back together. */
module Strings {

  type Text = seq<int>

  const TAB: int := 9
  const NEWLINE: int := 10
  const SPACE: int := 32
  const HYPHEN_MINUS: int := 45
  const NO_BREAK_SPACE: int := 160
  const SOFT_HYPHEN: int := 0xAD
  const EN_DASH: int := 0x2013

  /** Number of occurrences of `c` in `s`. */
  function Count(s: Text, c: int): (n: nat)
    ensures n <= |s|
    ensures n == 0 <==> c !in s
  {
    if |s| == 0 then 0
    else Count(s[..|s| - 1], c) + (if s[|s| - 1] == c then 1 else 0)
  }

  /** `s` split at every `sep`: the separators are dropped, and a leading,
      trailing or doubled separator yields an empty piece, so there is always
      one piece more than there are separators. */
  function Split(s: Text, sep: int): (r: seq<Text>)
    ensures |r| == Count(s, sep) + 1
    ensures forall i :: 0 <= i < |r| ==> sep !in r[i]
    decreases |s|
  {
    if |s| == 0 then [[]]
    else
      var t := Split(s[1..], sep);
      CountFront(s, sep);
      if s[0] == sep then [[]] + t
      else [[s[0]] + t[0]] + t[1..]
  }

  /** The pieces separated by single `sep` units. */
  function Join(pieces: seq<Text>, sep: int): Text
    requires |pieces| >= 1
    decreases |pieces|
  {
    if |pieces| == 1 then pieces[0]
    else pieces[0] + [sep] + Join(pieces[1..], sep)
  }

  /** The pieces laid end to end (Array.prototype.join with ''). */
  function Concat(pieces: seq<Text>): Text
    decreases |pieces|
  {
    if |pieces| == 0 then [] else pieces[0] + Concat(pieces[1..])
  }

  /** Counting can start from the front as well as from the back. */
  lemma {:induction false} CountFront(s: Text, c: int)
    requires |s| > 0
    ensures Count(s, c) == (if s[0] == c then 1 else 0) + Count(s[1..], c)
    decreases |s|
  {
    if |s| > 1 {
      assert s[1..][..|s[1..]| - 1] == s[..|s| - 1][1..];
      CountFront(s[..|s| - 1], c);
    }
  }

  lemma {:induction false} CountAppend(a: Text, b: Text, c: int)
    ensures Count(a + b, c) == Count(a, c) + Count(b, c)
    decreases |b|
  {
    if |b| == 0 {
      assert a + b == a;
    } else {
      assert (a + b)[..|a + b| - 1] == a + b[..|b| - 1];
      CountAppend(a, b[..|b| - 1], c);
    }
  }

  lemma JoinFront(a: Text, b: Text, rest: seq<Text>, sep: int)
    ensures Join([a + b] + rest, sep) == a + Join([b] + rest, sep)
  {
    if |rest| > 0 {
      assert ([a + b] + rest)[1..] == rest;
      assert ([b] + rest)[1..] == rest;
    }
  }

  /** Joining the pieces of a split gives back the original text. */
  lemma {:induction false} JoinSplit(s: Text, sep: int)
    ensures Join(Split(s, sep), sep) == s
    decreases |s|
  {
    if |s| > 0 {
      var t := Split(s[1..], sep);
      JoinSplit(s[1..], sep);
      if s[0] == sep {
        assert Split(s, sep) == [[]] + t;
        assert ([[]] + t)[1..] == t;
        assert s == [sep] + s[1..];
      } else {
        assert Split(s, sep) == [[s[0]] + t[0]] + t[1..];
        JoinFront([s[0]], t[0], t[1..], sep);
        assert [t[0]] + t[1..] == t;
        assert s == [s[0]] + s[1..];
      }
    }
  }

  /** Splitting a join of separator-free pieces gives back the pieces. */
  lemma {:induction false} SplitJoin(pieces: seq<Text>, sep: int)
    requires |pieces| >= 1
    requires forall i :: 0 <= i < |pieces| ==> sep !in pieces[i]
    ensures Split(Join(pieces, sep), sep) == pieces
    decreases |pieces|, |pieces[0]|
  {
    var p := pieces[0];
    if |pieces| == 1 {
      SplitFree(p, sep);
    } else if |p| == 0 {
      var j := Join(pieces[1..], sep);
      SplitJoin(pieces[1..], sep);
      assert Join(pieces, sep) == [sep] + j;
      assert ([sep] + j)[1..] == j;
      assert pieces == [[]] + pieces[1..];
    } else {
      var tail := [p[1..]] + pieces[1..];
      assert tail[1..] == pieces[1..];
      forall i | 0 <= i < |tail|
        ensures sep !in tail[i]
      {
        if i == 0 {
          assert forall k :: 0 <= k < |p[1..]| ==> p[1..][k] == p[k + 1];
        } else {
          assert tail[i] == pieces[i];
        }
      }
      SplitJoin(tail, sep);
      JoinFront([p[0]], p[1..], pieces[1..], sep);
      assert [p[0]] + p[1..] == p;
      assert [p] + pieces[1..] == pieces;
      var s := Join(pieces, sep);
      assert s == [p[0]] + Join(tail, sep);
      assert s[1..] == Join(tail, sep);
      assert p[0] != sep by { assert p[0] == pieces[0][0]; }
      var t := Split(s[1..], sep);
      assert Split(s, sep) == [[p[0]] + t[0]] + t[1..];
      assert t == tail;
    }
  }

  /** A text without the separator is a single piece. */
  lemma {:induction false} SplitFree(s: Text, sep: int)
    requires sep !in s
    ensures Split(s, sep) == [s]
    decreases |s|
  {
    if |s| > 0 {
      assert sep !in s[1..] by {
        assert forall k :: 0 <= k < |s[1..]| ==> s[1..][k] == s[k + 1];
      }
      SplitFree(s[1..], sep);
      assert [s[0]] + s[1..] == s;
    }
  }
}
