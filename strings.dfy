/** The handful of Go `strings` functions the two bots use. */
module Strings {

  /** Index of the first `c` in `s`, or `|s|` when `s` holds none. */
  function IndexOf(s: string, c: char): (i: nat)
    ensures i <= |s|
  {
    if s == [] then 0
    else if s[0] == c then 0
    else 1 + IndexOf(s[1..], c)
  }

  /** `IndexOf` finds the first `c`: there is one at the index and none before it. */
  lemma {:induction false} IndexOfSpec(s: string, c: char)
    ensures IndexOf(s, c) < |s| ==> s[IndexOf(s, c)] == c
    ensures forall j :: 0 <= j < IndexOf(s, c) ==> s[j] != c
  {
    if s != [] && s[0] != c {
      IndexOfSpec(s[1..], c);
      assert forall j :: 1 <= j < |s| ==> s[j] == s[1..][j - 1];
    }
  }

  /** `strings.Split(s, string(sep))`: the pieces between the separators; an empty `s` gives `[""]`. */
  function Split(s: string, sep: char): (parts: seq<string>)
    ensures |parts| >= 1
    decreases |s|
  {
    var i := IndexOf(s, sep);
    if i == |s| then [s] else [s[..i]] + Split(s[i + 1..], sep)
  }

  /** No piece of a split holds the separator. */
  lemma {:induction false} SplitPieces(s: string, sep: char)
    ensures forall k :: 0 <= k < |Split(s, sep)| ==> sep !in Split(s, sep)[k]
    decreases |s|
  {
    var i := IndexOf(s, sep);
    IndexOfSpec(s, sep);
    if i < |s| {
      SplitPieces(s[i + 1..], sep);
      assert sep !in s[..i];
    }
  }

  /** `strings.Join(parts, sep)`. */
  function Join(parts: seq<string>, sep: string): (r: string)
    ensures parts != [] ==> parts[0] <= r
  {
    if parts == [] then ""
    else if |parts| == 1 then parts[0]
    else parts[0] + sep + Join(parts[1..], sep)
  }

  lemma JoinCons(a: string, t: seq<string>, sep: string)
    requires t != []
    ensures Join([a] + t, sep) == a + sep + Join(t, sep)
  {
    assert ([a] + t)[1..] == t;
  }

  /** Joining the pieces of a split with the separator gives the string back. */
  lemma {:induction false} JoinSplit(s: string, sep: char)
    ensures Join(Split(s, sep), [sep]) == s
    decreases |s|
  {
    var i := IndexOf(s, sep);
    IndexOfSpec(s, sep);
    if i < |s| {
      var rest := s[i + 1..];
      var t := Split(rest, sep);
      assert Split(s, sep) == [s[..i]] + t;
      JoinSplit(rest, sep);
      JoinCons(s[..i], t, [sep]);
      assert s == s[..i] + [sep] + rest;
    }
  }

  /** Joining with one more piece at the end appends the separator and that piece. */
  lemma {:induction false} JoinSnoc(init: seq<string>, x: string, sep: string)
    requires init != []
    ensures Join(init + [x], sep) == Join(init, sep) + sep + x
    decreases |init|
  {
    if |init| == 1 {
      assert (init + [x])[1..] == [x];
    } else {
      assert (init + [x])[1..] == init[1..] + [x];
      JoinSnoc(init[1..], x, sep);
    }
  }

  /** The first occurrence is the one index with the character there and none before it. */
  lemma IndexOfUnique(s: string, c: char, n: nat)
    requires n <= |s| && (n < |s| ==> s[n] == c)
    requires forall j :: 0 <= j < n ==> s[j] != c
    ensures IndexOf(s, c) == n
  {
    IndexOfSpec(s, c);
  }

  /** Splitting at a first separator: the piece before it, then the pieces of the rest. */
  lemma SplitAt(s: string, sep: char, i: nat)
    requires i < |s| && s[i] == sep && forall j :: 0 <= j < i ==> s[j] != sep
    ensures Split(s, sep) == [s[..i]] + Split(s[i + 1..], sep)
  {
    IndexOfUnique(s, sep, i);
  }

  /** Two pieces without the separator, joined by it, split back into the two. */
  lemma SplitTwo(p: string, sep: char, q: string)
    requires sep !in p && sep !in q
    ensures Split(p + [sep] + q, sep) == [p, q]
  {
    var s := p + [sep] + q;
    assert forall j :: 0 <= j < |p| ==> s[j] == p[j];
    SplitAt(s, sep, |p|);
    assert s[..|p|] == p;
    assert s[|p| + 1..] == q;
    IndexOfUnique(q, sep, |q|);
  }

  /** A last piece that holds no separator is split off whole. */
  lemma {:induction false} SplitAppend(p: string, sep: char, q: string)
    requires sep !in q
    ensures Split(p + [sep] + q, sep) == Split(p, sep) + [q]
    decreases |p|
  {
    var i := IndexOf(p, sep);
    IndexOfSpec(p, sep);
    if i == |p| {
      assert Split(p, sep) == [p];
      SplitTwo(p, sep, q);
    } else {
      var s := p + [sep] + q;
      var rest := p[i + 1..];
      assert s[..i] == p[..i] && s[i] == sep && s[i + 1..] == rest + [sep] + q;
      SplitAt(s, sep, i);
      SplitAt(p, sep, i);
      SplitAppend(rest, sep, q);
    }
  }

  /** ASCII case folding; Go's `strings.ToLower` also folds the rest of Unicode. */
  function LowerChar(c: char): char
  {
    if 'A' <= c <= 'Z' then (c as int + 32) as char else c
  }

  function Lower(s: string): (r: string)
    ensures |r| == |s|
    ensures forall i :: 0 <= i < |r| ==> !('A' <= r[i] <= 'Z')
    ensures forall i :: 0 <= i < |s| && !('A' <= s[i] <= 'Z') ==> r[i] == s[i]
  {
    seq(|s|, i requires 0 <= i < |s| => LowerChar(s[i]))
  }
}
