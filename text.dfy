/** Python string operations that the converter relies on, with their laws. */
module Text {

  /** `s.split(c)` for a one-character separator: every separator cuts, empty pieces are kept. */
  function Split(s: string, c: char): (r: seq<string>)
    ensures |r| >= 1
    ensures forall i :: 0 <= i < |r| ==> c !in r[i]
  {
    if s == [] then [[]]
    else
      var rest := Split(s[1..], c);
      if s[0] == c then [[]] + rest
      else [[s[0]] + rest[0]] + rest[1..]
  }

  /** `c.join(ps)` for a one-character separator. */
  function Join(ps: seq<string>, c: char): string
  {
    if ps == [] then []
    else if |ps| == 1 then ps[0]
    else ps[0] + [c] + Join(ps[1..], c)
  }

  /** Joining four pieces, written out. */
  lemma JoinFour(a: string, b: string, d: string, e: string, c: char)
    ensures Join([a, b, d, e], c) == a + [c] + b + [c] + d + [c] + e
  {
    assert [d, e][1..] == [e];
    assert Join([d, e], c) == d + [c] + e;
    assert [b, d, e][1..] == [d, e];
    assert Join([b, d, e], c) == b + [c] + (d + [c] + e);
    assert [a, b, d, e][1..] == [b, d, e];
    assert Join([a, b, d, e], c) == a + [c] + (b + [c] + (d + [c] + e));
  }

  /** `s[:n]` for n >= 0: Python clamps the bound instead of failing. */
  function Prefix(s: string, n: nat): (r: string)
    ensures |r| <= n && |r| <= |s| && r == s[..|r|]
    ensures |r| == if |s| <= n then |s| else n
  {
    if |s| <= n then s else s[..n]
  }

  /** `s[n:]` for n >= 0. */
  function Drop(s: string, n: nat): (r: string)
    ensures |s| >= n ==> r == s[n..]
    ensures |s| <= n ==> r == []
  {
    if |s| <= n then [] else s[n..]
  }

  /** Every occurrence of `a` in `s` replaced by `b` (an independent description of split-then-join). */
  function Replace(s: string, a: char, b: char): (r: string)
    ensures |r| == |s|
    ensures forall i :: 0 <= i < |s| ==> r[i] == (if s[i] == a then b else s[i])
  {
    seq(|s|, i requires 0 <= i < |s| => if s[i] == a then b else s[i])
  }

  lemma {:induction false} SplitWithout(s: string, c: char)
    requires c !in s
    ensures Split(s, c) == [s]
  {
    if s != [] {
      SplitWithout(s[1..], c);
      assert [s[0]] + s[1..] == s;
    }
  }

  /** The first piece of a split is the text before the first separator. */
  lemma {:induction false} FirstPiece(s: string, c: char)
    ensures var p := Split(s, c)[0];
      |p| <= |s| && p == s[..|p|] && (p == s <==> c !in s) && (p != s ==> s[|p|] == c)
  {
    if s != [] && s[0] != c {
      FirstPiece(s[1..], c);
      assert [s[0]] + s[1..] == s;
    }
  }

  /** Splitting at the first separator: what follows it is split independently. */
  lemma {:induction false} SplitAtFirst(a: string, c: char, b: string)
    requires c !in a
    ensures Split(a + [c] + b, c) == [a] + Split(b, c)
  {
    if a == [] {
      assert a + [c] + b == [c] + b;
      assert ([c] + b)[1..] == b;
    } else {
      var s := a + [c] + b;
      assert s[0] == a[0] && s[1..] == a[1..] + [c] + b;
      SplitAtFirst(a[1..], c, b);
      assert [a[0]] + a[1..] == a;
    }
  }

  /** Joining the pieces of a split gives back the original text. */
  lemma {:induction false} JoinSplit(s: string, c: char)
    ensures Join(Split(s, c), c) == s
  {
    if s != [] {
      var rest := Split(s[1..], c);
      JoinSplit(s[1..], c);
      if s[0] == c {
        assert Split(s, c) == [[]] + rest;
        assert ([[]] + rest)[1..] == rest;
        assert [] + [c] + s[1..] == s;
      } else {
        assert Split(s, c) == [[s[0]] + rest[0]] + rest[1..];
        JoinExtendFirst(s[0], rest, c);
        assert [s[0]] + s[1..] == s;
      }
    }
  }

  /** Putting a character in front of the first piece puts it in front of the join. */
  lemma JoinExtendFirst(x: char, ps: seq<string>, c: char)
    requires |ps| >= 1
    ensures Join([[x] + ps[0]] + ps[1..], c) == [x] + Join(ps, c)
  {
    var r := [[x] + ps[0]] + ps[1..];
    if |ps| > 1 {
      assert r[1..] == ps[1..];
      assert Join(r, c) == [x] + ps[0] + [c] + Join(ps[1..], c);
    }
  }

  /** Splitting a join of separator-free pieces gives back the pieces. */
  lemma {:induction false} SplitJoin(ps: seq<string>, c: char)
    requires |ps| >= 1
    requires forall i :: 0 <= i < |ps| ==> c !in ps[i]
    ensures Split(Join(ps, c), c) == ps
  {
    if |ps| == 1 {
      SplitWithout(ps[0], c);
    } else {
      SplitJoin(ps[1..], c);
      SplitAtFirst(ps[0], c, Join(ps[1..], c));
      assert [ps[0]] + ps[1..] == ps;
    }
  }

  /** Splitting on one character and joining with another is a character-wise replacement. */
  /** Replacing in a non-empty text: the first character, then the rest. */
  lemma ReplaceFirst(s: string, a: char, b: char)
    requires s != []
    ensures Replace(s, a, b) == [if s[0] == a then b else s[0]] + Replace(s[1..], a, b)
  {
    var r, tail := Replace(s, a, b), Replace(s[1..], a, b);
    assert forall i :: 1 <= i < |s| ==> r[i] == tail[i - 1];
  }

  lemma {:induction false} JoinSplitIsReplace(s: string, a: char, b: char)
    ensures Join(Split(s, a), b) == Replace(s, a, b)
  {
    if s != [] {
      var rest := Split(s[1..], a);
      JoinSplitIsReplace(s[1..], a, b);
      var r := Split(s, a);
      ReplaceFirst(s, a, b);
      if s[0] == a {
        assert r == [[]] + rest;
        assert r[1..] == rest;
      } else {
        assert r == [[s[0]] + rest[0]] + rest[1..];
        JoinExtendFirst(s[0], rest, b);
      }
    }
  }
}
