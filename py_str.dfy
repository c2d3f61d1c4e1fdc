/** Python's string operations that the tag-string builder relies on:
    `str.strip()`, `str.strip(chars)`, `str.split(sep)` for a one-character
    separator and `sep.join(pieces)`. */
module PyStr {

  /** Python's `str.isspace()` on one character: the ASCII controls tab to
      carriage return, the four information separators, space, and the
      Unicode spaces and line/paragraph separators. */
  predicate IsSpace(c: char) {
    || '\t' <= c <= '\r'
    || '\U{1C}' <= c <= ' '
    || c == '\U{85}' || c == '\U{A0}' || c == '\U{1680}'
    || '\U{2000}' <= c <= '\U{200A}'
    || c == '\U{2028}' || c == '\U{2029}' || c == '\U{202F}' || c == '\U{205F}'
    || c == '\U{3000}'
  }

  /** The characters `str.strip()` with no argument removes from both ends. */
  const Whitespace: set<char> := set c: char | '\t' <= c <= '\U{3000}' && IsSpace(c)

  /** Every character of `s` belongs to `cs` (true of the empty string). */
  predicate AllIn(s: string, cs: set<char>) {
    forall k :: 0 <= k < |s| ==> s[k] in cs
  }

  /** Python's `s.lstrip(cs)`: leading characters in `cs` are dropped. */
  function StripLeft(s: string, cs: set<char>): string {
    if s != [] && s[0] in cs then StripLeft(s[1..], cs) else s
  }

  /** Python's `s.rstrip(cs)`: trailing characters in `cs` are dropped. */
  function StripRight(s: string, cs: set<char>): string {
    if s != [] && s[|s| - 1] in cs then StripRight(s[..|s| - 1], cs) else s
  }

  /** Python's `s.strip(cs)`; `Strip(s, Whitespace)` is `s.strip()`. */
  function Strip(s: string, cs: set<char>): string {
    StripRight(StripLeft(s, cs), cs)
  }

  /** `lstrip` keeps a suffix of `s`; what it drops is made of `cs`
      characters, and what it keeps does not begin with one. */
  lemma {:induction false} StripLeftShape(s: string, cs: set<char>)
    ensures var t := StripLeft(s, cs);
      && |t| <= |s| && t == s[|s| - |t|..]
      && AllIn(s[..|s| - |t|], cs)
      && (t != [] ==> t[0] !in cs)
  {
    if s != [] && s[0] in cs {
      StripLeftShape(s[1..], cs);
      var t := StripLeft(s, cs);
      var d := s[..|s| - |t|];
      assert d == [s[0]] + s[1..][..|s| - 1 - |t|];
      AllInAppend([s[0]], s[1..][..|s| - 1 - |t|], cs);
    }
  }

  /** `rstrip` keeps a prefix of `s`; what it drops is made of `cs`
      characters, and what it keeps does not end with one. */
  lemma {:induction false} StripRightShape(s: string, cs: set<char>)
    ensures var t := StripRight(s, cs);
      && |t| <= |s| && t == s[..|t|]
      && AllIn(s[|t|..], cs)
      && (t != [] ==> t[|t| - 1] !in cs)
  {
    if s != [] && s[|s| - 1] in cs {
      var s' := s[..|s| - 1];
      StripRightShape(s', cs);
      var t := StripRight(s, cs);
      assert s[|t|..] == s'[|t|..] + [s[|s| - 1]];
      AllInAppend(s'[|t|..], [s[|s| - 1]], cs);
    }
  }

  /** A concatenation is made of `cs` characters exactly when both halves are. */
  lemma AllInAppend(a: string, b: string, cs: set<char>)
    ensures AllIn(a + b, cs) <==> AllIn(a, cs) && AllIn(b, cs)
  {
    if AllIn(a, cs) && AllIn(b, cs) {
      forall k | 0 <= k < |a + b| ensures (a + b)[k] in cs {
        if k >= |a| { assert (a + b)[k] == b[k - |a|]; }
      }
    }
    if AllIn(a + b, cs) {
      forall k | 0 <= k < |a| ensures a[k] in cs {
        assert (a + b)[k] == a[k];
      }
      forall k | 0 <= k < |b| ensures b[k] in cs {
        assert (a + b)[k + |a|] == b[k];
      }
    }
  }

  /** Python's `sep.join(ps)` for a one-character separator. */
  function Join(ps: seq<string>, sep: char): string {
    if |ps| == 0 then ""
    else if |ps| == 1 then ps[0]
    else ps[0] + [sep] + Join(ps[1..], sep)
  }

  /** The number of occurrences of `c` in `s`. */
  function Count(s: string, c: char): nat {
    if s == [] then 0 else (if s[0] == c then 1 else 0) + Count(s[1..], c)
  }

  /** Occurrences add up over a concatenation. */
  lemma {:induction false} CountAppend(a: string, b: string, c: char)
    ensures Count(a + b, c) == Count(a, c) + Count(b, c)
  {
    if a != [] {
      assert (a + b)[1..] == a[1..] + b;
      CountAppend(a[1..], b, c);
    } else {
      assert a + b == b;
    }
  }

  /** No piece of `ps` contains the character `c`. */
  predicate NoneContain(ps: seq<string>, c: char) {
    forall i :: 0 <= i < |ps| ==> c !in ps[i]
  }

  /** Python's `s.split(sep)` for a one-character separator: the pieces
      between successive separators, in order, empty pieces included, so
      that `"".split(",")` is `[""]` and `"a,,b".split(",")` is
      `["a", "", "b"]`. There is one more piece than there are separators,
      no piece contains the separator, and joining the pieces with the
      separator gives back `s`. */
  function Split(s: string, sep: char): (r: seq<string>)
    ensures |r| == Count(s, sep) + 1
    ensures NoneContain(r, sep)
    ensures Join(r, sep) == s
  {
    if s == [] then [""]
    else
      var rest := Split(s[1..], sep);
      if s[0] == sep then
        var r := [""] + rest;
        assert r[1..] == rest;
        r
      else
        var r := [[s[0]] + rest[0]] + rest[1..];
        assert r[1..] == rest[1..];
        assert sep !in rest[0];
        r
  }

  /** A piece without the separator splits to itself. */
  lemma {:induction false} SplitNoSep(p: string, sep: char)
    requires sep !in p
    ensures Split(p, sep) == [p]
  {
    if p != [] {
      SplitNoSep(p[1..], sep);
      assert [p[0]] + p[1..] == p;
    }
  }

  /** Splitting at the first separator peels off the piece before it. */
  lemma {:induction false} SplitCons(p: string, sep: char, s: string)
    requires sep !in p
    ensures Split(p + [sep] + s, sep) == [p] + Split(s, sep)
  {
    var t := p + [sep] + s;
    if p == [] {
      assert t[1..] == s;
    } else {
      assert t[1..] == p[1..] + [sep] + s;
      SplitCons(p[1..], sep, s);
      assert [p[0]] + p[1..] == p;
    }
  }

  /** `Split` inverts `Join` on separator-free pieces: the pieces of a
      joined string are the pieces that were joined. */
  lemma {:induction false} SplitJoin(ps: seq<string>, sep: char)
    requires |ps| >= 1
    requires NoneContain(ps, sep)
    ensures Split(Join(ps, sep), sep) == ps
  {
    if |ps| == 1 {
      SplitNoSep(ps[0], sep);
    } else {
      assert NoneContain(ps[1..], sep) by {
        forall i | 0 <= i < |ps| - 1 ensures sep !in ps[1..][i] {
          assert ps[1..][i] == ps[i + 1];
        }
      }
      SplitJoin(ps[1..], sep);
      SplitCons(ps[0], sep, Join(ps[1..], sep));
      assert [ps[0]] + ps[1..] == ps;
    }
  }

  /** Joining a concatenation puts one separator between the two joins
      when both halves are non-empty. */
  lemma {:induction false} JoinAppend(a: seq<string>, b: seq<string>, sep: char)
    ensures Join(a + b, sep) ==
      if a == [] then Join(b, sep)
      else if b == [] then Join(a, sep)
      else Join(a, sep) + [sep] + Join(b, sep)
  {
    if a == [] {
      assert a + b == b;
    } else if b == [] {
      assert a + b == a;
    } else if |a| == 1 {
      assert (a + b)[1..] == b;
    } else {
      assert (a + b)[1..] == a[1..] + b;
      JoinAppend(a[1..], b, sep);
    }
  }

  /** A suffix has no more occurrences of a character than the whole. */
  lemma CountSuffix(s: string, t: string, c: char)
    requires |t| <= |s| && t == s[|s| - |t|..]
    ensures Count(t, c) <= Count(s, c)
  {
    assert s == s[..|s| - |t|] + t;
    CountAppend(s[..|s| - |t|], t, c);
  }

  /** A prefix has no more occurrences of a character than the whole. */
  lemma CountPrefix(s: string, t: string, c: char)
    requires |t| <= |s| && t == s[..|t|]
    ensures Count(t, c) <= Count(s, c)
  {
    assert s == t + s[|t|..];
    CountAppend(t, s[|t|..], c);
  }

  /** `strip` keeps a slice of `s` with only `cs` characters around it. */
  lemma StripShape(s: string, cs: set<char>)
    ensures var l := StripLeft(s, cs);
      && |l| <= |s| && l == s[|s| - |l|..]
      && |Strip(s, cs)| <= |l| && Strip(s, cs) == l[..|Strip(s, cs)|]
  {
    StripLeftShape(s, cs);
    StripRightShape(StripLeft(s, cs), cs);
  }

  /** The stripped string is empty exactly when every character of `s` is
      in `cs`, and otherwise neither begins nor ends with a character of
      `cs`. */
  lemma StripEnds(s: string, cs: set<char>)
    ensures Strip(s, cs) == [] <==> AllIn(s, cs)
    ensures Strip(s, cs) != [] ==>
      Strip(s, cs)[0] !in cs && Strip(s, cs)[|Strip(s, cs)| - 1] !in cs
  {
    var l := StripLeft(s, cs);
    var r := Strip(s, cs);
    StripLeftShape(s, cs);
    StripRightShape(l, cs);
    assert s == s[..|s| - |l|] + l;
    AllInAppend(s[..|s| - |l|], l, cs);
    assert l == r + l[|r|..];
    AllInAppend(r, l[|r|..], cs);
    assert r != [] ==> r[0] == l[0];
    assert l != [] ==> l[0] == s[|s| - |l|];
  }

  /** Stripping never introduces a character: one absent from `s` is absent
      from `Strip(s, cs)`. */
  lemma StripAbsent(s: string, cs: set<char>, c: char)
    ensures c !in s ==> c !in Strip(s, cs)
  {
    StripShape(s, cs);
  }

  /** Stripping cannot add occurrences of a character. */
  lemma StripCount(s: string, cs: set<char>, c: char)
    ensures Count(Strip(s, cs), c) <= Count(s, c)
  {
    var l := StripLeft(s, cs);
    StripShape(s, cs);
    CountSuffix(s, l, c);
    CountPrefix(l, Strip(s, cs), c);
  }

  /** `lstrip` removes a leading run of `cs` characters up to the first
      character outside `cs`. */
  lemma {:induction false} StripLeftAround(pre: string, t: string, cs: set<char>)
    requires AllIn(pre, cs) && (t == [] || t[0] !in cs)
    ensures StripLeft(pre + t, cs) == t
  {
    if pre == [] {
      assert pre + t == t;
    } else {
      assert (pre + t)[1..] == pre[1..] + t;
      assert AllIn(pre[1..], cs) by {
        forall k | 0 <= k < |pre| - 1 ensures pre[1..][k] in cs {
          assert pre[1..][k] == pre[k + 1];
        }
      }
      StripLeftAround(pre[1..], t, cs);
    }
  }

  /** `rstrip` removes a trailing run of `cs` characters back to the last
      character outside `cs`. */
  lemma {:induction false} StripRightAround(t: string, post: string, cs: set<char>)
    requires AllIn(post, cs) && (t == [] || t[|t| - 1] !in cs)
    ensures StripRight(t + post, cs) == t
  {
    if post == [] {
      assert t + post == t;
    } else {
      var s := t + post;
      var post' := post[..|post| - 1];
      assert s[..|s| - 1] == t + post';
      assert AllIn(post', cs) by {
        forall k | 0 <= k < |post'| ensures post'[k] in cs {
          assert post'[k] == post[k];
        }
      }
      StripRightAround(t, post', cs);
    }
  }

  /** `strip` removes exactly the runs of `cs` characters around a core
      that begins and ends outside `cs`. */
  lemma StripAround(pre: string, w: string, post: string, cs: set<char>)
    requires AllIn(pre, cs) && AllIn(post, cs)
    requires w != [] && w[0] !in cs && w[|w| - 1] !in cs
    ensures Strip(pre + w + post, cs) == w
  {
    assert pre + w + post == pre + (w + post);
    assert (w + post)[0] == w[0];
    StripLeftAround(pre, w + post, cs);
    StripRightAround(w, post, cs);
  }
}
