/**
 * The string built-ins the iterator relies on: `str.strip()` without an
 * argument, `str.split(sep)` with an explicit one-character separator, and its
 * inverse `sep.join(...)`.  Strings are sequences of Unicode code points.
 */
module Text {

  /** Python's notion of whitespace for `str.strip()` and `Decimal()`: the
      code points whose bidirectional class is WS, B or S, or whose general
      category is Zs.  (`int()` skips a smaller set; see `Integers`.) */
  const Whitespace: set<char> := {
    '\U{9}', '\U{A}', '\U{B}', '\U{C}', '\U{D}',
    '\U{1C}', '\U{1D}', '\U{1E}', '\U{1F}', '\U{20}',
    '\U{85}', '\U{A0}', '\U{1680}',
    '\U{2000}', '\U{2001}', '\U{2002}', '\U{2003}', '\U{2004}', '\U{2005}',
    '\U{2006}', '\U{2007}', '\U{2008}', '\U{2009}', '\U{200A}',
    '\U{2028}', '\U{2029}', '\U{202F}', '\U{205F}', '\U{3000}'
  }

  predicate IsSpace(c: char) {
    c in Whitespace
  }

  predicate AllSpace(s: string) {
    AllIn(s, Whitespace)
  }

  /** What `strip()` leaves behind: no whitespace at either end. */
  predicate NoEdgeSpace(s: string) {
    NoEdge(s, Whitespace)
  }

  /** Every character of `s` belongs to `ws`. */
  predicate AllIn(s: string, ws: set<char>) {
    forall i :: 0 <= i < |s| ==> s[i] in ws
  }

  /** Neither end of `s` belongs to `ws`. */
  predicate NoEdge(s: string, ws: set<char>) {
    |s| == 0 || (s[0] !in ws && s[|s| - 1] !in ws)
  }

  /** Drops the characters of `ws` at the start; what is left is a suffix of
      `s` that is empty or starts with a character outside `ws`. */
  function TrimStart(s: string, ws: set<char>): (r: string)
    ensures |r| <= |s| && r == s[|s| - |r|..]
    ensures |r| == 0 || r[0] !in ws
  {
    if |s| > 0 && s[0] in ws then TrimStart(s[1..], ws) else s
  }

  /** Drops the characters of `ws` at the end; what is left is a prefix of
      `s` that is empty or ends with a character outside `ws`. */
  function TrimEnd(s: string, ws: set<char>): (r: string)
    ensures |r| <= |s| && r == s[..|r|]
    ensures |r| == 0 || r[|r| - 1] !in ws
  {
    if |s| > 0 && s[|s| - 1] in ws then TrimEnd(s[..|s| - 1], ws) else s
  }

  /** The characters of `ws` removed from both ends. */
  function Trim(s: string, ws: set<char>): (r: string)
    ensures NoEdge(r, ws)
  {
    var e := TrimEnd(s, ws);
    var r := TrimStart(e, ws);
    assert |r| > 0 ==> r[|r| - 1] == e[|e| - 1];
    r
  }

  /** `s.strip()`: whitespace removed from both ends. */
  function Strip(s: string): (r: string)
    ensures NoEdgeSpace(r)
  {
    Trim(s, Whitespace)
  }

  lemma AllInAppend(a: string, b: string, ws: set<char>)
    requires AllIn(a, ws) && AllIn(b, ws)
    ensures AllIn(a + b, ws)
  {
  }

  /** A prefix from `ws` is dropped by `TrimStart`. */
  lemma {:induction false} TrimStartSpace(l: string, x: string, ws: set<char>)
    requires AllIn(l, ws)
    ensures TrimStart(l + x, ws) == TrimStart(x, ws)
  {
    if |l| > 0 {
      assert (l + x)[1..] == l[1..] + x;
      TrimStartSpace(l[1..], x, ws);
    } else {
      assert l + x == x;
    }
  }

  /** A suffix from `ws` is dropped by `TrimEnd`. */
  lemma {:induction false} TrimEndSpace(x: string, t: string, ws: set<char>)
    requires AllIn(t, ws)
    ensures TrimEnd(x + t, ws) == TrimEnd(x, ws)
  {
    if |t| > 0 {
      assert (x + t)[..|x + t| - 1] == x + t[..|t| - 1];
      TrimEndSpace(x, t[..|t| - 1], ws);
    } else {
      assert x + t == x;
    }
  }

  /** `TrimEnd` of `l + s` keeps `l` whole when `s` is not all from `ws`. */
  lemma {:induction false} TrimEndPrefix(l: string, s: string, ws: set<char>)
    requires !AllIn(s, ws)
    ensures TrimEnd(l + s, ws) == l + TrimEnd(s, ws)
  {
    var x := l + s;
    if s[|s| - 1] in ws {
      var s' := s[..|s| - 1];
      assert !AllIn(s', ws) by {
        var i :| 0 <= i < |s| && s[i] !in ws;
        assert s'[i] == s[i];
      }
      assert x[..|x| - 1] == l + s';
      TrimEndPrefix(l, s', ws);
    }
  }

  lemma TrimEndAllSpace(s: string, ws: set<char>)
    requires AllIn(s, ws)
    ensures TrimEnd(s, ws) == []
  {
    TrimEndSpace([], s, ws);
    assert [] + s == s;
  }

  /** Characters of `ws` added around a string do not change its trimmed
      form; for Python's whitespace, `(l + s + t).strip() == s.strip()`. */
  lemma TrimAbsorbsSpace(l: string, s: string, t: string, ws: set<char>)
    requires AllIn(l, ws) && AllIn(t, ws)
    ensures Trim(l + s + t, ws) == Trim(s, ws)
  {
    TrimEndSpace(l + s, t, ws);
    if AllIn(s, ws) {
      AllInAppend(l, s, ws);
      TrimEndAllSpace(l + s, ws);
      TrimEndAllSpace(s, ws);
    } else {
      TrimEndPrefix(l, s, ws);
      TrimStartSpace(l, TrimEnd(s, ws), ws);
    }
  }

  lemma TrimStripped(s: string, ws: set<char>)
    requires NoEdge(s, ws)
    ensures Trim(s, ws) == s
  {
  }

  /** Trimming undoes any padding from `ws` around an already trimmed
      string: `(l + m + t).strip() == m`. */
  lemma TrimUnique(l: string, m: string, t: string, ws: set<char>)
    requires AllIn(l, ws) && AllIn(t, ws) && NoEdge(m, ws)
    ensures Trim(l + m + t, ws) == m
  {
    TrimAbsorbsSpace(l, m, t, ws);
    TrimStripped(m, ws);
  }

  /** What `TrimStart` drops is from `ws`. */
  lemma {:induction false} TrimStartDropsSpace(s: string, ws: set<char>)
    ensures AllIn(s[..|s| - |TrimStart(s, ws)|], ws)
  {
    if |s| > 0 && s[0] in ws {
      TrimStartDropsSpace(s[1..], ws);
      var k := |s| - |TrimStart(s, ws)|;
      assert forall i :: 1 <= i < k ==> s[..k][i] == s[1..][..k - 1][i - 1];
    }
  }

  /** What `TrimEnd` drops is from `ws`. */
  lemma {:induction false} TrimEndDropsSpace(s: string, ws: set<char>)
    ensures AllIn(s[|TrimEnd(s, ws)|..], ws)
  {
    if |s| > 0 && s[|s| - 1] in ws {
      var s' := s[..|s| - 1];
      TrimEndDropsSpace(s', ws);
      var k := |TrimEnd(s, ws)|;
      assert forall i :: k <= i < |s| - 1 ==> s[i] == s'[k..][i - k];
    }
  }

  /** Trimming keeps a contiguous piece of `s` and drops only characters of
      `ws` around it: `s == lead + s.strip() + trail` with both ends
      whitespace. */
  lemma TrimKeepsMiddle(s: string, ws: set<char>)
    ensures var r, k := Trim(s, ws), |TrimEnd(s, ws)| - |Trim(s, ws)|;
      && k + |r| <= |s|
      && AllIn(s[..k], ws)
      && s[k..k + |r|] == r
      && AllIn(s[k + |r|..], ws)
  {
    var e := TrimEnd(s, ws);
    TrimEndDropsSpace(s, ws);
    TrimStartDropsSpace(e, ws);
    MiddleSlices(s, e, TrimStart(e, ws), ws);
  }

  /** `s` is a prefix `e` and a tail from `ws`, and `e` is a head from `ws`
      and a suffix `r`: so `s` is head, `r`, tail. */
  lemma MiddleSlices(s: string, e: string, r: string, ws: set<char>)
    requires |e| <= |s| && e == s[..|e|] && AllIn(s[|e|..], ws)
    requires |r| <= |e| && r == e[|e| - |r|..] && AllIn(e[..|e| - |r|], ws)
    ensures var k := |e| - |r|;
      && k + |r| <= |s|
      && AllIn(s[..k], ws)
      && s[k..k + |r|] == r
      && AllIn(s[k + |r|..], ws)
  {
    var k := |e| - |r|;
    assert s[..k] == e[..k];
    assert s[k..k + |r|] == e[k..];
  }

  /** Trimming twice is trimming once. */
  lemma TrimIdempotent(s: string, ws: set<char>)
    ensures Trim(Trim(s, ws), ws) == Trim(s, ws)
  {
    TrimStripped(Trim(s, ws), ws);
  }

  /** Number of occurrences of `c` in `s`. */
  function Count(s: string, c: char): (n: nat)
    ensures n <= |s|
    ensures n == 0 <==> c !in s
  {
    if |s| == 0 then 0
    else (if s[0] == c then 1 else 0) + Count(s[1..], c)
  }

  /** `sep.join(parts)`. */
  function Join(parts: seq<string>, sep: char): string {
    if |parts| == 0 then []
    else if |parts| == 1 then parts[0]
    else parts[0] + [sep] + Join(parts[1..], sep)
  }

  /** `s.split(sep)`: no quoting, no merging of adjacent separators, and an
      empty string splits into one empty part; there is one more part than
      there are separators. */
  function Split(s: string, sep: char): (parts: seq<string>)
    ensures |parts| == Count(s, sep) + 1
  {
    if |s| == 0 then
      [[]]
    else
      var rest := Split(s[1..], sep);
      if s[0] == sep then [[]] + rest else [[s[0]] + rest[0]] + rest[1..]
  }

  /** `"".split(sep) == [""]`. */
  lemma SplitEmpty(sep: char)
    ensures Split([], sep) == [[]]
  {
  }

  /** No part of a split contains the separator. */
  lemma {:induction false} SplitPartsFree(s: string, sep: char)
    ensures forall i :: 0 <= i < |Split(s, sep)| ==> sep !in Split(s, sep)[i]
  {
    if |s| > 0 {
      SplitPartsFree(s[1..], sep);
      var rest := Split(s[1..], sep);
      if s[0] != sep {
        assert sep !in [s[0]] + rest[0];
        assert forall i :: 1 <= i < |Split(s, sep)| ==> Split(s, sep)[i] == rest[i];
      } else {
        assert forall i :: 1 <= i < |Split(s, sep)| ==> Split(s, sep)[i] == rest[i - 1];
      }
    }
  }

  /** Joining the parts of a split gives the string back:
      `sep.join(s.split(sep)) == s`. */
  lemma {:induction false} JoinSplit(s: string, sep: char)
    ensures Join(Split(s, sep), sep) == s
  {
    if |s| > 0 {
      var c, u := s[0], s[1..];
      assert s == [c] + u;
      JoinSplit(u, sep);
      SplitCons(c, u, sep);
      JoinCons(c, Split(u, sep), sep);
    }
  }

  /** Joining after one unfolding of `Split` puts the first character back. */
  lemma JoinCons(c: char, rest: seq<string>, sep: char)
    requires |rest| >= 1
    ensures Join(if c == sep then [[]] + rest else [[c] + rest[0]] + rest[1..], sep) == [c] + Join(rest, sep)
  {
    if c == sep {
      assert ([[]] + rest)[1..] == rest;
    } else {
      var parts := [[c] + rest[0]] + rest[1..];
      assert parts[1..] == rest[1..];
    }
  }

  /** A string without the separator splits into itself. */
  lemma {:induction false} SplitNoSeparator(s: string, sep: char)
    requires sep !in s
    ensures Split(s, sep) == [s]
  {
    if |s| > 0 {
      assert sep !in s[1..];
      SplitNoSeparator(s[1..], sep);
      assert [s[0]] + s[1..] == s;
    }
  }

  /** Splitting distributes over a separator occurrence. */
  lemma {:induction false} SplitAppend(a: string, b: string, sep: char)
    ensures Split(a + [sep] + b, sep) == Split(a, sep) + Split(b, sep)
  {
    if |a| == 0 {
      assert a + [sep] + b == [sep] + b;
      assert ([sep] + b)[1..] == b;
    } else {
      var c, u := a[0], a[1..];
      assert a == [c] + u;
      SplitAppend(u, b, sep);
      if c == sep {
        SplitAppendSeparator(c, u, b, sep);
      } else {
        SplitAppendOther(c, u, b, sep);
      }
    }
  }

  lemma SplitAppendSeparator(c: char, u: string, b: string, sep: char)
    requires c == sep
    requires Split(u + [sep] + b, sep) == Split(u, sep) + Split(b, sep)
    ensures Split([c] + u + [sep] + b, sep) == Split([c] + u, sep) + Split(b, sep)
  {
    var y := u + [sep] + b;
    Regroup([c], u, [sep], b);
    SplitCons(c, y, sep);
    SplitCons(c, u, sep);
    ConsAssoc([], Split(u, sep), Split(b, sep));
  }

  lemma SplitAppendOther(c: char, u: string, b: string, sep: char)
    requires c != sep
    requires Split(u + [sep] + b, sep) == Split(u, sep) + Split(b, sep)
    ensures Split([c] + u + [sep] + b, sep) == Split([c] + u, sep) + Split(b, sep)
  {
    var y := u + [sep] + b;
    Regroup([c], u, [sep], b);
    SplitCons(c, y, sep);
    SplitCons(c, u, sep);
    ExtendHead([c], Split(y, sep), Split(u, sep), Split(b, sep));
  }

  lemma Regroup<T>(p: seq<T>, q: seq<T>, r: seq<T>, t: seq<T>)
    ensures p + q + r + t == p + (q + r + t)
  {
  }

  /** Prefixing the first part of a concatenation of parts. */
  lemma ExtendHead<T>(h: seq<T>, ys: seq<seq<T>>, ps: seq<seq<T>>, qs: seq<seq<T>>)
    requires |ps| > 0 && ys == ps + qs
    ensures [h + ys[0]] + ys[1..] == ([h + ps[0]] + ps[1..]) + qs
  {
    assert ys[0] == ps[0];
    assert ys[1..] == ps[1..] + qs;
  }

  lemma ConsAssoc<T>(h: T, p: seq<T>, q: seq<T>)
    ensures [h] + (p + q) == ([h] + p) + q
  {
  }

  /** One unfolding of `Split` on a string with a known first character. */
  lemma SplitCons(c: char, y: string, sep: char)
    ensures Split([c] + y, sep) ==
      if c == sep then [[]] + Split(y, sep)
      else [[c] + Split(y, sep)[0]] + Split(y, sep)[1..]
  {
    assert ([c] + y)[1..] == y;
  }

  /** The parts of a split are the only separator-free parts that join back to
      the string: `sep.join(parts).split(sep) == parts`. */
  lemma {:induction false} SplitJoin(parts: seq<string>, sep: char)
    requires |parts| >= 1
    requires forall i :: 0 <= i < |parts| ==> sep !in parts[i]
    ensures Split(Join(parts, sep), sep) == parts
  {
    if |parts| == 1 {
      SplitNoSeparator(parts[0], sep);
    } else {
      SplitJoin(parts[1..], sep);
      SplitAppend(parts[0], Join(parts[1..], sep), sep);
      SplitNoSeparator(parts[0], sep);
      assert parts == [parts[0]] + parts[1..];
    }
  }

  /** Joining a concatenation of two non-empty part lists puts one separator
      between the two joined halves. */
  lemma {:induction false} JoinAppend(a: seq<string>, b: seq<string>, sep: char)
    requires |a| >= 1 && |b| >= 1
    ensures Join(a + b, sep) == Join(a, sep) + [sep] + Join(b, sep)
  {
    if |a| == 1 {
      assert (a + b)[1..] == b;
    } else {
      assert (a + b)[1..] == a[1..] + b;
      JoinAppend(a[1..], b, sep);
    }
  }

  /** A character that is neither the separator nor in any part is not in
      the joined string. */
  lemma {:induction false} JoinAvoids(parts: seq<string>, sep: char, c: char)
    requires c != sep
    requires forall i :: 0 <= i < |parts| ==> c !in parts[i]
    ensures c !in Join(parts, sep)
  {
    if |parts| > 1 {
      JoinAvoids(parts[1..], sep, c);
      assert c !in parts[0] + [sep];
    }
  }
}
