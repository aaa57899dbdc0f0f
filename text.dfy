/** The three Python string operations the genotype parser relies on:
    `str.strip()` with no argument, `str.split(sep)` with a one-character
    separator, and `sep.join(parts)`. */
module Text {

  /** Python's `str.isspace()` for one character: the code points that
      `str.strip()` removes when it is given no argument. */
  predicate IsSpace(c: char)
  {
    var n := c as int;
    (9 <= n <= 13) || (28 <= n <= 32) || n == 0x85 || n == 0xA0 || n == 0x1680
    || (0x2000 <= n <= 0x200A) || n == 0x2028 || n == 0x2029 || n == 0x202F
    || n == 0x205F || n == 0x3000
  }

  predicate AllSpace(s: string)
  {
    forall i :: 0 <= i < |s| ==> IsSpace(s[i])
  }

  /** `s.lstrip()`. */
  function TrimStart(s: string): string
    decreases |s|
  {
    if |s| > 0 && IsSpace(s[0]) then TrimStart(s[1..]) else s
  }

  /** `s.rstrip()`. */
  function TrimEnd(s: string): string
    decreases |s|
  {
    if |s| > 0 && IsSpace(s[|s| - 1]) then TrimEnd(s[..|s| - 1]) else s
  }

  /** `s.strip()`. */
  function Strip(s: string): string
  {
    TrimEnd(TrimStart(s))
  }

  /** `lstrip()` drops the longest all-whitespace prefix and nothing else. */
  lemma {:induction false} TrimStartSpec(s: string)
    ensures var r := TrimStart(s);
      |r| <= |s| && r == s[|s| - |r|..] && AllSpace(s[..|s| - |r|])
      && (r == [] || !IsSpace(r[0]))
    decreases |s|
  {
    if |s| > 0 && IsSpace(s[0]) {
      TrimStartSpec(s[1..]);
      var r := TrimStart(s[1..]);
      assert s[..|s| - |r|] == [s[0]] + s[1..][..|s| - 1 - |r|];
    }
  }

  /** `rstrip()` drops the longest all-whitespace suffix and nothing else. */
  lemma {:induction false} TrimEndSpec(s: string)
    ensures var r := TrimEnd(s);
      |r| <= |s| && r == s[..|r|] && AllSpace(s[|r|..])
      && (r == [] || !IsSpace(r[|r| - 1]))
    decreases |s|
  {
    if |s| > 0 && IsSpace(s[|s| - 1]) {
      TrimEndSpec(s[..|s| - 1]);
      var r := TrimEnd(s[..|s| - 1]);
      assert s[|r|..] == s[..|s| - 1][|r|..] + [s[|s| - 1]];
    }
  }

  /** `strip()` returns a slice of its input with only whitespace cut off
      on either side, and neither end of that slice is whitespace. */
  lemma StripSpec(s: string)
    ensures var r := Strip(s); r == [] || (!IsSpace(r[0]) && !IsSpace(r[|r| - 1]))
    ensures var r := Strip(s); exists i, j :: 0 <= i <= j <= |s| && r == s[i..j] && AllSpace(s[..i]) && AllSpace(s[j..])
  {
    var t := TrimStart(s);
    var r := Strip(s);
    TrimStartSpec(s);
    TrimEndSpec(t);
    var i := |s| - |t|;
    var j := i + |r|;
    assert r == s[i..j];
    assert s[j..] == t[|r|..];
  }

  /** `[p.strip() for p in ps]`. */
  function StripAll(ps: seq<string>): (r: seq<string>)
    ensures |r| == |ps|
    ensures forall i :: 0 <= i < |ps| ==> r[i] == Strip(ps[i])
  {
    seq(|ps|, i requires 0 <= i < |ps| => Strip(ps[i]))
  }

  /** `s.split(sep)`: the pieces between occurrences of `sep`; one more piece
      than there are separators, none of them containing `sep`. */
  function Split(s: string, sep: char): (r: seq<string>)
    ensures |r| >= 1
    decreases |s|
  {
    if s == [] then [""]
    else if s[0] == sep then [""] + Split(s[1..], sep)
    else
      var rest := Split(s[1..], sep);
      [[s[0]] + rest[0]] + rest[1..]
  }

  /** No piece of a split holds the separator, and a string that holds the
      separator splits into at least two pieces. */
  lemma {:induction false} SplitPieces(s: string, sep: char)
    ensures forall p :: p in Split(s, sep) ==> sep !in p
    ensures sep in s ==> |Split(s, sep)| >= 2
    decreases |s|
  {
    if s != [] {
      SplitPieces(s[1..], sep);
      var rest := Split(s[1..], sep);
      assert rest[0] in rest;
      assert forall p :: p in rest[1..] ==> p in rest;
      if s[0] != sep {
        assert sep in s ==> sep in s[1..] by {
          if sep in s {
            var i :| 0 <= i < |s| && s[i] == sep;
            assert s[1..][i - 1] == sep;
          }
        }
      }
    }
  }

  /** `sep.join(ps)`. */
  function Join(ps: seq<string>, sep: char): string
    decreases |ps|
  {
    if ps == [] then ""
    else if |ps| == 1 then ps[0]
    else ps[0] + [sep] + Join(ps[1..], sep)
  }

  // ---------------------------------------------------------------------
  // Split and Join undo each other.

  /** Splitting after a separator-free prefix glues that prefix to the first piece. */
  lemma {:induction false} SplitPrefix(u: string, w: string, sep: char)
    requires sep !in u
    ensures Split(u + w, sep) == [u + Split(w, sep)[0]] + Split(w, sep)[1..]
    decreases |u|
  {
    if u != [] {
      assert u[0] in u && (u + w)[0] == u[0];
      assert (u + w)[1..] == u[1..] + w;
      SplitPrefix(u[1..], w, sep);
      var p := Split(w, sep);
      var r := Split(u[1..] + w, sep);
      assert Split(u + w, sep) == [[u[0]] + r[0]] + r[1..];
      assert r[0] == u[1..] + p[0] && r[1..] == p[1..];
      assert [u[0]] + (u[1..] + p[0]) == u + p[0];
    } else {
      var p := Split(w, sep);
      assert u + w == w && u + p[0] == p[0] && p == [p[0]] + p[1..];
    }
  }

  /** One step of `Split`, for a string that starts with the separator. */
  lemma SplitConsSep(x: string, sep: char)
    ensures Split([sep] + x, sep) == [""] + Split(x, sep)
  {
    assert ([sep] + x)[1..] == x;
  }

  /** One step of `Split`, for a string that starts with another character. */
  lemma SplitConsOther(c: char, x: string, sep: char)
    requires c != sep
    ensures Split([c] + x, sep) == [[c] + Split(x, sep)[0]] + Split(x, sep)[1..]
  {
    assert ([c] + x)[1..] == x;
  }

  /** The suffix property of `SplitSuffix` for `[sep] + x`, given it for `x`. */
  lemma SplitSuffixAfterSep(x: string, v: string, sep: char)
    requires var p := Split(x, sep); Split(x + v, sep) == p[..|p| - 1] + [p[|p| - 1] + v]
    ensures var p := Split([sep] + x, sep);
      Split([sep] + x + v, sep) == p[..|p| - 1] + [p[|p| - 1] + v]
  {
    var p := Split(x, sep);
    var n := |p|;
    SplitConsSep(x, sep);
    assert [sep] + x + v == [sep] + (x + v);
    SplitConsSep(x + v, sep);
    assert ([""] + p)[..n] == [""] + p[..n - 1];
  }

  /** The suffix property of `SplitSuffix` for `[c] + x`, given it for `x`. */
  lemma SplitSuffixAfterOther(c: char, x: string, v: string, sep: char)
    requires c != sep
    requires var p := Split(x, sep); Split(x + v, sep) == p[..|p| - 1] + [p[|p| - 1] + v]
    ensures var p := Split([c] + x, sep);
      Split([c] + x + v, sep) == p[..|p| - 1] + [p[|p| - 1] + v]
  {
    var p := Split(x, sep);
    var n := |p|;
    var q := Split(x + v, sep);
    SplitConsOther(c, x, sep);
    assert [c] + x + v == [c] + (x + v);
    SplitConsOther(c, x + v, sep);
    if n == 1 {
      assert [c] + (p[0] + v) == [c] + p[0] + v;
    } else {
      assert q[0] == p[0] && q[1..] == p[1..n - 1] + [p[n - 1] + v];
      assert ([[c] + p[0]] + p[1..])[..n - 1] == [[c] + p[0]] + p[1..n - 1];
    }
  }

  /** Splitting before a separator-free suffix glues that suffix to the last piece. */
  lemma {:induction false} SplitSuffix(w: string, v: string, sep: char)
    requires sep !in v
    ensures var p := Split(w, sep);
      Split(w + v, sep) == p[..|p| - 1] + [p[|p| - 1] + v]
    decreases |w|
  {
    if w == [] {
      SplitNoSeparator(v, sep);
      assert w + v == v && [] + v == v;
    } else {
      assert w == [w[0]] + w[1..];
      SplitSuffix(w[1..], v, sep);
      if w[0] == sep {
        SplitSuffixAfterSep(w[1..], v, sep);
      } else {
        SplitSuffixAfterOther(w[0], w[1..], v, sep);
      }
    }
  }

  lemma SplitNoSeparator(v: string, sep: char)
    requires sep !in v
    ensures Split(v, sep) == [v]
  {
    SplitPrefix(v, [], sep);
    assert v + [] == v;
    assert Split([], sep) == [""];
  }

  /** The round trip of `JoinSplit` for `[sep] + x`, given it for `x`. */
  lemma JoinSplitAfterSep(x: string, sep: char)
    requires Join(Split(x, sep), sep) == x
    ensures Join(Split([sep] + x, sep), sep) == [sep] + x
  {
    var rest := Split(x, sep);
    assert ([sep] + x)[1..] == x;
    assert Split([sep] + x, sep) == [""] + rest;
    assert ([""] + rest)[1..] == rest;
    assert Join([""] + rest, sep) == "" + [sep] + Join(rest, sep);
  }

  /** The round trip of `JoinSplit` for `[c] + x`, given it for `x`. */
  lemma JoinSplitAfterOther(c: char, x: string, sep: char)
    requires c != sep && Join(Split(x, sep), sep) == x
    ensures Join(Split([c] + x, sep), sep) == [c] + x
  {
    var rest := Split(x, sep);
    assert ([c] + x)[1..] == x;
    var ps := [[c] + rest[0]] + rest[1..];
    assert Split([c] + x, sep) == ps;
    if |rest| == 1 {
      assert Join(ps, sep) == [c] + rest[0];
    } else {
      assert ps[1..] == rest[1..];
      assert Join(ps, sep) == [c] + rest[0] + [sep] + Join(rest[1..], sep);
      assert Join(rest, sep) == rest[0] + [sep] + Join(rest[1..], sep);
    }
  }

  /** Joining the pieces of a split gives back the original string. */
  lemma {:induction false} JoinSplit(s: string, sep: char)
    ensures Join(Split(s, sep), sep) == s
    decreases |s|
  {
    if s != [] {
      JoinSplit(s[1..], sep);
      assert s == [s[0]] + s[1..];
      if s[0] == sep {
        JoinSplitAfterSep(s[1..], sep);
      } else {
        JoinSplitAfterOther(s[0], s[1..], sep);
      }
    }
  }

  /** Splitting a join of separator-free pieces gives back the pieces. */
  lemma {:induction false} SplitJoin(ps: seq<string>, sep: char)
    requires |ps| >= 1
    requires forall p :: p in ps ==> sep !in p
    ensures Split(Join(ps, sep), sep) == ps
    decreases |ps|
  {
    if |ps| == 1 {
      assert ps[0] in ps && ps == [ps[0]];
      assert Join(ps, sep) == ps[0];
      SplitNoSeparator(ps[0], sep);
    } else {
      assert ps[0] in ps;
      assert forall p :: p in ps[1..] ==> p in ps;
      SplitJoin(ps[1..], sep);
      var tail := Join(ps[1..], sep);
      SplitPrefix(ps[0], [sep] + tail, sep);
      assert ps[0] + [sep] + tail == ps[0] + ([sep] + tail);
      assert ([sep] + tail)[0] == sep && ([sep] + tail)[1..] == tail;
      assert Split([sep] + tail, sep) == [""] + ps[1..];
      assert ps[0] + "" == ps[0];
      assert ps == [ps[0]] + ps[1..];
    }
  }

  /** A join of two or more pieces contains the separator. */
  lemma JoinHasSeparator(ps: seq<string>, sep: char)
    requires |ps| >= 2
    ensures sep in Join(ps, sep)
  {
    assert Join(ps, sep)[|ps[0]|] == sep;
  }

  // ---------------------------------------------------------------------
  // Stripping.

  lemma {:induction false} TrimStartSpacePrefix(u: string, x: string)
    requires AllSpace(u)
    ensures TrimStart(u + x) == TrimStart(x)
    decreases |u|
  {
    if u != [] {
      assert (u + x)[1..] == u[1..] + x;
      TrimStartSpacePrefix(u[1..], x);
    } else {
      assert u + x == x;
    }
  }

  lemma {:induction false} TrimEndSpaceSuffix(y: string, v: string)
    requires AllSpace(v)
    ensures TrimEnd(y + v) == TrimEnd(y)
    decreases |v|
  {
    if v != [] {
      assert (y + v)[..|y + v| - 1] == y + v[..|v| - 1];
      TrimEndSpaceSuffix(y, v[..|v| - 1]);
    } else {
      assert y + v == y;
    }
  }

  lemma {:induction false} TrimStartAllSpace(v: string)
    requires AllSpace(v)
    ensures TrimStart(v) == []
    decreases |v|
  {
    if v != [] { TrimStartAllSpace(v[1..]); }
  }

  lemma {:induction false} StripAfterSpaceSuffix(x: string, v: string)
    requires AllSpace(v)
    ensures TrimEnd(TrimStart(x + v)) == TrimEnd(TrimStart(x))
    decreases |x|
  {
    if x == [] {
      assert x + v == v;
      TrimStartAllSpace(v);
    } else if IsSpace(x[0]) {
      assert (x + v)[1..] == x[1..] + v;
      StripAfterSpaceSuffix(x[1..], v);
    } else {
      TrimEndSpaceSuffix(x, v);
    }
  }

  /** Surrounding whitespace does not change what `strip()` returns. */
  lemma StripIgnoresSpace(u: string, x: string, v: string)
    requires AllSpace(u) && AllSpace(v)
    ensures Strip(u + x + v) == Strip(x)
  {
    assert u + x + v == u + (x + v);
    TrimStartSpacePrefix(u, x + v);
    StripAfterSpaceSuffix(x, v);
  }

  lemma StripIdempotent(s: string)
    ensures Strip(Strip(s)) == Strip(s)
  {
    var t := Strip(s);
    StripSpec(s);
    assert TrimStart(t) == t;
    assert TrimEnd(t) == t;
  }

  /** `strip()` keeps every non-whitespace character it was given. */
  lemma StripKeepsNonSpace(s: string, c: char)
    requires !IsSpace(c)
    ensures c in Strip(s) <==> c in s
  {
    var t := TrimStart(s);
    TrimStartSpec(s);
    TrimEndSpec(t);
    var k := |s| - |t|;
    assert s == s[..k] + t;
    SpaceFree(s[..k], c);
    var r := TrimEnd(t);
    assert t == r + t[|r|..];
    SpaceFree(t[|r|..], c);
  }

  lemma SpaceFree(u: string, c: char)
    requires AllSpace(u) && !IsSpace(c)
    ensures c !in u
  {
  }

  /** A character that `strip()` keeps does not occur in its result unless
      it occurred in the input. */
  lemma StripKeepsOut(s: string, c: char)
    requires c !in s
    ensures c !in Strip(s)
  {
    var t := TrimStart(s);
    TrimStartSpec(s);
    TrimEndSpec(t);
    assert s == s[..|s| - |t|] + t;
    assert t == TrimEnd(t) + t[|TrimEnd(t)|..];
  }

  /** A separator absent from the string is absent from every piece. */
  lemma {:induction false} SplitKeepsOut(s: string, sep: char, c: char)
    requires c !in s
    ensures forall p :: p in Split(s, sep) ==> c !in p
    decreases |s|
  {
    if s != [] {
      SplitKeepsOut(s[1..], sep, c);
      var rest := Split(s[1..], sep);
      assert rest[0] in rest;
      forall p | p in rest[1..] ensures p in rest { }
    }
  }

  lemma StripAllReplaceFirst(p: seq<string>, x: string)
    requires |p| >= 1 && Strip(x) == Strip(p[0])
    ensures StripAll([x] + p[1..]) == StripAll(p)
  {
    var a := [x] + p[1..];
    forall i | 0 <= i < |p| ensures StripAll(a)[i] == StripAll(p)[i] {
      if i > 0 { assert a[i] == p[i]; }
    }
  }

  lemma StripAllReplaceLast(p: seq<string>, x: string)
    requires |p| >= 1 && Strip(x) == Strip(p[|p| - 1])
    ensures StripAll(p[..|p| - 1] + [x]) == StripAll(p)
  {
    var a := p[..|p| - 1] + [x];
    forall i | 0 <= i < |p| ensures StripAll(a)[i] == StripAll(p)[i] {
      if i < |p| - 1 { assert a[i] == p[i]; }
    }
  }

  lemma StripAllSplitPrefix(u: string, w: string, sep: char)
    requires AllSpace(u) && !IsSpace(sep)
    ensures StripAll(Split(u + w, sep)) == StripAll(Split(w, sep))
  {
    SpaceFree(u, sep);
    SplitPrefix(u, w, sep);
    var p := Split(w, sep);
    assert u + p[0] + [] == u + p[0];
    StripIgnoresSpace(u, p[0], []);
    StripAllReplaceFirst(p, u + p[0]);
  }

  lemma StripAllSplitSuffix(w: string, v: string, sep: char)
    requires AllSpace(v) && !IsSpace(sep)
    ensures StripAll(Split(w + v, sep)) == StripAll(Split(w, sep))
  {
    var p := Split(w, sep);
    var n := |p|;
    var last := p[n - 1] + v;
    SuffixPieces(w, v, sep);
    LastPieceStrip(p[n - 1], v);
    StripAllReplaceLast(p, last);
  }

  lemma SuffixPieces(w: string, v: string, sep: char)
    requires AllSpace(v) && !IsSpace(sep)
    ensures var p := Split(w, sep);
      Split(w + v, sep) == p[..|p| - 1] + [p[|p| - 1] + v]
  {
    SpaceFree(v, sep);
    SplitSuffix(w, v, sep);
  }

  lemma LastPieceStrip(x: string, v: string)
    requires AllSpace(v)
    ensures Strip(x + v) == Strip(x)
  {
    assert [] + x + v == x + v;
    StripIgnoresSpace([], x, v);
  }

  /** Stripping the whole string before splitting it on a non-whitespace
      separator changes nothing once every piece is stripped: the outer
      `strip()` only removes what the piece-wise `strip()` would. */
  lemma StripBeforeSplitRedundant(s: string, sep: char)
    requires !IsSpace(sep)
    ensures StripAll(Split(Strip(s), sep)) == StripAll(Split(s, sep))
  {
    var t := TrimStart(s);
    TrimStartSpec(s);
    TrimEndSpec(t);
    var u := s[..|s| - |t|];
    assert u + t == s;
    var r := TrimEnd(t);
    var v := t[|r|..];
    assert r + v == t;
    calc {
      StripAll(Split(Strip(s), sep));
      StripAll(Split(r, sep));
      { StripAllSplitSuffix(r, v, sep); }
      StripAll(Split(t, sep));
      { StripAllSplitPrefix(u, t, sep); }
      StripAll(Split(s, sep));
    }
  }
}
