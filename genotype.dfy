/** `parse_genotype`: turns one raw genotype cell into the sorted list of its
    allele tokens, or into nothing when the cell is missing or empty. */
module Genotypes {
  import opened Optional
  import opened Ordering
  import opened Text

  /** One allele call, such as "142" or "A". */
  type Allele = string

  /** The allele tokens of one individual at one marker. Usually two, but a
      cell such as "A/B/C" gives three: the parser does not enforce a count. */
  type Genotype = seq<Allele>

  /** The separator rule: split on '/' if there is one, else on '|' if there
      is one, else read the whole value as both alleles of a homozygote. */
  function RawAlleles(s: string): seq<string>
  {
    if '/' in s then Split(s, '/')
    else if '|' in s then Split(s, '|')
    else [s, s]
  }

  /** `parse_genotype(cell)`: nothing for a missing or empty cell; otherwise
      the stripped cell is split by the separator rule, each token is
      stripped, and the tokens are sorted. The emptiness test comes before
      the strip, so an all-whitespace cell is not treated as missing. */
  function ParseGenotype(cell: Option<string>): (r: Option<Genotype>)
    ensures r.None? <==> cell == None || cell == Some("")
    ensures r.Some? ==> Sorted(r.value)
  {
    match cell
    case None => None
    case Some(raw) =>
      if raw == "" then None
      else
        var alleles := StripAll(RawAlleles(Strip(raw)));
        SortSpec(alleles);
        Some(Sort(alleles))
  }

  // ---------------------------------------------------------------------
  // What a parsed genotype looks like.

  /** Every parse yields at least two tokens, each already stripped and none
      holding a '/'. */
  lemma ParsedTokens(cell: Option<string>)
    requires ParseGenotype(cell).Some?
    ensures var g := ParseGenotype(cell).value;
      |g| >= 2 && forall t :: t in g ==> Strip(t) == t && '/' !in t
  {
    var s := Strip(cell.value);
    var pieces := RawAlleles(s);
    assert |pieces| >= 2 && forall p :: p in pieces ==> '/' !in p by {
      if '/' in s {
        SplitPieces(s, '/');
      } else if '|' in s {
        SplitPieces(s, '|');
        SplitKeepsOut(s, '|', '/');
      }
    }
    var stripped := StripAll(pieces);
    forall t | t in stripped ensures Strip(t) == t && '/' !in t {
      var i :| 0 <= i < |stripped| && stripped[i] == t;
      assert pieces[i] in pieces;
      StripIdempotent(pieces[i]);
      StripKeepsOut(pieces[i], '/');
    }
    var g := Sort(stripped);
    SortSpec(stripped);
    forall t | t in g ensures t in stripped {
      assert t in multiset(g);
    }
  }

  /** The strip of the whole cell is redundant: the result is the sorted,
      piece-wise stripped split of the raw cell itself. */
  lemma ParseSplitsRawCell(raw: string)
    requires raw != ""
    ensures ParseGenotype(Some(raw)) == Some(Sort(StripAll(RawAlleles(raw))))
  {
    var s := Strip(raw);
    StripKeepsNonSpace(raw, '/');
    StripKeepsNonSpace(raw, '|');
    if '/' in raw {
      StripBeforeSplitRedundant(raw, '/');
    } else if '|' in raw {
      StripBeforeSplitRedundant(raw, '|');
    } else {
      StripIdempotent(raw);
      assert StripAll([s, s]) == [s, s] == StripAll([raw, raw]);
    }
  }

  /** '/' takes precedence: a cell holding both separators is split on '/'. */
  lemma SlashTakesPrecedence(raw: string)
    requires '/' in raw && '|' in raw
    ensures ParseGenotype(Some(raw)) == Some(Sort(StripAll(Split(raw, '/'))))
  {
    ParseSplitsRawCell(raw);
  }

  /** A non-empty cell with neither separator is read as a homozygote:
      both tokens are the stripped cell. */
  lemma ParseHomozygous(raw: string)
    requires raw != "" && '/' !in raw && '|' !in raw
    ensures ParseGenotype(Some(raw)) == Some([Strip(raw), Strip(raw)])
  {
    ParseSplitsRawCell(raw);
    var t := Strip(raw);
    assert StripAll([raw, raw]) == [t, t];
    StrLeRefl(t);
    SortOfSorted([t, t]);
  }

  /** A cell of whitespace only is not missing: it parses to two empty tokens. */
  lemma ParseWhitespaceOnly(raw: string)
    requires raw != "" && AllSpace(raw)
    ensures ParseGenotype(Some(raw)) == Some(["", ""])
  {
    SpaceFree(raw, '/');
    SpaceFree(raw, '|');
    ParseHomozygous(raw);
    TrimStartAllSpace(raw);
  }

  // ---------------------------------------------------------------------
  // Canonical form: order and separator do not matter.

  lemma StripAllAppend(a: seq<string>, b: seq<string>)
    ensures StripAll(a + b) == StripAll(a) + StripAll(b)
  {
    forall i | 0 <= i < |a| + |b| ensures StripAll(a + b)[i] == (StripAll(a) + StripAll(b))[i] {
      if i < |a| { assert (a + b)[i] == a[i]; } else { assert (a + b)[i] == b[i - |a|]; }
    }
  }

  /** Taking out the element at `j`, as a multiset. */
  lemma MultisetRemove(q: seq<string>, j: nat)
    requires j < |q|
    ensures multiset(q[..j] + q[j + 1..]) == multiset(q) - multiset{q[j]}
  {
    assert q == q[..j] + [q[j]] + q[j + 1..];
    assert multiset(q) == multiset(q[..j]) + multiset{q[j]} + multiset(q[j + 1..]);
  }

  /** Stripping commutes with taking out the element at `j`. */
  lemma StripAllRemove(q: seq<string>, j: nat)
    requires j < |q|
    ensures multiset(StripAll(q)) == multiset(StripAll(q[..j] + q[j + 1..])) + multiset{Strip(q[j])}
  {
    assert q == q[..j] + [q[j]] + q[j + 1..];
    StripAllAppend(q[..j] + [q[j]], q[j + 1..]);
    StripAllAppend(q[..j], [q[j]]);
    StripAllAppend(q[..j], q[j + 1..]);
    assert StripAll([q[j]]) == [Strip(q[j])];
  }

  /** Stripping commutes with taking out the first element. */
  lemma StripAllRemoveFirst(p: seq<string>)
    requires p != []
    ensures multiset(StripAll(p)) == multiset(StripAll(p[1..])) + multiset{Strip(p[0])}
  {
    assert p == [p[0]] + p[1..];
    StripAllAppend([p[0]], p[1..]);
    assert StripAll([p[0]]) == [Strip(p[0])];
  }

  /** Taking the same string out of two rearrangements of one list leaves
      two rearrangements of one list. */
  lemma RemoveMatching(p: seq<string>, q: seq<string>, j: nat)
    requires multiset(p) == multiset(q) && p != [] && j < |q| && q[j] == p[0]
    ensures multiset(p[1..]) == multiset(q[..j] + q[j + 1..])
  {
    MultisetRemove(p, 0);
    MultisetRemove(q, j);
    assert p[..0] + p[1..] == p[1..];
  }

  /** The inductive step: lists that agree once their matching elements
      `p[0]` and `q[j]` are taken out also agree in full after stripping. */
  lemma StripAllPermutationStep(p: seq<string>, q: seq<string>, j: nat)
    requires p != [] && j < |q| && q[j] == p[0]
    requires multiset(StripAll(p[1..])) == multiset(StripAll(q[..j] + q[j + 1..]))
    ensures multiset(StripAll(p)) == multiset(StripAll(q))
  {
    StripAllRemoveFirst(p);
    StripAllRemove(q, j);
  }

  /** Stripping every token of two rearrangements of one list gives two
      rearrangements of one list. */
  lemma {:induction false} StripAllPermutation(p: seq<string>, q: seq<string>)
    requires multiset(p) == multiset(q)
    ensures multiset(StripAll(p)) == multiset(StripAll(q))
    decreases |p|
  {
    if p == [] {
      assert |q| == |multiset(q)| == 0;
    } else {
      assert p[0] in multiset(q);
      var j :| 0 <= j < |q| && q[j] == p[0];
      RemoveMatching(p, q, j);
      StripAllPermutation(p[1..], q[..j] + q[j + 1..]);
      StripAllPermutationStep(p, q, j);
    }
  }

  /** Any rearrangement of the tokens of a '/'-separated cell parses to the
      same genotype: "A/B" and "B/A" are one genotype, and so are the six
      orders of "A/B/C". */
  lemma ParseOrderInvariant(p: seq<string>, q: seq<string>)
    requires |p| >= 2 && multiset(p) == multiset(q)
    requires forall t :: t in p ==> '/' !in t
    ensures ParseGenotype(Some(Join(p, '/'))) == ParseGenotype(Some(Join(q, '/')))
  {
    assert |q| == |multiset(q)| == |p|;
    forall t | t in q ensures '/' !in t { assert t in multiset(p); }
    JoinHasSeparator(p, '/');
    JoinHasSeparator(q, '/');
    ParseSplitsRawCell(Join(p, '/'));
    ParseSplitsRawCell(Join(q, '/'));
    SplitJoin(p, '/');
    SplitJoin(q, '/');
    StripAllPermutation(p, q);
    SortPermutationInvariant(StripAll(p), StripAll(q));
  }

  lemma JoinPair(x: string, y: string, sep: char)
    ensures Join([x, y], sep) == x + [sep] + y
    ensures sep in x + [sep] + y
  {
    assert [x, y][1..] == [y];
    assert (x + [sep] + y)[|x|] == sep;
  }

  /** "x/y" parses to the sorted pair of stripped tokens, and so does "y/x". */
  lemma ParseUnorderedPair(x: string, y: string)
    requires '/' !in x && '/' !in y
    ensures ParseGenotype(Some(x + "/" + y)) == Some(Sort([Strip(x), Strip(y)]))
    ensures ParseGenotype(Some(x + "/" + y)) == ParseGenotype(Some(y + "/" + x))
  {
    JoinPair(x, y, '/');
    JoinPair(y, x, '/');
    assert multiset([x, y]) == multiset([y, x]);
    ParseOrderInvariant([x, y], [y, x]);
    ParseSplitsRawCell(x + "/" + y);
    SplitJoin([x, y], '/');
    assert StripAll([x, y]) == [Strip(x), Strip(y)];
  }

  /** '|' is read like '/' when the tokens hold neither separator. */
  lemma ParsePipeLikeSlash(x: string, y: string)
    requires '/' !in x && '/' !in y && '|' !in x && '|' !in y
    ensures ParseGenotype(Some(x + "|" + y)) == ParseGenotype(Some(x + "/" + y))
  {
    ParseUnorderedPair(x, y);
    JoinPair(x, y, '|');
    var cell := x + "|" + y;
    assert '/' !in cell by {
      forall i | 0 <= i < |cell| ensures cell[i] != '/' {
        if i < |x| { assert cell[i] == x[i]; }
        else if i > |x| { assert cell[i] == y[i - |x| - 1]; }
      }
    }
    ParseSplitsRawCell(cell);
    SplitJoin([x, y], '|');
    assert RawAlleles(cell) == [x, y];
    assert StripAll([x, y]) == [Strip(x), Strip(y)];
  }

  // ---------------------------------------------------------------------
  // Round trip with the report's rendering.

  /** The report renders a genotype as its tokens joined with '/'; parsing that
      rendering gives back the same genotype. */
  lemma ParseJoinRoundTrip(cell: Option<string>)
    requires ParseGenotype(cell).Some?
    ensures var g := ParseGenotype(cell).value;
      ParseGenotype(Some(Join(g, '/'))) == Some(g)
  {
    var g := ParseGenotype(cell).value;
    ParsedTokens(cell);
    JoinHasSeparator(g, '/');
    ParseSplitsRawCell(Join(g, '/'));
    SplitJoin(g, '/');
    assert StripAll(g) == g;
    SortOfSorted(g);
  }
}
