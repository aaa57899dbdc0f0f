/** `DogDNAParentageAnalyzer`: the loaded profiles, the parentage analysis
    over the markers the three dogs share, and the last analysis result. */
module Parentage {
  import opened Optional
  import opened Ordering
  import opened Genotypes
  import opened Mendelian
  import opened Classification

  /** One dog's cleaned profile sheet: MarkerID to raw genotype cell. A
      MarkerID listed twice keeps its last genotype, as `to_dict` does. */
  type Profile = map<string, string>

  /** The record `load_dog_profile` stores under a dog's name. */
  datatype DogProfile = DogProfile(data: Profile, file: string, profileType: string, markerCount: nat)

  /** The entry of `marker_details` (and of `exclusions`) for one marker. */
  datatype MarkerResult = MarkerResult(
    marker: string,
    mother: Genotype,
    father: Genotype,
    offspring: Genotype,
    consistent: bool,
    details: Detail)

  /** The `results` dictionary `analyze_parentage` returns and keeps. */
  datatype AnalysisResult = AnalysisResult(
    totalCommonMarkers: nat,
    testableMarkers: nat,
    consistentMarkers: nat,
    inconsistentMarkers: nat,
    exclusions: seq<MarkerResult>,
    markerDetails: seq<MarkerResult>,
    consistencyRate: real,
    confidenceLevel: Confidence)

  // ---------------------------------------------------------------------
  // The analysis, stated marker by marker.

  /** The MarkerIDs present in all three profiles. */
  function CommonMarkers(m: Profile, f: Profile, o: Profile): set<string>
  {
    m.Keys * f.Keys * o.Keys
  }

  predicate InAll(x: string, m: Profile, f: Profile, o: Profile)
  {
    x in m && x in f && x in o
  }

  /** What one common marker contributes: nothing when one of the three
      cells does not parse to a non-empty genotype, and otherwise its
      Mendelian check. */
  function Examine(x: string, m: Profile, f: Profile, o: Profile): Option<MarkerResult>
    requires InAll(x, m, f, o)
  {
    var mg := ParseGenotype(Some(m[x]));
    var fg := ParseGenotype(Some(f[x]));
    var og := ParseGenotype(Some(o[x]));
    if Present(mg) && Present(fg) && Present(og) then
      var v := Verdict(mg, fg, og);
      Some(MarkerResult(x, mg.value, fg.value, og.value, v.0, v.1))
    else None
  }

  /** The entry one marker adds to `marker_details`, if any. */
  function Entry(x: string, m: Profile, f: Profile, o: Profile): seq<MarkerResult>
    requires InAll(x, m, f, o)
  {
    match Examine(x, m, f, o)
    case Some(r) => [r]
    case None => []
  }

  /** An entry is filed under its own marker. */
  lemma EntryOfMarker(x: string, m: Profile, f: Profile, o: Profile)
    requires InAll(x, m, f, o)
    ensures forall r :: r in Entry(x, m, f, o) <==> Examine(x, m, f, o) == Some(r)
    ensures forall r :: r in Entry(x, m, f, o) ==> r.marker == x
    ensures |Entry(x, m, f, o)| <= 1
  {
  }

  /** `marker_details` after the markers `ms` have been examined in order. */
  function Details(ms: seq<string>, m: Profile, f: Profile, o: Profile): seq<MarkerResult>
    requires forall x :: x in ms ==> InAll(x, m, f, o)
    decreases |ms|
  {
    if ms == [] then []
    else
      var x := ms[|ms| - 1];
      Details(ms[..|ms| - 1], m, f, o) + Entry(x, m, f, o)
  }

  /** The inconsistent entries of `ds`, in their order. */
  function Exclusions(ds: seq<MarkerResult>): seq<MarkerResult>
    decreases |ds|
  {
    if ds == [] then []
    else Exclusions(ds[..|ds| - 1]) + (if ds[|ds| - 1].consistent then [] else [ds[|ds| - 1]])
  }

  /** The number of consistent entries of `ds`. */
  function ConsistentCount(ds: seq<MarkerResult>): nat
    decreases |ds|
  {
    if ds == [] then 0
    else ConsistentCount(ds[..|ds| - 1]) + (if ds[|ds| - 1].consistent then 1 else 0)
  }

  /** The result of analysing mother `m`, father `f` and offspring `o`: the
      common markers are examined in ascending order. */
  ghost function Analysis(m: Profile, f: Profile, o: Profile): AnalysisResult
  {
    var common := CommonMarkers(m, f, o);
    var ds := Details(Ascending(common), m, f, o);
    var consistent := ConsistentCount(ds);
    var exclusions := Exclusions(ds);
    AnalysisResult(|common|, |ds|, consistent, |exclusions|, exclusions, ds,
      ConsistencyRate(consistent, |ds|), ConfidenceLevel(|exclusions|, consistent))
  }

  /** The conclusion announced after an analysis. */
  function AnalysisConclusion(r: AnalysisResult): Conclusion
  {
    ConclusionFor(r.inconsistentMarkers, r.consistentMarkers)
  }

  /** Examining one more marker appends its entry, if any, to the details. */
  lemma DetailsStep(ms: seq<string>, i: nat, m: Profile, f: Profile, o: Profile)
    requires i < |ms| && forall x :: x in ms ==> InAll(x, m, f, o)
    ensures forall x :: x in ms[..i] ==> InAll(x, m, f, o)
    ensures Details(ms[..i + 1], m, f, o) ==
      Details(ms[..i], m, f, o) + Entry(ms[i], m, f, o)
  {
    assert ms[..i + 1][..i] == ms[..i];
    forall x | x in ms[..i] ensures InAll(x, m, f, o) { assert x in ms; }
  }

  /** Appending one entry to the details updates the exclusions and the
      consistent count by that entry alone. */
  lemma TallyStep(ds: seq<MarkerResult>, r: MarkerResult)
    ensures Exclusions(ds + [r]) == Exclusions(ds) + (if r.consistent then [] else [r])
    ensures ConsistentCount(ds + [r]) == ConsistentCount(ds) + (if r.consistent then 1 else 0)
  {
    assert (ds + [r])[..|ds|] == ds;
  }

  /** The marker loop of `analyze_parentage`: walks `markers` in order,
      skips a marker unless all three genotypes parse, and otherwise counts
      it as testable, runs the Mendelian check and files its entry under the
      details and, when inconsistent, under the exclusions. */
  method ExamineMarkers(markers: seq<string>, mp: Profile, fp: Profile, op: Profile)
    returns (testable: nat, consistentCount: nat, inconsistentCount: nat,
             exclusions: seq<MarkerResult>, details: seq<MarkerResult>)
    requires forall x :: x in markers ==> InAll(x, mp, fp, op)
    ensures details == Details(markers, mp, fp, op)
    ensures exclusions == Exclusions(details)
    ensures testable == |details|
    ensures consistentCount == ConsistentCount(details)
    ensures inconsistentCount == |exclusions|
  {
    testable, consistentCount, inconsistentCount := 0, 0, 0;
    exclusions, details := [], [];
    for i := 0 to |markers|
      invariant forall x :: x in markers[..i] ==> InAll(x, mp, fp, op)
      invariant details == Details(markers[..i], mp, fp, op)
      invariant exclusions == Exclusions(details)
      invariant testable == |details|
      invariant consistentCount == ConsistentCount(details)
      invariant inconsistentCount == |exclusions|
    {
      var markerId := markers[i];
      assert markerId in markers;
      DetailsStep(markers, i, mp, fp, op);
      var motherGeno := ParseGenotype(Some(mp[markerId]));
      var fatherGeno := ParseGenotype(Some(fp[markerId]));
      var offspringGeno := ParseGenotype(Some(op[markerId]));
      if Present(motherGeno) && Present(fatherGeno) && Present(offspringGeno) {
        testable := testable + 1;
        var isConsistent, detail := CheckMendelianInheritance(motherGeno, fatherGeno, offspringGeno);
        var markerResult := MarkerResult(markerId, motherGeno.value, fatherGeno.value, offspringGeno.value, isConsistent, detail);
        TallyStep(details, markerResult);
        details := details + [markerResult];
        if isConsistent {
          consistentCount := consistentCount + 1;
        } else {
          inconsistentCount := inconsistentCount + 1;
          exclusions := exclusions + [markerResult];
        }
      }
    }
    assert markers[..|markers|] == markers;
  }

  // ---------------------------------------------------------------------
  // Properties of the tally.

  /** Every entry is either consistent or an exclusion. */
  lemma {:induction false} ExclusionsPartition(ds: seq<MarkerResult>)
    ensures ConsistentCount(ds) + |Exclusions(ds)| == |ds|
    decreases |ds|
  {
    if ds != [] { ExclusionsPartition(ds[..|ds| - 1]); }
  }

  /** The exclusions are the inconsistent entries of the details. */
  lemma {:induction false} ExclusionsMembers(ds: seq<MarkerResult>)
    ensures forall r :: r in Exclusions(ds) <==> r in ds && !r.consistent
    decreases |ds|
  {
    if ds != [] {
      var init := ds[..|ds| - 1];
      ExclusionsMembers(init);
      assert ds == init + [ds[|ds| - 1]];
    }
  }

  /** The markers of a list of entries run in strictly ascending order. */
  predicate MarkersAscending(ds: seq<MarkerResult>)
  {
    forall i, j :: 0 <= i < j < |ds| ==> StrLt(ds[i].marker, ds[j].marker)
  }

  /** An entry whose marker exceeds every marker so far keeps the order. */
  lemma AppendAscending(ds: seq<MarkerResult>, r: MarkerResult)
    requires MarkersAscending(ds)
    requires forall e :: e in ds ==> StrLt(e.marker, r.marker)
    ensures MarkersAscending(ds + [r])
  {
    var ds' := ds + [r];
    forall i, j | 0 <= i < j < |ds'| ensures StrLt(ds'[i].marker, ds'[j].marker) {
      assert ds'[i] == ds[i] by { assert i < |ds|; }
      if j == |ds| { assert ds[i] in ds; } else { assert ds'[j] == ds[j]; }
    }
  }

  /** Keeping only the exclusions keeps the marker order. */
  lemma {:induction false} ExclusionsAscending(ds: seq<MarkerResult>)
    requires MarkersAscending(ds)
    ensures MarkersAscending(Exclusions(ds))
    decreases |ds|
  {
    if ds != [] {
      var n := |ds|;
      var init := ds[..n - 1];
      assert MarkersAscending(init);
      ExclusionsAscending(init);
      if !ds[n - 1].consistent {
        ExclusionsMembers(init);
        forall e | e in Exclusions(init) ensures StrLt(e.marker, ds[n - 1].marker) {
          var k :| 0 <= k < n - 1 && init[k] == e;
        }
        AppendAscending(Exclusions(init), ds[n - 1]);
      }
    }
  }

  /** At most one entry per examined marker. */
  lemma {:induction false} DetailsLength(ms: seq<string>, m: Profile, f: Profile, o: Profile)
    requires forall x :: x in ms ==> InAll(x, m, f, o)
    ensures |Details(ms, m, f, o)| <= |ms|
    decreases |ms|
  {
    if ms != [] {
      DetailsStep(ms, |ms| - 1, m, f, o);
      assert ms[..|ms| - 1 + 1] == ms;
      DetailsLength(ms[..|ms| - 1], m, f, o);
      EntryOfMarker(ms[|ms| - 1], m, f, o);
    }
  }

  /** Every entry comes from an examined marker whose three genotypes
      parse, and is that marker's own Mendelian check. */
  lemma {:induction false} DetailsSound(ms: seq<string>, m: Profile, f: Profile, o: Profile, r: MarkerResult)
    requires forall x :: x in ms ==> InAll(x, m, f, o)
    requires r in Details(ms, m, f, o)
    ensures r.marker in ms && Examine(r.marker, m, f, o) == Some(r)
    decreases |ms|
  {
    var n := |ms|;
    var init := ms[..n - 1];
    DetailsStep(ms, n - 1, m, f, o);
    assert ms[..n - 1 + 1] == ms;
    EntryOfMarker(ms[n - 1], m, f, o);
    if r in Details(init, m, f, o) {
      DetailsSound(init, m, f, o, r);
      assert r.marker in ms;
    }
  }

  /** Every examined marker whose three genotypes parse has its entry. */
  lemma {:induction false} DetailsComplete(ms: seq<string>, m: Profile, f: Profile, o: Profile, x: string)
    requires forall y :: y in ms ==> InAll(y, m, f, o)
    requires x in ms && Examine(x, m, f, o).Some?
    ensures Examine(x, m, f, o).value in Details(ms, m, f, o)
    decreases |ms|
  {
    var n := |ms|;
    var init := ms[..n - 1];
    DetailsStep(ms, n - 1, m, f, o);
    assert ms[..n - 1 + 1] == ms;
    EntryOfMarker(ms[n - 1], m, f, o);
    if x != ms[n - 1] {
      InInit(ms, x);
      DetailsComplete(init, m, f, o, x);
    }
  }

  /** An element other than the last is in the list without its last. */
  lemma InInit(ms: seq<string>, x: string)
    requires x in ms && x != ms[|ms| - 1]
    ensures x in ms[..|ms| - 1]
  {
    var k :| 0 <= k < |ms| && ms[k] == x;
    assert ms[..|ms| - 1][k] == x;
  }

  /** In a strictly ascending list, an entry filed before the last marker
      has a smaller marker. */
  lemma EarlierEntry(ms: seq<string>, m: Profile, f: Profile, o: Profile, d: MarkerResult)
    requires forall x :: x in ms ==> InAll(x, m, f, o)
    requires StrictlyAscending(ms) && ms != []
    requires d in Details(ms[..|ms| - 1], m, f, o)
    ensures StrLt(d.marker, ms[|ms| - 1])
  {
    var init := ms[..|ms| - 1];
    forall x | x in init ensures InAll(x, m, f, o) { assert x in ms; }
    DetailsSound(init, m, f, o, d);
    var k :| 0 <= k < |init| && init[k] == d.marker;
    assert ms[k] == d.marker;
  }

  /** Examining a strictly ascending list of markers files the entries in
      strictly ascending marker order. */
  lemma {:induction false} DetailsAscending(ms: seq<string>, m: Profile, f: Profile, o: Profile)
    requires forall x :: x in ms ==> InAll(x, m, f, o)
    requires StrictlyAscending(ms)
    ensures MarkersAscending(Details(ms, m, f, o))
    decreases |ms|
  {
    if ms != [] {
      var n := |ms|;
      var init := ms[..n - 1];
      DetailsStep(ms, n - 1, m, f, o);
      assert ms[..n - 1 + 1] == ms;
      assert StrictlyAscending(init);
      DetailsAscending(init, m, f, o);
      var e := Examine(ms[n - 1], m, f, o);
      EntryOfMarker(ms[n - 1], m, f, o);
      if e.Some? {
        assert Entry(ms[n - 1], m, f, o) == [e.value];
        forall d | d in Details(init, m, f, o) ensures StrLt(d.marker, e.value.marker) {
          EarlierEntry(ms, m, f, o, d);
        }
        AppendAscending(Details(init, m, f, o), e.value);
      }
    }
  }

  /** A marker is skipped exactly when one of its three cells is empty: a
      non-empty cell always parses to at least two tokens. */
  lemma ExamineSkipsEmptyCells(x: string, m: Profile, f: Profile, o: Profile)
    requires InAll(x, m, f, o)
    ensures Examine(x, m, f, o).None? <==> m[x] == "" || f[x] == "" || o[x] == ""
  {
    if m[x] != "" { ParsedTokens(Some(m[x])); }
    if f[x] != "" { ParsedTokens(Some(f[x])); }
    if o[x] != "" { ParsedTokens(Some(o[x])); }
  }

  // ---------------------------------------------------------------------
  // Properties of a whole analysis.

  /** The counters agree with each other and with the lists:
      testable = consistent + inconsistent = number of entries, which is
      at most the number of common markers. */
  lemma AnalysisCounts(m: Profile, f: Profile, o: Profile)
    ensures var a := Analysis(m, f, o);
      a.totalCommonMarkers == |CommonMarkers(m, f, o)| &&
      a.testableMarkers == a.consistentMarkers + a.inconsistentMarkers &&
      a.testableMarkers == |a.markerDetails| &&
      a.inconsistentMarkers == |a.exclusions| &&
      a.testableMarkers <= a.totalCommonMarkers
  {
    var common := CommonMarkers(m, f, o);
    var ms := Ascending(common);
    DetailsLength(ms, m, f, o);
    ExclusionsPartition(Details(ms, m, f, o));
  }

  /** The details hold one entry for each common marker whose three
      genotypes parse, in ascending marker order, each being that marker's
      Mendelian check. */
  lemma AnalysisDetails(m: Profile, f: Profile, o: Profile)
    ensures var ds := Analysis(m, f, o).markerDetails;
      (forall r :: r in ds ==> InAll(r.marker, m, f, o) && Examine(r.marker, m, f, o) == Some(r)) &&
      (forall x :: InAll(x, m, f, o) && Examine(x, m, f, o).Some? ==> Examine(x, m, f, o).value in ds) &&
      MarkersAscending(ds)
  {
    var ms := Ascending(CommonMarkers(m, f, o));
    var ds := Details(ms, m, f, o);
    forall r | r in ds ensures InAll(r.marker, m, f, o) && Examine(r.marker, m, f, o) == Some(r) {
      DetailsSound(ms, m, f, o, r);
    }
    forall x | InAll(x, m, f, o) && Examine(x, m, f, o).Some? ensures Examine(x, m, f, o).value in ds {
      DetailsComplete(ms, m, f, o, x);
    }
    DetailsAscending(ms, m, f, o);
  }

  /** The exclusions are exactly the inconsistent details, in the same
      ascending marker order. */
  lemma AnalysisExclusions(m: Profile, f: Profile, o: Profile)
    ensures var a := Analysis(m, f, o);
      (forall r :: r in a.exclusions <==> r in a.markerDetails && !r.consistent) &&
      MarkersAscending(a.exclusions)
  {
    AnalysisDetails(m, f, o);
    ExclusionsMembers(Analysis(m, f, o).markerDetails);
    ExclusionsAscending(Analysis(m, f, o).markerDetails);
  }

  /** The rate is 0 when nothing could be tested and a percentage otherwise;
      the confidence is above Low exactly when the conclusion is Confirmed
      or Likely. */
  lemma AnalysisSummary(m: Profile, f: Profile, o: Profile)
    ensures var a := Analysis(m, f, o);
      (a.testableMarkers == 0 ==> a.consistencyRate == 0.0) &&
      0.0 <= a.consistencyRate <= 100.0 &&
      (a.confidenceLevel != Low <==> AnalysisConclusion(a) in {Confirmed, Likely})
  {
    var a := Analysis(m, f, o);
    AnalysisCounts(m, f, o);
    LaddersAgree(a.inconsistentMarkers, a.consistentMarkers);
  }

  // ---------------------------------------------------------------------
  // The analyzer object.

  class ParentageAnalyzer {
    /** `self.profiles`: the loaded profiles by dog name. */
    var profiles: map<string, DogProfile>
    /** `self.analysis_results`: nothing until an analysis has completed. */
    var analysisResults: Option<AnalysisResult>

    constructor ()
      ensures profiles == map[] && analysisResults == None
    {
      profiles := map[];
      analysisResults := None;
    }

    /** The storing step of `load_dog_profile`, once the sheet has been read
        and cleaned into `data`. */
    method StoreProfile(dogName: string, data: Profile, file: string, profileType: string)
      modifies this`profiles
      ensures profiles == old(profiles)[dogName := DogProfile(data, file, profileType, |data|)]
    {
      profiles := profiles[dogName := DogProfile(data, file, profileType, |data|)];
    }

    /** The names among `names` that have no loaded profile, in order. */
    method MissingDogs(names: seq<string>) returns (missing: seq<string>)
      ensures forall d :: d in missing <==> d in names && d !in profiles
      ensures |missing| <= |names|
    {
      missing := [];
      for k := 0 to |names|
        invariant forall d :: d in missing <==> d in names[..k] && d !in profiles
        invariant |missing| <= k
      {
        if names[k] !in profiles {
          missing := missing + [names[k]];
        }
      }
      assert names[..|names|] == names;
    }

    /** `analyze_parentage(mother, father, offspring)`. Without a profile for
        one of the three names it returns nothing and keeps the previous
        result; otherwise it examines every common marker in ascending order,
        keeps the result and returns it. */
    method AnalyzeParentage(motherName: string, fatherName: string, offspringName: string)
      returns (r: Option<AnalysisResult>)
      modifies this`analysisResults
      ensures !(motherName in profiles && fatherName in profiles && offspringName in profiles) ==>
        r == None && analysisResults == old(analysisResults)
      ensures motherName in profiles && fatherName in profiles && offspringName in profiles ==>
        r == Some(Analysis(profiles[motherName].data, profiles[fatherName].data, profiles[offspringName].data)) &&
        analysisResults == r
    {
      var missing := MissingDogs([motherName, fatherName, offspringName]);
      if missing != [] {
        assert missing[0] in missing;
        return None;
      }
      assert motherName in [motherName, fatherName, offspringName];
      assert fatherName in [motherName, fatherName, offspringName];
      assert offspringName in [motherName, fatherName, offspringName];
      var mp := profiles[motherName].data;
      var fp := profiles[fatherName].data;
      var op := profiles[offspringName].data;
      var common := CommonMarkers(mp, fp, op);
      var markers := SortedMarkers(common);
      assert forall x :: x in markers ==> InAll(x, mp, fp, op);
      var testable, consistentCount, inconsistentCount, exclusions, details := ExamineMarkers(markers, mp, fp, op);
      var rate := ConsistencyRate(consistentCount, testable);
      var confidence := ConfidenceLevel(inconsistentCount, consistentCount);
      r := Some(AnalysisResult(|common|, testable, consistentCount, inconsistentCount, exclusions, details, rate, confidence));
      analysisResults := r;
    }
  }
}
