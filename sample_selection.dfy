/** The sample-selection rule used when the deployment script builds the small
    bundled dataset: papers are taken in source order, the first 20 always,
    later ones only when their primary category has not been recorded yet,
    and the walk stops once 50 papers are taken. */
module PrepareDeployment {

  datatype Option<T> = None | Some(value: T)

  /** The `categories` object of a paper; `primary` may be absent (or null). */
  datatype CategoryField = CategoryField(primary: Option<string>)

  /** A paper record. Only the fields the selection reads are modelled; `id`
      stands for the rest of the record, which is copied into the sample as is. */
  datatype Paper = Paper(id: string, categories: Option<CategoryField>)

  /** The sample never holds more than this many papers. */
  const SampleLimit: nat := 50

  /** While the sample holds fewer than this many papers, every paper is taken. */
  const OpenSlots: nat := 20

  /** The primary category, with a missing `categories` object or a missing
      (or null) `primary` field read as the empty string. */
  function PrimaryCategory(p: Paper): string
  {
    match p.categories
    case None => ""
    case Some(f) =>
      match f.primary
      case None => ""
      case Some(c) => c
  }

  /** The non-empty primary categories of a sequence of papers. */
  ghost function Categories(s: seq<Paper>): set<string>
  {
    set k | 0 <= k < |s| && PrimaryCategory(s[k]) != "" :: PrimaryCategory(s[k])
  }

  /** The state of the selection loop: the papers taken so far, the recorded
      categories, and the source index of each paper taken. */
  datatype Selection = Selection(sample: seq<Paper>, seen: set<string>, picks: seq<nat>)

  /** Whether the loop takes paper `p` in state `sel`: the sample is not yet
      full, and either the category is new or the open slots are not used up. */
  predicate Admits(sel: Selection, p: Paper)
  {
    |sel.sample| < SampleLimit &&
    (PrimaryCategory(p) !in sel.seen || |sel.sample| < OpenSlots)
  }

  /** One iteration of the loop on the paper at source index `i`. Once the
      sample is full, nothing is taken (the loop has stopped). */
  function Step(sel: Selection, i: nat, p: Paper): Selection
  {
    if Admits(sel, p) then
      var c := PrimaryCategory(p);
      Selection(sel.sample + [p],
                if c != "" then sel.seen + {c} else sel.seen,
                sel.picks + [i])
    else
      sel
  }

  /** The state after the loop has run over all of `ps`. */
  function Run(ps: seq<Paper>): Selection
    decreases |ps|
  {
    if |ps| == 0 then Selection([], {}, [])
    else Step(Run(ps[..|ps| - 1]), |ps| - 1, ps[|ps| - 1])
  }

  // ---------------------------------------------------------------------------
  // Helpers

  lemma RunSnoc(ps: seq<Paper>, n: nat)
    requires n < |ps|
    ensures Run(ps[..n + 1]) == Step(Run(ps[..n]), n, ps[n])
  {
    assert ps[..n + 1][..n] == ps[..n];
  }

  lemma CategoriesSnoc(s: seq<Paper>, p: Paper)
    ensures Categories(s + [p]) ==
            Categories(s) + (if PrimaryCategory(p) != "" then {PrimaryCategory(p)} else {})
  {
    var t := s + [p];
    forall c | c in Categories(t)
      ensures c in Categories(s) + (if PrimaryCategory(p) != "" then {PrimaryCategory(p)} else {})
    {
      var k :| 0 <= k < |t| && PrimaryCategory(t[k]) != "" && PrimaryCategory(t[k]) == c;
      if k < |s| { assert t[k] == s[k]; }
    }
    forall c | c in Categories(s) ensures c in Categories(t) {
      var k :| 0 <= k < |s| && PrimaryCategory(s[k]) != "" && PrimaryCategory(s[k]) == c;
      assert t[k] == s[k];
    }
    if PrimaryCategory(p) != "" {
      assert t[|s|] == p;
    }
  }

  // ---------------------------------------------------------------------------
  // Properties of the selection

  /** The sample never holds more than 50 papers. */
  lemma {:induction false} RunBounded(ps: seq<Paper>)
    ensures |Run(ps).sample| <= SampleLimit
    decreases |ps|
  {
    if |ps| > 0 { RunBounded(ps[..|ps| - 1]); }
  }

  /** The recorded set is exactly the set of non-empty primary categories of
      the papers taken; the empty category is never recorded. */
  lemma {:induction false} RunSeen(ps: seq<Paper>)
    ensures Run(ps).seen == Categories(Run(ps).sample)
    ensures "" !in Run(ps).seen
    decreases |ps|
  {
    if |ps| > 0 {
      var prev := Run(ps[..|ps| - 1]);
      RunSeen(ps[..|ps| - 1]);
      CategoriesSnoc(prev.sample, ps[|ps| - 1]);
    }
  }

  /** The sample is an order-preserving subsequence of the input: the recorded
      indices are strictly increasing, in range, and index the papers taken. */
  lemma {:induction false} RunSubsequence(ps: seq<Paper>)
    ensures |Run(ps).picks| == |Run(ps).sample|
    ensures forall k :: 0 <= k < |Run(ps).picks| ==>
              Run(ps).picks[k] < |ps| && Run(ps).sample[k] == ps[Run(ps).picks[k]]
    ensures forall j, k :: 0 <= j < k < |Run(ps).picks| ==> Run(ps).picks[j] < Run(ps).picks[k]
    decreases |ps|
  {
    if |ps| > 0 {
      RunSubsequence(ps[..|ps| - 1]);
    }
  }

  /** Running over a prefix of the input gives a prefix of the final state:
      the later iterations only append, and only indices past the prefix. */
  lemma {:induction false} RunExtends(ps: seq<Paper>, n: nat)
    requires n <= |ps|
    ensures |Run(ps[..n]).sample| <= |Run(ps).sample|
    ensures Run(ps).sample[..|Run(ps[..n]).sample|] == Run(ps[..n]).sample
    ensures |Run(ps[..n]).picks| <= |Run(ps).picks|
    ensures Run(ps).picks[..|Run(ps[..n]).picks|] == Run(ps[..n]).picks
    ensures forall k :: |Run(ps[..n]).picks| <= k < |Run(ps).picks| ==> Run(ps).picks[k] >= n
    ensures Run(ps[..n]).seen <= Run(ps).seen
    decreases |ps| - n
  {
    if n == |ps| {
      assert ps[..n] == ps;
    } else {
      var ps' := ps[..|ps| - 1];
      assert ps'[..n] == ps[..n];
      RunExtends(ps', n);
    }
  }

  /** Once the sample holds 50 papers the loop stops: no later paper is taken
      and the state no longer changes. */
  lemma {:induction false} RunSaturated(ps: seq<Paper>, n: nat)
    requires n <= |ps|
    requires |Run(ps[..n]).sample| >= SampleLimit
    ensures Run(ps) == Run(ps[..n])
    decreases |ps| - n
  {
    if n == |ps| {
      assert ps[..n] == ps;
    } else {
      var ps' := ps[..|ps| - 1];
      assert ps'[..n] == ps[..n];
      RunSaturated(ps', n);
    }
  }

  /** Inputs of at most 20 papers are taken whole. */
  lemma {:induction false} RunShortInput(ps: seq<Paper>)
    requires |ps| <= OpenSlots
    ensures Run(ps).sample == ps
    decreases |ps|
  {
    if |ps| > 0 {
      RunShortInput(ps[..|ps| - 1]);
      assert ps[..|ps| - 1] + [ps[|ps| - 1]] == ps;
    }
  }

  /** The first min(20, |input|) papers are all taken, in order, at the front
      of the sample. */
  lemma {:induction false} RunPrefix(ps: seq<Paper>)
    ensures var n := if |ps| < OpenSlots then |ps| else OpenSlots;
            n <= |Run(ps).sample| && Run(ps).sample[..n] == ps[..n]
  {
    if |ps| <= OpenSlots {
      RunShortInput(ps);
    } else {
      RunShortInput(ps[..OpenSlots]);
      RunExtends(ps, OpenSlots);
    }
  }

  /** The decision rule: the paper at index `i` is taken if and only if, when
      the loop reaches it, the sample is not full and either fewer than 20
      papers are taken or its primary category is not yet recorded. */
  lemma RunDecision(ps: seq<Paper>, i: nat)
    requires i < |ps|
    ensures var before := Run(ps[..i]);
            i in Run(ps).picks <==>
              |before.sample| < SampleLimit &&
              (|before.sample| < OpenSlots || PrimaryCategory(ps[i]) !in before.seen)
  {
    var before := Run(ps[..i]);
    var after := Run(ps[..i + 1]);
    RunSnoc(ps, i);
    RunSubsequence(ps[..i]);
    RunSubsequence(ps[..i + 1]);
    RunSubsequence(ps);
    RunExtends(ps, i + 1);
    var m := |after.picks|;
    if Admits(before, ps[i]) {
      assert after.picks[m - 1] == i;
      assert Run(ps).picks[m - 1] == after.picks[m - 1];
    } else {
      assert after == before;
      assert i !in Run(ps).picks;
    }
  }

  /** A paper without a primary category always passes the "not recorded"
      test, so it is taken whenever the sample is not yet full. */
  lemma MissingCategoryTaken(ps: seq<Paper>, i: nat)
    requires i < |ps|
    requires PrimaryCategory(ps[i]) == ""
    requires |Run(ps[..i]).sample| < SampleLimit
    ensures i in Run(ps).picks
  {
    RunSeen(ps[..i]);
    RunDecision(ps, i);
  }

  /** Every paper taken beyond the first 20 slots with a non-empty category
      has a category different from that of every paper taken before it. */
  lemma {:induction false} RunDistinctAfterOpenSlots(ps: seq<Paper>)
    ensures var s := Run(ps).sample;
            forall j, k :: 0 <= j < k < |s| && OpenSlots <= k && PrimaryCategory(s[k]) != "" ==>
              PrimaryCategory(s[j]) != PrimaryCategory(s[k])
    decreases |ps|
  {
    if |ps| > 0 {
      var ps' := ps[..|ps| - 1];
      var prev := Run(ps');
      var p := ps[|ps| - 1];
      RunDistinctAfterOpenSlots(ps');
      RunSeen(ps');
      var s := Run(ps).sample;
      if Admits(prev, p) {
        assert s == prev.sample + [p];
        forall j, k | 0 <= j < k < |s| && OpenSlots <= k && PrimaryCategory(s[k]) != ""
          ensures PrimaryCategory(s[j]) != PrimaryCategory(s[k])
        {
          if k == |prev.sample| {
            assert s[j] == prev.sample[j];
            if PrimaryCategory(s[j]) != "" {
              assert PrimaryCategory(s[j]) in Categories(prev.sample);
            }
          } else {
            assert s[j] == prev.sample[j] && s[k] == prev.sample[k];
          }
        }
      }
    }
  }

  /** If the sample ends below 50 papers, the loop examined every paper and
      recorded every non-empty primary category of the input. */
  lemma {:induction false} RunCoversWhenNotFull(ps: seq<Paper>)
    requires |Run(ps).sample| < SampleLimit
    ensures Run(ps).seen == Categories(ps)
    decreases |ps|
  {
    if |ps| > 0 {
      var ps' := ps[..|ps| - 1];
      var p := ps[|ps| - 1];
      RunExtends(ps, |ps| - 1);
      RunCoversWhenNotFull(ps');
      CategoriesSnoc(ps', p);
      assert ps' + [p] == ps;
    }
  }

  /** When no paper lacks a primary category, every paper taken past the first
      slot records a new category or falls in the first 20 slots, so at most
      19 papers of the sample share a category with an earlier one. */
  lemma {:induction false} RunDiversityWithoutMissing(ps: seq<Paper>)
    requires forall k :: 0 <= k < |ps| ==> PrimaryCategory(ps[k]) != ""
    ensures Run(ps).sample != [] ==> |Run(ps).seen| >= 1
    ensures |Run(ps).sample| <= |Run(ps).seen| + (OpenSlots - 1)
    decreases |ps|
  {
    if |ps| > 0 {
      var ps' := ps[..|ps| - 1];
      var p := ps[|ps| - 1];
      RunDiversityWithoutMissing(ps');
      var prev := Run(ps');
      if Admits(prev, p) {
        var c := PrimaryCategory(p);
        assert c != "";
        assert c in Run(ps).seen;
        if c !in prev.seen {
          assert |prev.seen + {c}| == |prev.seen| + 1;
        }
      }
    }
  }

  /** With every primary category present, an input covering at least 20
      distinct categories yields a sample covering at least 20. */
  lemma DiversityFloorWithoutMissing(ps: seq<Paper>)
    requires forall k :: 0 <= k < |ps| ==> PrimaryCategory(ps[k]) != ""
    requires |Categories(ps)| >= OpenSlots
    ensures |Run(ps).seen| >= OpenSlots
  {
    RunBounded(ps);
    if |Run(ps).sample| < SampleLimit {
      RunCoversWhenNotFull(ps);
    } else {
      RunDiversityWithoutMissing(ps);
    }
  }

  /** Papers without a primary category can fill the slots after the first
      20: twenty papers of one category followed by thirty uncategorised ones
      make the whole sample, whatever categories the rest of the input covers. */
  lemma MissingCategoriesDefeatFloor(ps: seq<Paper>, c: string)
    requires c != ""
    requires |ps| >= SampleLimit
    requires forall k :: 0 <= k < OpenSlots ==> PrimaryCategory(ps[k]) == c
    requires forall k :: OpenSlots <= k < SampleLimit ==> PrimaryCategory(ps[k]) == ""
    ensures Run(ps).sample == ps[..SampleLimit]
    ensures Run(ps).seen == {c}
  {
    FillOpenSlots(ps, c, SampleLimit);
    RunSaturated(ps, SampleLimit);
  }

  lemma {:induction false} FillOpenSlots(ps: seq<Paper>, c: string, n: nat)
    requires c != ""
    requires OpenSlots <= n <= SampleLimit <= |ps|
    requires forall k :: 0 <= k < OpenSlots ==> PrimaryCategory(ps[k]) == c
    requires forall k :: OpenSlots <= k < SampleLimit ==> PrimaryCategory(ps[k]) == ""
    ensures Run(ps[..n]).sample == ps[..n]
    ensures Run(ps[..n]).seen == {c}
    decreases n
  {
    if n == OpenSlots {
      RunShortInput(ps[..n]);
      RunSeen(ps[..n]);
      assert ps[0] == ps[..n][0];
      assert c in Categories(ps[..n]);
      forall d | d in Categories(ps[..n]) ensures d == c {
        var k :| 0 <= k < n && PrimaryCategory(ps[..n][k]) != "" && PrimaryCategory(ps[..n][k]) == d;
        assert ps[..n][k] == ps[k];
      }
    } else {
      FillOpenSlots(ps, c, n - 1);
      RunSnoc(ps, n - 1);
      assert ps[..n - 1] + [ps[n - 1]] == ps[..n];
    }
  }

  // ---------------------------------------------------------------------------
  // The loop

  /** The selection loop: walks `papers` in order, stops once 50 are taken,
      and returns the sample with the set of recorded categories. The ghost
      `examined` is the number of papers the loop looked at before stopping. */
  method SelectSample(papers: seq<Paper>) returns (sample: seq<Paper>, seen: set<string>, ghost examined: nat)
    ensures sample == Run(papers).sample && seen == Run(papers).seen
    ensures examined <= |papers| && Run(papers[..examined]) == Run(papers)
    ensures |sample| < SampleLimit ==> examined == |papers|
    ensures examined > 0 ==> |Run(papers[..examined - 1]).sample| < SampleLimit
    ensures |sample| <= SampleLimit
    ensures seen == Categories(sample) && "" !in seen
    ensures var n := if |papers| < OpenSlots then |papers| else OpenSlots;
            n <= |sample| && sample[..n] == papers[..n]
    ensures forall j, k :: 0 <= j < k < |sample| && OpenSlots <= k && PrimaryCategory(sample[k]) != "" ==>
              PrimaryCategory(sample[j]) != PrimaryCategory(sample[k])
  {
    sample, seen := [], {};
    ghost var picks: seq<nat> := [];
    var i := 0;
    while i < |papers|
      invariant i <= |papers|
      invariant Run(papers[..i]) == Selection(sample, seen, picks)
      invariant i > 0 ==> |Run(papers[..i - 1]).sample| < SampleLimit
    {
      if |sample| >= SampleLimit {
        break;
      }
      var c := PrimaryCategory(papers[i]);
      if c !in seen || |sample| < OpenSlots {
        sample := sample + [papers[i]];
        picks := picks + [i];
        if c != "" {
          seen := seen + {c};
        }
      }
      RunSnoc(papers, i);
      i := i + 1;
    }
    examined := i;
    if i < |papers| {
      RunSaturated(papers, i);
    } else {
      assert papers[..i] == papers;
    }
    RunBounded(papers);
    RunSeen(papers);
    RunPrefix(papers);
    RunDistinctAfterOpenSlots(papers);
  }
}
