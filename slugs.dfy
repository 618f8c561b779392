/** `makeUniqueSlug` of build.js and the set of slugs it fills: a slug already taken
    gets the first free suffix `-1`, `-2`, ... */
module Slugs {
  import opened Text

  /** The candidate `${base}-${i}`. */
  function Candidate(base: string, i: nat): string {
    base + "-" + NatToString(i)
  }

  /** Different counters give different candidates. */
  lemma CandidateInjective(base: string, i: nat, j: nat)
    requires Candidate(base, i) == Candidate(base, j)
    ensures i == j
  {
    var p := base + "-";
    assert Candidate(base, i)[|p|..] == NatToString(i);
    assert Candidate(base, j)[|p|..] == NatToString(j);
    NatToStringInjective(i, j);
  }

  /** The candidates with counters `1 .. i - 1`. */
  function CandidatesBelow(base: string, i: nat): set<string> {
    set j | 1 <= j < i :: Candidate(base, j)
  }

  lemma {:induction false} CandidatesBelowSize(base: string, i: nat)
    requires i >= 1
    ensures |CandidatesBelow(base, i)| == i - 1
  {
    if i > 1 {
      CandidatesBelowSize(base, i - 1);
      var c := Candidate(base, i - 1);
      assert CandidatesBelow(base, i) == CandidatesBelow(base, i - 1) + {c};
      if c in CandidatesBelow(base, i - 1) {
        var j :| 1 <= j < i - 1 && c == Candidate(base, j);
        CandidateInjective(base, j, i - 1);
      }
    } else {
      assert CandidatesBelow(base, i) == {};
    }
  }

  lemma {:induction false} SubsetSize(s: set<string>, t: set<string>)
    requires s <= t
    ensures |s| <= |t|
    decreases |s|
  {
    if s != {} {
      var x :| x in s;
      SubsetSize(s - {x}, t - {x});
    }
  }

  /** All candidates with counters `1 .. i - 1` taken: there are at most as many as
      the taken slugs. */
  lemma TakenBound(base: string, existing: set<string>, i: nat)
    requires i >= 1 && forall j :: 1 <= j < i ==> Candidate(base, j) in existing
    ensures i - 1 <= |existing|
  {
    CandidatesBelowSize(base, i);
    SubsetSize(CandidatesBelow(base, i), existing);
  }

  /** The smallest counter from `i` on whose candidate is free. */
  function FirstFree(base: string, existing: set<string>, i: nat): (n: nat)
    requires i >= 1 && forall j :: 1 <= j < i ==> Candidate(base, j) in existing
    ensures n >= i && Candidate(base, n) !in existing
    ensures forall j :: 1 <= j < n ==> Candidate(base, j) in existing
    decreases |existing| + 1 - i
  {
    TakenBound(base, existing, i);
    if Candidate(base, i) !in existing then i
    else
      TakenBound(base, existing, i + 1);
      FirstFree(base, existing, i + 1)
  }

  /** The specification of `makeUniqueSlug`: `base` itself when it is free, else
      the first free candidate. */
  function UniqueSlug(base: string, existing: set<string>): string {
    if base !in existing then base else Candidate(base, FirstFree(base, existing, 1))
  }

  /** `i >= 1` is the smallest counter whose candidate is free. */
  predicate SmallestFree(base: string, existing: set<string>, i: nat) {
    i >= 1 && Candidate(base, i) !in existing && forall j :: 1 <= j < i ==> Candidate(base, j) in existing
  }

  /** The slug returned is never one already taken. */
  lemma UniqueSlugFresh(base: string, existing: set<string>)
    ensures UniqueSlug(base, existing) !in existing
  {}

  /** A free base is returned unchanged; a taken one gets the smallest counter
      `i >= 1` whose candidate is free. */
  lemma UniqueSlugSmallest(base: string, existing: set<string>)
    ensures base !in existing ==> UniqueSlug(base, existing) == base
    ensures base in existing ==> exists i: nat :: SmallestFree(base, existing, i) && UniqueSlug(base, existing) == Candidate(base, i)
  {
    if base in existing {
      var n := FirstFree(base, existing, 1);
      assert UniqueSlug(base, existing) == Candidate(base, n);
    }
  }

  /** The first free counter is determined by the taken set: any counter whose
      candidate is free while all smaller ones are taken is it. */
  lemma FirstFreeIs(base: string, existing: set<string>, n: nat)
    requires n >= 1 && Candidate(base, n) !in existing
    requires forall j :: 1 <= j < n ==> Candidate(base, j) in existing
    ensures FirstFree(base, existing, 1) == n
  {}

  /** The `existingSlugs` set, which `makeUniqueSlug` fills. */
  class SlugSet {
    var slugs: set<string>

    constructor ()
      ensures slugs == {}
    {
      slugs := {};
    }

    /** `existing.has(slug)`. */
    function Has(slug: string): (b: bool)
      reads this
      ensures b <==> slug in slugs
    {
      slug in slugs
    }

    /** `existing.add(slug)`. */
    method Add(slug: string)
      modifies this
      ensures slugs == old(slugs) + {slug}
    {
      slugs := slugs + {slug};
    }
  }

  /** `makeUniqueSlug(base, existing)`: try `base`, then `base-1`, `base-2`, ...
      until one is free, and add it to the set. */
  method MakeUniqueSlug(base: string, existing: SlugSet) returns (slug: string)
    modifies existing
    ensures slug == UniqueSlug(base, old(existing.slugs))
    ensures slug !in old(existing.slugs)
    ensures existing.slugs == old(existing.slugs) + {slug}
  {
    slug := base;
    var i: nat := 1;
    while existing.Has(slug)
      invariant existing.slugs == old(existing.slugs)
      invariant i >= 1
      invariant slug == if i == 1 then base else Candidate(base, i - 1)
      invariant i > 1 ==> base in existing.slugs
      invariant forall j :: 1 <= j < i - 1 ==> Candidate(base, j) in existing.slugs
      invariant i - 1 <= |existing.slugs| + 1
      decreases |existing.slugs| + 2 - i
    {
      if i > 1 {
        TakenBound(base, existing.slugs, i);
      }
      slug := Candidate(base, i);
      i := i + 1;
    }
    if i > 1 {
      FirstFreeIs(base, existing.slugs, i - 1);
    }
    existing.Add(slug);
  }
}
