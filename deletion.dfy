/** The batch deletion of main.go:105-149: the deletion count announced
    before the confirmation prompt, and the loop that walks the listed tag
    IDs, skips allowlisted ones, skips everything in dry-run mode, and
    otherwise issues one single-tag delete per tag followed by one
    rate-limit pause.  The remote delete is an oracle: `deleteSucceeds(k)`
    is the outcome of the k-th delete call of the run (0-based). */
module Deletion {

  predicate Distinct(s: seq<string>) {
    forall i, j | 0 <= i < j < |s| :: s[i] != s[j]
  }

  function Elements(s: seq<string>): set<string> {
    set x | x in s
  }

  /** The listed tags that are not allowlisted, in listing order: the tags a
      run that is not a dry run sends a delete for. */
  function Deletable(tags: seq<string>, allowlist: seq<string>): (r: seq<string>)
    ensures |r| <= |tags|
    decreases |tags|
  {
    if tags == [] then []
    else
      var t := tags[|tags| - 1];
      Deletable(tags[..|tags| - 1], allowlist) + (if t in allowlist then [] else [t])
  }

  /** The listed tags that are allowlisted, in listing order.  Together with
      the deletable ones they account for every listed tag. */
  function Allowlisted(tags: seq<string>, allowlist: seq<string>): (r: seq<string>)
    ensures |r| + |Deletable(tags, allowlist)| == |tags|
    decreases |tags|
  {
    if tags == [] then []
    else
      var t := tags[|tags| - 1];
      Allowlisted(tags[..|tags| - 1], allowlist) + (if t in allowlist then [t] else [])
  }

  /** How many of the first n delete calls succeed. */
  function SucceededCalls(deleteSucceeds: nat -> bool, n: nat): (r: nat)
    ensures r <= n
  {
    if n == 0 then 0
    else SucceededCalls(deleteSucceeds, n - 1) + (if deleteSucceeds(n - 1) then 1 else 0)
  }

  /** The figure main.go:105-114 prints before asking for confirmation: all
      tags when the allowlist is empty, otherwise the tag count less the
      number of allowlist entries, never below zero.  It is an estimate: see
      AnnouncedIsLowerBound and AnnouncedExactWhenEntriesMatch. */
  function AnnouncedDeletions(tagCount: nat, allowlist: seq<string>): (n: nat)
    ensures n <= tagCount
    ensures allowlist == [] ==> n == tagCount
    ensures n + |allowlist| >= tagCount
    ensures allowlist != [] && |allowlist| <= tagCount ==> n + |allowlist| == tagCount
    ensures allowlist != [] && tagCount <= |allowlist| ==> n == 0
  {
    if |allowlist| == 0 then tagCount
    else if tagCount - |allowlist| < 0 then 0
    else tagCount - |allowlist|
  }

  /** One more listed tag: the deletable tags of the longer prefix. */
  lemma PrefixStep(tags: seq<string>, i: nat, allowlist: seq<string>)
    requires i < |tags|
    ensures Deletable(tags[..i + 1], allowlist)
         == Deletable(tags[..i], allowlist) + (if tags[i] in allowlist then [] else [tags[i]])
  {
    assert tags[..i + 1][..i] == tags[..i];
  }

  lemma SucceededCallsNext(deleteSucceeds: nat -> bool, n: nat)
    ensures SucceededCalls(deleteSucceeds, n + 1) == SucceededCalls(deleteSucceeds, n) + (if deleteSucceeds(n) then 1 else 0)
  {
  }

  /** Only listed tags that are not allowlisted are deleted. */
  lemma {:induction false} DeletableSound(tags: seq<string>, allowlist: seq<string>, t: string)
    requires t in Deletable(tags, allowlist)
    ensures t in tags && t !in allowlist
    decreases |tags|
  {
    var init := tags[..|tags| - 1];
    if t in Deletable(init, allowlist) {
      DeletableSound(init, allowlist, t);
    }
  }

  /** The loop of main.go:120-149.  Returns the two counters, the IDs sent to
      the delete endpoint in call order, and the number of rate-limit
      pauses.  Every listed tag is visited once: allowlisted tags and, in a
      dry run, all tags are skipped with no call and no pause; every other
      tag gets exactly one single-tag delete, whose outcome goes to one of
      the two counters, and then one pause, whether or not it failed. */
  method RunDeletions(tags: seq<string>, allowlist: seq<string>, dryRun: bool, deleteSucceeds: nat -> bool)
    returns (successes: nat, failures: nat, trace: seq<string>, pauses: nat)
    ensures trace == if dryRun then [] else Deletable(tags, allowlist)
    ensures forall t | t in trace :: t in tags && t !in allowlist
    ensures successes == SucceededCalls(deleteSucceeds, |trace|)
    ensures successes + failures == |trace| && pauses == |trace|
    ensures dryRun ==> successes == 0 && failures == 0 && pauses == 0
  {
    successes, failures, trace, pauses := 0, 0, [], 0;
    for i := 0 to |tags|
      invariant dryRun ==> trace == []
      invariant !dryRun ==> trace == Deletable(tags[..i], allowlist)
      invariant successes == SucceededCalls(deleteSucceeds, |trace|)
      invariant successes + failures == |trace| && pauses == |trace|
    {
      var tag := tags[i];
      PrefixStep(tags, i, allowlist);
      if tag in allowlist {
        continue;
      }
      if dryRun {
        continue;
      }
      var call := |trace|;
      SucceededCallsNext(deleteSucceeds, call);
      var succeeded := deleteSucceeds(call);
      trace := trace + [tag];
      assert |trace| == call + 1;
      if succeeded {
        successes := successes + 1;
      } else {
        failures := failures + 1;
      }
      pauses := pauses + 1;
    }
    assert tags[..|tags|] == tags;
    forall t | t in trace ensures t in tags && t !in allowlist {
      DeletableSound(tags, allowlist, t);
    }
  }

  /** Every listed tag that is not allowlisted is deleted. */
  lemma {:induction false} DeletableKeeps(tags: seq<string>, allowlist: seq<string>, t: string)
    requires t in tags && t !in allowlist
    ensures t in Deletable(tags, allowlist)
    decreases |tags|
  {
    var init := tags[..|tags| - 1];
    if t != tags[|tags| - 1] {
      assert t in init by {
        var k :| 0 <= k < |tags| && tags[k] == t;
        assert init[k] == t;
      }
      DeletableKeeps(init, allowlist, t);
    }
  }

  /** Only listed tags that are allowlisted are skipped. */
  lemma {:induction false} AllowlistedSound(tags: seq<string>, allowlist: seq<string>, t: string)
    requires t in Allowlisted(tags, allowlist)
    ensures t in tags && t in allowlist
    decreases |tags|
  {
    var init := tags[..|tags| - 1];
    if t in Allowlisted(init, allowlist) {
      AllowlistedSound(init, allowlist, t);
    }
  }

  /** Every listed tag that is allowlisted is skipped. */
  lemma {:induction false} AllowlistedKeeps(tags: seq<string>, allowlist: seq<string>, t: string)
    requires t in tags && t in allowlist
    ensures t in Allowlisted(tags, allowlist)
    decreases |tags|
  {
    var init := tags[..|tags| - 1];
    if t != tags[|tags| - 1] {
      assert t in init by {
        var k :| 0 <= k < |tags| && tags[k] == t;
        assert init[k] == t;
      }
      AllowlistedKeeps(init, allowlist, t);
    }
  }

  /** Deletion order is listing order: the deletes of two consecutive
      stretches of the listing are those of the first, then those of the
      second. */
  lemma {:induction false} DeletableAppend(a: seq<string>, b: seq<string>, allowlist: seq<string>)
    ensures Deletable(a + b, allowlist) == Deletable(a, allowlist) + Deletable(b, allowlist)
    decreases |b|
  {
    if b == [] {
      assert a + b == a;
    } else {
      var b' := b[..|b| - 1];
      assert (a + b)[..|a + b| - 1] == a + b';
      assert (a + b)[|a + b| - 1] == b[|b| - 1];
      DeletableAppend(a, b', allowlist);
    }
  }

  /** With an empty allowlist every listed tag is deleted, in order. */
  lemma {:induction false} DeletableWithEmptyAllowlist(tags: seq<string>)
    ensures Deletable(tags, []) == tags
    decreases |tags|
  {
    if tags != [] {
      DeletableWithEmptyAllowlist(tags[..|tags| - 1]);
      assert tags[..|tags| - 1] + [tags[|tags| - 1]] == tags;
    }
  }

  lemma DistinctSnoc(s: seq<string>, x: string)
    requires Distinct(s) && x !in s
    ensures Distinct(s + [x])
  {
    forall i, j | 0 <= i < j < |s + [x]| ensures (s + [x])[i] != (s + [x])[j] {
      if j == |s| {
        assert (s + [x])[i] == s[i];
      } else {
        assert (s + [x])[i] == s[i] && (s + [x])[j] == s[j];
      }
    }
  }

  lemma DistinctInit(s: seq<string>)
    requires Distinct(s) && s != []
    ensures Distinct(s[..|s| - 1]) && s[|s| - 1] !in s[..|s| - 1]
  {
  }

  /** When the listing holds no repeated ID, no tag is deleted twice. */
  lemma {:induction false} DeletableDistinct(tags: seq<string>, allowlist: seq<string>)
    requires Distinct(tags)
    ensures Distinct(Deletable(tags, allowlist))
    decreases |tags|
  {
    if tags != [] {
      var init, t := tags[..|tags| - 1], tags[|tags| - 1];
      DistinctInit(tags);
      DeletableDistinct(init, allowlist);
      if t !in allowlist {
        if t in Deletable(init, allowlist) {
          DeletableSound(init, allowlist, t);
        }
        DistinctSnoc(Deletable(init, allowlist), t);
      }
    }
  }

  lemma {:induction false} AllowlistedDistinct(tags: seq<string>, allowlist: seq<string>)
    requires Distinct(tags)
    ensures Distinct(Allowlisted(tags, allowlist))
    decreases |tags|
  {
    if tags != [] {
      var init, t := tags[..|tags| - 1], tags[|tags| - 1];
      DistinctInit(tags);
      AllowlistedDistinct(init, allowlist);
      if t in allowlist {
        if t in Allowlisted(init, allowlist) {
          AllowlistedSound(init, allowlist, t);
        }
        DistinctSnoc(Allowlisted(init, allowlist), t);
      }
    }
  }

  /** A sequence has at most as many different elements as entries, and
      exactly as many when no entry repeats. */
  lemma {:induction false} ElementsCard(s: seq<string>)
    ensures |Elements(s)| <= |s|
    ensures Distinct(s) ==> |Elements(s)| == |s|
    decreases |s|
  {
    if s != [] {
      var init, x := s[..|s| - 1], s[|s| - 1];
      ElementsCard(init);
      assert Elements(s) == Elements(init) + {x} by {
        assert s == init + [x];
      }
      if Distinct(s) {
        DistinctInit(s);
        assert x !in Elements(init);
      }
    } else {
      assert Elements(s) == {};
    }
  }

  lemma SubsetCard(a: set<string>, b: set<string>)
    requires a <= b
    ensures |a| <= |b|
  {
    assert b == a + (b - a);
    assert a * (b - a) == {};
  }

  /** The announced figure never exceeds the deletions a real run issues,
      provided the listing holds no repeated ID: an allowlist entry can spare
      at most one listed tag, and duplicate entries or entries that match no
      tag spare none. */
  lemma AnnouncedIsLowerBound(tags: seq<string>, allowlist: seq<string>)
    requires Distinct(tags)
    ensures AnnouncedDeletions(|tags|, allowlist) <= |Deletable(tags, allowlist)|
  {
    var kept := Allowlisted(tags, allowlist);
    AllowlistedDistinct(tags, allowlist);
    ElementsCard(kept);
    ElementsCard(allowlist);
    forall e | e in Elements(kept) ensures e in Elements(allowlist) {
      AllowlistedSound(tags, allowlist, e);
    }
    SubsetCard(Elements(kept), Elements(allowlist));
  }

  /** The announced figure is the real number of deletions when the
      allowlist has no duplicate entry and every entry names a listed tag. */
  lemma AnnouncedExactWhenEntriesMatch(tags: seq<string>, allowlist: seq<string>)
    requires Distinct(tags) && Distinct(allowlist)
    requires forall e | e in allowlist :: e in tags
    ensures AnnouncedDeletions(|tags|, allowlist) == |Deletable(tags, allowlist)|
  {
    var kept := Allowlisted(tags, allowlist);
    AllowlistedDistinct(tags, allowlist);
    ElementsCard(kept);
    ElementsCard(allowlist);
    forall e | e in Elements(allowlist) ensures e in Elements(kept) {
      AllowlistedKeeps(tags, allowlist, e);
    }
    forall e | e in Elements(kept) ensures e in Elements(allowlist) {
      AllowlistedSound(tags, allowlist, e);
    }
    assert Elements(kept) == Elements(allowlist);
  }

  /** With an empty allowlist the announcement is exact: all tags. */
  lemma AnnouncedWithEmptyAllowlist(tags: seq<string>)
    ensures AnnouncedDeletions(|tags|, []) == |Deletable(tags, [])| == |tags|
  {
    DeletableWithEmptyAllowlist(tags);
  }

  /** An entry that names no tag lowers the figure but spares nothing:
      allowlist ["keep1", "keep2"] over tags ["keep1", "a", "b"] announces
      one deletion and deletes two. */
  lemma AnnouncedUndercountsUnmatchedEntry()
    ensures AnnouncedDeletions(3, ["keep1", "keep2"]) == 1
    ensures Deletable(["keep1", "a", "b"], ["keep1", "keep2"]) == ["a", "b"]
  {
  }

  /** A repeated entry is subtracted twice: allowlist ["a", "a"] over tags
      ["a", "b"] announces no deletion and deletes one. */
  lemma AnnouncedUndercountsDuplicateEntry()
    ensures AnnouncedDeletions(2, ["a", "a"]) == 0
    ensures Deletable(["a", "b"], ["a", "a"]) == ["b"]
  {
  }

  /** Without distinct IDs the figure can also be too high: tags ["a", "a"]
      with allowlist ["a"] announce one deletion and delete none. */
  lemma AnnouncedOvercountsRepeatedTag()
    ensures AnnouncedDeletions(2, ["a"]) == 1
    ensures Deletable(["a", "a"], ["a"]) == []
  {
  }
}
