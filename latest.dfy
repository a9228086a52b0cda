/**
 * The selection rule both resolvers share: walk the candidates in order and
 * replace the current best only when the next one is strictly newer. A
 * candidate list is given as "ballots": position `j` holds `Some(v)` when the
 * j-th record is a candidate with version `v`, and `None` when it is not a
 * candidate at all (wrong name or architecture).
 */
module Latest {
  import opened Wrappers
  import opened Versions

  /** The position of the first strictly greatest candidate, or None when there is no candidate. */
  function LatestIndex(ballots: seq<Option<string>>, less: VersionLess): (r: Option<nat>)
    ensures r.Some? ==> r.value < |ballots| && ballots[r.value].Some?
    ensures r.None? <==> forall j :: 0 <= j < |ballots| ==> ballots[j].None?
  {
    if ballots == [] then None
    else
      var last := |ballots| - 1;
      var best := LatestIndex(ballots[..last], less);
      if ballots[last].None? then best
      else if best.None? || less(ballots[best.value].value, ballots[last].value) then Some(last)
      else best
  }

  /**
   * Position `k` holds a candidate no other candidate is newer than, and every
   * earlier candidate is strictly older: the first of the newest.
   */
  ghost predicate IsFirstNewest(ballots: seq<Option<string>>, less: VersionLess, k: int) {
    && 0 <= k < |ballots|
    && ballots[k].Some?
    && (forall j :: 0 <= j < |ballots| && ballots[j].Some? ==> !less(ballots[k].value, ballots[j].value))
    && (forall j :: 0 <= j < k && ballots[j].Some? ==> less(ballots[j].value, ballots[k].value))
  }

  /** One more ballot: a non-candidate changes nothing, a candidate wins only if strictly newer. */
  lemma LatestIndexAppend(ballots: seq<Option<string>>, b: Option<string>, less: VersionLess)
    ensures var best := LatestIndex(ballots, less);
            LatestIndex(ballots + [b], less) ==
              if b.None? then best
              else if best.None? || less(ballots[best.value].value, b.value) then Some(|ballots|)
              else best
  {
    assert (ballots + [b])[..|ballots|] == ballots;
  }

  /** No candidate is strictly newer than the chosen one. */
  lemma {:induction false} LatestIsNewest(ballots: seq<Option<string>>, less: VersionLess)
    requires Irreflexive(less) && Transitive(less)
    ensures var r := LatestIndex(ballots, less);
            r.Some? ==> forall j :: 0 <= j < |ballots| && ballots[j].Some? ==>
                          !less(ballots[r.value].value, ballots[j].value)
  {
    if ballots != [] {
      var last := |ballots| - 1;
      var prefix := ballots[..last];
      assert ballots == prefix + [ballots[last]];
      LatestIsNewest(prefix, less);
      LatestIndexAppend(prefix, ballots[last], less);
      var r := LatestIndex(ballots, less);
      if r.Some? {
        forall j | 0 <= j < |ballots| && ballots[j].Some?
          ensures !less(ballots[r.value].value, ballots[j].value)
        {
          if j < last {
            assert prefix[j] == ballots[j];
          }
        }
      }
    }
  }

  /** Every candidate before the chosen one is strictly older: ties go to the first. */
  lemma {:induction false} LatestIsFirst(ballots: seq<Option<string>>, less: VersionLess)
    requires StrictWeakOrder(less)
    ensures var r := LatestIndex(ballots, less);
            r.Some? ==> forall j :: 0 <= j < r.value && ballots[j].Some? ==>
                          less(ballots[j].value, ballots[r.value].value)
  {
    if ballots != [] {
      var last := |ballots| - 1;
      var prefix := ballots[..last];
      assert ballots == prefix + [ballots[last]];
      LatestIsFirst(prefix, less);
      LatestIsNewest(prefix, less);
      LatestIndexAppend(prefix, ballots[last], less);
      var best := LatestIndex(prefix, less);
      if ballots[last].Some? && best.Some? && less(prefix[best.value].value, ballots[last].value) {
        var v := ballots[last].value;
        forall j | 0 <= j < last && ballots[j].Some?
          ensures less(ballots[j].value, v)
        {
          assert prefix[j] == ballots[j];
          if j < best.value {
            assert less(ballots[j].value, prefix[best.value].value);
          } else if j > best.value {
            assert !less(prefix[best.value].value, ballots[j].value);
          }
        }
      }
    }
  }

  /** LatestIndex picks exactly the first of the newest candidates. */
  lemma LatestIndexCharacterised(ballots: seq<Option<string>>, less: VersionLess, k: int)
    requires StrictWeakOrder(less)
    ensures LatestIndex(ballots, less) == Some(k) <==> IsFirstNewest(ballots, less, k)
  {
    LatestIsNewest(ballots, less);
    LatestIsFirst(ballots, less);
  }
}
