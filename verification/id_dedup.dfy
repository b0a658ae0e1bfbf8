/** `list(dict.fromkeys(ids))`: the instance ids given to `start` and `stop`,
    with repeats dropped and each id kept where it first appears. */
module IdDedup {
  import opened Strings

  /** The ids in the order a dict first sees them, each once. */
  function Dedup(ids: seq<string>): (r: seq<string>)
    ensures |r| <= |ids|
  {
    if |ids| == 0 then []
    else
      var kept := Dedup(ids[..|ids| - 1]);
      if ids[|ids| - 1] in kept then kept else kept + [ids[|ids| - 1]]
  }

  predicate Distinct(ids: seq<string>) {
    forall i, j :: 0 <= i < j < |ids| ==> ids[i] != ids[j]
  }

  /** The result keeps exactly the ids of the input, each once. */
  lemma {:induction false} DedupSameIds(ids: seq<string>)
    ensures forall x :: x in Dedup(ids) <==> x in ids
    ensures Distinct(Dedup(ids))
  {
    if |ids| > 0 {
      var init := ids[..|ids| - 1];
      DedupSameIds(init);
      assert ids == init + [ids[|ids| - 1]];
    }
  }

  /** Looking an id up in a longer list finds the same first position. */
  lemma {:induction false} IndexOfSnoc(xs: seq<string>, y: string, x: string)
    requires x in xs
    ensures IndexOf(xs + [y], x) == IndexOf(xs, x)
  {
    if xs[0] != x {
      assert (xs + [y])[1..] == xs[1..] + [y];
      IndexOfSnoc(xs[1..], y, x);
    }
  }

  /** The ids come out in the order of their first appearance in the input. */
  lemma {:induction false} DedupFirstSeenOrder(ids: seq<string>)
    ensures forall i, j :: 0 <= i < j < |Dedup(ids)| ==>
      IndexOf(ids, Dedup(ids)[i]).Some? && IndexOf(ids, Dedup(ids)[j]).Some? &&
      IndexOf(ids, Dedup(ids)[i]).value < IndexOf(ids, Dedup(ids)[j]).value
  {
    DedupSameIds(ids);
    if |ids| > 0 {
      var init, last := ids[..|ids| - 1], ids[|ids| - 1];
      var kept := Dedup(init);
      DedupFirstSeenOrder(init);
      DedupSameIds(init);
      assert ids == init + [last];
      forall x | x in init ensures IndexOf(ids, x) == IndexOf(init, x) {
        IndexOfSnoc(init, last, x);
      }
      if last !in init {
        assert IndexOf(ids, last).value == |init|;
      }
    }
  }

  /** Ids without repeats come back unchanged, so deduplicating twice is
      deduplicating once. */
  lemma {:induction false} DedupOfDistinct(ids: seq<string>)
    requires Distinct(ids)
    ensures Dedup(ids) == ids
  {
    if |ids| > 0 {
      var init := ids[..|ids| - 1];
      DedupOfDistinct(init);
      assert ids == init + [ids[|ids| - 1]];
    }
  }

  lemma DedupIdempotent(ids: seq<string>)
    ensures Dedup(Dedup(ids)) == Dedup(ids)
  {
    DedupSameIds(ids);
    DedupOfDistinct(Dedup(ids));
  }
}
