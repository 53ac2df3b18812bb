/** What a reader's comparisons of two pages mean on their fields (src/lib/abi/root_status_reader.c). */
module StatusCompare {
  import opened Words
  import opened Regions
  import opened SpecPage
  import opened StatusPage
  import opened RootPolicy
  import opened Status
  import opened StatusReader
  import opened StatusRules
  import opened StatusRuns

  /** A read of a quiet page succeeds on exactly the pages that check, and is torn while none is published. */
  lemma ReadExactly(s: StatusBytes, attempts: nat)
    ensures QuietRead(s, attempts) == ReadOk <==> attempts > 0 && StatusChecks(s)
    ensures QuietRead(s, attempts) == ReadTorn <==> attempts == 0 || SeqWord(s) == 0 || SeqWord(s) % 2 == 1
    ensures QuietRead(s, attempts) != ReadSize
  {
    hide PageBytes, Load64;
    if StatusChecks(s) {
      AcceptsExactly(s);
      hide StatusChecks;
      var p: StatusPage :| s == PageBytes(p) && HeaderMakesSense(p.header);
      PageHeaderLoads(p);
    }
  }

  /** Some counter that never falls within a Root generation is lower. */
  ghost predicate CountsBack(p: StatusPage, q: StatusPage) {
    || q.header.seqWord < p.header.seqWord || q.header.eventHead < p.header.eventHead
    || q.header.beamIncarnation < p.header.beamIncarnation
    || exists i :: 0 <= i < CHILD_COUNT && RowCountsBack(p, q, i)
  }

  ghost predicate RowCountsBack(p: StatusPage, q: StatusPage, i: nat)
    requires i < CHILD_COUNT
  {
    || q.children[i].lifetimeCount < p.children[i].lifetimeCount
    || q.children[i].cumulativeDownTicks < p.children[i].cumulativeDownTicks
  }

  /**
   * Exactly when a page reads as a regression of another: an older Root generation, or within one a
   * counter that fell, or different content under the same sequence.
   */
  lemma RegressionMeaning(p: StatusPage, q: StatusPage)
    ensures WentBack(PageBytes(p), PageBytes(q)) <==>
            || q.header.rootGeneration < p.header.rootGeneration
            || (&& q.header.rootGeneration == p.header.rootGeneration
                && if q.header.seqWord == p.header.seqWord then p != q else CountsBack(p, q))
  {
    hide PageBytes, Load64, Load32, Decode;
    PageHeaderLoads(p);
    PageHeaderLoads(q);
    PageReads(p);
    PageReads(q);
    RowsMeaning(p, q);
    hide RowsKeptUp;
  }

  lemma RowsMeaning(p: StatusPage, q: StatusPage)
    ensures RowsKeptUp(PageBytes(p), PageBytes(q), CHILD_COUNT) <==>
            !exists i :: 0 <= i < CHILD_COUNT && RowCountsBack(p, q, i)
  {
    hide PageBytes, Load64, Load32;
    var a, b := PageBytes(p), PageBytes(q);
    forall i | 0 <= i < CHILD_COUNT
      ensures RowCountsBack(p, q, i) <==> Lifetime(b, i) < Lifetime(a, i) || DownTicks(b, i) < DownTicks(a, i)
    {
      PageRowLoads(p, i);
      PageRowLoads(q, i);
    }
    if RowsKeptUp(a, b, CHILD_COUNT) {
      forall i | 0 <= i < CHILD_COUNT
        ensures !RowCountsBack(p, q, i)
      {
        assert Lifetime(a, i) <= Lifetime(b, i);
      }
    }
  }

  /** What root_status_observe reports of a page beside one seen before, on their fields. */
  lemma FreshnessMeaning(prior: Option<StatusPage>, page: StatusPage, ticks: uint64, frequency: uint64)
    ensures var bytes: Option<StatusBytes> := if prior.Some? then Some(PageBytes(prior.value)) else None;
            var f, h := FreshnessOf(bytes, PageBytes(page), ticks, frequency), page.header;
            var same := prior.Some? && prior.value.header.rootGeneration == h.rootGeneration;
            && (f.changed <==> !same || prior.value.header.seqWord != h.seqWord)
            && (f.ageKnown <==> h.cntfrq != 0 && h.cntfrq == frequency && h.nowTicks <= ticks)
            && (f.ageKnown ==> h.nowTicks + f.ageTicks == ticks) && (!f.ageKnown ==> f.ageTicks == 0)
            && f.missedEvents == if same then Missed(prior.value.header.eventHead, h.eventHead) else 0
  {
    hide Load64, PageBytes;
    PageHeaderLoads(page);
    if prior.Some? {
      PageHeaderLoads(prior.value);
    }
  }

  /** Misses are the events between two heads that the ring no longer holds. */
  lemma MissedMeaning(previousHead: uint64, head: uint64, i: nat)
    ensures i < Missed(previousHead, head) <==> previousHead + i + EVENT_COUNT < head
  {
  }

  /**
   * A page published with a valid clock ages with its reader's clock, when they count alike; one
   * published without a clock has no age; and each publish reads as a change of the page before.
   */
  lemma AgeIsSincePublish(r: Run, publish: Act, ticks: uint64, frequency: uint64)
    requires publish.Publish? && Publishing(r, publish).ok && HeaderAgrees(r)
    ensures var before, after := PageBytes(r.page), PageBytes(Acted(r, publish).page);
            var f := FreshnessOf(Some(before), after, ticks, frequency);
            && f.changed && !FreshnessOf(Some(after), after, ticks, frequency).changed
            && (publish.clockValid && frequency == r.state.frequency != 0 && publish.now <= ticks ==>
                  f.ageKnown && f.ageTicks == ticks - publish.now)
            && (!publish.clockValid || frequency != r.state.frequency || frequency == 0 || ticks < publish.now ==>
                  !f.ageKnown)
  {
    hide FreshnessOf, PageBytes, RowsAfter, Pushed;
    var t := Acted(r, publish);
    FreshnessMeaning(Some(r.page), t.page, ticks, frequency);
    FreshnessMeaning(Some(t.page), t.page, ticks, frequency);
  }

  /** The header carries the publisher's sequence, as after boot and after every act. */
  ghost predicate HeaderAgrees(r: Run) {
    r.page.header.seqWord == r.state.seqWord
  }
}
