/**
 * The list part of `appendReportHistory`: the new report goes to the front,
 * any older report with the same id is removed, and at most five are kept.
 * Reading and writing browser storage is not modelled.
 */
module ReportHistory {

  datatype Report<P> = Report(id: string, payload: P)

  const MaxReports := 5

  /** `a` is `b` with some entries removed, the rest in their original order. */
  predicate Subseq<T(==)>(a: seq<T>, b: seq<T>)
    decreases |b|
  {
    |a| <= |b| && (a == [] || (a[0] == b[0] && Subseq(a[1..], b[1..])) || Subseq(a, b[1..]))
  }

  /** `history.filter((item) => item.id !== id)` */
  function WithoutId<P>(history: seq<Report<P>>, id: string): (r: seq<Report<P>>)
    ensures |r| <= |history|
    ensures forall k :: 0 <= k < |r| ==> r[k].id != id
    ensures forall k :: 0 <= k < |r| ==> r[k] in history
    ensures forall k :: 0 <= k < |history| && history[k].id != id ==> history[k] in r
  {
    if history == [] then []
    else if history[0].id != id then [history[0]] + WithoutId(history[1..], id)
    else WithoutId(history[1..], id)
  }

  /** `[report, ...filtered].slice(0, 5)` */
  function AppendReportHistory<P>(history: seq<Report<P>>, report: Report<P>): (r: seq<Report<P>>)
    ensures 1 <= |r| <= MaxReports
    ensures r[0] == report
    ensures forall k :: 1 <= k < |r| ==> r[k].id != report.id
    ensures |r| == if |WithoutId(history, report.id)| < MaxReports then 1 + |WithoutId(history, report.id)| else MaxReports
  {
    var filtered := WithoutId(history, report.id);
    ([report] + filtered)[..if |filtered| < MaxReports then 1 + |filtered| else MaxReports]
  }

  lemma {:induction false} WithoutIdIsSubseq<P>(history: seq<Report<P>>, id: string)
    ensures Subseq(WithoutId(history, id), history)
  {
    if history != [] {
      WithoutIdIsSubseq(history[1..], id);
      var r := WithoutId(history, id);
      if history[0].id != id {
        assert r[0] == history[0] && r[1..] == WithoutId(history[1..], id);
      }
    }
  }

  lemma {:induction false} SubseqPrefix<T>(a: seq<T>, b: seq<T>, n: nat)
    requires Subseq(a, b) && n <= |a|
    ensures Subseq(a[..n], b)
    decreases |b|
  {
    if n > 0 {
      if a[0] == b[0] && Subseq(a[1..], b[1..]) {
        SubseqPrefix(a[1..], b[1..], n - 1);
        assert a[..n][1..] == a[1..][..n - 1];
      } else {
        SubseqPrefix(a, b[1..], n);
      }
    }
  }

  /** The older reports that remain keep their relative order, and none is invented. */
  lemma OlderReportsKeepOrder<P>(history: seq<Report<P>>, report: Report<P>)
    ensures Subseq(AppendReportHistory(history, report)[1..], history)
  {
    var r := AppendReportHistory(history, report);
    var filtered := WithoutId(history, report.id);
    WithoutIdIsSubseq(history, report.id);
    AfterNewestIsPrefix(history, report);
    SubseqPrefix(filtered, history, |r| - 1);
  }

  /** Behind the new report come the first survivors of the filter, in order. */
  lemma AfterNewestIsPrefix<P>(history: seq<Report<P>>, report: Report<P>)
    ensures var r, filtered := AppendReportHistory(history, report), WithoutId(history, report.id);
            |r| - 1 <= |filtered| && r[1..] == filtered[..|r| - 1]
  {
    var filtered := WithoutId(history, report.id);
    DropHead(report, filtered, if |filtered| < MaxReports then 1 + |filtered| else MaxReports);
  }

  lemma DropHead<T>(x: T, s: seq<T>, m: nat)
    requires 1 <= m <= 1 + |s|
    ensures ([x] + s)[..m][1..] == s[..m - 1]
  {
    assert ([x] + s)[1..] == s;
  }

  /** Filtering distributes over concatenation. */
  lemma {:induction false} WithoutIdAppend<P>(a: seq<Report<P>>, b: seq<Report<P>>, id: string)
    ensures WithoutId(a + b, id) == WithoutId(a, id) + WithoutId(b, id)
    decreases |a|
  {
    if a != [] {
      WithoutIdAppend(a[1..], b, id);
      assert (a + b)[1..] == a[1..] + b;
    } else {
      assert a + b == b;
    }
  }

  /**
   * Exactly which older reports survive: the report at index `j` with another
   * id is preceded by `c` surviving older reports, and it is kept, right after
   * them at position `1 + c`, exactly when `c` is below four.
   */
  lemma SurvivorPlacement<P>(history: seq<Report<P>>, report: Report<P>, j: nat)
    requires j < |history| && history[j].id != report.id
    ensures var c := |WithoutId(history[..j], report.id)|;
            var r := AppendReportHistory(history, report);
            && (1 + c < |r| <==> c < MaxReports - 1)
            && (1 + c < |r| ==> r[1 + c] == history[j])
  {
    var id := report.id;
    var before, after := history[..j], history[j + 1..];
    assert history == before + ([history[j]] + after);
    WithoutIdAppend(before, [history[j]] + after, id);
    WithoutIdAppend([history[j]], after, id);
    assert WithoutId([history[j]], id) == [history[j]] by {
      assert [history[j]][1..] == [];
    }
    var filtered := WithoutId(history, id);
    var c := |WithoutId(before, id)|;
    assert filtered == WithoutId(before, id) + [history[j]] + WithoutId(after, id);
    assert filtered[c] == history[j];
    AfterNewestIsPrefix(history, report);
  }

  /** An older report is dropped only because it shares the new id or falls past the fifth place. */
  lemma KeptUnlessReplacedOrFull<P>(history: seq<Report<P>>, report: Report<P>, x: Report<P>)
    requires x in history && x.id != report.id
    requires |history| < MaxReports
    ensures x in AppendReportHistory(history, report)
  {
    var filtered := WithoutId(history, report.id);
    var r := AppendReportHistory(history, report);
    assert r == [report] + filtered;
    assert x in filtered;
  }

  /** Re-adding the newest report changes nothing. */
  lemma ReAddingNewestIsStable<P>(history: seq<Report<P>>, report: Report<P>)
    ensures var h := AppendReportHistory(history, report);
            AppendReportHistory(h, report) == h
  {
    var h := AppendReportHistory(history, report);
    assert WithoutId(h, report.id) == WithoutId(h[1..], report.id);
    WithoutIdKeeps(h[1..], report.id);
    assert [report] + h[1..] == h;
  }

  lemma {:induction false} WithoutIdKeeps<P>(s: seq<Report<P>>, id: string)
    requires forall k :: 0 <= k < |s| ==> s[k].id != id
    ensures WithoutId(s, id) == s
  {
    if s != [] {
      WithoutIdKeeps(s[1..], id);
    }
  }
}
