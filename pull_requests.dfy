/**
  The pull-request side of scripts/python/pull_requests.py: which fetched pull requests are
  kept (`_get_prs`) and how the kept ones are grouped by the files they touch
  (`get_prs_by_file`). The GitHub client is left out: the fetched pull requests, with their
  label names, file names and commit count, are the input.
*/
module PullRequests {
  import opened Seqs

  const TooManyFilesChanged: int := 1000
  const TooManyCommits: int := 1000

  /** A pull request as fetched: `pr.labels`, `pr.get_files()` and `pr.commits`. */
  datatype FetchedPr = FetchedPr(number: int, title: string, url: string, labels: seq<string>, files: seq<string>, commits: int)

  /** `GitHubPullRequest`. */
  datatype PullRequest = PullRequest(number: int, title: string, url: string, files: seq<string>)

  /** Labelled for localization with a signed CLA, and not suspiciously large. */
  predicate Eligible(pr: FetchedPr) {
    && "area/localization" in pr.labels
    && "cncf-cla: yes" in pr.labels
    && |pr.files| < TooManyFilesChanged
    && pr.commits < TooManyCommits
  }

  function Record(pr: FetchedPr): PullRequest {
    PullRequest(pr.number, pr.title, pr.url, pr.files)
  }

  /** The kept pull requests, in fetched order. */
  function Kept(fetched: seq<FetchedPr>): seq<PullRequest> {
    Map(Filter(fetched, Eligible), Record)
  }

  /** `_get_prs`: skip a pull request without both labels, or with 1000 files or commits or more. */
  method GetPrs(fetched: seq<FetchedPr>) returns (prs: seq<PullRequest>)
    ensures prs == Kept(fetched)
  {
    prs := [];
    var i := 0;
    while i < |fetched|
      invariant 0 <= i <= |fetched|
      invariant prs == Kept(fetched[..i])
    {
      var pr := fetched[i];
      assert fetched[..i + 1] == fetched[..i] + [pr];
      FilterConcat(fetched[..i], [pr], Eligible);
      if "area/localization" !in pr.labels || "cncf-cla: yes" !in pr.labels {
        i := i + 1;
        continue;
      }
      if |pr.files| >= TooManyFilesChanged || pr.commits >= TooManyCommits {
        i := i + 1;
        continue;
      }
      prs := prs + [Record(pr)];
      i := i + 1;
    }
    assert fetched[..i] == fetched;
  }

  /**
    A pull request is kept exactly when it is eligible, and the kept ones keep the fetched
    order: the kept list is the eligible sublist of the fetched one, record by record.
  */
  lemma KeptIsEligibleSublist(fetched: seq<FetchedPr>)
    ensures var e := Filter(fetched, Eligible);
      && SubsequenceOf(e, fetched)
      && Kept(fetched) == Map(e, Record)
      && (forall k :: 0 <= k < |e| ==> Eligible(e[k]))
    ensures forall k :: 0 <= k < |fetched| && Eligible(fetched[k]) ==> Record(fetched[k]) in Kept(fetched)
  {
    FilterIsSubsequence(fetched, Eligible);
    var e := Filter(fetched, Eligible);
    forall k | 0 <= k < |fetched| && Eligible(fetched[k]) ensures Record(fetched[k]) in Kept(fetched) {
      var j :| 0 <= j < |e| && e[j] == fetched[k];
      assert Kept(fetched)[j] == Record(fetched[k]);
    }
  }

  /** A pull request with a missing label, or with 1000 files or 1000 commits, is never listed. */
  lemma KeptAreSmallAndLabelled(fetched: seq<FetchedPr>, k: nat)
    requires k < |Kept(fetched)|
    ensures exists j :: (0 <= j < |fetched| && Kept(fetched)[k] == Record(fetched[j])
      && "area/localization" in fetched[j].labels && "cncf-cla: yes" in fetched[j].labels
      && |fetched[j].files| < 1000 && fetched[j].commits < 1000)
  {
    var e := Filter(fetched, Eligible);
    assert e[k] in fetched;
    var j :| 0 <= j < |fetched| && fetched[j] == e[k];
    assert Eligible(e[k]);
  }

  /** `n` copies of `pr`. */
  function Copies(pr: PullRequest, n: nat): (r: seq<PullRequest>)
    ensures |r| == n && forall k :: 0 <= k < n ==> r[k] == pr
  {
    seq(n, _ => pr)
  }

  /** The list a file ends up with: each pull request once per occurrence of the file, in order. */
  function Touching(prs: seq<PullRequest>, f: string): seq<PullRequest>
    decreases |prs|
  {
    if prs == [] then []
    else
      var last := prs[|prs| - 1];
      Touching(prs[..|prs| - 1], f) + Copies(last, multiset(last.files)[f])
  }

  /** `file_to_prs[f]`, or the empty default. */
  function Lookup(m: map<string, seq<PullRequest>>, f: string): seq<PullRequest> {
    if f in m then m[f] else []
  }

  /** A file has a non-empty list exactly when some pull request touches it. */
  lemma {:induction false} TouchingNonEmpty(prs: seq<PullRequest>, f: string)
    ensures Touching(prs, f) != [] <==> exists k :: 0 <= k < |prs| && f in prs[k].files
    decreases |prs|
  {
    if prs != [] {
      var init := prs[..|prs| - 1];
      var last := prs[|prs| - 1];
      TouchingNonEmpty(init, f);
      if f in last.files {
        assert multiset(last.files)[f] > 0;
      } else {
        assert multiset(last.files)[f] == 0;
      }
      if exists k :: 0 <= k < |prs| && f in prs[k].files {
        var k :| 0 <= k < |prs| && f in prs[k].files;
        if k < |init| {
          assert init[k] == prs[k];
        }
      }
      forall k | 0 <= k < |init| ensures init[k] == prs[k] {}
    }
  }

  /** Every pull request in a file's list touches that file. */
  lemma {:induction false} TouchingTouches(prs: seq<PullRequest>, f: string)
    ensures forall k :: 0 <= k < |Touching(prs, f)| ==> Touching(prs, f)[k] in prs && f in Touching(prs, f)[k].files
    decreases |prs|
  {
    if prs != [] {
      var init := prs[..|prs| - 1];
      var last := prs[|prs| - 1];
      TouchingTouches(init, f);
      var n := multiset(last.files)[f];
      if n > 0 {
        assert f in multiset(last.files);
      }
      var t := Touching(prs, f);
      forall k | 0 <= k < |t| ensures t[k] in prs && f in t[k].files {
        if k < |Touching(init, f)| {
          assert t[k] == Touching(init, f)[k];
          assert t[k] in init;
        } else {
          assert t[k] == last;
        }
      }
    }
  }

  /** One more occurrence of a file: that file's list grows by `pr`, every other list stays. */
  lemma AddOne(m: map<string, seq<PullRequest>>, before: map<string, seq<PullRequest>>, pr: PullRequest, j: nat)
    requires j < |pr.files|
    requires forall f :: Lookup(before, f) == Lookup(m, f) + Copies(pr, multiset(pr.files[..j])[f])
    ensures var r := before[pr.files[j] := Lookup(before, pr.files[j]) + [pr]];
      forall f :: Lookup(r, f) == Lookup(m, f) + Copies(pr, multiset(pr.files[..j + 1])[f])
  {
    var file := pr.files[j];
    var r := before[file := Lookup(before, file) + [pr]];
    forall f ensures Lookup(r, f) == Lookup(m, f) + Copies(pr, multiset(pr.files[..j + 1])[f]) {
      var n := multiset(pr.files[..j])[f];
      var n1 := multiset(pr.files[..j + 1])[f];
      CountStep(pr.files, j, f);
      if f == file {
        assert n1 == n + 1;
        CopiesSnoc(pr, n);
        var prior := Lookup(m, f);
        assert Lookup(r, f) == (prior + Copies(pr, n)) + [pr];
        assert (prior + Copies(pr, n)) + [pr] == prior + (Copies(pr, n) + [pr]);
        assert Copies(pr, n1) == Copies(pr, n) + [pr];
      } else {
        assert n1 == n;
        assert Lookup(r, f) == Lookup(before, f);
      }
    }
  }

  /** Appending `pr` to the list of each of its files, once per occurrence. */
  method AddPr(m: map<string, seq<PullRequest>>, pr: PullRequest) returns (r: map<string, seq<PullRequest>>)
    requires forall f :: f in m <==> Lookup(m, f) != []
    ensures forall f :: Lookup(r, f) == Lookup(m, f) + Copies(pr, multiset(pr.files)[f])
    ensures forall f :: f in r <==> Lookup(r, f) != []
  {
    r := m;
    var j := 0;
    while j < |pr.files|
      invariant 0 <= j <= |pr.files|
      invariant forall f :: Lookup(r, f) == Lookup(m, f) + Copies(pr, multiset(pr.files[..j])[f])
      invariant forall f :: f in r <==> Lookup(r, f) != []
    {
      AddOne(m, r, pr, j);
      var file := pr.files[j];
      r := r[file := Lookup(r, file) + [pr]];
      j := j + 1;
    }
    assert pr.files[..j] == pr.files;
  }

  /** One more file adds one to that file's count and nothing to any other. */
  lemma CountStep(files: seq<string>, j: nat, f: string)
    requires j < |files|
    ensures multiset(files[..j + 1])[f] == multiset(files[..j])[f] + if f == files[j] then 1 else 0
  {
    assert files[..j + 1] == files[..j] + [files[j]];
  }

  lemma CopiesSnoc(pr: PullRequest, n: nat)
    ensures Copies(pr, n + 1) == Copies(pr, n) + [pr]
  {
  }

  /** The list of a file after one more pull request. */
  lemma TouchingSnoc(prs: seq<PullRequest>, i: nat, f: string)
    requires i < |prs|
    ensures Touching(prs[..i + 1], f) == Touching(prs[..i], f) + Copies(prs[i], multiset(prs[i].files)[f])
  {
    assert prs[..i + 1][..i] == prs[..i];
  }

  /**
    `get_prs_by_file`: every file of every kept pull request gets the list of the pull
    requests touching it, one entry per occurrence, in pull-request order.
  */
  method GetPrsByFile(prs: seq<PullRequest>) returns (byFile: map<string, seq<PullRequest>>)
    ensures forall f :: Lookup(byFile, f) == Touching(prs, f)
    ensures forall f :: f in byFile <==> Touching(prs, f) != []
  {
    byFile := map[];
    var i := 0;
    while i < |prs|
      invariant 0 <= i <= |prs|
      invariant forall f :: Lookup(byFile, f) == Touching(prs[..i], f)
      invariant forall f :: f in byFile <==> Lookup(byFile, f) != []
    {
      byFile := AddPr(byFile, prs[i]);
      forall f ensures Lookup(byFile, f) == Touching(prs[..i + 1], f) {
        TouchingSnoc(prs, i, f);
      }
      i := i + 1;
    }
    assert prs[..i] == prs;
  }
}
