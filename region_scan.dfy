/** The line scan of `processAdoc` in make-doc.js: two flags, `startToc` and
    `startBody`, walk the page line by line; the table-of-contents region is
    copied to `toc` (its opening line rewritten), the body region is
    transformed into `body`, and the footer ends the scan. */
module RegionScan {
  import opened Text
  import opened BodyRewrite

  const TocStart := "<ul class=\"sectlevel1\">"
  const TocOpenLine := "<ul className=\"sectlevel1\">"
  const TocEnd := "</ul>"
  const ContentStart := "<div id=\"content\">"
  const FooterStart := "<div id=\"footer\">"

  /** The scanner's state between two lines: the two flags, the two output
      sequences, and whether the loop has broken out at the footer. */
  datatype Scan = Scan(inToc: bool, inBody: bool, toc: seq<string>, body: seq<string>, stopped: bool)

  const Start := Scan(false, false, [], [], false)

  /** What happens to one line, decided in the source's order: the toc
      marker first, then the body-start marker, then the active toc region,
      then the active body region. */
  datatype Fate = OpensToc | InToc | EndsScan | InBody | Dropped

  function FateOf(s: Scan, line: string): Fate
  {
    if Contains(line, TocStart) then OpensToc
    else if s.inToc then InToc
    else if s.inBody || Contains(line, ContentStart) then
      (if Contains(line, FooterStart) then EndsScan else InBody)
    else Dropped
  }

  /** One iteration of the loop on a state that has not stopped. */
  function Step(s: Scan, line: string): (r: Scan)
    requires !s.stopped
    ensures |r.toc| + |r.body| <= |s.toc| + |s.body| + 1
    ensures s.toc <= r.toc && s.body <= r.body
  {
    var inBody := s.inBody || Contains(line, ContentStart);
    match FateOf(s, line)
    case OpensToc => s.(inToc := true, toc := s.toc + [TocOpenLine])
    case InToc => s.(inToc := !Contains(line, TocEnd), inBody := inBody, toc := s.toc + [line])
    case EndsScan => s.(inBody := inBody, stopped := true)
    case InBody => s.(inBody := inBody, body := s.body + [TransformLine(line)])
    case Dropped => s
  }

  /** The loop over the remaining `lines`, from state `s`. Output is only
      ever appended, at most one entry per line, and a stopped scan reads
      nothing more. */
  function Run(s: Scan, lines: seq<string>): (r: Scan)
    ensures |r.toc| + |r.body| <= |s.toc| + |s.body| + |lines|
    ensures s.toc <= r.toc && s.body <= r.body
    ensures s.stopped ==> r == s
    decreases |lines|
  {
    if s.stopped || lines == [] then s
    else Run(Step(s, lines[0]), lines[1..])
  }

  /** The scan of a whole page. */
  function ScanPage(lines: seq<string>): Scan
  {
    Run(Start, lines)
  }

  /** The loop of `processAdoc` (the lines stand for what the line reader
      yields). The two sequences it builds are those of the scan. */
  method ProcessAdoc(lines: seq<string>) returns (toc: seq<string>, body: seq<string>)
    ensures toc == ScanPage(lines).toc && body == ScanPage(lines).body
  {
    toc, body := [], [];
    var startToc, startBody := false, false;
    var i := 0;
    while i < |lines|
      invariant 0 <= i <= |lines|
      invariant Run(Scan(startToc, startBody, toc, body, false), lines[i..]) == ScanPage(lines)
    {
      var line := lines[i];
      ghost var before := Scan(startToc, startBody, toc, body, false);
      assert lines[i..][1..] == lines[i + 1..];
      i := i + 1;
      if Contains(line, TocStart) {
        startToc := true;
        toc := toc + [TocOpenLine];
        continue;
      }
      if Contains(line, ContentStart) {
        startBody := true;
      }
      if startToc {
        toc := toc + [line];
        if Contains(line, TocEnd) {
          startToc := false;
        }
        continue;
      }
      if startBody {
        if Contains(line, FooterStart) {
          assert Step(before, line).stopped;
          break;
        }
        body := body + [TransformLine(line)];
      }
    }
  }

  // ---------------------------------------------------------------------------
  // The scan, line by line
  // ---------------------------------------------------------------------------

  /** Scanning `a + b` is scanning `a`, then `b` from where `a` left off. */
  lemma {:induction false} RunAppend(s: Scan, a: seq<string>, b: seq<string>)
    ensures Run(s, a + b) == Run(Run(s, a), b)
    decreases |a|
  {
    if a == [] {
      assert a + b == b;
    } else if !s.stopped {
      assert (a + b)[0] == a[0];
      assert (a + b)[1..] == a[1..] + b;
      RunAppend(Step(s, a[0]), a[1..], b);
    }
  }

  /** The state of the scan just before it looks at line `i`. */
  function StateBefore(lines: seq<string>, i: nat): Scan
    requires i <= |lines|
  {
    Run(Start, lines[..i])
  }

  /** Line `i` moves the scan by one step, unless the scan has stopped. */
  lemma Advance(lines: seq<string>, i: nat)
    requires i < |lines|
    ensures StateBefore(lines, i + 1) ==
      if StateBefore(lines, i).stopped then StateBefore(lines, i)
      else Step(StateBefore(lines, i), lines[i])
  {
    assert lines[..i + 1] == lines[..i] + [lines[i]];
    RunAppend(Start, lines[..i], [lines[i]]);
  }

  /** A line holding the toc marker is not copied: exactly the rewritten
      opening line is appended to the toc, the toc region opens, and the body
      neither grows nor changes state, even while the body region is active. */
  lemma TocMarkerReplaced(lines: seq<string>, i: nat)
    requires i < |lines| && !StateBefore(lines, i).stopped
    requires Contains(lines[i], TocStart)
    ensures var s, t := StateBefore(lines, i), StateBefore(lines, i + 1);
      t.toc == s.toc + [TocOpenLine] && t.body == s.body &&
      t.inToc && t.inBody == s.inBody && !t.stopped
  {
    Advance(lines, i);
  }

  /** Inside the toc region every other line is copied to the toc verbatim
      and nothing goes to the body; a line holding `</ul>` is copied and
      closes the region. Footer markers are not looked at here, but the
      body-start marker is: a toc line holding it opens the body region. */
  lemma TocLinesCopied(lines: seq<string>, i: nat)
    requires i < |lines| && !StateBefore(lines, i).stopped
    requires StateBefore(lines, i).inToc && !Contains(lines[i], TocStart)
    ensures var s, t := StateBefore(lines, i), StateBefore(lines, i + 1);
      t.toc == s.toc + [lines[i]] && t.body == s.body &&
      t.inToc == !Contains(lines[i], TocEnd) && !t.stopped &&
      t.inBody == (s.inBody || Contains(lines[i], ContentStart))
  {
    Advance(lines, i);
  }

  /** With the toc region closed and the body region active (or opened by
      this very line), a line without the footer marker is transformed and
      appended to the body; the body-start line itself is kept this way. */
  lemma BodyLinesTransformed(lines: seq<string>, i: nat)
    requires i < |lines| && !StateBefore(lines, i).stopped
    requires !StateBefore(lines, i).inToc && !Contains(lines[i], TocStart)
    requires StateBefore(lines, i).inBody || Contains(lines[i], ContentStart)
    requires !Contains(lines[i], FooterStart)
    ensures var s, t := StateBefore(lines, i), StateBefore(lines, i + 1);
      t.body == s.body + [TransformLine(lines[i])] && t.toc == s.toc &&
      t.inBody && !t.inToc && !t.stopped
  {
    Advance(lines, i);
  }

  /** Before either region has begun, a line with neither marker is dropped. */
  lemma LinesBeforeRegionsDropped(lines: seq<string>, i: nat)
    requires i < |lines| && !StateBefore(lines, i).stopped
    requires !StateBefore(lines, i).inToc && !StateBefore(lines, i).inBody
    requires !Contains(lines[i], TocStart) && !Contains(lines[i], ContentStart)
    ensures StateBefore(lines, i + 1) == StateBefore(lines, i)
  {
    Advance(lines, i);
  }

  /** With the toc region closed and the body region active, the footer line
      is appended to neither sequence and no later line contributes: the
      page's toc and body are those already collected. */
  lemma FooterEndsScan(lines: seq<string>, i: nat)
    requires i < |lines| && !StateBefore(lines, i).stopped
    requires !StateBefore(lines, i).inToc && !Contains(lines[i], TocStart)
    requires StateBefore(lines, i).inBody || Contains(lines[i], ContentStart)
    requires Contains(lines[i], FooterStart)
    ensures ScanPage(lines).toc == StateBefore(lines, i).toc
    ensures ScanPage(lines).body == StateBefore(lines, i).body
  {
    Advance(lines, i);
    assert lines == lines[..i + 1] + lines[i + 1..];
    RunAppend(Start, lines[..i + 1], lines[i + 1..]);
  }

  // ---------------------------------------------------------------------------
  // Where every output line comes from
  // ---------------------------------------------------------------------------

  /** What a line contributes to the toc when it goes there. */
  function TocEntry(line: string): string
  {
    if Contains(line, TocStart) then TocOpenLine else line
  }

  /** Indices (counted from `base`) of the lines that the scan from `s`
      sends to the toc, in reading order. */
  function TocSources(s: Scan, lines: seq<string>, base: nat): seq<nat>
    decreases |lines|
  {
    if s.stopped || lines == [] then []
    else
      var f := FateOf(s, lines[0]);
      (if f == OpensToc || f == InToc then [base] else []) + TocSources(Step(s, lines[0]), lines[1..], base + 1)
  }

  /** Indices (counted from `base`) of the lines that the scan from `s`
      sends to the body, in reading order. */
  function BodySources(s: Scan, lines: seq<string>, base: nat): seq<nat>
    decreases |lines|
  {
    if s.stopped || lines == [] then []
    else
      (if FateOf(s, lines[0]) == InBody then [base] else []) + BodySources(Step(s, lines[0]), lines[1..], base + 1)
  }

  ghost predicate StrictlyIncreasing(xs: seq<nat>)
  {
    forall k, m :: 0 <= k < m < |xs| ==> xs[k] < xs[m]
  }

  ghost predicate Within(xs: seq<nat>, lo: nat, hi: nat)
  {
    forall k :: 0 <= k < |xs| ==> lo <= xs[k] < hi
  }

  ghost predicate NoneShared(xs: seq<nat>, ys: seq<nat>)
  {
    forall k, m :: 0 <= k < |xs| && 0 <= m < |ys| ==> xs[k] != ys[m]
  }

  /** The sources lie among the lines scanned. */
  lemma {:induction false} SourcesWithin(s: Scan, lines: seq<string>, base: nat)
    ensures Within(TocSources(s, lines, base), base, base + |lines|)
    ensures Within(BodySources(s, lines, base), base, base + |lines|)
    decreases |lines|
  {
    if !s.stopped && lines != [] {
      SourcesWithin(Step(s, lines[0]), lines[1..], base + 1);
    }
  }

  /** The sources are in reading order. */
  lemma {:induction false} SourcesOrdered(s: Scan, lines: seq<string>, base: nat)
    ensures StrictlyIncreasing(TocSources(s, lines, base))
    ensures StrictlyIncreasing(BodySources(s, lines, base))
    decreases |lines|
  {
    if !s.stopped && lines != [] {
      SourcesOrdered(Step(s, lines[0]), lines[1..], base + 1);
      SourcesWithin(Step(s, lines[0]), lines[1..], base + 1);
    }
  }

  /** Putting `base` in front of at most one of two index lists that lie
      above `base` and share nothing keeps them sharing nothing. */
  lemma NoneSharedCons(xs: seq<nat>, ys: seq<nat>, base: nat, hi: nat, inXs: bool, inYs: bool)
    requires !(inXs && inYs)
    requires Within(xs, base + 1, hi) && Within(ys, base + 1, hi) && NoneShared(xs, ys)
    ensures NoneShared((if inXs then [base] else []) + xs, (if inYs then [base] else []) + ys)
  {
    var xs', ys' := (if inXs then [base] else []) + xs, (if inYs then [base] else []) + ys;
    var dx, dy := if inXs then 1 else 0, if inYs then 1 else 0;
    forall k, m | 0 <= k < |xs'| && 0 <= m < |ys'|
      ensures xs'[k] != ys'[m]
    {
      if k < dx {
        assert xs'[k] == base && ys'[m] == ys[m] && base + 1 <= ys[m];
      } else if m < dy {
        assert ys'[m] == base && xs'[k] == xs[k] && base + 1 <= xs[k];
      } else {
        assert xs'[k] == xs[k - dx] && ys'[m] == ys[m - dy];
      }
    }
  }

  /** No line is a source of both the toc and the body. */
  lemma {:induction false} SourcesDisjoint(s: Scan, lines: seq<string>, base: nat)
    ensures NoneShared(TocSources(s, lines, base), BodySources(s, lines, base))
    decreases |lines|
  {
    if !s.stopped && lines != [] {
      var next, rest := Step(s, lines[0]), lines[1..];
      SourcesDisjoint(next, rest, base + 1);
      SourcesWithin(next, rest, base + 1);
      var f := FateOf(s, lines[0]);
      NoneSharedCons(TocSources(next, rest, base + 1), BodySources(next, rest, base + 1),
                     base, base + |lines|, f == OpensToc || f == InToc, f == InBody);
    }
  }

  /** One step appends `TocEntry` of its line to the toc exactly when the
      line's fate is toc-bound, and the transformed line to the body exactly
      when it is body-bound. */
  lemma StepAppends(s: Scan, line: string)
    requires !s.stopped
    ensures var f, r := FateOf(s, line), Step(s, line);
      r.toc == s.toc + (if f == OpensToc || f == InToc then [TocEntry(line)] else []) &&
      r.body == s.body + (if f == InBody then [TransformLine(line)] else [])
  {
  }

  /** `out` is `prefix` followed, entry for entry, by the images under `f`
      of the lines at `sources` (indices counted from `base`). */
  ghost predicate Traced(prefix: seq<string>, out: seq<string>, sources: seq<nat>,
                         lines: seq<string>, base: nat, f: string -> string)
  {
    |out| == |prefix| + |sources| && Within(sources, base, base + |lines|) &&
    forall k :: 0 <= k < |sources| ==> out[|prefix| + k] == f(lines[sources[k] - base])
  }

  /** Tracing extends by one line read in front: if that line's image was
      appended (or nothing was), the earlier prefix traces the same output. */
  lemma TracedCons(prefix: seq<string>, mid: seq<string>, out: seq<string>, sources: seq<nat>,
                   lines: seq<string>, base: nat, f: string -> string, taken: bool)
    requires lines != []
    requires mid == prefix + (if taken then [f(lines[0])] else []) && mid <= out
    requires Traced(mid, out, sources, lines[1..], base + 1, f)
    ensures Traced(prefix, out, (if taken then [base] else []) + sources, lines, base, f)
  {
    var d := if taken then 1 else 0;
    var all := (if taken then [base] else []) + sources;
    forall k | 0 <= k < |all|
      ensures base <= all[k] < base + |lines|
      ensures out[|prefix| + k] == f(lines[all[k] - base])
    {
      if k < d {
        assert all[k] == base && out[|prefix| + k] == mid[|prefix|];
      } else {
        assert all[k] == sources[k - d];
        assert |prefix| + k == |mid| + (k - d);
        assert lines[1..][sources[k - d] - (base + 1)] == lines[all[k] - base];
      }
    }
  }

  /** Every entry the scan appends to the toc is `TocEntry` of its source
      line, in the order of `TocSources`. */
  lemma {:induction false} TocProvenance(s: Scan, lines: seq<string>, base: nat)
    ensures Traced(s.toc, Run(s, lines).toc, TocSources(s, lines, base), lines, base, TocEntry)
    decreases |lines|
  {
    if !s.stopped && lines != [] {
      var next := Step(s, lines[0]);
      TocProvenance(next, lines[1..], base + 1);
      StepAppends(s, lines[0]);
      var f := FateOf(s, lines[0]);
      TracedCons(s.toc, next.toc, Run(s, lines).toc, TocSources(next, lines[1..], base + 1),
                 lines, base, TocEntry, f == OpensToc || f == InToc);
    } else {
      assert TocSources(s, lines, base) == [];
    }
  }

  /** Every entry the scan appends to the body is `TransformLine` of its
      source line, in the order of `BodySources`. */
  lemma {:induction false} BodyProvenance(s: Scan, lines: seq<string>, base: nat)
    ensures Traced(s.body, Run(s, lines).body, BodySources(s, lines, base), lines, base, TransformLine)
    decreases |lines|
  {
    if !s.stopped && lines != [] {
      var next := Step(s, lines[0]);
      BodyProvenance(next, lines[1..], base + 1);
      StepAppends(s, lines[0]);
      TracedCons(s.body, next.body, Run(s, lines).body, BodySources(next, lines[1..], base + 1),
                 lines, base, TransformLine, FateOf(s, lines[0]) == InBody);
    } else {
      assert BodySources(s, lines, base) == [];
    }
  }

  /** The page-level reading of the provenance lemmas: the scan's toc and body are,
      entry for entry, images of distinct input lines taken in reading
      order. */
  lemma PageProvenance(lines: seq<string>)
    ensures var r, ts, bs := ScanPage(lines), TocSources(Start, lines, 0), BodySources(Start, lines, 0);
      |r.toc| == |ts| && |r.body| == |bs| &&
      Within(ts, 0, |lines|) && Within(bs, 0, |lines|) &&
      StrictlyIncreasing(ts) && StrictlyIncreasing(bs) &&
      (forall k :: 0 <= k < |ts| ==> r.toc[k] == TocEntry(lines[ts[k]])) &&
      (forall k :: 0 <= k < |bs| ==> r.body[k] == TransformLine(lines[bs[k]])) &&
      NoneShared(ts, bs)
  {
    TocProvenance(Start, lines, 0);
    BodyProvenance(Start, lines, 0);
    SourcesWithin(Start, lines, 0);
    SourcesOrdered(Start, lines, 0);
    SourcesDisjoint(Start, lines, 0);
  }
}
