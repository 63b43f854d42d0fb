/** The last stage of make-doc.js: the docs page template gets the version
    header, the body and the toc in place of three marker elements. Each
    marker is replaced with `String.prototype.replace` and a string pattern,
    so only its first occurrence is filled, in the order version, body, toc,
    and the inserted text is subject to `$` substitution patterns. */
module TemplateFill {
  import opened Text

  const VersionSlot := "<div id=\"version-content\" />"
  const BodySlot := "<div id=\"body-content\" />"
  const TocSlot := "<div id=\"toc-content\" />"

  /** The heading that names the documented version. */
  function VersionHeader(version: string): string
  {
    "<h1> Version: " + version + "</h1>"
  }

  /** The filled page: three first-occurrence replacements, the body and the
      toc joined with line feeds. */
  function Fill(template: string, version: string, body: seq<string>, toc: seq<string>): string
  {
    var withVersion := ReplaceFirst(template, VersionSlot, VersionHeader(version));
    var withBody := ReplaceFirst(withVersion, BodySlot, Join(body));
    ReplaceFirst(withBody, TocSlot, Join(toc))
  }

  /** A template without any of the three markers is written out unchanged,
      whatever the version, body and toc are. */
  lemma FillWithoutSlots(template: string, version: string, body: seq<string>, toc: seq<string>)
    requires !Contains(template, VersionSlot) && !Contains(template, BodySlot) && !Contains(template, TocSlot)
    ensures Fill(template, version, body, toc) == template
  {
    ReplaceFirstAbsent(template, VersionSlot, VersionHeader(version));
    ReplaceFirstAbsent(template, BodySlot, Join(body));
    ReplaceFirstAbsent(template, TocSlot, Join(toc));
  }

  /** A template `a`, version marker, `b`, body marker, `c`, toc marker, `d`
      is filled in place: each marker found is the first one in the text as
      it stands when its turn comes (text inserted earlier included), and
      then the page is `a`, header, `b`, body, `c`, toc, `d`. Markers that
      occur again later, in `b`, `c` or `d`, are left as they are. */
  lemma FillInOrder(a: string, b: string, c: string, d: string, version: string, body: seq<string>, toc: seq<string>)
    requires DollarFree(version) && DollarFree(Join(body)) && DollarFree(Join(toc))
    requires !Contains(a + VersionSlot[..|VersionSlot| - 1], VersionSlot)
    requires !Contains(a + VersionHeader(version) + b + BodySlot[..|BodySlot| - 1], BodySlot)
    requires !Contains(a + VersionHeader(version) + b + Join(body) + c + TocSlot[..|TocSlot| - 1], TocSlot)
    ensures Fill(a + VersionSlot + b + BodySlot + c + TocSlot + d, version, body, toc)
         == a + VersionHeader(version) + b + Join(body) + c + Join(toc) + d
  {
    HeaderDollarFree(version);
    ReplaceThreeInOrder(a, b, c, d, VersionSlot, BodySlot, TocSlot, VersionHeader(version), Join(body), Join(toc));
  }

  /** The same for a template that puts the toc marker before the body
      marker: `a`, version marker, `b`, toc marker, `c`, body marker, `d`.
      The body is filled before the toc, so the body marker must be the first
      in the text as it stands after the version is filled, and the toc
      marker the first after the body is filled. */
  lemma FillTocBeforeBody(a: string, b: string, c: string, d: string, version: string, body: seq<string>, toc: seq<string>)
    requires DollarFree(version) && DollarFree(Join(body)) && DollarFree(Join(toc))
    requires !Contains(a + VersionSlot[..|VersionSlot| - 1], VersionSlot)
    requires !Contains(a + VersionHeader(version) + b + TocSlot + c + BodySlot[..|BodySlot| - 1], BodySlot)
    requires !Contains(a + VersionHeader(version) + b + TocSlot[..|TocSlot| - 1], TocSlot)
    ensures Fill(a + VersionSlot + b + TocSlot + c + BodySlot + d, version, body, toc)
         == a + VersionHeader(version) + b + Join(toc) + c + Join(body) + d
  {
    HeaderDollarFree(version);
    ReplaceThreeLastTwoSwapped(a, b, c, d, VersionSlot, BodySlot, TocSlot, VersionHeader(version), Join(body), Join(toc));
  }

  /** The header adds no dollar sign of its own. */
  lemma HeaderDollarFree(version: string)
    requires DollarFree(version)
    ensures DollarFree(VersionHeader(version))
  {
    var header := VersionHeader(version);
    forall k | 0 <= k < |header|
      ensures header[k] != '$'
    {
      if k >= 14 + |version| {
        assert header[k] == "</h1>"[k - 14 - |version|];
      } else if k >= 14 {
        assert header[k] == version[k - 14];
      }
    }
  }

  /** Three first-occurrence replacements of markers met in reading order. */
  lemma ReplaceThreeInOrder(a: string, b: string, c: string, d: string,
                            m1: string, m2: string, m3: string, r1: string, r2: string, r3: string)
    requires |m1| > 0 && |m2| > 0 && |m3| > 0
    requires DollarFree(r1) && DollarFree(r2) && DollarFree(r3)
    requires !Contains(a + m1[..|m1| - 1], m1)
    requires !Contains(a + r1 + b + m2[..|m2| - 1], m2)
    requires !Contains(a + r1 + b + r2 + c + m3[..|m3| - 1], m3)
    ensures ReplaceFirst(ReplaceFirst(ReplaceFirst(a + m1 + b + m2 + c + m3 + d, m1, r1), m2, r2), m3, r3)
         == a + r1 + b + r2 + c + r3 + d
  {
    var y2 := c + m3 + d;
    var y1 := b + m2 + y2;
    var p1 := a + r1 + b;
    var p2 := p1 + r2 + c;
    assert a + m1 + b + m2 + c + m3 + d == a + m1 + y1 by {
      Regroup(a + m1, b, m2, c + m3 + d);
      Regroup(a + m1 + b + m2, c, m3, d);
    }
    ReplaceFirstLiteralAt(a, m1, y1, r1);
    assert a + r1 + y1 == p1 + m2 + y2 by {
      Regroup(a + r1, b, m2, y2);
    }
    ReplaceFirstLiteralAt(p1, m2, y2, r2);
    assert p1 + r2 + y2 == p2 + m3 + d by {
      Regroup(p1 + r2, c, m3, d);
    }
    ReplaceFirstLiteralAt(p2, m3, d, r3);
  }

  /** Three first-occurrence replacements where the third marker stands
      before the second in the text. */
  lemma ReplaceThreeLastTwoSwapped(a: string, b: string, c: string, d: string,
                                   m1: string, m2: string, m3: string, r1: string, r2: string, r3: string)
    requires |m1| > 0 && |m2| > 0 && |m3| > 0
    requires DollarFree(r1) && DollarFree(r2) && DollarFree(r3)
    requires !Contains(a + m1[..|m1| - 1], m1)
    requires !Contains(a + r1 + b + m3 + c + m2[..|m2| - 1], m2)
    requires !Contains(a + r1 + b + m3[..|m3| - 1], m3)
    ensures ReplaceFirst(ReplaceFirst(ReplaceFirst(a + m1 + b + m3 + c + m2 + d, m1, r1), m2, r2), m3, r3)
         == a + r1 + b + r3 + c + r2 + d
  {
    var y1 := b + m3 + c + m2 + d;
    var p1 := a + r1 + b;
    var p2 := p1 + m3 + c;
    assert a + m1 + b + m3 + c + m2 + d == a + m1 + y1 by {
      Assoc(a + m1, b + m3 + c + m2, d);
      Assoc(a + m1, b + m3 + c, m2);
      Assoc(a + m1, b + m3, c);
      Assoc(a + m1, b, m3);
    }
    ReplaceFirstLiteralAt(a, m1, y1, r1);
    assert a + r1 + y1 == p2 + m2 + d by {
      Assoc(a + r1, b + m3 + c + m2, d);
      Assoc(a + r1, b + m3 + c, m2);
      Assoc(a + r1, b + m3, c);
      Assoc(a + r1, b, m3);
    }
    ReplaceFirstLiteralAt(p2, m2, d, r2);
    assert p2 + r2 + d == p1 + m3 + (c + r2 + d) by {
      Assoc(p1 + m3, c + r2, d);
      Assoc(p1 + m3, c, r2);
    }
    ReplaceFirstLiteralAt(p1, m3, c + r2 + d, r3);
    assert p1 + r3 + (c + r2 + d) == a + r1 + b + r3 + c + r2 + d by {
      Assoc(p1 + r3, c + r2, d);
      Assoc(p1 + r3, c, r2);
    }
  }

  /** The substitution patterns do apply to the inserted text: on the bare
      body marker as template, a body of the one line `$&` is replaced by the
      marker itself, so the page keeps the marker instead of showing `$&`. */
  lemma BodyDollarPatternExpands(version: string, toc: seq<string>)
    ensures Fill(BodySlot, version, ["$&"], toc) == BodySlot
  {
    forall j ensures !OccursAt(BodySlot, VersionSlot, j) {
    }
    forall j ensures !OccursAt(BodySlot, TocSlot, j) {
      if 0 <= j && j + |TocSlot| <= |BodySlot| {
        assert BodySlot[j..j + |TocSlot|][9] == BodySlot[j + 9] != TocSlot[9];
      }
    }
    assert Join(["$&"]) == "$&";
    ReplaceFirstAt([], BodySlot, [], "$&");
    assert [] + BodySlot + [] == BodySlot;
    assert Expand("$&", BodySlot, [], []) == BodySlot;
  }
}
