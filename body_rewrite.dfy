/** The rewrite make-doc.js applies to every line it keeps for the page body:
    column tags collapse to a self-closing `<col />`, and every other line goes
    through four global, case-insensitive replacements that turn HTML into
    JSX-compatible markup (`<br>`, braces, `class="`). */
module BodyRewrite {
  import opened Text

  const ColPrefix := "<col "
  const BareCol := "<col>"
  const SelfClosingCol := "<col />"

  const LineBreak := "<br>"
  const SelfClosingBreak := "<br />"
  const OpenBrace := "{"
  const OpenBraceEntity := "&#123;"
  const CloseBrace := "}"
  const CloseBraceEntity := "&#125;"
  const ClassAttr := "class=\""
  const ClassNameAttr := "className=\""

  /** A line the source collapses to `<col />`: it starts with `<col ` or is
      exactly `<col>` (both tests are case-sensitive). */
  predicate IsColLine(line: string)
  {
    StartsWith(line, ColPrefix) || line == BareCol
  }

  /** The chain of four global replacements, in the source's order. */
  function RewriteMarkup(line: string): string
  {
    var noBreaks := ReplaceAllCI(line, LineBreak, SelfClosingBreak);
    var noOpen := ReplaceAllCI(noBreaks, OpenBrace, OpenBraceEntity);
    var noClose := ReplaceAllCI(noOpen, CloseBrace, CloseBraceEntity);
    ReplaceAllCI(noClose, ClassAttr, ClassNameAttr)
  }

  /** No case-insensitive `<br>` or `class="` and no brace is left. */
  ghost predicate Clean(s: string)
  {
    FreeOfCI(s, LineBreak) && FreeOfCI(s, OpenBrace) && FreeOfCI(s, CloseBrace) && FreeOfCI(s, ClassAttr)
  }

  /** The body-line transform: a column line becomes exactly `<col />` and no
      replacement is applied to it; any other line is rewritten, after which
      it holds none of the four patterns and is still not a column line. */
  function TransformLine(line: string): (r: string)
    ensures IsColLine(line) ==> r == SelfClosingCol
    ensures !IsColLine(line) ==> Clean(r) && !IsColLine(r)
  {
    if IsColLine(line) then SelfClosingCol
    else
      RewriteMarkupClean(line);
      RewriteKeepsNonColumn(line);
      RewriteMarkup(line)
  }

  // ---------------------------------------------------------------------------
  // The replacement texts cannot recreate the patterns
  // ---------------------------------------------------------------------------

  lemma BreakCannotReappear()
    ensures forall i :: 0 < i < |SelfClosingBreak| ==> Lower(SelfClosingBreak[i]) != Lower(LineBreak[0])
    ensures !EqualCI(SelfClosingBreak[..|LineBreak|], LineBreak)
    ensures forall k :: 0 < k < |LineBreak| ==> Lower(LineBreak[k]) != Lower(SelfClosingBreak[0])
  {
    assert Lower(SelfClosingBreak[3]) != Lower(LineBreak[3]);
  }

  lemma ClassCannotReappear()
    ensures forall i :: 0 < i < |ClassNameAttr| ==> Lower(ClassNameAttr[i]) != Lower(ClassAttr[0])
    ensures !EqualCI(ClassNameAttr[..|ClassAttr|], ClassAttr)
    ensures forall k :: 0 < k < |ClassAttr| ==> Lower(ClassAttr[k]) != Lower(ClassNameAttr[0])
  {
    assert Lower(ClassNameAttr[5]) != Lower(ClassAttr[5]);
  }

  lemma EntitiesCannotReappear()
    ensures forall i :: 0 < i < |OpenBraceEntity| ==> Lower(OpenBraceEntity[i]) != Lower(OpenBrace[0])
    ensures !EqualCI(OpenBraceEntity[..|OpenBrace|], OpenBrace)
    ensures forall i :: 0 < i < |CloseBraceEntity| ==> Lower(CloseBraceEntity[i]) != Lower(CloseBrace[0])
    ensures !EqualCI(CloseBraceEntity[..|CloseBrace|], CloseBrace)
  {
    assert Lower(OpenBraceEntity[0]) != Lower(OpenBrace[0]);
    assert Lower(CloseBraceEntity[0]) != Lower(CloseBrace[0]);
  }

  /** Each later replacement text shares no character with the patterns
      removed before it, so it cannot bring one back. */
  lemma OpenEntityAvoidsBreak()
    ensures DisjointCI(OpenBraceEntity, LineBreak)
  {
  }

  lemma CloseEntityAvoidsEarlier()
    ensures DisjointCI(CloseBraceEntity, LineBreak) && DisjointCI(CloseBraceEntity, OpenBrace)
  {
  }

  lemma ClassNameAvoidsEarlier()
    ensures DisjointCI(ClassNameAttr, LineBreak) && DisjointCI(ClassNameAttr, OpenBrace)
    ensures DisjointCI(ClassNameAttr, CloseBrace)
  {
  }

  lemma ReplacementsLeaveColumnPrefix()
    ensures Blocked(ColPrefix, SelfClosingBreak) && Blocked(ColPrefix, OpenBraceEntity)
    ensures Blocked(ColPrefix, CloseBraceEntity) && Blocked(ColPrefix, ClassNameAttr)
    ensures Blocked(BareCol, SelfClosingBreak) && Blocked(BareCol, OpenBraceEntity)
    ensures Blocked(BareCol, CloseBraceEntity) && Blocked(BareCol, ClassNameAttr)
  {
  }

  // ---------------------------------------------------------------------------
  // Properties of the rewrite
  // ---------------------------------------------------------------------------

  /** After the chain, none of the four patterns occurs: each replacement
      removes its own pattern and cannot bring back an earlier one. */
  lemma RewriteMarkupClean(line: string)
    ensures Clean(RewriteMarkup(line))
  {
    var noBreaks := ReplaceAllCI(line, LineBreak, SelfClosingBreak);
    var noOpen := ReplaceAllCI(noBreaks, OpenBrace, OpenBraceEntity);
    var noClose := ReplaceAllCI(noOpen, CloseBrace, CloseBraceEntity);
    var r := ReplaceAllCI(noClose, ClassAttr, ClassNameAttr);
    BreakCannotReappear();
    ClassCannotReappear();
    EntitiesCannotReappear();
    OpenEntityAvoidsBreak();
    CloseEntityAvoidsEarlier();
    ClassNameAvoidsEarlier();
    ReplaceAllRemoves(line, LineBreak, SelfClosingBreak);
    ReplaceAllRemoves(noBreaks, OpenBrace, OpenBraceEntity);
    ReplaceAllPreserves(noBreaks, OpenBrace, OpenBraceEntity, LineBreak);
    ReplaceAllRemoves(noOpen, CloseBrace, CloseBraceEntity);
    ReplaceAllPreserves(noOpen, CloseBrace, CloseBraceEntity, LineBreak);
    ReplaceAllPreserves(noOpen, CloseBrace, CloseBraceEntity, OpenBrace);
    ReplaceAllRemoves(noClose, ClassAttr, ClassNameAttr);
    ReplaceAllPreserves(noClose, ClassAttr, ClassNameAttr, LineBreak);
    ReplaceAllPreserves(noClose, ClassAttr, ClassNameAttr, OpenBrace);
    ReplaceAllPreserves(noClose, ClassAttr, ClassNameAttr, CloseBrace);
  }

  /** A line that holds none of the patterns passes through unchanged. */
  lemma CleanLineUnchanged(s: string)
    requires Clean(s)
    ensures RewriteMarkup(s) == s
  {
    ReplaceAllAbsent(s, LineBreak, SelfClosingBreak);
    ReplaceAllAbsent(s, OpenBrace, OpenBraceEntity);
    ReplaceAllAbsent(s, CloseBrace, CloseBraceEntity);
    ReplaceAllAbsent(s, ClassAttr, ClassNameAttr);
  }

  /** The rewrite is idempotent. */
  lemma RewriteMarkupIdempotent(line: string)
    ensures RewriteMarkup(RewriteMarkup(line)) == RewriteMarkup(line)
  {
    RewriteMarkupClean(line);
    CleanLineUnchanged(RewriteMarkup(line));
  }

  /** `w` survives one replacement step backwards: if the output of the step
      starts with `w` (or is exactly `w`), so does (is) its input. */
  lemma StepKeepsPrefix(t: string, pat: string, rep: string, w: string)
    requires |pat| > 0 && |rep| > 0 && Blocked(w, rep)
    ensures StartsWith(ReplaceAllCI(t, pat, rep), w) ==> StartsWith(t, w)
    ensures ReplaceAllCI(t, pat, rep) == w ==> t == w
  {
    var out := ReplaceAllCI(t, pat, rep);
    if StartsWith(out, w) {
      PrefixKept(t, pat, rep, w);
      if out == w {
        var rest := t[|w|..];
        assert ReplaceAllCI(rest, pat, rep) == [];
        assert |rest| == 0;
        assert t == t[..|w|] + rest;
      }
    }
  }

  /** The rewrite never turns a non-column line into a column line. */
  lemma RewriteKeepsNonColumn(line: string)
    requires !IsColLine(line)
    ensures !IsColLine(RewriteMarkup(line))
  {
    var noBreaks := ReplaceAllCI(line, LineBreak, SelfClosingBreak);
    var noOpen := ReplaceAllCI(noBreaks, OpenBrace, OpenBraceEntity);
    var noClose := ReplaceAllCI(noOpen, CloseBrace, CloseBraceEntity);
    ReplacementsLeaveColumnPrefix();
    StepKeepsPrefix(noClose, ClassAttr, ClassNameAttr, ColPrefix);
    StepKeepsPrefix(noOpen, CloseBrace, CloseBraceEntity, ColPrefix);
    StepKeepsPrefix(noBreaks, OpenBrace, OpenBraceEntity, ColPrefix);
    StepKeepsPrefix(line, LineBreak, SelfClosingBreak, ColPrefix);
    StepKeepsPrefix(noClose, ClassAttr, ClassNameAttr, BareCol);
    StepKeepsPrefix(noOpen, CloseBrace, CloseBraceEntity, BareCol);
    StepKeepsPrefix(noBreaks, OpenBrace, OpenBraceEntity, BareCol);
    StepKeepsPrefix(line, LineBreak, SelfClosingBreak, BareCol);
  }

  /** Transforming a body line twice gives the same line as transforming it once. */
  lemma TransformLineIdempotent(line: string)
    ensures TransformLine(TransformLine(line)) == TransformLine(line)
  {
    if IsColLine(line) {
      assert StartsWith(SelfClosingCol, ColPrefix);
    } else {
      CleanLineUnchanged(TransformLine(line));
    }
  }

  /** Braces become their numeric character references and every other
      character of the line is kept as it is. */
  lemma BracesEscapedCharacterwise(s: string)
    ensures ReplaceAllCI(s, OpenBrace, OpenBraceEntity) == ReplaceEachChar(s, '{', OpenBraceEntity)
    ensures ReplaceAllCI(s, CloseBrace, CloseBraceEntity) == ReplaceEachChar(s, '}', CloseBraceEntity)
  {
    ReplaceAllOneChar(s, '{', OpenBraceEntity);
    ReplaceAllOneChar(s, '}', CloseBraceEntity);
  }

  // ---------------------------------------------------------------------------
  // Each pattern is rewritten where it stands, all other text is kept
  // ---------------------------------------------------------------------------

  /** No pattern can overlap itself, so a match is never cut short by an
      earlier one. */
  lemma PatternsHeadUnique()
    ensures HeadUnique(LineBreak) && HeadUnique(OpenBrace) && HeadUnique(CloseBrace) && HeadUnique(ClassAttr)
  {
  }

  /** A replacement text shares no character, up to case, with the patterns
      replaced after it. */
  lemma BreakTagAvoidsLater()
    ensures DisjointCI(SelfClosingBreak, OpenBrace) && DisjointCI(SelfClosingBreak, CloseBrace)
    ensures DisjointCI(SelfClosingBreak, ClassAttr)
  {
  }

  lemma EntitiesAvoidLater()
    ensures DisjointCI(OpenBraceEntity, CloseBrace) && DisjointCI(OpenBraceEntity, ClassAttr)
    ensures DisjointCI(CloseBraceEntity, ClassAttr)
  {
  }

  /** A pattern shares no character, up to case, with the patterns replaced
      before it. */
  lemma BracesAvoidEarlier()
    ensures DisjointCI(OpenBrace, LineBreak)
    ensures DisjointCI(CloseBrace, LineBreak) && DisjointCI(CloseBrace, OpenBrace)
  {
  }

  lemma ClassAvoidsEarlier()
    ensures DisjointCI(ClassAttr, LineBreak) && DisjointCI(ClassAttr, OpenBrace) && DisjointCI(ClassAttr, CloseBrace)
  {
  }

  /** Every `<br>`, in any case, becomes `<br />`; the text before and after
      it is rewritten on its own. */
  lemma BreakRewritten(x: string, m: string, y: string)
    requires EqualCI(m, LineBreak)
    ensures RewriteMarkup(x + m + y) == RewriteMarkup(x) + SelfClosingBreak + RewriteMarkup(y)
  {
    PatternsHeadUnique();
    BreakTagAvoidsLater();
    var x1, y1 := ReplaceAllCI(x, LineBreak, SelfClosingBreak), ReplaceAllCI(y, LineBreak, SelfClosingBreak);
    ReplaceAllSplit(x, m, y, LineBreak, SelfClosingBreak);
    var x2, y2 := ReplaceAllCI(x1, OpenBrace, OpenBraceEntity), ReplaceAllCI(y1, OpenBrace, OpenBraceEntity);
    ReplaceAllAround(x1, SelfClosingBreak, y1, OpenBrace, OpenBraceEntity);
    var x3, y3 := ReplaceAllCI(x2, CloseBrace, CloseBraceEntity), ReplaceAllCI(y2, CloseBrace, CloseBraceEntity);
    ReplaceAllAround(x2, SelfClosingBreak, y2, CloseBrace, CloseBraceEntity);
    ReplaceAllAround(x3, SelfClosingBreak, y3, ClassAttr, ClassNameAttr);
  }

  /** Every `{` becomes `&#123;`; the text before and after it is rewritten
      on its own. */
  lemma OpenBraceRewritten(x: string, m: string, y: string)
    requires EqualCI(m, OpenBrace)
    ensures RewriteMarkup(x + m + y) == RewriteMarkup(x) + OpenBraceEntity + RewriteMarkup(y)
  {
    PatternsHeadUnique();
    EntitiesAvoidLater();
    BracesAvoidEarlier();
    DisjointEqualCI(m, OpenBrace, LineBreak);
    var x1, y1 := ReplaceAllCI(x, LineBreak, SelfClosingBreak), ReplaceAllCI(y, LineBreak, SelfClosingBreak);
    ReplaceAllAround(x, m, y, LineBreak, SelfClosingBreak);
    var x2, y2 := ReplaceAllCI(x1, OpenBrace, OpenBraceEntity), ReplaceAllCI(y1, OpenBrace, OpenBraceEntity);
    ReplaceAllSplit(x1, m, y1, OpenBrace, OpenBraceEntity);
    var x3, y3 := ReplaceAllCI(x2, CloseBrace, CloseBraceEntity), ReplaceAllCI(y2, CloseBrace, CloseBraceEntity);
    ReplaceAllAround(x2, OpenBraceEntity, y2, CloseBrace, CloseBraceEntity);
    ReplaceAllAround(x3, OpenBraceEntity, y3, ClassAttr, ClassNameAttr);
  }

  /** Every `}` becomes `&#125;`; the text before and after it is rewritten
      on its own. */
  lemma CloseBraceRewritten(x: string, m: string, y: string)
    requires EqualCI(m, CloseBrace)
    ensures RewriteMarkup(x + m + y) == RewriteMarkup(x) + CloseBraceEntity + RewriteMarkup(y)
  {
    PatternsHeadUnique();
    EntitiesAvoidLater();
    BracesAvoidEarlier();
    DisjointEqualCI(m, CloseBrace, LineBreak);
    DisjointEqualCI(m, CloseBrace, OpenBrace);
    var x1, y1 := ReplaceAllCI(x, LineBreak, SelfClosingBreak), ReplaceAllCI(y, LineBreak, SelfClosingBreak);
    ReplaceAllAround(x, m, y, LineBreak, SelfClosingBreak);
    var x2, y2 := ReplaceAllCI(x1, OpenBrace, OpenBraceEntity), ReplaceAllCI(y1, OpenBrace, OpenBraceEntity);
    ReplaceAllAround(x1, m, y1, OpenBrace, OpenBraceEntity);
    var x3, y3 := ReplaceAllCI(x2, CloseBrace, CloseBraceEntity), ReplaceAllCI(y2, CloseBrace, CloseBraceEntity);
    ReplaceAllSplit(x2, m, y2, CloseBrace, CloseBraceEntity);
    ReplaceAllAround(x3, CloseBraceEntity, y3, ClassAttr, ClassNameAttr);
  }

  /** Every `class="`, in any case, becomes `className="`; the text before
      and after it is rewritten on its own. */
  lemma ClassRewritten(x: string, m: string, y: string)
    requires EqualCI(m, ClassAttr)
    ensures RewriteMarkup(x + m + y) == RewriteMarkup(x) + ClassNameAttr + RewriteMarkup(y)
  {
    PatternsHeadUnique();
    ClassAvoidsEarlier();
    DisjointEqualCI(m, ClassAttr, LineBreak);
    DisjointEqualCI(m, ClassAttr, OpenBrace);
    DisjointEqualCI(m, ClassAttr, CloseBrace);
    var x1, y1 := ReplaceAllCI(x, LineBreak, SelfClosingBreak), ReplaceAllCI(y, LineBreak, SelfClosingBreak);
    ReplaceAllAround(x, m, y, LineBreak, SelfClosingBreak);
    var x2, y2 := ReplaceAllCI(x1, OpenBrace, OpenBraceEntity), ReplaceAllCI(y1, OpenBrace, OpenBraceEntity);
    ReplaceAllAround(x1, m, y1, OpenBrace, OpenBraceEntity);
    var x3, y3 := ReplaceAllCI(x2, CloseBrace, CloseBraceEntity), ReplaceAllCI(y2, CloseBrace, CloseBraceEntity);
    ReplaceAllAround(x2, m, y2, CloseBrace, CloseBraceEntity);
    ReplaceAllSplit(x3, m, y3, ClassAttr, ClassNameAttr);
  }

  /** Text that shares no character, up to case, with any of the four
      patterns is kept as it is; the text before and after it is rewritten on
      its own. */
  lemma OtherTextKept(x: string, w: string, y: string)
    requires |w| > 0
    requires DisjointCI(w, LineBreak) && DisjointCI(w, OpenBrace) && DisjointCI(w, CloseBrace) && DisjointCI(w, ClassAttr)
    ensures RewriteMarkup(x + w + y) == RewriteMarkup(x) + w + RewriteMarkup(y)
  {
    var x1, y1 := ReplaceAllCI(x, LineBreak, SelfClosingBreak), ReplaceAllCI(y, LineBreak, SelfClosingBreak);
    ReplaceAllAround(x, w, y, LineBreak, SelfClosingBreak);
    var x2, y2 := ReplaceAllCI(x1, OpenBrace, OpenBraceEntity), ReplaceAllCI(y1, OpenBrace, OpenBraceEntity);
    ReplaceAllAround(x1, w, y1, OpenBrace, OpenBraceEntity);
    var x3, y3 := ReplaceAllCI(x2, CloseBrace, CloseBraceEntity), ReplaceAllCI(y2, CloseBrace, CloseBraceEntity);
    ReplaceAllAround(x2, w, y2, CloseBrace, CloseBraceEntity);
    ReplaceAllAround(x3, w, y3, ClassAttr, ClassNameAttr);
  }

  /** In a body line that is not a column line, a `<br>` in any case comes
      out as `<br />` between the rewritten text around it. */
  lemma BreakInBodyLine(x: string, m: string, y: string)
    requires EqualCI(m, LineBreak) && !IsColLine(x + m + y)
    ensures TransformLine(x + m + y) == RewriteMarkup(x) + SelfClosingBreak + RewriteMarkup(y)
  {
    BreakRewritten(x, m, y);
  }
}
