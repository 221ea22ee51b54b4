/** The two substitutions the proxy can run `modifyHTML` with, and what each guarantees for
    the rewritten page. */
module ProxyModes {
  import opened RegexReplace
  import opened Dom
  import opened Walk
  import SammiReplace
  import FaleOverride

  /** `Simple` is the substitution `modifyHTML` applies as written; `CaseMirror` is the one it
      applies when the sentinel-aware, case-mirroring `String.prototype.replace` is installed. */
  datatype Mode = Simple | CaseMirror

  function Substitution(mode: Mode): string -> string {
    match mode
    case Simple => SammiReplace.Replace
    case CaseMirror => FaleOverride.Replace
  }

  /** In simple mode, no visited text node of the walked page holds a match any more, and
      every other text node is kept. */
  lemma SimpleWalkClears(doc: seq<Node>, q: Path)
    requires ValidPath(doc, q) && At(doc, q).Text?
    ensures ValidPath(RewriteList(doc, Outside, Substitution(Simple)), q)
    ensures At(RewriteList(doc, Outside, Substitution(Simple)), q).Text?
    ensures IsCandidate(doc, q) ==> !ContainsTarget(At(RewriteList(doc, Outside, Substitution(Simple)), q).data)
    ensures !IsCandidate(doc, q) ==> At(RewriteList(doc, Outside, Substitution(Simple)), q) == At(doc, q)
  {
    WalkText(doc, Substitution(Simple), q);
    CandidateMeansBelowBody(doc, q);
  }

  /** In case-mirroring mode, a visited text node that carries the sentinel phrase keeps its
      text, and one that does not holds no match any more. */
  lemma MirrorWalkGuards(doc: seq<Node>, q: Path)
    requires IsCandidate(doc, q)
    ensures ValidPath(RewriteList(doc, Outside, Substitution(CaseMirror)), q)
    ensures At(RewriteList(doc, Outside, Substitution(CaseMirror)), q).Text?
    ensures FaleOverride.ContainsSentinel(At(doc, q).data) ==>
      At(RewriteList(doc, Outside, Substitution(CaseMirror)), q) == At(doc, q)
    ensures !FaleOverride.ContainsSentinel(At(doc, q).data) ==>
      !ContainsTarget(At(RewriteList(doc, Outside, Substitution(CaseMirror)), q).data)
  {
    CandidatesInIff(doc, Outside, q);
    WalkText(doc, Substitution(CaseMirror), q);
    CandidateMeansBelowBody(doc, q);
  }

  /** The same for the page `modifyHTML` returns, at every text node that lies in no
      `<title>`. */
  lemma SimpleTransformClears(doc: seq<Node>, q: Path)
    requires ValidPath(doc, q) && OutsideTitles(doc, q) && At(doc, q).Text?
    ensures ValidPath(Transform(doc, Substitution(Simple)), q)
    ensures At(Transform(doc, Substitution(Simple)), q).Text?
    ensures IsCandidate(doc, q) ==> !ContainsTarget(At(Transform(doc, Substitution(Simple)), q).data)
    ensures !IsCandidate(doc, q) ==> At(Transform(doc, Substitution(Simple)), q) == At(doc, q)
  {
    TransformAt(doc, Substitution(Simple), q);
  }

  /** The same for the page `modifyHTML` returns in case-mirroring mode, at every visited
      text node that lies in no `<title>`. */
  lemma MirrorTransformGuards(doc: seq<Node>, q: Path)
    requires IsCandidate(doc, q) && OutsideTitles(doc, q)
    ensures ValidPath(Transform(doc, Substitution(CaseMirror)), q)
    ensures At(Transform(doc, Substitution(CaseMirror)), q).Text?
    ensures FaleOverride.ContainsSentinel(At(doc, q).data) ==>
      At(Transform(doc, Substitution(CaseMirror)), q) == At(doc, q)
    ensures !FaleOverride.ContainsSentinel(At(doc, q).data) ==>
      !ContainsTarget(At(Transform(doc, Substitution(CaseMirror)), q).data)
  {
    CandidatesInIff(doc, Outside, q);
    TransformAt(doc, Substitution(CaseMirror), q);
  }

  /** With a single title, outside body and holding no body, simple mode leaves no match in the title. */
  lemma SimpleTitleClears(doc: seq<Node>)
    requires TitleCount(doc) == 1 && TitlesOutsideBody(doc, Outside)
    ensures TitleText(Transform(doc, Substitution(Simple))) == SammiReplace.Replace(TitleText(doc))
    ensures !ContainsTarget(TitleText(Transform(doc, Substitution(Simple))))
  {
    TitleAfterModify(doc, Substitution(Simple));
  }

  /** A page in which no visited text holds a match comes back from the walk unchanged, in
      either mode, with no node replaced. */
  lemma NoMatchNoChange(doc: seq<Node>, mode: Mode)
    requires forall q :: IsCandidate(doc, q) ==> !ContainsTarget(At(doc, q).data)
    ensures RewriteList(doc, Outside, Substitution(mode)) == doc
    ensures Changed(doc, CandidatesIn(doc, Outside), Substitution(mode)) == []
  {
    var sub := Substitution(mode);
    forall q | IsCandidate(doc, q) ensures sub(At(doc, q).data) == At(doc, q).data {
      CandidatesInIff(doc, Outside, q);
    }
    WalkNoChange(doc, sub);
  }

  /** The page `modifyHTML` returns, when no visited text holds a match, in either mode: every node that lies in no `<title>` keeps its kind, each text
      and comment node there is kept, each element keeps its tag and attributes, and a node
      with no title at or below it is kept whole. */
  lemma NoMatchPageKept(doc: seq<Node>, mode: Mode, q: Path)
    requires forall p :: IsCandidate(doc, p) ==> !ContainsTarget(At(doc, p).data)
    requires ValidPath(doc, q) && OutsideTitles(doc, q)
    ensures ValidPath(Transform(doc, Substitution(mode)), q)
    ensures !At(doc, q).Element? ==> At(Transform(doc, Substitution(mode)), q) == At(doc, q)
    ensures At(doc, q).Element? ==>
      && At(Transform(doc, Substitution(mode)), q).Element?
      && At(Transform(doc, Substitution(mode)), q).tag == At(doc, q).tag
      && At(Transform(doc, Substitution(mode)), q).attrs == At(doc, q).attrs
    ensures TitleCountOf(At(doc, q)) == 0 ==> At(Transform(doc, Substitution(mode)), q) == At(doc, q)
  {
    var sub := Substitution(mode);
    NoMatchNoChange(doc, mode);
    SetTitleFrame(doc, sub(TitleText(doc)), q);
  }

  /** Either substitution keeps a text that holds no match. */
  lemma NoMatchKept(s: string, mode: Mode)
    requires !ContainsTarget(s)
    ensures Substitution(mode)(s) == s
  {
    match mode
    case Simple => assert SammiReplace.Replace(s) == s;
    case CaseMirror => assert FaleOverride.Replace(s) == s;
  }

  /** When neither the visited text nor the title text holds a match, `modifyHTML` writes the
      old title text back into every outermost title, so with one title the title text is
      kept. */
  lemma NoMatchTitleKept(doc: seq<Node>, mode: Mode)
    requires forall p :: IsCandidate(doc, p) ==> !ContainsTarget(At(doc, p).data)
    requires !ContainsTarget(TitleText(doc))
    ensures TitleText(Transform(doc, Substitution(mode))) == Repeat(TitleText(doc), TitleCount(doc))
    ensures TitleCount(doc) == 1 ==> TitleText(Transform(doc, Substitution(mode))) == TitleText(doc)
  {
    NoMatchNoChange(doc, mode);
    NoMatchKept(TitleText(doc), mode);
    SetTitleText(doc, TitleText(doc));
    if TitleCount(doc) == 1 {
      assert Repeat(TitleText(doc), 1) == Repeat(TitleText(doc), 0) + TitleText(doc);
    }
  }
}
