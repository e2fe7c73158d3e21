/**
 * The project-detail modal of the portfolio page: which project is shown in
 * the modal and which slide of its image gallery is displayed.
 *
 * The page component keeps two state cells, the active project (or `null`
 * when the modal is closed) and the active slide index. Five event handlers
 * change them: opening a project card, closing the modal (the close button
 * and a click on the backdrop), the previous and next arrows of the carousel,
 * and the indicator dots, which jump straight to a slide.
 */
module ProjectModal {
  import opened Wrappers
  import opened Carousel

  /** An image with its accessible description. */
  datatype ImageRef = ImageRef(src: string, alt: string)

  /** A portfolio entry. Only `gallery` matters to the modal's state; the rest is content. */
  datatype ProjectInfo = ProjectInfo(
    id: string,
    title: string,
    timeframe: string,
    summary: string,
    description: seq<string>,
    technologies: seq<string>,
    image: ImageRef,
    linkHref: Option<string>,
    linkLabel: Option<string>,
    gallery: Option<seq<ImageRef>>)

  /**
   * `activeProject?.gallery?.length`, read as a number of slides: zero when no
   * project is active, when its gallery is absent and when it is empty; this
   * is exactly when the navigation handlers return early.
   */
  function SlideCount(p: Option<ProjectInfo>): (n: nat)
    ensures n == 0 <==> p == None || p.value.gallery == None || p.value.gallery.value == []
    ensures n > 0 ==> n == |p.value.gallery.value|
  {
    match p
    case None => 0
    case Some(project) =>
      match project.gallery
      case None => 0
      case Some(slides) => |slides|
  }

  /** The modal's invariant: a closed modal shows slide 0, an open gallery a slide it has. */
  predicate WellFormed(p: Option<ProjectInfo>, s: int)
  {
    (p == None ==> s == 0) &&
    (SlideCount(p) > 0 ==> 0 <= s < SlideCount(p))
  }

  /** The slide after pressing "next": unchanged on an empty gallery, otherwise one forward with wrap. */
  function SlideAfterNext(p: Option<ProjectInfo>, s: int): (r: int)
    ensures SlideCount(p) == 0 ==> r == s
    ensures WellFormed(p, s) ==> WellFormed(p, r)
    ensures WellFormed(p, s) && SlideCount(p) > 0 ==>
      r == if s == SlideCount(p) - 1 then 0 else s + 1
  {
    if SlideCount(p) == 0 then s else NextSlide(s, SlideCount(p))
  }

  /** The slide after pressing "previous": unchanged on an empty gallery, otherwise one back with wrap. */
  function SlideAfterPrevious(p: Option<ProjectInfo>, s: int): (r: int)
    ensures SlideCount(p) == 0 ==> r == s
    ensures WellFormed(p, s) ==> WellFormed(p, r)
    ensures WellFormed(p, s) && SlideCount(p) > 0 ==>
      r == if s == 0 then SlideCount(p) - 1 else s - 1
  {
    if SlideCount(p) == 0 then s else PreviousSlide(s, SlideCount(p))
  }

  /** On a well-formed state, "previous" after "next" returns to the same slide. */
  lemma PreviousAfterNext(p: Option<ProjectInfo>, s: int)
    requires WellFormed(p, s)
    ensures SlideAfterPrevious(p, SlideAfterNext(p, s)) == s
  {
    if SlideCount(p) > 0 {
      PreviousUndoesNext(s, SlideCount(p));
    }
  }

  /** On a well-formed state, "next" after "previous" returns to the same slide. */
  lemma NextAfterPrevious(p: Option<ProjectInfo>, s: int)
    requires WellFormed(p, s)
    ensures SlideAfterNext(p, SlideAfterPrevious(p, s)) == s
  {
    if SlideCount(p) > 0 {
      NextUndoesPrevious(s, SlideCount(p));
    }
  }

  /** The two state cells of the page component and the handlers that change them. */
  class Modal {
    var activeProject: Option<ProjectInfo>
    var activeSlide: int

    ghost predicate Valid()
      reads this
    {
      WellFormed(activeProject, activeSlide)
    }

    /** The initial state of both cells: no project, slide 0. */
    constructor ()
      ensures Valid()
      ensures activeProject == None && activeSlide == 0
    {
      activeProject := None;
      activeSlide := 0;
    }

    /** `handleOpenProject`: show `project`, starting at its first slide whatever was shown before. */
    method Open(project: ProjectInfo)
      requires Valid()
      modifies this
      ensures Valid()
      ensures activeProject == Some(project) && activeSlide == 0
    {
      activeProject := Some(project);
      activeSlide := 0;
    }

    /** `handleCloseProject`: hide the modal and reset the slide; on a closed modal nothing changes. */
    method Close()
      requires Valid()
      modifies this
      ensures Valid()
      ensures activeProject == None && activeSlide == 0
      ensures old(activeProject) == None ==> activeSlide == old(activeSlide)
    {
      activeProject := None;
      activeSlide := 0;
    }

    /** `showPreviousImage`: one slide back with wrap; nothing changes without a non-empty gallery. */
    method ShowPrevious()
      requires Valid()
      modifies this
      ensures Valid()
      ensures activeProject == old(activeProject)
      ensures activeSlide == SlideAfterPrevious(old(activeProject), old(activeSlide))
    {
      if SlideCount(activeProject) == 0 {
        return;
      }
      var totalSlides := SlideCount(activeProject);
      activeSlide := PreviousSlide(activeSlide, totalSlides);
    }

    /** `showNextImage`: one slide forward with wrap; nothing changes without a non-empty gallery. */
    method ShowNext()
      requires Valid()
      modifies this
      ensures Valid()
      ensures activeProject == old(activeProject)
      ensures activeSlide == SlideAfterNext(old(activeProject), old(activeSlide))
    {
      if SlideCount(activeProject) == 0 {
        return;
      }
      var totalSlides := SlideCount(activeProject);
      activeSlide := NextSlide(activeSlide, totalSlides);
    }

    /** An indicator dot: jump to slide `index` of the active gallery. */
    method GoTo(index: int)
      requires Valid()
      requires 0 <= index < SlideCount(activeProject)
      modifies this
      ensures Valid()
      ensures activeProject == old(activeProject) && activeSlide == index
    {
      activeSlide := index;
    }
  }

  /** The walkthroughs of the carousel, followed through the handlers' contracts alone. */
  method Walkthrough(x: ProjectInfo, y: ProjectInfo, a: ImageRef, b: ImageRef, c: ImageRef)
    requires y.gallery == Some([a, b, c])
  {
    var m := new Modal();
    m.Close();
    assert m.activeProject == None && m.activeSlide == 0;

    m.Open(y);
    m.ShowNext();
    assert m.activeSlide == 1;
    m.ShowNext();
    assert m.activeSlide == 2;
    m.ShowNext();
    assert m.activeSlide == 0;
    m.ShowPrevious();
    assert m.activeSlide == 2 && m.activeProject == Some(y);

    m.Open(x);
    assert m.activeProject == Some(x) && m.activeSlide == 0;
  }
}
