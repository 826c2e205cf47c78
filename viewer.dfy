/** The page-navigation state of the PDF viewer component: the current page, the page count
    reported by the document loader, the error message and the rendered page width. The
    component's setters become field updates; rendering is left aside, and what it derives
    from the state (disabled buttons, header visibility, page widths) are functions. */
module Viewer {
  import opened Wrappers

  const InitialPageWidth: int := 800
  const MaxPageWidth: int := 1200
  const DesktopMaxWidth: int := 900
  const MobileMinWidth: int := 600
  /** Horizontal margin subtracted from the window width. */
  const WindowMargin: int := 16
  const LoadErrorMessage: string := "Die Zeitung konnte nicht geladen werden. Bitte versuchen Sie es später noch einmal."

  function Min(a: int, b: int): int { if a <= b then a else b }
  function Max(a: int, b: int): int { if a >= b then a else b }

  /** `numPages || 1`: the page count, or 1 while it is unknown or zero. */
  function LastPage(numPages: Option<nat>): (last: nat)
    ensures last >= 1
    ensures numPages.Some? && numPages.value >= 1 ==> last == numPages.value
    ensures numPages.None? || numPages == Some(0) ==> last == 1
  {
    match numPages
    case Some(n) => if n == 0 then 1 else n
    case None => 1
  }

  /** `Math.max(1, page - 1)` */
  function PrevPage(page: int): int
  {
    Max(1, page - 1)
  }

  /** `Math.min(numPages || 1, page + 1)` */
  function NextPage(page: int, numPages: Option<nat>): int
  {
    Min(LastPage(numPages), page + 1)
  }

  /** The Back button is disabled on the first page. */
  predicate PrevDisabled(page: int)
  {
    page <= 1
  }

  /** The Next button is disabled from the last page on; `page >= undefined` is false. */
  predicate NextDisabled(page: int, numPages: Option<nat>)
  {
    match numPages
    case Some(n) => page >= n
    case None => false
  }

  /** The navigation header is rendered only for a document of more than one page. */
  predicate HeaderVisible(numPages: Option<nat>)
  {
    numPages.Some? && numPages.value > 1
  }

  /** `Math.min(window.innerWidth - 16, 1200)` */
  function ClampedPageWidth(innerWidth: int): (w: int)
    ensures w <= MaxPageWidth && w <= innerWidth - WindowMargin
    ensures w == MaxPageWidth || w == innerWidth - WindowMargin
  {
    Min(innerWidth - WindowMargin, MaxPageWidth)
  }

  /** Width of the page on wide screens: `Math.min(pageWidth, 900)`. */
  function DesktopPageWidth(pageWidth: int): (w: int)
    ensures w <= DesktopMaxWidth && w <= pageWidth
    ensures w == DesktopMaxWidth || w == pageWidth
  {
    Min(pageWidth, DesktopMaxWidth)
  }

  /** Width of the page on narrow screens: `Math.max(pageWidth, 600)`. */
  function MobilePageWidth(pageWidth: int): (w: int)
    ensures w >= MobileMinWidth && w >= pageWidth
    ensures w == MobileMinWidth || w == pageWidth
  {
    Max(pageWidth, MobileMinWidth)
  }

  /** Going back never leaves page 1 behind, moves back exactly one page from a later page,
      and does nothing on page 1. */
  lemma PrevPageSpec(page: int)
    requires page >= 1
    ensures PrevPage(page) >= 1 && PrevPage(page) <= page
    ensures page > 1 ==> PrevPage(page) == page - 1
    ensures page == 1 ==> PrevPage(page) == page
  {
  }

  /** Going forward never passes the last page (page 1 while the count is unknown or zero),
      moves forward exactly one page before it, and does nothing on it. */
  lemma NextPageSpec(page: int, numPages: Option<nat>)
    requires 1 <= page <= LastPage(numPages)
    ensures 1 <= NextPage(page, numPages) <= LastPage(numPages)
    ensures page < LastPage(numPages) ==> NextPage(page, numPages) == page + 1
    ensures page == LastPage(numPages) ==> NextPage(page, numPages) == page
  {
  }

  /** Back then forward returns to the page one started from, and forward then back too. */
  lemma NextUndoesPrev(page: int, numPages: Option<nat>)
    requires 1 < page <= LastPage(numPages)
    ensures NextPage(PrevPage(page), numPages) == page
  {
  }

  lemma PrevUndoesNext(page: int, numPages: Option<nat>)
    requires 1 <= page < LastPage(numPages)
    ensures PrevPage(NextPage(page, numPages)) == page
  {
  }

  /** While the header is shown, each button is disabled exactly when pressing it would not
      change the page. */
  lemma DisabledMeansNoChange(page: int, numPages: Option<nat>)
    requires HeaderVisible(numPages) && 1 <= page <= LastPage(numPages)
    ensures PrevDisabled(page) <==> PrevPage(page) == page
    ensures NextDisabled(page, numPages) <==> NextPage(page, numPages) == page
  {
  }

  datatype Nav = Back | Forward

  /** The page reached by pressing the buttons in order. */
  function Navigate(page: int, numPages: Option<nat>, presses: seq<Nav>): int
    decreases |presses|
  {
    if presses == [] then page
    else
      var next := match presses[0] case Back => PrevPage(page) case Forward => NextPage(page, numPages);
      Navigate(next, numPages, presses[1..])
  }

  /** Any sequence of presses keeps the page between 1 and `numPages || 1`. */
  lemma {:induction false} NavigateStaysInRange(page: int, numPages: Option<nat>, presses: seq<Nav>)
    requires 1 <= page <= LastPage(numPages)
    ensures 1 <= Navigate(page, numPages, presses) <= LastPage(numPages)
    decreases |presses|
  {
    if presses != [] {
      var next := match presses[0] case Back => PrevPage(page) case Forward => NextPage(page, numPages);
      NavigateStaysInRange(next, numPages, presses[1..]);
    }
  }

  /** The viewer's state, updated by its event handlers. */
  class PdfViewer {
    var numPages: Option<nat>
    var pageNumber: int
    var loading: bool
    var error: string
    var pageWidth: int

    /** What every handler keeps: a page number of at least 1 and a width within the cap. */
    ghost predicate Valid()
      reads this
    {
      1 <= pageNumber && pageWidth <= MaxPageWidth
    }

    /** The page number is a page of the document (page 1 while the count is unknown). */
    predicate OnExistingPage()
      reads this
    {
      pageNumber <= LastPage(numPages)
    }

    predicate ShowsError()
      reads this
    {
      error != ""
    }

    constructor ()
      ensures Valid() && OnExistingPage()
      ensures numPages == None && pageNumber == 1 && loading && error == "" && pageWidth == InitialPageWidth
    {
      numPages := None;
      pageNumber := 1;
      loading := true;
      error := "";
      pageWidth := InitialPageWidth;
    }

    /** `onDocumentLoadSuccess`: records the page count and clears the error. */
    method OnDocumentLoadSuccess(n: nat)
      requires Valid()
      modifies this
      ensures Valid()
      ensures numPages == Some(n) && !loading && error == ""
      ensures pageNumber == old(pageNumber) && pageWidth == old(pageWidth)
      ensures OnExistingPage() <==> old(pageNumber) <= LastPage(Some(n))
    {
      numPages := Some(n);
      loading := false;
      error := "";
    }

    /** `onDocumentLoadError`: shows the fixed error message. */
    method OnDocumentLoadError()
      requires Valid()
      modifies this
      ensures Valid() && ShowsError()
      ensures error == LoadErrorMessage && !loading
      ensures pageNumber == old(pageNumber) && numPages == old(numPages) && pageWidth == old(pageWidth)
    {
      loading := false;
      error := LoadErrorMessage;
    }

    /** `goToPrevPage` */
    method GoToPrevPage()
      requires Valid()
      modifies this`pageNumber
      ensures Valid()
      ensures pageNumber == PrevPage(old(pageNumber))
      ensures old(OnExistingPage()) ==> OnExistingPage()
    {
      pageNumber := PrevPage(pageNumber);
    }

    /** `goToNextPage` */
    method GoToNextPage()
      requires Valid()
      modifies this`pageNumber
      ensures Valid() && OnExistingPage()
      ensures pageNumber == NextPage(old(pageNumber), numPages)
    {
      pageNumber := NextPage(pageNumber, numPages);
    }

    /** The resize handler: `setPageWidth(Math.min(window.innerWidth - 16, 1200))`. */
    method UpdatePageWidth(innerWidth: int)
      requires Valid()
      modifies this`pageWidth
      ensures Valid()
      ensures pageWidth == ClampedPageWidth(innerWidth)
    {
      pageWidth := ClampedPageWidth(innerWidth);
    }

    /** The width handed to the page renderer on wide screens. */
    function DesktopWidth(): (w: int)
      reads this
      ensures w <= DesktopMaxWidth
    {
      DesktopPageWidth(pageWidth)
    }

    /** The width handed to the page renderer on narrow screens. */
    function MobileWidth(): (w: int)
      reads this
      requires Valid()
      ensures MobileMinWidth <= w <= MaxPageWidth
    {
      MobilePageWidth(pageWidth)
    }
  }
}
