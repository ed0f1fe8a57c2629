/** Page navigation of the dashboard: which page a URL path shows, which
    sidebar button is highlighted for it, where a button click leads, and
    the sidebar's collapsed flag. */
module Navigation {

  import opened Wrappers
  import opened Strings

  /** The numbered pages. */
  const PageConstants: map<int, string> :=
    map[1 := "dashboard", 2 := "enrollment", 3 := "help", 4 := "settings"]

  /** The sidebar buttons in order, the page each stands for and the path it leads to. */
  const ButtonIds: seq<string> := ["btn-1", "btn-2", "btn-3", "btn-4"]
  const ButtonPages: seq<string> := ["dashboard", "enrollment", "help", "settings"]
  const ButtonPaths: seq<string> := ["/1", "/2", "/3", "/4"]

  /** The path the app starts on, and the page number stored with it. */
  const DefaultPath: string := "/1"
  const DefaultPage: int := 1

  const ActiveClass: string := "navitem active"
  const InactiveClass: string := "navitem"

  /** `int(...)` raising ValueError on the text it could not read. */
  datatype NavError = ValueError(text: string)

  /** `PAGE_CONSTANTS.get(n, 'dashboard')`. */
  function PageName(n: int): (name: string)
    ensures 1 <= n <= 4 ==> name == ButtonPages[n - 1]
    ensures !(1 <= n <= 4) ==> name == "dashboard"
  {
    if n in PageConstants then PageConstants[n] else "dashboard"
  }

  /** The page number of a path: `int(pathname.lstrip('/'))`. */
  function PageNumber(pathname: string): Result<int, NavError> {
    var text := LStrip(pathname, '/');
    match ParseInt(text)
    case None => Failure(ValueError(text))
    case Some(n) => Success(n)
  }

  /** A path written as "/" and a page number reads back as that number. */
  lemma PageNumberOfPath(n: nat)
    ensures PageNumber("/" + DecimalString(n)) == Success(n)
  {
    var digits := DecimalString(n);
    assert IsDigit(digits[0]);
    LStripOne(digits, '/');
    assert "/" + digits == ['/'] + digits;
    ParseDecimalString(n);
  }

  /** Every button's path is "/" and its page number. */
  lemma ButtonPathsArePageNumbers(i: int)
    requires 0 <= i < 4
    ensures ButtonPaths[i] == "/" + DecimalString(i + 1)
  {
  }

  /** The content shown for a path: its page name and number. */
  datatype Content = Content(page: string, pageNumber: int)

  /** `update_content`: the page for the path and the number stored as
      the current page. */
  function UpdateContent(pathname: string): Result<Content, NavError> {
    match PageNumber(pathname)
    case Failure(e) => Failure(e)
    case Success(n) => Success(Content(PageName(n), n))
  }

  /** The class names of btn-1 … btn-4 for a page number: only page
      numbers 1 to 4 highlight a button, and then exactly the matching one. */
  function LinkClasses(n: int): (classes: seq<string>)
    ensures |classes| == 4
    ensures forall i :: 0 <= i < 4 ==> (classes[i] == ActiveClass <==> n == i + 1)
    ensures forall i :: 0 <= i < 4 ==> classes[i] == ActiveClass || classes[i] == InactiveClass
  {
    if n == 1 then [ActiveClass, InactiveClass, InactiveClass, InactiveClass]
    else if n == 2 then [InactiveClass, ActiveClass, InactiveClass, InactiveClass]
    else if n == 3 then [InactiveClass, InactiveClass, ActiveClass, InactiveClass]
    else if n == 4 then [InactiveClass, InactiveClass, InactiveClass, ActiveClass]
    else [InactiveClass, InactiveClass, InactiveClass, InactiveClass]
  }

  /** `update_active_link`: the buttons' class names for the path. */
  function UpdateActiveLink(pathname: string): Result<seq<string>, NavError> {
    match PageNumber(pathname)
    case Failure(e) => Failure(e)
    case Success(n) => Success(LinkClasses(n))
  }

  /** The content and the highlighted button agree: both callbacks fail
      on the same paths, exactly those whose text after the leading slashes
      is not an optionally signed integer, and both report that text; a
      highlighted button is the page shown, and a page number outside 1 to 4
      shows the dashboard with no button highlighted. */
  lemma ContentMatchesLink(pathname: string)
    ensures UpdateContent(pathname).Success? <==> UpdateActiveLink(pathname).Success?
    ensures UpdateContent(pathname).Failure? <==> ParseInt(LStrip(pathname, '/')).None?
    ensures UpdateContent(pathname).Failure? ==>
      UpdateContent(pathname).error == UpdateActiveLink(pathname).error == ValueError(LStrip(pathname, '/'))
    ensures UpdateContent(pathname).Success? ==>
      var content := UpdateContent(pathname).value;
      var classes := UpdateActiveLink(pathname).value;
      (forall i :: 0 <= i < 4 && classes[i] == ActiveClass ==> content.page == ButtonPages[i])
      && (!(1 <= content.pageNumber <= 4) ==>
            content.page == "dashboard" && forall i :: 0 <= i < 4 ==> classes[i] == InactiveClass)
  {
  }

  /** `navigate`: `triggered` lists the `prop_id`s of the inputs that
      fired ("btn-2.n_clicks"); a click on a sidebar button leads to its
      path, anything else keeps the current path. */
  function Navigate(triggered: seq<string>, currentPath: string): string {
    if triggered == [] then currentPath
    else
      var buttonId := UpTo(triggered[0], '.');
      if buttonId == "btn-1" then "/1"
      else if buttonId == "btn-2" then "/2"
      else if buttonId == "btn-3" then "/3"
      else if buttonId == "btn-4" then "/4"
      else currentPath
  }

  /** A click on button i, whatever property of it fired, leads to its path. */
  lemma NavigateButton(i: int, property: string, others: seq<string>, currentPath: string)
    requires 0 <= i < 4
    requires property == [] || property[0] == '.'
    ensures Navigate([ButtonIds[i] + property] + others, currentPath) == ButtonPaths[i]
  {
    assert '.' !in ButtonIds[i];
    UpToHead(ButtonIds[i], property, '.');
  }

  /** Navigation follows the sidebar's table: a trigger whose id is button
      i's leads to button i's path, and no trigger, or one that is not a
      sidebar button, keeps the current path. */
  lemma NavigateFollowsButtons(triggered: seq<string>, currentPath: string)
    ensures forall i :: 0 <= i < 4 && triggered != [] && UpTo(triggered[0], '.') == ButtonIds[i] ==>
      Navigate(triggered, currentPath) == ButtonPaths[i]
    ensures triggered == [] || UpTo(triggered[0], '.') !in ButtonIds ==>
      Navigate(triggered, currentPath) == currentPath
  {
  }

  /** Button i's path shows page i + 1, by its page name, and highlights that button. */
  lemma ButtonPathShowsPage(i: int)
    requires 0 <= i < 4
    ensures UpdateContent(ButtonPaths[i]) == Success(Content(ButtonPages[i], i + 1))
    ensures UpdateActiveLink(ButtonPaths[i]) == Success(LinkClasses(i + 1))
  {
    ButtonPathsArePageNumbers(i);
    PageNumberOfPath(i + 1);
  }

  /** Round trip: clicking button i shows page i + 1, its page name, and
      highlights that button alone. */
  lemma ClickShowsPage(i: int, property: string, others: seq<string>, currentPath: string)
    requires 0 <= i < 4
    requires property == [] || property[0] == '.'
    ensures var path := Navigate([ButtonIds[i] + property] + others, currentPath);
      UpdateContent(path) == Success(Content(ButtonPages[i], i + 1))
      && UpdateActiveLink(path).Success?
      && forall j :: 0 <= j < 4 ==> (UpdateActiveLink(path).value[j] == ActiveClass <==> j == i)
  {
    NavigateButton(i, property, others, currentPath);
    ButtonPathShowsPage(i);
  }

  /** The app opens on the dashboard with its button highlighted, and the
      stored page number agrees with the path. */
  lemma DefaultPathShowsDashboard()
    ensures UpdateContent(DefaultPath) == Success(Content("dashboard", DefaultPage))
    ensures UpdateActiveLink(DefaultPath) == Success(LinkClasses(1))
    ensures LinkClasses(1)[0] == ActiveClass
  {
    assert DefaultPath == ButtonPaths[0];
    ButtonPathShowsPage(0);
  }

  /** `toggle_sidebar`: a click (a click count that is not None) flips the
      collapsed flag. */
  function ToggleSidebar(clicks: Option<int>, collapsed: bool): bool {
    if clicks.None? then collapsed else !collapsed
  }

  /** Two clicks restore the flag; no click count leaves it unchanged. */
  lemma ToggleSidebarTwice(a: int, b: int, collapsed: bool)
    ensures ToggleSidebar(Some(b), ToggleSidebar(Some(a), collapsed)) == collapsed
    ensures ToggleSidebar(Some(a), collapsed) != collapsed
    ensures ToggleSidebar(None, collapsed) == collapsed
  {
  }
}
