/**
 * The application state record: current page, theme, login status, cookies,
 * user profile, the QR-login scratch fields and the user-menu flag, changed
 * in place by setters and toggles. The disk load in `new` and the file write
 * in `persist_login` are not modelled; `persist_login` returns the record it
 * would write.
 */
module State {
  import opened Wrappers
  import Text

  datatype Page = Home | Settings

  datatype Theme = Dark | Light

  /** The login cookies; SESSDATA is always present, the others may be missing. */
  datatype Cookies = Cookies(
    sessdata: string,
    dedeUserId: Option<string>,
    dedeUserIdCkMd5: Option<string>,
    biliJct: Option<string>,
    sid: Option<string>)

  /** `Cookies::default()`. */
  const DefaultCookies: Cookies := Cookies("", None, None, None, None)

  datatype UserProfile = UserProfile(
    uname: Option<string>,
    face: Option<string>,
    faceLocal: Option<string>,
    pendantImage: Option<string>)

  /** The record `persist_login` writes to disk. */
  datatype SavedLogin = SavedLogin(loggedIn: bool, cookies: Cookies, user: Option<UserProfile>)

  /** All fields of an `AppState`, as one value. */
  datatype Fields = Fields(
    currentPage: Page,
    theme: Theme,
    loggedIn: bool,
    cookies: Option<Cookies>,
    user: Option<UserProfile>,
    qrStarted: bool,
    qrcodeKey: Option<string>,
    qrSvg: Option<seq<bv8>>,
    qrStatus: string,
    userMenuOpen: bool)

  /** The other theme. */
  function Toggled(t: Theme): (r: Theme)
    ensures r != t
  {
    match t
    case Dark => Light
    case Light => Dark
  }

  lemma ToggledTwice(t: Theme)
    ensures Toggled(Toggled(t)) == t
  {
  }

  /** One `name=value` part of a cookie header. */
  function Pair(name: string, value: string): (p: string)
    ensures |p| == |name| + 1 + |value|
    ensures p[..|name|] == name && p[|name|] == '=' && p[|name| + 1..] == value
  {
    name + "=" + value
  }

  /** The part for an optional cookie: one part when present, none when absent. */
  function CookiePart(name: string, value: Option<string>): (parts: seq<string>)
    ensures |parts| == (if value.Some? then 1 else 0)
    ensures value.Some? ==> parts[0] == Pair(name, value.value)
  {
    if value.Some? then [Pair(name, value.value)] else []
  }

  /** How many of the optional cookies are present. */
  function PresentCount(c: Cookies): nat {
    (if c.dedeUserId.Some? then 1 else 0) + (if c.dedeUserIdCkMd5.Some? then 1 else 0)
    + (if c.biliJct.Some? then 1 else 0) + (if c.sid.Some? then 1 else 0)
  }

  /** The parts of a cookie header: the present optional cookies in fixed order, then SESSDATA. */
  function HeaderParts(c: Cookies): (parts: seq<string>)
    ensures |parts| == PresentCount(c) + 1
    ensures parts[|parts| - 1] == Pair("SESSDATA", c.sessdata)
  {
    CookiePart("DedeUserID", c.dedeUserId) + CookiePart("DedeUserID__ckMd5", c.dedeUserIdCkMd5)
    + CookiePart("bili_jct", c.biliJct) + CookiePart("sid", c.sid) + [Pair("SESSDATA", c.sessdata)]
  }

  /** The `Cookie` request header for a set of cookies. */
  function CookieHeaderOf(c: Cookies): string {
    Text.Join(HeaderParts(c), "; ")
  }

  class AppState {
    var currentPage: Page
    var theme: Theme
    var loggedIn: bool
    var cookies: Option<Cookies>
    var user: Option<UserProfile>
    var qrStarted: bool
    var qrcodeKey: Option<string>
    var qrSvg: Option<seq<bv8>>
    var qrStatus: string
    var userMenuOpen: bool

    function View(): Fields
      reads this
    {
      Fields(currentPage, theme, loggedIn, cookies, user, qrStarted, qrcodeKey, qrSvg, qrStatus, userMenuOpen)
    }

    /** `AppState::new` without the disk load: Home, dark theme, logged out, everything else empty. */
    constructor ()
      ensures View() == Fields(Home, Dark, false, None, None, false, None, None, "", false)
    {
      currentPage := Home;
      theme := Dark;
      loggedIn := false;
      cookies := None;
      user := None;
      qrStarted := false;
      qrcodeKey := None;
      qrSvg := None;
      qrStatus := "";
      userMenuOpen := false;
    }

    method SetPage(page: Page)
      modifies this
      ensures View() == old(View()).(currentPage := page)
    {
      currentPage := page;
    }

    method SetTheme(t: Theme)
      modifies this
      ensures View() == old(View()).(theme := t)
    {
      theme := t;
    }

    /** Dark becomes Light and Light becomes Dark; nothing else changes. */
    method ToggleTheme()
      modifies this
      ensures theme == Toggled(old(theme)) && theme != old(theme)
      ensures View() == old(View()).(theme := theme)
    {
      theme := match theme
        case Dark => Light
        case Light => Dark;
    }

    method SetLoggedIn(logged: bool)
      modifies this
      ensures View() == old(View()).(loggedIn := logged)
    {
      loggedIn := logged;
    }

    method SetCookies(c: Cookies)
      modifies this
      ensures View() == old(View()).(cookies := Some(c))
    {
      cookies := Some(c);
    }

    method SetUser(u: UserProfile)
      modifies this
      ensures View() == old(View()).(user := Some(u))
    {
      user := Some(u);
    }

    method SetQrStarted(v: bool)
      modifies this
      ensures View() == old(View()).(qrStarted := v)
    {
      qrStarted := v;
    }

    method SetQrcodeKey(k: Option<string>)
      modifies this
      ensures View() == old(View()).(qrcodeKey := k)
    {
      qrcodeKey := k;
    }

    method SetQrSvg(data: Option<seq<bv8>>)
      modifies this
      ensures View() == old(View()).(qrSvg := data)
    {
      qrSvg := data;
    }

    method SetQrStatus(s: string)
      modifies this
      ensures View() == old(View()).(qrStatus := s)
    {
      qrStatus := s;
    }

    method SetUserMenuOpen(open: bool)
      modifies this
      ensures View() == old(View()).(userMenuOpen := open)
    {
      userMenuOpen := open;
    }

    /** Flips the menu flag; nothing else changes. */
    method ToggleUserMenu()
      modifies this
      ensures userMenuOpen == !old(userMenuOpen)
      ensures View() == old(View()).(userMenuOpen := userMenuOpen)
    {
      userMenuOpen := !userMenuOpen;
    }

    /**
     * `cookie_header`: no header without cookies; otherwise the present
     * optional cookies in fixed order and SESSDATA last, joined by "; ".
     */
    method CookieHeader() returns (header: Option<string>)
      ensures header.None? <==> cookies.None?
      ensures cookies.Some? ==> header == Some(CookieHeaderOf(cookies.value))
    {
      if cookies.None? {
        return None;
      }
      var c := cookies.value;
      var parts: seq<string> := [];
      if c.dedeUserId.Some? { parts := parts + [Pair("DedeUserID", c.dedeUserId.value)]; }
      assert parts == CookiePart("DedeUserID", c.dedeUserId);
      if c.dedeUserIdCkMd5.Some? { parts := parts + [Pair("DedeUserID__ckMd5", c.dedeUserIdCkMd5.value)]; }
      assert parts == CookiePart("DedeUserID", c.dedeUserId) + CookiePart("DedeUserID__ckMd5", c.dedeUserIdCkMd5);
      if c.biliJct.Some? { parts := parts + [Pair("bili_jct", c.biliJct.value)]; }
      if c.sid.Some? { parts := parts + [Pair("sid", c.sid.value)]; }
      parts := parts + [Pair("SESSDATA", c.sessdata)];
      assert parts == HeaderParts(c);
      header := Some(Text.Join(parts, "; "));
    }

    /** The record `persist_login` writes: login flag and user as they are, cookies or the default ones. */
    method PersistLogin() returns (saved: SavedLogin)
      ensures saved.loggedIn == loggedIn && saved.user == user
      ensures cookies.Some? ==> saved.cookies == cookies.value
      ensures cookies.None? ==> saved.cookies == DefaultCookies
    {
      saved := SavedLogin(loggedIn, cookies.GetOr(DefaultCookies), user);
    }
  }

  /** Toggling the theme twice restores the state. */
  method ToggleThemeTwice(s: AppState)
    modifies s
    ensures s.View() == old(s.View())
  {
    s.ToggleTheme();
    s.ToggleTheme();
  }

  /** Toggling the user menu twice restores the state. */
  method ToggleUserMenuTwice(s: AppState)
    modifies s
    ensures s.View() == old(s.View())
  {
    s.ToggleUserMenu();
    s.ToggleUserMenu();
  }
}
