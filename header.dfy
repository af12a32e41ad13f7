/**
 * The site header: which navigation link is highlighted for the current path,
 * on the desktop bar and in the mobile menu, and the mobile menu's open flag.
 */
module Header {

  datatype NavLink = NavLink(text: string, href: string)

  /** navLinks */
  const NavLinks: seq<NavLink> := [
    NavLink("Nhà đất bán", "/nha-dat-ban"),
    NavLink("Cho thuê", "/cho-thue"),
    NavLink("Dự án", "/du-an"),
    NavLink("Tin tức", "/tin-tuc"),
    NavLink("Liên hệ", "/lien-he")
  ]

  /** The desktop bar highlights a link on its own path and on every path below it: its href begins the path. */
  predicate IsActiveDesktop(pathname: string, href: string)
    ensures IsActiveDesktop(pathname, href) ==> href <= pathname
  {
    assert href + "/" <= pathname ==> pathname[..|href|] == (href + "/")[..|href|];
    pathname == href || href + "/" <= pathname
  }

  /** The mobile menu highlights a link only on its own path, where the desktop bar highlights it too. */
  predicate IsActiveMobile(pathname: string, href: string)
    ensures IsActiveMobile(pathname, href) ==> IsActiveDesktop(pathname, href)
  {
    pathname == href
  }

  /** An active link's href is a prefix of the path, followed by nothing or by "/". */
  lemma ActiveDesktopMeaning(pathname: string, href: string)
    ensures IsActiveDesktop(pathname, href) <==>
      href <= pathname && (|pathname| == |href| || pathname[|href|] == '/')
  {
    if href <= pathname && |pathname| > |href| && pathname[|href|] == '/' {
      assert pathname[..|href| + 1] == href + "/";
    }
    if href + "/" <= pathname {
      assert pathname[..|href|] == (href + "/")[..|href|];
    }
  }

  /** A path that merely continues the href's text without a slash activates nothing. */
  lemma TextualPrefixNotActive()
    ensures !IsActiveDesktop("/tin-tucx", "/tin-tuc")
    ensures IsActiveDesktop("/tin-tuc/bai-viet", "/tin-tuc")
  {
    assert ("/tin-tuc" + "/")[8] == '/';
    assert "/tin-tucx"[8] == 'x';
    assert "/tin-tuc" + "/" == "/tin-tuc/";
    assert "/tin-tuc/bai-viet"[..9] == "/tin-tuc/";
  }

  /** Every page below an active page keeps the link active. */
  lemma ActiveBelow(pathname: string, href: string, rest: string)
    requires IsActiveDesktop(pathname, href)
    ensures IsActiveDesktop(pathname + "/" + rest, href)
  {
    if pathname == href {
      assert (href + "/" + rest)[..|href| + 1] == href + "/";
    } else {
      assert (pathname + "/" + rest)[..|href| + 1] == pathname[..|href| + 1];
    }
  }

  /** The mobile highlight implies the desktop one; on a sub-path only the desktop bar highlights. */
  lemma MobileStricter(pathname: string, href: string)
    ensures IsActiveMobile(pathname, href) ==> IsActiveDesktop(pathname, href)
    ensures IsActiveDesktop(href + "/x", href) && !IsActiveMobile(href + "/x", href)
  {
    assert (href + "/x")[..|href| + 1] == href + "/";
    assert |href + "/x"| != |href|;
  }

  /** An active href agrees with the path on its second character. */
  lemma ActiveSharesSecondChar(pathname: string, href: string)
    requires |href| >= 2 && IsActiveDesktop(pathname, href)
    ensures |pathname| >= 2 && pathname[1] == href[1]
  {
    ActiveDesktopMeaning(pathname, href);
    assert pathname[..|href|] == href;
    assert pathname[..|href|][1] == pathname[1];
  }

  /** With the five links of the bar, no path highlights two of them. */
  lemma AtMostOneActive(pathname: string, i: int, j: int)
    requires 0 <= i < j < |NavLinks|
    ensures !(IsActiveDesktop(pathname, NavLinks[i].href) && IsActiveDesktop(pathname, NavLinks[j].href))
  {
    assert NavLinks[i].href[1] != NavLinks[j].href[1];
    if IsActiveDesktop(pathname, NavLinks[i].href) {
      ActiveSharesSecondChar(pathname, NavLinks[i].href);
      if IsActiveDesktop(pathname, NavLinks[j].href) {
        ActiveSharesSecondChar(pathname, NavLinks[j].href);
      }
    }
  }

  /** The header's own state. */
  class HeaderState {
    /** mobileMenuOpen */
    var mobileMenuOpen: bool

    constructor ()
      ensures !mobileMenuOpen
    {
      mobileMenuOpen := false;
    }

    /** The menu button flips the flag. */
    method ToggleMenu()
      modifies this
      ensures mobileMenuOpen == !old(mobileMenuOpen)
    {
      mobileMenuOpen := !mobileMenuOpen;
    }

    /** Following a link of the mobile menu closes it. */
    method FollowMobileLink()
      modifies this
      ensures !mobileMenuOpen
    {
      mobileMenuOpen := false;
    }
  }
}
