/**
 * The dashboard sidebar: the name and avatar initials shown for the user, the
 * navigation menu, which entry is highlighted, and what a click on an entry
 * does.
 */
module Sidebar {
  import opened Optional
  import opened Text

  /**
   * `userProfile?.display_name || user?.email?.split('@')[0] || 'Пользователь'`
   */
  function DisplayName(profileName: Option<string>, email: Option<string>): (name: string)
    ensures Truthy(profileName) ==> name == profileName.value
    ensures !Truthy(profileName) && email.Some? && BeforeFirst(email.value, '@') != "" ==>
      name == BeforeFirst(email.value, '@')
    ensures !Truthy(profileName) && (email.None? || BeforeFirst(email.value, '@') == "") ==>
      name == "Пользователь"
    ensures name != ""
  {
    var local := if email.Some? then Some(BeforeFirst(email.value, '@')) else None;
    OrElse(profileName, OrElse(local, "Пользователь"))
  }

  /** The email fallback is the part of the address before its first `@`. */
  lemma DisplayNameFromEmail(local: string, domain: string)
    requires local != "" && '@' !in local
    ensures DisplayName(None, Some(local + "@" + domain)) == local
  {
    var address := local + "@" + domain;
    assert BeforeFirst(address, '@') == local by {
      FirstAtIsAfterLocal(local, domain);
    }
  }

  lemma {:induction false} FirstAtIsAfterLocal(local: string, domain: string)
    requires '@' !in local
    ensures BeforeFirst(local + "@" + domain, '@') == local
  {
    if local != [] {
      assert (local + "@" + domain)[1..] == local[1..] + "@" + domain;
      FirstAtIsAfterLocal(local[1..], domain);
    }
  }

  /** `words.map(n => n[0]).join('')`: an empty word contributes nothing. */
  function FirstChars(words: seq<string>): string
  {
    if words == [] then ""
    else (if words[0] == "" then "" else [words[0][0]]) + FirstChars(words[1..])
  }

  /**
   * Reference definition: the characters of `s` that are not blanks and
   * follow a blank or the start (`afterBlank` says whether the character
   * before `s` was a blank).
   */
  function WordStartsFrom(s: string, afterBlank: bool): string
  {
    if s == [] then ""
    else (if afterBlank && s[0] != ' ' then [s[0]] else "") + WordStartsFrom(s[1..], s[0] == ' ')
  }

  function WordStarts(s: string): string
  {
    WordStartsFrom(s, true)
  }

  /** Whether the character before whatever follows `a` is a blank. */
  function EndsBlank(a: string, afterBlank: bool): bool
  {
    if a == [] then afterBlank else a[|a| - 1] == ' '
  }

  lemma {:induction false} WordStartsAppend(a: string, b: string, afterBlank: bool)
    ensures WordStartsFrom(a + b, afterBlank) == WordStartsFrom(a, afterBlank) + WordStartsFrom(b, EndsBlank(a, afterBlank))
  {
    if a == [] {
      assert a + b == b;
    } else {
      var c, t := a[0], a[1..];
      var first: string := if afterBlank && c != ' ' then [c] else "";
      assert WordStartsFrom(a + b, afterBlank) == first + WordStartsFrom(t + b, c == ' ') by {
        assert (a + b)[0] == c && (a + b)[1..] == t + b;
      }
      assert WordStartsFrom(a, afterBlank) == first + WordStartsFrom(t, c == ' ');
      assert EndsBlank(t, c == ' ') == EndsBlank(a, afterBlank) by {
        if t != [] {
          assert t[|t| - 1] == a[|a| - 1];
        }
      }
      WordStartsAppend(t, b, c == ' ');
    }
  }

  /** A blank-free word has one start, its first character, if it is not empty. */
  lemma {:induction false} WordStartsOfWord(w: string, afterBlank: bool)
    requires ' ' !in w
    ensures WordStartsFrom(w, afterBlank) == if w != "" && afterBlank then [w[0]] else ""
  {
    if w != [] {
      WordStartsOfWord(w[1..], false);
    }
  }

  /**
   * The first characters of the blank-separated words of `s` are exactly its
   * word starts, in order.
   */
  lemma {:induction false} FirstCharsOfWords(s: string)
    ensures FirstChars(Split(s, ' ')) == WordStarts(s)
    decreases |s|
  {
    var head := BeforeFirst(s, ' ');
    if |head| == |s| {
      assert head == s;
      WordStartsOfWord(head, true);
    } else {
      var rest := s[|head| + 1..];
      assert FirstChars(Split(s, ' ')) == FirstChars([head]) + FirstChars(Split(rest, ' ')) by {
        assert Split(s, ' ') == [head] + Split(rest, ' ');
        assert ([head] + Split(rest, ' '))[1..] == Split(rest, ' ');
      }
      assert FirstChars([head]) == WordStarts(head) by {
        assert [head][1..] == [];
        WordStartsOfWord(head, true);
      }
      assert WordStarts(s) == WordStarts(head) + WordStarts(rest) by {
        assert s == head + (" " + rest);
        WordStartsAppend(head, " " + rest, true);
        WordStartsAfterBlank(rest, EndsBlank(head, true));
      }
      FirstCharsOfWords(rest);
    }
  }

  /** A blank starts a new word, whatever came before it. */
  lemma WordStartsAfterBlank(rest: string, afterBlank: bool)
    ensures WordStartsFrom(" " + rest, afterBlank) == WordStarts(rest)
  {
    assert (" " + rest)[1..] == rest;
  }

  /** `s.slice(0, 2)` */
  function Take2(s: string): (t: string)
    ensures t <= s && |t| == if |s| < 2 then |s| else 2
  {
    if |s| < 2 then s else s[..2]
  }

  /** `displayName.split(' ').map(n => n[0]).join('').toUpperCase().slice(0, 2) || 'U'` */
  function Initials(displayName: string): (initials: string)
    ensures 1 <= |initials| <= 2
  {
    var taken := Take2(Upper(FirstChars(Split(displayName, ' '))));
    if taken == "" then "U" else taken
  }

  /**
   * The initials are the upper-cased first one or two word starts of the
   * name, or `U` for a name without any.
   */
  lemma InitialsAreWordStarts(displayName: string)
    ensures 1 <= |Initials(displayName)| <= 2
    ensures WordStarts(displayName) == "" ==> Initials(displayName) == "U"
    ensures WordStarts(displayName) != "" ==>
      Initials(displayName) == Upper(Take2(WordStarts(displayName)))
  {
    FirstCharsOfWords(displayName);
    var starts := WordStarts(displayName);
    if |starts| >= 2 {
      assert Upper(starts)[..2] == Upper(starts[..2]);
    }
  }

  /** The effect of a click on a menu entry. */
  datatype TabClick = TabClick(navigateTo: Option<string>, preventDefault: bool, tabChange: Option<string>)

  /**
   * `handleTabClick(href, e)`: the home entry navigates; any other entry
   * cancels the link and hands its href to `onTabChange` when one is given.
   */
  function HandleTabClick(href: string, hasOnTabChange: bool): (c: TabClick)
    ensures href == "/" ==> c.navigateTo == Some("/") && c.tabChange.None? && !c.preventDefault
    ensures href != "/" ==> c.navigateTo.None? && c.preventDefault
    ensures href != "/" ==> (c.tabChange.Some? <==> hasOnTabChange)
    ensures c.tabChange.Some? ==> c.tabChange.value == href
  {
    if href == "/" then TabClick(Some("/"), false, None)
    else TabClick(None, true, if hasOnTabChange then Some(href) else None)
  }

  datatype MenuItem = MenuItem(href: string, title: string, secondary: bool)

  const MenuItems: seq<MenuItem> := [
    MenuItem("/", "Главная", false),
    MenuItem("/dashboard", "Обзор", false),
    MenuItem("/dashboard/requests", "Мои запросы", false),
    MenuItem("/dashboard/offers", "Мои отклики", false),
    MenuItem("/dashboard/calendar", "Календарь", false),
    MenuItem("/dashboard/offers", "Исполнители", true),
    MenuItem("/dashboard?map=true", "Карта", false),
    MenuItem("/dashboard/payments", "Платежи", false),
    MenuItem("/dashboard/reviews", "Отзывы", false)
  ]

  /** `activeTab || (pathname === '/dashboard' ? '/dashboard' : pathname)` */
  function CurrentTab(activeTab: Option<string>, pathname: string): string
  {
    OrElse(activeTab, if pathname == "/dashboard" then "/dashboard" else pathname)
  }

  /** `isActive` as the source spells it out. */
  predicate IsActive(item: MenuItem, activeTab: Option<string>, pathname: string)
  {
    var current := CurrentTab(activeTab, pathname);
    current == item.href
    || (item.href == "/dashboard" && current == "/dashboard")
    || (item.href == "/dashboard/requests" && current == "/dashboard/requests")
    || (item.href == "/dashboard/offers" && current == "/dashboard/offers")
  }

  /** An entry is active exactly when its href is the active tab, or else the path. */
  lemma IsActiveIsHrefMatch(item: MenuItem, activeTab: Option<string>, pathname: string)
    ensures IsActive(item, activeTab, pathname) <==> item.href == OrElse(activeTab, pathname)
  {
  }

  /**
   * Splitting the menu splits the rendered entries: they keep menu order,
   * each as often as it is listed.
   */
  lemma {:induction false} VisibleAppend(a: seq<MenuItem>, b: seq<MenuItem>)
    ensures VisibleItems(a + b) == VisibleItems(a) + VisibleItems(b)
  {
    if a == [] {
      assert a + b == b;
    } else {
      assert (a + b)[0] == a[0];
      assert (a + b)[1..] == a[1..] + b;
      VisibleAppend(a[1..], b);
    }
  }

  /** The entries rendered: those not marked secondary, in menu order. */
  function VisibleItems(items: seq<MenuItem>): (visible: seq<MenuItem>)
    ensures forall m :: m in visible <==> m in items && !m.secondary
    ensures |visible| <= |items|
  {
    if items == [] then []
    else (if items[0].secondary then [] else [items[0]]) + VisibleItems(items[1..])
  }

  /** Only the home entry is rendered without the active style. */
  predicate Highlighted(item: MenuItem, activeTab: Option<string>, pathname: string)
  {
    item.href != "/" && IsActive(item, activeTab, pathname)
  }

  /** The secondary "Исполнители" entry duplicates the href of "Мои отклики" and is never rendered. */
  lemma SecondaryEntryHidden()
    ensures MenuItems[5].secondary && MenuItems[5].href == MenuItems[3].href
    ensures MenuItems[5] !in VisibleItems(MenuItems)
    ensures MenuItems[3] in VisibleItems(MenuItems)
  {
  }

  /**
   * At most one rendered entry is highlighted, whatever the active tab and
   * path. The secondary entry would share the highlight of "Мои отклики".
   */
  lemma AtMostOneHighlighted(activeTab: Option<string>, pathname: string)
    ensures forall i, j ::
      (0 <= i < |MenuItems| && 0 <= j < |MenuItems| && !MenuItems[i].secondary && !MenuItems[j].secondary
       && Highlighted(MenuItems[i], activeTab, pathname) && Highlighted(MenuItems[j], activeTab, pathname)) ==> i == j
    ensures Highlighted(MenuItems[5], activeTab, pathname) <==> Highlighted(MenuItems[3], activeTab, pathname)
  {
    forall i, j | 0 <= i < |MenuItems| && 0 <= j < |MenuItems| && !MenuItems[i].secondary && !MenuItems[j].secondary
        && Highlighted(MenuItems[i], activeTab, pathname) && Highlighted(MenuItems[j], activeTab, pathname)
      ensures i == j
    {
      IsActiveIsHrefMatch(MenuItems[i], activeTab, pathname);
      IsActiveIsHrefMatch(MenuItems[j], activeTab, pathname);
    }
  }
}
