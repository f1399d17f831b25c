/** The dashboard side menu: the items each role sees, the "Pages"
    section built from the navigation links, the split of those links
    between administrators and media staff, icons named as "fa:Name", the
    collapsible sections, the feedback badge and the colours per role. */
module SideMenu {
  import opened Base
  import opened Text
  import opened FormValidation
  import opened NavigationEditor

  // ---------------------------------------------------------------------
  // Icons

  /** `DynamicIcon`: a string without ':' draws nothing; otherwise the text
      before the first ':' names the library and the text up to the next
      ':' names the icon, and only the "fa" library's exported icons
      (`faIcons`) draw. The result is the icon drawn. */
  function DynamicIcon(icon: string, faIcons: set<string>): (r: Option<string>)
    ensures ':' !in icon ==> r.None?
    ensures r.Some? ==>
      && r.value in faIcons && ':' !in r.value
      && (exists k :: 0 <= k < |icon| && icon[..k] == "fa" && icon[k] == ':' && r.value <= icon[k + 1..])
  {
    if ':' !in icon then None
    else
      var parts := Split(icon, ':');
      assert |parts| >= 2 by {
        if |parts| == 1 { JoinSplit(icon, ':'); }
      }
      SplitHead(icon, ':');
      if parts[0] == "fa" && parts[1] in faIcons then Some(parts[1]) else None
  }

  /** The first piece of a split is the text before the first separator,
      and when there is a separator the second piece starts right after it. */
  lemma SplitHead(s: string, sep: char)
    requires sep in s
    ensures |Split(s, sep)| >= 2
    ensures var k := IndexOf(s, sep);
      k < |s| && Split(s, sep)[0] == s[..k] && s[k] == sep && Split(s, sep)[1] <= s[k + 1..]
  {
    var k := IndexOf(s, sep);
    assert s[..|s|] == s;
    var rest := s[k + 1..];
    var j := IndexOf(rest, sep);
    assert Split(rest, sep)[0] == rest[..j];
  }

  /** Every icon the link forms accept ("fa:" and letters and digits)
      draws the icon it names, when the library has one by that name. */
  lemma AcceptedIconDraws(icon: string, faIcons: set<string>)
    requires IconRegex(icon)
    ensures DynamicIcon(icon, faIcons) == (if icon[3..] in faIcons then Some(icon[3..]) else None)
  {
    var name := icon[3..];
    assert ':' !in name by {
      forall i | 0 <= i < |name| ensures name[i] != ':' {
        assert IsAlnum(icon[i + 3]);
      }
    }
    assert ':' !in "fa";
    assert Join(["fa", name], [':']) == icon by {
      assert Join(["fa", name][1..], [':']) == name;
      assert icon == icon[..3] + name;
    }
    SplitJoin(["fa", name], ':');
  }

  // ---------------------------------------------------------------------
  // Which links each role sees

  /** The pages that belong to media staff. */
  const MediaPageIds := ["news", "gallery", "events"]

  predicate IsMediaPage(link: NavLink)
  {
    link.pageId in MediaPageIds
  }

  /** `navAdminLinks`: the links of every page that is not a media page. */
  function AdminLinks(links: seq<NavLink>): (r: seq<NavLink>)
    ensures IsSubsequence(r, links)
    ensures forall i :: 0 <= i < |r| ==> !IsMediaPage(r[i])
    ensures forall i :: 0 <= i < |links| && !IsMediaPage(links[i]) ==> links[i] in r
  {
    Filter(links, (l: NavLink) => !IsMediaPage(l))
  }

  /** `navMediaLinks`: the links of the news, gallery and events pages. */
  function MediaLinks(links: seq<NavLink>): (r: seq<NavLink>)
    ensures IsSubsequence(r, links)
    ensures forall i :: 0 <= i < |r| ==> IsMediaPage(r[i])
    ensures forall i :: 0 <= i < |links| && IsMediaPage(links[i]) ==> links[i] in r
  {
    Filter(links, (l: NavLink) => IsMediaPage(l))
  }

  /** The two lists split the links: each link goes to exactly one of them,
      and together they hold as many links as there are. */
  lemma {:induction false} LinksPartition(links: seq<NavLink>)
    ensures |AdminLinks(links)| + |MediaLinks(links)| == |links|
    ensures forall l :: l in links ==> (l in AdminLinks(links) <==> l !in MediaLinks(links))
    decreases |links|
  {
    if |links| > 0 {
      LinksPartition(links[1..]);
    }
  }

  // ---------------------------------------------------------------------
  // The menus

  /** A menu entry: a plain link, or a collapsible section of page links. */
  datatype NavItem =
    | Entry(pageName: string, path: string)
    | PageSection(section: string, title: string, items: seq<NavLink>)

  const ChangePassword := Entry("Change Password", "/changepassword")

  /** `getNavItems`. `role` is the signed-in account's role, None when there
      is no account or it has none. */
  function NavItems(role: Option<string>, links: seq<NavLink>): (r: seq<NavItem>)
    ensures |r| >= 1 && r[|r| - 1] == ChangePassword
    ensures role == Some("webmaster") ==> |r| > 2 && r[2] == PageSection("pages", "Pages", links)
    ensures role == Some("admin") ==> |r| > 1 && r[1] == PageSection("pages", "Pages", AdminLinks(links))
    ensures role == Some("media") ==> |r| > 1 && r[1] == PageSection("mediaPages", "Media Pages", MediaLinks(links))
    ensures role != Some("webmaster") && role != Some("admin") && role != Some("media") ==> r == CommonItems(role)
  {
    if role == Some("webmaster") then WebmasterItems(links)
    else if role == Some("admin") then AdminItems(links)
    else if role == Some("media") then MediaItems(links)
    else CommonItems(role)
  }

  /** Menu entries are plain links except for the one section at `k`. */
  predicate OnlySectionAt(r: seq<NavItem>, k: nat)
  {
    forall i :: 0 <= i < |r| ==> (r[i].PageSection? <==> i == k)
  }

  /** No entry of the menu is the feedback page. */
  predicate NoFeedbackEntry(r: seq<NavItem>)
  {
    forall i :: 0 <= i < |r| ==> !(r[i].Entry? && r[i].pageName == "Client feedback")
  }

  /** The webmaster's menu: every page link under "Pages", and the feedback entry tenth. */
  function WebmasterItems(links: seq<NavLink>): (r: seq<NavItem>)
    ensures |r| == 11 && OnlySectionAt(r, 2) && r[|r| - 1] == ChangePassword
    ensures r[2].items == links
    ensures r[9] == Entry("Client feedback", "/feedback")
  {
    [ Entry("Dashboard", "/dashboardwebmaster"),
      Entry("Nav & Footer", "/navigation"),
      PageSection("pages", "Pages", links),
      Entry("Upcoming Projects", "/upcomingprojects"),
      Entry("Past Projects", "/pastprojects"),
      Entry("Papers and publications", "/publications"),
      Entry("News", "/newslist"),
      Entry("Events", "/eventslist"),
      Entry("Gallery", "/gallerylist"),
      Entry("Client feedback", "/feedback"),
      ChangePassword ]
  }

  /** The administrator's menu: the non-media pages under "Pages", and no feedback entry. */
  function AdminItems(links: seq<NavLink>): (r: seq<NavItem>)
    ensures |r| == 6 && OnlySectionAt(r, 1) && r[|r| - 1] == ChangePassword
    ensures r[1].items == AdminLinks(links)
    ensures NoFeedbackEntry(r)
  {
    [ Entry("Dashboard", "/dashboardadmin"),
      PageSection("pages", "Pages", AdminLinks(links)),
      Entry("Upcoming Projects", "/upcomingprojects"),
      Entry("Past Projects", "/pastprojects"),
      Entry("Papers and publications", "/publications"),
      ChangePassword ]
  }

  /** The media menu: the media pages under "Media Pages", and no feedback entry. */
  function MediaItems(links: seq<NavLink>): (r: seq<NavItem>)
    ensures |r| == 6 && OnlySectionAt(r, 1) && r[|r| - 1] == ChangePassword
    ensures r[1].items == MediaLinks(links)
    ensures NoFeedbackEntry(r)
  {
    [ Entry("Dashboard", "/dashboardmedia"),
      PageSection("mediaPages", "Media Pages", MediaLinks(links)),
      Entry("News", "/newslist"),
      Entry("Events", "/eventslist"),
      Entry("Gallery", "/gallerylist"),
      ChangePassword ]
  }

  /** `loggedAdmin?.role || ''`. */
  function RoleSuffix(role: Option<string>): string
  {
    if role.None? then "" else role.value
  }

  /** `commonItems`: the menu of any other role, whose paths end in the role. */
  function CommonItems(role: Option<string>): (r: seq<NavItem>)
    ensures |r| == 6 && r[5] == ChangePassword
    ensures forall i :: 0 <= i < 5 ==> r[i].Entry? && r[i].path == CommonBases[i] + RoleSuffix(role)
  {
    var s := RoleSuffix(role);
    [ Entry("Dashboard", CommonBases[0] + s),
      Entry("Upcoming Projects", CommonBases[1] + s),
      Entry("Past Projects", CommonBases[2] + s),
      Entry("Papers and publications", CommonBases[3] + s),
      Entry("Client feedback", CommonBases[4] + s),
      ChangePassword ]
  }

  const CommonBases := ["/dashboard", "/upcomingprojects", "/pastprojects", "/publications", "/feedback"]

  /** Every link in the menu's page section is one the role may see:
      administrators never get a media page and media staff only get those. */
  lemma SectionMatchesRole(role: Option<string>, links: seq<NavLink>, i: nat, j: nat)
    requires i < |NavItems(role, links)| && NavItems(role, links)[i].PageSection?
    requires j < |NavItems(role, links)[i].items|
    ensures NavItems(role, links)[i].items[j] in links
    ensures role == Some("admin") ==> !IsMediaPage(NavItems(role, links)[i].items[j])
    ensures role == Some("media") ==> IsMediaPage(NavItems(role, links)[i].items[j])
  {
    var r := NavItems(role, links);
    if role == Some("webmaster") {
      assert i == 2;
    } else if role == Some("admin") {
      assert i == 1;
      assert r[i].items[j] in AdminLinks(links);
    } else if role == Some("media") {
      assert i == 1;
      assert r[i].items[j] in MediaLinks(links);
    }
  }

  /** The feedback badge: the "Client feedback" entry shows the number of
      messages when there is at least one. */
  function Badge(item: NavItem, feedbackCount: nat): (r: Option<nat>)
    ensures r.Some? <==> item.Entry? && item.pageName == "Client feedback" && feedbackCount > 0
    ensures r.Some? ==> r.value == feedbackCount
  {
    if item.Entry? && item.pageName == "Client feedback" && feedbackCount > 0 then Some(feedbackCount) else None
  }

  /** Administrators and media staff never see the feedback badge; the
      webmaster sees it on the tenth entry whenever there is feedback. */
  lemma BadgeByRole(role: Option<string>, links: seq<NavLink>, feedbackCount: nat)
    ensures role in {Some("admin"), Some("media")} ==>
      forall i :: 0 <= i < |NavItems(role, links)| ==> Badge(NavItems(role, links)[i], feedbackCount).None?
    ensures role == Some("webmaster") && feedbackCount > 0 ==>
      Badge(NavItems(role, links)[9], feedbackCount) == Some(feedbackCount)
  {
    if role in {Some("admin"), Some("media")} {
      var r := NavItems(role, links);
      assert NoFeedbackEntry(r);
    }
  }

  // ---------------------------------------------------------------------
  // Sections and colours

  /** Which sections are open; a section never toggled reads as closed. */
  type Sections = map<string, bool>

  const InitialSections: Sections := map["pages" := false, "mediaPages" := false]

  predicate IsOpen(sections: Sections, section: string)
  {
    section in sections && sections[section]
  }

  /** `toggleSection`: the named section flips, the others stay. */
  function ToggleSection(sections: Sections, section: string): (r: Sections)
    ensures IsOpen(r, section) <==> !IsOpen(sections, section)
    ensures forall s :: s != section ==> IsOpen(r, s) == IsOpen(sections, s)
    ensures r.Keys == sections.Keys + {section}
  {
    sections[section := !IsOpen(sections, section)]
  }

  /** Toggling a section twice restores a section that was already listed. */
  lemma ToggleSectionTwice(sections: Sections, section: string)
    requires section in sections
    ensures ToggleSection(ToggleSection(sections, section), section) == sections
  {
    var r := ToggleSection(ToggleSection(sections, section), section);
    assert r.Keys == sections.Keys;
  }

  /** The panel colours (`getRoleStyles`) as a background and a hover colour. */
  datatype Styles = Styles(bg: string, hover: string)

  function RoleStyles(role: Option<string>): (r: Styles)
    ensures |r.bg| > 3 && r.bg[..3] == "bg-" && r.hover == "hover:text-" + r.bg[3..]
  {
    if role == Some("media") then Styles("bg-[#307342]", "hover:text-[#307342]")
    else if role == Some("admin") then Styles("bg-[#152E7E]", "hover:text-[#152E7E]")
    else Styles("bg-[#6f6f6f]", "hover:text-[#6f6f6f]")
  }

  /** The panel heading. */
  function PanelTitle(role: Option<string>): string
  {
    if role == Some("media") then "Media Panel"
    else if role == Some("admin") then "Admin Panel"
    else "WebMaster"
  }

  /** The colour and the heading tell the same roles apart: every account
      headed "WebMaster" gets the grey panel and no other does. */
  lemma StylesFollowTitle(role: Option<string>, other: Option<string>)
    ensures RoleStyles(role) == RoleStyles(other) <==> PanelTitle(role) == PanelTitle(other)
  {
  }
}
