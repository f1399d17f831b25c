/** The navigation editor: the list of top-level links (pages) with their
    child links, the expanded/collapsed state of each dropdown, reordering
    by drag and drop with an explicit "save order", and the add, edit and
    delete operations with the request each one sends to the server.
    Requests are values; sending them is outside the model. */
module NavigationEditor {
  import opened Base
  import opened Text
  import opened FormValidation

  /** A navigation link as the editor holds it. `id` is the server's `_id`;
      a link the editor builds itself has none until the list is fetched
      again. `content` holds the section names of the page's `content`
      object; the sections themselves belong to the page editor. */
  datatype NavLink = NavLink(
    id: Option<string>,
    pageId: string,
    pageName: string,
    pageType: string,
    path: string,
    icon: string,
    children: seq<NavLink>,
    content: set<string>,
    order: Option<int>)

  /** An id as a JavaScript condition sees it: an absent or empty id is false. */
  predicate Present(id: Option<string>)
  {
    id.Some? && id.value != ""
  }

  /** The first top-level link with the given id (`links.find(l => l._id === id)`). */
  function FindById(links: seq<NavLink>, id: Option<string>): (r: Option<NavLink>)
    ensures r.Some? ==> r.value in links && r.value.id == id
    ensures r.None? <==> forall i :: 0 <= i < |links| ==> links[i].id != id
    ensures r.Some? ==> r.value == links[FirstIndex(links, id)]
    decreases |links|
  {
    if |links| == 0 then None
    else if links[0].id == id then Some(links[0])
    else
      var r := FindById(links[1..], id);
      assert forall i :: 1 <= i < |links| ==> links[i] == links[1..][i - 1];
      r
  }

  /** The position of the first link with the id (`findIndex`), or the
      length when there is none. */
  function FirstIndex(links: seq<NavLink>, id: Option<string>): (k: nat)
    ensures k <= |links|
    ensures k < |links| ==> links[k].id == id
    ensures forall j :: 0 <= j < k ==> links[j].id != id
    decreases |links|
  {
    if |links| == 0 then 0
    else if links[0].id == id then 0
    else
      var k := FirstIndex(links[1..], id);
      assert forall j :: 1 <= j < |links| ==> links[j] == links[1..][j - 1];
      k + 1
  }

  /** The ids of a list of links, in order. */
  function Ids(links: seq<NavLink>): (r: seq<Option<string>>)
    ensures |r| == |links| && forall i :: 0 <= i < |links| ==> r[i] == links[i].id
  {
    seq(|links|, i requires 0 <= i < |links| => links[i].id)
  }

  // ---------------------------------------------------------------------
  // Dropdowns

  /** Which dropdowns are open, keyed by link id (an id-less link uses the
      one key JavaScript gives `undefined`). */
  type Expanded = map<Option<string>, bool>

  predicate IsExpanded(e: Expanded, id: Option<string>)
  {
    id in e && e[id]
  }

  /** `toggleDropdown`: flips one dropdown and leaves the others alone. */
  function ToggleDropdown(e: Expanded, id: Option<string>): (r: Expanded)
    ensures IsExpanded(r, id) <==> !IsExpanded(e, id)
    ensures forall k :: k != id ==> IsExpanded(r, k) == IsExpanded(e, k)
  {
    e[id := !IsExpanded(e, id)]
  }

  /** Toggling the same dropdown twice restores every dropdown. */
  lemma ToggleDropdownTwice(e: Expanded, id: Option<string>, k: Option<string>)
    ensures IsExpanded(ToggleDropdown(ToggleDropdown(e, id), id), k) == IsExpanded(e, k)
  {
  }

  // ---------------------------------------------------------------------
  // Reordering

  /** `splice(from, 1)` followed by `splice(to, 0, moved)`: the element at
      `from` ends up at `to`, and the others keep their relative order. */
  function Move<T>(s: seq<T>, from: nat, to: nat): (r: seq<T>)
    requires from < |s| && to < |s|
    ensures |r| == |s|
    ensures r[to] == s[from]
    ensures RemoveAt(r, to) == RemoveAt(s, from)
    ensures multiset(r) == multiset(s)
  {
    var rest := RemoveAt(s, from);
    var r := rest[..to] + [s[from]] + rest[to..];
    assert s == s[..from] + [s[from]] + s[from + 1..];
    RemoveAtSplit(s[..from], s[from], s[from + 1..]);
    assert rest == rest[..to] + rest[to..];
    RemoveAtSplit(rest[..to], s[from], rest[to..]);
    r
  }

  /** Dragging the moved element back to where it came from restores the list. */
  lemma MoveBack<T>(s: seq<T>, from: nat, to: nat)
    requires from < |s| && to < |s|
    ensures Move(Move(s, from, to), to, from) == s
  {
    var m := Move(s, from, to);
    var rest := RemoveAt(s, from);
    assert RemoveAt(m, to) == rest;
    assert Move(m, to, from) == rest[..from] + [s[from]] + rest[from..];
    assert s == s[..from] + [s[from]] + s[from + 1..];
  }

  /** The reordering state: the list, the index being dragged, whether the
      order has unsaved changes, and whether a save is in progress. */
  datatype OrderState = OrderState(links: seq<NavLink>, dragged: Option<nat>, dirty: bool, saving: bool)

  /** The drag index refers to an element of the list. */
  predicate ValidDrag(st: OrderState)
  {
    st.dragged.Some? ==> st.dragged.value < |st.links|
  }

  /** `handleDragStart`. */
  function DragStart(st: OrderState, index: nat): (r: OrderState)
    requires index < |st.links|
    ensures ValidDrag(r) && r.dragged == Some(index)
    ensures r.links == st.links && r.dirty == st.dirty && r.saving == st.saving
  {
    st.(dragged := Some(index))
  }

  /** `handleDrop`: with nothing dragged, or a drop on the dragged element
      itself, nothing happens (the drag index is not even cleared);
      otherwise the dragged link moves to the drop index, the order
      becomes dirty and the drag ends. */
  function HandleDrop(st: OrderState, index: nat): (r: OrderState)
    requires ValidDrag(st) && index < |st.links|
    ensures st.dragged.None? || st.dragged.value == index ==> r == st
    ensures st.dragged.Some? && st.dragged.value != index ==>
      && multiset(r.links) == multiset(st.links)
      && |r.links| == |st.links|
      && r.links[index] == st.links[st.dragged.value]
      && RemoveAt(r.links, index) == RemoveAt(st.links, st.dragged.value)
      && r.dirty && r.dragged.None? && r.saving == st.saving
    ensures ValidDrag(r)
  {
    if st.dragged.None? || st.dragged.value == index then st
    else st.(links := Move(st.links, st.dragged.value, index), dirty := true, dragged := None)
  }

  /** One `updatePage(id, body)` request. */
  datatype PageUpdate = PageUpdate(target: Option<string>, body: NavLink)

  function OrderKey(l: NavLink): Option<int>
  {
    l.order
  }

  /** Each link with its position as its `order`, everything else unchanged. */
  function Numbered(links: seq<NavLink>): (r: seq<NavLink>)
    ensures |r| == |links|
    ensures forall i :: 0 <= i < |r| ==> r[i].order == Some(i) && r[i].(order := links[i].order) == links[i]
  {
    seq(|links|, i requires 0 <= i < |links| => links[i].(order := Some(i)))
  }

  /** The server, ordering the saved pages by their `order`, gets the list
      back in exactly the order the editor saved. */
  lemma {:induction false} NumberedSortsBack(links: seq<NavLink>)
    ensures SortBy(Numbered(links), OrderKey) == Numbered(links)
  {
    var n := Numbered(links);
    assert AllKeyed(n, OrderKey);
    assert SortedBy(n, OrderKey);
    SortBySorted(n, OrderKey);
  }

  /** `handleSaveOrder`: nothing unless the order is dirty and no save is
      running; otherwise one update per link, in list order, carrying the
      link's position as `order`, after which the order is clean. */
  function SaveOrder(st: OrderState): (r: (OrderState, seq<PageUpdate>))
    ensures !st.dirty || st.saving ==> r.0 == st && r.1 == []
    ensures st.dirty && !st.saving ==>
      && r.0 == st.(dirty := false)
      && |r.1| == |st.links|
      && forall i :: 0 <= i < |r.1| ==> r.1[i].target == st.links[i].id && r.1[i].body == Numbered(st.links)[i]
  {
    if !st.dirty || st.saving then (st, [])
    else
      var n := Numbered(st.links);
      (st.(dirty := false), seq(|n|, i requires 0 <= i < |n| => PageUpdate(st.links[i].id, n[i])))
  }

  // ---------------------------------------------------------------------
  // Page ids from names

  /** `replace(/\s+/g, "-")`: every maximal run of white space becomes one hyphen. */
  function CollapseWhitespace(s: string): (r: string)
    ensures |r| <= |s| && (|s| > 0 ==> |r| > 0)
    ensures forall i :: 0 <= i < |r| ==> !IsWhitespace(r[i]) && (r[i] == '-' || r[i] in s)
    ensures IsBlank(s) && |s| > 0 ==> r == "-"
    ensures (forall i :: 0 <= i < |s| ==> !IsWhitespace(s[i])) ==> r == s
    decreases |s|
  {
    if |s| == 0 then ""
    else if IsWhitespace(s[0]) then
      var t := TrimStart(s);
      assert forall c :: c in t ==> c in s;
      "-" + CollapseWhitespace(t)
    else
      assert forall c :: c in s[1..] ==> c in s;
      [s[0]] + CollapseWhitespace(s[1..])
  }

  /** Neither empty nor ending in white space, or empty. */
  predicate EndsInWord(s: string)
  {
    s == [] || !IsWhitespace(s[|s| - 1])
  }

  /** A run of white space between two words becomes exactly one hyphen,
      and the text on either side is collapsed on its own. */
  lemma {:induction false} CollapseRun(a: string, w: string, b: string)
    requires |w| > 0 && IsBlank(w) && EndsInWord(a)
    requires b == [] || !IsWhitespace(b[0])
    ensures CollapseWhitespace(a + w + b) == CollapseWhitespace(a) + "-" + CollapseWhitespace(b)
    decreases |a|, 1
  {
    if |a| == 0 {
      assert a + w + b == w + b;
      CollapseSpaceHead(w + b);
      TrimStartBlank(w, b);
    } else if IsWhitespace(a[0]) {
      CollapseRunAfterSpace(a, w, b);
    } else {
      CollapseRunAfterWord(a, w, b);
    }
  }

  /** The inductive step of CollapseRun when the text opens with white space. */
  lemma {:induction false} CollapseRunAfterSpace(a: string, w: string, b: string)
    requires |w| > 0 && IsBlank(w) && EndsInWord(a)
    requires b == [] || !IsWhitespace(b[0])
    requires |a| > 0 && IsWhitespace(a[0])
    ensures CollapseWhitespace(a + w + b) == CollapseWhitespace(a) + "-" + CollapseWhitespace(b)
    decreases |a|, 0
  {
    var ta := TrimStart(a);
    LeadingRunStep(a, w, b);
    CollapseRun(ta, w, b);
    JoinAfter("-", CollapseWhitespace(ta), CollapseWhitespace(b));
  }

  /** Collapsing past the leading white space of a text that ends in a
      word, alone and with more text after it. */
  lemma LeadingRunStep(a: string, w: string, b: string)
    requires EndsInWord(a) && |a| > 0 && IsWhitespace(a[0])
    ensures var ta := TrimStart(a);
      && 0 < |ta| < |a| && EndsInWord(ta)
      && CollapseWhitespace(a + w + b) == "-" + CollapseWhitespace(ta + w + b)
      && CollapseWhitespace(a) == "-" + CollapseWhitespace(ta)
  {
    TrimLeadingRun(a, w, b);
    CollapseSpaceHead(a + w + b);
    CollapseSpaceHead(a);
  }

  /** The inductive step of CollapseRun when the text opens with a word character. */
  lemma {:induction false} CollapseRunAfterWord(a: string, w: string, b: string)
    requires |w| > 0 && IsBlank(w) && EndsInWord(a)
    requires b == [] || !IsWhitespace(b[0])
    requires |a| > 0 && !IsWhitespace(a[0])
    ensures CollapseWhitespace(a + w + b) == CollapseWhitespace(a) + "-" + CollapseWhitespace(b)
    decreases |a|, 0
  {
    TailOfJoin(a, w, b);
    calc {
      CollapseWhitespace(a + w + b);
    == { CollapseWordHead(a + w + b); }
      [a[0]] + CollapseWhitespace(a[1..] + w + b);
    == { CollapseRun(a[1..], w, b); }
      [a[0]] + (CollapseWhitespace(a[1..]) + "-" + CollapseWhitespace(b));
    == { JoinAfter([a[0]], CollapseWhitespace(a[1..]), CollapseWhitespace(b)); }
      ([a[0]] + CollapseWhitespace(a[1..])) + "-" + CollapseWhitespace(b);
    == { CollapseWordHead(a); }
      CollapseWhitespace(a) + "-" + CollapseWhitespace(b);
    }
  }

  /** Trimming the leading white space of a text that ends in a word leaves
      a shorter, non-empty text that still ends in a word, whatever follows. */
  lemma TrimLeadingRun(a: string, w: string, b: string)
    requires EndsInWord(a) && |a| > 0 && IsWhitespace(a[0])
    ensures var ta := TrimStart(a);
      0 < |ta| < |a| && EndsInWord(ta) && TrimStart(a + w + b) == ta + w + b
  {
    var ta := TrimStart(a);
    TrimStartBeforeWord(a, w + b);
    TrimmedRunShape(a);
    JoinAssoc(a, w, b);
    JoinAssoc(ta, w, b);
  }

  /** What trimming leaves of a text that opens with white space and ends in a word. */
  lemma TrimmedRunShape(a: string)
    requires EndsInWord(a) && |a| > 0 && IsWhitespace(a[0])
    ensures 0 < |TrimStart(a)| < |a| && EndsInWord(TrimStart(a))
  {
    var ta := TrimStart(a);
    assert ta == a[|a| - |ta|..];
  }

  /** Concatenation groups either way. */
  lemma JoinAssoc(a: string, w: string, b: string)
    ensures a + w + b == a + (w + b)
  {
  }

  /** Prefixing a hyphen-joined pair prefixes its first half. */
  lemma JoinAfter(p: string, x: string, y: string)
    ensures p + (x + "-" + y) == (p + x) + "-" + y
  {
  }

  /** Dropping the head of a joined text drops the head of its first part. */
  lemma TailOfJoin(a: string, w: string, b: string)
    requires |a| > 0
    ensures (a + w + b)[0] == a[0] && (a + w + b)[1..] == a[1..] + w + b
  {
  }

  /** Collapsing a text that opens with white space. */
  lemma CollapseSpaceHead(s: string)
    requires |s| > 0 && IsWhitespace(s[0])
    ensures CollapseWhitespace(s) == "-" + CollapseWhitespace(TrimStart(s))
  {
  }

  /** Collapsing a text that opens with a word character. */
  lemma CollapseWordHead(s: string)
    requires |s| > 0 && !IsWhitespace(s[0])
    ensures CollapseWhitespace(s) == [s[0]] + CollapseWhitespace(s[1..])
  {
  }

  /** Trimming a blank run off the front of a word. */
  lemma TrimStartBlank(w: string, b: string)
    requires IsBlank(w) && (b == [] || !IsWhitespace(b[0]))
    ensures TrimStart(w + b) == b
    decreases |w|
  {
    if |w| > 0 {
      assert (w + b)[1..] == w[1..] + b;
      TrimStartBlank(w[1..], b);
    } else {
      assert w + b == b;
    }
  }

  /** Leading white space of a text that ends in a word is all the trim removes. */
  lemma TrimStartBeforeWord(a: string, c: string)
    requires EndsInWord(a) && |a| > 0
    ensures TrimStart(a + c) == TrimStart(a) + c
    decreases |a|
  {
    if IsWhitespace(a[0]) {
      assert (a + c)[1..] == a[1..] + c;
      if |a| > 1 {
        TrimStartBeforeWord(a[1..], c);
      }
    }
  }

  /** The page id derived from a name: lower case, white space runs as hyphens. */
  function Slug(name: string): string
  {
    CollapseWhitespace(ToLower(name))
  }

  /** A name of two words separated by white space gives the slugs of the
      words joined by one hyphen. */
  lemma SlugJoinsWords(a: string, w: string, b: string)
    requires |w| > 0 && IsBlank(w) && EndsInWord(a)
    requires b == [] || !IsWhitespace(b[0])
    ensures Slug(a + w + b) == Slug(a) + "-" + Slug(b)
  {
    assert ToLower(a + w + b) == ToLower(a) + ToLower(w) + ToLower(b);
    assert forall i :: 0 <= i < |w| ==> ToLower(w)[i] == LowerChar(w[i]);
    CollapseRun(ToLower(a), ToLower(w), ToLower(b));
  }

  /** A name made of letters, digits, hyphens and white space yields a page
      id that `pageSchema` accepts. */
  lemma SlugIsPageId(name: string)
    requires |name| > 0
    requires forall i :: 0 <= i < |name| ==> IsAlnum(name[i]) || IsWhitespace(name[i]) || name[i] == '-'
    ensures PageIdRegex(Slug(name))
  {
    var low := ToLower(name);
    forall i | 0 <= i < |low| ensures IsPageIdChar(low[i]) || IsWhitespace(low[i]) {
      assert low[i] == LowerChar(name[i]);
    }
    var r := Slug(name);
    forall i | 0 <= i < |r| ensures IsPageIdChar(r[i]) {
      if r[i] != '-' {
        var j :| 0 <= j < |low| && low[j] == r[i];
      }
    }
  }

  // ---------------------------------------------------------------------
  // Adding and editing links

  /** What the submit handler receives after validation. A child link form
      has no page id or page type (the child schema strips them), so both
      are empty. */
  datatype LinkData = LinkData(pageId: string, pageName: string, pageType: string, path: string, icon: string)

  function FromChildData(d: ChildLinkData): LinkData
  {
    LinkData("", d.pageName, "", d.path, d.icon)
  }

  function FromPageData(d: PageData): LinkData
  {
    LinkData(d.pageId, d.pageName, d.pageType, d.path, d.icon)
  }

  /** `newLinkObj`: the submitted fields, a page id derived from the name
      when none was given, page type "custom" when none was given, no
      children, empty content and no server id. */
  function NewLinkObj(d: LinkData): (r: NavLink)
    ensures r.id.None? && r.children == [] && r.content == {} && r.order.None?
    ensures r.pageName == d.pageName && r.path == d.path && r.icon == d.icon
    ensures d.pageId != "" ==> r.pageId == d.pageId
    ensures d.pageId == "" ==> r.pageId == Slug(d.pageName)
    ensures r.pageType != "" && (d.pageType != "" ==> r.pageType == d.pageType)
  {
    NavLink(None,
      if d.pageId != "" then d.pageId else Slug(d.pageName),
      d.pageName,
      if d.pageType != "" then d.pageType else "custom",
      d.path, d.icon, [], {}, None)
  }

  /** A child link always gets a page id derived from its name and the page
      type "custom"; a valid child name of letters, digits and spaces makes
      a valid page id. */
  lemma ChildLinkIsCustom(d: ChildLinkData)
    ensures NewLinkObj(FromChildData(d)).pageType == "custom"
    ensures NewLinkObj(FromChildData(d)).pageId == Slug(d.pageName)
  {
  }

  /** A top-level link that passed `pageSchema` keeps the page id and type
      it was given: the derived id is never used for it. */
  lemma PageLinkKeepsPageId(f: PageForm)
    requires ParsePage(f).Valid?
    ensures NewLinkObj(FromPageData(ParsePage(f).data)).pageId == f.pageId
    ensures NewLinkObj(FromPageData(ParsePage(f).data)).pageType == f.pageType
  {
  }

  /** The editor's form state: the link list, the id of the link being
      edited, the id of the parent a child link belongs to, and whether the
      form is open. */
  datatype EditorState = EditorState(links: seq<NavLink>, editing: Option<string>, parent: Option<string>, adding: bool)

  /** The request a change sends. `UpdatePage` carries whatever `find`
      returned, which may be nothing. */
  datatype Request =
    | CreatePage(created: NavLink)
    | UpdatePage(target: Option<string>, sent: Option<NavLink>)
    | DeletePage(target: Option<string>)

  /** The links, with the children of every link whose id is `parent`
      replaced by `f` of them. */
  function MapChildren(links: seq<NavLink>, parent: Option<string>, f: seq<NavLink> -> seq<NavLink>): (r: seq<NavLink>)
    ensures |r| == |links| && Ids(r) == Ids(links)
    ensures forall i :: 0 <= i < |r| ==> r[i] == (if links[i].id == parent then links[i].(children := f(links[i].children)) else links[i])
  {
    seq(|links|, i requires 0 <= i < |links| =>
      if links[i].id == parent then links[i].(children := f(links[i].children)) else links[i])
  }

  /** Every link whose id is `id` replaced by `with`. */
  function ReplaceById(links: seq<NavLink>, id: Option<string>, with: NavLink): (r: seq<NavLink>)
    ensures |r| == |links|
    ensures forall i :: 0 <= i < |r| ==> r[i] == (if links[i].id == id then with else links[i])
  {
    seq(|links|, i requires 0 <= i < |links| => if links[i].id == id then with else links[i])
  }

  /** The closed form: no link is being edited and no parent is chosen. */
  function Closed(links: seq<NavLink>): EditorState
  {
    EditorState(links, None, None, false)
  }

  /** The four branches of `onSubmit`, given the link to insert (`obj`) and
      the link to put in place of an edited one (`edited`). */
  function SubmitWith(st: EditorState, obj: NavLink, edited: NavLink): (EditorState, Request)
  {
    if Present(st.editing) && Present(st.parent) then
      var links := MapChildren(st.links, st.parent, cs => ReplaceById(cs, st.editing, edited));
      (Closed(links), UpdatePage(st.parent, FindById(links, st.parent)))
    else if Present(st.editing) then
      (Closed(ReplaceById(st.links, st.editing, edited)), UpdatePage(st.editing, Some(edited)))
    else if Present(st.parent) then
      var links := MapChildren(st.links, st.parent, cs => cs + [obj]);
      (Closed(links), UpdatePage(st.parent, FindById(links, st.parent)))
    else
      (Closed(st.links + [obj]), CreatePage(obj))
  }

  /** `onSubmit` as the editor has it: an edited link is replaced by
      `newLinkObj`, which has no server id. */
  function SubmitAsWritten(st: EditorState, d: LinkData): (r: (EditorState, Request))
    ensures !r.0.adding && r.0.editing.None? && r.0.parent.None?
    ensures Present(st.editing) && !Present(st.parent) ==>
      && |r.0.links| == |st.links|
      && (forall i :: 0 <= i < |st.links| ==>
            r.0.links[i] == (if st.links[i].id == st.editing then NewLinkObj(d) else st.links[i]))
      && (forall i :: 0 <= i < |r.0.links| ==> r.0.links[i].id != st.editing)
      && r.1 == UpdatePage(st.editing, Some(NewLinkObj(d)))
    ensures Present(st.editing) && Present(st.parent) ==>
      && Ids(r.0.links) == Ids(st.links)
      && (forall i :: 0 <= i < |st.links| && st.links[i].id == st.parent ==>
            r.0.links[i].children == ReplaceById(st.links[i].children, st.editing, NewLinkObj(d)))
      && (forall i :: 0 <= i < |st.links| && st.links[i].id != st.parent ==> r.0.links[i] == st.links[i])
  {
    var obj := NewLinkObj(d);
    SubmitWith(st, obj, obj)
  }

  /** As written, a top-level edit puts a link with no children and empty
      content in place of the edited one, and sends it so. */
  lemma EditDropsChildrenAsWritten(st: EditorState, d: LinkData, i: nat)
    requires Present(st.editing) && !Present(st.parent)
    requires i < |st.links| && st.links[i].id == st.editing
    ensures SubmitAsWritten(st, d).0.links[i].children == []
    ensures SubmitAsWritten(st, d).0.links[i].content == {}
    ensures SubmitAsWritten(st, d).1.sent.value.children == [] && SubmitAsWritten(st, d).1.sent.value.content == {}
  {
  }

  /** The link put in place of an edited top-level link by the corrected
      editor: the submitted fields under the edited id, with the children
      and content of the first link that has that id. */
  function EditedLink(st: EditorState, d: LinkData): (r: NavLink)
    ensures r.id == st.editing
    ensures r.(id := None, children := [], content := {}) == NewLinkObj(d)
    ensures FindById(st.links, st.editing).Some? ==>
      r.children == FindById(st.links, st.editing).value.children
      && r.content == FindById(st.links, st.editing).value.content
  {
    var obj := NewLinkObj(d);
    match FindById(st.links, st.editing)
    case None => obj.(id := st.editing)
    case Some(stored) => obj.(id := st.editing, children := stored.children, content := stored.content)
  }

  /** `onSubmit` with the edited link keeping its server id, and an edited
      top-level link keeping its children and content. In every branch the
      form closes; edits keep the ids of all top-level links; an added
      top-level link is appended and created, an added child is appended to
      its parent, and a parent whose children change is sent as a whole. */
  function Submit(st: EditorState, d: LinkData): (r: (EditorState, Request))
    ensures !r.0.adding && r.0.editing.None? && r.0.parent.None?
    ensures Present(st.editing) ==> Ids(r.0.links) == Ids(st.links)
    ensures Present(st.editing) && !Present(st.parent) ==>
      && (forall i :: 0 <= i < |st.links| && st.links[i].id != st.editing ==> r.0.links[i] == st.links[i])
      && (forall i :: 0 <= i < |st.links| && st.links[i].id == st.editing ==>
            && r.0.links[i].pageName == d.pageName && r.0.links[i].path == d.path
            && r.0.links[i].children == st.links[FirstIndex(st.links, st.editing)].children
            && r.0.links[i].content == st.links[FirstIndex(st.links, st.editing)].content)
      && r.1 == UpdatePage(st.editing, Some(EditedLink(st, d)))
    ensures Present(st.editing) && Present(st.parent) ==>
      && (forall i :: 0 <= i < |st.links| && st.links[i].id == st.parent ==>
            r.0.links[i].children == ReplaceById(st.links[i].children, st.editing, NewLinkObj(d).(id := st.editing)))
      && (forall i :: 0 <= i < |st.links| && st.links[i].id != st.parent ==> r.0.links[i] == st.links[i])
    ensures !Present(st.editing) && !Present(st.parent) ==>
      r.0.links == st.links + [NewLinkObj(d)] && r.1 == CreatePage(NewLinkObj(d))
    ensures !Present(st.editing) && Present(st.parent) ==>
      && Ids(r.0.links) == Ids(st.links)
      && (forall i :: 0 <= i < |st.links| && st.links[i].id == st.parent ==> r.0.links[i].children == st.links[i].children + [NewLinkObj(d)])
      && (forall i :: 0 <= i < |st.links| && st.links[i].id != st.parent ==> r.0.links[i] == st.links[i])
    ensures Present(st.parent) ==>
      && r.1.UpdatePage? && r.1.target == st.parent
      && (r.1.sent.Some? <==> exists i :: 0 <= i < |st.links| && st.links[i].id == st.parent)
  {
    var obj := NewLinkObj(d);
    var edited := if Present(st.parent) then obj.(id := st.editing) else EditedLink(st, d);
    var r := SubmitWith(st, obj, edited);
    assert Present(st.parent) || Present(st.editing) ==>
      forall i :: 0 <= i < |st.links| ==> r.0.links[i].id == st.links[i].id;
    r
  }

  /** With the edited page's id unique, the corrected editor's top-level
      edit leaves the page's children and content as they were. */
  lemma EditKeepsChildren(st: EditorState, d: LinkData, i: nat)
    requires Present(st.editing) && !Present(st.parent)
    requires i < |st.links| && st.links[i].id == st.editing
    requires forall j :: 0 <= j < |st.links| && j != i ==> st.links[j].id != st.editing
    ensures Submit(st, d).0.links[i].children == st.links[i].children
    ensures Submit(st, d).0.links[i].content == st.links[i].content
    ensures Submit(st, d).1.sent == Some(Submit(st, d).0.links[i])
  {
    var k := FirstIndex(st.links, st.editing);
    assert k == i;
  }

  /** In the corrected editor, editing a child link keeps the ids of all of
      its parent's children. */
  lemma EditChildKeepsChildIds(st: EditorState, d: LinkData, i: nat)
    requires Present(st.editing) && Present(st.parent)
    requires i < |st.links| && st.links[i].id == st.parent
    ensures Ids(Submit(st, d).0.links[i].children) == Ids(st.links[i].children)
  {
    var cs := st.links[i].children;
    var rs := Submit(st, d).0.links[i].children;
    assert rs == ReplaceById(cs, st.editing, NewLinkObj(d).(id := st.editing));
    assert forall j :: 0 <= j < |cs| ==> Ids(rs)[j] == Ids(cs)[j];
  }

  /** `startEditLink`: finds the link (a child through its parent), and if
      it exists opens the form on it, loading its fields (a missing icon
      as the empty string). */
  function StartEdit(st: EditorState, linkId: Option<string>, isChild: bool, parentId: Option<string>): (r: (EditorState, Option<PageForm>))
    ensures r.1.None? ==> r.0 == st
    ensures r.1.Some? ==> r.0 == EditorState(st.links, linkId, if isChild then parentId else None, true)
    ensures !isChild ==> (r.1.Some? <==> FindById(st.links, linkId).Some?)
    ensures isChild ==>
      (r.1.Some? <==> FindById(st.links, parentId).Some? && FindById(FindById(st.links, parentId).value.children, linkId).Some?)
    ensures r.1.Some? ==>
      var l := if isChild then FindById(FindById(st.links, parentId).value.children, linkId).value
               else FindById(st.links, linkId).value;
      r.1.value == PageForm(l.pageName, l.path, Some(l.icon), l.pageId, l.pageType)
  {
    var found :=
      if isChild then
        (match FindById(st.links, parentId)
         case None => None
         case Some(p) => FindById(p.children, linkId))
      else FindById(st.links, linkId);
    match found
    case None => (st, None)
    case Some(l) =>
      (EditorState(st.links, linkId, if isChild then parentId else None, true),
       Some(PageForm(l.pageName, l.path, Some(l.icon), l.pageId, l.pageType)))
  }

  /** In the corrected editor, opening a page whose id no other page has and
      saving the loaded form unchanged leaves every link as it was, except
      that the page loses its `order` (the form has no such field). */
  lemma ReopenAndSaveKeepsPage(links: seq<NavLink>, i: nat)
    requires i < |links| && Present(links[i].id)
    requires forall j :: 0 <= j < |links| && j != i ==> links[j].id != links[i].id
    requires links[i].pageId != "" && links[i].pageType != ""
    ensures
      var (st, form) := StartEdit(Closed(links), links[i].id, false, None);
      form.Some? &&
      var d := LinkData(form.value.pageId, form.value.pageName, form.value.pageType, form.value.path, form.value.icon.value);
      Submit(st, d).0.links == links[i := links[i].(order := None)]
  {
    var (st, form) := StartEdit(Closed(links), links[i].id, false, None);
    assert FirstIndex(links, links[i].id) == i;
    var d := LinkData(form.value.pageId, form.value.pageName, form.value.pageType, form.value.path, form.value.icon.value);
    EditKeepsChildren(st, d, i);
    var r := Submit(st, d).0.links;
    assert r[i] == EditedLink(st, d);
    assert r[i] == links[i].(order := None);
    assert forall j :: 0 <= j < |links| && j != i ==> r[j] == links[j];
    assert r == links[i := links[i].(order := None)];
  }

  /** The editor as written: edit a page, then open it for editing again
      (its row now carries no id) and submit. The second submit creates a
      new page instead of updating the one being edited. */
  lemma EditTwiceCreatesDuplicate()
    ensures
      var page := NavLink(Some("p1"), "about", "About", "static", "/about", DefaultIcon, [], {}, None);
      var d := LinkData("about", "About us", "static", "/about", DefaultIcon);
      var s1 := StartEdit(Closed([page]), Some("p1"), false, None).0;
      var s2 := SubmitAsWritten(s1, d).0;
      var s3 := StartEdit(s2, s2.links[0].id, false, None).0;
      SubmitAsWritten(s3, d).1.CreatePage?
  {
    var page := NavLink(Some("p1"), "about", "About", "static", "/about", DefaultIcon, [], {}, None);
    var d := LinkData("about", "About us", "static", "/about", DefaultIcon);
    var s1 := StartEdit(Closed([page]), Some("p1"), false, None).0;
    assert s1.editing == Some("p1") && s1.parent.None?;
    var s2 := SubmitAsWritten(s1, d).0;
    assert s2.links == [NewLinkObj(d)];
    var s3 := StartEdit(s2, s2.links[0].id, false, None).0;
    assert s3.editing.None? && s3.parent.None?;
  }

  /** The editor as written, on a child link: edit child "c1" of page "P",
      then open it for editing again (the child now carries no id) and
      submit. The second submit appends a second child instead of
      replacing the edited one. */
  lemma EditChildTwiceAppendsAsWritten()
    ensures
      var child := NavLink(Some("c1"), "team", "Team", "custom", "/team", DefaultIcon, [], {}, None);
      var parent := NavLink(Some("P"), "about", "About", "static", "/about", DefaultIcon, [child], {}, None);
      var d := LinkData("", "Our team", "", "/team", DefaultIcon);
      var s1 := StartEdit(Closed([parent]), Some("c1"), true, Some("P")).0;
      var s2 := SubmitAsWritten(s1, d).0;
      var s3 := StartEdit(s2, s2.links[0].children[0].id, true, Some("P")).0;
      SubmitAsWritten(s3, d).0.links[0].children == [NewLinkObj(d), NewLinkObj(d)]
  {
    var child := NavLink(Some("c1"), "team", "Team", "custom", "/team", DefaultIcon, [], {}, None);
    var parent := NavLink(Some("P"), "about", "About", "static", "/about", DefaultIcon, [child], {}, None);
    var d := LinkData("", "Our team", "", "/team", DefaultIcon);
    var s1 := StartEdit(Closed([parent]), Some("c1"), true, Some("P")).0;
    assert s1.editing == Some("c1") && s1.parent == Some("P");
    var s2 := SubmitAsWritten(s1, d).0;
    assert s2.links[0].id == Some("P");
    assert s2.links[0].children == [NewLinkObj(d)];
    var s3 := StartEdit(s2, s2.links[0].children[0].id, true, Some("P")).0;
    assert s3.editing.None? && s3.parent == Some("P");
  }

  /** The corrected editor on the same child edits: the child keeps its id
      and the parent keeps one child. */
  lemma EditChildTwiceReplaces()
    ensures
      var child := NavLink(Some("c1"), "team", "Team", "custom", "/team", DefaultIcon, [], {}, None);
      var parent := NavLink(Some("P"), "about", "About", "static", "/about", DefaultIcon, [child], {}, None);
      var d := LinkData("", "Our team", "", "/team", DefaultIcon);
      var s1 := StartEdit(Closed([parent]), Some("c1"), true, Some("P")).0;
      var s2 := Submit(s1, d).0;
      var s3 := StartEdit(s2, s2.links[0].children[0].id, true, Some("P")).0;
      Submit(s3, d).0.links[0].children == [NewLinkObj(d).(id := Some("c1"))]
  {
    var child := NavLink(Some("c1"), "team", "Team", "custom", "/team", DefaultIcon, [], {}, None);
    var parent := NavLink(Some("P"), "about", "About", "static", "/about", DefaultIcon, [child], {}, None);
    var d := LinkData("", "Our team", "", "/team", DefaultIcon);
    var s1 := StartEdit(Closed([parent]), Some("c1"), true, Some("P")).0;
    assert s1.editing == Some("c1") && s1.parent == Some("P");
    var s2 := Submit(s1, d).0;
    assert s2.links[0].id == Some("P");
    assert s2.links[0].children == [NewLinkObj(d).(id := Some("c1"))];
    var s3 := StartEdit(s2, s2.links[0].children[0].id, true, Some("P")).0;
    assert s3.editing == Some("c1") && s3.parent == Some("P");
  }

  /** The corrected editor: the same two edits both update page "p1". */
  lemma EditTwiceUpdates()
    ensures
      var page := NavLink(Some("p1"), "about", "About", "static", "/about", DefaultIcon, [], {}, None);
      var d := LinkData("about", "About us", "static", "/about", DefaultIcon);
      var s1 := StartEdit(Closed([page]), Some("p1"), false, None).0;
      var s2 := Submit(s1, d).0;
      var s3 := StartEdit(s2, s2.links[0].id, false, None).0;
      Submit(s3, d).1 == UpdatePage(Some("p1"), Some(NewLinkObj(d).(id := Some("p1"))))
  {
    var page := NavLink(Some("p1"), "about", "About", "static", "/about", DefaultIcon, [], {}, None);
    var d := LinkData("about", "About us", "static", "/about", DefaultIcon);
    var s1 := StartEdit(Closed([page]), Some("p1"), false, None).0;
    assert s1.editing == Some("p1") && s1.parent.None?;
    var s2 := Submit(s1, d).0;
    assert s2.links[0].id == Some("p1");
    var s3 := StartEdit(s2, s2.links[0].id, false, None).0;
    assert s3.editing == Some("p1") && s3.parent.None?;
  }

  // ---------------------------------------------------------------------
  // Deleting links

  /** `deleteLink` for a child: the parent loses every child with that id,
      nothing else changes, and the parent is sent as a whole. */
  function DeleteChild(links: seq<NavLink>, parentId: Option<string>, childId: Option<string>): (r: (seq<NavLink>, Request))
    ensures Ids(r.0) == Ids(links)
    ensures forall i :: 0 <= i < |links| && links[i].id != parentId ==> r.0[i] == links[i]
    ensures forall i :: 0 <= i < |links| && links[i].id == parentId ==>
      && r.0[i].(children := links[i].children) == links[i]
      && (forall j :: 0 <= j < |r.0[i].children| ==> r.0[i].children[j].id != childId && r.0[i].children[j] in links[i].children)
      && IsSubsequence(r.0[i].children, links[i].children)
      && (forall j :: 0 <= j < |links[i].children| && links[i].children[j].id != childId ==>
            multiset(r.0[i].children)[links[i].children[j]] == multiset(links[i].children)[links[i].children[j]])
    ensures r.1 == UpdatePage(parentId, FindById(r.0, parentId))
  {
    var updated := MapChildren(links, parentId, cs => KeepChildren(cs, childId));
    (updated, UpdatePage(parentId, FindById(updated, parentId)))
  }

  /** The children without those whose id is `childId`, the rest in order
      and with their number of copies. */
  function KeepChildren(children: seq<NavLink>, childId: Option<string>): (r: seq<NavLink>)
    ensures forall j :: 0 <= j < |r| ==> r[j].id != childId && r[j] in children
    ensures IsSubsequence(r, children)
    ensures forall j :: 0 <= j < |children| && children[j].id != childId ==>
      multiset(r)[children[j]] == multiset(children)[children[j]]
  {
    var p := (c: NavLink) => c.id != childId;
    FilterCounts(children, p);
    Filter(children, p)
  }

  /** `deleteLink` for a top-level link: every link with that id goes, the
      rest keep their order, and the page is deleted on the server. */
  function DeleteTopLevel(links: seq<NavLink>, id: Option<string>): (r: (seq<NavLink>, Request))
    ensures forall i :: 0 <= i < |r.0| ==> r.0[i].id != id && r.0[i] in links
    ensures forall i :: 0 <= i < |links| && links[i].id != id ==> multiset(r.0)[links[i]] == multiset(links)[links[i]]
    ensures IsSubsequence(r.0, links)
    ensures r.1 == DeletePage(id)
  {
    var p := (l: NavLink) => l.id != id;
    FilterCounts(links, p);
    (Filter(links, p), DeletePage(id))
  }

  /** Deleting the same top-level link twice leaves the list as one delete does. */
  lemma DeleteTopLevelIdempotent(links: seq<NavLink>, id: Option<string>)
    ensures DeleteTopLevel(DeleteTopLevel(links, id).0, id).0 == DeleteTopLevel(links, id).0
  {
    var once := DeleteTopLevel(links, id).0;
    FilterAllPass(once, (l: NavLink) => l.id != id);
  }

  /** Adding a top-level link and then deleting it by the id it carries
      (none, until the list is fetched again) also removes every other
      link that has no id; on a list of fetched links it restores the list. */
  lemma DeleteUndoesAddTopLevel(links: seq<NavLink>, d: LinkData)
    requires forall i :: 0 <= i < |links| ==> links[i].id.Some?
    ensures DeleteTopLevel(Submit(Closed(links), d).0.links, None).0 == links
  {
    var p := (l: NavLink) => l.id != None;
    FilterAppend(links, NewLinkObj(d), p);
    FilterAllPass(links, p);
  }
}
