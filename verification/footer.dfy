/** The footer settings editor: a footer record holding a logo, two text
    fields, a list of social links and a list of link columns. Every
    operation is the state update the editor applies to the footer; ids that
    the editor takes from the clock (`Date.now()`) are the parameter
    `freshId`. Entries are matched by id with `===`, so when several entries
    share an id every one of them is affected. The footer starts as an empty
    object before the server's record arrives, so either list may be absent;
    the updates that go through `?.` leave an absent list absent, and the two
    that spread a list throw on an absent one. */
module FooterEditor {
  import opened Base

  datatype SocialLink = SocialLink(id: int, platform: string, url: string)

  datatype ColumnLink = ColumnLink(id: int, text: string, url: string)

  datatype Column = Column(id: int, title: string, links: seq<ColumnLink>)

  datatype Footer = Footer(
    logo: Option<string>,
    description: string,
    copyright: string,
    socialLinks: Option<seq<SocialLink>>,
    columns: Option<seq<Column>>)

  /** The "new social link" inputs. */
  datatype SocialDraft = SocialDraft(platform: string, url: string)

  /** The footer text fields the editor's text areas update. */
  datatype TextField = Description | Copyright

  /** The fields of a column link that its two inputs update. */
  datatype LinkField = LinkText | LinkUrl

  const EmptySocialDraft := SocialDraft("", "")

  predicate SocialIdUnused(links: seq<SocialLink>, id: int)
  {
    forall i :: 0 <= i < |links| ==> links[i].id != id
  }

  predicate ColumnIdUnused(columns: seq<Column>, id: int)
  {
    forall i :: 0 <= i < |columns| ==> columns[i].id != id
  }

  /** `addSocialLink`: with both inputs filled, one link is appended and the
      inputs are cleared; otherwise nothing happens. Spreading an absent
      list throws a TypeError, shown as None: nothing is updated. */
  function AddSocialLink(f: Footer, draft: SocialDraft, freshId: int): (r: Option<(Footer, SocialDraft)>)
    ensures draft.platform == "" || draft.url == "" ==> r == Some((f, draft))
    ensures r.None? <==> draft.platform != "" && draft.url != "" && f.socialLinks.None?
    ensures draft.platform != "" && draft.url != "" && f.socialLinks.Some? ==>
      var links := f.socialLinks.value;
      && r.Some? && r.value.0.socialLinks.Some?
      && |r.value.0.socialLinks.value| == |links| + 1
      && r.value.0.socialLinks.value[..|links|] == links
      && r.value.0.socialLinks.value[|links|] == SocialLink(freshId, draft.platform, draft.url)
      && r.value.0.(socialLinks := f.socialLinks) == f
      && r.value.1 == EmptySocialDraft
  {
    if draft.platform == "" || draft.url == "" then Some((f, draft))
    else if f.socialLinks.None? then None
    else Some((f.(socialLinks := Some(f.socialLinks.value + [SocialLink(freshId, draft.platform, draft.url)])), EmptySocialDraft))
  }

  /** `addNewColumn`: with a title, one empty column is appended and the
      title input is cleared; otherwise nothing happens. Spreading an absent
      list throws, shown as None. */
  function AddNewColumn(f: Footer, title: string, freshId: int): (r: Option<(Footer, string)>)
    ensures title == "" ==> r == Some((f, title))
    ensures r.None? <==> title != "" && f.columns.None?
    ensures title != "" && f.columns.Some? ==>
      var cols := f.columns.value;
      && r.Some? && r.value.0.columns.Some?
      && |r.value.0.columns.value| == |cols| + 1
      && r.value.0.columns.value[..|cols|] == cols
      && r.value.0.columns.value[|cols|] == Column(freshId, title, [])
      && r.value.0.(columns := f.columns) == f
      && r.value.1 == ""
  {
    if title == "" then Some((f, title))
    else if f.columns.None? then None
    else Some((f.(columns := Some(f.columns.value + [Column(freshId, title, [])])), ""))
  }

  /** `deleteSocialLink`: every link with the id goes, the rest stay in
      order, each as often as before; an absent list stays absent. */
  function DeleteSocialLink(f: Footer, id: int): (r: Footer)
    ensures r.(socialLinks := f.socialLinks) == f
    ensures r.socialLinks.Some? <==> f.socialLinks.Some?
    ensures f.socialLinks.Some? ==>
      var links, kept := f.socialLinks.value, r.socialLinks.value;
      && SocialIdUnused(kept, id)
      && (forall i :: 0 <= i < |links| && links[i].id != id ==> multiset(kept)[links[i]] == multiset(links)[links[i]])
      && IsSubsequence(kept, links)
  {
    if f.socialLinks.None? then f
    else
      FilterCounts(f.socialLinks.value, (l: SocialLink) => l.id != id);
      f.(socialLinks := Some(Filter(f.socialLinks.value, (l: SocialLink) => l.id != id)))
  }

  /** `deleteColumn`: every column with the id goes, the rest stay in
      order, each as often as before; an absent list stays absent. */
  function DeleteColumn(f: Footer, id: int): (r: Footer)
    ensures r.(columns := f.columns) == f
    ensures r.columns.Some? <==> f.columns.Some?
    ensures f.columns.Some? ==>
      var cols, kept := f.columns.value, r.columns.value;
      && ColumnIdUnused(kept, id)
      && (forall i :: 0 <= i < |cols| && cols[i].id != id ==> multiset(kept)[cols[i]] == multiset(cols)[cols[i]])
      && IsSubsequence(kept, cols)
  {
    match f.columns
    case None => f
    case Some(cols) =>
      var p := (c: Column) => c.id != id;
      FilterCounts(cols, p);
      f.(columns := Some(Filter(cols, p)))
  }

  /** Deleting the link just added (under an id no other link has) restores the footer. */
  lemma DeleteUndoesAddSocialLink(f: Footer, draft: SocialDraft, freshId: int)
    requires draft.platform != "" && draft.url != "" && f.socialLinks.Some?
    requires SocialIdUnused(f.socialLinks.value, freshId)
    ensures DeleteSocialLink(AddSocialLink(f, draft, freshId).value.0, freshId) == f
  {
    var links, link := f.socialLinks.value, SocialLink(freshId, draft.platform, draft.url);
    var p := (l: SocialLink) => l.id != freshId;
    var added := f.(socialLinks := Some(links + [link]));
    assert AddSocialLink(f, draft, freshId).value.0 == added;
    FilterAppend(links, link, p);
    FilterAllPass(links, p);
    assert Filter(links + [link], p) == Filter(links, p) + [];
    assert Filter(links, p) + [] == links;
    assert DeleteSocialLink(added, freshId) == added.(socialLinks := Some(links));
  }

  /** Deleting the column just added (under an unused id) restores the footer. */
  lemma DeleteUndoesAddColumn(f: Footer, title: string, freshId: int)
    requires title != "" && f.columns.Some?
    requires ColumnIdUnused(f.columns.value, freshId)
    ensures DeleteColumn(AddNewColumn(f, title, freshId).value.0, freshId) == f
  {
    var cols, col := f.columns.value, Column(freshId, title, []);
    var p := (c: Column) => c.id != freshId;
    var added := f.(columns := Some(cols + [col]));
    assert AddNewColumn(f, title, freshId).value.0 == added;
    FilterAppend(cols, col, p);
    FilterAllPass(cols, p);
    assert Filter(cols + [col], p) == Filter(cols, p) + [];
    assert Filter(cols, p) + [] == cols;
    assert DeleteColumn(added, freshId) == added.(columns := Some(cols));
  }

  /** Before the server's footer arrives, adding a link or a column throws
      and deleting changes nothing. */
  lemma EmptyFooterObject(draft: SocialDraft, title: string, freshId: int, id: int)
    requires draft.platform != "" && draft.url != "" && title != ""
    ensures var empty := Footer(None, "", "", None, None);
      && AddSocialLink(empty, draft, freshId).None?
      && AddNewColumn(empty, title, freshId).None?
      && DeleteSocialLink(empty, id) == empty
      && DeleteColumn(empty, id) == empty
  {
  }

  /** Applies `g` to every column whose id is `id`. */
  function MapColumns(columns: seq<Column>, id: int, g: Column -> Column): (r: seq<Column>)
    ensures |r| == |columns|
    ensures forall i :: 0 <= i < |columns| ==> r[i] == (if columns[i].id == id then g(columns[i]) else columns[i])
  {
    seq(|columns|, i requires 0 <= i < |columns| => if columns[i].id == id then g(columns[i]) else columns[i])
  }

  /** `addLinkToColumn`: each column with the id gets one blank link at the
      end of its links; the number of columns and every other column stay.
      An absent list stays absent. */
  function AddLinkToColumn(f: Footer, colId: int, freshId: int): (r: Footer)
    ensures r.(columns := f.columns) == f
    ensures r.columns.Some? <==> f.columns.Some?
    ensures f.columns.Some? ==>
      var cols, rc := f.columns.value, r.columns.value;
      && |rc| == |cols|
      && forall i :: 0 <= i < |cols| ==>
        && rc[i].id == cols[i].id
        && rc[i].title == cols[i].title
        && (cols[i].id != colId ==> rc[i] == cols[i])
        && (cols[i].id == colId ==> rc[i].links == cols[i].links + [ColumnLink(freshId, "", "")])
  {
    match f.columns
    case None => f
    case Some(cols) =>
      f.(columns := Some(MapColumns(cols, colId, (c: Column) => c.(links := c.links + [ColumnLink(freshId, "", "")]))))
  }

  /** `deleteLinkFromColumn`: links with the id are removed inside the
      columns with `colId` only, the others staying in order, each as often
      as before. An absent list stays absent. */
  function DeleteLinkFromColumn(f: Footer, colId: int, linkId: int): (r: Footer)
    ensures r.(columns := f.columns) == f
    ensures r.columns.Some? <==> f.columns.Some?
    ensures f.columns.Some? ==>
      var cols, rc := f.columns.value, r.columns.value;
      && |rc| == |cols|
      && forall i :: 0 <= i < |cols| ==>
        && rc[i].id == cols[i].id
        && rc[i].title == cols[i].title
        && (cols[i].id != colId ==> rc[i] == cols[i])
        && (cols[i].id == colId ==>
              && IsSubsequence(rc[i].links, cols[i].links)
              && (forall j :: 0 <= j < |rc[i].links| ==> rc[i].links[j].id != linkId)
              && (forall j :: 0 <= j < |cols[i].links| && cols[i].links[j].id != linkId ==>
                    multiset(rc[i].links)[cols[i].links[j]] == multiset(cols[i].links)[cols[i].links[j]]))
  {
    match f.columns
    case None => f
    case Some(cols) =>
      var p := (l: ColumnLink) => l.id != linkId;
      var rc := MapColumns(cols, colId, (c: Column) => c.(links := Filter(c.links, p)));
      assert forall i :: 0 <= i < |cols| && cols[i].id == colId ==>
          forall j :: 0 <= j < |cols[i].links| && cols[i].links[j].id != linkId ==>
            multiset(rc[i].links)[cols[i].links[j]] == multiset(cols[i].links)[cols[i].links[j]] by {
        forall i | 0 <= i < |cols| && cols[i].id == colId {
          FilterCounts(cols[i].links, p);
        }
      }
      f.(columns := Some(rc))
  }

  /** Deleting the blank link just added (under an id no link of those
      columns has) restores the footer. */
  lemma DeleteUndoesAddLink(f: Footer, colId: int, freshId: int)
    requires f.columns.Some?
    requires var cols := f.columns.value;
      forall i, j :: 0 <= i < |cols| && cols[i].id == colId && 0 <= j < |cols[i].links| ==> cols[i].links[j].id != freshId
    ensures DeleteLinkFromColumn(AddLinkToColumn(f, colId, freshId), colId, freshId) == f
  {
    var cols := f.columns.value;
    var r := DeleteLinkFromColumn(AddLinkToColumn(f, colId, freshId), colId, freshId);
    var p := (l: ColumnLink) => l.id != freshId;
    forall i | 0 <= i < |cols| ensures r.columns.value[i] == cols[i] {
      if cols[i].id == colId {
        FilterAppend(cols[i].links, ColumnLink(freshId, "", ""), p);
        FilterAllPass(cols[i].links, p);
      }
    }
    assert r.columns.value == cols;
  }

  /** `updateText`: sets one footer text field. */
  function UpdateText(f: Footer, field: TextField, value: string): (r: Footer)
    ensures field == Description ==> r.description == value && r.(description := f.description) == f
    ensures field == Copyright ==> r.copyright == value && r.(copyright := f.copyright) == f
  {
    match field
    case Description => f.(description := value)
    case Copyright => f.(copyright := value)
  }

  /** The logo's remove button: clears the logo and nothing else. */
  function RemoveLogo(f: Footer): (r: Footer)
    ensures r.logo.None?
    ensures r.(logo := f.logo) == f
  {
    f.(logo := None)
  }

  /** `updateColumnTitle`: matching columns get the title and keep their
      links. An absent list stays absent. */
  function UpdateColumnTitle(f: Footer, id: int, title: string): (r: Footer)
    ensures r.(columns := f.columns) == f
    ensures r.columns.Some? <==> f.columns.Some?
    ensures f.columns.Some? ==>
      var cols, rc := f.columns.value, r.columns.value;
      && |rc| == |cols|
      && forall i :: 0 <= i < |cols| ==>
        && rc[i].id == cols[i].id
        && rc[i].links == cols[i].links
        && rc[i].title == (if cols[i].id == id then title else cols[i].title)
  {
    match f.columns
    case None => f
    case Some(cols) => f.(columns := Some(MapColumns(cols, id, (c: Column) => c.(title := title))))
  }

  /** Sets one field of a column link. */
  function SetLinkField(l: ColumnLink, field: LinkField, value: string): ColumnLink
  {
    match field
    case LinkText => l.(text := value)
    case LinkUrl => l.(url := value)
  }

  /** `updateColumnLink`: inside the columns with `colId`, the links with
      `linkId` get `field` set to `value`; every other field, link and column
      is left as it was. An absent list stays absent. */
  function UpdateColumnLink(f: Footer, colId: int, linkId: int, field: LinkField, value: string): (r: Footer)
    ensures r.(columns := f.columns) == f
    ensures r.columns.Some? <==> f.columns.Some?
    ensures f.columns.Some? ==>
      var cols, rc := f.columns.value, r.columns.value;
      && |rc| == |cols|
      && (forall i :: 0 <= i < |cols| ==>
        && rc[i].id == cols[i].id
        && rc[i].title == cols[i].title
        && |rc[i].links| == |cols[i].links|
        && (cols[i].id != colId ==> rc[i] == cols[i]))
      && (forall i, j :: 0 <= i < |cols| && 0 <= j < |cols[i].links| ==>
        var old_ := cols[i].links[j];
        var new_ := rc[i].links[j];
        && new_.id == old_.id
        && (cols[i].id == colId && old_.id == linkId ==>
              (field == LinkText ==> new_ == old_.(text := value)) && (field == LinkUrl ==> new_ == old_.(url := value)))
        && (cols[i].id != colId || old_.id != linkId ==> new_ == old_))
  {
    match f.columns
    case None => f
    case Some(cols) =>
      f.(columns := Some(MapColumns(cols, colId, (c: Column) =>
        c.(links := seq(|c.links|, j requires 0 <= j < |c.links| =>
          if c.links[j].id == linkId then SetLinkField(c.links[j], field, value) else c.links[j])))))
  }

  /** Of two edits of the same link field, the later one wins. */
  lemma UpdateColumnLinkLastWins(f: Footer, colId: int, linkId: int, field: LinkField, v1: string, v2: string)
    ensures UpdateColumnLink(UpdateColumnLink(f, colId, linkId, field, v1), colId, linkId, field, v2)
         == UpdateColumnLink(f, colId, linkId, field, v2)
  {
    var a := UpdateColumnLink(UpdateColumnLink(f, colId, linkId, field, v1), colId, linkId, field, v2);
    var b := UpdateColumnLink(f, colId, linkId, field, v2);
    if f.columns.Some? {
      forall i | 0 <= i < |f.columns.value| ensures a.columns.value[i] == b.columns.value[i] {
        assert a.columns.value[i].links == b.columns.value[i].links;
      }
      assert a.columns.value == b.columns.value;
    }
  }

  /** Of two edits of a column title, the later one wins. */
  lemma UpdateColumnTitleLastWins(f: Footer, id: int, t1: string, t2: string)
    ensures UpdateColumnTitle(UpdateColumnTitle(f, id, t1), id, t2) == UpdateColumnTitle(f, id, t2)
  {
    var a := UpdateColumnTitle(UpdateColumnTitle(f, id, t1), id, t2);
    var b := UpdateColumnTitle(f, id, t2);
    if f.columns.Some? {
      assert a.columns.value == b.columns.value;
    }
  }
}
