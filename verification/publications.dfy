/** The publications page: the search over the list, filling the form to
    edit a publication, and submitting the form as an edit or as a new
    publication. Requests are values; sending them is outside the model. */
module Publications {
  import opened Base
  import opened Text
  import opened FormValidation

  /** A publication as the server sends it. Title, summary and authors may
      be missing, and an author may be null; the search guards each of them. */
  datatype Publication = Publication(
    id: string,
    title: Option<string>,
    summary: Option<string>,
    authors: Option<seq<Option<string>>>,
    link: string,
    date: string)

  // ---------------------------------------------------------------------
  // Search

  /** `field?.toLowerCase().includes(q)`: false when the field is missing. */
  predicate FieldMatches(field: Option<string>, q: string)
  {
    field.Some? && Includes(ToLower(field.value), q)
  }

  /** `authors?.some(a => a?.toLowerCase().includes(q))`. */
  predicate AuthorMatches(authors: Option<seq<Option<string>>>, q: string)
  {
    authors.Some? && exists i :: 0 <= i < |authors.value| && FieldMatches(authors.value[i], q)
  }

  /** The test the search applies to one entry, with `q` already lower-cased;
      a null entry never matches. */
  predicate Matches(entry: Option<Publication>, q: string)
  {
    && entry.Some?
    && (FieldMatches(entry.value.title, q) || FieldMatches(entry.value.summary, q)
        || AuthorMatches(entry.value.authors, q))
  }

  /** The search effect: the entries whose title, summary or one of whose
      authors contains the query, ignoring case, in list order; no list
      gives no results. */
  function Search(publications: Option<seq<Option<Publication>>>, query: string): (r: seq<Option<Publication>>)
    ensures publications.None? ==> r == []
    ensures publications.Some? ==> IsSubsequence(r, publications.value)
    ensures forall i :: 0 <= i < |r| ==> r[i].Some? && Matches(r[i], ToLower(query))
    ensures publications.Some? ==>
      forall i :: 0 <= i < |publications.value| && Matches(publications.value[i], ToLower(query)) ==>
        multiset(r)[publications.value[i]] == multiset(publications.value)[publications.value[i]]
  {
    if publications.None? then []
    else
      var q := ToLower(query);
      var p := (p: Option<Publication>) => Matches(p, q);
      FilterCounts(publications.value, p);
      Filter(publications.value, p)
  }

  /** The search ignores the case of the query. */
  lemma SearchIgnoresQueryCase(publications: Option<seq<Option<Publication>>>, query: string)
    ensures Search(publications, ToLower(query)) == Search(publications, query)
  {
    ToLowerIdempotent(query);
  }

  /** The empty query keeps every entry that has a title, a summary, or a
      non-null author, and nothing else. */
  lemma EmptyQueryKeepsEntriesWithText(entry: Option<Publication>)
    ensures Matches(entry, ToLower("")) <==>
      entry.Some? && (entry.value.title.Some? || entry.value.summary.Some?
        || (entry.value.authors.Some? && exists i :: 0 <= i < |entry.value.authors.value| && entry.value.authors.value[i].Some?))
  {
    assert ToLower("") == "";
    if entry.Some? {
      var p := entry.value;
      if p.title.Some? { IncludesEmpty(ToLower(p.title.value)); }
      if p.summary.Some? { IncludesEmpty(ToLower(p.summary.value)); }
      if p.authors.Some? {
        forall i | 0 <= i < |p.authors.value| && p.authors.value[i].Some?
          ensures FieldMatches(p.authors.value[i], "")
        {
          IncludesEmpty(ToLower(p.authors.value[i].value));
        }
      }
    }
  }

  /** Typing more of the query never brings back an entry the shorter
      query had dropped. */
  lemma NarrowingQuery(publications: Option<seq<Option<Publication>>>, query: string, more: string)
    ensures forall i :: 0 <= i < |Search(publications, query + more)| ==>
      Search(publications, query + more)[i] in Search(publications, query)
  {
    var q, q' := ToLower(query), ToLower(query + more);
    assert q' == q + ToLower(more);
    forall entry | Matches(entry, q') ensures Matches(entry, q) {
      MatchesPrefix(entry, q, ToLower(more));
    }
  }

  /** An entry that matches a query matches every prefix of it. */
  lemma MatchesPrefix(entry: Option<Publication>, q: string, more: string)
    requires Matches(entry, q + more)
    ensures Matches(entry, q)
  {
    var p := entry.value;
    forall s | Includes(s, q + more) ensures Includes(s, q) {
      var i: nat :| i <= |s| && OccursAt(q + more, s, i);
      assert s[i..i + |q|] == (q + more)[..|q|];
      assert OccursAt(q, s, i);
    }
    if AuthorMatches(p.authors, q + more) {
      var i :| 0 <= i < |p.authors.value| && FieldMatches(p.authors.value[i], q + more);
      assert FieldMatches(p.authors.value[i], q);
    }
  }

  // ---------------------------------------------------------------------
  // Editing and submitting

  /** The form's values; a field set from a missing value holds None. */
  datatype FormValues = FormValues(title: Option<string>, summary: Option<string>, authors: string, link: string, date: string)

  const EmptyForm := FormValues(Some(""), Some(""), "", "", "")

  /** `Array.prototype.join` writes a null element as the empty string. */
  function AuthorText(a: Option<string>): string
  {
    if a.None? then "" else a.value
  }

  /** `handleEdit`: the publication becomes the one being edited and the
      form is filled from it, the authors joined with ", ". A publication
      without an authors list makes the handler throw, so it is required. */
  function HandleEdit(pub: Publication): (r: (Option<string>, FormValues))
    requires pub.authors.Some?
    ensures r.0 == Some(pub.id)
    ensures r.1.title == pub.title && r.1.summary == pub.summary
    ensures r.1.link == pub.link && r.1.date == pub.date
    ensures (forall i :: 0 <= i < |pub.authors.value| ==> pub.authors.value[i].Some?) && |pub.authors.value| >= 1 ==>
      Split(r.1.authors, ',')[0] == pub.authors.value[0].value || ',' in pub.authors.value[0].value
    ensures |pub.authors.value| >= 1 && (forall i :: 0 <= i < |pub.authors.value| ==> ',' !in AuthorText(pub.authors.value[i])) ==>
      var pieces := Split(r.1.authors, ',');
      && |pieces| == |pub.authors.value|
      && pieces[0] == AuthorText(pub.authors.value[0])
      && forall i :: 1 <= i < |pieces| ==> pieces[i] == " " + AuthorText(pub.authors.value[i])
  {
    var names := Map(pub.authors.value, AuthorText);
    JoinedAuthorsSplit(names);
    (Some(pub.id), FormValues(pub.title, pub.summary, Join(names, ", "), pub.link, pub.date))
  }

  /** What splitting the ", "-joined author names at ',' gives back: the
      first name when it has no ',', and every name, the later ones with a
      space in front, when none has one. */
  lemma JoinedAuthorsSplit(names: seq<string>)
    ensures |names| >= 1 && ',' !in names[0] ==> Split(Join(names, ", "), ',')[0] == names[0]
    ensures |names| >= 1 && (forall i :: 0 <= i < |names| ==> ',' !in names[i]) ==>
      var pieces := Split(Join(names, ", "), ',');
      |pieces| == |names| && pieces[0] == names[0] && forall i :: 1 <= i < |pieces| ==> pieces[i] == " " + names[i]
  {
    var joined := Join(names, ", ");
    if |names| > 1 && ',' !in names[0] {
      JoinHead(names, ", ");
      assert joined == names[0] + [','] + joined[|names[0]| + 1..];
      IndexOfPrefix(names[0], ',', joined[|names[0]| + 1..]);
    } else if |names| == 1 && ',' !in names[0] {
      assert IndexOf(names[0], ',') == |names[0]|;
    }
    if |names| >= 1 && (forall i :: 0 <= i < |names| ==> ',' !in names[i]) {
      SplitJoinedAuthors(names);
    }
  }

  /** An author name with the space `join(", ")` puts before it. */
  function SpaceBefore(name: string): string
  {
    " " + name
  }

  /** Splitting the joined names at ',' gives the first name and then each
      later name with a space in front, when no name contains ','. */
  lemma SplitJoinedAuthors(names: seq<string>)
    requires |names| >= 1 && forall i :: 0 <= i < |names| ==> ',' !in names[i]
    ensures var pieces := Split(Join(names, ", "), ',');
      |pieces| == |names| && pieces[0] == names[0]
      && forall i :: 1 <= i < |pieces| ==> pieces[i] == " " + names[i]
  {
    var spaced := [names[0]] + Map(names[1..], SpaceBefore);
    if |names| > 1 {
      SpaceJoin(names[1..]);
      assert Join(names, ", ") == names[0] + "," + (" " + Join(names[1..], ", "));
    }
    assert Join(names, ", ") == Join(spaced, ",");
    SplitJoin(spaced, ',');
  }

  /** A space before a ", "-join is a ","-join of the names each with a space before. */
  lemma {:induction false} SpaceJoin(names: seq<string>)
    requires |names| >= 1
    ensures " " + Join(names, ", ") == Join(Map(names, SpaceBefore), ",")
    decreases |names|
  {
    if |names| > 1 {
      SpaceJoin(names[1..]);
      assert Map(names, SpaceBefore)[1..] == Map(names[1..], SpaceBefore);
      assert " " + Join(names, ", ") == (" " + names[0]) + "," + (" " + Join(names[1..], ", "));
    }
  }

  /** A join starts with its first part, followed by the separator when
      there is more than one part. */
  lemma JoinHead(parts: seq<string>, sep: string)
    requires |parts| >= 1 && |sep| >= 1
    ensures var s := Join(parts, sep);
      |parts[0]| <= |s| && s[..|parts[0]|] == parts[0]
      && (|parts| > 1 ==> |s| > |parts[0]| && s[|parts[0]|] == sep[0])
      && (|parts| == 1 ==> s == parts[0])
  {
  }

  /** Reopening a stored publication for editing gives a form that passes
      the publication rules, when its title and summary are non-empty,
      every author is a non-empty name of letters and spaces, and its link
      and date are valid. */
  lemma EditFormValid(pub: Publication, isUrl: string -> bool)
    requires pub.title.Some? && pub.title.value != ""
    requires pub.summary.Some? && pub.summary.value != ""
    requires pub.authors.Some? && |pub.authors.value| >= 1
    requires forall i :: 0 <= i < |pub.authors.value| ==>
      pub.authors.value[i].Some? && pub.authors.value[i].value != "" && AllNameChars(pub.authors.value[i].value)
    requires isUrl(pub.link) && DateRegex(pub.date)
    ensures var f := HandleEdit(pub).1;
      PublicationIssues(PublicationForm(f.title.value, f.summary.value, f.authors, f.link, f.date), isUrl) == []
  {
    var names := Map(pub.authors.value, AuthorText);
    JoinedAuthorsAccepted(names);
    AuthorsRegexIffWellSeparated(Join(names, ", "));
  }

  /** The request a submit sends. */
  datatype PublicationRequest =
    | EditPublication(target: string, data: PublicationForm)
    | PostPublication(data: PublicationForm)

  /** `editingId` as a JavaScript condition sees it. */
  predicate Editing(editingId: Option<string>)
  {
    editingId.Some? && editingId.value != ""
  }

  /** `onSubmit` with the validated data: an edit of the publication being
      edited, or a new publication; then the form is reset and nothing is
      being edited. */
  function Submit(editingId: Option<string>, data: PublicationForm): (r: (PublicationRequest, Option<string>, FormValues))
    ensures r.0.EditPublication? <==> Editing(editingId)
    ensures r.0.EditPublication? ==> r.0.target == editingId.value
    ensures r.0.data == data
    ensures r.1.None? && r.2 == EmptyForm
  {
    var request := if Editing(editingId) then EditPublication(editingId.value, data) else PostPublication(data);
    (request, None, EmptyForm)
  }

  /** Editing a publication and submitting sends an edit of it; the next
      submit, with nothing being edited, adds a new publication. */
  lemma EditThenSubmit(pub: Publication, data: PublicationForm, next: PublicationForm)
    requires pub.authors.Some? && pub.id != ""
    ensures var s := Submit(HandleEdit(pub).0, data);
      s.0 == EditPublication(pub.id, data)
      && Submit(s.1, next).0 == PostPublication(next)
  {
  }
}
