/** The page content editor: a page's content is a map from section name
    to a section with a title, details and images. Images that came from
    the server carry a URL and an image-host id; images chosen in the
    browser carry the file. Saving sends each section's text, the URLs of
    the server images still present, the server images that were removed,
    and the new files. */
module PageSections {
  import opened Base
  import opened Text

  /** An image of a section: `url` and `publicId` for one stored on the
      image host, `file` for one chosen in the browser and not yet sent. */
  datatype Image = Image(url: Option<string>, publicId: Option<string>, file: Option<File>)

  datatype Section = Section(title: string, details: string, images: seq<Image>)

  /** A section nothing has been written into. */
  const EmptySection := Section("", "", [])

  type Sections = map<string, Section>

  /** The section as the editor sees it: an absent one reads as empty. */
  function Current(sections: Sections, key: string): Section
  {
    if key in sections then sections[key] else EmptySection
  }

  // ---------------------------------------------------------------------
  // Which section is open

  /** The section the user last clicked and whether it is open. */
  datatype ActiveSection = ActiveSection(name: string, isOpen: bool)

  const NoActiveSection := ActiveSection("", false)

  /** `toggleSection`: clicking the active section flips it; clicking
      another one makes it the active, open section. */
  function ToggleSection(a: ActiveSection, name: string): (r: ActiveSection)
    ensures r.name == name
    ensures r.isOpen <==> a.name != name || !a.isOpen
  {
    ActiveSection(name, if a.name == name then !a.isOpen else true)
  }

  /** Whether the card of section `name` is drawn open, as the page has it:
      by name alone. */
  predicate CardOpenAsWritten(a: ActiveSection, name: string)
  {
    a.name == name
  }

  /** Whether the card of section `name` is drawn open, honouring the flag
      `toggleSection` keeps. */
  predicate CardOpen(a: ActiveSection, name: string)
  {
    a.name == name && a.isOpen
  }

  /** As written, clicking an open card leaves it drawn open: a section
      cannot be closed by clicking it. */
  lemma ClickingOpenCardKeepsItOpen(a: ActiveSection, name: string)
    requires CardOpenAsWritten(a, name)
    ensures CardOpenAsWritten(ToggleSection(a, name), name)
    ensures CardOpenAsWritten(ToggleSection(ToggleSection(a, name), name), name)
  {
  }

  /** Corrected, every click on a card flips it, and only the clicked card
      can be open. */
  lemma ClickFlipsCard(a: ActiveSection, name: string, other: string)
    requires other != name
    ensures CardOpen(ToggleSection(a, name), name) <==> !CardOpen(a, name)
    ensures !CardOpen(ToggleSection(a, name), other)
  {
  }

  // ---------------------------------------------------------------------
  // Editing sections

  datatype TextField = Title | Details

  function SetText(s: Section, field: TextField, value: string): Section
  {
    match field
    case Title => s.(title := value)
    case Details => s.(details := value)
  }

  function GetText(s: Section, field: TextField): string
  {
    match field
    case Title => s.title
    case Details => s.details
  }

  /** `handleTextChange`: one field of one section takes the value; the
      other field, the images and every other section are unchanged. */
  function HandleTextChange(sections: Sections, key: string, field: TextField, value: string): (r: Sections)
    ensures r.Keys == sections.Keys + {key}
    ensures GetText(r[key], field) == value
    ensures r[key].images == Current(sections, key).images
    ensures forall g :: g != field ==> GetText(r[key], g) == GetText(Current(sections, key), g)
    ensures forall k :: k in sections && k != key ==> r[k] == sections[k]
  {
    sections[key := SetText(Current(sections, key), field, value)]
  }

  /** Typing into the same field twice keeps only the last value. */
  lemma TextChangeLastWins(sections: Sections, key: string, field: TextField, v1: string, v2: string)
    ensures HandleTextChange(HandleTextChange(sections, key, field, v1), key, field, v2)
         == HandleTextChange(sections, key, field, v2)
  {
    var once := HandleTextChange(sections, key, field, v2);
    var twice := HandleTextChange(HandleTextChange(sections, key, field, v1), key, field, v2);
    assert twice[key] == once[key] by {
      match field
      case Title =>
      case Details =>
    }
  }

  /** An image chosen in the browser, not yet uploaded. */
  function NewImage(f: File): (r: Image)
  {
    Image(None, None, Some(f))
  }

  /** `handleImageChange`: one new image per file, in file order, after the
      section's existing images; nothing else changes. */
  function HandleImageChange(sections: Sections, key: string, files: seq<File>): (r: Sections)
    ensures r.Keys == sections.Keys + {key}
    ensures var before := Current(sections, key).images;
      && |r[key].images| == |before| + |files|
      && r[key].images[..|before|] == before
      && forall i :: 0 <= i < |files| ==> r[key].images[|before| + i].file == Some(files[i])
    ensures r[key].title == Current(sections, key).title && r[key].details == Current(sections, key).details
    ensures forall k :: k in sections && k != key ==> r[k] == sections[k]
  {
    var cur := Current(sections, key);
    sections[key := cur.(images := cur.images + Map(files, NewImage))]
  }

  /** `handleDeleteImage`: the image at `index` goes, the others keep their
      order; an index past the end changes nothing. The section must exist. */
  function HandleDeleteImage(sections: Sections, key: string, index: nat): (r: Sections)
    requires key in sections
    ensures r.Keys == sections.Keys
    ensures var before := sections[key].images;
      && (index < |before| ==>
            && |r[key].images| == |before| - 1
            && forall j :: 0 <= j < |r[key].images| ==> r[key].images[j] == (if j < index then before[j] else before[j + 1]))
      && (index >= |before| ==> r[key].images == before)
    ensures r[key].title == sections[key].title && r[key].details == sections[key].details
    ensures forall k :: k in sections && k != key ==> r[k] == sections[k]
  {
    var cur := sections[key];
    sections[key := cur.(images := RemoveAt(cur.images, index))]
  }

  /** Choosing one file and deleting the preview it produced restores the section. */
  lemma DeleteUndoesImageChange(sections: Sections, key: string, f: File)
    requires key in sections
    ensures HandleDeleteImage(HandleImageChange(sections, key, [f]), key, |sections[key].images|) == sections
  {
    var before := sections[key].images;
    var added := HandleImageChange(sections, key, [f]);
    assert added[key].images == before + [NewImage(f)];
    assert RemoveAt(before + [NewImage(f)], |before|) == before;
    assert HandleDeleteImage(added, key, |before|)[key] == sections[key];
  }

  // ---------------------------------------------------------------------
  // Adding a section

  const EmptyNameError := "*Section name cannot be empty"
  const SpaceInNameError := "*Section name cannot contain spaces. Use (e.g., HeroSection)"

  /** The add-section form: the typed name, the error shown, and whether
      its dialog is open. */
  datatype NameForm = NameForm(value: string, error: string, modalOpen: bool)

  /** `addSectionName`: a blank name and a name with a space are refused
      with their messages and no request; otherwise the page is sent one
      new section under the lower-cased name, and the form resets and closes. */
  function AddSectionName(f: NameForm): (r: (NameForm, Option<Sections>))
    ensures IsBlank(f.value) ==> r == (f.(error := EmptyNameError), None)
    ensures !IsBlank(f.value) && ' ' in f.value ==> r == (f.(error := SpaceInNameError), None)
    ensures r.1.Some? <==> !IsBlank(f.value) && ' ' !in f.value
    ensures r.1.Some? ==>
      && r.0 == NameForm("", "", false)
      && r.1.value.Keys == {ToLower(f.value)}
      && r.1.value[ToLower(f.value)] == EmptySection
  {
    if Trim(f.value) == "" then (f.(error := EmptyNameError), None)
    else if ' ' in f.value then (f.(error := SpaceInNameError), None)
    else (NameForm("", "", false), Some(map[ToLower(f.value) := EmptySection]))
  }

  /** The key of an accepted section is non-empty, has no capital letter
      and no space, and is its own lower-case form. */
  lemma AcceptedSectionKey(f: NameForm)
    requires AddSectionName(f).1.Some?
    ensures var k := ToLower(f.value);
      && k != "" && ' ' !in k && ToLower(k) == k
      && forall i :: 0 <= i < |k| ==> !IsUpper(k[i])
  {
    var k := ToLower(f.value);
    ToLowerIdempotent(f.value);
    assert ' ' !in k by {
      forall i | 0 <= i < |k| ensures k[i] != ' ' {
        assert f.value[i] != ' ';
      }
    }
  }

  // ---------------------------------------------------------------------
  // Saving the content

  /** An image that is on the image host and was not replaced: a URL and a
      host id, and no file. */
  predicate IsStored(img: Image)
  {
    && img.url.Some? && img.url.value != ""
    && img.publicId.Some? && img.publicId.value != ""
    && img.file.None?
  }

  predicate IsNew(img: Image)
  {
    img.file.Some?
  }

  function UrlOf(img: Image): string
  {
    if img.url.Some? then img.url.value else ""
  }

  /** What the save sends about one removed server image. */
  datatype DeletedImage = DeletedImage(url: Option<string>, publicId: Option<string>)

  function AsDeleted(img: Image): DeletedImage
  {
    DeletedImage(img.url, img.publicId)
  }

  /** The JSON entry saved for one section. */
  datatype ContentEntry = ContentEntry(
    title: string,
    details: string,
    keepExistingImages: bool,
    existingImages: seq<string>,
    deletedImages: seq<DeletedImage>)

  /** The URLs of the stored images still present, in order. */
  function ExistingUrls(images: seq<Image>): (r: seq<string>)
    ensures forall u :: u in r <==> exists i :: 0 <= i < |images| && IsStored(images[i]) && images[i].url == Some(u)
    ensures |r| == CountWhere(images, IsStored)
    ensures IsSubsequence(r, Map(images, UrlOf))
  {
    var r := Map(Filter(images, IsStored), UrlOf);
    MapSubsequence(Filter(images, IsStored), images, UrlOf);
    assert forall u :: u in r <==> exists i :: 0 <= i < |images| && IsStored(images[i]) && images[i].url == Some(u) by {
      forall u ensures u in r <==> exists i :: 0 <= i < |images| && IsStored(images[i]) && images[i].url == Some(u) {
        MapFilterMember(images, IsStored, UrlOf, u);
      }
    }
    r
  }

  /** An original image was removed: its URL is not among the URLs still present. */
  function Removed(urls: seq<string>): Image -> bool
  {
    (img: Image) => !(img.url.Some? && img.url.value in urls)
  }

  /** The entry saved for one section, given the images the server had for it. */
  function Entry(s: Section, original: seq<Image>): (r: ContentEntry)
    ensures r.title == s.title && r.details == s.details
    ensures r.existingImages == ExistingUrls(s.images)
    ensures r.keepExistingImages <==> r.existingImages != []
    ensures forall i :: 0 <= i < |original| ==>
      (AsDeleted(original[i]) in r.deletedImages <== Removed(r.existingImages)(original[i]))
    ensures forall d :: d in r.deletedImages ==> exists i :: 0 <= i < |original| && Removed(r.existingImages)(original[i]) && d == AsDeleted(original[i])
  {
    var urls := ExistingUrls(s.images);
    var gone := Filter(original, Removed(urls));
    var r := ContentEntry(s.title, s.details, |urls| > 0, urls, Map(gone, AsDeleted));
    assert forall i :: 0 <= i < |original| && Removed(urls)(original[i]) ==> AsDeleted(original[i]) in r.deletedImages by {
      forall i | 0 <= i < |original| && Removed(urls)(original[i]) ensures AsDeleted(original[i]) in r.deletedImages {
        var j :| 0 <= j < |gone| && gone[j] == original[i];
        assert r.deletedImages[j] == AsDeleted(original[i]);
      }
    }
    assert forall d :: d in r.deletedImages ==> exists i :: 0 <= i < |original| && Removed(urls)(original[i]) && d == AsDeleted(original[i]) by {
      forall d | d in r.deletedImages
        ensures exists i :: 0 <= i < |original| && Removed(urls)(original[i]) && d == AsDeleted(original[i])
      {
        var j :| 0 <= j < |gone| && r.deletedImages[j] == d;
        assert gone[j] in original;
      }
    }
    r
  }

  /** The file of a new image (an empty file for any other image). */
  function ChosenFile(img: Image): File
  {
    if img.file.Some? then img.file.value else File("", "", 0)
  }

  /** The file field of an image, and a file as such a field. */
  function FileOf(img: Image): Option<File>
  {
    img.file
  }

  function AsFileField(f: File): Option<File>
  {
    Some(f)
  }

  /** The new files of a section, in order (`formData.append(key + "_images", file)`):
      one per new image, in image order. */
  function NewFiles(images: seq<Image>): (r: seq<File>)
    ensures forall f :: f in r <==> exists i :: 0 <= i < |images| && images[i].file == Some(f)
    ensures |r| == CountWhere(images, IsNew)
    ensures IsSubsequence(Map(r, AsFileField), Map(images, FileOf))
  {
    var r := Map(Filter(images, IsNew), ChosenFile);
    assert Map(r, AsFileField) == Map(Filter(images, IsNew), FileOf);
    MapSubsequence(Filter(images, IsNew), images, FileOf);
    assert forall f :: f in r <==> exists i :: 0 <= i < |images| && images[i].file == Some(f) by {
      forall f ensures f in r <==> exists i :: 0 <= i < |images| && images[i].file == Some(f) {
        MapFilterMember(images, IsNew, ChosenFile, f);
      }
    }
    r
  }

  /** What `addSectionContent` sends: the JSON content per section and the
      new files per section. */
  datatype ContentUpdate = ContentUpdate(content: map<string, ContentEntry>, uploads: map<string, seq<File>>)

  /** The images the server had for a section (`page.content[key].images`). */
  function Original(page: map<string, seq<Image>>, key: string): seq<Image>
  {
    if key in page then page[key] else []
  }

  /** `addSectionContent`: no request when there are no sections; otherwise
      one entry per section, and the new files of every section that has any. */
  function AddSectionContent(sections: Sections, page: map<string, seq<Image>>): (r: Option<ContentUpdate>)
    ensures r.None? <==> sections == map[]
    ensures r.Some? ==>
      && r.value.content.Keys == sections.Keys
      && (forall k :: k in sections ==> r.value.content[k] == Entry(sections[k], Original(page, k)))
      && (forall k :: k in r.value.uploads <==> k in sections && NewFiles(sections[k].images) != [])
      && (forall k :: k in r.value.uploads ==> r.value.uploads[k] == NewFiles(sections[k].images))
  {
    if sections == map[] then None
    else
      Some(ContentUpdate(
        map k | k in sections :: Entry(sections[k], Original(page, k)),
        map k | k in sections && NewFiles(sections[k].images) != [] :: NewFiles(sections[k].images)))
  }

  /** When every image is stored, the URLs still present are all their URLs. */
  lemma StoredUrls(images: seq<Image>)
    requires forall i :: 0 <= i < |images| ==> IsStored(images[i])
    ensures ExistingUrls(images) == Map(images, UrlOf)
  {
    FilterAllPass(images, IsStored);
  }

  /** The deleted images of a section's entry are the removed originals. */
  lemma EntryDeleted(s: Section, original: seq<Image>)
    ensures Entry(s, original).deletedImages == Map(Filter(original, Removed(ExistingUrls(s.images))), AsDeleted)
  {
  }

  /** Saving a section whose images are exactly the stored ones the server
      has deletes nothing and keeps them all. */
  lemma UnchangedImagesDeleteNothing(s: Section, original: seq<Image>)
    requires s.images == original
    requires forall i :: 0 <= i < |original| ==> IsStored(original[i])
    ensures Entry(s, original).deletedImages == []
    ensures |Entry(s, original).existingImages| == |original|
  {
    var urls := ExistingUrls(s.images);
    StoredUrls(s.images);
    forall i | 0 <= i < |original| ensures !Removed(urls)(original[i]) {
      assert UrlOf(original[i]) == urls[i];
    }
    FilterNonePass(original, Removed(urls));
    EntryDeleted(s, original);
  }

  /** Deleting one stored image in the editor and saving reports exactly
      that image as deleted, when the stored images have distinct URLs. */
  lemma DeletedImageIsReported(s: Section, original: seq<Image>, index: nat)
    requires s.images == original && index < |original|
    requires forall i :: 0 <= i < |original| ==> IsStored(original[i])
    requires forall i, j :: 0 <= i < j < |original| ==> original[i].url != original[j].url
    ensures Entry(s.(images := RemoveAt(original, index)), original).deletedImages == [AsDeleted(original[index])]
  {
    var kept := RemoveAt(original, index);
    StoredUrls(kept);
    var urls := Map(kept, UrlOf);
    OnlyDeletedIsRemoved(original, index);
    FilterOnly(original, index, Removed(urls));
    EntryDeleted(s.(images := kept), original);
  }

  /** With distinct URLs, the only original whose URL is missing after
      removing the image at `index` is that image. */
  lemma OnlyDeletedIsRemoved(original: seq<Image>, index: nat)
    requires index < |original|
    requires forall i :: 0 <= i < |original| ==> original[i].url.Some?
    requires forall i, j :: 0 <= i < j < |original| ==> original[i].url != original[j].url
    ensures Removed(Map(RemoveAt(original, index), UrlOf))(original[index])
    ensures forall j :: 0 <= j < |original| && j != index ==> !Removed(Map(RemoveAt(original, index), UrlOf))(original[j])
  {
    var kept := RemoveAt(original, index);
    var urls := Map(kept, UrlOf);
    forall j | 0 <= j < |original| && j != index ensures original[j].url.value in urls {
      var k := if j < index then j else j - 1;
      assert urls[k] == UrlOf(original[j]);
    }
    forall k | 0 <= k < |urls| ensures urls[k] != original[index].url.value {
      var j := if k < index then k else k + 1;
      assert urls[k] == UrlOf(original[j]);
    }
  }
}
