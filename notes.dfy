/**
 * The Markdown notes handler: a notes directory holding Markdown notes and
 * pictures, and the protocol operations on it — create or update, read,
 * delete and list notes, upload a picture, read a note by its `note://` URI,
 * and enumerate every note as a resource link.
 *
 * The directory tree is a map from the path of each file relative to the
 * notes directory to its content, plus the set of existing directories
 * ("" is the notes directory itself). A path is stored exactly as the
 * handler spells it after normalisation.
 */
module Notes {
  import opened Wrappers
  import opened Paths

  const NOTE_URI_PREFIX: string := "note://"
  const PICTURE_URI_PREFIX: string := "img://"
  const NOTE_MIME_TYPE: string := "text/markdown"
  const PICTURE_MIME_TYPE: string := "image/jpeg"

  /** The `ValueError`s the handler raises. */
  datatype Error =
    | DotDotInPath               // "Path cannot contain '..'"
    | DotDotInDirectory          // "Directory cannot contain '..'"
    | NoteMissing(path: string)  // "Note {path} does not exist"
    | DirectoryMissing(directory: string)  // "Directory {directory} does not exist"
    | UnsupportedPictureExtension

  /** A resource link result: URI, display name, description and MIME type. */
  datatype ResourceLink = ResourceLink(uri: string, name: string, description: string, mimeType: string)

  /** What reading a resource by URI returns. */
  datatype ResourceContents = ResourceContents(uri: string, mimeType: string, text: string)

  const CREATED_DESCRIPTION: string := "Created a Markdown note"
  const UPDATED_DESCRIPTION: string := "Updated a Markdown note"

  /** The link create_or_update_note returns for note path `p`. */
  function NoteLink(p: string, created: bool): (r: ResourceLink)
    ensures r.name == p && r.mimeType == NOTE_MIME_TYPE
    ensures StartsWith(r.uri, NOTE_URI_PREFIX + "/") && r.uri[|NOTE_URI_PREFIX| + 1..] == p
  {
    ResourceLink(NOTE_URI_PREFIX + "/" + p, p,
                 if created then CREATED_DESCRIPTION else UPDATED_DESCRIPTION, NOTE_MIME_TYPE)
  }

  /** The description of a note link tells a created note from an updated one. */
  lemma NoteLinkDescription(p: string, created: bool)
    ensures NoteLink(p, created).description == CREATED_DESCRIPTION <==> created
    ensures NoteLink(p, created).description == UPDATED_DESCRIPTION <==> !created
  {
    assert CREATED_DESCRIPTION[0] != UPDATED_DESCRIPTION[0];
  }

  /** The link upload_picture returns for picture path `p`. */
  function PictureLink(p: string): (r: ResourceLink)
    ensures r.name == p && r.mimeType == PICTURE_MIME_TYPE
    ensures StartsWith(r.uri, PICTURE_URI_PREFIX + "/") && r.uri[|PICTURE_URI_PREFIX| + 1..] == p
  {
    ResourceLink(PICTURE_URI_PREFIX + "/" + p, p, "Picture", PICTURE_MIME_TYPE)
  }

  /** The link list_notes returns for entry `name` of directory `d`. */
  function ListedLink(d: string, name: string): (r: ResourceLink)
    ensures r.uri == NOTE_URI_PREFIX + "/" + r.name && r.mimeType == NOTE_MIME_TYPE
    ensures StartsWith(r.name, d) && EndsWith(r.name, "/" + name)
  {
    ResourceLink(NOTE_URI_PREFIX + "/" + d + "/" + name, d + "/" + name, "Markdown note", NOTE_MIME_TYPE)
  }

  /** Python's `name[:-len(NOTE_EXTENSION)]`: everything but the last three characters, "" when shorter. */
  function DropExtension(name: string): (r: string)
    ensures StartsWith(name, r)
    ensures EndsWith(name, NOTE_EXTENSION) ==> r + NOTE_EXTENSION == name
  {
    if |name| >= |NOTE_EXTENSION| then name[..|name| - |NOTE_EXTENSION|] else ""
  }

  /** The directory `os.walk` reports for relative directory `d`: the notes directory itself, or `d` joined onto it. */
  function WalkRoot(root: string, d: string): (r: string)
    ensures !HasLeadingSlash(d) ==> StartsWith(r, root)
  {
    if d == "" then root else Join(root, d)
  }

  /** What `root[len(NotesDirectory):]` leaves of the walked directory: "" for the notes directory itself, '/' and `d` below it. */
  lemma WalkRootPath(root: string, d: string)
    requires root != "" && !EndsWith(root, "/") && !HasLeadingSlash(d)
    ensures |root| <= |WalkRoot(root, d)|
    ensures WalkRoot(root, d)[|root|..] == if d == "" then "" else "/" + d
  {
    if d != "" {
      assert WalkRoot(root, d) == root + "/" + d;
    }
  }

  /**
   * The link the resource enumeration yields for the note at relative path `k`,
   * stated through `k` alone: its URI is the prefix, two more slashes and `k`;
   * its name the file name without ".md".
   */
  function WalkLink(k: string): ResourceLink {
    ResourceLink(NOTE_URI_PREFIX + "//" + k, DropExtension(BaseName(k)), "Markdown note", NOTE_MIME_TYPE)
  }

  /** An enumeration link's URI ends in the note's path; its name is the note's file name without ".md". */
  lemma WalkLinkShape(k: string)
    ensures EndsWith(WalkLink(k).uri, k) && WalkLink(k).mimeType == NOTE_MIME_TYPE
    ensures EndsWith(k, NOTE_EXTENSION) ==> WalkLink(k).name + NOTE_EXTENSION == BaseName(k)
  {
    ExtensionOfBaseName(k);
    var u := WalkLink(k).uri;
    assert u[|u| - |k|..] == k;
  }

  /** The names `os.listdir` reports for directory `d`, given every existing path. */
  function ChildNames(entries: set<string>, d: string): (r: set<string>)
    ensures forall n :: n in r ==> '/' !in n
  {
    set e | e in entries && e != "" && Parent(e) == d :: BaseName(e)
  }

  /**
   * The file names `os.walk` reports for directory `d`. The two ensures only
   * spell out the comprehension for the walk proofs; `FileNamesAreChildren`
   * is its specification.
   */
  function FileNames(fs: map<string, string>, d: string): (r: set<string>)
    ensures forall e :: e in fs && Parent(e) == d ==> BaseName(e) in r
    ensures forall n :: n in r ==> exists e :: e in fs && Parent(e) == d && BaseName(e) == n
  {
    set e | e in fs && Parent(e) == d :: BaseName(e)
  }

  /** The list_notes filter: a Markdown file name that is not hidden. */
  predicate VisibleNote(name: string)
    ensures VisibleNote(name) ==> |name| > |NOTE_EXTENSION|
  {
    EndsWith(name, NOTE_EXTENSION) && !StartsWith(name, ".")
  }

  /** What read_note returns for `path` when the notes are `fs`. */
  function NoteLookup(fs: map<string, string>, path: string): (r: Result<string, Error>)
    ensures r.Success? <==> NormaliseNote(path).Some? && NormaliseNote(path).value in fs
    ensures r.Success? ==> r.value == fs[NormaliseNote(path).value]
    ensures r == Failure(DotDotInPath) <==> Contains(path, "..")
  {
    match NormaliseNote(path)
    case None => Failure(DotDotInPath)
    case Some(p) => if p in fs then Success(fs[p]) else Failure(NoteMissing(p))
  }

  /** The note path a `note://` URI addresses, `None` where reading it raises. */
  function UriNotePath(uri: string): (r: Option<string>)
    requires StartsWith(uri, NOTE_URI_PREFIX)
    ensures r.None? <==> Contains(uri, "..")
  {
    UriDotDot(uri);
    NormaliseNote(uri[|NOTE_URI_PREFIX|..])
  }

  /** The prefix `note://` holds no '.', so a URI contains ".." exactly when the path after the prefix does. */
  lemma UriDotDot(uri: string)
    requires StartsWith(uri, NOTE_URI_PREFIX)
    ensures Contains(uri, "..") <==> Contains(uri[|NOTE_URI_PREFIX|..], "..")
  {
    var n := |NOTE_URI_PREFIX|;
    if Contains(uri[n..], "..") {
      ContainsSuffix(uri, n, "..");
    }
    if Contains(uri, "..") {
      var i :| 0 <= i <= |uri| - 2 && OccursAt(uri, "..", i);
      assert uri[i] == '.';
      assert forall j :: 0 <= j < n ==> uri[j] == NOTE_URI_PREFIX[j];
      assert i >= n;
      OccursInSuffix(uri, n, "..", i);
    }
  }

  /** What the `note://` resource template returns for `uri`: `None` for a missing note. */
  function ResourceLookup(fs: map<string, string>, uri: string): (r: Result<Option<ResourceContents>, Error>)
    requires StartsWith(uri, NOTE_URI_PREFIX)
    ensures r.Failure? <==> Contains(uri, "..")
    ensures r.Success? && r.value.Some? ==> r.value.value.uri == uri && r.value.value.mimeType == NOTE_MIME_TYPE
  {
    match UriNotePath(uri)
    case None => Failure(DotDotInPath)
    case Some(p) =>
      if p in fs then Success(Some(ResourceContents(uri, NOTE_MIME_TYPE, fs[p]))) else Success(None)
  }

  /** A relative path as the handler can produce it: not empty and not starting with '/'. */
  predicate RelativePath(k: string) {
    k != "" && !HasLeadingSlash(k)
  }

  /**
   * The notes directory exists, no path starts with '/', and every directory
   * above an existing file or directory exists.
   */
  ghost predicate WellFormedTree(fs: map<string, string>, ds: set<string>) {
    && "" in ds
    && (forall d :: d in ds ==> !HasLeadingSlash(d) && Ancestors(d) <= ds)
    && (forall k :: k in fs ==> RelativePath(k) && Ancestors(k) <= ds)
  }

  class MarkdownNotes {
    /** The notes directory, fixed at construction. */
    const root: string
    /** Every file under the notes directory, by relative path. */
    var files: map<string, string>
    /** Every directory under the notes directory, by relative path; "" is the notes directory. */
    var dirs: set<string>

    /** The notes directory exists, and so does the directory of every file. */
    ghost predicate Valid()
      reads this
    {
      root != "" && !EndsWith(root, "/") && WellFormedTree(files, dirs)
    }

    /** The handler over an existing notes directory; `os.makedirs` creates it when missing. */
    constructor (notesDirectory: string, existingFiles: map<string, string>, existingDirs: set<string>)
      requires notesDirectory != "" && !EndsWith(notesDirectory, "/")
      requires forall d :: d in existingDirs ==> !HasLeadingSlash(d) && Ancestors(d) <= existingDirs + {""}
      requires forall k :: k in existingFiles ==> RelativePath(k) && Ancestors(k) <= existingDirs + {""}
      ensures Valid()
      ensures root == notesDirectory && files == existingFiles && dirs == existingDirs + {""}
    {
      root := notesDirectory;
      files := existingFiles;
      dirs := existingDirs + {""};
    }

    /** create_or_update_note: the note's whole content becomes `content`; its directories are created. */
    method CreateOrUpdateNote(path: string, content: string) returns (r: Result<ResourceLink, Error>)
      requires Valid()
      modifies this
      ensures Valid()
      ensures NormaliseNote(path).None? ==>
        r == Failure(DotDotInPath) && files == old(files) && dirs == old(dirs)
      ensures NormaliseNote(path).Some? ==>
        var p := NormaliseNote(path).value;
        && files == old(files)[p := content]
        && dirs == old(dirs) + Ancestors(p)
        && r == Success(NoteLink(p, p !in old(files)))
        && (r.value.description == CREATED_DESCRIPTION <==> p !in old(files))
        && (r.value.description == UPDATED_DESCRIPTION <==> p in old(files))
    {
      if Contains(path, "..") {
        return Failure(DotDotInPath);
      }
      var p := StripLeadingSlashes(path);
      if !EndsWith(p, NOTE_EXTENSION) {
        p := p + NOTE_EXTENSION;
      }
      assert p == NormaliseNote(path).value;
      WellFormedAfterWrite(files, dirs, p, content);
      var isNew := p !in files;
      files := files[p := content];
      dirs := dirs + Ancestors(p);
      NoteLinkDescription(p, isNew);
      r := Success(NoteLink(p, isNew));
    }

    /** delete_note: removes the note file and nothing else; its directories stay. */
    method DeleteNote(path: string) returns (r: Result<string, Error>)
      requires Valid()
      modifies this
      ensures Valid()
      ensures dirs == old(dirs)
      ensures NormaliseNote(path).None? ==> r == Failure(DotDotInPath) && files == old(files)
      ensures NormaliseNote(path).Some? ==>
        var p := NormaliseNote(path).value;
        if p in old(files) then r == Success("Note deleted.") && files == old(files) - {p}
        else r == Failure(NoteMissing(p)) && files == old(files)
    {
      if Contains(path, "..") {
        return Failure(DotDotInPath);
      }
      var p := StripLeadingSlashes(path);
      if !EndsWith(p, NOTE_EXTENSION) {
        p := p + NOTE_EXTENSION;
      }
      if p !in files {
        return Failure(NoteMissing(p));
      }
      files := files - {p};
      r := Success("Note deleted.");
    }

    /**
     * list_notes: one link per direct entry of the directory whose name ends in
     * ".md" and does not start with '.'. `os.listdir` gives no order, so the
     * result is a set.
     */
    method ListNotes(directory: string := "") returns (r: Result<set<ResourceLink>, Error>)
      ensures NormalisePath(directory).None? ==> r == Failure(DotDotInDirectory)
      ensures NormalisePath(directory).Some? && NormalisePath(directory).value !in dirs ==>
        r == Failure(DirectoryMissing(NormalisePath(directory).value))
      ensures NormalisePath(directory).Some? && NormalisePath(directory).value in dirs ==>
        var d := NormalisePath(directory).value;
        && r.Success?
        && (forall l :: l in r.value ==>
              exists name :: name in ChildNames(files.Keys + dirs, d) && VisibleNote(name) && l == ListedLink(d, name))
        && (forall name :: name in ChildNames(files.Keys + dirs, d) && VisibleNote(name) ==>
              ListedLink(d, name) in r.value)
    {
      if Contains(directory, "..") {
        return Failure(DotDotInDirectory);
      }
      var d := StripLeadingSlashes(directory);
      if d !in dirs {
        return Failure(DirectoryMissing(d));
      }
      var names := ChildNames(files.Keys + dirs, d);
      r := Success(set name | name in names && VisibleNote(name) :: ListedLink(d, name));
    }

    /** read_note: the content of the note, or an error when the path has ".." or no such file exists. */
    method ReadNote(path: string) returns (r: Result<string, Error>)
      ensures r == NoteLookup(files, path)
      ensures r.Success? <==> NormaliseNote(path).Some? && NormaliseNote(path).value in files
    {
      if Contains(path, "..") {
        return Failure(DotDotInPath);
      }
      var p := StripLeadingSlashes(path);
      if !EndsWith(p, NOTE_EXTENSION) {
        p := p + NOTE_EXTENSION;
      }
      if p !in files {
        return Failure(NoteMissing(p));
      }
      r := Success(files[p]);
    }

    /** upload_picture: stores the content under an allow-listed picture path, overwriting any file there. */
    method UploadPicture(path: string, content: string) returns (r: Result<ResourceLink, Error>)
      requires Valid()
      modifies this
      ensures Valid()
      ensures NormalisePath(path).None? ==>
        r == Failure(DotDotInPath) && files == old(files) && dirs == old(dirs)
      ensures NormalisePath(path).Some? && !HasPictureExtension(NormalisePath(path).value) ==>
        r == Failure(UnsupportedPictureExtension) && files == old(files) && dirs == old(dirs)
      ensures NormalisePath(path).Some? && HasPictureExtension(NormalisePath(path).value) ==>
        var p := NormalisePath(path).value;
        && files == old(files)[p := content]
        && dirs == old(dirs) + Ancestors(p)
        && r == Success(PictureLink(p))
        && r.value.mimeType == "image/jpeg"
    {
      if Contains(path, "..") {
        return Failure(DotDotInPath);
      }
      var p := StripLeadingSlashes(path);
      assert p == NormalisePath(path).value;
      if !HasPictureExtension(p) {
        return Failure(UnsupportedPictureExtension);
      }
      WellFormedAfterWrite(files, dirs, p, content);
      files := files[p := content];
      dirs := dirs + Ancestors(p);
      r := Success(PictureLink(p));
    }

    /** The `note://` resource template: the note's content, `None` when the note does not exist. */
    method ReadResource(uri: string) returns (r: Result<Option<ResourceContents>, Error>)
      requires StartsWith(uri, NOTE_URI_PREFIX)
      ensures r == ResourceLookup(files, uri)
      ensures r.Success? && r.value.Some? ==> r.value.value.uri == uri && r.value.value.mimeType == NOTE_MIME_TYPE
    {
      var path := uri[|NOTE_URI_PREFIX|..];
      if Contains(path, "..") {
        return Failure(DotDotInPath);
      }
      path := StripLeadingSlashes(path);
      if !EndsWith(path, NOTE_EXTENSION) {
        path := path + NOTE_EXTENSION;
      }
      if path !in files {
        return Success(None);
      }
      r := Success(Some(ResourceContents(uri, NOTE_MIME_TYPE, files[path])));
    }

    /**
     * The `note://` resource list: walks every directory and, in each, every
     * file, yielding one link per file ending in ".md" — every note exactly
     * once, in no promised order.
     */
    method ListResources() returns (links: seq<ResourceLink>)
      requires Valid()
      ensures forall l :: l in links <==> exists k :: k in files && EndsWith(k, NOTE_EXTENSION) && l == WalkLink(k)
      ensures forall i, j :: 0 <= i < j < |links| ==> links[i] != links[j]
    {
      links := [];
      ghost var keys: seq<string> := [];
      var pending := dirs;
      while pending != {}
        invariant pending <= dirs
        invariant WalkInvariant(files, pending, "", {}, keys, links)
        decreases pending
      {
        var d :| d in pending;
        WalkEnterDirectory(files, pending, d, keys, links);
        pending := pending - {d};
        links, keys := WalkDirectory(pending, d, keys, links);
        WalkLeaveDirectory(files, pending, d, keys, links);
      }
      WalkComplete(files, dirs, keys, links);
    }

    /**
     * One step of `os.walk`: every file of directory `d`, appending the link of
     * each one ending in ".md". Afterwards every note of `d` has been walked,
     * each once.
     */
    method WalkDirectory(ghost pending: set<string>, d: string, ghost keys0: seq<string>, links0: seq<ResourceLink>)
      returns (links: seq<ResourceLink>, ghost keys: seq<string>)
      requires Valid() && d in dirs && d !in pending
      requires WalkInvariant(files, pending, d, FileNames(files, d), keys0, links0)
      ensures WalkInvariant(files, pending, d, {}, keys, links)
    {
      links, keys := links0, keys0;
      WalkUri(root, d, "");
      var walkPath := WalkRoot(root, d)[|root|..];
      var names := FileNames(files, d);
      while names != {}
        invariant WalkInvariant(files, pending, d, names, keys, links)
        decreases names
      {
        var file :| file in names;
        ghost var k :| k in files && Parent(k) == d && BaseName(k) == file;
        WalkStep(files, pending, d, names, keys, links, k);
        ExtensionOfBaseName(k);
        names := names - {file};
        if EndsWith(file, NOTE_EXTENSION) {
          var link := WalkedLink(walkPath, file);
          WalkedLinkOfNote(root, d, file, k);
          links := links + [link];
          keys := keys + [k];
        }
      }
    }
  }

  // ---------------------------------------------------------------------------
  // Properties relating the operations

  /** After create_or_update_note, reading the note by any spelling of its path gives exactly the written content. */
  lemma ReadAfterWrite(fs: map<string, string>, path: string, alias: string, content: string)
    requires NormaliseNote(path).Some? && NormaliseNote(alias) == NormaliseNote(path)
    ensures NoteLookup(fs[NormaliseNote(path).value := content], alias) == Success(content)
  {
  }

  /** create_or_update_note changes no other note. */
  lemma WriteKeepsOtherNotes(fs: map<string, string>, path: string, other: string, content: string)
    requires NormaliseNote(path).Some? && NormaliseNote(other) != NormaliseNote(path)
    ensures NoteLookup(fs[NormaliseNote(path).value := content], other) == NoteLookup(fs, other)
  {
  }

  /** After delete_note, reading the note again fails with "does not exist". */
  lemma ReadAfterDelete(fs: map<string, string>, path: string)
    requires NormaliseNote(path).Some?
    ensures NoteLookup(fs - {NormaliseNote(path).value}, path) == Failure(NoteMissing(NormaliseNote(path).value))
  {
  }

  /** delete_note changes no other note. */
  lemma DeleteKeepsOtherNotes(fs: map<string, string>, path: string, other: string)
    requires NormaliseNote(path).Some? && NormaliseNote(other) != NormaliseNote(path)
    ensures NoteLookup(fs - {NormaliseNote(path).value}, other) == NoteLookup(fs, other)
  {
  }

  /** upload_picture never writes over a note: picture paths never end in ".md". */
  lemma UploadKeepsNotes(fs: map<string, string>, picture: string, note: string, content: string)
    requires NormalisePath(picture).Some? && HasPictureExtension(NormalisePath(picture).value)
    ensures NoteLookup(fs[NormalisePath(picture).value := content], note) == NoteLookup(fs, note)
  {
    var p := NormalisePath(picture).value;
    PictureIsNotNote(p);
    if NormaliseNote(note).Some? {
      WithNoteExtensionShape(Stripped(note));
    }
  }

  /** Reading a note through its URI agrees with read_note on the path after the prefix, except that a missing note gives `None`. */
  lemma ResourceAgreesWithRead(fs: map<string, string>, uri: string)
    requires StartsWith(uri, NOTE_URI_PREFIX)
    ensures var path := uri[|NOTE_URI_PREFIX|..];
      match NoteLookup(fs, path)
      case Success(text) => ResourceLookup(fs, uri) == Success(Some(ResourceContents(uri, NOTE_MIME_TYPE, text)))
      case Failure(NoteMissing(_)) => ResourceLookup(fs, uri) == Success(None)
      case Failure(e) => ResourceLookup(fs, uri) == Failure(e)
  {
  }

  /** The `note://` URIs whose path part is one or two slashes followed by the note path `p` resolve to `p`. */
  lemma SlashedUriResolves(p: string)
    requires !Contains(p, "..") && RelativePath(p) && EndsWith(p, NOTE_EXTENSION)
    ensures StartsWith(NOTE_URI_PREFIX + "/" + p, NOTE_URI_PREFIX)
    ensures UriNotePath(NOTE_URI_PREFIX + "/" + p) == Some(p)
    ensures StartsWith(NOTE_URI_PREFIX + "//" + p, NOTE_URI_PREFIX)
    ensures UriNotePath(NOTE_URI_PREFIX + "//" + p) == Some(p)
  {
    var u1, u2 := NOTE_URI_PREFIX + "/" + p, NOTE_URI_PREFIX + "//" + p;
    assert u1[..|NOTE_URI_PREFIX|] == NOTE_URI_PREFIX && u1[|NOTE_URI_PREFIX|..] == "/" + p;
    assert u2[..|NOTE_URI_PREFIX|] == NOTE_URI_PREFIX && u2[|NOTE_URI_PREFIX|..] == "/" + ("/" + p);
    LeadingSlashIgnored(p);
    LeadingSlashIgnored("/" + p);
    WithNoteExtensionShape(p);
  }

  /** The link create_or_update_note returns resolves back to the note it names, unless that path contains "..". */
  lemma CreatedLinkResolves(path: string, created: bool)
    requires NormaliseNote(path).Some? && !Contains(NormaliseNote(path).value, "..")
    ensures var q := NormaliseNote(path).value;
      StartsWith(NoteLink(q, created).uri, NOTE_URI_PREFIX) && UriNotePath(NoteLink(q, created).uri) == Some(q)
  {
    NoteConfined("/", path);
    SlashedUriResolves(NormaliseNote(path).value);
  }

  /**
   * A path that ends in '.' once its leading slashes are gone is accepted and
   * stored as "<path>.md", which then holds "..". The link returned for it
   * is refused when read, while the original spelling still reads the note.
   */
  lemma DotEndedNoteUnreachableByLink(fs: map<string, string>, path: string, content: string, created: bool)
    requires !Contains(path, "..") && EndsWith(Stripped(path), ".")
    ensures NormaliseNote(path) == Some(Stripped(path) + NOTE_EXTENSION)
    ensures var q := Stripped(path) + NOTE_EXTENSION;
      && Contains(q, "..")
      && StartsWith(NoteLink(q, created).uri, NOTE_URI_PREFIX)
      && UriNotePath(NoteLink(q, created).uri) == None
      && NoteLookup(fs[q := content], path) == Success(content)
      && ResourceLookup(fs[q := content], NoteLink(q, created).uri) == Failure(DotDotInPath)
  {
    DotEndedNoteStored(path);
    var q := Stripped(path) + NOTE_EXTENSION;
    var uri := NoteLink(q, created).uri;
    ContainsSuffix(uri, |NOTE_URI_PREFIX| + 1, "..");
  }

  /** The path part of a list_notes link: one slash more than the entry's path when `d` is the notes directory itself. */
  lemma ListedUriShape(d: string, name: string)
    ensures ListedLink(d, name).uri == if d == "" then NOTE_URI_PREFIX + "//" + name else NOTE_URI_PREFIX + "/" + ChildPath(d, name)
  {
  }

  /** Each link list_notes returns resolves to the listed entry's path. */
  lemma ListedLinkResolves(d: string, name: string)
    requires !HasLeadingSlash(d) && '/' !in name && EndsWith(name, NOTE_EXTENSION)
    requires !Contains(ChildPath(d, name), "..")
    ensures StartsWith(ListedLink(d, name).uri, NOTE_URI_PREFIX)
    ensures UriNotePath(ListedLink(d, name).uri) == Some(ChildPath(d, name))
  {
    var p := ChildPath(d, name);
    ListedUriShape(d, name);
    ParentOfChild(d, name);
    ExtensionOfBaseName(p);
    if d != "" {
      assert p[0] == d[0];
    }
    SlashedUriResolves(p);
  }

  /** Each link the resource enumeration yields resolves to its note. */
  lemma WalkLinkResolves(k: string)
    requires RelativePath(k) && EndsWith(k, NOTE_EXTENSION) && !Contains(k, "..")
    ensures StartsWith(WalkLink(k).uri, NOTE_URI_PREFIX)
    ensures UriNotePath(WalkLink(k).uri) == Some(k)
  {
    SlashedUriResolves(k);
  }

  /** A name is listed in `d` exactly when it has no '/' and `d` holds an entry of that name. */
  lemma ListingIsDirectChildren(entries: set<string>, d: string, name: string)
    requires forall e :: e in entries ==> !HasLeadingSlash(e)
    ensures name in ChildNames(entries, d) <==>
      '/' !in name && ChildPath(d, name) != "" && ChildPath(d, name) in entries
  {
    if name in ChildNames(entries, d) {
      var e :| e in entries && e != "" && Parent(e) == d && BaseName(e) == name;
      ParentBaseName(e);
    }
    if '/' !in name && ChildPath(d, name) != "" && ChildPath(d, name) in entries {
      ParentOfChild(d, name);
    }
  }

  // ---------------------------------------------------------------------------
  // Helpers for the walk

  /**
   * A note counts as walked once its directory has left `pending` and, when
   * that directory is the one being walked (`d`), its name has left `names`.
   */
  ghost predicate Walked(fs: map<string, string>, pending: set<string>, d: string, names: set<string>, k: string) {
    k in fs && EndsWith(k, NOTE_EXTENSION) && Parent(k) !in pending && (Parent(k) == d ==> BaseName(k) !in names)
  }

  /** `links` holds, once each, the enumeration link of exactly the walked notes; `keys` are their paths. */
  ghost predicate WalkInvariant(fs: map<string, string>, pending: set<string>, d: string, names: set<string>,
                                keys: seq<string>, links: seq<ResourceLink>) {
    && |keys| == |links|
    && (forall i :: 0 <= i < |keys| ==> links[i] == WalkLink(keys[i]) && Walked(fs, pending, d, names, keys[i]))
    && (forall k :: Walked(fs, pending, d, names, k) ==> k in keys)
    && (forall i, j :: 0 <= i < j < |keys| ==> keys[i] != keys[j])
  }

  lemma WalkEnterDirectory(fs: map<string, string>, pending: set<string>, d: string,
                           keys: seq<string>, links: seq<ResourceLink>)
    requires d in pending && WalkInvariant(fs, pending, "", {}, keys, links)
    ensures WalkInvariant(fs, pending - {d}, d, FileNames(fs, d), keys, links)
  {
    var names := FileNames(fs, d);
    forall i | 0 <= i < |keys|
      ensures Walked(fs, pending - {d}, d, names, keys[i])
    {
      assert Walked(fs, pending, "", {}, keys[i]);
    }
    forall k | Walked(fs, pending - {d}, d, names, k)
      ensures k in keys
    {
      assert Walked(fs, pending, "", {}, k);
    }
  }

  /** In a well-formed tree the directory of every file and of every directory exists, so listing it succeeds. */
  lemma ParentDirectoryExists(fs: map<string, string>, ds: set<string>, e: string)
    requires WellFormedTree(fs, ds) && (e in fs || e in ds)
    ensures Parent(e) in ds
  {
    ParentIsAncestor(e);
  }

  /** `os.walk` reports in directory `d` exactly the names without '/' of the files directly inside `d`. */
  lemma FileNamesAreChildren(fs: map<string, string>, d: string, name: string)
    requires forall e :: e in fs ==> RelativePath(e)
    ensures name in FileNames(fs, d) <==> '/' !in name && ChildPath(d, name) != "" && ChildPath(d, name) in fs
  {
    if name in FileNames(fs, d) {
      var e :| e in fs && Parent(e) == d && BaseName(e) == name;
      ParentBaseName(e);
    }
    if '/' !in name && ChildPath(d, name) != "" && ChildPath(d, name) in fs {
      ParentOfChild(d, name);
    }
  }

  /** Once every file of `d` is walked, it no longer matters which directory was being walked. */
  lemma WalkLeaveDirectory(fs: map<string, string>, pending: set<string>, d: string,
                           keys: seq<string>, links: seq<ResourceLink>)
    requires WalkInvariant(fs, pending, d, {}, keys, links)
    ensures WalkInvariant(fs, pending, "", {}, keys, links)
  {
    assert forall k :: Walked(fs, pending, d, {}, k) == Walked(fs, pending, "", {}, k);
  }

  /** Taking `file` out of `names` makes exactly one more note walked: the one at `ChildPath(d, file)`, if it is a note. */
  lemma OnlyNewlyWalked(fs: map<string, string>, pending: set<string>, d: string, names: set<string>, k: string, k0: string)
    requires RelativePath(k) && RelativePath(k0)
    requires Parent(k) == d
    requires Walked(fs, pending, d, names - {BaseName(k)}, k0) && !Walked(fs, pending, d, names, k0)
    ensures k0 == k
  {
    ParentBaseName(k);
    ParentBaseName(k0);
  }

  lemma WalkStep(fs: map<string, string>, pending: set<string>, d: string, names: set<string>,
                 keys: seq<string>, links: seq<ResourceLink>, k: string)
    requires forall e :: e in fs ==> RelativePath(e)
    requires d !in pending
    requires WalkInvariant(fs, pending, d, names, keys, links)
    requires k in fs && Parent(k) == d && BaseName(k) in names
    ensures var file := BaseName(k);
      if EndsWith(k, NOTE_EXTENSION)
      then WalkInvariant(fs, pending, d, names - {file}, keys + [k], links + [WalkLink(k)])
      else WalkInvariant(fs, pending, d, names - {file}, keys, links)
  {
    var names' := names - {BaseName(k)};
    forall k0 | Walked(fs, pending, d, names', k0) && !Walked(fs, pending, d, names, k0)
      ensures k0 == k
    {
      OnlyNewlyWalked(fs, pending, d, names, k, k0);
    }
    if EndsWith(k, NOTE_EXTENSION) {
      WalkStepNote(fs, pending, d, names, keys, links, k);
    }
  }

  lemma WalkStepNote(fs: map<string, string>, pending: set<string>, d: string, names: set<string>,
                     keys: seq<string>, links: seq<ResourceLink>, k: string)
    requires d !in pending
    requires WalkInvariant(fs, pending, d, names, keys, links)
    requires k in fs && EndsWith(k, NOTE_EXTENSION) && Parent(k) == d && BaseName(k) in names
    requires forall k0 :: Walked(fs, pending, d, names - {BaseName(k)}, k0) && !Walked(fs, pending, d, names, k0) ==> k0 == k
    ensures WalkInvariant(fs, pending, d, names - {BaseName(k)}, keys + [k], links + [WalkLink(k)])
  {
    var names' := names - {BaseName(k)};
    var keys', links' := keys + [k], links + [WalkLink(k)];
    NotYetWalked(fs, pending, d, names, keys, links, k);
    WalkedStaysWalked(fs, pending, d, names, keys, links, BaseName(k));
    forall i | 0 <= i < |keys'|
      ensures links'[i] == WalkLink(keys'[i]) && Walked(fs, pending, d, names', keys'[i])
    {
      if i < |keys| {
        assert keys'[i] == keys[i] && links'[i] == links[i];
      }
    }
    forall k0 | Walked(fs, pending, d, names', k0)
      ensures k0 in keys'
    {
      if k0 != k {
        assert k0 in keys;
      }
    }
    forall i, j | 0 <= i < j < |keys'|
      ensures keys'[i] != keys'[j]
    {
      if j < |keys| {
        assert keys'[i] == keys[i] && keys'[j] == keys[j];
      } else {
        assert keys'[i] == keys[i] && keys'[j] == k;
      }
    }
  }

  /** A note whose name is still to be visited is not among the walked keys. */
  lemma NotYetWalked(fs: map<string, string>, pending: set<string>, d: string, names: set<string>,
                     keys: seq<string>, links: seq<ResourceLink>, k: string)
    requires WalkInvariant(fs, pending, d, names, keys, links)
    requires Parent(k) == d && BaseName(k) in names
    ensures k !in keys
  {
    forall i | 0 <= i < |keys|
      ensures keys[i] != k
    {
      assert Walked(fs, pending, d, names, keys[i]);
    }
  }

  /** Whatever was walked stays walked when one more name is visited. */
  lemma WalkedStaysWalked(fs: map<string, string>, pending: set<string>, d: string, names: set<string>,
                          keys: seq<string>, links: seq<ResourceLink>, file: string)
    requires WalkInvariant(fs, pending, d, names, keys, links)
    ensures forall i :: 0 <= i < |keys| ==> Walked(fs, pending, d, names - {file}, keys[i])
  {
    forall i | 0 <= i < |keys|
      ensures Walked(fs, pending, d, names - {file}, keys[i])
    {
      assert Walked(fs, pending, d, names, keys[i]);
    }
  }

  lemma WalkComplete(fs: map<string, string>, ds: set<string>, keys: seq<string>, links: seq<ResourceLink>)
    requires WellFormedTree(fs, ds)
    requires WalkInvariant(fs, {}, "", {}, keys, links)
    ensures forall l :: l in links <==> exists k :: k in fs && EndsWith(k, NOTE_EXTENSION) && l == WalkLink(k)
    ensures forall i, j :: 0 <= i < j < |links| ==> links[i] != links[j]
  {
    forall l | l in links
      ensures exists k :: k in fs && EndsWith(k, NOTE_EXTENSION) && l == WalkLink(k)
    {
      var i :| 0 <= i < |links| && links[i] == l;
      assert Walked(fs, {}, "", {}, keys[i]);
    }
    forall k | k in fs && EndsWith(k, NOTE_EXTENSION)
      ensures WalkLink(k) in links
    {
      assert Walked(fs, {}, "", {}, k);
      var i :| 0 <= i < |keys| && keys[i] == k;
      assert links[i] == WalkLink(k);
    }
    forall i, j | 0 <= i < j < |links|
      ensures links[i] != links[j]
    {
      if links[i] == links[j] {
        WalkLinkInjective(keys[i], keys[j]);
      }
    }
  }

  /** Writing a file at a relative path, with its directories, keeps the tree well formed. */
  lemma WellFormedAfterWrite(fs: map<string, string>, ds: set<string>, p: string, content: string)
    requires WellFormedTree(fs, ds) && RelativePath(p)
    ensures WellFormedTree(fs[p := content], ds + Ancestors(p))
  {
    forall d | d in Ancestors(p)
      ensures !HasLeadingSlash(d) && Ancestors(d) <= ds + Ancestors(p)
    {
      AncestorsClosed(p, d);
      if d != "" {
        var i :| 0 <= i < |p| && p[i] == '/' && d == p[..i];
        assert d[0] == p[0];
      }
    }
  }

  /** The link the walk spells out for `file`, found in a directory `walkPath` below the notes directory. */
  function WalkedLink(walkPath: string, file: string): ResourceLink {
    ResourceLink(NOTE_URI_PREFIX + "/" + walkPath + "/" + file, DropExtension(file), "Markdown note", NOTE_MIME_TYPE)
  }

  /** The link spelled out for `file` has a URI ending in '/' and `file`, and is named by `file` without ".md". */
  lemma WalkedLinkShape(walkPath: string, file: string)
    ensures EndsWith(WalkedLink(walkPath, file).uri, "/" + file) && WalkedLink(walkPath, file).mimeType == NOTE_MIME_TYPE
    ensures EndsWith(file, NOTE_EXTENSION) ==> WalkedLink(walkPath, file).name + NOTE_EXTENSION == file
  {
    var u := WalkedLink(walkPath, file).uri;
    assert u == (NOTE_URI_PREFIX + "/" + walkPath) + ("/" + file);
    assert u[|u| - |"/" + file|..] == "/" + file;
  }

  /** The link spelled out while walking directory `d` is the enumeration link of the note `k` found there. */
  lemma WalkedLinkOfNote(root: string, d: string, file: string, k: string)
    requires root != "" && !EndsWith(root, "/") && !HasLeadingSlash(d)
    requires RelativePath(k) && Parent(k) == d && BaseName(k) == file
    ensures |root| <= |WalkRoot(root, d)|
    ensures WalkedLink(WalkRoot(root, d)[|root|..], file) == WalkLink(k)
  {
    WalkUri(root, d, file);
    ParentBaseName(k);
  }

  /** Distinct notes get distinct links from the enumeration. */
  lemma WalkLinkInjective(a: string, b: string)
    requires WalkLink(a) == WalkLink(b)
    ensures a == b
  {
    var n := |NOTE_URI_PREFIX + "//"|;
    assert a == WalkLink(a).uri[n..];
    assert b == WalkLink(b).uri[n..];
  }

  /**
   * The URI the handler spells out while walking — the prefix, '/', the walked
   * directory less the notes directory, '/', the file name — is the prefix,
   * two slashes and the note's relative path, at the top level as deeper down.
   */
  lemma WalkUri(root: string, d: string, file: string)
    requires root != "" && !EndsWith(root, "/") && !HasLeadingSlash(d)
    ensures |root| <= |WalkRoot(root, d)|
    ensures NOTE_URI_PREFIX + "/" + WalkRoot(root, d)[|root|..] + "/" + file
         == NOTE_URI_PREFIX + "//" + ChildPath(d, file)
  {
    WalkRootPath(root, d);
  }
}
