# Markdown notes store: a Dafny model

This project models the Markdown notes handler of the ASAB MCP server
(`asabmcp/markdown_notes/handler_mcp.py`). The handler keeps Markdown notes,
and pictures beside them, in a notes directory on disk. It offers MCP tools to:

- create or update a note;
- delete a note;
- list the notes of one directory;
- read a note;
- upload a picture.

It also offers a `note://` resource template, which reads a note by URI, and a
resource list, which enumerates every note under the notes directory.

Every entry point cleans up the path it is given in the same way:

1. It refuses any path that contains the substring `..` anywhere.
2. It strips every leading `/`.
3. For notes only, it appends `.md` when the path does not already end in it.
4. It joins the result to the notes directory.

The project has three modules:

- `Wrappers` holds the `Option` and `Result` values.
- `Paths` holds the path logic:
  - the `..` check, as the substring test `Contains`;
  - the leading-slash loop, as the method `StripLeadingSlashes`, proved against the function `Stripped`;
  - the note and picture normalisations `NormaliseNote` and `NormalisePath`;
  - `os.path.join` as `Join`;
  - lexical path resolution (`Segments`, `Climb`, `StaysUnderRoot`), used to state what the `..` check guarantees;
  - `os.path.dirname` and `os.path.basename` for relative paths (`Parent`, `BaseName`).
- `Notes` holds the store, as the class `MarkdownNotes`. Its fields are:
  - `root`, the configured notes directory;
  - `files`, a map from a path relative to `root` to that file's content (notes and pictures alike);
  - `dirs`, the set of existing directories, with `""` standing for the notes directory itself.

  Each tool is a method of the class. A failing tool returns `Failure(e)`, where `e` says which `ValueError` the handler raises.

The store invariant `Valid()` requires four things:

- the notes directory exists;
- no stored path or directory starts with `/`;
- every file's directories exist, because writes call `os.makedirs`;
- every directory's own parent directories exist, as on any file system.

Points worth knowing about the handler's behaviour:

- **Confinement.** A common way to confine paths is to resolve the path to a
  canonical one and check that it still starts with the notes directory. The
  handler does not do this. It rejects any path containing `..` as a
  substring, and the model has exactly that check. `NoteConfined` and
  `PathConfined` prove that every accepted path, resolved lexically (segment
  by segment, without consulting the file system), stays under the notes
  directory. `HarmlessNameRejected` shows that the check also refuses names
  such as `a..b.md`, which resolution would have accepted.
- **Picture MIME type.** `upload_picture` always reports `image/jpeg`,
  whatever the extension.
- **Resource names.** Each resource list entry is named by its bare file name
  without `.md`, not by its path.
- **Listing.** `list_notes` neither sorts its result, nor reports
  subdirectories separately, nor adds a summary text. It returns one link per
  visible `.md` entry of the directory, in directory order.

## Model

| member | source | states |
|---|---|---|
| Paths.Stripped | asabmcp/markdown_notes/handler_mcp.py:61-62 | what stripping the leading slashes leaves: a suffix of the input, every character removed is '/', and the result does not start with '/' |
| Paths.StripLeadingSlashes | asabmcp/markdown_notes/handler_mcp.py:61-62 | the `while path.startswith('/')` loop returns exactly `Stripped(path)` |
| Paths.ContainsStripped | asabmcp/markdown_notes/handler_mcp.py:58-62 | stripping leading slashes neither creates nor removes a `..`, so checking before stripping is the same as checking after |
| Paths.LeadingSlashIgnored | asabmcp/markdown_notes/handler_mcp.py:58-65 | a path with one more leading '/' normalises to the same note path and the same plain path |
| Paths.WithNoteExtensionShape | asabmcp/markdown_notes/handler_mcp.py:64-65 | the note path always ends in `.md`, keeps the absence of a leading '/', and is unchanged when it already ends in `.md` |
| Paths.ExtensionOptional | asabmcp/markdown_notes/handler_mcp.py:64-65 | writing a note path with or without its `.md` addresses the same note, except when the path ends in '.' (then `a.` becomes `a..md`, which contains `..`) |
| Paths.NormaliseNoteIdempotent | asabmcp/markdown_notes/handler_mcp.py:58-65 | normalising an already normalised note path changes nothing, unless it now contains `..` |
| Paths.StrippedAppend | asabmcp/markdown_notes/handler_mcp.py:61-62 | stripping only touches the front: appending text that does not start with '/' commutes with stripping |
| Paths.ContainsAppend | asabmcp/markdown_notes/handler_mcp.py:58 | a path that contains `..` still contains it after a suffix is appended |
| Paths.ContainsSuffix | asabmcp/markdown_notes/handler_mcp.py:58 | a `..` in any suffix of a path is a `..` in the path |
| Paths.DotDotAfterSlash | asabmcp/markdown_notes/handler_mcp.py:58 | a `..` in "/" + p lies inside p |
| Paths.DotDotSegmentInPath | asabmcp/markdown_notes/handler_mcp.py:58-59 | a path with a `..` segment contains the substring `..`, so the check rejects it |
| Paths.SegmentsWithoutSlash | asabmcp/markdown_notes/handler_mcp.py:67 | a name without '/' is a single path segment |
| Paths.SegmentsAppend | asabmcp/markdown_notes/handler_mcp.py:64-67 | appending text without '/' leaves every segment but the last unchanged and appends the text to the last one |
| Paths.ClimbWithoutDotDot | asabmcp/markdown_notes/handler_mcp.py:67 | resolving segments none of which is `..` never climbs above the starting directory |
| Paths.ConfinedWithoutDotDot | asabmcp/markdown_notes/handler_mcp.py:58-62 | a path without `..` has no `..` segment and stays under the root once resolved |
| Paths.ConfinedWithNoteExtension | asabmcp/markdown_notes/handler_mcp.py:58-67 | the same holds after `.md` is appended |
| Paths.JoinRelative | asabmcp/markdown_notes/handler_mcp.py:67 | joining a path without a leading '/' to the notes directory concatenates them with one separator |
| Paths.PathConfined | asabmcp/markdown_notes/handler_mcp.py:210-219 | an accepted directory or picture path has no leading '/' and no `..` segment, stays under the notes directory, and joins below it |
| Paths.NoteConfined | asabmcp/markdown_notes/handler_mcp.py:58-67 | an accepted note path additionally ends in `.md`, and its join cannot escape the notes directory |
| Paths.HarmlessNameRejected | asabmcp/markdown_notes/handler_mcp.py:58-59 | the substring check is stricter than confinement: `a..b.md` stays under the root yet is refused |
| Paths.PictureIsNotNote | asabmcp/markdown_notes/handler_mcp.py:16 | no supported picture extension makes a path end in `.md` |
| Paths.Parent | asabmcp/markdown_notes/handler_mcp.py:68 | the directory part of a relative path: everything before its last '/', and "" when it has no '/'; unlike `os.path.dirname` it keeps a repeated separator (`a//b.md` gives `a/`) |
| Paths.BaseName | asabmcp/markdown_notes/handler_mcp.py:274-278 | the file name part: a suffix without '/', preceded by '/' when shorter than the path |
| Paths.ParentBaseName | asabmcp/markdown_notes/handler_mcp.py:273-278 | a path is its directory joined with its file name, and its directory is the notes directory exactly when it has no '/' |
| Paths.SplitAtSlash | asabmcp/markdown_notes/handler_mcp.py:278 | a path cut at a '/' and glued back with '/' is the same path |
| Paths.ParentIsLastSlash | asabmcp/markdown_notes/handler_mcp.py:273-278 | the directory and file name of a path are split at its last '/' |
| Paths.ExtensionOfBaseName | asabmcp/markdown_notes/handler_mcp.py:275 | a path ends in `.md` exactly when its file name does |
| Paths.ParentOfChild | asabmcp/markdown_notes/handler_mcp.py:152-156 | entry `name` of directory `d` has `d` as its directory and `name` as its file name |
| Paths.WithNoteExtension | asabmcp/markdown_notes/handler_mcp.py:64-65 | the input itself when it already ends in `.md`, and otherwise the input followed by the whole `.md` (so `a.` gives `a..md`) |
| Paths.NormaliseNote | asabmcp/markdown_notes/handler_mcp.py:58-65 | the note path is refused exactly when the input contains `..`; an accepted one is the input with its leading slashes removed and `.md` added unless already present, so it ends in `.md` and does not start with '/' |
| Paths.NormalisePath | asabmcp/markdown_notes/handler_mcp.py:140-144 | the directory or picture path is refused exactly when the input contains `..`; an accepted one is the input with exactly its leading slashes removed: a suffix of the input, not starting with '/', preceded only by '/' |
| Paths.HasPictureExtension | asabmcp/markdown_notes/handler_mcp.py:216 | a path is accepted as a picture exactly when it ends in `.jpg`, `.png`, `.jpeg` or `.gif` |
| Paths.Join | asabmcp/markdown_notes/handler_mcp.py:67 | `os.path.join` of two parts: the second part alone when it starts with '/', otherwise the first part, at most one '/', then the second part |
| Paths.Ancestors | asabmcp/markdown_notes/handler_mcp.py:68 | the directories `os.makedirs` creates for a file always include the notes directory itself |
| Paths.AncestorsAreDirectoryPrefixes | asabmcp/markdown_notes/handler_mcp.py:68 | and nothing else: a directory is among them exactly when it is the notes directory or a prefix of the path cut just before a '/' |
| Paths.AncestorsClosed | asabmcp/markdown_notes/handler_mcp.py:68 | the directories created for any of them are among the directories created for the file |
| Paths.DotDotAfterSlashes | asabmcp/markdown_notes/handler_mcp.py:58-62 | a `..` in a path that starts with slashes lies after those slashes |
| Paths.SegmentsAppendStep | asabmcp/markdown_notes/handler_mcp.py:64-67 | one character more in front of the path keeps the `SegmentsAppend` relation |
| Paths.SegmentsAppendAfterSlash | asabmcp/markdown_notes/handler_mcp.py:64-67 | the same when that character is '/', which opens a new segment |
| Paths.SegmentsAppendAfterChar | asabmcp/markdown_notes/handler_mcp.py:64-67 | the same when that character joins the first segment |
| Paths.SegmentsAfterChar | asabmcp/markdown_notes/handler_mcp.py:64-67 | a leading character other than '/' joins the first segment and leaves the others |
| Paths.LastExtendedNoDotDot | asabmcp/markdown_notes/handler_mcp.py:64-67 | appending `.md` to the last segment cannot create a `..` segment |
| Paths.ParentIsAncestor | asabmcp/markdown_notes/handler_mcp.py:68 | the directory of a written file is one of the directories `os.makedirs` creates |
| Notes.FileNamesAreChildren | asabmcp/markdown_notes/handler_mcp.py:273-274 | a name is among the files `os.walk` reports for directory `d` exactly when it has no '/', and `d` joined with it is a stored path |
| Notes.NoteLink | asabmcp/markdown_notes/handler_mcp.py:79-84 | the link create_or_update_note returns is named by the note path, carries `text/markdown`, and its URI is `note:///` followed by the note path |
| Notes.NoteLinkDescription | asabmcp/markdown_notes/handler_mcp.py:82 | the description is "Created…" exactly when the note is new and "Updated…" exactly when it existed |
| Notes.PictureLink | asabmcp/markdown_notes/handler_mcp.py:225-230 | the link upload_picture returns is named by the picture path, carries `image/jpeg`, and its URI is `img:///` followed by the picture path |
| Notes.ListedLink | asabmcp/markdown_notes/handler_mcp.py:151-155 | a list_notes link's URI is `note:///` followed by its name, and its name is the directory, '/', and the entry's file name |
| Notes.VisibleNote | asabmcp/markdown_notes/handler_mcp.py:156 | an entry passes the list_notes filter only when its name is longer than `.md` |
| Notes.ChildNames | asabmcp/markdown_notes/handler_mcp.py:156 | the names `os.listdir` reports are plain names without '/' |
| Notes.DropExtension | asabmcp/markdown_notes/handler_mcp.py:279 | `file[:-3]` is a prefix of the file name and, for a name ending in `.md`, is that name without `.md` |
| Notes.WalkLinkShape | asabmcp/markdown_notes/handler_mcp.py:277-282 | an enumeration link's URI ends in the note's path, and its name is the note's file name without `.md` |
| Notes.WalkedLinkShape | asabmcp/markdown_notes/handler_mcp.py:276-282 | the link spelled out for `file` has a URI ending in '/' and `file`, and a name that is `file` without `.md` |
| Notes.NoteLookup | asabmcp/markdown_notes/handler_mcp.py:171-188 | reading succeeds exactly when the normalised path exists, returns that note's content, and fails for `..` exactly when the path contains `..` |
| Notes.UriNotePath | asabmcp/markdown_notes/handler_mcp.py:245-254 | the path taken from a `note://` URI is refused exactly when the URI contains `..` |
| Notes.UriDotDot | asabmcp/markdown_notes/handler_mcp.py:246-247 | since `note://` holds no '.', a URI contains `..` exactly when its path part does |
| Notes.ResourceLookup | asabmcp/markdown_notes/handler_mcp.py:245-268 | reading a resource fails exactly when its URI contains `..`; found contents carry the requested URI and `text/markdown` |
| Notes.ParentDirectoryExists | asabmcp/markdown_notes/handler_mcp.py:68 | in a well-formed store, the directory of every file and every directory exists |
| Notes.MarkdownNotes.WalkDirectory | asabmcp/markdown_notes/handler_mcp.py:274-282 | one `os.walk` step: the links for the `.md` files of one directory are added, and the enumeration invariant holds again |
| Notes.WalkEnterDirectory | asabmcp/markdown_notes/handler_mcp.py:273-274 | taking a pending directory up keeps the enumeration invariant, with all its files still to visit |
| Notes.WalkLeaveDirectory | asabmcp/markdown_notes/handler_mcp.py:273-274 | a directory whose files are all visited can be left without breaking the invariant |
| Notes.MarkdownNotes.constructor | asabmcp/markdown_notes/handler_mcp.py:24-26 | the store opens on the configured notes directory, which exists afterwards |
| Notes.MarkdownNotes.CreateOrUpdateNote | asabmcp/markdown_notes/handler_mcp.py:57-84 | rejects `..` with no change; otherwise writes the content under the normalised path, creates its directories, and returns the `note:///<path>` link described "Created…" exactly when the note did not exist and "Updated…" exactly when it did |
| Notes.MarkdownNotes.DeleteNote | asabmcp/markdown_notes/handler_mcp.py:102-120 | rejects `..`; deletes an existing note and returns "Note deleted."; fails with "does not exist" otherwise; never changes directories or other files |
| Notes.MarkdownNotes.ListNotes | asabmcp/markdown_notes/handler_mcp.py:139-157 | rejects `..`; fails for a directory that does not exist; otherwise returns one link per entry of the directory that ends in `.md` and does not start with '.', and nothing else |
| Notes.MarkdownNotes.ReadNote | asabmcp/markdown_notes/handler_mcp.py:171-188 | returns the stored content of the normalised path; succeeds exactly when the path has no `..` and the note exists |
| Notes.MarkdownNotes.UploadPicture | asabmcp/markdown_notes/handler_mcp.py:209-230 | rejects `..` and any path without a supported picture extension, with no change; otherwise writes the picture, creates its directories and returns the `img:///<path>` link with MIME type `image/jpeg` |
| Notes.MarkdownNotes.ReadResource | asabmcp/markdown_notes/handler_mcp.py:240-268 | reads the note named after the `note://` prefix; `None` for a missing note; the contents carry the requested URI and `text/markdown` |
| Notes.MarkdownNotes.ListResources | asabmcp/markdown_notes/handler_mcp.py:271-283 | the walk yields one link per stored `.md` file, hidden ones included, and no link twice |
| Notes.ReadAfterWrite | asabmcp/markdown_notes/handler_mcp.py:57-84 | after a write, reading any spelling of the same path returns exactly the written content |
| Notes.WriteKeepsOtherNotes | asabmcp/markdown_notes/handler_mcp.py:67-72 | a write changes what no other path reads |
| Notes.ReadAfterDelete | asabmcp/markdown_notes/handler_mcp.py:113-116 | after a delete, reading the note fails with "does not exist" |
| Notes.DeleteKeepsOtherNotes | asabmcp/markdown_notes/handler_mcp.py:112-116 | a delete changes what no other path reads |
| Notes.UploadKeepsNotes | asabmcp/markdown_notes/handler_mcp.py:216-223 | uploading a picture never changes what any note path reads |
| Notes.ResourceAgreesWithRead | asabmcp/markdown_notes/handler_mcp.py:246-268 | reading `note://<path>` agrees with read_note on `<path>`, except that a missing note gives `None` instead of an error |
| Notes.SlashedUriResolves | asabmcp/markdown_notes/handler_mcp.py:246-254 | a `note://` URI whose path part is one or two slashes before a note path resolves to that note |
| Notes.CreatedLinkResolves | asabmcp/markdown_notes/handler_mcp.py:80 | the link create_or_update_note returns reads back the note it wrote, whenever the stored path has no `..` |
| Paths.DotEndedNoteStored | asabmcp/markdown_notes/handler_mcp.py:58-65 | an accepted path that ends in '.' once its leading slashes are gone is stored with `.md` appended, and the stored path contains `..` |
| Notes.DotEndedNoteUnreachableByLink | asabmcp/markdown_notes/handler_mcp.py:57-84 | for every accepted path ending in '.' after its leading slashes (such as `a.`, stored as `a..md`): the note reads back under the written spelling, but the link create_or_update_note returns for it is refused when read, for containing `..` |
| Notes.ListedLinkResolves | asabmcp/markdown_notes/handler_mcp.py:152 | each list_notes link resolves to the listed entry's path, whenever that path has no `..` |
| Notes.ListedUriShape | asabmcp/markdown_notes/handler_mcp.py:152 | the listed URI has one slash more when the notes directory itself is listed |
| Notes.WalkLinkResolves | asabmcp/markdown_notes/handler_mcp.py:276-278 | each enumerated resource link resolves to its note, whenever the note's path has no `..` |
| Notes.ListingIsDirectChildren | asabmcp/markdown_notes/handler_mcp.py:147-156 | a name is listed in a directory exactly when it has no '/' and the directory holds an entry of that name |
| Notes.WalkedLinkOfNote | asabmcp/markdown_notes/handler_mcp.py:276-282 | the link spelled out while walking a directory is the enumeration link of the note found there, named by its file name without `.md` |
| Notes.WalkRoot | asabmcp/markdown_notes/handler_mcp.py:273 | the directory `os.walk` reports always starts with the notes directory |
| Notes.WalkRootPath | asabmcp/markdown_notes/handler_mcp.py:276 | `root[len(NotesDirectory):]` is "" for the notes directory itself and '/' followed by the relative directory below it |
| Notes.WalkUri | asabmcp/markdown_notes/handler_mcp.py:276-278 | the URI built from the walked directory and the file name is `note:////` followed by the note's relative path |
| Notes.WalkLinkInjective | asabmcp/markdown_notes/handler_mcp.py:277-282 | different notes give different resource links |
| Notes.WellFormedAfterWrite | asabmcp/markdown_notes/handler_mcp.py:67-72 | writing a relative path and creating its directories keeps every file's directories existing |

## Left out

- The operating system's path equivalences are not modelled. `a//b.md`, `./a.md` and `a/` are different keys in the model, although the file system treats them as the same file or directory.
- Clashes between files and directories are not modelled. The model raises no error when a note path names an existing directory, or when `os.makedirs` meets a file.
- The notes directory is assumed non-empty and not ending in '/'. This only affects the URIs the resource list builds from it.
- Error messages are modelled as `Error` values, not their texts. The unsupported-extension message prints a Python set, whose order is unspecified.
- Logging, reading the configuration, MCP tool registration and `async` scheduling are not modelled. They do not change the store.
- Text and binary encodings of file contents are not modelled. Contents are strings.
- Notes.MarkdownNotes.ListNotes: returns a set, because the order of `os.listdir` is unspecified. The list's order is therefore not captured.
- Notes.MarkdownNotes.ListResources: the walk visits directories and files in an arbitrary order, so the model states the set of links, not their order.
- A directory's own name is never filtered: `os.listdir` includes subdirectories ending in `.md`, and the model lists them too.
- Symbolic links are not modelled. Confinement is proved for lexical resolution; a symbolic link inside the notes directory could still lead outside it.
- Notes.MarkdownNotes.ReadResource: requires a URI starting with `note://`, which stands for the handler's `assert`; the `AssertionError` raised for any other URI is not modelled.
- Files outside the handler's control (created, removed or changed concurrently) are not modelled.
