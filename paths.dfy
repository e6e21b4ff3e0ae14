/**
 * Path handling of the Markdown notes handler: the `..` test, the removal of
 * leading slashes, the `.md` suffix, `os.path.join` onto the notes directory,
 * and the parent/base-name split that directory listings and the tree walk
 * rely on. Paths are plain strings; nothing here touches a file system.
 */
module Paths {
  import opened Wrappers

  const NOTE_EXTENSION: string := ".md"
  const PICTURE_EXTENSIONS: set<string> := {".jpg", ".png", ".jpeg", ".gif"}

  predicate StartsWith(s: string, prefix: string) {
    |prefix| <= |s| && s[..|prefix|] == prefix
  }

  predicate EndsWith(s: string, suffix: string) {
    |suffix| <= |s| && s[|s| - |suffix|..] == suffix
  }

  /** `sub` occurs in `s` starting at index `i`. */
  predicate OccursAt(s: string, sub: string, i: int) {
    0 <= i <= |s| - |sub| && s[i..i + |sub|] == sub
  }

  /** Python's `sub in s`: `sub` occurs somewhere in `s`. */
  predicate Contains(s: string, sub: string) {
    exists i :: 0 <= i <= |s| - |sub| && OccursAt(s, sub, i)
  }

  /** Python's `s.startswith('/')`. */
  predicate HasLeadingSlash(s: string) {
    |s| > 0 && s[0] == '/'
  }

  /** `path` with every leading '/' removed: what the handler's `while path.startswith('/')` loop leaves. */
  function Stripped(s: string): (r: string)
    ensures |r| <= |s| && r == s[|s| - |r|..]
    ensures forall i :: 0 <= i < |s| - |r| ==> s[i] == '/'
    ensures !HasLeadingSlash(r)
  {
    if HasLeadingSlash(s) then Stripped(s[1..]) else s
  }

  /** The handler's loop, one character at a time. */
  method StripLeadingSlashes(path: string) returns (p: string)
    ensures p == Stripped(path)
  {
    p := path;
    while HasLeadingSlash(p)
      invariant Stripped(p) == Stripped(path)
      decreases |p|
    {
      p := p[1..];
    }
  }

  /** Appends `.md` unless the path already ends with it. */
  function WithNoteExtension(p: string): (r: string)
    ensures EndsWith(r, NOTE_EXTENSION)
    ensures StartsWith(r, p) && |r| <= |p| + |NOTE_EXTENSION|
    ensures r == p <==> EndsWith(p, NOTE_EXTENSION)
    ensures !EndsWith(p, NOTE_EXTENSION) ==> |r| == |p| + |NOTE_EXTENSION|
  {
    if EndsWith(p, NOTE_EXTENSION) then p
    else
      var r := p + NOTE_EXTENSION;
      assert r[..|p|] == p && r[|r| - |NOTE_EXTENSION|..] == NOTE_EXTENSION;
      r
  }

  /** The note path an entry point works on, or `None` where it raises "Path cannot contain '..'". */
  function NormaliseNote(path: string): (r: Option<string>)
    ensures r.None? <==> Contains(path, "..")
    ensures r.Some? ==> EndsWith(r.value, NOTE_EXTENSION) && !HasLeadingSlash(r.value)
    ensures r.Some? ==> r.value == WithNoteExtension(Stripped(path))
  {
    if Contains(path, "..") then None
    else
      WithNoteExtensionShape(Stripped(path));
      Some(WithNoteExtension(Stripped(path)))
  }

  /** The same without the suffix: directories (list_notes) and pictures (upload_picture). */
  function NormalisePath(path: string): (r: Option<string>)
    ensures r.None? <==> Contains(path, "..")
    ensures r.Some? ==> !HasLeadingSlash(r.value) && EndsWith(path, r.value)
    ensures r.Some? ==> forall i :: 0 <= i < |path| - |r.value| ==> path[i] == '/'
  {
    if Contains(path, "..") then None else Some(Stripped(path))
  }

  /** `any(path.endswith(ext) for ext in PICTURE_EXTENSIONS)`, case-sensitive. */
  function HasPictureExtension(p: string): (b: bool)
    ensures b <==> EndsWith(p, ".jpg") || EndsWith(p, ".png") || EndsWith(p, ".jpeg") || EndsWith(p, ".gif")
  {
    assert ".jpg" in PICTURE_EXTENSIONS && ".png" in PICTURE_EXTENSIONS;
    assert ".jpeg" in PICTURE_EXTENSIONS && ".gif" in PICTURE_EXTENSIONS;
    exists ext :: ext in PICTURE_EXTENSIONS && EndsWith(p, ext)
  }

  /** POSIX `os.path.join(a, b)`: an absolute `b` replaces `a`; otherwise one '/' separates them. */
  function Join(a: string, b: string): (r: string)
    ensures HasLeadingSlash(b) ==> r == b
    ensures !HasLeadingSlash(b) ==> StartsWith(r, a) && EndsWith(r, b) && |a| + |b| <= |r| <= |a| + |b| + 1
    ensures !HasLeadingSlash(b) && |r| == |a| + |b| + 1 ==> r[|a|] == '/'
  {
    if HasLeadingSlash(b) then b
    else if a == "" || EndsWith(a, "/") then
      var r := a + b;
      assert r[..|a|] == a && r[|r| - |b|..] == b;
      r
    else
      var r := a + "/" + b;
      assert r[..|a|] == a && r[|r| - |b|..] == b && r[|a|] == '/';
      r
  }

  /** The path split at every '/' (Python's `p.split('/')`); never empty. */
  function Segments(s: string): (r: seq<string>)
    ensures |r| >= 1
    ensures |r[0]| <= |s| && r[0] == s[..|r[0]|]
  {
    if s == [] then [""]
    else
      var rest := Segments(s[1..]);
      if s[0] == '/' then [""] + rest
      else [[s[0]] + rest[0]] + rest[1..]
  }

  /**
   * Lexical resolution of `segs` starting `depth` directories below the root:
   * "" and "." stay, ".." goes up one, any other name goes down one.
   * `None` when a ".." would go above the root.
   */
  function Climb(depth: nat, segs: seq<string>): Option<nat>
    decreases |segs|
  {
    if segs == [] then Some(depth)
    else if segs[0] == ".." then
      if depth == 0 then None else Climb(depth - 1, segs[1..])
    else if segs[0] == "" || segs[0] == "." then Climb(depth, segs[1..])
    else Climb(depth + 1, segs[1..])
  }

  /** Joined onto a directory, `p` names something at or below that directory, read lexically. */
  predicate StaysUnderRoot(p: string) {
    Climb(0, Segments(p)).Some?
  }

  /** The directory part of a path (everything before its last '/'), "" when it has none. */
  function Parent(k: string): (r: string)
    ensures r == "" || (|r| < |k| && r == k[..|r|] && k[|r|] == '/')
    ensures '/' !in k ==> r == ""
  {
    if k == [] then []
    else if k[|k| - 1] == '/' then k[..|k| - 1]
    else Parent(k[..|k| - 1])
  }

  /** The last segment of a path (everything after its last '/'). */
  function BaseName(k: string): (r: string)
    ensures '/' !in r
    ensures |r| <= |k| && r == k[|k| - |r|..]
    ensures |r| < |k| ==> k[|k| - |r| - 1] == '/'
    ensures '/' in k ==> |r| < |k|
  {
    if k == [] then []
    else if k[|k| - 1] == '/' then []
    else
      assert '/' in k ==> '/' in k[..|k| - 1];
      BaseName(k[..|k| - 1]) + [k[|k| - 1]]
  }

  /** The relative path of entry `name` of directory `d`, "" being the root. */
  function ChildPath(d: string, name: string): string {
    if d == "" then name else d + "/" + name
  }

  /** The directories `os.makedirs(os.path.dirname(root/p))` leaves in place: the root and every prefix of `p` that ends just before a '/'. */
  function Ancestors(p: string): (r: set<string>)
    ensures "" in r
  {
    {""} + set i | 0 <= i < |p| && p[i] == '/' :: p[..i]
  }

  /** `os.makedirs` creates nothing else: the directories left in place are exactly the root and the prefixes of `p` cut just before a '/'. */
  lemma AncestorsAreDirectoryPrefixes(p: string, a: string)
    ensures a in Ancestors(p) <==> a == "" || (|a| < |p| && p[..|a|] == a && p[|a|] == '/')
  {
    if a != "" && |a| < |p| && p[..|a|] == a && p[|a|] == '/' {
      assert a == p[..|a|];
    }
  }

  // ---------------------------------------------------------------------------
  // Properties of the normalisation

  lemma {:induction false} StrippedAppend(p: string, x: string)
    requires !HasLeadingSlash(x)
    ensures Stripped(p + x) == Stripped(p) + x
    decreases |p|
  {
    if HasLeadingSlash(p) {
      assert (p + x)[1..] == p[1..] + x;
      StrippedAppend(p[1..], x);
    } else if p == [] {
      assert p + x == x;
    } else {
      assert (p + x)[0] == p[0];
    }
  }

  lemma ContainsAppend(p: string, x: string, sub: string)
    requires Contains(p, sub)
    ensures Contains(p + x, sub)
  {
    var i :| 0 <= i <= |p| - |sub| && OccursAt(p, sub, i);
    assert (p + x)[i..i + |sub|] == p[i..i + |sub|];
    assert OccursAt(p + x, sub, i);
  }

  lemma ContainsSuffix(s: string, n: nat, sub: string)
    requires n <= |s| && Contains(s[n..], sub)
    ensures Contains(s, sub)
  {
    var i :| 0 <= i <= |s[n..]| - |sub| && OccursAt(s[n..], sub, i);
    assert s[n + i..n + i + |sub|] == s[n..][i..i + |sub|];
    assert OccursAt(s, sub, n + i);
  }

  /** An occurrence at or after position `n` is an occurrence in the suffix from `n`. */
  lemma OccursInSuffix(s: string, n: nat, sub: string, i: nat)
    requires n <= i <= |s| - |sub| && OccursAt(s, sub, i)
    ensures OccursAt(s[n..], sub, i - n)
  {
    assert s[n..][i - n..i - n + |sub|] == s[i..i + |sub|];
  }

  /** A ".." in a path that starts with '/' lies after that '/'. */
  lemma DotDotAfterSlash(p: string)
    requires Contains("/" + p, "..")
    ensures Contains(p, "..")
  {
    var s := "/" + p;
    var i :| 0 <= i <= |s| - 2 && OccursAt(s, "..", i);
    assert s[i] == '.';
    assert p[i - 1..i + 1] == s[i..i + 2];
    assert OccursAt(p, "..", i - 1);
  }

  /** The `..` test sees the same thing in the input and in what the stripping loop leaves of it. */
  lemma ContainsStripped(path: string)
    ensures Contains(Stripped(path), "..") <==> Contains(path, "..")
  {
    var s := Stripped(path);
    var n := |path| - |s|;
    assert path[n..] == s;
    if Contains(s, "..") {
      ContainsSuffix(path, n, "..");
    }
    if Contains(path, "..") {
      DotDotAfterSlashes(path, n);
    }
  }

  /** A ".." in a path whose first `n` characters are all '/' lies after them. */
  lemma DotDotAfterSlashes(path: string, n: nat)
    requires n <= |path| && forall j :: 0 <= j < n ==> path[j] == '/'
    requires Contains(path, "..")
    ensures Contains(path[n..], "..")
  {
    var i :| 0 <= i <= |path| - 2 && OccursAt(path, "..", i);
    assert path[i] == '.';
    assert i >= n;
    assert path[n..][i - n..i - n + 2] == path[i..i + 2];
    assert OccursAt(path[n..], "..", i - n);
  }

  /** Leading slashes do not matter: "/a/b" and "a/b" name the same note, directory or picture. */
  lemma LeadingSlashIgnored(p: string)
    ensures NormaliseNote("/" + p) == NormaliseNote(p)
    ensures NormalisePath("/" + p) == NormalisePath(p)
  {
    var s := "/" + p;
    assert s[1..] == p;
    assert Stripped(s) == Stripped(p);
    if Contains(p, "..") {
      ContainsSuffix(s, 1, "..");
    }
    if Contains(s, "..") {
      DotDotAfterSlash(p);
    }
  }

  /** What the suffix step returns: the path itself when it ends in ".md", else the path with ".md" added. */
  lemma WithNoteExtensionShape(s: string)
    ensures EndsWith(WithNoteExtension(s), NOTE_EXTENSION)
    ensures !HasLeadingSlash(s) ==> !HasLeadingSlash(WithNoteExtension(s))
    ensures EndsWith(s, NOTE_EXTENSION) ==> WithNoteExtension(s) == s
  {
    var q := WithNoteExtension(s);
    if !EndsWith(s, NOTE_EXTENSION) {
      assert q[|q| - 3..] == NOTE_EXTENSION;
      if s != [] {
        assert q[0] == s[0];
      }
    }
  }

  /** The suffix is optional: "a/b" and "a/b.md" name the same note. */
  lemma ExtensionOptional(p: string)
    requires !Contains(p + NOTE_EXTENSION, "..")
    requires !EndsWith(Stripped(p), NOTE_EXTENSION)
    ensures NormaliseNote(p + NOTE_EXTENSION) == NormaliseNote(p)
  {
    if Contains(p, "..") {
      ContainsAppend(p, NOTE_EXTENSION, "..");
    }
    assert NOTE_EXTENSION[0] == '.';
    StrippedAppend(p, NOTE_EXTENSION);
    WithNoteExtensionShape(Stripped(p) + NOTE_EXTENSION);
  }

  /** A path ending in '.' after its leading slashes is stored with ".md" appended, which makes a "..". */
  lemma DotEndedNoteStored(path: string)
    requires !Contains(path, "..") && EndsWith(Stripped(path), ".")
    ensures NormaliseNote(path) == Some(Stripped(path) + NOTE_EXTENSION)
    ensures Contains(Stripped(path) + NOTE_EXTENSION, "..")
  {
    var s := Stripped(path);
    var q := s + NOTE_EXTENSION;
    assert s[|s| - 1] == '.';
    assert !EndsWith(s, NOTE_EXTENSION) by {
      assert NOTE_EXTENSION[|NOTE_EXTENSION| - 1] == 'd';
    }
    assert q[|s| - 1..|s| + 1] == "..";
    assert OccursAt(q, "..", |s| - 1);
  }

  /** A note path that passes the check is its own normal form: normalising it again changes nothing. */
  lemma NormaliseNoteIdempotent(path: string)
    requires NormaliseNote(path).Some? && !Contains(NormaliseNote(path).value, "..")
    ensures NormaliseNote(NormaliseNote(path).value) == NormaliseNote(path)
  {
    var q := NormaliseNote(path).value;
    WithNoteExtensionShape(Stripped(path));
    WithNoteExtensionShape(q);
  }

  /** A segment ".." only arises where the path itself contains "..". */
  lemma {:induction false} DotDotSegmentInPath(s: string, k: nat)
    requires k < |Segments(s)| && Segments(s)[k] == ".."
    ensures Contains(s, "..")
    decreases |s|
  {
    if s == [] {
      assert false;
    } else {
      var rest := Segments(s[1..]);
      if s[0] == '/' {
        assert k > 0 && rest[k - 1] == "..";
        DotDotSegmentInPath(s[1..], k - 1);
        ContainsSuffix(s, 1, "..");
      } else if k == 0 {
        assert [s[0]] + rest[0] == "..";
        assert rest[0] == ".";
        assert s[1..][..1] == ".";
        assert s[0..2] == "..";
        assert OccursAt(s, "..", 0);
      } else {
        assert rest[k] == "..";
        DotDotSegmentInPath(s[1..], k);
        ContainsSuffix(s, 1, "..");
      }
    }
  }

  lemma {:induction false} SegmentsWithoutSlash(x: string)
    requires '/' !in x
    ensures Segments(x) == [x]
    decreases |x|
  {
    if x != [] {
      assert '/' !in x[1..] by {
        assert forall j :: 0 <= j < |x[1..]| ==> x[1..][j] == x[j + 1];
      }
      SegmentsWithoutSlash(x[1..]);
      assert [x[0]] + x[1..] == x;
    }
  }

  /** `sx` is `st` with `x` appended to its last element. */
  predicate LastExtended(st: seq<string>, sx: seq<string>, x: string) {
    && |st| >= 1 && |sx| == |st|
    && (forall k :: 0 <= k < |st| - 1 ==> sx[k] == st[k])
    && sx[|st| - 1] == st[|st| - 1] + x
  }

  /** Appending a tail without '/' only lengthens the last segment. */
  lemma {:induction false} SegmentsAppend(t: string, x: string)
    requires '/' !in x
    ensures LastExtended(Segments(t), Segments(t + x), x)
    decreases |t|
  {
    if t == [] {
      assert t + x == x;
      SegmentsWithoutSlash(x);
    } else {
      assert (t + x)[1..] == t[1..] + x;
      SegmentsAppend(t[1..], x);
      SegmentsAppendStep(t, x);
    }
  }

  /** One character more in front: the step of `SegmentsAppend`. */
  lemma SegmentsAppendStep(t: string, x: string)
    requires t != [] && LastExtended(Segments(t[1..]), Segments(t[1..] + x), x)
    ensures LastExtended(Segments(t), Segments(t + x), x)
  {
    var tx := t + x;
    assert tx[1..] == t[1..] + x && tx[0] == t[0];
    if t[0] == '/' {
      SegmentsAppendAfterSlash(t, x);
    } else {
      SegmentsAppendAfterChar(t, x);
    }
  }

  lemma SegmentsAppendAfterSlash(t: string, x: string)
    requires t != [] && t[0] == '/'
    requires (t + x)[1..] == t[1..] + x && (t + x)[0] == '/'
    requires LastExtended(Segments(t[1..]), Segments(t[1..] + x), x)
    ensures LastExtended(Segments(t), Segments(t + x), x)
  {
    var r, rx := Segments(t[1..]), Segments(t[1..] + x);
    assert Segments(t + x) == [""] + rx && Segments(t) == [""] + r;
    LastExtendedCons("", r, rx, x);
  }

  lemma SegmentsAppendAfterChar(t: string, x: string)
    requires t != [] && t[0] != '/'
    requires (t + x)[1..] == t[1..] + x && (t + x)[0] == t[0]
    requires LastExtended(Segments(t[1..]), Segments(t[1..] + x), x)
    ensures LastExtended(Segments(t), Segments(t + x), x)
  {
    var r, rx := Segments(t[1..]), Segments(t[1..] + x);
    var st, sx := Segments(t), Segments(t + x);
    SegmentsAfterChar(t);
    SegmentsAfterChar(t + x);
    assert Segments((t + x)[1..]) == rx;
    assert |st| == |r| && |sx| == |rx| && |rx| == |r|;
    forall k | 0 <= k < |st| - 1
      ensures sx[k] == st[k]
    {
      if k > 0 {
        assert sx[k] == rx[k] && st[k] == r[k];
      }
    }
    if |r| == 1 {
      ConsAppend(t[0], r[0], x);
    } else {
      assert sx[|r| - 1] == rx[|r| - 1];
    }
  }

  lemma ConsAppend(c: char, a: string, x: string)
    ensures [c] + (a + x) == ([c] + a) + x
  {
  }

  /** A leading character other than '/' joins the first segment. */
  lemma SegmentsAfterChar(s: string)
    requires s != [] && s[0] != '/'
    ensures |Segments(s)| == |Segments(s[1..])|
    ensures Segments(s)[0] == [s[0]] + Segments(s[1..])[0]
    ensures forall k :: 1 <= k < |Segments(s)| ==> Segments(s)[k] == Segments(s[1..])[k]
  {
  }

  /** Putting the same segment in front of both keeps the relation. */
  lemma LastExtendedCons(s: string, r: seq<string>, rx: seq<string>, x: string)
    requires LastExtended(r, rx, x)
    ensures LastExtended([s] + r, [s] + rx, x)
  {
    var st, sx := [s] + r, [s] + rx;
    forall k | 0 <= k < |st| - 1
      ensures sx[k] == st[k]
    {
      if k > 0 {
        assert sx[k] == rx[k - 1] && st[k] == r[k - 1];
      }
    }
  }

  /** Dropping the first of several segments keeps the relation. */
  /** Lengthening the last segment by at least three characters cannot make it "..". */
  lemma LastExtendedNoDotDot(r: seq<string>, rx: seq<string>, x: string)
    requires LastExtended(r, rx, x) && |x| >= 3
    requires forall k :: 0 <= k < |r| ==> r[k] != ".."
    ensures forall k :: 0 <= k < |rx| ==> rx[k] != ".."
  {
    forall k | 0 <= k < |rx|
      ensures rx[k] != ".."
    {
      if k < |r| - 1 {
        assert rx[k] == r[k];
      } else {
        assert |rx[k]| >= 3;
      }
    }
  }

  lemma {:induction false} ClimbWithoutDotDot(depth: nat, segs: seq<string>)
    requires forall k :: 0 <= k < |segs| ==> segs[k] != ".."
    ensures Climb(depth, segs).Some?
    decreases |segs|
  {
    if segs != [] {
      assert segs[0] != "..";
      assert forall k :: 0 <= k < |segs[1..]| ==> segs[1..][k] == segs[k + 1];
      if segs[0] == "" || segs[0] == "." {
        ClimbWithoutDotDot(depth, segs[1..]);
      } else {
        ClimbWithoutDotDot(depth + 1, segs[1..]);
      }
    }
  }

  /** A path with no ".." in it has no ".." segment and so stays under the root. */
  lemma ConfinedWithoutDotDot(p: string)
    requires !Contains(p, "..")
    ensures forall k :: 0 <= k < |Segments(p)| ==> Segments(p)[k] != ".."
    ensures StaysUnderRoot(p)
  {
    forall k | 0 <= k < |Segments(p)|
      ensures Segments(p)[k] != ".."
    {
      if Segments(p)[k] == ".." {
        DotDotSegmentInPath(p, k);
      }
    }
    ClimbWithoutDotDot(0, Segments(p));
  }

  /** Adding ".md" to a path without ".." creates no ".." segment, even where it creates the substring (after a final '.'). */
  lemma ConfinedWithNoteExtension(s: string)
    requires !Contains(s, "..")
    ensures forall k :: 0 <= k < |Segments(WithNoteExtension(s))| ==> Segments(WithNoteExtension(s))[k] != ".."
    ensures StaysUnderRoot(WithNoteExtension(s))
  {
    ConfinedWithoutDotDot(s);
    var q := WithNoteExtension(s);
    if q != s {
      assert '/' !in NOTE_EXTENSION;
      assert q == s + NOTE_EXTENSION;
      SegmentsAppend(s, NOTE_EXTENSION);
      var sq := Segments(q);
      LastExtendedNoDotDot(Segments(s), sq, NOTE_EXTENSION);
      ClimbWithoutDotDot(0, sq);
    }
  }

  lemma JoinRelative(root: string, q: string)
    requires root != "" && !HasLeadingSlash(q)
    ensures Join(root, q) == root + (if EndsWith(root, "/") then "" else "/") + q
  {
  }

  /**
   * Confinement of a directory or picture path: once accepted it has no leading
   * '/', so `os.path.join` keeps the root in front of it, and no ".." segment,
   * so lexically it never leaves the root.
   */
  lemma PathConfined(root: string, path: string)
    requires root != "" && NormalisePath(path).Some?
    ensures var q := NormalisePath(path).value;
      && !HasLeadingSlash(q)
      && (forall k :: 0 <= k < |Segments(q)| ==> Segments(q)[k] != "..")
      && StaysUnderRoot(q)
      && Join(root, q) == root + (if EndsWith(root, "/") then "" else "/") + q
  {
    var q := NormalisePath(path).value;
    ContainsStripped(path);
    ConfinedWithoutDotDot(q);
    JoinRelative(root, q);
  }

  /**
   * Confinement of a note path. The `.md` suffix can create a ".." in the
   * string ("a." becomes "a..md") but never a ".." segment.
   */
  lemma NoteConfined(root: string, path: string)
    requires root != "" && NormaliseNote(path).Some?
    ensures var q := NormaliseNote(path).value;
      && EndsWith(q, NOTE_EXTENSION)
      && !HasLeadingSlash(q)
      && (forall k :: 0 <= k < |Segments(q)| ==> Segments(q)[k] != "..")
      && StaysUnderRoot(q)
      && Join(root, q) == root + (if EndsWith(root, "/") then "" else "/") + q
  {
    var s := Stripped(path);
    ContainsStripped(path);
    WithNoteExtensionShape(s);
    ConfinedWithNoteExtension(s);
    JoinRelative(root, WithNoteExtension(s));
  }

  /** The price of the substring test: "a..b.md" stays under the root, yet it is refused. */
  lemma HarmlessNameRejected()
    ensures StaysUnderRoot("a..b.md")
    ensures NormaliseNote("a..b.md") == None
  {
    var s := "a..b.md";
    assert s[1..3] == "..";
    assert OccursAt(s, "..", 1);
    assert '/' !in s;
    SegmentsWithoutSlash(s);
  }

  /** Picture paths and note paths never coincide: no picture extension ends in ".md". */
  lemma PictureIsNotNote(p: string)
    requires HasPictureExtension(p)
    ensures !EndsWith(p, NOTE_EXTENSION)
  {
    var ext :| ext in PICTURE_EXTENSIONS && EndsWith(p, ext);
    assert ext[|ext| - 1] != 'd';
    assert p[|p| - 1] == ext[|ext| - 1];
    assert NOTE_EXTENSION[2] == 'd';
  }

  /** The parent and the base name put back together give the path again. */
  lemma ParentBaseName(k: string)
    requires !HasLeadingSlash(k)
    ensures ChildPath(Parent(k), BaseName(k)) == k
    ensures Parent(k) == "" <==> '/' !in k
  {
    var n := BaseName(k);
    if '/' in k {
      var j := |k| - |n| - 1;
      assert k[j + 1..] == n;
      ParentIsLastSlash(k, j);
      SplitAtSlash(k, j);
    } else {
      assert |n| == |k|;
    }
  }

  lemma SplitAtSlash(k: string, j: nat)
    requires j < |k| && k[j] == '/'
    ensures k[..j] + "/" + k[j + 1..] == k
  {
    assert k[j..] == [k[j]] + k[j + 1..];
    assert k == k[..j] + k[j..];
  }

  /** `Parent` cuts at the last '/', which is where `BaseName` starts. */
  lemma {:induction false} ParentIsLastSlash(k: string, i: nat)
    requires i < |k| && k[i] == '/' && '/' !in k[i + 1..]
    ensures Parent(k) == k[..i] && BaseName(k) == k[i + 1..]
    decreases |k|
  {
    if k[|k| - 1] != '/' {
      var k' := k[..|k| - 1];
      assert i < |k'|;
      assert k'[i + 1..] == k[i + 1..|k| - 1];
      ParentIsLastSlash(k', i);
      assert k[i + 1..] == k'[i + 1..] + [k[|k| - 1]];
    } else {
      assert |k| - 1 == i;
    }
  }

  /** A path ends in ".md" exactly when its last segment does. */
  lemma ExtensionOfBaseName(k: string)
    ensures EndsWith(k, NOTE_EXTENSION) <==> EndsWith(BaseName(k), NOTE_EXTENSION)
  {
    var n := BaseName(k);
    if |n| < |NOTE_EXTENSION| && |n| < |k| {
      var j := |k| - |n| - 1;
      assert k[j] == '/';
      if |k| >= |NOTE_EXTENSION| {
        assert k[|k| - 3..][j - (|k| - 3)] == '/';
      }
    } else if |n| >= |NOTE_EXTENSION| {
      assert k[|k| - 3..] == n[|n| - 3..];
    }
  }

  /** The entry `name` of directory `d` has `d` as its parent and `name` as its base name. */
  lemma ParentOfChild(d: string, name: string)
    requires '/' !in name && ChildPath(d, name) != ""
    ensures Parent(ChildPath(d, name)) == d && BaseName(ChildPath(d, name)) == name
  {
    var k := ChildPath(d, name);
    if d == "" {
      assert |BaseName(k)| == |k|;
    } else {
      assert k[|d|] == '/' && k[|d| + 1..] == name && k[..|d|] == d;
      ParentIsLastSlash(k, |d|);
    }
  }

  /** `os.makedirs` of a directory creates all of that directory's own ancestors too: the set is closed upwards. */
  lemma AncestorsClosed(p: string, a: string)
    requires a in Ancestors(p)
    ensures Ancestors(a) <= Ancestors(p)
  {
    forall b | b in Ancestors(a)
      ensures b in Ancestors(p)
    {
      if b != "" {
        assert |b| < |a| && a[..|b|] == b && a[|b|] == '/';
        assert p[..|a|] == a;
        assert p[|b|] == '/' && p[..|b|] == b;
      }
    }
  }

  /** The parent of a path is one of the directories its creation makes. */
  lemma ParentIsAncestor(k: string)
    ensures Parent(k) in Ancestors(k)
  {
    var d := Parent(k);
    if d != "" {
      assert k[..|d|] == d && k[|d|] == '/';
    }
  }
}
