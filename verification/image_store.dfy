/**
 * The image lists of the chatbot: generated and captured image paths, a
 * display slot the renderer consumes once, and the last image shown; the
 * start-up loaders that fill the lists from a directory listing; and the
 * MIME type chosen from a file name's extension.
 */
module ImageStore {
  import opened Wrappers
  import opened Strings

  // ----- The lists and the slots -----

  /**
   * `genImgList`, `capturedImgList`, `latestDisplayImg` (the pending
   * slot, "" when empty) and `latestShowedImg`.
   */
  datatype Store = Store(gen: seq<string>, captured: seq<string>, display: string, showed: string)

  const Initial := Store([], [], "", "")

  /** The last element of a list, or "" for an empty one. */
  function LastOr(list: seq<string>): (r: string)
    ensures |list| == 0 ==> r == ""
    ensures |list| > 0 ==> r == list[|list| - 1]
  {
    if |list| != 0 then list[|list| - 1] else ""
  }

  /** `setLatestGenImg`: the path joins the generated list and fills the display slot. */
  function SetLatestGenImg(s: Store, imgPath: string): (r: Store)
    ensures r.gen == s.gen + [imgPath] && r.display == imgPath
    ensures r.captured == s.captured && r.showed == s.showed
  {
    s.(gen := s.gen + [imgPath], display := imgPath)
  }

  /** `getLatestDisplayImg`: hands out the pending path and empties the slot. */
  function GetLatestDisplayImg(s: Store): (r: (string, Store))
    ensures r.0 == s.display
    ensures r.1.display == "" && r.1.gen == s.gen && r.1.captured == s.captured && r.1.showed == s.showed
  {
    (s.display, s.(display := ""))
  }

  /**
   * `showLatestGenImg` and `showLatestCapturedImg` on the given list: an
   * empty list changes nothing and answers false; otherwise the slot takes
   * the last entry, which also becomes the last image shown unless it is
   * "", and the answer is whether it is non-empty.
   */
  function ShowLatest(s: Store, list: seq<string>): (r: (bool, Store))
    ensures |list| == 0 ==> r == (false, s)
    ensures |list| > 0 ==> r.1.display == list[|list| - 1] && (r.0 <==> list[|list| - 1] != "")
    ensures r.0 ==> r.1.showed == r.1.display
    ensures !r.0 ==> r.1.showed == s.showed
    ensures r.1.gen == s.gen && r.1.captured == s.captured
  {
    if |list| != 0 then
      var display := list[|list| - 1];
      var showed := if display != "" then display else s.showed;
      (display != "", s.(display := display, showed := showed))
    else (false, s)
  }

  function ShowLatestGenImg(s: Store): (bool, Store) {
    ShowLatest(s, s.gen)
  }

  function ShowLatestCapturedImg(s: Store): (bool, Store) {
    ShowLatest(s, s.captured)
  }

  /** `setLatestCapturedImg`: the path joins the captured list and becomes the last image shown, but is not queued for display. */
  function SetLatestCapturedImg(s: Store, imgPath: string): (r: Store)
    ensures r.captured == s.captured + [imgPath] && r.showed == imgPath
    ensures r.gen == s.gen && r.display == s.display
  {
    s.(captured := s.captured + [imgPath], showed := imgPath)
  }

  /** The display slot is consumed once: right after taking it, a second take gives "". */
  lemma DisplayConsumedOnce(s: Store)
    ensures var (first, s1) := GetLatestDisplayImg(s);
      var (second, s2) := GetLatestDisplayImg(s1);
      first == s.display && second == "" && s2 == s1
  {
  }

  /** A newly generated image is both the one the slot hands out and the latest generated one. */
  lemma GenThenTake(s: Store, imgPath: string)
    ensures var s1 := SetLatestGenImg(s, imgPath);
      GetLatestDisplayImg(s1).0 == imgPath && LastOr(s1.gen) == imgPath
  {
  }

  /** A captured image is the latest captured and the last shown, and leaves the slot as it was. */
  lemma CaptureThenQuery(s: Store, imgPath: string)
    ensures var s1 := SetLatestCapturedImg(s, imgPath);
      LastOr(s1.captured) == imgPath && s1.showed == imgPath && GetLatestDisplayImg(s1).0 == s.display
  {
  }

  /** Showing twice in a row is the same as showing once. */
  lemma ShowIdempotent(s: Store)
    ensures var (ok1, s1) := ShowLatestGenImg(s);
      var (ok2, s2) := ShowLatestGenImg(s1);
      ok2 == ok1 && s2 == s1
  {
  }

  // ----- The start-up loaders -----

  /** A directory entry with its modification time in milliseconds. */
  datatype Entry = Entry(file: string, mtime: int)

  /** The test `/\.(jpg|png)$/`: case-sensitive, so `.jpeg` and `.PNG` are not listed. */
  predicate IsListedImage(file: string) {
    EndsWith(file, ".jpg") || EndsWith(file, ".png")
  }

  /** The entries the loaders keep, in directory order. */
  function Listed(es: seq<Entry>): (r: seq<Entry>)
    ensures forall i | 0 <= i < |r| :: IsListedImage(r[i].file) && r[i] in es
    decreases |es|
  {
    if |es| == 0 then []
    else
      var rest := Listed(es[1..]);
      assert forall i | 0 <= i < |rest| :: rest[i] in es by {
        forall i | 0 <= i < |rest|
          ensures rest[i] in es
        {
          var j :| 0 <= j < |es[1..]| && es[1..][j] == rest[i];
          assert es[j + 1] == rest[i];
        }
      }
      if IsListedImage(es[0].file) then [es[0]] + rest else rest
  }

  /** Every listed entry of the directory is kept. */
  lemma {:induction false} ListedKeepsImages(es: seq<Entry>, i: int)
    requires 0 <= i < |es| && IsListedImage(es[i].file)
    ensures es[i] in Listed(es)
    decreases |es|
  {
    if i > 0 {
      ListedKeepsImages(es[1..], i - 1);
      assert es[1..][i - 1] == es[i];
    }
  }

  predicate SortedByMtime(es: seq<Entry>) {
    forall i, j | 0 <= i < j < |es| :: es[i].mtime <= es[j].mtime
  }

  /** The entries with one modification time, in their order. */
  function WithMtime(es: seq<Entry>, t: int): seq<Entry>
    decreases |es|
  {
    if |es| == 0 then []
    else if es[|es| - 1].mtime == t then WithMtime(es[..|es| - 1], t) + [es[|es| - 1]]
    else WithMtime(es[..|es| - 1], t)
  }

  lemma {:induction false} WithMtimeAppend(a: seq<Entry>, b: seq<Entry>, t: int)
    ensures WithMtime(a + b, t) == WithMtime(a, t) + WithMtime(b, t)
    decreases |b|
  {
    if |b| == 0 {
      assert a + b == a;
    } else {
      assert (a + b)[..|a + b| - 1] == a + b[..|b| - 1];
      WithMtimeAppend(a, b[..|b| - 1], t);
    }
  }

  lemma {:induction false} WithMtimeNone(es: seq<Entry>, t: int)
    requires forall i | 0 <= i < |es| :: es[i].mtime != t
    ensures WithMtime(es, t) == []
    decreases |es|
  {
    if |es| > 0 {
      WithMtimeNone(es[..|es| - 1], t);
    }
  }

  /** Inserts after every entry that is not newer, so entries with equal times keep their order. */
  function Insert(sorted: seq<Entry>, e: Entry): (r: seq<Entry>)
    ensures |r| == |sorted| + 1
    decreases |sorted|
  {
    if |sorted| == 0 then [e]
    else if sorted[|sorted| - 1].mtime <= e.mtime then sorted + [e]
    else Insert(sorted[..|sorted| - 1], e) + [sorted[|sorted| - 1]]
  }

  /** Where `Insert` puts the entry: after the longest prefix it does not have to pass. */
  function InsertPos(sorted: seq<Entry>, e: Entry): (k: nat)
    ensures k <= |sorted|
    decreases |sorted|
  {
    if |sorted| == 0 then 0
    else if sorted[|sorted| - 1].mtime <= e.mtime then |sorted|
    else InsertPos(sorted[..|sorted| - 1], e)
  }

  /** Insertion splices the entry in at its position; only newer entries follow it. */
  lemma {:induction false} InsertAt(sorted: seq<Entry>, e: Entry)
    ensures var k := InsertPos(sorted, e);
      && Insert(sorted, e) == sorted[..k] + [e] + sorted[k..]
      && forall i | k <= i < |sorted| :: sorted[i].mtime > e.mtime
    decreases |sorted|
  {
    var n := |sorted|;
    if n == 0 {
    } else if sorted[n - 1].mtime <= e.mtime {
      assert sorted[..n] == sorted && sorted[n..] == [];
    } else {
      var init := sorted[..n - 1];
      InsertAt(init, e);
      var k := InsertPos(init, e);
      assert init[..k] == sorted[..k];
      assert init[k..] + [sorted[n - 1]] == sorted[k..];
    }
  }

  /** In a sorted list, every entry before the insertion position is not newer than the entry. */
  lemma {:induction false} InsertPosAfterOlder(sorted: seq<Entry>, e: Entry)
    requires SortedByMtime(sorted)
    ensures forall i | 0 <= i < InsertPos(sorted, e) :: sorted[i].mtime <= e.mtime
    decreases |sorted|
  {
    var n := |sorted|;
    if n > 0 && e.mtime < sorted[n - 1].mtime {
      InsertPosAfterOlder(sorted[..n - 1], e);
    }
  }

  /** Inserting into a sorted list keeps it sorted. */
  lemma InsertKeepsSorted(sorted: seq<Entry>, e: Entry)
    requires SortedByMtime(sorted)
    ensures SortedByMtime(Insert(sorted, e))
  {
    InsertAt(sorted, e);
    InsertPosAfterOlder(sorted, e);
    var k := InsertPos(sorted, e);
    var r := Insert(sorted, e);
    forall i, j | 0 <= i < j < |r|
      ensures r[i].mtime <= r[j].mtime
    {
      if j < k {
        assert r[i] == sorted[i] && r[j] == sorted[j];
      } else if i > k {
        assert r[i] == sorted[i - 1] && r[j] == sorted[j - 1];
      } else if i < k && j > k {
        assert r[i] == sorted[i] && r[j] == sorted[j - 1];
      }
    }
  }

  /** Inserting adds exactly the entry. */
  lemma InsertMultiset(sorted: seq<Entry>, e: Entry)
    ensures multiset(Insert(sorted, e)) == multiset(sorted) + multiset{e}
  {
    InsertAt(sorted, e);
    var k := InsertPos(sorted, e);
    var a, b := sorted[..k], sorted[k..];
    assert sorted == a + b;
    assert multiset(a + [e] + b) == multiset(a) + multiset{e} + multiset(b);
  }

  /** Among the entries of one time, the inserted one comes last. */
  lemma InsertWithMtime(sorted: seq<Entry>, e: Entry, t: int)
    ensures WithMtime(Insert(sorted, e), t) == WithMtime(sorted, t) + (if e.mtime == t then [e] else [])
  {
    InsertAt(sorted, e);
    var k := InsertPos(sorted, e);
    assert sorted == sorted[..k] + sorted[k..];
    WithMtimeAppend(sorted[..k] + [e], sorted[k..], t);
    WithMtimeAppend(sorted[..k], [e], t);
    WithMtimeAppend(sorted[..k], sorted[k..], t);
    assert WithMtime([e], t) == WithMtime([], t) + (if e.mtime == t then [e] else []);
    if e.mtime == t {
      WithMtimeNone(sorted[k..], t);
    }
  }

  /** `sort((a, b) => a.mtime - b.mtime)`: ascending and stable, as `Array.prototype.sort` is. */
  function SortByMtime(es: seq<Entry>): seq<Entry>
    decreases |es|
  {
    if |es| == 0 then [] else Insert(SortByMtime(es[..|es| - 1]), es[|es| - 1])
  }

  /** The sort orders by time. */
  lemma {:induction false} SortByMtimeSorted(es: seq<Entry>)
    ensures SortedByMtime(SortByMtime(es))
    decreases |es|
  {
    if |es| > 0 {
      var init, last := es[..|es| - 1], es[|es| - 1];
      var sortedInit := SortByMtime(init);
      assert SortByMtime(es) == Insert(sortedInit, last);
      SortByMtimeSorted(init);
      InsertKeepsSorted(sortedInit, last);
    }
  }

  /** The sort is a permutation. */
  lemma {:induction false} SortByMtimePermutes(es: seq<Entry>)
    ensures multiset(SortByMtime(es)) == multiset(es)
    decreases |es|
  {
    if |es| > 0 {
      var init, last := es[..|es| - 1], es[|es| - 1];
      var sortedInit := SortByMtime(init);
      assert SortByMtime(es) == Insert(sortedInit, last);
      SortByMtimePermutes(init);
      InsertMultiset(sortedInit, last);
      assert es == init + [last];
    }
  }

  /** The sort is stable: for every time, the entries with that time keep their original order. */
  lemma {:induction false} SortByMtimeStable(es: seq<Entry>, t: int)
    ensures WithMtime(SortByMtime(es), t) == WithMtime(es, t)
    decreases |es|
  {
    if |es| > 0 {
      var init, last := es[..|es| - 1], es[|es| - 1];
      var sortedInit := SortByMtime(init);
      assert SortByMtime(es) == Insert(sortedInit, last);
      SortByMtimeStable(init, t);
      InsertWithMtime(sortedInit, last, t);
    }
  }

  /** `path.join(dir, file)` for a file name from a listing. */
  function JoinPath(dir: string, file: string): string {
    dir + "/" + file
  }

  function Paths(dir: string, es: seq<Entry>): (r: seq<string>)
    ensures |r| == |es|
    ensures forall i | 0 <= i < |es| :: r[i] == JoinPath(dir, es[i].file)
  {
    seq(|es|, i requires 0 <= i < |es| => JoinPath(dir, es[i].file))
  }

  /**
   * `loadLatestGenImg` / `loadLatestCapturedImg`: `listing` is the
   * directory's entries with their times, or None when reading the
   * directory or any listed image's time fails, which leaves the list as it was.
   * Otherwise the listed images, oldest first, are appended.
   */
  function LoadImages(list: seq<string>, dir: string, listing: Option<seq<Entry>>): (r: seq<string>)
    ensures listing.None? ==> r == list
    ensures |r| >= |list| && r[..|list|] == list
  {
    match listing
    case None => list
    case Some(es) => list + Paths(dir, SortByMtime(Listed(es)))
  }

  /** The loaded paths are the listed images of the directory, oldest first, after the existing entries. */
  lemma LoadImagesAppendsSorted(list: seq<string>, dir: string, es: seq<Entry>)
    ensures var r := LoadImages(list, dir, Some(es));
      var sorted := SortByMtime(Listed(es));
      && r == list + Paths(dir, sorted)
      && SortedByMtime(sorted)
      && multiset(sorted) == multiset(Listed(es))
      && (forall i | 0 <= i < |sorted| :: IsListedImage(sorted[i].file) && sorted[i] in es)
  {
    var listed := Listed(es);
    var sorted := SortByMtime(listed);
    SortByMtimeSorted(listed);
    SortByMtimePermutes(listed);
    forall i | 0 <= i < |sorted|
      ensures IsListedImage(sorted[i].file) && sorted[i] in es
    {
      assert sorted[i] in multiset(sorted);
      assert sorted[i] in multiset(listed);
      assert sorted[i] in multiset(es);
    }
  }

  /** `initImageLists`: both loaders, each on its own list. */
  function InitImageLists(s: Store, imageDir: string, genListing: Option<seq<Entry>>,
                          cameraDir: string, capturedListing: Option<seq<Entry>>): (r: Store)
    ensures r.display == s.display && r.showed == s.showed
    ensures |r.gen| >= |s.gen| && r.gen[..|s.gen|] == s.gen
    ensures |r.captured| >= |s.captured| && r.captured[..|s.captured|] == s.captured
  {
    s.(gen := LoadImages(s.gen, imageDir, genListing), captured := LoadImages(s.captured, cameraDir, capturedListing))
  }

  // ----- MIME types -----

  function TrimTrailingSlashes(p: string): (r: string)
    ensures |r| <= |p| && p[..|r|] == r
    ensures |r| > 0 ==> r[|r| - 1] != '/'
    decreases |p|
  {
    if |p| > 0 && p[|p| - 1] == '/' then TrimTrailingSlashes(p[..|p| - 1]) else p
  }

  /** The text after the last `/`. */
  function LastPart(p: string): (r: string)
    ensures |r| <= |p| && p[|p| - |r|..] == r
    ensures '/' !in r
    decreases |p|
  {
    if |p| == 0 || p[|p| - 1] == '/' then ""
    else LastPart(p[..|p| - 1]) + [p[|p| - 1]]
  }

  /** The index of the last `.`, if any. */
  function LastDot(s: string): (r: Option<nat>)
    ensures r.Some? ==> r.value < |s| && s[r.value] == '.' && '.' !in s[r.value + 1..]
    ensures r.None? ==> '.' !in s
    decreases |s|
  {
    if |s| == 0 then None
    else if s[|s| - 1] == '.' then Some(|s| - 1)
    else
      var r := LastDot(s[..|s| - 1]);
      assert s == s[..|s| - 1] + [s[|s| - 1]];
      r
  }

  /**
   * `path.extname` (POSIX): from the last `.` of the last path component
   * to its end; "" when that component has no dot, starts with its only
   * leading dot run right before the extension (a dotfile), or is `..`.
   */
  function Extname(path: string): (r: string)
    ensures r == "" || (r[0] == '.' && '/' !in r && '.' !in r[1..] && EndsWith(TrimTrailingSlashes(path), r))
  {
    var trimmed := TrimTrailingSlashes(path);
    var part := LastPart(trimmed);
    match LastDot(part)
    case None => ""
    case Some(k) =>
      if k == 0 || part == ".." then ""
      else
        TailFromDot(trimmed, part, k);
        part[k..]
  }

  /** The text from the last dot of the last component is a dot-led, slash-free tail of the path. */
  lemma TailFromDot(trimmed: string, part: string, k: nat)
    requires |part| <= |trimmed| && trimmed[|trimmed| - |part|..] == part && '/' !in part
    requires k < |part| && part[k] == '.' && '.' !in part[k + 1..]
    ensures var r := part[k..];
      r[0] == '.' && '/' !in r && '.' !in r[1..] && EndsWith(trimmed, r)
  {
    var r := part[k..];
    assert r[1..] == part[k + 1..];
    assert trimmed[|trimmed| - |r|..] == r by {
      assert trimmed[|trimmed| - |r|..] == trimmed[|trimmed| - |part|..][k..];
    }
    assert forall i | 0 <= i < |r| :: r[i] == part[k + i];
  }

  /** `getImageMimeType`: the type for a known extension in any letter case, else the generic byte stream. */
  function MimeType(path: string): string {
    MimeOfExtension(Lower(Extname(path)))
  }

  /** The `switch` on the lower-cased extension. */
  function MimeOfExtension(ext: string): string {
    match ext
    case ".jpg" => "image/jpeg"
    case ".jpeg" => "image/jpeg"
    case ".png" => "image/png"
    case ".gif" => "image/gif"
    case ".bmp" => "image/bmp"
    case ".webp" => "image/webp"
    case _ => "application/octet-stream"
  }

  /** The extension is read off the last component's last dot. */
  lemma ExtnameOfPart(path: string, name: string, k: nat)
    requires TrimTrailingSlashes(path) == path && LastPart(path) == name
    requires LastDot(name) == Some(k) && k > 0 && |name| > 2
    ensures Extname(path) == name[k..]
  {
  }

  /** A name ending in a character other than `/` has no trailing slashes to trim. */
  lemma NoTrailingSlash(path: string)
    requires |path| > 0 && path[|path| - 1] != '/'
    ensures TrimTrailingSlashes(path) == path
  {
  }

  /** A file `stem.ext` in any directory, whose stem is not empty, has extension `.ext`. */
  lemma ExtnameOfFile(dir: string, stem: string, ext: string)
    requires '/' !in stem && '/' !in ext && '.' !in ext && |ext| > 0 && |stem| > 0
    ensures Extname(dir + "/" + stem + "." + ext) == "." + ext
  {
    var dot := "." + ext;
    var name := stem + dot;
    var path := (dir + "/") + name;
    assert dir + "/" + stem + "." + ext == path;
    assert path[|path| - 1] == ext[|ext| - 1];
    NoTrailingSlash(path);
    LastPartOfName(dir + "/", name);
    LastDotOf(stem, ext);
    assert stem + "." + ext == name;
    assert name[|stem|..] == dot;
    ExtnameOfPart(path, name, |stem|);
  }

  lemma {:induction false} LastPartOfName(prefix: string, name: string)
    requires |prefix| > 0 && prefix[|prefix| - 1] == '/' && '/' !in name
    ensures LastPart(prefix + name) == name
    decreases |name|
  {
    if |name| == 0 {
      assert prefix + name == prefix;
    } else {
      var init, last := name[..|name| - 1], name[|name| - 1];
      assert last in name && '/' !in init;
      assert prefix + name == (prefix + init) + [last];
      LastPartSnoc(prefix + init, last);
      LastPartOfName(prefix, init);
      assert name == init + [last];
    }
  }

  /** A character other than `/` extends the last component. */
  lemma LastPartSnoc(p: string, c: char)
    requires c != '/'
    ensures LastPart(p + [c]) == LastPart(p) + [c]
  {
    var q := p + [c];
    assert q[..|q| - 1] == p && q[|q| - 1] == c;
  }

  lemma LastDotOf(stem: string, ext: string)
    requires '.' !in ext && |stem| > 0
    ensures LastDot(stem + "." + ext) == Some(|stem|)
  {
    var s := stem + "." + ext;
    assert s[|stem|] == '.';
    assert forall i | |stem| < i < |s| :: s[i] == ext[i - |stem| - 1];
  }

  /** The type of a file `stem.ext` is decided by its extension, lower-cased. */
  lemma MimeOfFile(dir: string, stem: string, ext: string)
    requires '/' !in stem && '/' !in ext && '.' !in ext && |ext| > 0 && |stem| > 0
    ensures MimeType(dir + "/" + stem + "." + ext) == MimeOfExtension(Lower("." + ext))
  {
    ExtnameOfFile(dir, stem, ext);
  }

  /**
   * The type of every extension, as the switch on its lower-cased form:
   * each image type for exactly its spellings, the generic type for all
   * others.
   */
  lemma KnownExtensions(e: string)
    ensures MimeOfExtension(Lower(e)) == "image/jpeg" <==> Lower(e) == ".jpg" || Lower(e) == ".jpeg"
    ensures MimeOfExtension(Lower(e)) == "image/png" <==> Lower(e) == ".png"
    ensures MimeOfExtension(Lower(e)) == "image/gif" <==> Lower(e) == ".gif"
    ensures MimeOfExtension(Lower(e)) == "image/bmp" <==> Lower(e) == ".bmp"
    ensures MimeOfExtension(Lower(e)) == "image/webp" <==> Lower(e) == ".webp"
    ensures MimeOfExtension(Lower(e)) == "application/octet-stream" <==>
      Lower(e) !in [".jpg", ".jpeg", ".png", ".gif", ".bmp", ".webp"]
  {
  }

  /** Extensions that differ only in letter case get the same type. */
  lemma MimeIgnoresCase(a: string, b: string)
    requires |a| == |b|
    requires forall i | 0 <= i < |a| :: LowerChar(a[i]) == LowerChar(b[i])
    ensures MimeOfExtension(Lower(a)) == MimeOfExtension(Lower(b))
  {
    assert Lower(a) == Lower(b);
  }

  /** Some spellings: upper, mixed and lower case of the known extensions, and one unknown one. */
  lemma KnownExtensionSpellings()
    ensures MimeOfExtension(Lower(".JPG")) == "image/jpeg"
    ensures MimeOfExtension(Lower(".jpeg")) == "image/jpeg"
    ensures MimeOfExtension(Lower(".Png")) == "image/png"
    ensures MimeOfExtension(Lower(".GIF")) == "image/gif"
    ensures MimeOfExtension(Lower(".bmp")) == "image/bmp"
    ensures MimeOfExtension(Lower(".WebP")) == "image/webp"
    ensures MimeOfExtension(Lower(".tiff")) == "application/octet-stream"
  {
    assert Lower(".JPG") == ".jpg";
    assert Lower(".jpeg") == ".jpeg";
    assert Lower(".Png") == ".png";
    assert Lower(".GIF") == ".gif";
    assert Lower(".bmp") == ".bmp";
    assert Lower(".WebP") == ".webp";
    assert Lower(".tiff") == ".tiff";
  }

  /** A last component with no dot, or only a leading one, has no extension. */
  lemma ExtnameNone(path: string, name: string)
    requires TrimTrailingSlashes(path) == path && LastPart(path) == name
    requires LastDot(name).None? || LastDot(name) == Some(0)
    ensures Extname(path) == ""
  {
  }

  /** A path without an extension gets the generic type. */
  lemma MimeOfNoExtension(path: string)
    requires Extname(path) == ""
    ensures MimeType(path) == "application/octet-stream"
  {
    assert Lower("") == "";
  }

  /** A dotfile such as `.png` has no extension and gets the generic type. */
  lemma MimeOfDotfile(dir: string)
    ensures Extname(dir + "/.png") == "" && MimeType(dir + "/.png") == "application/octet-stream"
  {
    var name := ".png";
    var path := (dir + "/") + name;
    assert dir + "/.png" == path;
    assert path[|path| - 1] == 'g';
    NoTrailingSlash(path);
    LastPartOfName(dir + "/", name);
    assert name[0] == '.' && forall i | 1 <= i < |name| :: name[i] != '.';
    ExtnameNone(path, name);
    MimeOfNoExtension(path);
  }

  /** A name without a dot has no extension and gets the generic type. */
  lemma MimeWithoutDot(dir: string)
    ensures Extname(dir + "/png") == "" && MimeType(dir + "/png") == "application/octet-stream"
  {
    var name := "png";
    var path := (dir + "/") + name;
    assert dir + "/png" == path;
    assert path[|path| - 1] == 'g';
    NoTrailingSlash(path);
    LastPartOfName(dir + "/", name);
    assert forall i | 0 <= i < |name| :: name[i] != '.';
    ExtnameNone(path, name);
    MimeOfNoExtension(path);
  }
}
