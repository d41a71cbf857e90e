/**
 * `renderFolderView(items, path)`: the parent row, one row per entry in
 * input order, the first `readme.md` file found during the scan, and the
 * README block or the intro banner after the listing.
 */
module FolderView {
  import opened Wrappers
  import opened SizeFormat
  import opened Markup
  import opened Icons

  /**
   * One listing item. An item with a `folder` facet is a folder, else one
   * with a `file` facet is a file; anything else is unknown. `size` is
   * `None` when the item carries no `size` property.
   */
  datatype Entry =
    | Folder(name: string, size: Option<int>)
    | File(name: string, size: Option<int>, mimeType: string, downloadUrl: string)
    | Unknown

  /** The arguments of one `item(...)` call. */
  datatype Row = Row(icon: string, text: string, href: string, size: Option<int>)

  /** The collaborators the view calls: page wrapper, breadcrumb, markdown, icon lookups, `toFixed(1)`. */
  datatype Collaborators = Collaborators(
    renderHTML: string -> string,
    renderPath: string -> string,
    renderMarkdown: (string, string, string) -> string,
    icons: IconLookup,
    fixed1: real -> string)

  /** The root path; the listing there is the index page. */
  const Root: string := "/"

  /** The static banner shown on the index page (its inner text is abbreviated here). */
  const IntroBanner: string :=
    "<div class=\"intro markdown-body\" style=\"text-align: left; margin-top: 2rem;\">...</div>"

  // ---------- rows ----------

  function ParentRow(path: string): Row {
    Row(FolderIcon, "..", path + "..", None)
  }

  /** The row an entry maps to; an unknown entry maps to nothing (`undefined`). */
  function EntryRow(e: Entry, path: string, icons: IconLookup): (r: Option<Row>)
    ensures r.None? <==> e.Unknown?
  {
    match e
    case Folder(name, size) => Some(Row(FolderIcon, name, path + name + "/", size))
    case File(name, size, mimeType, _) => Some(Row(FileIcon(name, mimeType, icons), name, path + name, size))
    case Unknown => None
  }

  /** The rows of the entries, in order, unknown entries dropped. */
  function EntryRows(entries: seq<Entry>, path: string, icons: IconLookup): seq<Row> {
    if entries == [] then []
    else
      var last := entries[|entries| - 1];
      EntryRows(entries[..|entries| - 1], path, icons) +
      (match EntryRow(last, path, icons) case Some(r) => [r] case None => [])
  }

  /** The rows shown in the listing block: the parent row away from the root, then the entries. */
  function ListingRows(entries: seq<Entry>, path: string, icons: IconLookup): seq<Row> {
    (if path != Root then [ParentRow(path)] else []) + EntryRows(entries, path, icons)
  }

  function RenderRow(r: Row, fixed1: real -> string): string {
    Item(r.icon, r.text, r.href, r.size, fixed1)
  }

  function RowMarkup(fixed1: real -> string): Row -> string {
    r => RenderRow(r, fixed1)
  }

  /** The rows' markup joined with no separator. */
  function RenderRows(rows: seq<Row>, fixed1: real -> string): string {
    ConcatMap(rows, RowMarkup(fixed1))
  }

  /** What the `map` callback contributes for one entry: its row's markup, or nothing. */
  function EntryMarkup(e: Entry, path: string, icons: IconLookup, fixed1: real -> string): string {
    match EntryRow(e, path, icons)
    case Some(r) => RenderRow(r, fixed1)
    case None => ""
  }

  /** The entries that are folders or files, in order. */
  function KnownEntries(entries: seq<Entry>): (known: seq<Entry>)
    ensures |known| <= |entries|
    ensures forall k | 0 <= k < |known| :: !known[k].Unknown?
    ensures (forall k | 0 <= k < |entries| :: !entries[k].Unknown?) ==> known == entries
  {
    if entries == [] then []
    else
      var last := entries[|entries| - 1];
      KnownEntries(entries[..|entries| - 1]) + (if last.Unknown? then [] else [last])
  }

  // ---------- README detection ----------

  function LowerChar(c: char): char {
    if 'A' <= c <= 'Z' then (c as int + 32) as char else c
  }

  /** `toLowerCase` on the ASCII letters, character by character. */
  function ToLower(s: string): string {
    seq(|s|, i requires 0 <= i < |s| => LowerChar(s[i]))
  }

  predicate IsReadmeName(name: string) {
    ToLower(name) == "readme.md"
  }

  predicate IsReadme(e: Entry) {
    e.File? && IsReadmeName(e.name)
  }

  /** The closure variables `readmeExists` and `readmeFetchUrl`. */
  datatype ReadmeScan = ReadmeScan(found: bool, fetchUrl: string)

  /**
   * One step of the scan: while nothing is found, every file sets both
   * variables (the URL even when the name does not match); after that they
   * stay as they are.
   */
  function ScanStep(st: ReadmeScan, e: Entry): ReadmeScan {
    if e.File? && !st.found then ReadmeScan(IsReadmeName(e.name), e.downloadUrl) else st
  }

  /** The scan state after all of `entries`, starting from `false` and `''`. */
  function ScanReadme(entries: seq<Entry>): ReadmeScan {
    if entries == [] then ReadmeScan(false, "")
    else ScanStep(ScanReadme(entries[..|entries| - 1]), entries[|entries| - 1])
  }

  /** Index of the first README file. */
  function FirstReadme(entries: seq<Entry>): (i: nat)
    requires exists k | 0 <= k < |entries| :: IsReadme(entries[k])
    ensures i < |entries| && IsReadme(entries[i])
    ensures forall j | 0 <= j < i :: !IsReadme(entries[j])
  {
    if IsReadme(entries[0]) then 0
    else
      assert exists k | 0 <= k < |entries[1..]| :: IsReadme(entries[1..][k]) by {
        var k :| 0 <= k < |entries| && IsReadme(entries[k]);
        assert entries[1..][k - 1] == entries[k];
      }
      1 + FirstReadme(entries[1..])
  }

  // ---------- page ----------

  /** What the page shows: the listing rows, the README to render if any, and whether the intro follows. */
  datatype Layout = Layout(rows: seq<Row>, readmeUrl: Option<string>, intro: bool)

  function PageLayout(entries: seq<Entry>, path: string, icons: IconLookup): Layout {
    var scan := ScanReadme(entries);
    Layout(ListingRows(entries, path, icons),
      if scan.found && path != Root then Some(scan.fetchUrl) else None,
      path == Root)
  }

  function ItemsBlock(rowsMarkup: string): string {
    Div("items", El("div", ["style=\"min-width: 600px\""], rowsMarkup))
  }

  /** The README markup, requested from the markdown renderer only when there is a README to show. */
  function ReadmeBlock(readmeUrl: Option<string>, ext: Collaborators): string {
    match readmeUrl
    case Some(url) => ext.renderMarkdown(url, "fade-in-fwd", "")
    case None => ""
  }

  /** The body handed to the page wrapper. */
  function PageBody(layout: Layout, path: string, ext: Collaborators): string {
    Div("container",
      Div("path", ext.renderPath(path)) +
      ItemsBlock(RenderRows(layout.rows, ext.fixed1)) +
      ReadmeBlock(layout.readmeUrl, ext) +
      (if layout.intro then IntroBanner else ""))
  }

  // ---------- lemmas: rows ----------

  lemma {:induction false} EntryRowsAppend(a: seq<Entry>, b: seq<Entry>, path: string, icons: IconLookup)
    ensures EntryRows(a + b, path, icons) == EntryRows(a, path, icons) + EntryRows(b, path, icons)
    decreases |b|
  {
    if b == [] {
      assert a + b == a;
    } else {
      var b' := b[..|b| - 1];
      assert (a + b)[..|a + b| - 1] == a + b';
      EntryRowsAppend(a, b', path, icons);
    }
  }

  /** An unknown entry contributes no row and does not disturb the rows after it. */
  lemma UnknownAddsNoRow(a: seq<Entry>, b: seq<Entry>, path: string, icons: IconLookup)
    ensures EntryRows(a + [Unknown] + b, path, icons) == EntryRows(a + b, path, icons)
  {
    EntryRowsAppend(a + [Unknown], b, path, icons);
    EntryRowsAppend(a, [Unknown], path, icons);
    EntryRowsAppend(a, b, path, icons);
    assert EntryRows([Unknown], path, icons) == [] by {
      assert [Unknown][..0] == [];
    }
  }

  /**
   * One row per folder or file entry, in input order: the k-th row is the
   * row of the k-th known entry.
   */
  lemma {:induction false} EntryRowsInOrder(entries: seq<Entry>, path: string, icons: IconLookup)
    ensures |EntryRows(entries, path, icons)| == |KnownEntries(entries)|
    ensures forall k | 0 <= k < |KnownEntries(entries)| ::
      Some(EntryRows(entries, path, icons)[k]) == EntryRow(KnownEntries(entries)[k], path, icons)
  {
    if entries != [] {
      EntryRowsInOrder(entries[..|entries| - 1], path, icons);
    }
  }

  /**
   * A folder's link is the path, its name and a slash; a file's link is the
   * path and its name; both rows show the entry's name and size.
   */
  lemma EntryHref(e: Entry, path: string, icons: IconLookup)
    requires !e.Unknown?
    ensures var r := EntryRow(e, path, icons).value;
      r.text == e.name && r.size == e.size &&
      (e.Folder? ==> r.href == path + e.name + "/" && r.icon == FolderIcon) &&
      (e.File? ==> r.href == path + e.name && r.icon == FileIcon(e.name, e.mimeType, icons))
  {
  }

  /**
   * For names without a slash (as storage names are), a row's link ends with
   * a slash exactly when the entry is a folder.
   */
  lemma HrefSlashIffFolder(e: Entry, path: string, icons: IconLookup)
    requires !e.Unknown? && e.name != [] && '/' !in e.name
    ensures var h := EntryRow(e, path, icons).value.href;
      h[|h| - 1] == '/' <==> e.Folder?
  {
    var h := EntryRow(e, path, icons).value.href;
    if e.File? {
      assert h[|h| - 1] == e.name[|e.name| - 1];
    }
  }

  /**
   * The listing's rows: away from the root the parent row comes first, with
   * the folder icon, label `..`, link `path + ".."` and no size argument; the
   * rows of the folder and file entries follow, one each, in order.
   */
  lemma ListingRowsShape(entries: seq<Entry>, path: string, icons: IconLookup)
    ensures var rows := ListingRows(entries, path, icons);
      var off := if path != Root then 1 else 0;
      |rows| == off + |KnownEntries(entries)| &&
      (path != Root ==> rows[0] == ParentRow(path)) &&
      forall k | off <= k < |rows| :: Some(rows[k]) == EntryRow(KnownEntries(entries)[k - off], path, icons)
    ensures ParentRow(path).icon == FolderIcon && ParentRow(path).text == ".." &&
      ParentRow(path).href == path + ".." && ParentRow(path).size.None?
  {
    EntryRowsInOrder(entries, path, icons);
  }

  /** The listing block's markup: the parent row's markup away from the root, then the entries' rows. */
  lemma ListingMarkup(entries: seq<Entry>, path: string, icons: IconLookup, fixed1: real -> string)
    ensures RenderRows(ListingRows(entries, path, icons), fixed1) ==
      (if path != Root then RenderRow(ParentRow(path), fixed1) else "") +
      RenderRows(EntryRows(entries, path, icons), fixed1)
  {
    var parentRows := if path != Root then [ParentRow(path)] else [];
    ConcatMapAppend(parentRows, EntryRows(entries, path, icons), RowMarkup(fixed1));
    if path != Root {
      ConcatMapSingle(ParentRow(path), RowMarkup(fixed1));
    }
  }

  /** Scanning one more entry appends that entry's row markup, if it has a row. */
  lemma RowsStep(entries: seq<Entry>, i: nat, path: string, icons: IconLookup, fixed1: real -> string)
    requires i < |entries|
    ensures RenderRows(EntryRows(entries[..i + 1], path, icons), fixed1) ==
      RenderRows(EntryRows(entries[..i], path, icons), fixed1) + EntryMarkup(entries[i], path, icons, fixed1)
  {
    assert entries[..i + 1][..i] == entries[..i];
    var prev := EntryRows(entries[..i], path, icons);
    match EntryRow(entries[i], path, icons)
    case Some(r) =>
      assert EntryRows(entries[..i + 1], path, icons) == prev + [r];
      ConcatMapSnoc(prev, r, RowMarkup(fixed1));
    case None =>
      assert EntryRows(entries[..i + 1], path, icons) == prev;
  }

  // ---------- lemmas: README ----------

  /** Once a README is found, later entries change neither variable. */
  lemma {:induction false} ScanFoundIsFinal(a: seq<Entry>, b: seq<Entry>)
    requires ScanReadme(a).found
    ensures ScanReadme(a + b) == ScanReadme(a)
    decreases |b|
  {
    if b == [] {
      assert a + b == a;
    } else {
      var b' := b[..|b| - 1];
      assert (a + b)[..|a + b| - 1] == a + b';
      ScanFoundIsFinal(a, b');
    }
  }

  /** `readmeExists` ends true exactly when some file is named readme.md, ignoring case. */
  lemma {:induction false} ReadmeFoundIff(entries: seq<Entry>)
    ensures ScanReadme(entries).found <==> exists k | 0 <= k < |entries| :: IsReadme(entries[k])
  {
    if entries != [] {
      var init := entries[..|entries| - 1];
      var last := entries[|entries| - 1];
      ReadmeFoundIff(init);
      if exists k | 0 <= k < |init| :: IsReadme(init[k]) {
        var k :| 0 <= k < |init| && IsReadme(init[k]);
        assert entries[k] == init[k];
      }
      if exists k | 0 <= k < |entries| :: IsReadme(entries[k]) {
        var k :| 0 <= k < |entries| && IsReadme(entries[k]);
        if k < |init| {
          assert init[k] == entries[k];
        }
      }
    }
  }

  /** When found, `readmeFetchUrl` is the download URL of the first README file. */
  lemma {:induction false} ReadmeUrlIsFirst(entries: seq<Entry>)
    requires exists k | 0 <= k < |entries| :: IsReadme(entries[k])
    ensures ScanReadme(entries).found
    ensures ScanReadme(entries).fetchUrl == entries[FirstReadme(entries)].downloadUrl
  {
    var i := FirstReadme(entries);
    var pre := entries[..i];
    ReadmeFoundIff(pre);
    assert !ScanReadme(pre).found by {
      forall k | 0 <= k < |pre| ensures !IsReadme(pre[k]) {
        assert pre[k] == entries[k];
      }
    }
    var upto := entries[..i + 1];
    assert upto[..i] == pre;
    assert ScanReadme(upto) == ReadmeScan(true, entries[i].downloadUrl);
    ScanFoundIsFinal(upto, entries[i + 1..]);
    assert upto + entries[i + 1..] == entries;
  }

  /** Scanning one more entry applies one step of the scan to the state so far. */
  lemma ScanPrefixStep(entries: seq<Entry>, i: nat)
    requires i < |entries|
    ensures ScanReadme(entries[..i + 1]) == ScanStep(ScanReadme(entries[..i]), entries[i])
  {
    assert entries[..i + 1][..i] == entries[..i];
  }

  /** What the scan leaves behind: whether a README exists, and then the first one's URL. */
  lemma ScanOutcome(entries: seq<Entry>)
    ensures ScanReadme(entries).found <==> exists k | 0 <= k < |entries| :: IsReadme(entries[k])
    ensures ScanReadme(entries).found ==> ScanReadme(entries).fetchUrl == entries[FirstReadme(entries)].downloadUrl
  {
    ReadmeFoundIff(entries);
    if ScanReadme(entries).found {
      ReadmeUrlIsFirst(entries);
    }
  }

  /** Two README files differing in case: the first one is used, both get rows. */
  lemma DuplicateReadmeExample(path: string, icons: IconLookup)
    ensures var entries := [File("README.md", Some(10), "text/markdown", "u1"), File("ReadMe.MD", Some(20), "text/markdown", "u2")];
      ScanReadme(entries) == ReadmeScan(true, "u1") && |EntryRows(entries, path, icons)| == 2
  {
    var first := File("README.md", Some(10), "text/markdown", "u1");
    var entries := [first, File("ReadMe.MD", Some(20), "text/markdown", "u2")];
    assert ToLower("README.md") == "readme.md";
    assert entries[..1] == [first];
    assert [first][..0] == [];
    assert ScanReadme([first]) == ReadmeScan(true, "u1");
    assert |EntryRows([first], path, icons)| == 1;
  }

  // ---------- lemmas: page ----------

  /** At the root: no parent row, no README even if one exists, and the intro banner. */
  lemma RootLayout(entries: seq<Entry>, icons: IconLookup)
    ensures PageLayout(entries, Root, icons) == Layout(EntryRows(entries, Root, icons), None, true)
  {
    assert ListingRows(entries, Root, icons) == EntryRows(entries, Root, icons);
  }

  /** Away from the root with a README: the parent row leads, the first README follows the listing, no intro. */
  lemma ReadmeLayout(entries: seq<Entry>, path: string, icons: IconLookup)
    requires path != Root
    requires exists k | 0 <= k < |entries| :: IsReadme(entries[k])
    ensures PageLayout(entries, path, icons) ==
      Layout([ParentRow(path)] + EntryRows(entries, path, icons), Some(entries[FirstReadme(entries)].downloadUrl), false)
  {
    ReadmeUrlIsFirst(entries);
  }

  /** Away from the root without a README: the parent row and the entries, nothing after them. */
  lemma PlainLayout(entries: seq<Entry>, path: string, icons: IconLookup)
    requires path != Root
    requires forall k | 0 <= k < |entries| :: !IsReadme(entries[k])
    ensures PageLayout(entries, path, icons) == Layout([ParentRow(path)] + EntryRows(entries, path, icons), None, false)
  {
    ReadmeFoundIff(entries);
  }

  // ---------- the scan and the render ----------

  /**
   * The `map` callback for one item: a folder or file renders its row, and a
   * file seen while no README has been found sets `readmeExists` and
   * `readmeFetchUrl`; an unknown item renders nothing.
   */
  method RenderEntry(e: Entry, path: string, icons: IconLookup, fixed1: real -> string,
                     readmeExists: bool, readmeFetchUrl: string)
    returns (markup: string, exists': bool, fetchUrl': string)
    ensures markup == EntryMarkup(e, path, icons, fixed1)
    ensures ReadmeScan(exists', fetchUrl') == ScanStep(ReadmeScan(readmeExists, readmeFetchUrl), e)
  {
    exists', fetchUrl' := readmeExists, readmeFetchUrl;
    match e {
      case Folder(name, size) =>
        markup := RenderRow(Row(FolderIcon, name, path + name + "/", size), fixed1);
      case File(name, size, mimeType, downloadUrl) =>
        if !readmeExists {
          exists' := IsReadmeName(name);
          fetchUrl' := downloadUrl;
        }
        var fileIcon := FileIcon(name, mimeType, icons);
        markup := RenderRow(Row(fileIcon, name, path + name, size), fixed1);
      case Unknown =>
        // logged only; `undefined` joins as nothing
        markup := "";
    }
  }

  /**
   * The `items.map(...).join('')` pass: renders each entry's row and updates
   * `readmeExists` / `readmeFetchUrl` as it goes.
   */
  method ScanEntries(entries: seq<Entry>, path: string, icons: IconLookup, fixed1: real -> string)
    returns (rows: string, readmeExists: bool, readmeFetchUrl: string)
    ensures rows == RenderRows(EntryRows(entries, path, icons), fixed1)
    ensures ReadmeScan(readmeExists, readmeFetchUrl) == ScanReadme(entries)
    ensures readmeExists <==> exists k | 0 <= k < |entries| :: IsReadme(entries[k])
    ensures readmeExists ==> readmeFetchUrl == entries[FirstReadme(entries)].downloadUrl
  {
    rows, readmeExists, readmeFetchUrl := "", false, "";
    var i := 0;
    while i < |entries|
      invariant 0 <= i <= |entries|
      invariant rows == RenderRows(EntryRows(entries[..i], path, icons), fixed1)
      invariant ReadmeScan(readmeExists, readmeFetchUrl) == ScanReadme(entries[..i])
    {
      var markup;
      markup, readmeExists, readmeFetchUrl := RenderEntry(entries[i], path, icons, fixed1, readmeExists, readmeFetchUrl);
      RowsStep(entries, i, path, icons, fixed1);
      ScanPrefixStep(entries, i);
      rows := rows + markup;
      i := i + 1;
    }
    assert entries[..i] == entries;
    ScanOutcome(entries);
  }

  /** `renderFolderView(items, path)`, with the markdown render awaited as an ordinary call. */
  method RenderFolderView(entries: seq<Entry>, path: string, ext: Collaborators) returns (html: string)
    ensures html == ext.renderHTML(PageBody(PageLayout(entries, path, ext.icons), path, ext))
  {
    var isIndex := path == Root;
    var parent := if !isIndex then RenderRow(ParentRow(path), ext.fixed1) else "";
    var rows, readmeExists, readmeFetchUrl := ScanEntries(entries, path, ext.icons, ext.fixed1);
    var markdown := "";
    if readmeExists && !isIndex {
      markdown := ext.renderMarkdown(readmeFetchUrl, "fade-in-fwd", "");
    }
    ListingMarkup(entries, path, ext.icons, ext.fixed1);
    var body := Div("container",
      Div("path", ext.renderPath(path)) +
      ItemsBlock(parent + rows) +
      markdown +
      (if isIndex then IntroBanner else ""));
    html := ext.renderHTML(body);
  }
}
