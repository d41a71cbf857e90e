# Folder view of a OneDrive index, modelled in Dafny

This project models `renderFolderView` in `src/folderView.js`. That function renders the
directory-listing page of a OneDrive-backed file index. Given the listing's items and the
current path, it builds:

- a breadcrumb;
- a parent-directory (`..`) row, except at the root `/`;
- one row per folder or file, in input order, each with an icon, its name and a
  human-readable size;
- the rendered `README.md` of the folder, away from the root, or the static intro banner
  at the root.

Modules, one per part of the file:

- `Decimal` (`decimal.dfy`): how JavaScript prints an integral Number (`bytes + ' B'`,
  `size="${size}"`), and the reading that inverts it.
- `SizeFormat` (`size_format.dfy`): `readableFileSize`. The method `ReadableFileSize`
  keeps the source's `do … while` loop. It is proved equal to the specification function
  `SizeLabel`, whose unit index `UnitIndex` is proved least, unique and monotone.
- `Markup` (`markup.dfy`): the string builders `el`, `div` and `item`. Nothing is
  HTML-escaped, as in the source.
- `Icons` (`icons.dfy`): the icon precedence for files. It uses a MIME lookup, then the
  `.md` special case, then a file-name lookup.
- `FolderView` (`folder_view.dfy`): entries, rows, and the README scan. The method
  `RenderEntry` is the `map` callback, which renders one row and updates `readmeExists`
  and `readmeFetchUrl`. The method `ScanEntries` is the `items.map(...).join('')` pass
  that calls it for each entry. The method `RenderFolderView` does the final assembly. The page is
  also given as a `Layout` (rows, README to render, intro flag), and the lemmas
  about the page are stated on it.

External collaborators are function-typed fields of `FolderView.Collaborators`:

- the page wrapper `renderHTML`;
- the breadcrumb renderer `renderPath`;
- the markdown fetch-and-render `renderMarkdown`;
- the two `font-awesome-filetypes` lookups (`Icons.IconLookup`);
- `Number.prototype.toFixed(1)` (`fixed1`).

The model assumes nothing about these collaborators.

Two behaviours of the code are easy to misread:

- A size that does not parse (`parseInt` gives NaN) fails the `<` test. It is divided once
  in the loop, stays NaN, and is printed with the first unit: `"NaN KiB"`
  (`SizeFormat.NaNExample`). An item without a `size` property takes this path, and it
  also gets no `size` attribute (`Markup.MissingSizeCell`).
- The parent row links to `path + ".."` (`FolderView.ParentRow`).

## Model

| member | source | states |
|---|---|---|
| `Decimal.IntToStringRoundTrip` | src/folderView.js:17 | the decimal text of a byte count reads back as the same integer, so a label names its count unambiguously |
| `Decimal.IntToStringInjective` | src/folderView.js:17 | two different byte counts never print the same text |
| `SizeFormat.ReadableFileSize` | src/folderView.js:13-28 | the loop returns `SizeLabel`; below the threshold (1000 with `si`, else 1024) it returns the count's text plus `" B"`; otherwise it returns `fixed1` of the count divided `u+1` times, a space and `units[u]`, for the `u` that obeys the stopping rule |
| `SizeFormat.SmallSizeInBytes` | src/folderView.js:15-18 | a magnitude below the threshold gives the integer's own text followed by `" B"`, with no decimals |
| `SizeFormat.UnitIndexIsLeast` | src/folderView.js:22-26 | the chosen unit is at most 7; every earlier unit left a quotient of at least the threshold; at the chosen unit the quotient is below it unless the list ran out |
| `SizeFormat.UnitIndexUnique` | src/folderView.js:22-26 | no other index satisfies that stopping rule |
| `SizeFormat.UnitIndexMonotone` | src/folderView.js:19-27 | a larger magnitude never gets a smaller unit |
| `SizeFormat.QuotientAtLeast` | src/folderView.js:24-26 | the loop's test on the quotient after k divisions, `abs(q) >= c`, holds exactly when `abs(bytes) >= c * t^k` |
| `SizeFormat.QuotientInRange` | src/folderView.js:22-27 | the printed quotient's magnitude is at least 1, and below the threshold unless all eight units were used |
| `SizeFormat.DecimalExample` | src/folderView.js:13-28 | 1500 bytes with `si` set prints the quotient 1.5 with unit `kB` |
| `SizeFormat.BinaryExample` | src/folderView.js:13-28 | 1536 bytes in binary mode prints the quotient 1.5 with unit `KiB` |
| `SizeFormat.GibibyteExample` | src/folderView.js:13-28 | 1073741824 bytes in binary mode prints the quotient 1.0 with unit `GiB` |
| `SizeFormat.NaNExample` | src/folderView.js:14-27 | a NaN size prints `"NaN KiB"` in binary mode and `"NaN kB"` with `si`, never `"NaN B"` |
| `Markup.ConcatMapAppend` | src/folderView.js:70-97 | the joined markup of two runs of rows is the first run's markup followed by the second's |
| `Markup.JoinThree` | src/folderView.js:39 | three attributes are joined with single spaces between them |
| `Markup.ItemAttrsWithoutSize` | src/folderView.js:41-44 | a row without a truthy size still gets the trailing space left by the empty size attribute |
| `Markup.SizeAttrIff` | src/folderView.js:44 | the `size` attribute is written exactly when the size is a number other than 0, and it holds that number's text |
| `Markup.SizeCellIff` | src/folderView.js:45-48 | a row has a size cell exactly when its name is not `".."`; the cell is the binary-mode label (no `si`) |
| `Markup.SmallSizeCell` | src/folderView.js:48 | a row whose size is below 1024 in magnitude shows it as plain bytes |
| `Markup.MissingSizeCell` | src/folderView.js:44-48 | an item with no size gets no `size` attribute and, unless named `..`, the cell `NaN KiB` |
| `Icons.LastSegment` | src/folderView.js:84 | `split('.').pop()` is the longest suffix without a dot: it is preceded by a dot or is the whole name |
| `Icons.LastSegmentWhole` | src/folderView.js:84 | a name without a dot is compared whole |
| `Icons.MarkdownIconIff` | src/folderView.js:82-91 | the icon is `fab fa-markdown` exactly when the MIME icon is `fa-file` and the last dot-segment is `md`; every other icon starts with `far ` |
| `Icons.FileIconPrecedence` | src/folderView.js:82-91 | a specific MIME icon wins; the file-name lookup is used only behind the generic `fa-file` with a non-`md` segment |
| `Icons.MarkdownExtensionExample` | src/folderView.js:84-85 | `a.tar.md` gets the markdown icon behind a generic MIME icon |
| `Icons.DotlessNameExample` | src/folderView.js:84-85 | a file named exactly `md` gets the markdown icon |
| `Icons.UpperCaseExtensionExample` | src/folderView.js:84-87 | the test is case-sensitive: `NOTES.MD` falls back to the file-name lookup |
| `FolderView.EntryRow` | src/folderView.js:71-96 | an entry yields a row exactly when it is a folder or a file |
| `FolderView.KnownEntries` | src/folderView.js:70-96 | the folder and file entries in order; no more entries than given, none unknown, and all of them when none is unknown |
| `FolderView.FirstReadme` | src/folderView.js:76-79 | the index of the first file whose lower-cased name is `readme.md` |
| `FolderView.EntryRowsAppend` | src/folderView.js:70-97 | the rows of a concatenated listing are the rows of each part in order |
| `FolderView.UnknownAddsNoRow` | src/folderView.js:93-97 | an entry that is neither folder nor file adds no row and does not disturb the rows after it |
| `FolderView.EntryRowsInOrder` | src/folderView.js:70-97 | there is one row per folder or file entry, and the k-th row is that of the k-th such entry |
| `FolderView.EntryHref` | src/folderView.js:72-92 | a folder row links to `path + name + "/"` with the folder icon; a file row links to `path + name` with the resolved icon; both show the entry's name and pass its size (or none) to `item` |
| `FolderView.HrefSlashIffFolder` | src/folderView.js:73-92 | for non-empty names without `/`, a row's link ends with `/` exactly when the entry is a folder |
| `FolderView.ListingRowsShape` | src/folderView.js:69-97 | away from `/` the first row is the parent row (`far fa-folder`, label `..`, link `path + ".."`, no size argument), and at `/` there is none; the remaining rows are one per folder or file entry, in order |
| `FolderView.ListingMarkup` | src/folderView.js:69-97 | the listing markup is the parent row's markup (away from the root) followed by the entries' rows |
| `FolderView.RowsStep` | src/folderView.js:70-97 | scanning one more entry appends exactly that entry's row markup, or nothing for an unknown entry |
| `FolderView.ScanPrefixStep` | src/folderView.js:76-79 | scanning one more entry applies one step of the README scan to the state so far |
| `FolderView.ScanFoundIsFinal` | src/folderView.js:76-79 | once a README is found, later entries change neither `readmeExists` nor `readmeFetchUrl` |
| `FolderView.ReadmeFoundIff` | src/folderView.js:76-79 | `readmeExists` ends true exactly when some file's lower-cased name is `readme.md` |
| `FolderView.ReadmeUrlIsFirst` | src/folderView.js:76-79 | when a README exists, `readmeFetchUrl` is the download URL of the first one |
| `FolderView.ScanOutcome` | src/folderView.js:58-59 | after the scan, `readmeExists` holds exactly when a README exists, and then `readmeFetchUrl` is the first one's URL |
| `FolderView.DuplicateReadmeExample` | src/folderView.js:76-79 | with `README.md` then `ReadMe.MD`, the first one's URL is used and both still get rows |
| `FolderView.RootLayout` | src/folderView.js:69-101 | at `/` there is no parent row and no README (even if one exists), and the intro banner is shown |
| `FolderView.ReadmeLayout` | src/folderView.js:100-101 | away from `/` with a README, the parent row leads, the first README's markup follows the listing, and there is no intro |
| `FolderView.PlainLayout` | src/folderView.js:100-101 | away from `/` without a README, nothing follows the listing |
| `FolderView.RenderEntry` | src/folderView.js:71-96 | the callback returns the entry's row markup (nothing for an unknown entry) and applies one README scan step to `readmeExists`/`readmeFetchUrl` |
| `FolderView.ScanEntries` | src/folderView.js:70-97 | the pass renders exactly the entries' rows in order; its final `readmeExists`/`readmeFetchUrl` are those of the README fold, i.e. whether a README exists and the first one's URL |
| `FolderView.RenderFolderView` | src/folderView.js:36-104 | the page is the wrapper applied to the container of breadcrumb, listing, README block and intro block laid out by `PageLayout` |

## Left out

- External renderers (`renderHTML`, `renderPath`, `renderMarkdown`) and the two
  `font-awesome-filetypes` lookups are parameters without any contract. The `await` on
  `renderMarkdown` is an ordinary call, and a rejected promise is not modelled.
- `SizeFormat.ReadableFileSize`: the quotient is exact (`real`), not a double.
  `toFixed(1)` is the parameter `fixed1`. Double rounding near a unit boundary is not
  modelled, nor are magnitudes above 2^53.
- An item's size is an integer or absent. `parseInt` of a non-integral size, or of a
  number of 10^21 or more (printed in exponent form), is not modelled.
- `FolderView.ToLower` lower-cases ASCII letters only. The full Unicode mapping of
  `toLowerCase` is not modelled. It only matters for the comparison with `readme.md`.
- `console.log` for unknown items is left out: it has no effect on the page.
- The intro banner's inner text is abbreviated to a constant (`FolderView.IntroBanner`).
  Only its presence and position are modelled.
- An item with both a `folder` and a `file` facet is a folder in the source, because
  `'folder' in i` is tested first. The tagged `Entry` cannot express such an item, so it
  is written as a `Folder`.
- While no README has been found, every file overwrites `readmeFetchUrl`, even one not
  named `readme.md` (`FolderView.ScanStep`). That URL is never used unless a README is
  found.
