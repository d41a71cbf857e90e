/**
 * Icon choice for a file row: a MIME-type lookup first, then a markdown
 * special case, then a file-name lookup. Both lookups belong to an icon
 * library and are parameters here.
 */
module Icons {

  datatype IconLookup = IconLookup(byMimeType: string -> string, byFilename: string -> string)

  /** What the MIME lookup returns when it knows nothing better. */
  const GenericFileIcon: string := "fa-file"
  const FolderIcon: string := "far fa-folder"
  const MarkdownIcon: string := "fab fa-markdown"

  /**
   * `s.split(sep).pop()`: the text after the last `sep`, or all of `s` when
   * it has none.
   */
  function LastSegment(s: string, sep: char): (r: string)
    ensures sep !in r
    ensures |r| <= |s| && r == s[|s| - |r|..]
    ensures |r| < |s| ==> s[|s| - |r| - 1] == sep
  {
    if s == [] then []
    else if s[|s| - 1] == sep then []
    else LastSegment(s[..|s| - 1], sep) + [s[|s| - 1]]
  }

  /** The class string of a file's `<i>` element. */
  function FileIcon(name: string, mimeType: string, lookup: IconLookup): string {
    var byMime := lookup.byMimeType(mimeType);
    if byMime == GenericFileIcon then
      if LastSegment(name, '.') == "md" then MarkdownIcon else "far " + lookup.byFilename(name)
    else "far " + byMime
  }

  /** A name without the separator is its own last segment. */
  lemma LastSegmentWhole(s: string, sep: char)
    requires sep !in s
    ensures LastSegment(s, sep) == s
  {
    var r := LastSegment(s, sep);
    assert |r| == |s|;
  }

  /** A regular-weight class never equals the markdown icon. */
  lemma RegularIsNotMarkdown(iconName: string)
    ensures "far " + iconName != MarkdownIcon
  {
    assert ("far " + iconName)[2] == 'r';
  }

  /**
   * The markdown icon is chosen exactly when the MIME lookup is generic and
   * the last dot-segment is "md"; otherwise the icon is a regular-weight one.
   */
  lemma MarkdownIconIff(name: string, mimeType: string, lookup: IconLookup)
    ensures FileIcon(name, mimeType, lookup) == MarkdownIcon <==>
      lookup.byMimeType(mimeType) == GenericFileIcon && LastSegment(name, '.') == "md"
    ensures FileIcon(name, mimeType, lookup) != MarkdownIcon ==>
      FileIcon(name, mimeType, lookup)[..4] == "far "
  {
    RegularIsNotMarkdown(lookup.byMimeType(mimeType));
    RegularIsNotMarkdown(lookup.byFilename(name));
    var icon := FileIcon(name, mimeType, lookup);
    assert icon != MarkdownIcon ==> icon[..4] == "far ";
  }

  /** The specific MIME icon wins; the file-name icon is used only behind a generic MIME icon. */
  lemma FileIconPrecedence(name: string, mimeType: string, lookup: IconLookup)
    ensures lookup.byMimeType(mimeType) != GenericFileIcon ==>
      FileIcon(name, mimeType, lookup) == "far " + lookup.byMimeType(mimeType)
    ensures lookup.byMimeType(mimeType) == GenericFileIcon && LastSegment(name, '.') != "md" ==>
      FileIcon(name, mimeType, lookup) == "far " + lookup.byFilename(name)
  {
  }

  /** A dotted name ending in ".md" gets the markdown icon behind a generic MIME icon. */
  lemma MarkdownExtensionExample(mimeType: string, lookup: IconLookup)
    requires lookup.byMimeType(mimeType) == GenericFileIcon
    ensures FileIcon("a.tar.md", mimeType, lookup) == MarkdownIcon
  {
    assert LastSegment("a.tar.md", '.') == "md";
  }

  /** A name without a dot is compared whole: "md" itself counts as markdown. */
  lemma DotlessNameExample(mimeType: string, lookup: IconLookup)
    requires lookup.byMimeType(mimeType) == GenericFileIcon
    ensures FileIcon("md", mimeType, lookup) == MarkdownIcon
  {
    LastSegmentWhole("md", '.');
  }

  /** The extension test is case-sensitive: "NOTES.MD" falls back to the file-name lookup. */
  lemma UpperCaseExtensionExample(mimeType: string, lookup: IconLookup)
    requires lookup.byMimeType(mimeType) == GenericFileIcon
    ensures FileIcon("NOTES.MD", mimeType, lookup) == "far " + lookup.byFilename("NOTES.MD")
  {
    assert LastSegment("NOTES.MD", '.') == "MD";
  }
}
