/**
 * The string builders of the folder view: `el`, `div` and `item`. They
 * concatenate text and escape nothing.
 */
module Markup {
  import opened Wrappers
  import opened Decimal
  import opened SizeFormat

  /** `parts.join(sep)`: the parts in order with `sep` between neighbours. */
  function Join(parts: seq<string>, sep: string): (r: string)
    ensures |parts| == 0 ==> r == ""
  {
    if |parts| == 0 then ""
    else if |parts| == 1 then parts[0]
    else Join(parts[..|parts| - 1], sep) + sep + parts[|parts| - 1]
  }

  /** `xs.map(f).join('')`: the markup of each element, in order. */
  function ConcatMap<T>(xs: seq<T>, f: T -> string): string {
    if xs == [] then "" else ConcatMap(xs[..|xs| - 1], f) + f(xs[|xs| - 1])
  }

  lemma {:induction false} ConcatMapAppend<T>(a: seq<T>, b: seq<T>, f: T -> string)
    ensures ConcatMap(a + b, f) == ConcatMap(a, f) + ConcatMap(b, f)
    decreases |b|
  {
    if b == [] {
      assert a + b == a;
    } else {
      var b' := b[..|b| - 1];
      assert (a + b)[..|a + b| - 1] == a + b';
      ConcatMapAppend(a, b', f);
    }
  }

  lemma ConcatMapSingle<T>(x: T, f: T -> string)
    ensures ConcatMap([x], f) == f(x)
  {
    assert [x][..0] == [];
  }

  lemma ConcatMapSnoc<T>(xs: seq<T>, x: T, f: T -> string)
    ensures ConcatMap(xs + [x], f) == ConcatMap(xs, f) + f(x)
  {
    ConcatMapAppend(xs, [x], f);
    ConcatMapSingle(x, f);
  }

  /** `el(tag, attrs, content)`: `<tag attrs>content</tag>`, one space after the tag name. */
  function El(tag: string, attrs: seq<string>, content: string): string {
    "<" + tag + " " + Join(attrs, " ") + ">" + content + "</" + tag + ">"
  }

  /** `div(className, content)`: the class value is written unquoted. */
  function Div(className: string, content: string): string {
    El("div", ["class=" + className], content)
  }

  /** `parseInt` of an item's size: `undefined` parses to NaN. */
  function ParseSize(size: Option<int>): Parsed {
    match size
    case None => NaN
    case Some(n) => Int(n)
  }

  /** The size attribute: present only for a truthy size, i.e. a number other than 0. */
  function SizeAttr(size: Option<int>): string {
    if size.Some? && size.value != 0 then "size=\"" + IntToString(size.value) + "\"" else ""
  }

  /** The size cell: absent when the displayed name is "..", else a binary-unit label. */
  function SizeCell(fileName: string, size: Option<int>, fixed1: real -> string): string {
    if fileName == ".." then "" else El("span", ["class=\"size\""], SizeLabel(ParseSize(size), false, fixed1))
  }

  /** `item(icon, fileName, fileAbsoluteUrl, size)`: one clickable listing row. */
  function Item(icon: string, fileName: string, href: string, size: Option<int>, fixed1: real -> string): string {
    El("a", ["href=\"" + href + "\"", "class=\"item\"", SizeAttr(size)],
      El("i", ["class=\"" + icon + "\""], "") + fileName +
      El("div", ["style=\"flex-grow: 1;\""], "") + SizeCell(fileName, size, fixed1))
  }

  /** Three attributes are written with one space between neighbours. */
  lemma JoinThree(a: string, b: string, c: string)
    ensures Join([a, b, c], " ") == a + " " + b + " " + c
  {
    assert [a, b][..1] == [a];
    assert Join([a, b], " ") == a + " " + b;
    assert [a, b, c][..2] == [a, b];
  }

  /**
   * The attribute list of a row without a size keeps the separating space:
   * the size attribute is empty but still joined.
   */
  lemma ItemAttrsWithoutSize(href: string, size: Option<int>)
    requires size.None? || size.value == 0
    ensures Join(["href=\"" + href + "\"", "class=\"item\"", SizeAttr(size)], " ") ==
      "href=\"" + href + "\"" + " " + "class=\"item\"" + " "
  {
    JoinThree("href=\"" + href + "\"", "class=\"item\"", SizeAttr(size));
  }

  /** The size attribute is written exactly for a size other than 0 and undefined. */
  lemma SizeAttrIff(size: Option<int>)
    ensures SizeAttr(size) != "" <==> size.Some? && size.value != 0
    ensures SizeAttr(size) != "" ==> SizeAttr(size) == "size=\"" + IntToString(size.value) + "\""
  {
  }

  /**
   * A row shows a size cell exactly when its name is not "..", and the cell
   * holds the size in binary units (threshold 1024).
   */
  lemma SizeCellIff(fileName: string, size: Option<int>, fixed1: real -> string)
    ensures SizeCell(fileName, size, fixed1) == "" <==> fileName == ".."
    ensures fileName != ".." ==>
      SizeCell(fileName, size, fixed1) == El("span", ["class=\"size\""], SizeLabel(ParseSize(size), false, fixed1))
  {
    var cell := El("span", ["class=\"size\""], SizeLabel(ParseSize(size), false, fixed1));
    assert cell[0] == '<';
  }

  /** A row with a size below 1024 shows it as plain bytes. */
  lemma SmallSizeCell(fileName: string, n: int, fixed1: real -> string)
    requires fileName != ".." && Abs(n) < 1024
    ensures SizeCell(fileName, Some(n), fixed1) == El("span", ["class=\"size\""], IntToString(n) + " B")
  {
    SmallSizeInBytes(n, false, fixed1);
  }

  /** A row whose item has no size gets no size attribute and the cell "NaN KiB". */
  lemma MissingSizeCell(fileName: string, fixed1: real -> string)
    requires fileName != ".."
    ensures SizeAttr(None) == ""
    ensures SizeCell(fileName, None, fixed1) == El("span", ["class=\"size\""], "NaN KiB")
  {
    NaNExample(fixed1);
  }
}
