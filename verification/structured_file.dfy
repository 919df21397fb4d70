/** `AbstractStructuredFile`: a file of a header, a content list and a footer.
    Header and footer are kept in one-slot lists (a list only so that the XML
    writer omits a class attribute); a null header or footer is `None`. */
module StructuredFile {
  import opened Outcomes

  datatype StructuredFile<H, C, F> = StructuredFile(header: seq<Option<H>>, content: seq<C>, footer: seq<Option<F>>)

  /** The constructor taking a path name: three empty lists. */
  function NewStructuredFile<H, C, F>(): (f: StructuredFile<H, C, F>)
    ensures f.header == [] && f.content == [] && f.footer == []
  {
    StructuredFile([], [], [])
  }

  /** `getHeader`: the first element, or null when there is none. */
  function GetHeader<H, C, F>(f: StructuredFile<H, C, F>): (h: Option<H>)
    ensures |f.header| == 0 ==> h.None?
    ensures |f.header| > 0 ==> h == f.header[0]
  {
    if |f.header| > 0 then f.header[0] else None
  }

  /** `getFooter`: the first element, or null when there is none. */
  function GetFooter<H, C, F>(f: StructuredFile<H, C, F>): (x: Option<F>)
    ensures |f.footer| == 0 ==> x.None?
    ensures |f.footer| > 0 ==> x == f.footer[0]
  {
    if |f.footer| > 0 then f.footer[0] else None
  }

  /** `setHeader`: the list is cleared and then holds the header alone. */
  function SetHeader<H, C, F>(f: StructuredFile<H, C, F>, h: Option<H>): (r: StructuredFile<H, C, F>)
    ensures |r.header| == 1
    ensures r.content == f.content && r.footer == f.footer
  {
    f.(header := [h])
  }

  /** `setFooter`: the list is cleared and then holds the footer alone. */
  function SetFooter<H, C, F>(f: StructuredFile<H, C, F>, x: Option<F>): (r: StructuredFile<H, C, F>)
    ensures |r.footer| == 1
    ensures r.header == f.header && r.content == f.content
  {
    f.(footer := [x])
  }

  /** The argument of `setContent`: the file's own content list, as
      `getContent` hands it out, another list, or null. */
  datatype ContentSource<C> = OwnContent | Given(items: seq<C>) | NullList

  /** The file after `setContent`, and whether it raised
      `NullPointerException`. */
  datatype ContentUpdate<H, C, F> = ContentUpdate(file: StructuredFile<H, C, F>, raised: bool)

  /** `setContent`: the content list is cleared, then every element of the
      argument is added in order. Handed its own list, it adds from the list
      it has just cleared; handed null, `addAll` raises after the clear, so
      the content is left empty. */
  function SetContent<H, C, F>(f: StructuredFile<H, C, F>, source: ContentSource<C>): (r: ContentUpdate<H, C, F>)
    ensures r.file.header == f.header && r.file.footer == f.footer
    ensures r.raised <==> source.NullList?
    ensures source.Given? ==> r.file.content == source.items
    ensures !source.Given? ==> r.file.content == []
  {
    match source
    case OwnContent => ContentUpdate(f.(content := []), false)
    case Given(items) => ContentUpdate(f.(content := items), false)
    case NullList => ContentUpdate(f.(content := []), true)
  }

  /** A header or footer set is the one read back, and setting one part never
      changes the other two. */
  lemma SetThenGet<H, C, F>(f: StructuredFile<H, C, F>, h: Option<H>, x: Option<F>)
    ensures GetHeader(SetHeader(f, h)) == h && GetFooter(SetHeader(f, h)) == GetFooter(f)
    ensures GetFooter(SetFooter(f, x)) == x && GetHeader(SetFooter(f, x)) == GetHeader(f)
    ensures GetHeader(SetHeader(SetHeader(f, h), h)) == h
  {
  }

  /** `setContent(getContent())` empties the content, while setting a copy of
      the content keeps it. */
  lemma SetOwnContent<H, C, F>(f: StructuredFile<H, C, F>)
    ensures SetContent(f, OwnContent) == ContentUpdate(f.(content := []), false)
    ensures SetContent(f, Given(f.content)) == ContentUpdate(f, false)
  {
  }
}
