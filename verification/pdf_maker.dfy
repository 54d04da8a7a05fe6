/**
 * The content of the PDF booklet (note_editor/pdf_maker.py): a first page
 * holding a two-column table of contents, titles and authors each sorted on
 * their own and linked to the notes' anchors, followed by one page per note
 * in list order. ReportLab's flowables are modelled as a datatype; rendering
 * them is not part of the model.
 */
module PdfMaker {
  import opened Strings
  import opened Sorting
  import opened TabExpansion
  import opened Notes

  /** A sample style sheet entry, by name, at a font size. */
  datatype Style = Style(name: string, size: nat)

  /** The flowables the document is built from. */
  datatype Flowable =
    | Para(text: string, style: Style)
    | Rule
    | Space
    | Pre(text: string, style: Style)
    | Table(rows: seq<Row>)
    | PageBreak

  /** A row of the table of contents: a title cell and an author cell. */
  datatype Row = Row(left: Flowable, right: Flowable)

  const BodyStyle := Style("BodyText", 10)
  const HeadStyle := Style("BodyText", 12)

  /** The fields of a note the document reads. */
  predicate Printable(note: Note)
  {
    && "title" in note && "subtitle" in note && "author" in note && "year" in note
    && "media_type" in note && "episode" in note && "link" in note
    && "one_liner" in note && "notes" in note
  }

  predicate AllPrintable(notes: seq<Note>)
  {
    forall k :: 0 <= k < |notes| ==> Printable(notes[k])
  }

  /** Every note that follows the category schema can be printed. */
  lemma ConformingIsPrintable(notes: seq<Note>)
    requires forall k :: 0 <= k < |notes| ==> Conforms(notes[k])
    ensures AllPrintable(notes)
  {
    forall k | 0 <= k < |notes|
      ensures Printable(notes[k])
    {
      ConformsFields(notes[k]);
    }
  }

  // ----- anchors and links -----

  function AnchorName(i: nat): string
  {
    "anchor_" + NatToString(i)
  }

  /** The anchor set in front of the title of the note at position `i`. */
  function AnchorTag(i: nat): string
  {
    "<a name=\"" + AnchorName(i) + "\"/>"
  }

  /** The opening of a table-of-contents link to the note at position `i`. */
  function LinkOpen(i: nat): string
  {
    "<link href=\"#" + AnchorName(i) + "\" color=\"blue\">"
  }

  lemma DigitsBeforeQuote(d: string, e: string, t: string, u: string)
    requires forall k :: 0 <= k < |d| ==> '0' <= d[k] <= '9'
    requires forall k :: 0 <= k < |e| ==> '0' <= e[k] <= '9'
    requires d + t == e + u
    requires |t| > 0 && |u| > 0 && t[0] == '"' && u[0] == '"'
    ensures d == e
  {
    var m := if |d| < |e| then |d| else |e|;
    assert (d + t)[m] == (e + u)[m];
    assert |d| == |e|;
    assert d == (d + t)[..|d|];
    assert e == (e + u)[..|e|];
  }

  /**
   * A title paragraph names exactly one anchor: whatever the titles, the
   * text of the title paragraph of note `i` cannot also be read as starting
   * with the anchor of note `j`.
   */
  lemma AnchorTagUnique(i: nat, j: nat, t: string, u: string)
    requires AnchorTag(i) + t == AnchorTag(j) + u
    ensures i == j
  {
    var a, b, q := "<a name=\"", "anchor_", "\"/>";
    var l, r := NatToString(i) + (q + t), NatToString(j) + (q + u);
    assert (a + b) + l == (a + b) + r by {
      Regroup4(a, b, NatToString(i), q, t);
      Regroup4(a, b, NatToString(j), q, u);
    }
    CancelPrefix(a + b, l, r);
    DigitsBeforeQuote(NatToString(i), NatToString(j), q + t, q + u);
    if i != j {
      NatToStringInjective(i, j);
    }
  }

  lemma Regroup4<T>(a: seq<T>, b: seq<T>, n: seq<T>, q: seq<T>, t: seq<T>)
    ensures a + (b + n) + q + t == (a + b) + (n + (q + t))
  {
  }

  lemma CancelPrefix<T>(p: seq<T>, l: seq<T>, r: seq<T>)
    requires p + l == p + r
    ensures l == r
  {
    assert l == (p + l)[|p|..];
    assert r == (p + r)[|p|..];
  }

  /** A link and an anchor with the same number name the same target. */
  lemma LinkMatchesAnchor(i: nat)
    ensures LinkOpen(i)[|"<link href=\"#"|..][..|AnchorName(i)|] == AnchorName(i)
    ensures AnchorTag(i)[|"<a name=\""|..][..|AnchorName(i)|] == AnchorName(i)
  {
    assert LinkOpen(i) == "<link href=\"#" + (AnchorName(i) + "\" color=\"blue\">");
    assert AnchorTag(i) == "<a name=\"" + (AnchorName(i) + "\"/>");
  }

  // ----- one page per note -----

  /** `note['title'].casefold().capitalize()`. */
  function Label(s: string): (r: string)
    ensures |r| == |s|
  {
    Capitalize(CaseFold(s))
  }

  function EpisodePart(episode: string): string
  {
    if episode == "" then "" else " - episode: " + episode
  }

  function LinkPart(link: string): string
  {
    if link == "" then "" else "<br />\n" + "<link href=\"" + link + "\">" + "External Resource" + "</link>"
  }

  /** The media line: the media type, then the episode and a link to the resource when they are given. */
  function MediaLine(note: Note): string
    requires Printable(note)
  {
    note["media_type"] + EpisodePart(note["episode"]) + LinkPart(note["link"])
  }

  /** The subtitle paragraph, present only for a non-empty subtitle. */
  function SubtitleBlock(note: Note): (block: seq<Flowable>)
    requires Printable(note)
    ensures PageBreak !in block
  {
    if note["subtitle"] == "" then [] else [Para(note["subtitle"], Style("Title", 12))]
  }

  /** The title paragraph, behind the anchor of the note's position. */
  function TitlePara(note: Note, number: nat): Flowable
    requires Printable(note)
  {
    Para(AnchorTag(number) + note["title"], Style("Title", 20))
  }

  /** The page after its title and subtitle. */
  function PageBody(note: Note): seq<Flowable>
    requires Printable(note)
  {
    [ Para(note["author"] + " (" + note["year"] + ")", Style("Title", 14)),
      Para(MediaLine(note), Style("Title", 10)),
      Rule,
      Para(note["one_liner"], Style("BodyText", 12)),
      Space,
      Rule,
      Pre(Formatted(note["notes"]), Style("BodyText", 12)),
      PageBreak ]
  }

  /** The flowables of the page of `note`, found at position `number` of the list. */
  function Page(note: Note, number: nat): seq<Flowable>
    requires Printable(note)
  {
    [TitlePara(note, number)] + SubtitleBlock(note) + PageBody(note)
  }

  lemma AnchorText(i: nat)
    ensures "<a name=\"anchor_" + NatToString(i) + "\"/>" == AnchorTag(i)
  {
  }

  /** `add_page`. */
  method AddPage(note: Note, number: nat) returns (flowables: seq<Flowable>)
    requires Printable(note)
    ensures flowables == Page(note, number)
  {
    flowables := [];
    var anchor := "<a name=\"anchor_" + NatToString(number) + "\"/>";
    AnchorText(number);
    var text := anchor + note["title"];
    flowables := flowables + [Para(text, Style("Title", 20))];
    assert flowables == [TitlePara(note, number)];
    if note["subtitle"] != "" {
      flowables := flowables + [Para(note["subtitle"], Style("Title", 12))];
    }
    ghost var head := flowables;
    assert head == [TitlePara(note, number)] + SubtitleBlock(note);
    text := note["author"] + " (" + note["year"] + ")";
    flowables := flowables + [Para(text, Style("Title", 14))];
    ghost var byline := Para(text, Style("Title", 14));
    text := note["media_type"];
    if note["episode"] != "" {
      text := text + " - episode: " + note["episode"];
    }
    assert text == note["media_type"] + EpisodePart(note["episode"]);
    if note["link"] != "" {
      ghost var before := text;
      text := text + "<br />\n" + "<link href=\"" + note["link"] + "\">" + "External Resource" + "</link>";
      assert text == before + LinkPart(note["link"]) by {
        AppendParts(before, "<br />\n", "<link href=\"", note["link"], "\">", "External Resource", "</link>");
      }
    }
    assert text == MediaLine(note);
    flowables := flowables + [Para(text, Style("Title", 10))];
    ghost var media := Para(text, Style("Title", 10));
    text := note["one_liner"];
    flowables := flowables + [Rule, Para(text, Style("BodyText", 12)), Space, Rule];
    ghost var summary := [Rule, Para(text, Style("BodyText", 12)), Space, Rule];
    text := FormatStr(note["notes"]);
    flowables := flowables + [Pre(text, Style("BodyText", 12))];
    flowables := flowables + [PageBreak];
    assert flowables == head + PageBody(note) by {
      Assemble(head, byline, media, summary, Pre(text, Style("BodyText", 12)), PageBreak);
    }
  }

  /**
   * The shape of a page: the anchored title first, a subtitle paragraph
   * exactly when there is a subtitle, then the body of the page (author and
   * year, the media line, the one-liner between two rules, the notes with
   * their tabs expanded), and a page break that is the page's only one and
   * its last flowable.
   */
  lemma PageShape(note: Note, number: nat)
    requires Printable(note)
    ensures var p := Page(note, number);
            var o := if note["subtitle"] == "" then 1 else 2;
            && |p| == o + 8
            && p[0] == Para(AnchorTag(number) + note["title"], Style("Title", 20))
            && (note["subtitle"] != "" <==> p[1] == Para(note["subtitle"], Style("Title", 12)))
            && p[o..] == PageBody(note)
            && p[|p| - 1] == PageBreak
            && multiset(p)[PageBreak] == 1
  {
    var p := Page(note, number);
    var head, body := [TitlePara(note, number)] + SubtitleBlock(note), PageBody(note);
    assert p == head + body;
    SplitParts(head, body);
    assert p[1] == if note["subtitle"] == "" then body[0] else head[1];
    PageBreakOnce(note, number);
  }

  lemma PageBreakOnce(note: Note, number: nat)
    requires Printable(note)
    ensures multiset(Page(note, number))[PageBreak] == 1
  {
    var head, body := [TitlePara(note, number)] + SubtitleBlock(note), PageBody(note);
    assert PageBreak !in head;
    LastOnly(body, PageBreak);
    CountAfter(head, body, PageBreak);
  }

  lemma CountAfter<T>(a: seq<T>, b: seq<T>, x: T)
    requires x !in a
    ensures multiset(a + b)[x] == multiset(b)[x]
  {
    assert multiset(a + b) == multiset(a) + multiset(b);
  }

  lemma AppendParts<T>(t: seq<T>, a: seq<T>, b: seq<T>, l: seq<T>, c: seq<T>, d: seq<T>, e: seq<T>)
    ensures t + a + b + l + c + d + e == t + (a + b + l + c + d + e)
  {
  }

  /** The appends of `add_page` after the subtitle, regrouped. */
  lemma Assemble<T>(head: seq<T>, a: T, b: T, c: seq<T>, d: T, e: T)
    requires |c| == 4
    ensures head + [a] + [b] + c + [d] + [e] == head + [a, b, c[0], c[1], c[2], c[3], d, e]
  {
  }

  /** A sequence made of two parts gives each part back. */
  lemma SplitParts<T>(a: seq<T>, b: seq<T>)
    ensures (a + b)[..|a|] == a && (a + b)[|a|..] == b
  {
  }

  /** The notes are set without a tab; a text with no tab keeps its characters. */
  lemma PageNotesExpanded(note: Note, number: nat)
    requires Printable(note)
    ensures var pre := Page(note, number)[|Page(note, number)| - 2];
            && pre.Pre?
            && '\t' !in pre.text
            && ('\t' !in note["notes"] ==> pre.text == DropFinalNewline(note["notes"]))
  {
    FormattedHasNoTab(note["notes"]);
    if '\t' !in note["notes"] {
      FormattedTabFree(note["notes"]);
    }
  }

  /**
   * The media line is the bare media type exactly when neither episode nor
   * link is given; a given episode follows the media type, and a given link
   * closes the line as an "External Resource" link to it. A field left
   * empty contributes nothing.
   */
  lemma MediaLineParts(note: Note)
    requires Printable(note)
    ensures MediaLine(note) == note["media_type"] <==> note["episode"] == "" && note["link"] == ""
    ensures var m := |note["media_type"]|;
            note["episode"] != "" ==>
              MediaLine(note)[m..][..12 + |note["episode"]|] == " - episode: " + note["episode"]
    ensures note["link"] != "" ==>
              MediaLine(note)[|MediaLine(note)| - |LinkPart(note["link"])|..] == LinkPart(note["link"])
    ensures note["episode"] == "" ==> MediaLine(note) == note["media_type"] + LinkPart(note["link"])
    ensures note["link"] == "" ==> MediaLine(note) == note["media_type"] + EpisodePart(note["episode"])
  {
    var media, ep, link := note["media_type"], EpisodePart(note["episode"]), LinkPart(note["link"]);
    assert MediaLine(note) == media + (ep + link);
    if note["episode"] != "" {
      assert (media + (ep + link))[|media|..] == ep + link;
      assert (ep + link)[..|ep|] == ep;
    }
    if MediaLine(note) == media {
      assert |ep + link| == 0;
    }
  }

  // ----- the table of contents -----

  /** The label of one field, "title" or "author", of every note, in list order. */
  function Labels(notes: seq<Note>, field: string): (labels: seq<string>)
    requires AllPrintable(notes) && (field == "title" || field == "author")
    ensures |labels| == |notes|
  {
    seq(|notes|, i requires 0 <= i < |notes| => Label(notes[i][field]))
  }

  /** The cell of the table of contents for the note at position `i`: a link to its anchor. */
  function TocEntry(labels: seq<string>, i: nat): Flowable
    requires i < |labels|
  {
    Para(LinkOpen(i) + labels[i] + "</link>", BodyStyle)
  }

  /**
   * A column is sorted on each label followed by a suffix. The source sorts
   * on the cell text, whose label is followed by the link's closing tag; the
   * corrected order sorts on the label alone.
   */
  const AsWrittenSuffix := "</link>"
  const LabelOnly := ""

  /** The items sorted for one column: each position with its label followed by `suffix`. */
  function SortKeys(labels: seq<string>, suffix: string): (keys: seq<Keyed>)
    ensures |keys| == |labels|
    ensures IndicesIncreasing(keys)
  {
    seq(|labels|, i requires 0 <= i < |labels| => Keyed(i, labels[i] + suffix))
  }

  /** Position `i` is listed somewhere in `order`. */
  predicate Listed(order: seq<Keyed>, i: nat)
  {
    exists j :: 0 <= j < |order| && order[j].index == i
  }

  /** A permutation of the items of `keys` takes its positions from `0..|keys|`, each once. */
  lemma {:induction false} PermutedPositions(keys: seq<Keyed>, order: seq<Keyed>)
    requires forall i :: 0 <= i < |keys| ==> keys[i].index == i
    requires multiset(order) == multiset(keys)
    ensures |order| == |keys|
    ensures forall j :: 0 <= j < |order| ==> order[j].index < |keys| && order[j] == keys[order[j].index]
    ensures forall i :: 0 <= i < |keys| ==> Listed(order, i)
  {
    assert |order| == |multiset(order)| == |multiset(keys)| == |keys|;
    forall j | 0 <= j < |order|
      ensures order[j].index < |keys| && order[j] == keys[order[j].index]
    {
      assert order[j] in multiset(keys);
      var i :| 0 <= i < |keys| && keys[i] == order[j];
    }
    forall i | 0 <= i < |keys|
      ensures Listed(order, i)
    {
      assert keys[i] in multiset(order);
        var j :| 0 <= j < |order| && order[j] == keys[i];
      assert order[j].index == i;
    }
  }

  /** The order of one column: the stable sort of the positions by their keys. */
  function TocOrder(labels: seq<string>, suffix: string): (order: seq<Keyed>)
    ensures |order| == |labels|
    ensures forall j :: 0 <= j < |order| ==>
              order[j].index < |labels| && order[j].key == labels[order[j].index] + suffix
  {
    var order := SortByKey(SortKeys(labels, suffix));
    PermutedPositions(SortKeys(labels, suffix), order);
    order
  }

  /**
   * A column lists every note once, in the order of the keys, notes with
   * equal keys in list order.
   */
  lemma TocOrderSorted(labels: seq<string>, suffix: string)
    ensures var order := TocOrder(labels, suffix);
            && (forall i :: 0 <= i < |labels| ==> Listed(order, i))
            && (forall j, j' :: 0 <= j < j' < |order| ==> order[j].index != order[j'].index)
            && (forall j, j' :: 0 <= j < j' < |order| ==>
                  Less(order[j].key, order[j'].key)
                  || (order[j].key == order[j'].key && order[j].index < order[j'].index))
  {
    var order := TocOrder(labels, suffix);
    PermutedPositions(SortKeys(labels, suffix), order);
    SortOrdered(SortKeys(labels, suffix));
    forall j, j' | 0 <= j < j' < |order|
      ensures order[j].index != order[j'].index
    {
      LessIrreflexive(order[j].key);
    }
  }

  /**
   * The corrected order: a column lists every note once, in label order,
   * notes with equal labels in list order.
   */
  lemma TocOrderByLabel(labels: seq<string>)
    ensures var order := TocOrder(labels, LabelOnly);
            && (forall i :: 0 <= i < |labels| ==> Listed(order, i))
            && (forall j, j' :: 0 <= j < j' < |order| ==> order[j].index != order[j'].index)
            && (forall j, j' :: 0 <= j < j' < |order| ==>
                  Less(labels[order[j].index], labels[order[j'].index])
                  || (labels[order[j].index] == labels[order[j'].index] && order[j].index < order[j'].index))
  {
    var order := TocOrder(labels, LabelOnly);
    TocOrderSorted(labels, LabelOnly);
    forall j | 0 <= j < |order|
      ensures order[j].key == labels[order[j].index]
    {
      assert labels[order[j].index] + LabelOnly == labels[order[j].index];
    }
  }

  /** Sorting on the key that ends in `</link>` puts "Dune 2" before "Dune", although "Dune" < "Dune 2". */
  lemma {:induction false} AsWrittenKeyInverts(a: string, c: char, rest: string)
    requires c < '<'
    ensures Less(a, a + [c] + rest)
    ensures Less(a + [c] + rest + "</link>", a + "</link>")
  {
    if a != [] {
      AsWrittenKeyInverts(a[1..], c, rest);
      assert (a + [c] + rest)[1..] == a[1..] + [c] + rest;
      assert (a + [c] + rest + "</link>")[1..] == a[1..] + [c] + rest + "</link>";
      assert (a + "</link>")[1..] == a[1..] + "</link>";
    } else {
      assert a + [c] + rest + "</link>" == [c] + (rest + "</link>");
    }
  }

  /** The two orders of the titles "Dune" and "Dune 2". */
  lemma AsWrittenTocMisorders()
    ensures TocOrder(["Dune", "Dune 2"], AsWrittenSuffix)[0].index == 1
    ensures TocOrder(["Dune", "Dune 2"], LabelOnly)[0].index == 0
  {
    var labels := ["Dune", "Dune 2"];
    AsWrittenKeyInverts("Dune", ' ', "2");
    assert labels[1] == "Dune" + [' '] + "2";
    TocOrderSorted(labels, AsWrittenSuffix);
    TocOrderByLabel(labels);
    var order := TocOrder(labels, LabelOnly);
    assert Listed(order, 0);
    if order[0].index != 0 {
      LessAsymmetric(labels[0], labels[1]);
    }
  }

  /** One column of the table of contents, sorted on the labels followed by `suffix`. */
  function TocColumn(labels: seq<string>, suffix: string): (column: seq<Flowable>)
    ensures |column| == |labels|
  {
    var order := TocOrder(labels, suffix);
    seq(|order|, j requires 0 <= j < |order| => TocEntry(labels, order[j].index))
  }

  /** `zip`, which stops at the shorter list. */
  function Zip(a: seq<Flowable>, b: seq<Flowable>): (rows: seq<Row>)
    ensures |rows| == if |a| < |b| then |a| else |b|
    ensures forall k :: 0 <= k < |rows| ==> rows[k] == Row(a[k], b[k])
  {
    if a == [] || b == [] then [] else [Row(a[0], b[0])] + Zip(a[1..], b[1..])
  }

  const TableHead := Row(Para("title", HeadStyle), Para("author", HeadStyle))

  /** The table of contents: the head, then the title and author columns side by side. */
  function TocTable(notes: seq<Note>, suffix: string): (table: Flowable)
    requires AllPrintable(notes)
    ensures table.Table? && |table.rows| == |notes| + 1 && table.rows[0] == TableHead
    ensures forall j :: 0 <= j < |notes| ==>
              table.rows[j + 1] == Row(TocColumn(Labels(notes, "title"), suffix)[j], TocColumn(Labels(notes, "author"), suffix)[j])
  {
    var titles, authors := TocColumn(Labels(notes, "title"), suffix), TocColumn(Labels(notes, "author"), suffix);
    var rows := Zip(titles, authors);
    assert |titles| == |authors| == |rows| == |notes|;
    Table([TableHead] + rows)
  }

  /**
   * `make_first_page`: the heading, the table of contents and a page break.
   * With `AsWrittenSuffix` this is the page the source builds, with
   * `LabelOnly` the page with the corrected column order.
   */
  function MakeFirstPage(notes: seq<Note>, suffix: string): (page: seq<Flowable>)
    requires AllPrintable(notes)
    ensures |page| == 4 && page[2] == TocTable(notes, suffix) && page[3] == PageBreak
    ensures page[0].Para? && page[1].Para?
  {
    [Para("Table of content", Style("Title", 14)), Para("ordered by", Style("Title", 10)), TocTable(notes, suffix), PageBreak]
  }

  /**
   * Every row of the table after the head pairs the j-th title cell with
   * the j-th author cell, and each cell links to a note of the list. That
   * each column lists every note once, in key order, is `TocOrderSorted`.
   */
  lemma TableRows(notes: seq<Note>, suffix: string, j: nat)
    requires AllPrintable(notes) && j < |notes|
    ensures var row := TocTable(notes, suffix).rows[j + 1];
            && row.left == TocColumn(Labels(notes, "title"), suffix)[j]
            && row.right == TocColumn(Labels(notes, "author"), suffix)[j]
            && (exists i :: 0 <= i < |notes| && row.left == TocEntry(Labels(notes, "title"), i))
            && (exists i :: 0 <= i < |notes| && row.right == TocEntry(Labels(notes, "author"), i))
  {
    var t, a := TocOrder(Labels(notes, "title"), suffix), TocOrder(Labels(notes, "author"), suffix);
    assert TocColumn(Labels(notes, "title"), suffix)[j] == TocEntry(Labels(notes, "title"), t[j].index);
    assert TocColumn(Labels(notes, "author"), suffix)[j] == TocEntry(Labels(notes, "author"), a[j].index);
  }

  // ----- the whole document -----

  /** The concatenation of `parts`, in order. */
  function Concat<T>(parts: seq<seq<T>>): seq<T>
  {
    if parts == [] then [] else Concat(parts[..|parts| - 1]) + parts[|parts| - 1]
  }

  /** The concatenation of the first parts is the start of the concatenation of all. */
  lemma {:induction false} ConcatPrefix<T>(parts: seq<seq<T>>, m: nat)
    requires m <= |parts|
    ensures |Concat(parts[..m])| <= |Concat(parts)|
    ensures Concat(parts)[..|Concat(parts[..m])|] == Concat(parts[..m])
  {
    if m < |parts| {
      var init := parts[..|parts| - 1];
      assert init[..m] == parts[..m];
      ConcatPrefix(init, m);
    } else {
      assert parts[..m] == parts;
    }
  }

  /** Part `i` follows the parts before it. */
  lemma ConcatAt<T>(parts: seq<seq<T>>, i: nat)
    requires i < |parts|
    ensures var start := |Concat(parts[..i])|;
            && start + |parts[i]| <= |Concat(parts)|
            && Concat(parts)[start..start + |parts[i]|] == parts[i]
  {
    ConcatSnoc(parts, i);
    ConcatPrefix(parts, i + 1);
  }

  lemma ConcatAppend<T>(parts: seq<seq<T>>, part: seq<T>)
    ensures Concat(parts + [part]) == Concat(parts) + part
  {
    assert (parts + [part])[..|parts|] == parts;
  }

  lemma ConcatSnoc<T>(parts: seq<seq<T>>, i: nat)
    requires i < |parts|
    ensures Concat(parts[..i + 1]) == Concat(parts[..i]) + parts[i]
  {
    var first := parts[..i + 1];
    assert first[..i] == parts[..i];
  }

  /** Parts holding `x` once each hold it once per part together. */
  lemma {:induction false} ConcatCount<T>(parts: seq<seq<T>>, x: T)
    requires forall k :: 0 <= k < |parts| ==> multiset(parts[k])[x] == 1
    ensures multiset(Concat(parts))[x] == |parts|
  {
    if parts != [] {
      ConcatCount(parts[..|parts| - 1], x);
    }
  }

  lemma FourthOnly<T>(s: seq<T>, x: T)
    requires |s| == 4 && s[3] == x && s[0] != x && s[1] != x && s[2] != x
    ensures multiset(s)[x] == 1
  {
    assert s == [s[0], s[1], s[2]] + [x];
  }

  lemma LastOnly<T>(s: seq<T>, x: T)
    requires |s| > 0 && s[|s| - 1] == x
    requires forall k :: 0 <= k < |s| - 1 ==> s[k] != x
    ensures multiset(s)[x] == 1
  {
    assert s == s[..|s| - 1] + [x];
    assert x !in s[..|s| - 1];
  }

  /** The pages of the notes, in list order, each numbered by its position. */
  function PageList(notes: seq<Note>, n: nat): (pages: seq<seq<Flowable>>)
    requires AllPrintable(notes) && n <= |notes|
    ensures |pages| == n
    ensures forall i :: 0 <= i < n ==> pages[i] == Page(notes[i], i)
  {
    if n == 0 then [] else PageList(notes, n - 1) + [Page(notes[n - 1], n - 1)]
  }

  /** The flowables `make_pdf` hands to the document builder, for a first page sorted with `suffix`. */
  function Document(notes: seq<Note>, suffix: string): seq<Flowable>
    requires AllPrintable(notes)
  {
    MakeFirstPage(notes, suffix) + Concat(PageList(notes, |notes|))
  }

  /**
   * `make_pdf`, up to building the document from the flowables. With
   * `AsWrittenSuffix` it returns the flowables the source builds, with
   * `LabelOnly` those with the corrected column order.
   */
  method MakePdf(manager: NoteManager, suffix: string) returns (allElements: seq<Flowable>)
    requires AllPrintable(manager.list)
    ensures allElements == Document(manager.list, suffix)
  {
    var notes := manager.list;
    var pages := AddPages(notes);
    allElements := MakeFirstPage(notes, suffix) + pages;
  }

  /** The loop of `make_pdf`: the pages of the notes, one after the other. */
  method AddPages(notes: seq<Note>) returns (pages: seq<Flowable>)
    requires AllPrintable(notes)
    ensures pages == Concat(PageList(notes, |notes|))
  {
    pages := [];
    for number := 0 to |notes|
      invariant pages == Concat(PageList(notes, number))
    {
      var page := AddPage(notes[number], number);
      PagesStep(notes, number, pages, page);
      pages := pages + page;
    }
  }

  lemma PagesStep(notes: seq<Note>, n: nat, pages: seq<Flowable>, page: seq<Flowable>)
    requires AllPrintable(notes) && n < |notes|
    requires pages == Concat(PageList(notes, n)) && page == Page(notes[n], n)
    ensures pages + page == Concat(PageList(notes, n + 1))
  {
    ConcatAppend(PageList(notes, n), page);
  }

  /**
   * The page of the note at position `i` follows the table of contents and
   * the pages of the notes before it.
   */
  lemma PageInDocument(notes: seq<Note>, suffix: string, i: nat)
    requires AllPrintable(notes) && i < |notes|
    ensures var start, page := 4 + |Concat(PageList(notes, |notes|)[..i])|, PageList(notes, |notes|)[i];
            && page == Page(notes[i], i)
            && start + |page| <= |Document(notes, suffix)|
            && Document(notes, suffix)[start..start + |page|] == page
  {
    PartInWhole(MakeFirstPage(notes, suffix), PageList(notes, |notes|), i);
  }

  /** Part `i` of `parts`, placed after `f`. */
  lemma PartInWhole<T>(f: seq<T>, parts: seq<seq<T>>, i: nat)
    requires i < |parts|
    ensures var start := |f| + |Concat(parts[..i])|;
            && start + |parts[i]| <= |f + Concat(parts)|
            && (f + Concat(parts))[start..start + |parts[i]|] == parts[i]
  {
    var lo := |Concat(parts[..i])|;
    var hi := lo + |parts[i]|;
    ConcatAt(parts, i);
    SliceAfter(f, Concat(parts), lo, hi);
  }

  lemma SliceAfter<T>(f: seq<T>, ps: seq<T>, lo: nat, hi: nat)
    requires lo <= hi <= |ps|
    ensures (f + ps)[|f| + lo..|f| + hi] == ps[lo..hi]
  {
  }

  /**
   * The document holds one page break per note plus the one closing the
   * table of contents.
   */
  lemma PageBreakCount(notes: seq<Note>, suffix: string)
    requires AllPrintable(notes)
    ensures multiset(Document(notes, suffix))[PageBreak] == |notes| + 1
  {
    var pages := PageList(notes, |notes|);
    var f, c := MakeFirstPage(notes, suffix), Concat(pages);
    assert multiset(c)[PageBreak] == |notes| by {
      forall k | 0 <= k < |pages|
        ensures multiset(pages[k])[PageBreak] == 1
      {
        PageBreakOnce(notes[k], k);
      }
      ConcatCount(pages, PageBreak);
    }
    assert multiset(f)[PageBreak] == 1 by {
      assert f[2].Table?;
      FourthOnly(f, PageBreak);
    }
    assert multiset(f + c) == multiset(f) + multiset(c);
  }

  /**
   * Every link of the table of contents resolves, to one page only: cell `j`
   * of the title or author column links to a position `i` of the list, the
   * page of note `i` opens with the anchor of `i`, and no other page opens
   * with that anchor. This holds for the source's sort key and for the
   * corrected one alike.
   */
  lemma LinksResolve(notes: seq<Note>, field: string, suffix: string, j: nat, k: nat)
    requires AllPrintable(notes) && (field == "title" || field == "author")
    requires j < |notes| && k < |notes|
    ensures var labels := Labels(notes, field);
            var i := TocOrder(labels, suffix)[j].index;
            && i < |notes|
            && TocColumn(labels, suffix)[j].text == LinkOpen(i) + labels[i] + "</link>"
            && AnchorTag(i) <= Page(notes[i], i)[0].text
            && (AnchorTag(i) <= Page(notes[k], k)[0].text ==> k == i)
  {
    var labels := Labels(notes, field);
    var i := TocOrder(labels, suffix)[j].index;
    assert TocColumn(labels, suffix)[j] == TocEntry(labels, i);
    var text := Page(notes[k], k)[0].text;
    assert text == AnchorTag(k) + notes[k]["title"];
    assert Page(notes[i], i)[0].text == AnchorTag(i) + notes[i]["title"];
    if AnchorTag(i) <= text {
      assert text == AnchorTag(i) + text[|AnchorTag(i)|..];
      AnchorTagUnique(k, i, notes[k]["title"], text[|AnchorTag(i)|..]);
    }
  }
}
