/**
 * The news page as the bot reads it, the entry record it builds from the
 * page's first entry, and the notification text built from that record.
 *
 * A fetched page is summarised by what the CSS selections of
 * `check_for_updates` return: the `div.logout-button` elements (only their
 * number matters) and the `div.ui.form` entries, each with its `data-element`
 * attribute, its `div.title.alf-click-acctitle` blocks (full text and the
 * texts of their `div.ui.label` children) and its `a.item.alf-file-show`
 * links (their `href` attribute).
 */
module Scrape {
  import opened Wrappers
  import opened Text

  datatype FileLink = FileLink(href: Option<string>)
  datatype TitleBlock = TitleBlock(text: string, labels: seq<string>)
  datatype EntryNode = EntryNode(dataElement: Option<string>, titles: seq<TitleBlock>, fileLinks: seq<FileLink>)
  datatype Page = Page(logoutButtons: nat, entries: seq<EntryNode>)

  /** `page.soup.select("div.logout-button")` is non-empty: the session is valid. */
  predicate LoggedIn(page: Page) {
    page.logoutButtons > 0
  }

  /** The record persisted in the entry file and sent to users; every field is
      HTML-escaped. */
  datatype Entry = Entry(id: string, date: string, title: string, doc: string)

  /** Which `[0]` of the extraction found an empty selection. */
  datatype ParseError = NoEntry | NoTitle | NoDate | NoDocLink

  /** `str(x)` of an attribute lookup: a missing attribute is `None`, whose text is "None". */
  function AttrText(a: Option<string>): string {
    match a
    case None => "None"
    case Some(v) => v
  }

  /** `.replace(date, "")` can only remove characters. */
  lemma RemoveAllKeepsSpaces(s: string, p: string)
    requires OnlySpaces(s)
    ensures OnlySpaces(RemoveAll(s, p))
  {
    var r := RemoveAll(s, p);
    forall i | 0 <= i < |r| && IsWs(r[i]) ensures r[i] == ' ' {
      assert r[i] in s;
      var j :| 0 <= j < |s| && s[j] == r[i];
    }
  }

  /** `strip()` returns a slice, so it adds no character. */
  lemma StripKeepsSpaces(s: string)
    requires OnlySpaces(s)
    ensures OnlySpaces(Strip(s))
  {
    var r := Strip(s);
    var i: nat :| FramedBy(s, i, r);
    forall k | 0 <= k < |r| && IsWs(r[k]) ensures r[k] == ' ' {
      assert r[k] == s[i + k];
    }
  }

  /** Lines 177-179: strip, turn every whitespace run into one space, remove
      every occurrence of the date, strip again. The result has no whitespace
      other than plain spaces and neither starts nor ends with whitespace. */
  function NormalizeTitle(text: string, date: string): (r: string)
    ensures OnlySpaces(r) && Trimmed(r)
  {
    var collapsed := CollapseWs(Strip(text));
    CollapseWsShape(Strip(text));
    RemoveAllKeepsSpaces(collapsed, date);
    StripKeepsSpaces(RemoveAll(collapsed, date));
    Strip(RemoveAll(collapsed, date))
  }

  /** "a b" (one space between two non-whitespace characters) is kept. */
  lemma CollapseSpaced(a: char, b: char)
    requires !IsWs(a) && !IsWs(b)
    ensures CollapseWs([a, ' ', b]) == [a, ' ', b]
  {
    var tail := [' '] + [b];
    assert [a, ' ', b] == [a] + tail;
    CollapseCons(b, []);
    CollapseRun([' '], [b]);
    CollapseCons(a, tail);
  }

  lemma CollapseSpacedTwice(a: char, d: char, b: char)
    requires !IsWs(a) && !IsWs(d) && !IsWs(b)
    ensures CollapseWs([a, ' ', d, ' ', b]) == [a, ' ', d, ' ', b]
  {
    var inner := [d, ' ', b];
    var tail := [' '] + inner;
    assert [a, ' ', d, ' ', b] == [a] + tail;
    CollapseSpaced(d, b);
    CollapseRun([' '], inner);
    CollapseCons(a, tail);
  }

  lemma CollapseDoubleSpace(a: char, b: char)
    requires !IsWs(a) && !IsWs(b)
    ensures CollapseWs([a, ' ', ' ', b]) == [a, ' ', b]
  {
    var tail := [' ', ' '] + [b];
    assert [a, ' ', ' ', b] == [a] + tail;
    assert [a, ' ', b] == [a] + ([' '] + [b]);
    CollapseCons(b, []);
    CollapseRun([' ', ' '], [b]);
    CollapseCons(a, tail);
  }

  /** A character other than the one-character pattern is kept. */
  lemma RemoveSkip(c: char, s: string, d: char)
    requires c != d
    ensures RemoveAll([c] + s, [d]) == [c] + RemoveAll(s, [d])
  {
    var t := [c] + s;
    assert t[..1] == [c] && t[1..] == s;
  }

  /** An occurrence of the one-character pattern is dropped. */
  lemma RemoveHit(d: char, s: string)
    ensures RemoveAll([d] + s, [d]) == RemoveAll(s, [d])
  {
    var t := [d] + s;
    assert t[..1] == [d] && t[1..] == s;
  }

  lemma RemoveMiddle(a: char, d: char, b: char)
    requires !IsWs(d) && a != d && b != d
    ensures RemoveAll([a, ' ', d, ' ', b], [d]) == [a, ' ', ' ', b]
    ensures RemoveAll([a, ' ', b], [d]) == [a, ' ', b]
  {
    var s1 := [b];
    var s2 := [' '] + s1;
    var s3 := [d] + s2;
    var s4 := [' '] + s3;
    assert [a, ' ', d, ' ', b] == [a] + s4;
    assert [a, ' ', ' ', b] == [a] + ([' '] + s2);
    assert [a, ' ', b] == [a] + s2;
    RemoveSkip(b, [], d);
    assert [b] + [] == s1;
    RemoveSkip(' ', s1, d);
    RemoveHit(d, s2);
    RemoveSkip(' ', s3, d);
    RemoveSkip(a, s4, d);
    RemoveSkip(a, s2, d);
  }

  /** Normalisation is not idempotent: removing the date can leave two spaces
      side by side, which only a second pass collapses. With `a`, `b`, `d`
      standing for non-whitespace characters and `d` differing from the other
      two, the title "a d b" with date "d" normalises to "a  b", and that to "a b". */
  lemma NormalizeTitleNotIdempotent(a: char, b: char, d: char)
    requires !IsWs(a) && !IsWs(b) && !IsWs(d) && a != d && b != d
    ensures NormalizeTitle([a, ' ', d, ' ', b], [d]) == [a, ' ', ' ', b]
    ensures NormalizeTitle([a, ' ', ' ', b], [d]) == [a, ' ', b]
  {
    CollapseSpacedTwice(a, d, b);
    CollapseDoubleSpace(a, b);
    RemoveMiddle(a, d, b);
    StripTrimmed([a, ' ', d, ' ', b]);
    StripTrimmed([a, ' ', ' ', b]);
    StripTrimmed([a, ' ', b]);
  }

  /** Escaping leaves text without `& < > " '` as it is. */
  lemma EscapePlain(s: string)
    requires forall i :: 0 <= i < |s| ==> s[i] !in "&<>\"'"
    ensures Escape(s) == s
  {
    EscapeCharsPlain(s);
  }

  lemma {:induction false} EscapeCharsPlain(s: string)
    requires forall i :: 0 <= i < |s| ==> s[i] !in "&<>\"'"
    ensures EscapeChars(s) == s
  {
    if s != [] {
      EscapeCharsPlain(s[1..]);
      assert EscapeChars(s) == [s[0]] + EscapeChars(s[1..]);
    }
  }

  /** The text "None" of a missing attribute passes `html.escape` unchanged. */
  lemma EscapeNone()
    ensures Escape("None") == "None"
  {
    EscapePlain("None");
  }

  /** Lines 182-187: the record of the four values read from an entry, each
      passed through `html.escape(str(...))`. Every field is escaped and decodes
      back to the value read; a missing attribute reads "None"; the escaped
      title keeps the normalised shape. */
  function BuildEntry(id: Option<string>, date: string, title: string, href: Option<string>): (e: Entry)
    requires OnlySpaces(title) && Trimmed(title)
    ensures IsEscaped(e.id) && Unescape(e.id) == AttrText(id)
    ensures IsEscaped(e.date) && Unescape(e.date) == date
    ensures IsEscaped(e.title) && Unescape(e.title) == title
    ensures IsEscaped(e.doc) && Unescape(e.doc) == AttrText(href)
    ensures OnlySpaces(e.title) && Trimmed(e.title)
    ensures id.None? ==> e.id == "None"
    ensures href.None? ==> e.doc == "None"
  {
    EscapeNone();
    EscapeKeepsShape(title);
    Entry(Escape(AttrText(id)), Escape(date), Escape(title), Escape(AttrText(href)))
  }

  /** Lines 174-186 on the first `div.ui.form` entry. */
  function ExtractEntry(node: EntryNode): (r: Result<Entry, ParseError>)
    ensures node.titles == [] <==> r == Failure(NoTitle)
    ensures node.titles != [] && node.titles[0].labels == [] <==> r == Failure(NoDate)
    ensures node.titles != [] && node.titles[0].labels != [] && node.fileLinks == [] <==> r == Failure(NoDocLink)
    ensures r.Success? ==>
      var date := Strip(node.titles[0].labels[0]);
      r.value == BuildEntry(node.dataElement, date, NormalizeTitle(node.titles[0].text, date), node.fileLinks[0].href)
  {
    if node.titles == [] then Failure(NoTitle)
    else
      var titleBlock := node.titles[0];
      if titleBlock.labels == [] then Failure(NoDate)
      else
        var date := Strip(titleBlock.labels[0]);
        var title := NormalizeTitle(titleBlock.text, date);
        if node.fileLinks == [] then Failure(NoDocLink)
        else Success(BuildEntry(node.dataElement, date, title, node.fileLinks[0].href))
  }

  /** Lines 173-187: the record built from a page. Each `[0]` on an empty
      selection fails, in the order the code evaluates them; a missing
      attribute is not an error. */
  function Extract(page: Page): (r: Result<Entry, ParseError>)
    ensures page.entries == [] <==> r == Failure(NoEntry)
    ensures r.Failure? <==>
      || page.entries == []
      || page.entries[0].titles == []
      || page.entries[0].titles[0].labels == []
      || page.entries[0].fileLinks == []
    ensures r.Success? ==> r == ExtractEntry(page.entries[0])
  {
    if page.entries == [] then Failure(NoEntry) else ExtractEntry(page.entries[0])
  }

  // ---------------------------------------------------------------------------
  // The notification of `notify_users`

  const NewsUrl: string := "http://lk.educom.ru/" + "news.html"

  /** Everything before the date. */
  const NoticeHead: string :=
    "\U{2757}\U{FE0F}Обновление в <a href=\"" + NewsUrl + "\">ЛК Директора</a>\U{2757}\U{FE0F}\n<b>"
  /** Between the date and the title. */
  const NoticeMid: string := "</b> "
  /** Between the title and the link's opening tag. */
  const NoticeGap: string := "\n\U{1F4BE} "
  /** The link's opening tag up to its `href` value. */
  const NoticeAnchor: string := "<a href=\""
  /** Everything after the `href` value. */
  const NoticeTail: string := "\">Посмотреть/скачать документ(ы)</a>"

  /** The link to the document: `<a href="{entry_doc}">...</a>`. */
  function DocPart(doc: string): string {
    NoticeAnchor + (doc + NoticeTail)
  }

  /** Everything after the date. */
  function TitlePart(title: string, doc: string): string {
    NoticeMid + ((title + NoticeGap) + DocPart(doc))
  }

  /** Moves the brackets of `h + (d + (a + (b + t)))` so that `t` stands alone. */
  lemma Reassoc(h: string, d: string, a: string, b: string, t: string)
    ensures h + (d + (a + (b + t))) == (h + d + a + b) + t
  {
  }

  /** Lines 73-77: the rich text sent for an entry: the header with the news
      link, the date in bold right after it, and the document link at the end. */
  function NotificationText(e: Entry): (r: string)
    ensures IsPrefix(NoticeHead + e.date, r)
    ensures IsSuffix(DocPart(e.doc), r)
  {
    NoticeFrame(e.date, e.title, e.doc);
    NoticeHead + (e.date + TitlePart(e.title, e.doc))
  }

  /** The notification built from a date, a title and a link starts with the
      header and the date and ends with the link. */
  lemma NoticeFrame(date: string, title: string, doc: string)
    ensures var r := NoticeHead + (date + TitlePart(title, doc));
      IsPrefix(NoticeHead + date, r) && IsSuffix(DocPart(doc), r)
  {
    NoticeStartsWithDate(date, TitlePart(title, doc));
    NoticeEndsWithDoc(date, title, doc);
  }

  lemma NoticeStartsWithDate(date: string, rest: string)
    ensures IsPrefix(NoticeHead + date, NoticeHead + (date + rest))
  {
    assert NoticeHead + (date + rest) == (NoticeHead + date) + rest;
    PrefixSplit(NoticeHead + date, rest);
  }

  lemma NoticeEndsWithDoc(date: string, title: string, doc: string)
    ensures IsSuffix(DocPart(doc), NoticeHead + (date + TitlePart(title, doc)))
  {
    Reassoc(NoticeHead, date, NoticeMid, title + NoticeGap, DocPart(doc));
    SuffixSplit(NoticeHead + date + NoticeMid + (title + NoticeGap), DocPart(doc));
  }

  /** The index of the first `c` in `s`, or `|s|` when there is none. */
  function FirstIndex(s: string, c: char): (i: nat)
    ensures i <= |s| && (i < |s| ==> s[i] == c)
    ensures forall k :: 0 <= k < i ==> s[k] != c
  {
    if s == [] || s[0] == c then 0 else 1 + FirstIndex(s[1..], c)
  }

  /** The index of the last `c` in `s`, or `|s|` when there is none. */
  function LastIndex(s: string, c: char): (i: nat)
    ensures i <= |s| && (i < |s| ==> s[i] == c) && (i == |s| ==> c !in s)
    ensures forall k :: i < k < |s| ==> s[k] != c
  {
    if s == [] then 0
    else if s[|s| - 1] == c then |s| - 1
    else
      var j := LastIndex(s[..|s| - 1], c);
      if j == |s| - 1 then |s| else j
  }

  /** The last `c` in `x + [c] + y`, where `y` has no `c`, is the one after `x`. */
  lemma LastIndexAt(x: string, c: char, y: string)
    requires c !in y
    ensures LastIndex(x + [c] + y, c) == |x|
  {
    var s := x + [c] + y;
    var i := LastIndex(s, c);
    assert s[|x|] == c;
    assert c in s;
    assert |x| <= i < |s|;
    assert s[|x| + 1..] == y;
    assert forall k :: |x| < k < |s| ==> s[k] in s[|x| + 1..];
  }

  /** Splits `s` before the first occurrence of `c`. */
  function SplitBefore(s: string, c: char): (r: (string, string))
    ensures r.0 + r.1 == s && c !in r.0
    ensures r.1 == [] || r.1[0] == c
  {
    var i := FirstIndex(s, c);
    assert s[..i] + s[i..] == s;
    (s[..i], s[i..])
  }

  /** Where `c` does not occur in `x`, the split of `x + y` before `c` is `x` when `y` starts with `c`. */
  lemma {:induction false} SplitBeforeAppend(x: string, y: string, c: char)
    requires c !in x && y != [] && y[0] == c
    ensures SplitBefore(x + y, c) == (x, y)
  {
    if x != [] {
      assert (x + y)[0] == x[0];
      assert (x + y)[1..] == x[1..] + y;
      SplitBeforeAppend(x[1..], y, c);
      assert [x[0]] + x[1..] == x;
    } else {
      assert x + y == y;
    }
  }

  predicate IsPrefix(p: string, s: string) {
    |p| <= |s| && s[..|p|] == p
  }

  predicate IsSuffix(t: string, s: string) {
    |t| <= |s| && s[|s| - |t|..] == t
  }

  /** Reads the document link out of the text after the title. */
  function ParseDoc(afterTitle: string): Option<string> {
    if !IsPrefix(NoticeAnchor, afterTitle) then None
    else
      var (doc, afterDoc) := SplitBefore(afterTitle[|NoticeAnchor|..], '"');
      if afterDoc != NoticeTail then None else Some(doc)
  }

  /** Reads the title and the document link out of the text after the date. */
  function ParseTitleDoc(afterDate: string): Option<(string, string)> {
    if !IsPrefix(NoticeMid, afterDate) then None
    else
      var (titleGap, afterTitle) := SplitBefore(afterDate[|NoticeMid|..], '<');
      if |titleGap| < |NoticeGap| || titleGap[|titleGap| - |NoticeGap|..] != NoticeGap then None
      else
        match ParseDoc(afterTitle)
        case None => None
        case Some(doc) => Some((titleGap[..|titleGap| - |NoticeGap|], doc))
  }

  /** Reads the date, title and document link back out of a notification. */
  function ParseNotification(t: string): Option<(string, string, string)> {
    if !IsPrefix(NoticeHead, t) then None
    else
      var (date, afterDate) := SplitBefore(t[|NoticeHead|..], '<');
      match ParseTitleDoc(afterDate)
      case None => None
      case Some((title, doc)) => Some((date, title, doc))
  }

  lemma PrefixSplit(p: string, rest: string)
    ensures IsPrefix(p, p + rest) && (p + rest)[|p|..] == rest
  {
  }

  lemma SuffixSplit(x: string, g: string)
    ensures (x + g)[|x + g| - |g|..] == g && (x + g)[..|x + g| - |g|] == x
  {
  }

  lemma ParseDocOf(doc: string)
    requires '"' !in doc
    ensures ParseDoc(DocPart(doc)) == Some(doc)
  {
    PrefixSplit(NoticeAnchor, doc + NoticeTail);
    assert NoticeTail[0] == '"';
    SplitBeforeAppend(doc, NoticeTail, '"');
  }

  lemma ParseTitleDocOf(title: string, doc: string)
    requires '<' !in title && '"' !in doc
    ensures ParseTitleDoc(TitlePart(title, doc)) == Some((title, doc))
  {
    var titleGap, afterTitle := title + NoticeGap, DocPart(doc);
    PrefixSplit(NoticeMid, titleGap + afterTitle);
    assert '<' !in NoticeGap;
    assert afterTitle[0] == NoticeAnchor[0] == '<';
    SplitBeforeAppend(titleGap, afterTitle, '<');
    SuffixSplit(title, NoticeGap);
    ParseDocOf(doc);
  }

  /** Because the fields are escaped, none of them can close the tag or the
      attribute it is placed in: the notification determines the date, the
      title and the document link it was built from. */
  lemma NotificationUnambiguous(e: Entry)
    requires IsEscaped(e.date) && IsEscaped(e.title) && IsEscaped(e.doc)
    ensures ParseNotification(NotificationText(e)) == Some((e.date, e.title, e.doc))
  {
    EscapedHasNoRaw(e.date);
    EscapedHasNoRaw(e.title);
    EscapedHasNoRaw(e.doc);
    var afterDate := TitlePart(e.title, e.doc);
    PrefixSplit(NoticeHead, e.date + afterDate);
    assert afterDate[0] == NoticeMid[0] == '<';
    SplitBeforeAppend(e.date, afterDate, '<');
    ParseTitleDocOf(e.title, e.doc);
  }

  /** Two entries with escaped fields give the same notification only when
      their date, title and document link agree (the id is not part of it). */
  lemma NotificationTextInjective(e1: Entry, e2: Entry)
    requires IsEscaped(e1.date) && IsEscaped(e1.title) && IsEscaped(e1.doc)
    requires IsEscaped(e2.date) && IsEscaped(e2.title) && IsEscaped(e2.doc)
    ensures NotificationText(e1) == NotificationText(e2)
        <==> e1.date == e2.date && e1.title == e2.title && e1.doc == e2.doc
  {
    NotificationUnambiguous(e1);
    NotificationUnambiguous(e2);
  }
}
