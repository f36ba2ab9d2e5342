/**
 * The bot's state and its scheduled work: `refresh_session`, one tick of
 * `check_for_updates` (with its single forced re-login and refetch), the
 * change detector over the entry file, and the `notify_users` and
 * `error_handler` fan-out loops.
 *
 * The outside world is reduced to logs and parameters: a network request
 * (log in, fetch the news page) is appended to `requests`; a Telegram message
 * is appended to `sent`; the pages the site answers with, the clock and the
 * size of the cookie jar a login writes are parameters of the tick.
 */
module EducomBot {
  import opened Wrappers
  import opened Text
  import opened Session
  import opened Scrape

  type ChatId = string

  /** One `context.bot.send_message(chat_id=..., text=...)`. */
  datatype Message = Message(chat: ChatId, text: string)

  /** A request to the site: a login (forced or not) or a GET of the news page. */
  datatype Request = Login(forced: bool) | FetchNews

  /** One message with the same text to each recipient, in list order. */
  function Fanout(ids: seq<ChatId>, text: string): (r: seq<Message>)
    ensures |r| == |ids|
    ensures forall i :: 0 <= i < |ids| ==> r[i].chat == ids[i] && r[i].text == text
  {
    if ids == [] then [] else [Message(ids[0], text)] + Fanout(ids[1..], text)
  }

  lemma {:induction false} FanoutAppend(ids: seq<ChatId>, id: ChatId, text: string)
    ensures Fanout(ids + [id], text) == Fanout(ids, text) + [Message(id, text)]
  {
    if ids == [] {
      assert ids + [id] == [id];
    } else {
      assert (ids + [id])[0] == ids[0];
      assert (ids + [id])[1..] == ids[1..] + [id];
      FanoutAppend(ids[1..], id, text);
    }
  }

  /** What `error_handler` reports besides the traceback when the error came
      from handling an update: `json.dumps(update.to_dict(), ...)`,
      `str(context.chat_data)` and `str(context.user_data)`. */
  datatype UpdateDump = UpdateDump(update: string, chatData: string, userData: string)

  /** What the report says before the traceback. */
  function ErrorHead(update: Option<UpdateDump>): string {
    match update
    case Some(u) =>
      "An exception was raised while handling an update\n"
      + "<pre>update = " + Escape(u.update) + "</pre>\n\n"
      + "<pre>context.chat_data = " + Escape(u.chatData) + "</pre>\n\n"
      + "<pre>context.user_data = " + Escape(u.userData) + "</pre>\n\n"
    case None =>
      "An exception was raised\n\n"
  }

  /** Reads the traceback back out of an admin report: the report must end
      with `</pre>`, and the escaped traceback is what follows the last `<`
      before it, which must open `<pre>`. The header is not needed. */
  function ReportTraceback(r: string): Option<string> {
    if |r| < 6 || r[|r| - 6..] != "</pre>" then None
    else PreBlockPayload(r[..|r| - 6])
  }

  /** Decodes what follows the last `<` of `body`, provided it opens `<pre>`. */
  function PreBlockPayload(body: string): Option<string> {
    var i := LastIndex(body, '<');
    if i + 5 <= |body| && body[i..i + 5] == "<pre>" then Some(Unescape(body[i + 5..]))
    else None
  }

  /** In `h + "<pre>" + e` with no `<` in `e`, the last `<` opens that `<pre>`,
      and `e` follows it. */
  lemma PreOpenLast(h: string, e: string)
    requires '<' !in e
    ensures var body := h + ("<pre>" + e);
      LastIndex(body, '<') == |h| && |h| + 5 <= |body|
      && body[|h|..|h| + 5] == "<pre>" && body[|h| + 5..] == e
  {
    var open := "<pre>";
    var rest := open[1..] + e;
    assert '<' !in open[1..];
    assert '<' !in rest;
    assert h + (open + e) == h + [open[0]] + rest;
    LastIndexAt(h, '<', rest);
    FrameMiddle(h, open, e, []);
  }

  /** What lies between the frame `h + a` and `b` in `h + (a + m + b)` is `m`. */
  lemma FrameMiddle(h: string, a: string, m: string, b: string)
    ensures var r := h + (a + m + b);
      |h| + |a| + |b| <= |r| && r[|h|..|h| + |a|] == a && r[|h| + |a|..|r| - |b|] == m
  {
    var r := h + (a + m + b);
    assert forall k :: 0 <= k < |a| ==> r[|h| + k] == a[k];
    assert forall k :: 0 <= k < |m| ==> r[|h| + |a| + k] == m[k];
  }

  /** After any header, the `<pre>` block of an escaped traceback reads back
      as that traceback. */
  lemma ReportTracebackOf(h: string, traceback: string)
    ensures ReportTraceback(h + ("<pre>" + Escape(traceback) + "</pre>")) == Some(traceback)
  {
    var e := Escape(traceback);
    var body, close := h + ("<pre>" + e), "</pre>";
    assert h + ("<pre>" + e + close) == body + close;
    assert |close| == 6;
    SuffixSplit(body, close);
    EscapedHasNoRaw(e);
    PreOpenLast(h, e);
    assert PreBlockPayload(body) == Some(Unescape(e));
  }

  /** Lines 97-109: the admin report is the header followed by the escaped
      traceback in a `<pre>` block, and the traceback reads back out of it. */
  function ErrorText(update: Option<UpdateDump>, traceback: string): (r: string)
    ensures var block := "<pre>" + Escape(traceback) + "</pre>";
      |block| <= |r| && r[|r| - |block|..] == block && r[..|r| - |block|] == ErrorHead(update)
    ensures ReportTraceback(r) == Some(traceback)
  {
    var block := "<pre>" + Escape(traceback) + "</pre>";
    SuffixSplit(ErrorHead(update), block);
    ReportTracebackOf(ErrorHead(update), traceback);
    ErrorHead(update) + block
  }

  /** Two reports are equal only if their tracebacks are, whatever updates
      they describe; for the same update, the converse holds too. */
  lemma ErrorTextTracebackInjective(u1: Option<UpdateDump>, u2: Option<UpdateDump>, tb1: string, tb2: string)
    ensures ErrorText(u1, tb1) == ErrorText(u2, tb2) ==> tb1 == tb2
    ensures u1 == u2 ==> (ErrorText(u1, tb1) == ErrorText(u2, tb2) <==> tb1 == tb2)
  {
  }

  /** The requests of one `refresh_session(forced)`. */
  function RefreshRequests(forced: bool, f: Option<CookieFile>, now: int): seq<Request> {
    if NeedsLogin(forced, f, now) then [Login(forced)] else []
  }

  /** The requests of one tick: `create_browser()` and a GET; when the page
      has no logout button, `create_browser(True)` and one more GET. */
  function TickRequests(f: Option<CookieFile>, now: int, firstLoggedIn: bool): seq<Request> {
    RefreshRequests(false, f, now) + [FetchNews]
    + (if firstLoggedIn then [] else [Login(true), FetchNews])
  }

  /** The retry cannot loop: a tick fetches the page once or twice, logs in
      with force at most once, and logs in at most twice in all. The page is
      fetched twice exactly when the first one lacked the logout button. */
  lemma TickRequestBounds(f: Option<CookieFile>, now: int, firstLoggedIn: bool)
    ensures var rs := multiset(TickRequests(f, now, firstLoggedIn));
      && rs[FetchNews] == (if firstLoggedIn then 1 else 2)
      && rs[Login(true)] == (if firstLoggedIn then 0 else 1)
      && rs[Login(false)] <= 1
      && |TickRequests(f, now, firstLoggedIn)| <= 4
  {
  }

  /** The page the record is extracted from: the second page is used as it
      is, whether or not it has the logout button. */
  function PageUsed(first: Page, second: Page): (page: Page)
    ensures page == first || page == second
    ensures LoggedIn(first) ==> page == first
    ensures !LoggedIn(page) ==> page == second
  {
    if LoggedIn(first) then first else second
  }

  /** The cookie file after a tick's one or two refreshes. */
  function CookieAfterTick(f: Option<CookieFile>, now: int, written: JarSize, rewritten: JarSize, firstLoggedIn: bool): CookieFile {
    var file := AfterRefresh(false, f, now, written);
    if firstLoggedIn then file else AfterRefresh(true, Some(file), now, rewritten)
  }

  class Bot {
    /** `BOT_USERS_CHAT_ID` and `BOT_ADMIN_CHAT_ID`, fixed at start-up. */
    const users: seq<ChatId>
    const admins: seq<ChatId>

    /** `COOKIE_FILE`: missing, or present with a size and a modification time. */
    var cookie: Option<CookieFile>
    /** `ENTRY_FILE`: missing, or holding the last record sent. */
    var persisted: Option<Entry>
    /** How many times `ENTRY_FILE` has been written. */
    var entryWrites: nat
    /** The requests made to the site, in order. */
    var requests: seq<Request>
    /** The Telegram messages sent, in order. */
    var sent: seq<Message>

    constructor (users: seq<ChatId>, admins: seq<ChatId>, cookie: Option<CookieFile>, persisted: Option<Entry>)
      ensures this.users == users && this.admins == admins
      ensures this.cookie == cookie && this.persisted == persisted
      ensures entryWrites == 0 && requests == [] && sent == []
    {
      this.users := users;
      this.admins := admins;
      this.cookie := cookie;
      this.persisted := persisted;
      entryWrites := 0;
      requests := [];
      sent := [];
    }

    /** Sends `text` to each of `ids`, in order. */
    method SendAll(ids: seq<ChatId>, text: string)
      modifies this`sent
      ensures sent == old(sent) + Fanout(ids, text)
    {
      for i := 0 to |ids|
        invariant sent == old(sent) + Fanout(ids[..i], text)
      {
        FanoutAppend(ids[..i], ids[i], text);
        assert ids[..i + 1] == ids[..i] + [ids[i]];
        sent := sent + [Message(ids[i], text)];
      }
      assert ids[..|ids|] == ids;
    }

    /** Lines 67-83: one notification round for `content`. */
    method NotifyUsers(content: Entry)
      modifies this`sent
      ensures sent == old(sent) + Fanout(users, NotificationText(content))
    {
      SendAll(users, NotificationText(content));
    }

    /** Lines 86-111: the report of an error to every administrator. */
    method ErrorHandler(update: Option<UpdateDump>, traceback: string)
      modifies this`sent
      ensures sent == old(sent) + Fanout(admins, ErrorText(update, traceback))
    {
      SendAll(admins, ErrorText(update, traceback));
    }

    /** Lines 114-142: creates a missing cookie file empty, then logs in and
        rewrites the file when the refresh is forced, the file is empty, or it
        is older than `COOKIE_LIFETIME`. A login writes `written` bytes. */
    method RefreshSession(forced: bool, now: int, written: JarSize)
      modifies this`cookie, this`requests
      ensures cookie == Some(AfterRefresh(forced, old(cookie), now, written))
      ensures requests == old(requests) + RefreshRequests(forced, old(cookie), now)
    {
      if cookie.None? {
        cookie := Some(CookieFile(0, now));
      }
      var fileRefresh := now - CookieLifetime;
      var file := cookie.value;
      if forced || file.mtime < fileRefresh || file.size == 0 {
        requests := requests + [Login(forced)];
        cookie := Some(CookieFile(written, now));
      }
    }

    /** Lines 189-201: a missing entry file is created with `res` and users are
        notified; then a stored record that differs from `res` is overwritten
        and users are notified. On the first run the second comparison sees
        the record just written, so exactly one round is sent. */
    method RecordEntry(res: Entry)
      modifies this`persisted, this`entryWrites, this`sent
      ensures persisted == Some(res)
      ensures old(persisted) == Some(res) ==> entryWrites == old(entryWrites) && sent == old(sent)
      ensures old(persisted) != Some(res) ==>
        entryWrites == old(entryWrites) + 1 && sent == old(sent) + Fanout(users, NotificationText(res))
    {
      if persisted.None? {
        persisted := Some(res);
        entryWrites := entryWrites + 1;
        NotifyUsers(res);
      }
      var lastSent := persisted.value;
      if res != lastSent {
        persisted := Some(res);
        entryWrites := entryWrites + 1;
        NotifyUsers(res);
      }
    }

    /** Lines 158-204: one tick. `first` and `second` are the pages the site
        answers the first and the retried GET with; `written` and `rewritten`
        are the sizes of the cookie jars the unforced and the forced login
        write. An extraction failure ends the tick before anything is
        persisted or sent. */
    method CheckForUpdates(now: int, written: JarSize, rewritten: JarSize, first: Page, second: Page)
      returns (r: Result<Entry, ParseError>)
      modifies this`cookie, this`requests, this`persisted, this`entryWrites, this`sent
      ensures r == Extract(PageUsed(first, second))
      ensures requests == old(requests) + TickRequests(old(cookie), now, LoggedIn(first))
      ensures cookie == Some(CookieAfterTick(old(cookie), now, written, rewritten, LoggedIn(first)))
      ensures r.Failure? ==>
        persisted == old(persisted) && entryWrites == old(entryWrites) && sent == old(sent)
      ensures r.Success? ==> persisted == Some(r.value)
      ensures r.Success? && old(persisted) == Some(r.value) ==>
        entryWrites == old(entryWrites) && sent == old(sent)
      ensures r.Success? && old(persisted) != Some(r.value) ==>
        entryWrites == old(entryWrites) + 1 && sent == old(sent) + Fanout(users, NotificationText(r.value))
    {
      ghost var cookie0, requests0 := cookie, requests;
      RefreshSession(false, now, written);
      requests := requests + [FetchNews];
      var page := first;
      if !LoggedIn(page) {
        ghost var cookie1 := cookie;
        RefreshSession(true, now, rewritten);
        requests := requests + [FetchNews];
        page := second;
        assert cookie == Some(AfterRefresh(true, cookie1, now, rewritten));
        assert RefreshRequests(true, cookie1, now) == [Login(true)];
      }
      assert requests == requests0 + TickRequests(cookie0, now, LoggedIn(first));
      assert page == PageUsed(first, second);
      r := Extract(page);
      if r.Success? {
        RecordEntry(r.value);
      }
    }
  }

  /** Two ticks over the same page extract the same result, and the second
      one neither sends a message nor rewrites the entry file. */
  method TwoEqualTicks(bot: Bot, now: int, later: int, written: JarSize, page: Page)
    returns (r1: Result<Entry, ParseError>, r2: Result<Entry, ParseError>)
    modifies bot
    ensures r1 == Extract(page) && r2 == r1
    ensures bot.entryWrites == old(bot.entryWrites) + (if r1.Success? && old(bot.persisted) != Some(r1.value) then 1 else 0)
    ensures bot.sent == old(bot.sent) + (if r1.Success? && old(bot.persisted) != Some(r1.value)
                                         then Fanout(bot.users, NotificationText(r1.value)) else [])
    ensures r1.Success? ==> bot.persisted == Some(r1.value)
    ensures r1.Failure? ==> bot.persisted == old(bot.persisted)
  {
    assert PageUsed(page, page) == page;
    r1 := bot.CheckForUpdates(now, written, written, page, page);
    r2 := bot.CheckForUpdates(later, written, written, page, page);
  }
}
