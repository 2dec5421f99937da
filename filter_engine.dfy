/**
 * The message filter of `GmailChecker.get_unread_messages`: which fetched messages
 * become the working set, given the age and keyword filters and the current time.
 *
 * Times are whole seconds. Parsing the `Date` header is an input: `date` is `None`
 * where parsing the header (or converting the result) raised, and `shownDate` is the
 * local-time rendering `%d/%m/%Y %H:%M` of a parsed date.
 */
module FilterEngine {
  import opened Wrappers
  import opened Text

  const SECONDS_PER_HOUR := 3600

  datatype Header = Header(name: string, value: string)

  /** One message as returned by the mailbox, with the outcome of parsing its `Date` header. */
  datatype RawMessage = RawMessage(id: string, headers: seq<Header>, snippet: string, date: Option<int>, shownDate: string)

  /** One entry of the working set. */
  datatype EmailDetail = EmailDetail(id: string, sender: string, subject: string, date: string, snippet: string)

  /** The value of the first header whose lower-cased name is `name`, else `default`. */
  function HeaderValue(headers: seq<Header>, name: string, default: string): (v: string)
    ensures v == default || exists i :: 0 <= i < |headers| && ToLower(headers[i].name) == name && v == headers[i].value
  {
    if headers == [] then default
    else if ToLower(headers[0].name) == name then headers[0].value
    else HeaderValue(headers[1..], name, default)
  }

  /** The first matching header wins, and a message without one gets the default. */
  lemma {:induction false} HeaderValueFirst(headers: seq<Header>, name: string, default: string, k: int)
    requires -1 <= k < |headers|
    requires forall j :: 0 <= j < |headers| && (k < 0 || j < k) ==> ToLower(headers[j].name) != name
    requires k >= 0 ==> ToLower(headers[k].name) == name
    ensures HeaderValue(headers, name, default) == if k >= 0 then headers[k].value else default
  {
    if headers != [] && k != 0 {
      HeaderValueFirst(headers[1..], name, default, if k < 0 then -1 else k - 1);
    }
  }

  function Subject(m: RawMessage): string {
    HeaderValue(m.headers, "subject", "Sin asunto")
  }

  function Sender(m: RawMessage): string {
    HeaderValue(m.headers, "from", "Desconocido")
  }

  /** Python truthiness of `hours_filter`: `None` and `0` switch the age filter off. */
  predicate HoursActive(hours: Option<int>) {
    hours.Some? && hours.value != 0
  }

  /** Python truthiness of `search_term`: `None` and `""` switch the keyword filter off. */
  predicate TermActive(term: Option<string>) {
    term.Some? && term.value != []
  }

  /** `timedelta` holds at most this many days either way; a larger one raises `OverflowError`. */
  const TIMEDELTA_MAX_DAYS := 999_999_999

  const HOURS_PER_DAY := 24

  /** `timedelta(hours=h)` can be built: its whole days, rounded down, stay within the limit. */
  predicate WindowRepresentable(h: int) {
    -TIMEDELTA_MAX_DAYS <= h / HOURS_PER_DAY <= TIMEDELTA_MAX_DAYS
  }

  /**
   * The age test: drop when `now - date` exceeds the window. A window `timedelta`
   * cannot hold raises inside the `try`, which drops the message as well.
   */
  predicate WithinHours(now: int, date: int, hours: Option<int>) {
    !HoursActive(hours)
    || (WindowRepresentable(hours.value) && now - date <= hours.value * SECONDS_PER_HOUR)
  }

  /** The keyword test: the term occurs in the lower-cased subject or sender. */
  predicate MatchesTerm(term: Option<string>, subject: string, sender: string) {
    !TermActive(term) || Contains(ToLower(subject), term.value) || Contains(ToLower(sender), term.value)
  }

  /** The conjunctive predicate a fetched message must satisfy to be listed. */
  predicate Keep(m: RawMessage, now: int, hours: Option<int>, term: Option<string>) {
    m.date.Some? && WithinHours(now, m.date.value, hours) && MatchesTerm(term, Subject(m), Sender(m))
  }

  function Detail(m: RawMessage): EmailDetail
    requires m.date.Some?
  {
    EmailDetail(m.id, Sender(m), Subject(m), m.shownDate, m.snippet)
  }

  /** The working set: the details of the kept messages, in fetch order. */
  function Filter(msgs: seq<RawMessage>, now: int, hours: Option<int>, term: Option<string>): seq<EmailDetail>
  {
    if msgs == [] then []
    else
      var rest := Filter(msgs[1..], now, hours, term);
      if Keep(msgs[0], now, hours, term) then [Detail(msgs[0])] + rest else rest
  }

  /** The number of messages the filter keeps. */
  function KeptCount(msgs: seq<RawMessage>, now: int, hours: Option<int>, term: Option<string>): nat {
    if msgs == [] then 0
    else (if Keep(msgs[0], now, hours, term) then 1 else 0) + KeptCount(msgs[1..], now, hours, term)
  }

  /** Filtering a concatenation filters each part and keeps their order. */
  lemma {:induction false} FilterAppend(a: seq<RawMessage>, b: seq<RawMessage>, now: int, hours: Option<int>, term: Option<string>)
    ensures Filter(a + b, now, hours, term) == Filter(a, now, hours, term) + Filter(b, now, hours, term)
  {
    if a != [] {
      assert (a + b)[1..] == a[1..] + b;
      FilterAppend(a[1..], b, now, hours, term);
    } else {
      assert a + b == b;
    }
  }

  /** One message contributes its detail exactly when it passes the predicate. */
  lemma FilterSingle(m: RawMessage, now: int, hours: Option<int>, term: Option<string>)
    ensures Filter([m], now, hours, term) == if Keep(m, now, hours, term) then [Detail(m)] else []
  {
    assert [m][1..] == [];
  }

  /** A detail is in the working set exactly when some kept message produced it. */
  lemma {:induction false} FilterMembers(msgs: seq<RawMessage>, now: int, hours: Option<int>, term: Option<string>, d: EmailDetail)
    ensures d in Filter(msgs, now, hours, term) <==>
            exists i :: 0 <= i < |msgs| && Keep(msgs[i], now, hours, term) && Detail(msgs[i]) == d
  {
    if msgs != [] {
      FilterMembers(msgs[1..], now, hours, term, d);
      if exists i :: 0 <= i < |msgs| && Keep(msgs[i], now, hours, term) && Detail(msgs[i]) == d {
        var i :| 0 <= i < |msgs| && Keep(msgs[i], now, hours, term) && Detail(msgs[i]) == d;
        if i > 0 {
          assert msgs[1..][i - 1] == msgs[i];
        }
      }
      if d in Filter(msgs[1..], now, hours, term) {
        var i :| 0 <= i < |msgs[1..]| && Keep(msgs[1..][i], now, hours, term) && Detail(msgs[1..][i]) == d;
        assert msgs[i + 1] == msgs[1..][i];
      }
    }
  }

  /** The working set has one entry per kept message, so it is never longer than the fetch. */
  lemma {:induction false} FilterLength(msgs: seq<RawMessage>, now: int, hours: Option<int>, term: Option<string>)
    ensures |Filter(msgs, now, hours, term)| == KeptCount(msgs, now, hours, term) <= |msgs|
  {
    if msgs != [] {
      FilterLength(msgs[1..], now, hours, term);
    }
  }

  /** A message whose date did not parse is dropped wherever it stands, whatever the filters. */
  lemma FilterDropsUnparsed(a: seq<RawMessage>, m: RawMessage, b: seq<RawMessage>, now: int, hours: Option<int>, term: Option<string>)
    requires m.date.None?
    ensures Filter(a + [m] + b, now, hours, term) == Filter(a + b, now, hours, term)
  {
    FilterAppend(a + [m], b, now, hours, term);
    FilterAppend(a, [m], now, hours, term);
    FilterSingle(m, now, hours, term);
    FilterAppend(a, b, now, hours, term);
  }

  /** With both filters off, every message with a parsed date is listed, in order. */
  lemma {:induction false} FilterWithoutCriteria(msgs: seq<RawMessage>, now: int, hours: Option<int>, term: Option<string>)
    requires !HoursActive(hours) && !TermActive(term)
    requires forall i :: 0 <= i < |msgs| ==> msgs[i].date.Some?
    ensures |Filter(msgs, now, hours, term)| == |msgs|
    ensures forall i :: 0 <= i < |msgs| ==> Filter(msgs, now, hours, term)[i] == Detail(msgs[i])
  {
    if msgs != [] {
      assert msgs[0].date.Some?;
      FilterWithoutCriteria(msgs[1..], now, hours, term);
      forall i | 1 <= i < |msgs| ensures Filter(msgs, now, hours, term)[i] == Detail(msgs[i]) {
        assert msgs[1..][i - 1] == msgs[i];
      }
    }
  }

  /**
   * With only the age filter on, exactly the parsed messages at most `h` hours old remain,
   * as long as `timedelta` can hold `h` hours.
   */
  lemma {:induction false} FilterHoursOnly(msgs: seq<RawMessage>, now: int, h: int, d: EmailDetail)
    requires h != 0
    ensures d in Filter(msgs, now, Some(h), None) <==>
            WindowRepresentable(h) &&
            exists i :: 0 <= i < |msgs| && msgs[i].date.Some? && now - msgs[i].date.value <= h * SECONDS_PER_HOUR
                        && Detail(msgs[i]) == d
  {
    FilterMembers(msgs, now, Some(h), None, d);
  }

  /** A window of 24,000,000,000 hours or more overflows `timedelta` for every message, so nothing is listed. */
  lemma {:induction false} FilterWindowOverflow(msgs: seq<RawMessage>, now: int, hours: Option<int>, term: Option<string>)
    requires HoursActive(hours) && !WindowRepresentable(hours.value)
    ensures Filter(msgs, now, hours, term) == []
  {
    if msgs != [] {
      FilterWindowOverflow(msgs[1..], now, hours, term);
    }
  }

  /** The largest window `timedelta` holds is 23,999,999,999 hours. */
  lemma WindowLimit()
    ensures WindowRepresentable(23_999_999_999) && !WindowRepresentable(24_000_000_000)
  {
  }

  /** Three messages one, ten and thirty hours old, filtered to the last 24 hours, keep the first two in order. */
  lemma FilterScenario(now: int, a: RawMessage, b: RawMessage, c: RawMessage)
    requires a.date == Some(now - 1 * SECONDS_PER_HOUR)
    requires b.date == Some(now - 10 * SECONDS_PER_HOUR)
    requires c.date == Some(now - 30 * SECONDS_PER_HOUR)
    ensures Filter([a, b, c], now, Some(24), None) == [Detail(a), Detail(b)]
  {
    FilterAppend([a, b], [c], now, Some(24), None);
    FilterAppend([a], [b], now, Some(24), None);
    FilterSingle(a, now, Some(24), None);
    FilterSingle(b, now, Some(24), None);
    FilterSingle(c, now, Some(24), None);
    assert [a, b, c] == [a, b] + [c];
    assert [a, b] == [a] + [b];
  }
}
