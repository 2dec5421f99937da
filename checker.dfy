/**
 * The `GmailChecker` object: its filter state, the fetch that rebuilds the working
 * set, marking messages as read and exporting a selection to CSV. The mailbox is
 * an input: each fetch sees one `Snapshot`, and the outcome of each remote call is
 * given as a function.
 */
module Checker {
  import opened Wrappers
  import opened Text
  import opened FilterEngine

  /**
   * What the mailbox answers to one fetch: the current time and, unless the listing
   * call failed, one entry per message id that the single listing call returned, `None`
   * where fetching that message (or reading its payload headers) failed.
   */
  datatype Snapshot = Snapshot(now: int, listing: Option<seq<Option<RawMessage>>>)

  /** The index of the first failed fetch, or the length when every fetch succeeded. */
  function FirstFailure(gets: seq<Option<RawMessage>>): (k: nat)
    ensures k <= |gets|
    ensures forall j :: 0 <= j < k ==> gets[j].Some?
    ensures k < |gets| ==> gets[k].None?
  {
    if gets == [] || gets[0].None? then 0 else 1 + FirstFailure(gets[1..])
  }

  /** The fetched messages, in listing order, skipping failed fetches. */
  function Successes(gets: seq<Option<RawMessage>>): seq<RawMessage> {
    if gets == [] then []
    else Successes(gets[..|gets| - 1]) + (if gets[|gets| - 1].Some? then [gets[|gets| - 1].value] else [])
  }

  /** The ids of a working set, in order. */
  function Ids(details: seq<EmailDetail>): seq<string> {
    seq(|details|, i requires 0 <= i < |details| => details[i].id)
  }

  /** The result of `get_unread_messages`: `None` when the listing or any message fetch fails. */
  function Fetch(snap: Snapshot, hours: Option<int>, term: Option<string>): Option<seq<EmailDetail>> {
    match snap.listing
    case None => None
    case Some(gets) =>
      if FirstFailure(gets) < |gets| then None else Some(Filter(Successes(gets), snap.now, hours, term))
  }

  /** Without a failed fetch, every listed message is considered. */
  lemma {:induction false} SuccessesAll(gets: seq<Option<RawMessage>>)
    requires forall j :: 0 <= j < |gets| ==> gets[j].Some?
    ensures |Successes(gets)| == |gets|
    ensures forall j :: 0 <= j < |gets| ==> Successes(gets)[j] == gets[j].value
  {
    if gets != [] {
      var init := gets[..|gets| - 1];
      assert forall j :: 0 <= j < |init| ==> init[j] == gets[j];
      SuccessesAll(init);
    }
  }

  /** A successful fetch lists exactly the kept messages, each at most once per listing entry. */
  lemma FetchMembers(snap: Snapshot, hours: Option<int>, term: Option<string>, d: EmailDetail)
    requires Fetch(snap, hours, term).Some?
    ensures snap.listing.Some?
    ensures d in Fetch(snap, hours, term).value <==>
            exists j :: 0 <= j < |snap.listing.value| && snap.listing.value[j].Some?
                        && Keep(snap.listing.value[j].value, snap.now, hours, term)
                        && Detail(snap.listing.value[j].value) == d
    ensures |Fetch(snap, hours, term).value| <= |snap.listing.value|
  {
    var gets := snap.listing.value;
    SuccessesAll(gets);
    FilterMembers(Successes(gets), snap.now, hours, term, d);
    FilterLength(Successes(gets), snap.now, hours, term);
  }

  lemma NonEmptyHasElement(s: set<int>)
    requires s != {}
    ensures exists x :: x in s
  {
    if forall x :: x !in s {
      assert false;
    }
  }

  /** The elements of a set, each once, in an order the model leaves open (Python's set iteration order). */
  method Enumerate(s: set<int>) returns (xs: seq<int>)
    ensures forall x :: x in xs <==> x in s
    ensures forall j, k :: 0 <= j < k < |xs| ==> xs[j] != xs[k]
    ensures |xs| == |s|
  {
    xs := [];
    var remaining := s;
    while remaining != {}
      invariant remaining <= s
      invariant forall x :: x in xs <==> x in s && x !in remaining
      invariant forall j, k :: 0 <= j < k < |xs| ==> xs[j] != xs[k]
      invariant |xs| + |remaining| == |s|
      decreases |remaining|
    {
      NonEmptyHasElement(remaining);
      var x :| x in remaining;
      xs := xs + [x];
      remaining := remaining - {x};
    }
  }

  const CSV_HEADER: seq<string> := ["Remitente", "Asunto", "Fecha", "Contenido"]

  /** The CSV row written for one listed message. */
  function CsvRow(e: EmailDetail): seq<string> {
    [e.sender, e.subject, e.date, e.snippet]
  }

  class GmailChecker {
    /** The ids of the messages listed by the last fetch. */
    var currentMessages: seq<string>
    /** The age filter in hours; `None` when off. */
    var hoursFilter: Option<int>
    /** The lower-cased keyword filter; `None` when off. */
    var searchTerm: Option<string>

    constructor ()
      ensures currentMessages == [] && hoursFilter == None && searchTerm == None
    {
      currentMessages := [];
      hoursFilter := None;
      searchTerm := None;
    }

    method SetHoursFilter(hours: Option<int>)
      modifies this`hoursFilter
      ensures hoursFilter == hours
    {
      hoursFilter := hours;
    }

    /** A missing or empty term turns the keyword filter off; any other is stored lower-cased. */
    method SetSearchTerm(term: Option<string>)
      modifies this`searchTerm
      ensures term.None? || term.value == [] ==> searchTerm == None
      ensures term.Some? && term.value != [] ==> searchTerm == Some(ToLower(term.value)) && IsLower(searchTerm.value)
    {
      if term.Some? && term.value != [] {
        searchTerm := Some(ToLower(term.value));
        ToLowerIsLower(term.value);
      } else {
        searchTerm := None;
      }
    }

    /**
     * `get_unread_messages`: the working set is reset once the listing succeeds and
     * grows by one id per kept message, so a failed message fetch leaves the ids kept
     * before it.
     */
    method GetUnreadMessages(snap: Snapshot) returns (r: Option<seq<EmailDetail>>)
      modifies this`currentMessages
      ensures r == Fetch(snap, hoursFilter, searchTerm)
      ensures snap.listing.None? ==> currentMessages == old(currentMessages)
      ensures snap.listing.Some? ==>
        var gets := snap.listing.value;
        currentMessages == Ids(Filter(Successes(gets[..FirstFailure(gets)]), snap.now, hoursFilter, searchTerm))
      ensures r.Some? ==> currentMessages == Ids(r.value)
    {
      if snap.listing.None? {
        return None;
      }
      var gets := snap.listing.value;
      currentMessages := [];
      if gets == [] {
        return Some([]);
      }
      var details: seq<EmailDetail> := [];
      var i := 0;
      while i < |gets|
        invariant 0 <= i <= FirstFailure(gets)
        invariant details == Filter(Successes(gets[..i]), snap.now, hoursFilter, searchTerm)
        invariant currentMessages == Ids(details)
      {
        assert gets[..i + 1][..i] == gets[..i];
        var step := Successes(gets[..i + 1]) == Successes(gets[..i]) + (if gets[i].Some? then [gets[i].value] else []);
        assert step;
        if gets[i].None? {
          return None;
        }
        var m := gets[i].value;
        FilterAppend(Successes(gets[..i]), [m], snap.now, hoursFilter, searchTerm);
        FilterSingle(m, snap.now, hoursFilter, searchTerm);
        i := i + 1;
        if m.date.None? {
          continue;
        }
        if HoursActive(hoursFilter) {
          if !WindowRepresentable(hoursFilter.value) {
            // `timedelta(hours=...)` raises, and the handler skips the message
            continue;
          }
          if snap.now - m.date.value > hoursFilter.value * SECONDS_PER_HOUR {
            continue;
          }
        }
        if TermActive(searchTerm) && !(Contains(ToLower(Subject(m)), searchTerm.value)
                                       || Contains(ToLower(Sender(m)), searchTerm.value)) {
          continue;
        }
        currentMessages := currentMessages + [m.id];
        details := details + [Detail(m)];
      }
      assert gets[..i] == gets;
      return Some(details);
    }

    /** `mark_as_read`: every id is attempted in turn, and the result is true only if every attempt succeeded. */
    method MarkAsRead(ids: seq<string>, modifyOk: string -> bool) returns (success: bool, attempted: seq<string>)
      ensures attempted == ids
      ensures success <==> forall j :: 0 <= j < |ids| ==> modifyOk(ids[j])
    {
      success := true;
      attempted := [];
      var i := 0;
      while i < |ids|
        invariant 0 <= i <= |ids|
        invariant attempted == ids[..i]
        invariant success <==> forall j :: 0 <= j < i ==> modifyOk(ids[j])
      {
        attempted := attempted + [ids[i]];
        if !modifyOk(ids[i]) {
          success := false;
        }
        i := i + 1;
      }
      assert ids[..i] == ids;
    }

    /**
     * `export_to_csv`: refused for an empty selection; otherwise, when the file can be
     * written, a header row and then one row per selected index naming a listed
     * message, each such index once, in the set's iteration order.
     */
    method ExportToCsv(emails: seq<EmailDetail>, selected: set<int>, fileOk: bool)
        returns (ok: bool, table: seq<seq<string>>, written: seq<int>)
      ensures ok <==> selected != {} && fileOk
      ensures !ok ==> table == [] && written == []
      ensures ok ==> |table| == |written| + 1 && table[0] == CSV_HEADER
      ensures ok ==> forall j :: 0 <= j < |written| ==> 1 <= written[j] <= |emails| && table[j + 1] == CsvRow(emails[written[j] - 1])
      ensures ok ==> forall i :: i in written <==> i in selected && 1 <= i <= |emails|
      ensures forall j, k :: 0 <= j < k < |written| ==> written[j] != written[k]
    {
      if selected == {} || !fileOk {
        return false, [], [];
      }
      var order := Enumerate(selected);
      table := [CSV_HEADER];
      written := [];
      for k := 0 to |order|
        invariant |table| == |written| + 1 && table[0] == CSV_HEADER
        invariant forall j :: 0 <= j < |written| ==> 1 <= written[j] <= |emails| && table[j + 1] == CsvRow(emails[written[j] - 1])
        invariant forall i :: i in written <==> i in order[..k] && 1 <= i <= |emails|
        invariant forall j, l :: 0 <= j < l < |written| ==> written[j] != written[l]
      {
        var i := order[k];
        assert order[..k + 1] == order[..k] + [i];
        assert i !in order[..k] by {
          assert forall j :: 0 <= j < k ==> order[..k][j] == order[j];
        }
        if 1 <= i <= |emails| {
          table := table + [CsvRow(emails[i - 1])];
          written := written + [i];
        }
      }
      assert order[..|order|] == order;
      ok := true;
    }
  }
}
