/**
 * Replying to a listed message (`get_email_thread`, `send_reply` and the reply text
 * collected by the `p` command): the recipient taken from the `From` header, the
 * `Re:` subject rule, the threading headers, and the body typed up to a lone `.`.
 * Building the MIME message, its base64url encoding and the send call itself are
 * not modelled.
 */
module Replies {
  import opened Wrappers
  import opened Text
  import opened FilterEngine

  /** What a fresh fetch of the replied-to message yields: its headers and thread id. */
  datatype ThreadData = ThreadData(headers: seq<Header>, threadId: string)

  datatype OutgoingReply = OutgoingReply(to: string, subject: string, inReplyTo: string, references: string,
                                         threadId: string, body: string)

  datatype ReplyOutcome = ThreadUnavailable | Outgoing(reply: OutgoingReply)

  // ---------------------------------------------------------------------------
  // The recipient address

  /** `s.split(c)[-1]`: what follows the last `c`, or all of `s` when it has none. */
  function AfterLast(s: string, c: char): (r: string)
    ensures |r| <= |s|
  {
    if s == [] then []
    else if s[|s| - 1] == c then []
    else AfterLast(s[..|s| - 1], c) + [s[|s| - 1]]
  }

  /** `s.replace(c, '')`. */
  function RemoveAll(s: string, c: char): string {
    if s == [] then [] else (if s[0] == c then [] else [s[0]]) + RemoveAll(s[1..], c)
  }

  /** The address of a `From` header: the text after the last `<`, without any `>`; the header itself when it has no `<`. */
  function FromEmail(from: string): string {
    if '<' in from then RemoveAll(AfterLast(from, '<'), '>') else from
  }

  lemma {:induction false} AfterLastFacts(s: string, c: char)
    ensures c !in AfterLast(s, c)
    ensures c !in s ==> AfterLast(s, c) == s
  {
    if s != [] && s[|s| - 1] != c {
      AfterLastFacts(s[..|s| - 1], c);
      if c !in s {
        assert c !in s[..|s| - 1];
        assert s == s[..|s| - 1] + [s[|s| - 1]];
      }
    }
  }

  /** Whatever precedes the last `c` is dropped. */
  lemma {:induction false} AfterLastSuffix(p: string, c: char, t: string)
    requires c !in t
    ensures AfterLast(p + [c] + t, c) == t
  {
    var s := p + [c] + t;
    if t == [] {
      assert s[|s| - 1] == c;
    } else {
      assert s[..|s| - 1] == p + [c] + t[..|t| - 1];
      assert c !in t[..|t| - 1] by {
        assert forall i :: 0 <= i < |t| - 1 ==> t[..|t| - 1][i] == t[i];
      }
      AfterLastSuffix(p, c, t[..|t| - 1]);
      assert t == t[..|t| - 1] + [t[|t| - 1]];
    }
  }

  lemma {:induction false} RemoveAllFacts(s: string, c: char)
    ensures c !in RemoveAll(s, c)
    ensures c !in s ==> RemoveAll(s, c) == s
    ensures forall x :: x in RemoveAll(s, c) ==> x in s
  {
    if s != [] {
      RemoveAllFacts(s[1..], c);
      assert c !in s ==> c !in s[1..];
      assert forall x :: x in s[1..] ==> x in s;
    }
  }

  lemma {:induction false} RemoveAllAppend(a: string, b: string, c: char)
    ensures RemoveAll(a + b, c) == RemoveAll(a, c) + RemoveAll(b, c)
  {
    if a == [] {
      assert a + b == b;
    } else {
      assert (a + b)[1..] == a[1..] + b;
      RemoveAllAppend(a[1..], b, c);
    }
  }

  /** `Name <addr>` yields `addr`. */
  lemma FromEmailBracketed(name: string, addr: string)
    requires '<' !in addr && '>' !in addr
    ensures FromEmail(name + "<" + addr + ">") == addr
  {
    var h := name + "<" + addr + ">";
    assert h == name + ['<'] + (addr + ">");
    assert '<' in h by { assert h[|name|] == '<'; }
    AfterLastSuffix(name, '<', addr + ">");
    RemoveAllAppend(addr, ">", '>');
    RemoveAllFacts(addr, '>');
  }

  /** A header holding `<` yields an address with no angle brackets at all. */
  lemma FromEmailClean(from: string)
    requires '<' in from
    ensures '<' !in FromEmail(from) && '>' !in FromEmail(from)
  {
    AfterLastFacts(from, '<');
    RemoveAllFacts(AfterLast(from, '<'), '>');
  }

  // ---------------------------------------------------------------------------
  // The subject

  /** `Re: ` is prefixed unless the subject already starts with `re:` in any letter case. */
  function ReplySubject(subject: string): (r: string)
    ensures StartsWith(ToLower(r), "re:")
    ensures r == subject || r == "Re: " + subject
  {
    if !StartsWith(ToLower(subject), "re:") then
      ToLowerAppend("Re: ", subject);
      assert ToLower("Re: ") == "re: ";
      "Re: " + subject
    else subject
  }

  /** Replying to a reply does not stack prefixes. */
  lemma ReplySubjectIdempotent(subject: string)
    ensures ReplySubject(ReplySubject(subject)) == ReplySubject(subject)
  {
  }

  /** A subject already marked as a reply is kept as it is. */
  lemma ReplySubjectKeepsMarked(subject: string)
    requires StartsWith(ToLower(subject), "re:")
    ensures ReplySubject(subject) == subject
  {
  }

  // ---------------------------------------------------------------------------
  // The reply text

  /** `'\n'.join(lines)`. */
  function JoinLines(lines: seq<string>): string {
    if lines == [] then []
    else if |lines| == 1 then lines[0]
    else lines[0] + "\n" + JoinLines(lines[1..])
  }

  /** The joined text is blank exactly when every typed line is blank. */
  lemma {:induction false} JoinLinesBlank(lines: seq<string>)
    ensures IsBlank(JoinLines(lines)) <==> forall i :: 0 <= i < |lines| ==> IsBlank(lines[i])
  {
    if |lines| > 1 {
      JoinLinesBlank(lines[1..]);
      var a, b := lines[0] + "\n", JoinLines(lines[1..]);
      assert JoinLines(lines) == a + b;
      assert IsBlank(a + b) <==> IsBlank(a) && IsBlank(b) by {
        assert forall i :: 0 <= i < |a| ==> (a + b)[i] == a[i];
        assert forall i :: 0 <= i < |b| ==> (a + b)[|a| + i] == b[i];
      }
      assert IsBlank(a) <==> IsBlank(lines[0]) by {
        assert forall i :: 0 <= i < |lines[0]| ==> a[i] == lines[0][i];
      }
      assert forall i :: 1 <= i < |lines| ==> lines[i] == lines[1..][i - 1];
    }
  }

  /** The reply is sent only when some typed line holds more than whitespace. */
  lemma ReplyTextEmpty(lines: seq<string>)
    ensures Strip(JoinLines(lines)) == [] <==> forall i :: 0 <= i < |lines| ==> IsBlank(lines[i])
  {
    StripEmptyIffBlank(JoinLines(lines));
    JoinLinesBlank(lines);
  }

  /** The index of the first line at or after `from` that is exactly `.`, ending the reply text. */
  function ReplyEnd(lines: seq<string>, from: nat): (r: Option<nat>)
    requires from <= |lines|
    ensures r.Some? ==> from <= r.value < |lines| && lines[r.value] == "."
                        && forall j :: from <= j < r.value ==> lines[j] != "."
    ensures r.None? ==> forall j :: from <= j < |lines| ==> lines[j] != "."
    decreases |lines| - from
  {
    if from == |lines| then None
    else if lines[from] == "." then Some(from)
    else ReplyEnd(lines, from + 1)
  }

  // ---------------------------------------------------------------------------
  // The message sent

  /**
   * `send_reply`: with the replied-to message fetched again, address the reply to its
   * sender, mark its subject as a reply and thread it under that message.
   */
  function ComposeReply(thread: Option<ThreadData>, messageId: string, body: string): (r: ReplyOutcome)
    ensures thread.None? <==> r.ThreadUnavailable?
    ensures r.Outgoing? ==>
      r.reply.inReplyTo == messageId && r.reply.references == messageId && r.reply.body == body
      && r.reply.threadId == thread.value.threadId && StartsWith(ToLower(r.reply.subject), "re:")
  {
    match thread
    case None => ThreadUnavailable
    case Some(t) =>
      var subject := HeaderValue(t.headers, "subject", "Sin asunto");
      var from := HeaderValue(t.headers, "from", "");
      Outgoing(OutgoingReply(FromEmail(from), ReplySubject(subject), messageId, messageId, t.threadId, body))
  }

  /** The reply goes to the address inside the angle brackets of the message's first `From` header. */
  lemma ComposeReplyRecipient(headers: seq<Header>, threadId: string, messageId: string, body: string,
                              k: nat, name: string, addr: string)
    requires k < |headers| && ToLower(headers[k].name) == "from"
    requires forall j :: 0 <= j < k ==> ToLower(headers[j].name) != "from"
    requires headers[k].value == name + "<" + addr + ">" && '<' !in addr && '>' !in addr
    ensures ComposeReply(Some(ThreadData(headers, threadId)), messageId, body).reply.to == addr
  {
    HeaderValueFirst(headers, "from", "", k);
    FromEmailBracketed(name, addr);
  }

  /**
   * A first `From` header without `<` is the recipient as it stands, and a message with
   * no `From` header at all is answered to the empty address. `k` is the index of the
   * first `From` header, or -1 when there is none.
   */
  lemma ComposeReplyRecipientPlain(headers: seq<Header>, threadId: string, messageId: string, body: string, k: int)
    requires -1 <= k < |headers|
    requires forall j :: 0 <= j < |headers| && (k < 0 || j < k) ==> ToLower(headers[j].name) != "from"
    requires k >= 0 ==> ToLower(headers[k].name) == "from" && '<' !in headers[k].value
    ensures ComposeReply(Some(ThreadData(headers, threadId)), messageId, body).reply.to ==
            if k >= 0 then headers[k].value else ""
  {
    HeaderValueFirst(headers, "from", "", k);
  }

  /**
   * The reply's subject is that of the message's first `Subject` header, or `Sin asunto`
   * when it has none, marked with `Re: ` unless it already starts with `re:` in any letter
   * case. `k` is the index of the first `Subject` header, or -1 when there is none.
   */
  lemma ComposeReplySubject(headers: seq<Header>, threadId: string, messageId: string, body: string, k: int)
    requires -1 <= k < |headers|
    requires forall j :: 0 <= j < |headers| && (k < 0 || j < k) ==> ToLower(headers[j].name) != "subject"
    requires k >= 0 ==> ToLower(headers[k].name) == "subject"
    ensures var s := if k >= 0 then headers[k].value else "Sin asunto";
            ComposeReply(Some(ThreadData(headers, threadId)), messageId, body).reply.subject ==
            if StartsWith(ToLower(s), "re:") then s else "Re: " + s
  {
    HeaderValueFirst(headers, "subject", "Sin asunto", k);
  }
}
