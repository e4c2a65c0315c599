/**
 * The log writer that buffers formatted log lines and, at shutdown, sends
 * them in one mail whose subject can summarise the entries per priority.
 */
module LogMailWriter {
  import opened Wrappers
  import opened PhpArrays
  import opened PhpStrings

  /** A log event. The writer itself reads only priorityName; the formatter may read everything. */
  datatype Event = Event(timestamp: string, priority: int, priorityName: string, message: string)

  /** The mail message the writer fills in: its subject and its plain-text body. */
  class MailMessage {
    var subject: Option<string>
    var body: Option<string>

    constructor()
      ensures subject == None && body == None
    {
      subject := None;
      body := None;
    }

    method SetSubject(s: string)
      modifies this
      ensures subject == Some(s) && body == old(body)
    {
      subject := Some(s);
    }

    method SetBody(b: string)
      modifies this
      ensures body == Some(b) && subject == old(subject)
    {
      body := Some(b);
    }
  }

  /** What a transport is handed: the message's subject and body at the time of sending. */
  datatype Envelope = Envelope(subject: Option<string>, body: Option<string>)

  /** A mail transport, reduced to the list of messages handed to it. */
  class Transport {
    var outbox: seq<Envelope>

    constructor()
      ensures outbox == []
    {
      outbox := [];
    }

    method Send(mail: MailMessage)
      modifies this
      ensures outbox == old(outbox) + [Envelope(mail.subject, mail.body)]
    {
      outbox := outbox + [Envelope(mail.subject, mail.body)];
    }
  }

  /** The distinct priority names of ps, in order of first occurrence. */
  function FirstSeen(ps: seq<string>): (r: seq<string>)
    ensures forall i | 0 <= i < |r| :: r[i] in ps
    ensures forall i, j | 0 <= i < j < |r| :: r[i] != r[j]
  {
    if |ps| == 0 then []
    else
      var init, p := ps[..|ps| - 1], ps[|ps| - 1];
      assert ps == init + [p];
      if p in init then FirstSeen(init) else FirstSeen(init) + [p]
  }

  /** Every priority name written is among the first-seen names. */
  lemma {:induction false} FirstSeenHas(ps: seq<string>, p: string)
    ensures p in FirstSeen(ps) <==> p in ps
  {
    if |ps| > 0 {
      var init := ps[..|ps| - 1];
      assert ps == init + [ps[|ps| - 1]];
      FirstSeenHas(init, p);
    }
  }

  /**
   * The counter table describes the priority names written so far: its keys
   * are the names in first-seen order, and each maps to how often it occurs.
   */
  ghost predicate CountsWritten(counts: Assoc<nat>, ps: seq<string>) {
    && Keys(counts) == FirstSeen(ps)
    && forall p :: CountOf(counts, ps, p)
  }

  /** The table holds p exactly when p was written, and then with the number of its occurrences. */
  ghost predicate CountOf(counts: Assoc<nat>, ps: seq<string>, p: string) {
    Get(counts, p) == if p in ps then Some(multiset(ps)[p]) else None
  }

  /** Writing p once more adds one occurrence of p and none of any other name. */
  lemma OccursOneMore(ps: seq<string>, p: string, q: string)
    ensures multiset(ps + [p])[q] == if q == p then multiset(ps)[q] + 1 else multiset(ps)[q]
    ensures q in ps + [p] <==> q in ps || q == p
  {
    assert multiset(ps + [p]) == multiset(ps) + multiset{p};
  }

  /** After one more event of priority p, p's count is one higher (1 if p is new). */
  lemma CountOneMoreSame(counts: Assoc<nat>, ps: seq<string>, p: string, v: nat)
    requires CountOf(counts, ps, p) && v == Get(counts, p).GetOr(0) + 1
    ensures CountOf(Put(counts, p, v), ps + [p], p)
  {
    GetPut(counts, p, v);
    OccursOneMore(ps, p, p);
  }

  /** After one more event of priority p, the count of any other name q is unchanged. */
  lemma CountOneMoreOther(counts: Assoc<nat>, ps: seq<string>, p: string, q: string, v: nat)
    requires q != p && CountOf(counts, ps, q)
    ensures CountOf(Put(counts, p, v), ps + [p], q)
  {
    GetPut(counts, p, v);
    OccursOneMore(ps, p, q);
  }

  /** A name seen for the first time goes to the end of the key list; a known one keeps its place. */
  lemma KeysOneMore<V>(counts: Assoc<V>, ps: seq<string>, p: string, v: V)
    requires Keys(counts) == FirstSeen(ps)
    ensures Keys(Put(counts, p, v)) == FirstSeen(ps + [p])
  {
    assert (ps + [p])[..|ps|] == ps;
    FirstSeenHas(ps, p);
  }

  /** Counting one more event of priority p: p's count starts at 1 or goes up by one. */
  lemma CountOneMore(counts: Assoc<nat>, ps: seq<string>, p: string, v: nat)
    requires CountsWritten(counts, ps) && v == Get(counts, p).GetOr(0) + 1
    ensures CountsWritten(Put(counts, p, v), ps + [p])
  {
    KeysOneMore(counts, ps, p, v);
    var next, ps' := Put(counts, p, v), ps + [p];
    forall q ensures CountOf(next, ps', q) {
      if q == p {
        CountOneMoreSame(counts, ps, p, v);
      } else {
        CountOneMoreOther(counts, ps, p, q, v);
      }
    }
  }

  /**
   * The writer's buffer after the events with priority names ps: one line
   * per event, and counters that describe ps and add up to the line count.
   */
  ghost predicate Buffered(lines: seq<string>, counts: Assoc<nat>, ps: seq<string>) {
    && |ps| == |lines|
    && CountsWritten(counts, ps)
    && Total(counts) == |lines|
  }

  /** Buffering one more line of priority p keeps the buffer and its counters in step. */
  lemma WriteOne(lines: seq<string>, counts: Assoc<nat>, ps: seq<string>, line: string, p: string, v: nat)
    requires Buffered(lines, counts, ps) && v == Get(counts, p).GetOr(0) + 1
    ensures Buffered(lines + [line], Put(counts, p, v), ps + [p])
  {
    CountOneMore(counts, ps, p, v);
    TotalPut(counts, p, v);
  }

  /** One summary item, "priority=count". */
  function SummaryItem(entry: (string, nat)): string {
    entry.0 + "=" + NatToString(entry.1)
  }

  function SummaryItems(counts: seq<(string, nat)>): (items: seq<string>)
    ensures |items| == |counts|
    ensures forall i | 0 <= i < |counts| :: items[i] == SummaryItem(counts[i])
  {
    seq(|counts|, i requires 0 <= i < |counts| => SummaryItem(counts[i]))
  }

  /** getFormattedNumEntriesPerPriority as a value: the items joined by ", ". */
  function Summary(counts: seq<(string, nat)>): (s: string)
    ensures |counts| > 0 ==> counts[0].0 + "=" <= s
  {
    Implode(", ", SummaryItems(counts))
  }

  /** The summary is "" exactly when no entry has been counted. */
  lemma SummaryEmpty(counts: seq<(string, nat)>)
    ensures Summary(counts) == "" <==> |counts| == 0
  {
    var items := SummaryItems(counts);
    forall i | 0 <= i < |items| ensures items[i] != "" {
      assert |items[i]| >= |counts[i].0 + "="|;
    }
    ImplodeEmpty(", ", items);
  }

  /** A priority seen for the first time is summarised after all earlier ones. */
  lemma SummaryAppend(counts: seq<(string, nat)>, entry: (string, nat))
    ensures Summary(counts + [entry]) ==
            if |counts| == 0 then SummaryItem(entry) else Summary(counts) + ", " + SummaryItem(entry)
  {
    assert SummaryItems(counts + [entry]) == SummaryItems(counts) + [SummaryItem(entry)];
    ImplodeSnoc(", ", SummaryItems(counts), SummaryItem(entry));
  }

  /**
   * For the counters of the events written so far, the summary lists each
   * priority once, in first-seen order, with the number of its events.
   */
  lemma SummaryCountsWrittenEvents(counts: Assoc<nat>, ps: seq<string>)
    requires CountsWritten(counts, ps)
    ensures |SummaryItems(counts)| == |FirstSeen(ps)|
    ensures forall i | 0 <= i < |FirstSeen(ps)| ::
      SummaryItems(counts)[i] == FirstSeen(ps)[i] + "=" + NatToString(multiset(ps)[FirstSeen(ps)[i]])
  {
    forall i | 0 <= i < |counts|
      ensures counts[i].1 == multiset(ps)[FirstSeen(ps)[i]]
    {
      assert Keys(counts)[i] == counts[i].0;
      assert CountOf(counts, ps, counts[i].0);
      assert Get(counts, counts[i].0) == Some(counts[i].1);
    }
  }

  /** The buffering mail writer. */
  class MailWriter {
    /** The formatted lines, in write order. */
    var eventsToMail: seq<string>
    /** Priority name => number of entries, in first-seen order. */
    var numEntriesPerPriority: Assoc<nat>
    var subjectPrependText: Option<string>
    const mail: MailMessage
    var transport: Transport
    const formatter: Event -> string
    /** The priority names of the events written so far, in write order. */
    ghost var written: seq<string>

    ghost predicate Valid()
      reads this
    {
      Buffered(eventsToMail, numEntriesPerPriority, written)
    }

    constructor(mail: MailMessage, transport: Transport, formatter: Event -> string)
      ensures Valid()
      ensures this.mail == mail && this.transport == transport && this.formatter == formatter
      ensures eventsToMail == [] && numEntriesPerPriority == [] && subjectPrependText == None
    {
      this.mail := mail;
      this.transport := transport;
      this.formatter := formatter;
      eventsToMail := [];
      numEntriesPerPriority := [];
      subjectPrependText := None;
      written := [];
    }

    method SetTransport(t: Transport) returns (self: MailWriter)
      requires Valid()
      modifies this
      ensures Valid()
      ensures transport == t && self == this
      ensures eventsToMail == old(eventsToMail) && numEntriesPerPriority == old(numEntriesPerPriority)
      ensures subjectPrependText == old(subjectPrependText) && written == old(written)
    {
      transport := t;
      return this;
    }

    /**
     * doWrite: count the event under its priority name (a new name starts at
     * 1 and goes to the end of the table) and append its formatted line.
     */
    method DoWrite(event: Event)
      requires Valid()
      modifies this
      ensures Valid()
      ensures eventsToMail == old(eventsToMail) + [formatter(event)]
      ensures old(HasKey(numEntriesPerPriority, event.priorityName)) ==>
                numEntriesPerPriority ==
                Put(old(numEntriesPerPriority), event.priorityName,
                    old(Get(numEntriesPerPriority, event.priorityName)).value + 1)
      ensures old(!HasKey(numEntriesPerPriority, event.priorityName)) ==>
                numEntriesPerPriority == old(numEntriesPerPriority) + [(event.priorityName, 1)]
      ensures written == old(written) + [event.priorityName]
      ensures subjectPrependText == old(subjectPrependText) && transport == old(transport)
    {
      var name := event.priorityName;
      var count := Get(numEntriesPerPriority, name);
      var n: nat;
      if count.None? {
        n := 1;
      } else {
        n := count.value + 1;
      }
      WriteOne(eventsToMail, numEntriesPerPriority, written, formatter(event), name, n);
      numEntriesPerPriority := Put(numEntriesPerPriority, name, n);
      eventsToMail := eventsToMail + [formatter(event)];
      written := written + [name];
    }

    /** setSubjectPrependText stores the text and returns the writer itself. */
    method SetSubjectPrependText(subject: string) returns (self: MailWriter)
      requires Valid()
      modifies this
      ensures Valid()
      ensures subjectPrependText == Some(subject) && self == this
      ensures eventsToMail == old(eventsToMail) && numEntriesPerPriority == old(numEntriesPerPriority)
      ensures transport == old(transport) && written == old(written)
    {
      subjectPrependText := Some(subject);
      return this;
    }

    /** getFormattedNumEntriesPerPriority: "p=n" items joined by ", ", in table order. */
    method GetFormattedNumEntriesPerPriority() returns (s: string)
      ensures s == Summary(numEntriesPerPriority)
    {
      var strings: seq<string> := [];
      var i := 0;
      while i < |numEntriesPerPriority|
        invariant 0 <= i <= |numEntriesPerPriority|
        invariant strings == SummaryItems(numEntriesPerPriority[..i])
      {
        var (priority, numEntries) := numEntriesPerPriority[i];
        assert numEntriesPerPriority[..i + 1] == numEntriesPerPriority[..i] + [(priority, numEntries)];
        strings := strings + [priority + "=" + NatToString(numEntries)];
        i := i + 1;
      }
      assert numEntriesPerPriority[..i] == numEntriesPerPriority;
      s := Implode(", ", strings);
    }

    /**
     * shutdown: with nothing buffered, nothing happens. Otherwise the subject
     * becomes "<prepend> (<summary>)" if prepend text was set, the body
     * becomes the buffered lines concatenated in write order, and the
     * message is handed to the transport.
     */
    method Shutdown()
      requires Valid()
      modifies mail, transport
      ensures eventsToMail == [] ==> unchanged(mail, transport)
      ensures eventsToMail != [] ==>
                mail.subject == if subjectPrependText.Some?
                                then Some(subjectPrependText.value + " (" + Summary(numEntriesPerPriority) + ")")
                                else old(mail.subject)
      ensures eventsToMail != [] ==> mail.body == Some(Implode("", eventsToMail))
      ensures eventsToMail != [] ==> transport.outbox == old(transport.outbox) + [Envelope(mail.subject, mail.body)]
    {
      if |eventsToMail| == 0 {
        return;
      }
      if subjectPrependText.Some? {
        var numEntries := GetFormattedNumEntriesPerPriority();
        mail.SetSubject(subjectPrependText.value + " (" + numEntries + ")");
      }
      mail.SetBody(Implode("", eventsToMail));
      transport.Send(mail);
    }
  }
}
