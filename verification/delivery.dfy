/**
 * The run itself, `check_birthdays_and_send_email` (birthday_mailer.py): the
 * cleaning pass over the rows, the content cache, today's birthdays, and the
 * send loop gated by the per-date sent log.
 */
module Delivery {
  import opened Wrappers
  import opened PyStr
  import opened Validator
  import opened Resolver
  import opened RunAnalytics

  /** A parsed date of birth; only its month and day are compared. */
  datatype MonthDay = MonthDay(month: int, day: int)

  /** The day of the run; it also keys the sent log (its `'%Y-%m-%d'` text). */
  datatype Date = Date(year: int, month: int, day: int)

  /** A spreadsheet row as read: the EMAIL cell, and the DOB, `None` when it does not parse. */
  datatype Row = Row(email: Cell, dob: Option<MonthDay>)

  /** A row that survived cleaning: its accepted addresses replace the EMAIL cell. */
  datatype Person = Person(emails: seq<string>, dob: Option<MonthDay>)

  /** What the cleaning pass yields: the kept rows, the correction notes, the rejected cells. */
  datatype Cleaned = Cleaned(people: seq<Person>, corrections: seq<string>, invalid: seq<string>)

  /**
   * The cleaning pass, row after row: a row with no accepted address is dropped
   * and its cell text recorded as invalid; every other row is kept, in order.
   */
  function CleanRows(rows: seq<Row>): (c: Cleaned)
    ensures |c.people| + |c.invalid| == |rows|
    ensures forall i :: 0 <= i < |c.people| ==> c.people[i].emails != []
  {
    if rows == [] then Cleaned([], [], [])
    else
      var row := rows[|rows| - 1];
      AddRow(CleanRows(rows[..|rows| - 1]), row, ResolveCell(row.email))
  }

  /** One row's share of the pass, given how its EMAIL cell resolved. */
  function AddRow(c: Cleaned, row: Row, r: Resolution): (c': Cleaned)
    ensures |c'.people| + |c'.invalid| == |c.people| + |c.invalid| + 1
    ensures (forall i :: 0 <= i < |c.people| ==> c.people[i].emails != []) ==>
      forall i :: 0 <= i < |c'.people| ==> c'.people[i].emails != []
  {
    if r.accepted == [] then
      Cleaned(c.people, c.corrections + r.corrections, c.invalid + [CellText(row.email)])
    else
      Cleaned(c.people + [Person(r.accepted, row.dob)], c.corrections + r.corrections, c.invalid)
  }

  lemma CleanRowsSnoc(rows: seq<Row>, i: nat)
    requires i < |rows|
    ensures CleanRows(rows[..i + 1]) == AddRow(CleanRows(rows[..i]), rows[i], ResolveCell(rows[i].email))
  {
    assert rows[..i + 1][..i] == rows[..i];
  }

  /**
   * A single row is kept exactly when its cell yields an address, with those
   * addresses and its own DOB; otherwise its cell text is recorded as invalid.
   * Its correction notes are recorded either way.
   */
  lemma CleanRowsSingle(row: Row)
    ensures var r := ResolveCell(row.email);
      CleanRows([row]) ==
        if r.accepted == [] then Cleaned([], r.corrections, [CellText(row.email)])
        else Cleaned([Person(r.accepted, row.dob)], r.corrections, [])
  {
    assert [row][..0] == [];
    AddRowToEmpty(row, ResolveCell(row.email));
  }

  lemma AddRowToEmpty(row: Row, r: Resolution)
    ensures AddRow(Cleaned([], [], []), row, r) ==
      if r.accepted == [] then Cleaned([], r.corrections, [CellText(row.email)])
      else Cleaned([Person(r.accepted, row.dob)], r.corrections, [])
  {
    assert [] + r.corrections == r.corrections;
  }

  /** The pass keeps the order of the rows: cleaning a concatenation concatenates the results. */
  lemma {:induction false} CleanRowsAppend(a: seq<Row>, b: seq<Row>)
    ensures var ca, cb := CleanRows(a), CleanRows(b);
      CleanRows(a + b) == Cleaned(ca.people + cb.people, ca.corrections + cb.corrections, ca.invalid + cb.invalid)
    decreases |b|
  {
    if b == [] {
      assert a + b == a;
    } else {
      var b' := b[..|b| - 1];
      var row := b[|b| - 1];
      assert (a + b)[..|a + b| - 1] == a + b';
      assert (a + b)[|a + b| - 1] == row;
      CleanRowsAppend(a, b');
      AddRowAppend(CleanRows(a), CleanRows(b'), row, ResolveCell(row.email));
    }
  }

  /** Adding a row after two batches is adding it after the second batch. */
  lemma AddRowAppend(ca: Cleaned, cb: Cleaned, row: Row, r: Resolution)
    ensures var c := AddRow(cb, row, r);
      AddRow(Cleaned(ca.people + cb.people, ca.corrections + cb.corrections, ca.invalid + cb.invalid), row, r)
        == Cleaned(ca.people + c.people, ca.corrections + c.corrections, ca.invalid + c.invalid)
  {
    AppendAssoc(ca.corrections, cb.corrections, r.corrections);
    if r.accepted == [] {
      AppendAssoc(ca.invalid, cb.invalid, [CellText(row.email)]);
    } else {
      assert (ca.people + cb.people) + [Person(r.accepted, row.dob)] == ca.people + (cb.people + [Person(r.accepted, row.dob)]);
    }
  }

  /** The analytics a cleaning pass stores in the cache: no sending has happened yet. */
  function CleanRecord(rows: seq<Row>): Record {
    var c := CleanRows(rows);
    Record(|rows|, |c.people|, 0, 0, 0, c.corrections, c.invalid, 0)
  }

  /**
   * The EMAIL column mapped through `validate_email_entry`, then the rows without
   * an address dropped; `valid_emails` counts the rows kept, not the addresses.
   */
  method CleanDataset(rows: seq<Row>, analytics: Analytics) returns (people: seq<Person>)
    modifies analytics`validEmails, analytics`corrections, analytics`invalidEmails
    ensures people == CleanRows(rows).people
    ensures analytics.ToRecord() == old(analytics.ToRecord()).(
      validEmails := |people|,
      corrections := old(analytics.corrections) + CleanRows(rows).corrections,
      invalidEmails := CleanRows(rows).invalid)
  {
    var invalidEmails: seq<string>;
    people, invalidEmails := CleanLoop(rows, analytics);
    analytics.validEmails := |people|;
    analytics.invalidEmails := invalidEmails;
  }

  /** The loop of the pass, collecting the kept rows and, in a local list, the rejected cells. */
  method CleanLoop(rows: seq<Row>, analytics: Analytics) returns (people: seq<Person>, invalid: seq<string>)
    modifies analytics`corrections
    ensures people == CleanRows(rows).people && invalid == CleanRows(rows).invalid
    ensures analytics.corrections == old(analytics.corrections) + CleanRows(rows).corrections
  {
    var invalidEmails := new TextList();
    people := [];
    for i := 0 to |rows|
      invariant people == CleanRows(rows[..i]).people
      invariant invalidEmails.items == CleanRows(rows[..i]).invalid
      invariant analytics.corrections == old(analytics.corrections) + CleanRows(rows[..i]).corrections
    {
      people := CleanRow(rows, i, old(analytics.corrections), people, invalidEmails, analytics);
    }
    assert rows[..|rows|] == rows;
    invalid := invalidEmails.items;
  }

  /** One row of the pass: its cell is resolved, and the row kept when an address was accepted. */
  method CleanRow(rows: seq<Row>, i: nat, ghost before: seq<string>, people: seq<Person>, invalidEmails: TextList, analytics: Analytics)
    returns (people': seq<Person>)
    requires i < |rows|
    requires people == CleanRows(rows[..i]).people && invalidEmails.items == CleanRows(rows[..i]).invalid
    requires analytics.corrections == before + CleanRows(rows[..i]).corrections
    modifies invalidEmails, analytics`corrections
    ensures people' == CleanRows(rows[..i + 1]).people && invalidEmails.items == CleanRows(rows[..i + 1]).invalid
    ensures analytics.corrections == before + CleanRows(rows[..i + 1]).corrections
  {
    ghost var c := CleanRows(rows[..i]);
    ghost var r := ResolveCell(rows[i].email);
    CleanRowsSnoc(rows, i);
    var emails := ValidateEmailEntry(rows[i].email, invalidEmails, analytics);
    AppendAssoc(before, c.corrections, r.corrections);
    people' := people;
    if |emails| > 0 {
      people' := people + [Person(emails, rows[i].dob)];
    }
  }

  /** Every kept row holds at least one address, and only valid ones. */
  lemma {:induction false} CleanedPeopleValid(rows: seq<Row>)
    ensures forall p, a :: p in CleanRows(rows).people && a in p.emails ==> IsValidEmailFormat(a)
  {
    if rows != [] {
      CleanedPeopleValid(rows[..|rows| - 1]);
    }
  }

  /** A row is selected when its DOB parsed and has today's month and day. */
  predicate IsBirthday(p: Person, today: Date) {
    p.dob.Some? && p.dob.value.month == today.month && p.dob.value.day == today.day
  }

  /** `birthdays_today`: the kept rows whose birthday is today, in their original order. */
  function BirthdaysToday(people: seq<Person>, today: Date): (sel: seq<Person>)
    ensures |sel| <= |people|
    ensures forall p :: p in sel ==> p in people && IsBirthday(p, today)
  {
    if people == [] then []
    else
      var sel := BirthdaysToday(people[..|people| - 1], today);
      var p := people[|people| - 1];
      if IsBirthday(p, today) then sel + [p] else sel
  }

  /** No row with a birthday today is left out. */
  lemma {:induction false} BirthdaysTodayComplete(people: seq<Person>, today: Date, p: Person)
    requires p in people && IsBirthday(p, today)
    ensures p in BirthdaysToday(people, today)
  {
    var n := |people|;
    if people[n - 1] != p {
      assert p in people[..n - 1] by {
        var i :| 0 <= i < n && people[i] == p;
        assert people[..n - 1][i] == p;
      }
      BirthdaysTodayComplete(people[..n - 1], today, p);
    }
  }

  /** Selection keeps the order of the rows: selecting from a concatenation concatenates the selections. */
  lemma {:induction false} BirthdaysTodayAppend(a: seq<Person>, b: seq<Person>, today: Date)
    ensures BirthdaysToday(a + b, today) == BirthdaysToday(a, today) + BirthdaysToday(b, today)
    decreases |b|
  {
    if b == [] {
      assert a + b == a;
    } else {
      var b' := b[..|b| - 1];
      assert (a + b)[..|a + b| - 1] == a + b';
      assert (a + b)[|a + b| - 1] == b[|b| - 1];
      BirthdaysTodayAppend(a, b', today);
    }
  }

  /** Every address of the selected rows, row after row. */
  function Addresses(people: seq<Person>): seq<string> {
    if people == [] then [] else Addresses(people[..|people| - 1]) + people[|people| - 1].emails
  }

  /**
   * What the send loop carries: today's set of addresses already delivered, and
   * this run's counts of deliveries, failures and skips.
   */
  datatype Gate = Gate(sentToday: set<string>, sent: nat, failures: nat, skipped: nat)

  /**
   * One address: skipped when already delivered today; otherwise one delivery
   * attempt, numbered by the attempts made before it, whose success `delivered`
   * decides. Only a success adds the address to today's set.
   */
  function SendOne(g: Gate, addr: string, delivered: (nat, string) -> bool): (g': Gate)
    ensures g'.sent + g'.failures + g'.skipped == g.sent + g.failures + g.skipped + 1
    ensures g'.skipped == g.skipped + 1 <==> addr in g.sentToday
    ensures g'.sent == g.sent + 1 <==> addr !in g.sentToday && delivered(g.sent + g.failures, addr)
    ensures g'.sentToday == if g'.sent == g.sent + 1 then g.sentToday + {addr} else g.sentToday
  {
    if addr in g.sentToday then g.(skipped := g.skipped + 1)
    else if delivered(g.sent + g.failures, addr) then g.(sentToday := g.sentToday + {addr}, sent := g.sent + 1)
    else g.(failures := g.failures + 1)
  }

  /**
   * The send loop over a sequence of addresses: each one is counted exactly once,
   * as delivered, failed or skipped.
   */
  function SendEach(g: Gate, addrs: seq<string>, delivered: (nat, string) -> bool): (g': Gate)
    ensures g'.sent + g'.failures + g'.skipped == g.sent + g.failures + g.skipped + |addrs|
    ensures g.sent <= g'.sent && g.failures <= g'.failures && g.skipped <= g'.skipped
  {
    if addrs == [] then g
    else SendOne(SendEach(g, addrs[..|addrs| - 1], delivered), addrs[|addrs| - 1], delivered)
  }

  /** Today's set only grows, and only by addresses of the sequence. */
  lemma {:induction false} SentTodayBounds(g: Gate, addrs: seq<string>, delivered: (nat, string) -> bool)
    ensures var g' := SendEach(g, addrs, delivered);
      && g.sentToday <= g'.sentToday
      && forall a :: a in g'.sentToday ==> a in g.sentToday || a in addrs
  {
    if addrs != [] {
      SentTodayBounds(g, addrs[..|addrs| - 1], delivered);
      assert forall a :: a in addrs[..|addrs| - 1] ==> a in addrs;
    }
  }

  lemma SendEachSnoc(g: Gate, addrs: seq<string>, addr: string, delivered: (nat, string) -> bool)
    ensures SendEach(g, addrs + [addr], delivered) == SendOne(SendEach(g, addrs, delivered), addr, delivered)
  {
    assert (addrs + [addr])[..|addrs|] == addrs;
  }

  /** The send loop can be cut anywhere: the second part starts from the gate the first part leaves. */
  lemma {:induction false} SendEachAppend(g: Gate, xs: seq<string>, ys: seq<string>, delivered: (nat, string) -> bool)
    ensures SendEach(g, xs + ys, delivered) == SendEach(SendEach(g, xs, delivered), ys, delivered)
    decreases |ys|
  {
    if ys == [] {
      assert xs + ys == xs;
    } else {
      var ys' := ys[..|ys| - 1];
      assert (xs + ys)[..|xs + ys| - 1] == xs + ys';
      SendEachAppend(g, xs, ys', delivered);
    }
  }

  /**
   * At most one delivery per address and date: the addresses added to today's
   * set are exactly as many as the successful deliveries.
   */
  lemma {:induction false} DeliveredOnce(g: Gate, addrs: seq<string>, delivered: (nat, string) -> bool)
    ensures var g' := SendEach(g, addrs, delivered);
      |g'.sentToday - g.sentToday| == g'.sent - g.sent
  {
    if addrs != [] {
      var prev := SendEach(g, addrs[..|addrs| - 1], delivered);
      DeliveredOnce(g, addrs[..|addrs| - 1], delivered);
      SentTodayBounds(g, addrs[..|addrs| - 1], delivered);
      var addr := addrs[|addrs| - 1];
      if addr !in prev.sentToday && delivered(prev.sent + prev.failures, addr) {
        assert (prev.sentToday + {addr}) - g.sentToday == (prev.sentToday - g.sentToday) + {addr};
      }
    }
  }

  /**
   * The oracle is consulted only for addresses not yet delivered today: two
   * oracles that agree on those give the same run.
   */
  lemma {:induction false} SentAddressesNeverRetried(g: Gate, addrs: seq<string>, d1: (nat, string) -> bool, d2: (nat, string) -> bool)
    requires forall n, a :: a !in g.sentToday ==> d1(n, a) == d2(n, a)
    ensures SendEach(g, addrs, d1) == SendEach(g, addrs, d2)
  {
    if addrs != [] {
      SentAddressesNeverRetried(g, addrs[..|addrs| - 1], d1, d2);
      SentTodayBounds(g, addrs[..|addrs| - 1], d1);
    }
  }

  /**
   * Addresses already delivered today are only counted as skipped: nothing is
   * sent, nothing fails, and today's set stays as it was.
   */
  lemma {:induction false} SkippedWhenSent(g: Gate, addrs: seq<string>, delivered: (nat, string) -> bool)
    requires forall i :: 0 <= i < |addrs| ==> addrs[i] in g.sentToday
    ensures SendEach(g, addrs, delivered) == g.(skipped := g.skipped + |addrs|)
  {
    if addrs != [] {
      SkippedWhenSent(g, addrs[..|addrs| - 1], delivered);
    }
  }

  /**
   * The `i`-th address was attempted (it was not yet in today's set) and the
   * attempt, numbered by those before it, succeeded.
   */
  predicate DeliveredAt(g: Gate, addrs: seq<string>, i: nat, delivered: (nat, string) -> bool)
    requires i < |addrs|
  {
    var b := SendEach(g, addrs[..i], delivered);
    addrs[i] !in b.sentToday && delivered(b.sent + b.failures, addrs[i])
  }

  lemma DeliveredAtPrefix(g: Gate, xs: seq<string>, ys: seq<string>, i: nat, delivered: (nat, string) -> bool)
    requires i < |xs| <= |ys| && xs == ys[..|xs|]
    ensures xs[i] == ys[i] && DeliveredAt(g, xs, i, delivered) == DeliveredAt(g, ys, i, delivered)
  {
    assert xs[..i] == ys[..i];
  }

  /**
   * An address is in today's set afterwards exactly when it was before, or one
   * of its attempts succeeded; a failed attempt adds nothing.
   */
  lemma {:induction false} DeliveredIff(g: Gate, addrs: seq<string>, delivered: (nat, string) -> bool, a: string)
    ensures a in SendEach(g, addrs, delivered).sentToday <==>
      a in g.sentToday || exists i :: 0 <= i < |addrs| && addrs[i] == a && DeliveredAt(g, addrs, i, delivered)
  {
    if addrs != [] {
      DeliveredIff(g, addrs[..|addrs| - 1], delivered, a);
      DeliveredLast(g, addrs, delivered, a);
      DeliveredAtSplit(g, addrs[..|addrs| - 1], addrs, delivered, a);
    }
  }

  /** The last address of a sequence joins today's set exactly when it is delivered there. */
  lemma DeliveredLast(g: Gate, addrs: seq<string>, delivered: (nat, string) -> bool, a: string)
    requires addrs != []
    ensures var n := |addrs|;
      a in SendEach(g, addrs, delivered).sentToday <==>
        a in SendEach(g, addrs[..n - 1], delivered).sentToday || (addrs[n - 1] == a && DeliveredAt(g, addrs, n - 1, delivered))
  {
  }

  /** A delivery somewhere in a sequence is one before its last address, or one at it. */
  lemma DeliveredAtSplit(g: Gate, init: seq<string>, addrs: seq<string>, delivered: (nat, string) -> bool, a: string)
    requires addrs != [] && init == addrs[..|addrs| - 1]
    ensures (exists i :: 0 <= i < |addrs| && addrs[i] == a && DeliveredAt(g, addrs, i, delivered)) <==>
      (exists i :: 0 <= i < |init| && init[i] == a && DeliveredAt(g, init, i, delivered))
      || (addrs[|addrs| - 1] == a && DeliveredAt(g, addrs, |addrs| - 1, delivered))
  {
    var n := |addrs|;
    if i :| 0 <= i < n && addrs[i] == a && DeliveredAt(g, addrs, i, delivered) {
      if i < n - 1 {
        DeliveredAtPrefix(g, init, addrs, i, delivered);
      }
    }
    if i :| 0 <= i < n - 1 && init[i] == a && DeliveredAt(g, init, i, delivered) {
      DeliveredAtPrefix(g, init, addrs, i, delivered);
    }
  }

  /**
   * The nested send loop (`for row in birthdays_today`, `for email in row`): an
   * address already delivered today is counted as skipped, any other is tried
   * once, and a success adds it to today's set.
   */
  method SendToAll(birthdays: seq<Person>, sentToday: set<string>, delivered: (nat, string) -> bool, analytics: Analytics)
    returns (after: set<string>)
    modifies analytics`emailsSent, analytics`sendFailures, analytics`skippedSends
    ensures var g := SendEach(Gate(sentToday, 0, 0, 0), Addresses(birthdays), delivered);
      && after == g.sentToday
      && analytics.emailsSent == old(analytics.emailsSent) + g.sent
      && analytics.sendFailures == old(analytics.sendFailures) + g.failures
      && analytics.skippedSends == old(analytics.skippedSends) + g.skipped
  {
    after := sentToday;
    var attempts := 0;
    ghost var g := Gate(sentToday, 0, 0, 0);
    for r := 0 to |birthdays|
      invariant g == SendEach(Gate(sentToday, 0, 0, 0), Addresses(birthdays[..r]), delivered)
      invariant after == g.sentToday && attempts == g.sent + g.failures
      invariant analytics.emailsSent == old(analytics.emailsSent) + g.sent
      invariant analytics.sendFailures == old(analytics.sendFailures) + g.failures
      invariant analytics.skippedSends == old(analytics.skippedSends) + g.skipped
    {
      assert birthdays[..r + 1][..r] == birthdays[..r];
      SendEachAppend(Gate(sentToday, 0, 0, 0), Addresses(birthdays[..r]), birthdays[r].emails, delivered);
      after, attempts := SendRow(birthdays[r].emails, g, after, attempts, delivered, analytics);
      g := SendEach(g, birthdays[r].emails, delivered);
    }
    assert birthdays[..|birthdays|] == birthdays;
  }

  /** The inner loop, over the addresses of one selected row. */
  method SendRow(emails: seq<string>, ghost g: Gate, sentToday: set<string>, attempts: nat,
                 delivered: (nat, string) -> bool, analytics: Analytics)
    returns (after: set<string>, attempts': nat)
    requires sentToday == g.sentToday && attempts == g.sent + g.failures
    modifies analytics`emailsSent, analytics`sendFailures, analytics`skippedSends
    ensures var g' := SendEach(g, emails, delivered);
      && after == g'.sentToday && attempts' == g'.sent + g'.failures
      && analytics.emailsSent + g.sent == old(analytics.emailsSent) + g'.sent
      && analytics.sendFailures + g.failures == old(analytics.sendFailures) + g'.failures
      && analytics.skippedSends + g.skipped == old(analytics.skippedSends) + g'.skipped
  {
    after, attempts' := sentToday, attempts;
    ghost var h := g;
    for k := 0 to |emails|
      invariant h == SendEach(g, emails[..k], delivered)
      invariant after == h.sentToday && attempts' == h.sent + h.failures
      invariant analytics.emailsSent + g.sent == old(analytics.emailsSent) + h.sent
      invariant analytics.sendFailures + g.failures == old(analytics.sendFailures) + h.failures
      invariant analytics.skippedSends + g.skipped == old(analytics.skippedSends) + h.skipped
    {
      assert emails[..k + 1] == emails[..k] + [emails[k]];
      SendEachSnoc(g, emails[..k], emails[k], delivered);
      after, attempts' := SendTo(emails[k], h, after, attempts', delivered, analytics);
      h := SendOne(h, emails[k], delivered);
    }
    assert emails[..|emails|] == emails;
  }

  /**
   * One address (`if email not in sent_today`): skipped when already delivered
   * today, otherwise one attempt, counted as sent or failed.
   */
  method SendTo(email: string, ghost h: Gate, sentToday: set<string>, attempts: nat,
                delivered: (nat, string) -> bool, analytics: Analytics)
    returns (after: set<string>, attempts': nat)
    requires sentToday == h.sentToday && attempts == h.sent + h.failures
    modifies analytics`emailsSent, analytics`sendFailures, analytics`skippedSends
    ensures var h' := SendOne(h, email, delivered);
      && after == h'.sentToday && attempts' == h'.sent + h'.failures
      && analytics.emailsSent + h.sent == old(analytics.emailsSent) + h'.sent
      && analytics.sendFailures + h.failures == old(analytics.sendFailures) + h'.failures
      && analytics.skippedSends + h.skipped == old(analytics.skippedSends) + h'.skipped
  {
    after, attempts' := sentToday, attempts;
    if email !in sentToday {
      if delivered(attempts, email) {
        analytics.emailsSent := analytics.emailsSent + 1;
        after := sentToday + {email};
      } else {
        analytics.sendFailures := analytics.sendFailures + 1;
      }
      attempts' := attempts + 1;
    } else {
      analytics.skippedSends := analytics.skippedSends + 1;
    }
  }

  /** The content cache: the file's fingerprint, the cleaned rows and the analytics stored with them. */
  datatype CacheEntry = CacheEntry(fingerprint: nat, people: seq<Person>, record: Record)

  /** The cache file, as an in-memory slot. */
  class ContentCache {
    var stored: Option<CacheEntry>

    constructor (stored: Option<CacheEntry>)
      ensures this.stored == stored
    {
      this.stored := stored;
    }
  }

  /** The sent log file, as an in-memory map from date to the addresses delivered that day. */
  class SentLog {
    var entries: map<Date, set<string>>

    constructor (entries: map<Date, set<string>>)
      ensures this.entries == entries
    {
      this.entries := entries;
    }
  }

  /** The status message: no birthdays today, or the number of new birthday emails. */
  datatype Status = NoBirthdays | Processed(emailsSent: nat)

  /** Whether the stored cache entry belongs to the current file. */
  predicate CacheHit(stored: Option<CacheEntry>, fingerprint: nat): (hit: bool)
    ensures stored.None? ==> !hit
    ensures stored.Some? ==> (hit <==> stored.value.fingerprint == fingerprint)
  {
    stored.Some? && stored.value.fingerprint == fingerprint
  }

  /**
   * The entry a run proceeds from: the stored one when its fingerprint matches,
   * otherwise a fresh cleaning pass of the rows, with no send counted yet.
   */
  function Loaded(stored: Option<CacheEntry>, fingerprint: nat, rows: seq<Row>): CacheEntry {
    if CacheHit(stored, fingerprint) then stored.value
    else CacheEntry(fingerprint, CleanRows(rows).people, CleanRecord(rows))
  }

  /**
   * The cleaned rows and their analytics: read from the cache when the fingerprint
   * matches; otherwise computed by a cleaning pass and stored, before any sending.
   * Either way the cache holds the entry afterwards.
   */
  method LoadCleaned(rows: seq<Row>, fingerprint: nat, cache: ContentCache)
    returns (people: seq<Person>, analytics: Analytics, ghost e: CacheEntry)
    modifies cache
    ensures e == Loaded(old(cache.stored), fingerprint, rows)
    ensures fresh(analytics)
    ensures people == e.people && analytics.ToRecord() == e.record && cache.stored == Some(e)
  {
    e := Loaded(cache.stored, fingerprint, rows);
    if CacheHit(cache.stored, fingerprint) {
      people := cache.stored.value.people;
      analytics := new Analytics.FromRecord(cache.stored.value.record);
    } else {
      analytics := new Analytics();
      analytics.totalRows := |rows|;
      people := CleanDataset(rows, analytics);
      assert [] + CleanRows(rows).corrections == CleanRows(rows).corrections;
      cache.stored := Some(CacheEntry(fingerprint, people, analytics.ToRecord()));
    }
  }

  /**
   * Today's entry of the sent log gates the send loop, and the grown set is
   * written back under today's date.
   */
  method SendAndLog(birthdays: seq<Person>, today: Date, log: SentLog, delivered: (nat, string) -> bool, analytics: Analytics)
    modifies log, analytics`emailsSent, analytics`sendFailures, analytics`skippedSends
    ensures var g := SendEach(Gate(LoggedOn(old(log.entries), today), 0, 0, 0), Addresses(birthdays), delivered);
      && log.entries == old(log.entries)[today := g.sentToday]
      && analytics.emailsSent == old(analytics.emailsSent) + g.sent
      && analytics.sendFailures == old(analytics.sendFailures) + g.failures
      && analytics.skippedSends == old(analytics.skippedSends) + g.skipped
  {
    var sentToday := LoggedOn(log.entries, today);
    sentToday := SendToAll(birthdays, sentToday, delivered, analytics);
    log.entries := log.entries[today := sentToday];
  }

  /** `sent_log.get(date_str, set())` on the log's contents. */
  function LoggedOn(entries: map<Date, set<string>>, d: Date): (sent: set<string>)
    ensures d !in entries ==> sent == {}
    ensures forall a :: a in sent <==> d in entries && a in entries[d]
  {
    if d in entries then entries[d] else {}
  }

  /**
   * What a run does once its rows and analytics are loaded. With no birthday
   * today, only `birthdays_found` changes (to zero) and the log is untouched.
   * Otherwise the selected addresses go through the gate of today's entry: that
   * entry becomes the grown set, no other date changes, the counters grow by the
   * sends, failures and skips, and the status reports the emails sent.
   */
  ghost predicate RunEffect(people: seq<Person>, before: Record, today: Date, delivered: (nat, string) -> bool,
                            logBefore: map<Date, set<string>>, logAfter: map<Date, set<string>>,
                            after: Record, status: Status)
  {
    var sel := BirthdaysToday(people, today);
    if sel == [] then
      && status == NoBirthdays
      && logAfter == logBefore
      && after == before.(birthdaysFound := 0)
    else
      var g := SendEach(Gate(LoggedOn(logBefore, today), 0, 0, 0), Addresses(sel), delivered);
      && logAfter == logBefore[today := g.sentToday]
      && after == before.(
           birthdaysFound := |sel|,
           emailsSent := before.emailsSent + g.sent,
           sendFailures := before.sendFailures + g.failures,
           skippedSends := before.skippedSends + g.skipped)
      && status == Processed(before.emailsSent + g.sent)
  }

  /**
   * `check_birthdays_and_send_email`. The cleaned rows and their analytics come from
   * the cache when the fingerprint matches, and otherwise from a cleaning pass that
   * is stored; either way the cache then holds them. The rest of the run is
   * `RunEffect` from there.
   */
  method CheckBirthdaysAndSendEmail(
    rows: seq<Row>, fingerprint: nat, cache: ContentCache, log: SentLog, today: Date,
    delivered: (nat, string) -> bool)
    returns (status: Status, analytics: Analytics, ghost e: CacheEntry)
    modifies cache, log
    ensures e == Loaded(old(cache.stored), fingerprint, rows)
    ensures fresh(analytics)
    ensures cache.stored == Some(e)
    ensures RunEffect(e.people, e.record, today, delivered, old(log.entries), log.entries, analytics.ToRecord(), status)
  {
    var people;
    people, analytics, e := LoadCleaned(rows, fingerprint, cache);
    status := SelectAndSend(people, today, log, delivered, analytics);
  }

  /**
   * The run after loading: `birthdays_found` is set, and with no birthday the run
   * returns before the sent log is looked at; otherwise the addresses are sent
   * through the gate of today's log entry.
   */
  method SelectAndSend(people: seq<Person>, today: Date, log: SentLog, delivered: (nat, string) -> bool, analytics: Analytics)
    returns (status: Status)
    modifies log, analytics`birthdaysFound, analytics`emailsSent, analytics`sendFailures, analytics`skippedSends
    ensures RunEffect(people, old(analytics.ToRecord()), today, delivered, old(log.entries), log.entries, analytics.ToRecord(), status)
  {
    var birthdays := BirthdaysToday(people, today);
    analytics.birthdaysFound := |birthdays|;
    if birthdays == [] {
      return NoBirthdays;
    }

    ghost var found := analytics.ToRecord();
    SendAndLog(birthdays, today, log, delivered, analytics);
    ghost var g := SendEach(Gate(LoggedOn(old(log.entries), today), 0, 0, 0), Addresses(birthdays), delivered);
    assert analytics.ToRecord() == found.(
      emailsSent := found.emailsSent + g.sent,
      sendFailures := found.sendFailures + g.failures,
      skippedSends := found.skippedSends + g.skipped);
    status := Processed(analytics.emailsSent);
  }
}
