/**
 The mail queue. Callers post to a pending list; the sender thread wakes up, splices the pending
 list behind its own, and walks its list, erasing what was delivered, refused or is too old.
 */
module Mailer {
  import opened Common

  datatype Config = Config(retry: u64, abandon: u64)

  /** `ticket` numbers the posts; the source's list nodes have an identity instead. */
  datatype Mail = Mail(ticket: nat, posted: u64, lastTry: u64, body: string)

  datatype Verdict = Sent | NotSentButResend | NotSentButDoNotResend

  datatype Fate = Delivered | Refused | Abandoned

  /** `cursor` is the position of the sender's iterator in the active list. */
  datatype State = State(pending: seq<Mail>, active: seq<Mail>, cursor: nat, posts: nat)

  datatype Event =
    | Post(now: u64, body: string)
    | Wake
    | Visit(now: u64, verdict: Verdict)

  // ---------- What each step does ----------

  predicate Due(cfg: Config, m: Mail, now: u64) {
    m.lastTry == 0 || Since(now, m.lastTry) > cfg.retry
  }

  /** How the message leaves the list, if it does. */
  function Settle(cfg: Config, m: Mail, now: u64, verdict: Verdict): Option<Fate> {
    if Due(cfg, m, now) then
      match verdict
      case Sent => Some(Delivered)
      case NotSentButResend => None
      case NotSentButDoNotResend => Some(Refused)
    else if Since(now, m.posted) > cfg.abandon then Some(Abandoned)
    else None
  }

  function Kept(cfg: Config, m: Mail, now: u64): Mail {
    if Due(cfg, m, now) then m.(lastTry := now) else m
  }

  function Next(cfg: Config, s: State, ev: Event): State {
    match ev
    case Post(now, body) => s.(pending := s.pending + [Mail(s.posts, now, 0, body)], posts := s.posts + 1)
    case Wake => s.(pending := [], active := s.active + s.pending, cursor := 0)
    case Visit(now, verdict) =>
      if s.cursor >= |s.active| then s
      else if Settle(cfg, s.active[s.cursor], now, verdict).Some? then
        s.(active := s.active[..s.cursor] + s.active[s.cursor + 1..])
      else
        s.(active := s.active[s.cursor := Kept(cfg, s.active[s.cursor], now)], cursor := s.cursor + 1)
  }

  /** One walk over a list: every message is handled once, in order, with its own clock reading and verdict. */
  function Walk(cfg: Config, mails: seq<Mail>, clock: seq<u64>, verdicts: seq<Verdict>): seq<Mail>
    requires |mails| <= |clock| && |mails| <= |verdicts|
  {
    if mails == [] then []
    else
      (if Settle(cfg, mails[0], clock[0], verdicts[0]).Some? then [] else [Kept(cfg, mails[0], clock[0])]) +
      Walk(cfg, mails[1..], clock[1..], verdicts[1..])
  }

  lemma {:induction false} WalkExtend(cfg: Config, mails: seq<Mail>, clock: seq<u64>, verdicts: seq<Verdict>, k: nat)
    requires k < |mails| && |mails| <= |clock| && |mails| <= |verdicts|
    ensures Walk(cfg, mails[..k + 1], clock, verdicts) ==
      Walk(cfg, mails[..k], clock, verdicts) +
      if Settle(cfg, mails[k], clock[k], verdicts[k]).Some? then [] else [Kept(cfg, mails[k], clock[k])]
  {
    if k > 0 {
      WalkExtend(cfg, mails[1..], clock[1..], verdicts[1..], k - 1);
      assert mails[..k + 1][1..] == mails[1..][..k] && mails[..k][1..] == mails[1..][..k - 1];
    } else {
      assert mails[..1] == [mails[0]] && mails[..1][1..] == [];
      assert Walk(cfg, [], clock[1..], verdicts[1..]) == [];
    }
  }

  lemma EmptyWalk(cfg: Config, clock: seq<u64>, verdicts: seq<Verdict>)
    ensures Walk(cfg, [], clock, verdicts) == []
  {
  }

  lemma SettleMeans(cfg: Config, m: Mail, now: u64, verdict: Verdict)
    ensures Settle(cfg, m, now, verdict).None? <==>
      if Due(cfg, m, now) then verdict == NotSentButResend else Since(now, m.posted) <= cfg.abandon
  {
  }

  lemma Removed<T>(s: seq<T>, i: nat)
    requires i < |s|
    ensures var r := s[..i] + s[i + 1..]; r[..i] == s[..i] && r[i..] == s[i + 1..]
    ensures s[..i + 1] == s[..i] + [s[i]] && s[i..][1..] == s[i + 1..]
  {
  }

  lemma Replaced<T>(s: seq<T>, i: nat, x: T)
    requires i < |s|
    ensures s[i := x][..i + 1] == s[..i] + [x] && s[i := x][i + 1..] == s[i + 1..]
  {
  }

  class Service {
    const cfg: Config
    var messages: seq<Mail>
    var pendingMessages: seq<Mail>
    var posts: nat

    constructor (cfg: Config)
      ensures this.cfg == cfg && messages == [] && pendingMessages == [] && posts == 0
    {
      this.cfg := cfg;
      messages, pendingMessages, posts := [], [], 0;
    }

    ghost function View(cursor: nat): State
      reads this
    {
      State(pendingMessages, messages, cursor, posts)
    }

    method SendMessage(now: u64, body: string) returns (ok: bool)
      modifies this
      ensures ok && forall cursor: nat :: View(cursor) == Next(cfg, old(View(cursor)), Post(now, body))
    {
      pendingMessages := pendingMessages + [Mail(posts, now, 0, body)];
      posts := posts + 1;
      return true;
    }

    /**
     One turn of the sender's loop. It is told to stop after `stop` messages; `clock` and `verdicts`
     are what it reads and what the mail host answers at each message.
     */
    method RunOnce(clock: seq<u64>, verdicts: seq<Verdict>, stop: nat)
      requires |clock| >= |messages| + |pendingMessages| && |verdicts| >= |messages| + |pendingMessages|
      modifies this
      ensures pendingMessages == [] && posts == old(posts)
      ensures var all := old(messages + pendingMessages);
        var n := if stop < |all| then stop else |all|;
        messages == Walk(cfg, all[..n], clock, verdicts) + all[n..]
    {
      hide Walk, Settle;
      ghost var all := messages + pendingMessages;
      EmptyWalk(cfg, clock, verdicts);
      messages, pendingMessages := messages + pendingMessages, [];
      var i, visited := 0, 0;
      while i < |messages| && visited < stop
        invariant 0 <= i <= |messages| && 0 <= visited <= |all| && visited <= stop
        invariant pendingMessages == [] && posts == old(posts)
        invariant messages[..i] == Walk(cfg, all[..visited], clock, verdicts)
        invariant messages[i..] == all[visited..]
        decreases |messages| - i
      {
        var m, now := messages[i], clock[visited];
        assert m == all[visited];
        WalkExtend(cfg, all, clock, verdicts, visited);
        SettleMeans(cfg, m, now, verdicts[visited]);
        Replaced(messages, i, m.(lastTry := now));
        Removed(messages, i);
        if m.lastTry == 0 || Since(now, m.lastTry) > cfg.retry {
          match verdicts[visited]
          case Sent => messages := messages[..i] + messages[i + 1..];
          case NotSentButResend =>
            messages := messages[i := m.(lastTry := now)];
            i := i + 1;
          case NotSentButDoNotResend => messages := messages[..i] + messages[i + 1..];
        } else if Since(now, m.posted) > cfg.abandon {
          messages := messages[..i] + messages[i + 1..];
        } else {
          i := i + 1;
        }
        visited := visited + 1;
      }
      assert messages == messages[..i] + messages[i..];
    }
  }

  // ---------- Runs ----------

  function After(cfg: Config, run: seq<Event>): State {
    if run == [] then State([], [], 0, 0) else Next(cfg, After(cfg, Front(run)), Last(run))
  }

  /** All queued messages, the active ones first. */
  function Queued(s: State): seq<Mail> {
    s.active + s.pending
  }

  function Visits(clock: seq<u64>, verdicts: seq<Verdict>): seq<Event>
    requires |clock| == |verdicts|
  {
    seq(|clock|, i requires 0 <= i < |clock| => Visit(clock[i], verdicts[i]))
  }

  /** A wake-up followed by visits is a walk over the spliced list. */
  lemma {:induction false} VisitsAreAWalk(cfg: Config, run: seq<Event>, clock: seq<u64>, verdicts: seq<Verdict>)
    requires |clock| == |verdicts| <= |Queued(After(cfg, run))|
    ensures var all := Queued(After(cfg, run));
      var s := After(cfg, run + [Wake] + Visits(clock, verdicts));
      && s.active == Walk(cfg, all[..|clock|], clock, verdicts) + all[|clock|..]
      && s.cursor == |Walk(cfg, all[..|clock|], clock, verdicts)|
      && s.pending == [] && s.posts == After(cfg, run).posts
  {
    hide Walk, Settle, Kept;
    EmptyWalk(cfg, clock, verdicts);
    var all, n := Queued(After(cfg, run)), |clock|;
    var whole := run + [Wake] + Visits(clock, verdicts);
    if n == 0 {
      assert whole == run + [Wake];
      FrontOfAppend(run, Wake);
    } else {
      var shorter := run + [Wake] + Visits(clock[..n - 1], verdicts[..n - 1]);
      VisitsAreAWalk(cfg, run, clock[..n - 1], verdicts[..n - 1]);
      assert Front(whole) == shorter && Last(whole) == Visit(clock[n - 1], verdicts[n - 1]);
      WalkExtend(cfg, all[..n], clock, verdicts, n - 1);
      assert all[..n][..n - 1] == all[..n - 1] && all[..n][..n] == all[..n];
      WalkNeedsOnly(cfg, all[..n - 1], clock, verdicts, clock[..n - 1], verdicts[..n - 1]);
      VisitExtendsWalk(cfg, After(cfg, shorter), Walk(cfg, all[..n - 1], clock, verdicts), all, n - 1,
                       clock[n - 1], verdicts[n - 1]);
    }
  }

  lemma VisitExtendsWalk(cfg: Config, s: State, walked: seq<Mail>, all: seq<Mail>, k: nat, now: u64, verdict: Verdict)
    requires k < |all| && s.active == walked + all[k..] && s.cursor == |walked|
    ensures var gone := Settle(cfg, all[k], now, verdict).Some?;
      var walked' := walked + if gone then [] else [Kept(cfg, all[k], now)];
      Next(cfg, s, Visit(now, verdict)) == s.(active := walked' + all[k + 1..], cursor := |walked'|)
  {
    assert s.active[s.cursor] == all[k];
  }

  lemma {:induction false} WalkNeedsOnly(cfg: Config, mails: seq<Mail>, c: seq<u64>, v: seq<Verdict>, c': seq<u64>, v': seq<Verdict>)
    requires |mails| <= |c'| <= |c| && |mails| <= |v'| <= |v| && c' == c[..|c'|] && v' == v[..|v'|]
    ensures Walk(cfg, mails, c, v) == Walk(cfg, mails, c', v')
  {
    if mails != [] {
      assert c'[1..] == c[1..][..|c'| - 1] && v'[1..] == v[1..][..|v'| - 1];
      WalkNeedsOnly(cfg, mails[1..], c[1..], v[1..], c'[1..], v'[1..]);
    }
  }

  // ---------- Every message is in exactly one place ----------

  predicate HasTicket(mails: seq<Mail>, t: nat) {
    exists i :: 0 <= i < |mails| && mails[i].ticket == t
  }

  predicate InPostingOrder(mails: seq<Mail>) {
    forall i, j :: 0 <= i < j < |mails| ==> mails[i].ticket < mails[j].ticket
  }

  /** Whether the last step of a run settles ticket `t`, and how. */
  function SettledByLast(cfg: Config, run: seq<Event>, t: nat): Option<Fate>
    requires run != []
  {
    var s := After(cfg, Front(run));
    var ev := Last(run);
    if ev.Visit? && s.cursor < |s.active| && s.active[s.cursor].ticket == t
    then Settle(cfg, s.active[s.cursor], ev.now, ev.verdict) else None
  }

  function FateOf(cfg: Config, run: seq<Event>, t: nat): Option<Fate> {
    if run == [] then None
    else if SettledByLast(cfg, run, t).Some? then SettledByLast(cfg, run, t)
    else FateOf(cfg, Front(run), t)
  }

  /** Tickets rise along the queue and stay below the number of posts. */
  predicate Orderly(q: seq<Mail>, posts: nat) {
    InPostingOrder(q) && forall i :: 0 <= i < |q| ==> q[i].ticket < posts
  }

  lemma {:induction false} QueueInvariant(cfg: Config, run: seq<Event>)
    ensures Orderly(Queued(After(cfg, run)), After(cfg, run).posts)
  {
    hide Next, Queued, Orderly;
    if run == [] {
      EmptyQueue(cfg);
    } else {
      QueueInvariant(cfg, Front(run));
      OrderlyStep(cfg, After(cfg, Front(run)), Last(run));
    }
  }

  lemma EmptyQueue(cfg: Config)
    ensures Queued(After(cfg, [])) == [] && Orderly([], After(cfg, []).posts)
  {
  }

  lemma OrderlyStep(cfg: Config, s: State, ev: Event)
    requires Orderly(Queued(s), s.posts)
    ensures Orderly(Queued(Next(cfg, s, ev)), Next(cfg, s, ev).posts)
  {
    hide Settle, Kept;
    if ev.Visit? && s.cursor < |s.active| {
      QueuedAfterVisit(cfg, s, ev);
      KeptTicket(cfg, Queued(s)[s.cursor], ev.now);
    } else if ev.Post? {
      assert Queued(Next(cfg, s, ev)) == Queued(s) + [Mail(s.posts, ev.now, 0, ev.body)];
    }
  }

  lemma KeptTicket(cfg: Config, m: Mail, now: u64)
    ensures Kept(cfg, m, now).ticket == m.ticket
  {
  }

  /** A visit takes one message out of the queue or updates it in place. */
  lemma QueuedAfterVisit(cfg: Config, s: State, ev: Event)
    requires ev.Visit? && s.cursor < |s.active|
    ensures var c, q, q' := s.cursor, Queued(s), Queued(Next(cfg, s, ev));
      q' == if Settle(cfg, q[c], ev.now, ev.verdict).Some? then q[..c] + q[c + 1..]
            else q[c := Kept(cfg, q[c], ev.now)]
  {
  }

  /** The step takes the message with ticket `t` out of the queue. */
  predicate Settles(cfg: Config, s: State, ev: Event, t: nat) {
    && ev.Visit? && s.cursor < |s.active| && s.active[s.cursor].ticket == t
    && Settle(cfg, s.active[s.cursor], ev.now, ev.verdict).Some?
  }

  /** A step adds the ticket it posts, and takes away the ticket it settles. */
  lemma TicketStep(cfg: Config, s: State, ev: Event, t: nat)
    requires Orderly(Queued(s), s.posts)
    ensures HasTicket(Queued(Next(cfg, s, ev)), t) <==>
      (HasTicket(Queued(s), t) && !Settles(cfg, s, ev, t)) || (ev.Post? && t == s.posts)
    ensures Next(cfg, s, ev).posts == s.posts + if ev.Post? then 1 else 0
    ensures HasTicket(Queued(s), t) ==> t < s.posts
    ensures Settles(cfg, s, ev, t) ==> HasTicket(Queued(s), t)
  {
    hide Settle, Kept;
    var q, q' := Queued(s), Queued(Next(cfg, s, ev));
    match ev
    case Post(now, body) =>
      assert q' == q + [Mail(s.posts, now, 0, body)];
      TicketsAfterPost(q, Mail(s.posts, now, 0, body), t);
    case Wake =>
      assert q' == q;
    case Visit(now, verdict) =>
      if s.cursor < |s.active| {
        assert q[s.cursor] == s.active[s.cursor];
        QueuedAfterVisit(cfg, s, ev);
        KeptTicket(cfg, q[s.cursor], now);
        TicketsAfterVisit(q, q', s.cursor, t);
      }
  }

  lemma TicketsAfterPost(q: seq<Mail>, m: Mail, t: nat)
    ensures HasTicket(q + [m], t) <==> HasTicket(q, t) || m.ticket == t
  {
    var q' := q + [m];
    assert q'[|q|] == m;
    if i :| 0 <= i < |q| && q[i].ticket == t {
      assert q'[i].ticket == t;
    }
  }

  /**
   Every posted message is in exactly one place: still queued, in posting order, or settled with one
   fate, which then never changes.
   */
  lemma {:induction false} ExactlyOnePlace(cfg: Config, run: seq<Event>, t: nat)
    ensures HasTicket(Queued(After(cfg, run)), t) <==> t < After(cfg, run).posts && FateOf(cfg, run, t).None?
    ensures run != [] && FateOf(cfg, Front(run), t).Some? ==>
      FateOf(cfg, run, t) == FateOf(cfg, Front(run), t)
    ensures FateOf(cfg, run, t).Some? ==> t < After(cfg, run).posts
  {
    hide Next, Queued, HasTicket, Orderly, Settle;
    if run == [] {
      NoTickets(cfg, t);
    } else {
      ExactlyOnePlace(cfg, Front(run), t);
      QueueInvariant(cfg, Front(run));
      TicketStep(cfg, After(cfg, Front(run)), Last(run), t);
    }
  }

  lemma NoTickets(cfg: Config, t: nat)
    ensures !HasTicket(Queued(After(cfg, [])), t) && After(cfg, []).posts == 0
  {
  }

  lemma TicketsAfterVisit(q: seq<Mail>, q': seq<Mail>, c: nat, t: nat)
    requires InPostingOrder(q) && c < |q|
    requires q' == q[..c] + q[c + 1..] || (|q'| == |q| && q' == q[c := q'[c]] && q'[c].ticket == q[c].ticket)
    ensures HasTicket(q', t) <==> HasTicket(q, t) && (|q'| == |q| || q[c].ticket != t)
  {
    if |q'| == |q| {
      assert forall i :: 0 <= i < |q| ==> q'[i].ticket == q[i].ticket;
    } else {
      if i :| 0 <= i < |q| && q[i].ticket == t && i != c {
        assert q'[if i < c then i else i - 1].ticket == t;
      }
      if i :| 0 <= i < |q'| && q'[i].ticket == t {
        assert q[if i < c then i else i + 1].ticket == t;
      }
    }
  }

  // ---------- Attempts and abandonment ----------

  predicate Clocked(run: seq<Event>) {
    && (forall i :: 0 <= i < |run| && !run[i].Wake? ==> 0 < run[i].now)
    && (forall i, j :: 0 <= i < j < |run| && !run[i].Wake? && !run[j].Wake? ==> run[i].now <= run[j].now)
  }

  /** Step `n` tries to send the message with ticket `t`. */
  predicate AttemptAt(cfg: Config, run: seq<Event>, n: nat, t: nat)
    requires n < |run|
  {
    var s := After(cfg, run[..n]);
    && run[n].Visit? && s.cursor < |s.active| && s.active[s.cursor].ticket == t
    && Due(cfg, s.active[s.cursor], run[n].now)
  }

  /** Step `p` posted the message, and gave it its ticket. */
  predicate PostedAt(cfg: Config, run: seq<Event>, p: int, m: Mail) {
    0 <= p < |run| && run[p] == Post(m.posted, m.body) && After(cfg, run[..p]).posts == m.ticket
  }

  lemma PostedInPrefix(cfg: Config, run: seq<Event>, n: nat, p: nat, m: Mail)
    requires p < n <= |run|
    ensures PostedAt(cfg, run[..n], p, m) == PostedAt(cfg, run, p, m)
  {
    assert run[..n][..p] == run[..p];
  }

  /** What a queued message remembers: its post, and the latest attempt on it. */
  ghost predicate Remembers(cfg: Config, run: seq<Event>, m: Mail) {
    && (exists p :: 0 <= p < |run| && PostedAt(cfg, run, p, m))
    && (m.lastTry != 0 ==> exists k :: 0 <= k < |run| && run[k].Visit? && run[k].now == m.lastTry)
    && (forall k :: 0 <= k < |run| && AttemptAt(cfg, run, k, m.ticket) ==> m.lastTry != 0 && run[k].now <= m.lastTry)
  }

  lemma AttemptInPrefix(cfg: Config, run: seq<Event>, n: nat, k: nat, t: nat)
    requires k < n <= |run|
    ensures AttemptAt(cfg, run[..n], k, t) == AttemptAt(cfg, run, k, t)
  {
    assert run[..n][..k] == run[..k];
  }

  lemma RemembersUnlessAttempted(cfg: Config, run: seq<Event>, m: Mail)
    requires run != [] && Remembers(cfg, Front(run), m) && !AttemptAt(cfg, run, |run| - 1, m.ticket)
    ensures Remembers(cfg, run, m)
  {
    hide PostedAt, After, Due;
    var before := Front(run);
    var p :| 0 <= p < |before| && PostedAt(cfg, before, p, m);
    PostedInPrefix(cfg, run, |run| - 1, p, m);
    if m.lastTry != 0 {
      var k :| 0 <= k < |before| && before[k].Visit? && before[k].now == m.lastTry;
      assert run[k] == before[k];
    }
    forall k | 0 <= k < |run| && AttemptAt(cfg, run, k, m.ticket) ensures m.lastTry != 0 && run[k].now <= m.lastTry {
      AttemptInPrefix(cfg, run, |run| - 1, k, m.ticket);
      assert before[k] == run[k];
    }
  }

  lemma RemembersAttempt(cfg: Config, run: seq<Event>, m: Mail)
    requires run != [] && Clocked(run) && Last(run).Visit?
    requires Remembers(cfg, Front(run), m)
    ensures Remembers(cfg, run, m.(lastTry := Last(run).now))
  {
    hide After, Due;
    var before := Front(run);
    var p :| 0 <= p < |before| && PostedAt(cfg, before, p, m);
    PostedInPrefix(cfg, run, |run| - 1, p, m);
    assert PostedAt(cfg, run, p, m.(lastTry := Last(run).now)) && run[|run| - 1].Visit?;
  }

  lemma {:induction false} NoAttemptsBeforePost(cfg: Config, run: seq<Event>, k: nat, t: nat)
    requires k < |run| && AttemptAt(cfg, run, k, t)
    ensures t < After(cfg, run).posts
  {
    if k == |run| - 1 {
      assert run[..k] == Front(run);
      QueueInvariant(cfg, Front(run));
      var s := After(cfg, Front(run));
      assert Queued(s)[s.cursor] in Queued(s);
    } else {
      AttemptInPrefix(cfg, run, |run| - 1, k, t);
      NoAttemptsBeforePost(cfg, Front(run), k, t);
    }
  }

  lemma PostRemembers(cfg: Config, run: seq<Event>, m: Mail)
    requires run != [] && Last(run).Post?
    requires m == Mail(After(cfg, Front(run)).posts, Last(run).now, 0, Last(run).body)
    ensures Remembers(cfg, run, m)
  {
    var n := |run| - 1;
    assert run[..n] == Front(run) && PostedAt(cfg, run, n, m);
    forall k | 0 <= k < |run| ensures !AttemptAt(cfg, run, k, m.ticket) {
      if k < n {
        AttemptInPrefix(cfg, run, n, k, m.ticket);
        if AttemptAt(cfg, Front(run), k, m.ticket) {
          NoAttemptsBeforePost(cfg, Front(run), k, m.ticket);
        }
      }
    }
  }

  lemma VisitRemembers(cfg: Config, run: seq<Event>, m: Mail)
    requires run != [] && Clocked(run) && Last(run).Visit?
    requires m in Queued(After(cfg, run)) && InPostingOrder(Queued(After(cfg, Front(run))))
    requires forall x :: x in Queued(After(cfg, Front(run))) ==> Remembers(cfg, Front(run), x)
    ensures Remembers(cfg, run, m)
  {
    hide Remembers, Settle, Next;
    var s, ev := After(cfg, Front(run)), Last(run);
    assert After(cfg, run) == Next(cfg, s, ev) && run[..|run| - 1] == Front(run);
    hide After;
    if s.cursor >= |s.active| {
      NoVisit(cfg, s, ev);
      RemembersUnlessAttempted(cfg, run, m);
    } else {
      QueuedAfterVisit(cfg, s, ev);
      var c, q, q' := s.cursor, Queued(s), Queued(After(cfg, run));
      var i :| 0 <= i < |q'| && q'[i] == m;
      if i == c && |q'| == |q| && Due(cfg, q[c], ev.now) {
        assert q[c] in q;
        RemembersAttempt(cfg, run, q[c]);
      } else {
        var j := if i < c || |q'| == |q| then i else i + 1;
        assert q[j] == m;
        RemembersUnlessAttempted(cfg, run, m);
      }
    }
  }

  lemma NoVisit(cfg: Config, s: State, ev: Event)
    requires ev.Visit? && s.cursor >= |s.active|
    ensures Next(cfg, s, ev) == s
  {
  }

  lemma {:induction false} QueuedRemember(cfg: Config, run: seq<Event>, m: Mail)
    requires Clocked(run) && m in Queued(After(cfg, run))
    ensures Remembers(cfg, run, m)
  {
    var before, ev := Front(run), Last(run);
    assert run[..|run| - 1] == before;
    QueueInvariant(cfg, before);
    var q := Queued(After(cfg, before));
    forall x | x in q ensures Remembers(cfg, before, x) {
      QueuedRemember(cfg, before, x);
    }
    match ev
    case Post(now, body) =>
      if m in q {
        RemembersUnlessAttempted(cfg, run, m);
      } else {
        PostRemembers(cfg, run, m);
      }
    case Wake =>
      assert Queued(After(cfg, run)) == q;
      RemembersUnlessAttempted(cfg, run, m);
    case Visit(now, verdict) =>
      VisitRemembers(cfg, run, m);
  }

  /** Two attempts on one message are more than the retry time apart. */
  lemma AttemptsAreSpaced(cfg: Config, run: seq<Event>, k: nat, n: nat, t: nat)
    requires Clocked(run) && k < n < |run| && AttemptAt(cfg, run, k, t) && AttemptAt(cfg, run, n, t)
    ensures run[n].now - run[k].now > cfg.retry
  {
    var before := run[..n];
    var s := After(cfg, before);
    var m := s.active[s.cursor];
    assert m == Queued(s)[s.cursor];
    QueuedRemember(cfg, before, m);
    AttemptInPrefix(cfg, run, n, k, t);
    var l :| 0 <= l < |before| && before[l].Visit? && before[l].now == m.lastTry;
    assert run[l] == before[l] && run[k] == before[k];
  }

  /** Only messages posted longer ago than the abandon time are abandoned. */
  lemma AbandonedAreOld(cfg: Config, run: seq<Event>, t: nat) returns (p: nat)
    requires run != [] && Clocked(run) && SettledByLast(cfg, run, t) == Some(Abandoned)
    ensures p < |run| && run[p].Post? && After(cfg, run[..p]).posts == t
    ensures Last(run).now - run[p].now > cfg.abandon
  {
    hide After, Next, Settle, Remembers, Clocked, Queued, SettledByLast;
    var before, ev := Front(run), Last(run);
    var c := SettledVisit(cfg, run, t);
    var m := After(cfg, before).active[c];
    SettledAsAbandoned(cfg, m, ev.now, ev.verdict);
    FrontIsClocked(run);
    QueuedRemember(cfg, before, m);
    p := RememberedPost(cfg, run, m);
    assert p < |run| - 1;
    ClockedPair(run, p, |run| - 1);
  }

  lemma SettledVisit(cfg: Config, run: seq<Event>, t: nat) returns (c: nat)
    requires run != [] && SettledByLast(cfg, run, t).Some?
    ensures var s, ev := After(cfg, Front(run)), Last(run);
      && ev.Visit? && c < |s.active| && s.active[c].ticket == t && s.active[c] in Queued(s)
      && SettledByLast(cfg, run, t) == Settle(cfg, s.active[c], ev.now, ev.verdict)
  {
    hide After, Settle;
    c := After(cfg, Front(run)).cursor;
    assert Queued(After(cfg, Front(run)))[c] == After(cfg, Front(run)).active[c];
  }

  lemma FrontIsClocked(run: seq<Event>)
    requires run != [] && Clocked(run)
    ensures Clocked(Front(run))
  {
  }

  lemma ClockedPair(run: seq<Event>, i: nat, j: nat)
    requires i < j < |run| && Clocked(run) && !run[i].Wake? && !run[j].Wake?
    ensures run[i].now <= run[j].now && run[j] == Last(run[..j + 1])
    ensures j == |run| - 1 ==> run[j] == Last(run)
  {
  }

  lemma RememberedPost(cfg: Config, run: seq<Event>, m: Mail) returns (p: nat)
    requires run != [] && Remembers(cfg, Front(run), m)
    ensures p < |run| - 1 && run[p] == Post(m.posted, m.body) && After(cfg, run[..p]).posts == m.ticket
  {
    hide After, AttemptAt;
    p :| 0 <= p < |Front(run)| && PostedAt(cfg, Front(run), p, m);
    PostedInPrefix(cfg, run, |run| - 1, p, m);
    assert run[..|run| - 1] == Front(run);
  }

  lemma SettledAsAbandoned(cfg: Config, m: Mail, now: u64, verdict: Verdict)
    requires Settle(cfg, m, now, verdict) == Some(Abandoned)
    ensures Since(now, m.posted) > cfg.abandon
  {
  }

  /**
   What a visit does to the message under the cursor. It is tried exactly if it was never tried or the
   last try is more than the retry time ago; the host's answer then decides whether it is delivered,
   refused or kept with the time of this try. A message that is not tried is abandoned exactly if it was
   posted longer ago than the abandon time, and otherwise left as it is.
   */
  lemma VisitDecides(cfg: Config, s: State, now: u64, verdict: Verdict)
    requires s.cursor < |s.active|
    requires var m := s.active[s.cursor]; m.lastTry <= now && m.posted <= now
    ensures var m := s.active[s.cursor];
      var tried := m.lastTry == 0 || now - m.lastTry > cfg.retry;
      var before, after := s.active[..s.cursor], s.active[s.cursor + 1..];
      && Settle(cfg, m, now, verdict) ==
           (if tried then
              if verdict == Sent then Some(Delivered) else if verdict == NotSentButDoNotResend then Some(Refused) else None
            else if now - m.posted > cfg.abandon then Some(Abandoned) else None)
      && Next(cfg, s, Visit(now, verdict)) ==
           (if Settle(cfg, m, now, verdict).Some? then s.(active := before + after)
            else s.(active := before + [if tried then m.(lastTry := now) else m] + after, cursor := s.cursor + 1))
  {
    var m := s.active[s.cursor];
    assert s.active[s.cursor := Kept(cfg, m, now)] == s.active[..s.cursor] + [Kept(cfg, m, now)] + s.active[s.cursor + 1..];
  }
}
