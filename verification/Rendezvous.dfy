/** Clients wait for the decision on their transactions; the transaction processor
    finds them by token. Each method is one critical section, so that any
    interleaving is a sequence of calls. Tokens are drawn at random, so that several
    clients may wait under the same one. */
module Rendezvous {
  import opened Basics

  class Waiter {
    const token: nat
    var complete: bool
    var committed: bool
    var pos: Option<nat>

    // The iterator to the entry of the token, by the number of that entry.
    var entry: nat

    // The condition variable has been signalled.
    var signalled: bool

    // Where in the log the intention of the waiter is, or will be.
    ghost const place: nat

    constructor (token: nat, ghost place: nat)
      ensures this.token == token && this.place == place && !complete && pos == None && !signalled
    {
      this.token, this.place, complete, committed, pos, entry, signalled := token, place, false, false, None, 0, false;
    }

    method Complete(committed: bool)
      modifies this`complete, this`committed, this`signalled
      ensures complete && this.committed == committed && signalled
    {
      complete, this.committed, signalled := true, committed, true;
    }
  }

  /** The entry of a token: its number, the waiters registered there, and the results that
      they have to look up for themselves. */
  datatype Meeting = Meeting(id: nat, waiters: seq<Waiter>, results: map<nat, bool>)

  type Decisions = map<(nat, nat), bool>

  function Decision(decided: Decisions, t: nat, pos: nat): Option<bool> {
    if (t, pos) in decided then Some(decided[(t, pos)]) else None
  }

  /** How far a waiter has got, given the decision on its own position: it has been told,
      or it is on the list of its entry and finds its result there. */
  ghost predicate Stands(w: Waiter, meetings: map<nat, Meeting>, decision: Option<bool>)
    reads w`complete, w`committed, w`pos, w`entry
  {
    && (w.pos.Some? ==> w.pos.value == w.place)
    && if w.complete then
         && decision == Some(w.committed) && w.pos.Some?
         && (w.token in meetings ==> w !in meetings[w.token].waiters && w.place !in meetings[w.token].results)
       else
         && w.token in meetings && meetings[w.token].id == w.entry && w in meetings[w.token].waiters
         && decision == if w.place in meetings[w.token].results then Some(meetings[w.token].results[w.place]) else None
  }

  /** Once there is a decision it has been woken up. */
  ghost predicate Meets(w: Waiter, meetings: map<nat, Meeting>, decision: Option<bool>)
    reads w
  {
    Stands(w, meetings, decision) && (decision.Some? ==> w.signalled)
  }

  predicate Within(m: Meeting, live: set<Waiter>) {
    forall w | w in m.waiters :: w in live
  }

  /** Nothing but waiters that have not been told, and decisions. */
  ghost predicate EntryOk(t: nat, m: Meeting, decided: Decisions)
    reads (set w | w in m.waiters)`complete
  {
    && Distinct(m.waiters) && (forall w | w in m.waiters :: w.token == t && !w.complete)
    && forall p | p in m.results :: (t, p) in decided && decided[(t, p)] == m.results[p]
  }

  /** The iterator of a waiter is good. */
  predicate Points(meetings: map<nat, Meeting>, w: Waiter)
    reads w`entry
  {
    w.token in meetings && meetings[w.token].id == w.entry
  }

  /** Waiters under one token have different places, and iterators are good as long as
      nobody else has been in the same entry. */
  ghost predicate Apart(meetings: map<nat, Meeting>, made: nat, live: set<Waiter>, shared: set<nat>)
    reads live`entry
  {
    && (forall t | t in meetings :: meetings[t].id < made)
    && (forall w | w in live :: w.entry < made && (w.entry !in shared ==> Points(meetings, w)))
    && forall w, v | w in live && v in live && w != v && w.token == v.token ::
         w.place != v.place && (w.entry == v.entry ==> w.entry in shared)
  }

  /** The entry of a token after `w` has joined. */
  function Joined(meetings: map<nat, Meeting>, w: Waiter, id: nat): Meeting {
    if w.token in meetings then meetings[w.token].(waiters := meetings[w.token].waiters + [w]) else Meeting(id, [w], map[])
  }

  lemma OthersMeet(v: Waiter, w: Waiter, meetings: map<nat, Meeting>, id: nat, decision: Option<bool>)
    requires Meets(v, meetings, decision) && v != w
    ensures Meets(v, meetings[w.token := Joined(meetings, w, id)], decision)
  {
    if v.token == w.token && w.token in meetings {
      var s := meetings[w.token].waiters;
      assert v in s + [w] <==> v in s;
    }
  }

  /** The new waiter meets nothing yet. */
  lemma FirstMeets(w: Waiter, meetings: map<nat, Meeting>, id: nat, decided: Decisions)
    requires !w.complete && w.pos == None && (w.token, w.place) !in decided
    requires w.token in meetings ==> EntryOk(w.token, meetings[w.token], decided)
    requires w.entry == Joined(meetings, w, id).id
    ensures Meets(w, meetings[w.token := Joined(meetings, w, id)], None)
  {
    assert w in Joined(meetings, w, id).waiters;
  }

  lemma JoinedOk(w: Waiter, meetings: map<nat, Meeting>, id: nat, live: set<Waiter>, decided: Decisions)
    requires !w.complete && w !in live
    requires (w.token in meetings ==> Within(meetings[w.token], live) && EntryOk(w.token, meetings[w.token], decided))
    ensures Within(Joined(meetings, w, id), live + {w}) && EntryOk(w.token, Joined(meetings, w, id), decided)
  {
    var m := Joined(meetings, w, id);
    assert forall v | v in m.waiters :: v == w || (w.token in meetings && v in meetings[w.token].waiters);
  }

  lemma JoinedParts(w: Waiter, meetings: map<nat, Meeting>, id: nat)
    ensures var m := Joined(meetings, w, id);
      if w.token in meetings then
        && m.id == meetings[w.token].id && m.results == meetings[w.token].results && m.waiters == meetings[w.token].waiters + [w]
      else m == Meeting(id, [w], map[])
  {
  }

  /** The entries that several waiters have been in after `w` has joined. */
  ghost function NowShared(w: Waiter, live: set<Waiter>, shared: set<nat>): set<nat>
    reads w, live
  {
    if exists v | v in live :: v.token == w.token && v.entry == w.entry then shared + {w.entry} else shared
  }

  lemma ApartMore(w: Waiter, meetings: map<nat, Meeting>, made: nat, live: set<Waiter>, shared: set<nat>)
    requires Apart(meetings, made, live, shared) && w !in live && w.entry == Joined(meetings, w, made).id
    requires forall v | v in live && v.token == w.token :: v.place != w.place
    ensures Apart(meetings[w.token := Joined(meetings, w, made)], if w.token in meetings then made else made + 1,
                  live + {w}, NowShared(w, live, shared))
  {
  }

  /** An entry without the waiter `w`, who has got its result. */
  ghost function Parted(w: Waiter, m: Meeting): Meeting {
    m.(waiters := Without(m.waiters, w), results := m.results - {w.place})
  }

  lemma PartedIs(w: Waiter, m: Meeting)
    ensures Parted(w, m) == m.(waiters := Without(m.waiters, w), results := m.results - {w.place})
  {
  }

  /** An entry that nothing is left in is dropped. */
  function WithEntry(meetings: map<nat, Meeting>, t: nat, m: Meeting): map<nat, Meeting> {
    if m.waiters == [] && m.results == map[] then meetings - {t} else meetings[t := m]
  }

  lemma OthersStay(v: Waiter, w: Waiter, meetings: map<nat, Meeting>, decision: Option<bool>)
    requires Meets(v, meetings, decision) && v != w && w.token in meetings && Distinct(meetings[w.token].waiters)
    requires v.token == w.token ==> v.place != w.place
    ensures Meets(v, WithEntry(meetings, w.token, Parted(w, meetings[w.token])), decision)
  {
    WithoutMembers(meetings[w.token].waiters, w);
  }

  lemma PartedOk(w: Waiter, m: Meeting, live: set<Waiter>, decided: Decisions)
    requires Within(m, live) && EntryOk(w.token, m, decided)
    ensures Within(Parted(w, m), live - {w}) && EntryOk(w.token, Parted(w, m), decided)
  {
    WithoutMembers(m.waiters, w);
  }

  /** A waiter is in no list but that of its token, and not there once it has been told. */
  lemma NotThere(t: nat, m: Meeting, w: Waiter, decided: Decisions)
    requires EntryOk(t, m, decided) && (w.token != t || w.complete)
    ensures w !in m.waiters
  {
  }

  lemma ApartLess(w: Waiter, meetings: map<nat, Meeting>, made: nat, live: set<Waiter>, shared: set<nat>)
    requires Apart(meetings, made, live, shared) && w in live && Points(meetings, w)
    ensures Apart(WithEntry(meetings, w.token, Parted(w, meetings[w.token])), made, live - {w}, shared)
  {
  }

  lemma ApartGone(w: Waiter, meetings: map<nat, Meeting>, made: nat, live: set<Waiter>, shared: set<nat>)
    requires Apart(meetings, made, live, shared)
    ensures Apart(meetings, made, live - {w}, shared)
    ensures w in live && w.entry !in shared ==> Points(meetings, w)
  {
  }

  /** What a waiter that knows its position finds. */
  lemma Finds(w: Waiter, meetings: map<nat, Meeting>, decision: Option<bool>)
    requires Meets(w, meetings, decision)
    ensures w.complete ==> decision == Some(w.committed)
    ensures w.complete && w.token in meetings ==> Parted(w, meetings[w.token]) == meetings[w.token]
    ensures !w.complete ==>
      && Points(meetings, w) && w.token in meetings
      && decision == if w.place in meetings[w.token].results then Some(meetings[w.token].results[w.place]) else None
  {
    if w.complete && w.token in meetings {
      NotListed(meetings[w.token].waiters, w);
    }
  }

  lemma ApartSame(meetings: map<nat, Meeting>, later: map<nat, Meeting>, made: nat, live: set<Waiter>, shared: set<nat>)
    requires Apart(meetings, made, live, shared) && later.Keys == meetings.Keys
    requires forall t | t in meetings :: later[t].id == meetings[t].id
    ensures Apart(later, made, live, shared)
  {
  }

  /** An entry after a decision, by the fast or the slow path. */
  function Notified(m: Meeting, pos: nat, c: bool, fast: bool): Meeting {
    if fast && m.waiters != [] then m.(waiters := m.waiters[1..]) else m.(results := m.results[pos := c])
  }

  /** The first waiter under the token knows this position as its own. */
  predicate Fast(meetings: map<nat, Meeting>, t: nat, pos: nat)
    reads (set w | t in meetings && w in meetings[t].waiters)`pos
  {
    t in meetings && meetings[t].waiters != [] && meetings[t].waiters[0].pos == Some(pos)
  }

  lemma IsFast(meetings: map<nat, Meeting>, t: nat, w: Waiter, pos: nat)
    requires t in meetings && meetings[t].waiters != [] && meetings[t].waiters[0] == w && w.pos == Some(pos)
    ensures Fast(meetings, t, pos) && FirstOf(meetings, t, w)
    ensures forall c :: Notified(meetings[t], pos, c, true) == meetings[t].(waiters := meetings[t].waiters[1..])
    ensures forall v: Waiter | v != w :: !FirstOf(meetings, t, v)
  {
  }

  predicate FirstOf(meetings: map<nat, Meeting>, t: nat, w: Waiter) {
    t in meetings && meetings[t].waiters != [] && meetings[t].waiters[0] == w
  }

  lemma OneMore(t: nat, m: Meeting, decided: Decisions, pos: nat, c: bool)
    requires EntryOk(t, m, decided) && (t, pos) !in decided
    ensures EntryOk(t, m.(results := m.results[pos := c]), decided[(t, pos) := c])
  {
  }

  /** What is decided under one token does not concern the others. */
  lemma OtherToken(v: Waiter, t: nat, m: Meeting, meetings: map<nat, Meeting>, decided: Decisions, pos: nat, c: bool)
    requires Meets(v, meetings, Decision(decided, v.token, v.place)) && v.token != t
    ensures Meets(v, meetings[t := m], Decision(decided[(t, pos) := c], v.token, v.place))
  {
  }

  lemma OtherEntry(u: nat, m: Meeting, decided: Decisions, t: nat, pos: nat, c: bool)
    requires EntryOk(u, m, decided) && u != t
    ensures EntryOk(u, m, decided[(t, pos) := c])
  {
  }

  /** The other waiters under the token, when the first one is told. */
  lemma NotTold(v: Waiter, first: Waiter, t: nat, meetings: map<nat, Meeting>, decided: Decisions, pos: nat, c: bool)
    requires Meets(v, meetings, Decision(decided, v.token, v.place)) && v.token == t && v != first && v.place != pos
    requires FirstOf(meetings, t, first)
    ensures Meets(v, meetings[t := meetings[t].(waiters := meetings[t].waiters[1..])], Decision(decided[(t, pos) := c], t, v.place))
  {
    var s := meetings[t].waiters;
    assert s == [s[0]] + s[1..];
  }

  lemma Told(w: Waiter, t: nat, m: Meeting, meetings: map<nat, Meeting>, decided: Decisions, pos: nat, c: bool)
    requires m.waiters != [] && m.waiters[0] == w && w.token == t && w.complete && w.committed == c && w.signalled
    requires w.pos == Some(pos) && w.place == pos && (t, pos) !in decided && Distinct(m.waiters)
    requires forall p | p in m.results :: (t, p) in decided
    ensures Meets(w, meetings[t := m.(waiters := m.waiters[1..])], Decision(decided[(t, pos) := c], t, pos))
  {
    DistinctParts(m.waiters);
  }

  /** A waiter under the token, when the result is left there. */
  lemma LeftThere(v: Waiter, t: nat, meetings: map<nat, Meeting>, decided: Decisions, pos: nat, c: bool)
    requires Stands(v, meetings, Decision(decided, v.token, v.place)) && v.token == t && t in meetings && (t, pos) !in decided
    requires v.signalled
    ensures Meets(v, meetings[t := meetings[t].(results := meetings[t].results[pos := c])], Decision(decided[(t, pos) := c], t, v.place))
  {
  }

  class TransactionFinder {
    var tokenWaiters: map<nat, Meeting>

    // How many entries have been made.
    var made: nat

    // The waiters between registration and return, the decisions notified for a token
    // and a position while the token was registered, and the entries that several
    // waiters have been in.
    ghost var live: set<Waiter>
    ghost var decided: Decisions
    ghost var shared: set<nat>

    ghost predicate Valid()
      reads this, live
    {
      && (forall w | w in live :: Meets(w, tokenWaiters, Decision(decided, w.token, w.place)))
      && (forall t | t in tokenWaiters :: Within(tokenWaiters[t], live) && EntryOk(t, tokenWaiters[t], decided))
      && Apart(tokenWaiters, made, live, shared)
    }

    constructor ()
      ensures Valid() && live == {} && decided == map[] && tokenWaiters == map[] && shared == {}
    {
      tokenWaiters, made, live, decided, shared := map[], 0, {}, map[], {};
    }

    /** Registers a waiter before its intention is appended to the log. There may be
        others under its token, and results that nobody has fetched. */
    method AddTokenWaiter(w: Waiter)
      requires Valid() && w !in live && (w.token, w.place) !in decided && !w.complete && w.pos == None
      requires forall v | v in live && v.token == w.token :: v.place != w.place
      modifies this`tokenWaiters, this`made, this`live, this`shared, w`entry
      ensures Valid() && live == old(live) + {w} && decided == old(decided) && w.token in tokenWaiters
      ensures tokenWaiters == old(tokenWaiters)[w.token := tokenWaiters[w.token]]
      ensures tokenWaiters[w.token].waiters == (if w.token in old(tokenWaiters) then old(tokenWaiters)[w.token].waiters else []) + [w]
      ensures w.token in old(tokenWaiters) ==> tokenWaiters[w.token].id == old(tokenWaiters)[w.token].id
      ensures tokenWaiters[w.token].results == if w.token in old(tokenWaiters) then old(tokenWaiters)[w.token].results else map[]
      ensures shared == NowShared(w, old(live), old(shared))
      ensures shared ==
        if exists v | v in old(live) :: v.token == w.token && v.entry == w.entry then old(shared) + {w.entry} else old(shared)
    {
      hide Meets, EntryOk, Joined, Apart;
      ghost var before := tokenWaiters;
      ghost var id := made;
      Enter(w);
      JoinedParts(w, before, id);
      JoinedOk(w, before, id, live, decided);
      FirstMeets(w, before, id, decided);
      forall v | v in live ensures Meets(v, tokenWaiters, Decision(decided, v.token, v.place)) {
        OthersMeet(v, w, before, id, Decision(decided, v.token, v.place));
      }
      ApartMore(w, before, id, live, shared);
      shared, live := NowShared(w, live, shared), live + {w};
    }

    /** Puts the waiter at the end of the list of its token. */
    method Enter(w: Waiter)
      modifies this`tokenWaiters, this`made, w`entry
      ensures tokenWaiters == old(tokenWaiters)[w.token := Joined(old(tokenWaiters), w, old(made))]
      ensures w.entry == tokenWaiters[w.token].id && made == if w.token in old(tokenWaiters) then old(made) else old(made) + 1
    {
      if w.token in tokenWaiters {
        var m := tokenWaiters[w.token];
        tokenWaiters := tokenWaiters[w.token := m.(waiters := m.waiters + [w])];
      } else {
        tokenWaiters := tokenWaiters[w.token := Meeting(made, [w], map[])];
        made := made + 1;
      }
      w.entry := tokenWaiters[w.token].id;
    }

    /** The waiter learns the position of its intention; the decision may have been
        notified before. */
    method SetPosition(w: Waiter, pos: nat)
      requires Valid() && w in live && w.pos == None && pos == w.place
      modifies w`pos
      ensures Valid() && w.pos == Some(pos)
    {
      w.pos := Some(pos);
    }

    /** One look at the state: the decision, if there is one, or else the waiter goes
        (back) to sleep. It returns exactly if a decision has been notified for its own
        position, and then that decision, whatever else has been notified. A waiter that
        has been told still looks at its entry, to see if that can go: `ok` says whether
        the iterator is good. It is unless somebody else in the same entry has been the
        last to leave. */
    method Check(w: Waiter) returns (r: Option<bool>, ok: bool)
      requires Valid() && w in live && w.pos == Some(w.place)
      modifies this`tokenWaiters, this`live
      ensures Valid() && r == Decision(decided, w.token, w.place)
      ensures live == if r.Some? then old(live) - {w} else old(live)
      ensures (ok <==> !w.complete || old(Points(tokenWaiters, w))) && (w.entry !in shared ==> ok)
      ensures r.None? || !ok ==> tokenWaiters == old(tokenWaiters)
      ensures r.Some? && ok ==>
        && w.token in old(tokenWaiters)
        && tokenWaiters == WithEntry(old(tokenWaiters), w.token, Parted(w, old(tokenWaiters)[w.token]))
    {
      hide *;
      Look(w);
      Finds(w, tokenWaiters, Decision(decided, w.token, w.place));
      ApartGone(w, tokenWaiters, made, live, shared);
      var t, pos := w.token, w.pos.value;
      ok := true;
      if w.complete {
        r := Some(w.committed);
        if !Points(tokenWaiters, w) {
          Vanish(w);
          return r, false;
        }
        PointsIn(tokenWaiters, w);
        Depart(w, tokenWaiters[t]);
      } else {
        var m := tokenWaiters[t];
        if pos !in m.results {
          return None, true;
        }
        r := Some(m.results[pos]);
        PartedIs(w, m);
        Depart(w, m.(waiters := Without(m.waiters, w), results := m.results - {pos}));
      }
    }

    lemma PointsIn(meetings: map<nat, Meeting>, w: Waiter)
      requires Points(meetings, w)
      ensures w.token in meetings
    {
    }

    /** What is known of one waiter. */
    lemma Look(w: Waiter)
      requires Valid() && w in live
      ensures Meets(w, tokenWaiters, Decision(decided, w.token, w.place)) && Apart(tokenWaiters, made, live, shared)
    {
      hide Meets, Apart, EntryOk;
    }

    /** The waiter is gone, and its entry with it if nothing else is left there. */
    method Depart(w: Waiter, m: Meeting)
      requires Valid() && w in live && Points(tokenWaiters, w) && w.token in tokenWaiters && m == Parted(w, tokenWaiters[w.token])
      modifies this`tokenWaiters, this`live
      ensures Valid() && live == old(live) - {w} && tokenWaiters == WithEntry(old(tokenWaiters), w.token, m)
    {
      hide Meets, EntryOk, Apart, Points, Parted, Decision;
      ApartLess(w, tokenWaiters, made, live, shared);
      EntryDistinct(w.token);
      PlacesApart(w);
      PartedOk(w, tokenWaiters[w.token], live, decided);
      forall v | v in live && v != w ensures Meets(v, WithEntry(tokenWaiters, w.token, m), Decision(decided, v.token, v.place)) {
        OthersStay(v, w, tokenWaiters, Decision(decided, v.token, v.place));
      }
      forall t | t in tokenWaiters && t != w.token ensures w !in tokenWaiters[t].waiters {
        NotThere(t, tokenWaiters[t], w, decided);
      }
      ghost var before := tokenWaiters;
      tokenWaiters := tokenWaiters[w.token := m];
      if m.waiters == [] && m.results == map[] {
        tokenWaiters := tokenWaiters - {w.token};
      }
      assert tokenWaiters == WithEntry(before, w.token, m);
      live := live - {w};
    }

    lemma EntryDistinct(t: nat)
      requires Valid() && t in tokenWaiters
      ensures Distinct(tokenWaiters[t].waiters)
    {
      hide Meets, Apart;
    }

    lemma PlacesApart(w: Waiter)
      requires Valid() && w in live
      ensures forall v | v in live && v != w && v.token == w.token :: v.place != w.place
    {
      hide Meets, EntryOk;
    }

    /** Here the source goes on with an iterator that is no good. */
    method Vanish(w: Waiter)
      requires Valid() && w in live && w.complete
      modifies this`live
      ensures Valid() && live == old(live) - {w}
    {
      hide Meets, EntryOk, Apart;
      ApartGone(w, tokenWaiters, made, live, shared);
      forall t | t in tokenWaiters ensures w !in tokenWaiters[t].waiters {
        NotThere(t, tokenWaiters[t], w, decided);
      }
      live := live - {w};
    }

    /** The processor announces a decision. If the first waiter under the token has
        this position it is told directly, else the result is left for the waiters
        to find. Unknown tokens belong to other processes. `ok` says whether the
        assertion that somebody is waiting holds: it fails if all waiters under the token
        have been told already, or just results have been left. */
    method Notify(token: nat, pos: nat, committed: bool) returns (ok: bool)
      requires Valid() && (token, pos) !in decided
      modifies this`tokenWaiters, this`decided, set w | w in live && w.token == token
      ensures Valid() && live == old(live)
      ensures ok <==> token !in old(tokenWaiters) || exists w | w in live :: w.token == token && !old(w.complete)
      ensures decided == if ok && token in old(tokenWaiters) then old(decided)[(token, pos) := committed] else old(decided)
      ensures tokenWaiters == if ok && token in old(tokenWaiters) then
        old(tokenWaiters)[token := Notified(old(tokenWaiters)[token], pos, committed, old(Fast(tokenWaiters, token, pos)))]
        else old(tokenWaiters)
      ensures forall w | w in live :: w.pos == old(w.pos) && w.entry == old(w.entry)
      ensures forall w | w in live :: w.complete <==> old(w.complete) || (FirstOf(old(tokenWaiters), token, w) && old(w.pos) == Some(pos))
    {
      hide Valid, Meets, EntryOk, Apart, Decision;
      if token !in tokenWaiters {
        return true;
      }
      var m := tokenWaiters[token];
      Waiting(token);
      if m.waiters == [] {
        return false;
      }
      var first := m.waiters[0];
      assert first in live && first.token == token && !first.complete;
      if first.pos == Some(pos) {
        Tell(token, first, pos, committed);
      } else {
        Leave(token, pos, committed);
      }
      ok := true;
    }

    /** Who is on the list of a token. */
    lemma Waiting(token: nat)
      requires Valid() && token in tokenWaiters
      ensures forall w | w in live && w.token == token && !w.complete :: w in tokenWaiters[token].waiters
      ensures forall w | w in tokenWaiters[token].waiters :: w in live && w.token == token && !w.complete
      ensures Distinct(tokenWaiters[token].waiters)
    {
    }

    /** The fast path: the first waiter is told and taken off the list. */
    method Tell(token: nat, first: Waiter, pos: nat, committed: bool)
      requires Valid() && FirstOf(tokenWaiters, token, first) && first in live && first.token == token && !first.complete
      requires (token, pos) !in decided && first.pos == Some(pos)
      modifies this`tokenWaiters, this`decided, first`complete, first`committed, first`signalled
      ensures Valid() && decided == old(decided)[(token, pos) := committed] && first.complete
      ensures tokenWaiters == old(tokenWaiters)[token := Notified(old(tokenWaiters)[token], pos, committed, true)]
    {
      hide Meets, EntryOk, Apart, Decision;
      ghost var before, was := tokenWaiters, decided;
      var m := tokenWaiters[token];
      FastPath(token, first, pos, committed);
      first.Complete(committed);
      tokenWaiters := tokenWaiters[token := m.(waiters := m.waiters[1..])];
      decided := decided[(token, pos) := committed];
      Told(first, token, m, before, was, pos, committed);
      forall v | v in live && v != first ensures Meets(v, tokenWaiters, Decision(decided, v.token, v.place)) {
        if v.token == token {
          NotTold(v, first, token, before, was, pos, committed);
        } else {
          OtherToken(v, token, m.(waiters := m.waiters[1..]), before, was, pos, committed);
        }
      }
      ApartSame(before, tokenWaiters, made, live, shared);
    }

    /** What the fast path finds. */
    lemma FastPath(token: nat, first: Waiter, pos: nat, committed: bool)
      requires Valid() && FirstOf(tokenWaiters, token, first) && first in live && first.token == token && !first.complete
      requires (token, pos) !in decided && first.pos == Some(pos)
      ensures first.place == pos && forall v | v in live && v != first && v.token == token :: v.place != pos
      ensures var m := tokenWaiters[token];
        && Distinct(m.waiters) && (forall p | p in m.results :: (token, p) in decided) && first !in m.waiters[1..]
        && Within(m.(waiters := m.waiters[1..]), live) && EntryOk(token, m.(waiters := m.waiters[1..]), decided[(token, pos) := committed])
      ensures forall t | t in tokenWaiters && t != token ::
        first !in tokenWaiters[t].waiters && EntryOk(t, tokenWaiters[t], decided[(token, pos) := committed])
    {
      DistinctParts(tokenWaiters[token].waiters);
    }

    /** The slow path: the result is recorded and all waiters are woken up. */
    method Leave(token: nat, pos: nat, committed: bool)
      requires Valid() && token in tokenWaiters && (token, pos) !in decided
      modifies this`tokenWaiters, this`decided, (set w | w in live && w.token == token)`signalled
      ensures Valid() && decided == old(decided)[(token, pos) := committed]
      ensures tokenWaiters == old(tokenWaiters)[token := Notified(old(tokenWaiters)[token], pos, committed, false)]
    {
      hide Meets, EntryOk, Apart, Decision;
      Waiting(token);
      ghost var before, was := tokenWaiters, decided;
      var m := tokenWaiters[token];
      EachStands();
      Wake(m.waiters);
      tokenWaiters := tokenWaiters[token := m.(results := m.results[pos := committed])];
      decided := decided[(token, pos) := committed];
      forall v | v in live ensures Meets(v, tokenWaiters, Decision(decided, v.token, v.place)) {
        if v.token == token {
          LeftThere(v, token, before, was, pos, committed);
        } else {
          OtherToken(v, token, tokenWaiters[token], before, was, pos, committed);
        }
      }
      forall t | t in tokenWaiters ensures EntryOk(t, tokenWaiters[t], decided) {
        if t == token {
          OneMore(t, m, was, pos, committed);
        } else {
          OtherEntry(t, tokenWaiters[t], was, token, pos, committed);
        }
      }
      ApartSame(before, tokenWaiters, made, live, shared);
    }

    lemma GoodIterator(w: Waiter)
      requires Valid() && w in live && !w.complete
      ensures Points(tokenWaiters, w)
    {
    }

    lemma EachStands()
      requires Valid()
      ensures forall v | v in live :: Stands(v, tokenWaiters, Decision(decided, v.token, v.place)) && (v.complete ==> v.signalled)
    {
      hide EntryOk, Apart, Decision;
    }
  }

  method Wake(waiters: seq<Waiter>)
    modifies (set w | w in waiters)`signalled
    ensures forall w | w in waiters :: w.signalled
    ensures forall w: Waiter | w in waiters :: old(w.signalled) ==> w.signalled
  {
    for k := 0 to |waiters|
      invariant forall i :: 0 <= i < k ==> waiters[i].signalled
      invariant forall w: Waiter | w in waiters :: old(w.signalled) ==> w.signalled
    {
      waiters[k].signalled := true;
    }
  }

  /** The assertion in `Notify` fails if, before the only waiter has left, a decision on
      another position follows its own. */
  method ToldTwice(token: nat, place: nat, other: nat, committed: bool) returns (first: bool, second: bool)
    requires other != place
    ensures first && !second
  {
    hide TransactionFinder.Valid, Meets, Stands, EntryOk, Apart, Within;
    var finder := new TransactionFinder();
    var w := Arrive(finder, token, place);
    first := finder.Notify(token, place, committed);
    second := finder.Notify(token, other, committed);
  }

  /** A new waiter that knows its position. */
  method Arrive(finder: TransactionFinder, token: nat, place: nat) returns (w: Waiter)
    requires finder.Valid() && (token, place) !in finder.decided && forall v | v in finder.live && v.token == token :: v.place != place
    modifies finder`tokenWaiters, finder`made, finder`live, finder`shared
    ensures fresh(w) && finder.Valid() && finder.live == old(finder.live) + {w} && w !in old(finder.live)
    ensures w.token == token && w.place == place && w.pos == Some(place) && !w.complete
    ensures token in finder.tokenWaiters && w.entry == finder.tokenWaiters[token].id
    ensures var before := old(finder.tokenWaiters);
      && finder.tokenWaiters[token].results == (if token in before then before[token].results else map[])
      && finder.tokenWaiters[token].waiters == (if token in before then before[token].waiters else []) + [w]
      && (token in before ==> finder.tokenWaiters[token].id == before[token].id)
  {
    hide TransactionFinder.Valid, Meets, Stands, EntryOk, Apart, Within, NowShared;
    w := new Waiter(token, place);
    finder.AddTokenWaiter(w);
    finder.SetPosition(w, place);
    finder.GoodIterator(w);
  }

  /** Two waiters under one token that know their positions. */
  method TwoWait(token: nat, place: nat, other: nat) returns (finder: TransactionFinder, v: Waiter, w: Waiter)
    requires other != place
    ensures fresh(finder) && fresh(v) && fresh(w) && finder.Valid() && finder.live == {v, w} && finder.decided == map[]
    ensures v != w && v.token == token && w.token == token && v.place == place && w.place == other
    ensures !v.complete && !w.complete && v.pos == Some(place) && w.pos == Some(other)
    ensures token in finder.tokenWaiters && finder.tokenWaiters[token] == Meeting(v.entry, [v, w], map[]) && w.entry == v.entry
  {
    hide TransactionFinder.Valid, Meets, Stands, EntryOk, Apart, Within;
    finder := new TransactionFinder();
    v := Arrive(finder, token, place);
    w := Arrive(finder, token, other);
  }

  /** Two waiters under one token have been told; when one has left, the other one goes on
      with an iterator to an entry that is gone. */
  method LeftBehind(token: nat, place: nat, other: nat, committed: bool) returns (first: bool, second: bool)
    requires other != place
    ensures first && !second
  {
    hide TransactionFinder.Valid, Meets, Stands, EntryOk, Apart, Within, Fast, FirstOf, Notified;
    var finder, v, w := TwoWait(token, place, other);
    ghost var m := finder.tokenWaiters[token];
    IsFast(finder.tokenWaiters, token, v, place);
    var ok := finder.Notify(token, place, committed);
    assert finder.tokenWaiters[token] == m.(waiters := [w]);
    IsFast(finder.tokenWaiters, token, w, other);
    ok := finder.Notify(token, other, committed);
    assert finder.tokenWaiters[token] == m.(waiters := []);
    PartedEmpty(v, finder.tokenWaiters[token]);
    var r;
    r, first := finder.Check(v);
    r, second := finder.Check(w);
  }

  lemma PartedEmpty(w: Waiter, m: Meeting)
    requires m.waiters == [] && m.results == map[]
    ensures Parted(w, m) == m
  {
  }
}
