/** Matching intentions with their primary after images. Each method is one
    critical section; any interleaving of them is a sequence of calls. */
module Matchers {
  import opened Basics

  /** (Some, None): an after image nobody has asked for. (None, Some): a tree that
      waits for its after image. (None, None): matched, may be forgotten. */
  datatype Pending<T> = Pending(pos: Option<nat>, tree: Option<T>)

  /** An intention with the position of its primary after image and its tree. */
  datatype Match<T> = Match(ipos: nat, pos: nat, tree: T)

  type Index<T> = map<nat, Pending<T>>

  // --------------------------------------------------------------- the invariant

  /** Everything watched up to the watermark is matched. */
  ghost predicate Marked<T>(watermark: nat, last: nat, watched: map<nat, T>, firsts: map<nat, nat>) {
    && watermark <= last && (forall i | i in watched :: 0 < i <= last)
    && (forall i | i in watched && i <= watermark :: i in firsts)
  }

  function Entry<T>(i: nat, watched: map<nat, T>, firsts: map<nat, nat>): Pending<T> {
    Pending(if i in firsts && i !in watched then Some(firsts[i]) else None,
            if i in watched && i !in firsts then Some(watched[i]) else None)
  }

  /** The index holds one entry for each intention above the watermark. */
  ghost predicate Indexed<T>(index: Index<T>, watermark: nat, watched: map<nat, T>, firsts: map<nat, nat>) {
    && (forall i | i in index :: watermark < i && index[i] == Entry(i, watched, firsts))
    && (forall i | i in index :: i in watched || i in firsts)
    && (forall i | i in watched && watermark < i :: i in index)
    && (forall i | i in firsts && watermark < i :: i in index)
  }

  ghost predicate IsMatch<T>(m: Match<T>, watched: map<nat, T>, firsts: map<nat, nat>) {
    m.ipos in watched && m.ipos in firsts && m == Match(m.ipos, firsts[m.ipos], watched[m.ipos])
  }

  /** Each watched intention is matched with its first after image, once. */
  ghost predicate Paired<T>(emitted: seq<Match<T>>, watched: map<nat, T>, firsts: map<nat, nat>) {
    && (forall m | m in emitted :: IsMatch(m, watched, firsts))
    && (forall i | i in watched && i in firsts :: Match(i, firsts[i], watched[i]) in emitted)
    && Once(emitted)
  }

  ghost predicate Once<T>(ms: seq<Match<T>>) {
    forall j, k :: 0 <= j < k < |ms| ==> ms[j].ipos != ms[k].ipos
  }

  lemma OnceMore<T>(ms: seq<Match<T>>, m: Match<T>)
    requires Once(ms) && forall x | x in ms :: x.ipos != m.ipos
    ensures Once(ms + [m])
  {
  }

  /** The lowest entry of the index is matched: it can be forgotten. */
  lemma Raise<T>(index: Index<T>, watermark: nat, i: nat, last: nat, watched: map<nat, T>, firsts: map<nat, nat>)
    requires Marked(watermark, last, watched, firsts) && Indexed(index, watermark, watched, firsts)
    requires i in index && (forall j | j in index :: i <= j) && index[i] == Pending(None, None)
    ensures Marked(i, last, watched, firsts) && Indexed(index - {i}, i, watched, firsts)
  {
    forall j | j in watched && j <= i ensures j in firsts {
      if watermark < j {
        assert j in index;
      }
    }
  }

  lemma WatchIndexed<T>(index: Index<T>, watermark: nat, last: nat, watched: map<nat, T>, firsts: map<nat, nat>, i: nat, t: T)
    requires Marked(watermark, last, watched, firsts) && Indexed(index, watermark, watched, firsts) && last < i
    ensures i in index <==> i in firsts
    ensures i in index ==> index[i] == Pending(Some(firsts[i]), None)
    ensures var w := watched[i := t];
      Marked(watermark, i, w, firsts) && Indexed(index[i := Entry(i, w, firsts)], watermark, w, firsts)
  {
    var w := watched[i := t];
    forall j | j in index ensures Entry(j, w, firsts) == if j == i then Entry(i, w, firsts) else index[j] {
    }
  }

  lemma PushIndexed<T>(index: Index<T>, watermark: nat, last: nat, watched: map<nat, T>, firsts: map<nat, nat>, i: nat, pos: nat)
    requires Marked(watermark, last, watched, firsts) && Indexed(index, watermark, watched, firsts) && i !in firsts
    ensures var f := firsts[i := pos];
      && Marked(watermark, last, watched, f)
      && Indexed(if i <= watermark then index else index[i := Entry(i, watched, f)], watermark, watched, f)
    ensures i <= watermark ==> i !in watched
    ensures watermark < i ==> (i in index <==> i in watched) && (i in index ==> index[i] == Pending(None, Some(watched[i])))
  {
    var f := firsts[i := pos];
    forall j | j in index ensures Entry(j, watched, f) == if j == i then Entry(i, watched, f) else index[j] {
    }
  }

  lemma PairMore<T>(emitted: seq<Match<T>>, watched: map<nat, T>, firsts: map<nat, nat>,
                    w: map<nat, T>, f: map<nat, nat>, i: nat)
    requires Paired(emitted, watched, firsts)
    requires (i !in watched && i in w && w == watched[i := w[i]] && f == firsts)
          || (i !in firsts && i in f && f == firsts[i := f[i]] && w == watched)
    ensures Paired(emitted + if i in w && i in f then [Match(i, f[i], w[i])] else [], w, f)
  {
    forall m | m in emitted ensures IsMatch(m, w, f) && m.ipos != i {
      assert IsMatch(m, watched, firsts);
    }
    if i in w && i in f {
      OnceMore(emitted, Match(i, f[i], w[i]));
    }
  }

  lemma PairPush<T>(emitted: seq<Match<T>>, watched: map<nat, T>, firsts: map<nat, nat>, i: nat, pos: nat)
    requires Paired(emitted, watched, firsts) && i !in firsts
    ensures Paired(emitted + if i in watched then [Match(i, pos, watched[i])] else [], watched, firsts[i := pos])
  {
    PairMore(emitted, watched, firsts, watched, firsts[i := pos], i);
  }

  class PrimaryAfterImageMatcher<T> {
    var afterimages: Index<T>
    var matched: seq<Match<T>>
    var watermark: nat

    // All intentions watched so far, the first after image pushed for each
    // intention, and all matches so far, taken or not.
    ghost var watched: map<nat, T>
    ghost var firsts: map<nat, nat>
    ghost var emitted: seq<Match<T>>
    ghost var lastWatched: nat

    ghost predicate Valid()
      reads this
    {
      && Marked(watermark, lastWatched, watched, firsts) && Indexed(afterimages, watermark, watched, firsts)
      && Paired(emitted, watched, firsts) && Collected(afterimages)
      && |matched| <= |emitted| && matched == emitted[|emitted| - |matched|..]
    }

    constructor ()
      ensures Valid() && watched == map[] && firsts == map[] && emitted == [] && lastWatched == 0
    {
      afterimages, matched, watermark := map[], [], 0;
      watched, firsts, emitted, lastWatched := map[], map[], [], 0;
    }

    /** Hands a match on; its entry in the index may be forgotten. */
    method Emit(m: Match<T>)
      requires |matched| <= |emitted| && matched == emitted[|emitted| - |matched|..]
      modifies this`afterimages, this`matched, this`emitted
      ensures afterimages == old(afterimages)[m.ipos := Pending(None, None)]
      ensures emitted == old(emitted) + [m] && matched == old(matched) + [m]
      ensures |matched| <= |emitted| && matched == emitted[|emitted| - |matched|..]
    {
      SuffixMore(matched, emitted, m);
      afterimages := afterimages[m.ipos := Pending(None, None)];
      matched, emitted := matched + [m], emitted + [m];
    }

    /** A tree waits for the after image of its intention. Watches come in the order
        of the log. If the after image is here already the match is made now. */
    method Watch(ipos: nat, tree: T)
      requires Valid() && lastWatched < ipos
      modifies this
      ensures Valid() && lastWatched == ipos && watched == old(watched)[ipos := tree] && firsts == old(firsts)
      ensures emitted == old(emitted) + if ipos in firsts then [Match(ipos, firsts[ipos], tree)] else []
    {
      hide Marked, Indexed, Paired, Collected;
      assert emitted + [] == emitted;
      WatchIndexed(afterimages, watermark, lastWatched, watched, firsts, ipos, tree);
      NotYet(watermark, lastWatched, watched, firsts, ipos);
      PairMore(emitted, watched, firsts, watched[ipos := tree], firsts, ipos);
      watched, lastWatched := watched[ipos := tree], ipos;
      if ipos !in afterimages {
        afterimages := afterimages[ipos := Pending(None, Some(tree))];
      } else {
        assert afterimages[ipos].pos.Some? && afterimages[ipos].tree.None?;
        Emit(Match(ipos, afterimages[ipos].pos.value, tree));
      }
      Gc();
    }

    /** An after image appears in the log. If it is the first of an intention that is
        watched the match is made now; up to the watermark nothing is lost by not
        looking. */
    method Push(ipos: nat, pos: nat)
      requires Valid()
      modifies this
      ensures Valid() && watched == old(watched) && lastWatched == old(lastWatched)
      ensures firsts == if ipos in old(firsts) then old(firsts) else old(firsts)[ipos := pos]
      ensures emitted == old(emitted) + if ipos in watched && ipos !in old(firsts) then [Match(ipos, pos, watched[ipos])] else []
    {
      hide Marked, Indexed, Paired, Collected;
      assert emitted + [] == emitted;
      if ipos !in firsts {
        PushIndexed(afterimages, watermark, lastWatched, watched, firsts, ipos, pos);
        PairPush(emitted, watched, firsts, ipos, pos);
      } else {
        KnownEntry(afterimages, watermark, watched, firsts, ipos);
      }
      firsts := if ipos in firsts then firsts else firsts[ipos := pos];
      if ipos <= watermark {
        return;
      }
      if ipos !in afterimages {
        afterimages := afterimages[ipos := Pending(Some(pos), None)];
      } else if afterimages[ipos].pos.None? && afterimages[ipos].tree.Some? {
        Emit(Match(ipos, pos, afterimages[ipos].tree.value));
      }
      Gc();
    }

    /** The next match in the order in which they were made. */
    method TakeMatch() returns (m: Match<T>)
      requires Valid() && matched != []
      modifies this`matched
      ensures Valid() && [m] + matched == old(matched)
    {
      hide Marked, Indexed, Paired, Collected;
      m := matched[0];
      matched := matched[1..];
    }

    /** Forgets matched intentions from the bottom up and raises the watermark, until the
        lowest entry waits for something. */
    method Gc()
      requires Marked(watermark, lastWatched, watched, firsts) && Indexed(afterimages, watermark, watched, firsts)
      modifies this`afterimages, this`watermark
      ensures Marked(watermark, lastWatched, watched, firsts) && Indexed(afterimages, watermark, watched, firsts)
      ensures old(watermark) <= watermark && Collected(afterimages)
    {
      hide Marked, Indexed;
      while afterimages != map[]
        invariant Marked(watermark, lastWatched, watched, firsts) && Indexed(afterimages, watermark, watched, firsts)
        invariant old(watermark) <= watermark
        decreases |afterimages|
      {
        var ipos := First(afterimages);
        AboveMark(afterimages, watermark, watched, firsts, ipos);
        assert watermark < ipos;
        if afterimages[ipos] != Pending(None, None) {
          LowestWaits(afterimages, ipos);
          break;
        }
        Raise(afterimages, watermark, ipos, lastWatched, watched, firsts);
        afterimages, watermark := afterimages - {ipos}, ipos;
      }
    }
  }

  /** The lowest entry has not been matched: nothing is left to forget. */
  ghost predicate Collected<T>(index: Index<T>) {
    forall i | i in index :: (forall j | j in index :: i <= j) ==> index[i] != Pending(None, None)
  }

  lemma LowestWaits<T>(index: Index<T>, k: nat)
    requires k in index && index[k] != Pending(None, None) && forall j | j in index :: k <= j
    ensures Collected(index)
  {
  }

  /** The first entry of the index in the order of the log. */
  method First<T>(index: Index<T>) returns (k: nat)
    requires index != map[]
    ensures k in index && forall i | i in index :: k <= i
  {
    ghost var low := Lowest(index.Keys);
    k :| k in index.Keys && forall i | i in index.Keys :: k <= i;
  }

  lemma SuffixMore<T>(a: seq<T>, b: seq<T>, x: T)
    requires |a| <= |b| && a == b[|b| - |a|..]
    ensures a + [x] == (b + [x])[|b| - |a|..]
  {
  }

  lemma NotYet<T>(watermark: nat, last: nat, watched: map<nat, T>, firsts: map<nat, nat>, i: nat)
    requires Marked(watermark, last, watched, firsts) && last < i
    ensures i !in watched
  {
  }

  lemma AboveMark<T>(index: Index<T>, watermark: nat, watched: map<nat, T>, firsts: map<nat, nat>, i: nat)
    requires Indexed(index, watermark, watched, firsts) && i in index
    ensures watermark < i
  {
  }

  /** A further after image of an intention changes nothing. */
  lemma KnownEntry<T>(index: Index<T>, watermark: nat, watched: map<nat, T>, firsts: map<nat, nat>, i: nat)
    requires Indexed(index, watermark, watched, firsts) && i in firsts
    ensures watermark < i ==> i in index && index[i].tree.None?
  {
  }

  lemma {:induction false} Lowest(s: set<nat>) returns (k: nat)
    requires s != {}
    ensures k in s && forall j | j in s :: k <= j
    decreases s
  {
    k :| k in s;
    var first, rest := k, s - {k};
    if rest != {} {
      var j := Lowest(rest);
      k := if j < first then j else first;
    }
    forall x | x in s ensures k <= x {
      assert x == first || x in rest;
    }
  }
}
