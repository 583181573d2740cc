/** The log as it is written, and as it is read: with every pointer of an after image
    by intention, whatever form its writer has given it. */
module Logs {
  import opened Basics
  import opened Deltas
  import opened Serialization
  import opened Histories
  import opened Restarts
  import opened NodeCaches

  function RefOf(p: PtrEntry, primary: map<nat, nat>): Ref {
    match Meaning(p, primary)
    case Some(r) => r
    case None => Void
  }

  function EntriesOf(es: seq<NodeEntry>, primary: map<nat, nat>): (ds: seq<Entry>)
    ensures |ds| == |es|
  {
    seq(|es|, k requires 0 <= k < |es| =>
      Entry(es[k].red, es[k].key, es[k].val, RefOf(es[k].left, primary), RefOf(es[k].right, primary)))
  }

  function AsEntry(s: Slot, primary: map<nat, nat>): LogEntry {
    match s
    case Image(image) => AfterImageEntry(image.intention, EntriesOf(image.tree, primary))
    case Record(i) => IntentionEntry(i)
    case Hole => Filled
  }

  function AsLog(slots: seq<Slot>): (log: Log)
    ensures |log| == |slots|
    ensures forall p :: 0 <= p < |log| ==> log[p] == AsEntry(slots[p], Intents(slots))
  {
    seq(|slots|, p requires 0 <= p < |slots| => AsEntry(slots[p], Intents(slots)))
  }

  /** Every pointer of every after image leads to an intention. */
  ghost predicate Resolved(slots: seq<Slot>) {
    forall p :: 0 <= p < |slots| && slots[p].Image? ==> ImageResolved(slots[p].image.tree, Intents(slots))
  }

  ghost predicate ImageResolved(es: seq<NodeEntry>, primary: map<nat, nat>) {
    forall k :: 0 <= k < |es| ==> Meaning(es[k].left, primary).Some? && Meaning(es[k].right, primary).Some?
  }

  lemma MeansExactly(es: seq<NodeEntry>, ds: seq<Entry>, primary: map<nat, nat>)
    ensures Means(es, ds, primary) <==> ImageResolved(es, primary) && EntriesOf(es, primary) == ds
  {
    if Means(es, ds, primary) {
      forall k | 0 <= k < |es| ensures EntryMeans(es[k], ds[k], primary) {
      }
    }
  }

  /** What after images mean, and what the log says when it is read. */
  lemma WrittenExactly(slots: seq<Slot>, store: Store)
    ensures Written(slots, store) <==>
      && Resolved(slots) && ImagesFollow(AsLog(slots))
      && forall p :: 0 <= p < |slots| && AsLog(slots)[p].AfterImageEntry? ==>
           AsLog(slots)[p].ipos in store && AsLog(slots)[p].entries == store[AsLog(slots)[p].ipos]
  {
    hide Intents, Means, ImageResolved, EntriesOf;
    var log := AsLog(slots);
    forall p | 0 <= p < |slots| && slots[p].Image?
      ensures log[p] == AfterImageEntry(slots[p].image.intention, EntriesOf(slots[p].image.tree, Intents(slots)))
    {
    }
    forall es, ds ensures Means(es, ds, Intents(slots)) <==> ImageResolved(es, Intents(slots)) && EntriesOf(es, Intents(slots)) == ds {
      MeansExactly(es, ds, Intents(slots));
    }
  }

  /** What has been read of a log stays so when it goes on. */
  lemma AsLogMore(slots: seq<Slot>, more: seq<Slot>)
    requires Resolved(slots)
    ensures AsLog(slots) <= AsLog(slots + more)
  {
    hide EntriesOf, ImageResolved, Intents;
    var a, b := AsLog(slots), AsLog(slots + more);
    forall p | 0 <= p < |slots| ensures a[p] == b[p] {
      assert (slots + more)[p] == slots[p];
      if slots[p].Image? {
        EntriesMore(slots[p].image.tree, slots, more);
      }
    }
  }

  lemma EntriesMore(es: seq<NodeEntry>, slots: seq<Slot>, more: seq<Slot>)
    requires ImageResolved(es, Intents(slots))
    ensures EntriesOf(es, Intents(slots + more)) == EntriesOf(es, Intents(slots))
  {
    forall k | 0 <= k < |es|
      ensures RefOf(es[k].left, Intents(slots + more)) == RefOf(es[k].left, Intents(slots))
      ensures RefOf(es[k].right, Intents(slots + more)) == RefOf(es[k].right, Intents(slots))
    {
      assert Meaning(es[k].left, Intents(slots)).Some?;
    }
  }
}
