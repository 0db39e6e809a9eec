/**
 The handler pipeline: a vector of entries, each with a context object that remembers its own position.
 Edits renumber the contexts; reads and writes travel by the positions the contexts remember.
 */
module Pipelines {
  import opened Wrappers

  /** A handler, and which kinds of event it takes. */
  datatype Handler = Handler(id: nat, inbound: bool, outbound: bool)

  class HandlerContext {
    var index: nat
    var name: string
    var handler: Handler
    var removed: bool

    constructor (index: nat, name: string, handler: Handler)
      ensures this.index == index && this.name == name && this.handler == handler && !removed
    {
      this.index, this.name, this.handler, removed := index, name, handler, false;
    }
  }

  datatype Entry = Entry(name: string, handler: Handler, ctx: HandlerContext)

  /** An entry without its context. */
  datatype Stage = Stage(name: string, handler: Handler)

  function StagesOf(es: seq<Entry>): (r: seq<Stage>)
    ensures |r| == |es|
  {
    seq(|es|, i requires 0 <= i < |es| => Stage(es[i].name, es[i].handler))
  }

  function Inserted<T>(s: seq<T>, i: nat, x: T): seq<T>
    requires i <= |s|
  {
    s[..i] + [x] + s[i..]
  }

  function Removed<T>(s: seq<T>, i: nat): seq<T>
    requires i < |s|
  {
    s[..i] + s[i + 1..]
  }

  predicate NotBefore(stages: seq<Stage>, name: string, n: nat)
    requires n <= |stages|
  {
    forall j | 0 <= j < n :: stages[j].name != name
  }

  /** The first stage of that name. */
  function IndexOf(stages: seq<Stage>, name: string): (r: Option<nat>)
    ensures r.Some? ==> r.value < |stages| && stages[r.value].name == name && NotBefore(stages, name, r.value)
    ensures r.None? ==> NotBefore(stages, name, |stages|)
  {
    if stages == [] then None
    else if stages[0].name == name then Some(0)
    else
      match IndexOf(stages[1..], name)
      case None => None
      case Some(i) => Some(i + 1)
  }

  // ---- Where a read or a write goes ----

  /** The inbound positions from `start` on, in ascending order. */
  function Inbounds(stages: seq<Stage>, start: nat): seq<nat>
    decreases |stages| - start
  {
    if start >= |stages| then []
    else
      var rest := Inbounds(stages, start + 1);
      if stages[start].handler.inbound then [start] + rest else rest
  }

  /** The outbound positions below `n`, in descending order. */
  function Outbounds(stages: seq<Stage>, n: nat): seq<nat>
    requires n <= |stages|
  {
    if n == 0 then []
    else
      var rest := Outbounds(stages, n - 1);
      if stages[n - 1].handler.outbound then [n - 1] + rest else rest
  }

  predicate Ascending(s: seq<nat>) {
    forall i, j | 0 <= i < j < |s| :: s[i] < s[j]
  }

  predicate Descending(s: seq<nat>) {
    forall i, j | 0 <= i < j < |s| :: s[i] > s[j]
  }

  lemma InFront(x: nat, s: seq<nat>)
    ensures Ascending(s) && (forall y | y in s :: x < y) ==> Ascending([x] + s)
    ensures Descending(s) && (forall y | y in s :: x > y) ==> Descending([x] + s)
  {
    assert forall i | 0 <= i < |s| :: s[i] in s;
  }

  lemma {:induction false} InInbounds(stages: seq<Stage>, start: nat, i: nat)
    ensures i in Inbounds(stages, start) <==> start <= i < |stages| && stages[i].handler.inbound
    decreases |stages| - start
  {
    if start < |stages| {
      InInbounds(stages, start + 1, i);
    }
  }

  lemma {:induction false} InOutbounds(stages: seq<Stage>, n: nat, i: nat)
    requires n <= |stages|
    ensures i in Outbounds(stages, n) <==> i < n && stages[i].handler.outbound
    decreases n
  {
    if n > 0 {
      InOutbounds(stages, n - 1, i);
    }
  }

  /** A read passed on by every handler visits exactly the inbound handlers, each once, front to back. */
  lemma {:induction false} InboundsAre(stages: seq<Stage>, start: nat)
    ensures Ascending(Inbounds(stages, start))
    ensures forall i: nat :: i in Inbounds(stages, start) <==> start <= i < |stages| && stages[i].handler.inbound
    decreases |stages| - start
  {
    forall i: nat
      ensures i in Inbounds(stages, start) <==> start <= i < |stages| && stages[i].handler.inbound
    {
      InInbounds(stages, start, i);
    }
    if start < |stages| {
      InboundsAre(stages, start + 1);
      InFront(start, Inbounds(stages, start + 1));
      hide Ascending;
    }
  }

  /** A write passed on by every handler visits exactly the outbound handlers, each once, back to front. */
  lemma {:induction false} OutboundsAre(stages: seq<Stage>, n: nat)
    requires n <= |stages|
    ensures Descending(Outbounds(stages, n))
    ensures forall i: nat :: i in Outbounds(stages, n) <==> i < n && stages[i].handler.outbound
    decreases n
  {
    forall i: nat
      ensures i in Outbounds(stages, n) <==> i < n && stages[i].handler.outbound
    {
      InOutbounds(stages, n, i);
    }
    if n > 0 {
      OutboundsAre(stages, n - 1);
      InFront(n - 1, Outbounds(stages, n - 1));
      hide Descending;
    }
  }

  class ChannelPipeline {
    var handlers: seq<Entry>

    /** Every context describes its entry, and no two entries share one. */
    ghost predicate Described()
      reads this, Contexts()
    {
      && (forall i | 0 <= i < |handlers| :: DescribedBy(handlers[i], handlers[i].ctx))
      && (forall i, j | 0 <= i < j < |handlers| :: handlers[i].ctx != handlers[j].ctx)
    }

    static ghost predicate DescribedBy(e: Entry, ctx: HandlerContext)
      reads ctx
    {
      ctx.name == e.name && ctx.handler == e.handler && !ctx.removed
    }

    /** ... and every context remembers its position. */
    ghost predicate Valid()
      reads this, Contexts()
    {
      Described() && forall i | 0 <= i < |handlers| :: handlers[i].ctx.index == i
    }

    ghost function Contexts(): set<HandlerContext>
      reads this
    {
      set i | 0 <= i < |handlers| :: handlers[i].ctx
    }

    ghost function Stages(): seq<Stage>
      reads this
    {
      StagesOf(handlers)
    }

    constructor ()
      ensures Valid() && Stages() == []
    {
      handlers := [];
    }

    method Renumber(from: nat)
      requires Described() && from <= |handlers|
      requires forall i | 0 <= i < from :: handlers[i].ctx.index == i
      modifies set i | from <= i < |handlers| :: handlers[i].ctx
      ensures Valid()
    {
      for i := from to |handlers|
        invariant Described()
        invariant forall k | 0 <= k < i :: handlers[k].ctx.index == k
      {
        handlers[i].ctx.index := i;
      }
    }

    method AddEntry(index: nat, name: string, handler: Handler)
      requires Valid() && index <= |handlers|
      modifies this, Contexts()
      ensures Valid() && Stages() == Inserted(old(Stages()), index, Stage(name, handler))
      ensures fresh(Contexts() - old(Contexts()))
    {
      var ctx := new HandlerContext(index, name, handler);
      ghost var before := handlers;
      assert forall k | 0 <= k < |before| :: before[k].ctx != ctx;
      handlers := handlers[..index] + [Entry(name, handler, ctx)] + handlers[index..];
      InsertedAt(before, index, Entry(name, handler, ctx));
      assert Described() by {
        forall i, j | 0 <= i < j < |handlers|
          ensures handlers[i].ctx != handlers[j].ctx
        {
        }
      }
      assert forall c | c in Contexts() :: c == ctx || c in old(Contexts());
      Renumber(index + 1);
    }

    method AddFirst(name: string, handler: Handler)
      requires Valid()
      modifies this, Contexts()
      ensures Valid() && Stages() == [Stage(name, handler)] + old(Stages())
      ensures fresh(Contexts() - old(Contexts()))
    {
      AddEntry(0, name, handler);
    }

    method AddLast(name: string, handler: Handler)
      requires Valid()
      modifies this, Contexts()
      ensures Valid() && Stages() == old(Stages()) + [Stage(name, handler)]
      ensures fresh(Contexts() - old(Contexts()))
    {
      AddEntry(|handlers|, name, handler);
    }

    method Locate(name: string) returns (r: Option<nat>)
      ensures r == IndexOf(Stages(), name)
    {
      for i := 0 to |handlers|
        invariant NotBefore(Stages(), name, i)
      {
        if handlers[i].name == name {
          assert Stages()[i].name == name;
          return Some(i);
        }
      }
      return None;
    }

    method AddBefore(baseName: string, name: string, handler: Handler)
      requires Valid()
      modifies this, Contexts()
      ensures Valid()
      ensures Stages() == match IndexOf(old(Stages()), baseName)
                          case Some(i) => Inserted(old(Stages()), i, Stage(name, handler))
                          case None => old(Stages())
      ensures fresh(Contexts() - old(Contexts()))
    {
      var at := Locate(baseName);
      if at.Some? {
        AddEntry(at.value, name, handler);
      }
    }

    method AddAfter(baseName: string, name: string, handler: Handler)
      requires Valid()
      modifies this, Contexts()
      ensures Valid()
      ensures Stages() == match IndexOf(old(Stages()), baseName)
                          case Some(i) => Inserted(old(Stages()), i + 1, Stage(name, handler))
                          case None => old(Stages())
      ensures fresh(Contexts() - old(Contexts()))
    {
      var at := Locate(baseName);
      if at.Some? {
        AddEntry(at.value + 1, name, handler);
      }
    }

    method ReplaceAt(i: nat, name: string, handler: Handler)
      requires Valid() && i < |handlers|
      modifies this, handlers[i].ctx
      ensures Valid() && Contexts() == old(Contexts())
      ensures Stages() == old(Stages())[i := Stage(name, handler)]
    {
      var ctx := handlers[i].ctx;
      ghost var before := handlers;
      ctx.removed := true;
      handlers := handlers[i := Entry(name, handler, ctx)];
      ctx.name := name;
      ctx.handler := handler;
      ctx.removed := false;
      assert forall k | 0 <= k < |handlers| :: handlers[k].ctx == before[k].ctx;
    }

    /** The entry keeps its context and its place. */
    method Replace(oldName: string, name: string, handler: Handler)
      requires Valid()
      modifies this, Contexts()
      ensures Valid() && Contexts() == old(Contexts())
      ensures Stages() == match IndexOf(old(Stages()), oldName)
                          case Some(i) => old(Stages())[i := Stage(name, handler)]
                          case None => old(Stages())
    {
      var at := Locate(oldName);
      if at.Some? {
        ReplaceAt(at.value, name, handler);
      }
    }

    method EraseAt(i: nat)
      requires Valid() && i < |handlers|
      modifies this, Contexts()
      ensures Valid() && Stages() == Removed(old(Stages()), i)
      ensures Contexts() == old(Contexts()) - {old(handlers[i].ctx)} && old(handlers[i].ctx).removed
    {
      var ctx := handlers[i].ctx;
      ghost var before := handlers;
      ctx.removed := true;
      handlers := handlers[..i] + handlers[i + 1..];
      RemovedAt(before, i);
      ContextsLeft(before, handlers, i);
      Renumber(i);
    }

    method Remove(name: string)
      requires Valid()
      modifies this, Contexts()
      ensures Valid() && Contexts() <= old(Contexts())
      ensures Stages() == match IndexOf(old(Stages()), name)
                          case Some(i) => Removed(old(Stages()), i)
                          case None => old(Stages())
      ensures forall c | c in old(Contexts()) && c !in Contexts() :: c.removed
    {
      var at := Locate(name);
      if at.Some? {
        EraseAt(at.value);
      }
    }

    method Clear()
      requires Valid()
      modifies this, Contexts()
      ensures Valid() && Stages() == []
      ensures forall c | c in old(Contexts()) :: c.removed
    {
      for i := 0 to |handlers|
        invariant handlers == old(handlers)
        invariant forall k | 0 <= k < i :: handlers[k].ctx.removed
      {
        handlers[i].ctx.removed := true;
      }
      handlers := [];
    }

    /**
     A read from position `start` on, if every handler that gets it passes it on once through its
     context: the positions visited, in order.
     */
    method FireReadFrom(start: nat) returns (visited: seq<nat>)
      requires Valid()
      ensures visited == Inbounds(Stages(), start)
      decreases |handlers| - start
    {
      var i := start;
      while i < |handlers|
        invariant start <= i
        invariant Inbounds(Stages(), start) == Inbounds(Stages(), i)
      {
        if handlers[i].handler.inbound {
          visited := FireReadFrom(handlers[i].ctx.index + 1);
          return [i] + visited;
        }
        i := i + 1;
      }
      return [];
    }

    /**
     A write going down from position `n - 1`, passed on likewise; `sent` says whether it leaves the
     pipeline at the front.
     */
    method FireWriteFrom(n: nat) returns (visited: seq<nat>, sent: bool)
      requires Valid() && n <= |handlers|
      ensures visited == Outbounds(Stages(), n)
      ensures sent <==> n > 0 && Stages()[0].handler.outbound
      decreases n
    {
      var i := n;
      while i > 0
        invariant 0 <= i <= n
        invariant Outbounds(Stages(), n) == Outbounds(Stages(), i)
        invariant i < n && i == 0 ==> !Stages()[0].handler.outbound
        decreases i
      {
        i := i - 1;
        if handlers[i].handler.outbound {
          var index := handlers[i].ctx.index;
          if index == 0 {
            return [i], true;
          }
          visited, sent := FireWriteFrom(index);
          return [i] + visited, sent;
        }
      }
      return [], false;
    }
  }

  lemma InsertedAt(s: seq<Entry>, i: nat, x: Entry)
    requires i <= |s|
    ensures forall k | 0 <= k <= |s| ::
              (s[..i] + [x] + s[i..])[k] == if k < i then s[k] else if k == i then x else s[k - 1]
    ensures StagesOf(s[..i] + [x] + s[i..]) == Inserted(StagesOf(s), i, Stage(x.name, x.handler))
  {
  }

  lemma ContextsLeft(s: seq<Entry>, t: seq<Entry>, i: nat)
    requires i < |s| && t == s[..i] + s[i + 1..]
    requires forall j, k | 0 <= j < k < |s| :: s[j].ctx != s[k].ctx
    ensures (set k | 0 <= k < |t| :: t[k].ctx) == (set k | 0 <= k < |s| :: s[k].ctx) - {s[i].ctx}
  {
    var before, after := set k | 0 <= k < |s| :: s[k].ctx, set k | 0 <= k < |t| :: t[k].ctx;
    assert forall k | 0 <= k < |t| :: t[k] == s[if k < i then k else k + 1];
    forall c | c in before && c != s[i].ctx
      ensures c in after
    {
      var k :| 0 <= k < |s| && s[k].ctx == c;
      assert t[if k < i then k else k - 1] == s[k];
    }
    assert after <= before - {s[i].ctx};
  }

  lemma RemovedAt(s: seq<Entry>, i: nat)
    requires i < |s|
    ensures forall k | 0 <= k < |s| - 1 :: (s[..i] + s[i + 1..])[k] == if k < i then s[k] else s[k + 1]
    ensures StagesOf(s[..i] + s[i + 1..]) == Removed(StagesOf(s), i)
  {
  }
}
