/**
 * The `delete` command's algorithm, shared by its three copies: classify the
 * range argument, keep the invoker's messages from the channel history, cut
 * them into chunks of 100 and route each chunk either to one bulk call or to
 * one deletion per message, depending on the age of its first and last
 * message.
 *
 * Timestamps are integers in microseconds. The channel history, the clock
 * and `float(rng)` (as a duration in microseconds, or `None` when it raises)
 * are inputs; the Discord calls become an action trace.
 */
module Purge {
  import opened Wrappers
  import opened PyStr

  /** A message of the channel history: its id, its author's id and `created_at`. */
  datatype Message = Message(id: int, author: int, createdAt: int)

  /** The Discord calls the command issues. */
  datatype Action =
    | DeleteOne(id: int)                    // `await m.delete()`, one at a time
    | DeleteBulk(ids: seq<int>)             // `await ctx.channel.delete_messages(c)`
    | DeleteGathered(batch: multiset<int>)  // `asyncio.gather` of `m.delete()`: all of them, in no set order

  /**
   * What the command answers in the channel: the usage hint ("`?delete` needs
   * a valid argument, ..."), "No." or the check mark.
   */
  datatype Reply = UsageHint | Refusal | Done

  /** The outcome of classifying the range argument: a reply and stop, or a lower time bound (`None`: none). */
  datatype RangeChoice = Reject(reply: Reply) | Proceed(after: Option<int>)

  const ChunkSize: nat := 100

  /** `timedelta(days=14)`, the age beyond which Discord refuses bulk deletion. */
  const FourteenDays: int := 14 * 24 * 60 * 60 * 1000000

  /*
   * Classifying the range argument
   */

  /**
   * The `if`/`elif` chain on `rng`: empty is refused with the usage hint,
   * `all` in any case means no lower bound, `me` in any case is refused
   * with "No.", and anything else goes through `float()` (`parse`), a
   * failure giving the usage hint and a success a bound `hours` before `ref`.
   */
  function ClassifyRange(rng: string, parse: string -> Option<int>, ref: int): (d: RangeChoice)
    ensures d == Reject(UsageHint) <==> rng == [] || (Lower(rng) != "all" && Lower(rng) != "me" && parse(rng).None?)
    ensures d == Reject(Refusal) <==> rng != [] && Lower(rng) == "me"
    ensures d == Proceed(None) <==> rng != [] && Lower(rng) == "all"
    ensures d.Proceed? && d.after.Some? <==> rng != [] && Lower(rng) != "all" && Lower(rng) != "me" && parse(rng).Some?
    ensures d.Proceed? && d.after.Some? ==> d.after.value == ref - parse(rng).value
    ensures d != Reject(Done)
  {
    if rng == [] then Reject(UsageHint)
    else if Lower(rng) == "all" then Proceed(None)
    else if Lower(rng) == "me" then Reject(Refusal)
    else
      match parse(rng)
      case None => Reject(UsageHint)
      case Some(hours) => Proceed(Some(ref - hours))
  }

  /** `c` is one of the two cases of the letter `lower`. */
  predicate EitherCase(c: char, lower: char)
  {
    c == lower || c as int == lower as int - 32
  }

  /** `rng.lower() == 'all'` holds exactly for the eight spellings of "all" in mixed case. */
  lemma LowerIsAll(rng: string)
    ensures Lower(rng) == "all" <==> |rng| == 3 && EitherCase(rng[0], 'a') && EitherCase(rng[1], 'l') && EitherCase(rng[2], 'l')
  {
    if |rng| == 3 {
      LowerCharIs(rng[0], 'a');
      LowerCharIs(rng[1], 'l');
      LowerCharIs(rng[2], 'l');
      var l := Lower(rng);
      assert l == "all" <==> l[0] == 'a' && l[1] == 'l' && l[2] == 'l';
    }
  }

  /** A character lower-cases to the letter `l` exactly when it is `l` in either case. */
  lemma LowerCharIs(c: char, l: char)
    requires 'a' <= l <= 'z'
    ensures LowerChar(c) == l <==> EitherCase(c, l)
  {
  }

  /** `rng.lower() == 'me'` holds exactly for "me", "Me", "mE" and "ME". */
  lemma LowerIsMe(rng: string)
    ensures Lower(rng) == "me" <==> |rng| == 2 && EitherCase(rng[0], 'm') && EitherCase(rng[1], 'e')
  {
    if |rng| == 2 {
      LowerCharIs(rng[0], 'm');
      LowerCharIs(rng[1], 'e');
      var l := Lower(rng);
      assert l == "me" <==> l[0] == 'm' && l[1] == 'e';
    }
  }

  /*
   * Selecting the messages
   */

  /** The elements of `xs` that `keep` accepts, in order: a list comprehension with an `if`, or `filter`. */
  function Filter(xs: seq<Message>, keep: Message -> bool): (r: seq<Message>)
    ensures |r| <= |xs|
    ensures forall x :: x in r ==> keep(x)
    ensures forall x :: multiset(r)[x] == if keep(x) then multiset(xs)[x] else 0
  {
    if xs == [] then []
    else
      assert xs == [xs[0]] + xs[1..];
      (if keep(xs[0]) then [xs[0]] else []) + Filter(xs[1..], keep)
  }

  /** Filtering a concatenation filters each part: the order of the kept elements is the input order. */
  lemma {:induction false} FilterAppend(a: seq<Message>, b: seq<Message>, keep: Message -> bool)
    ensures Filter(a + b, keep) == Filter(a, keep) + Filter(b, keep)
    decreases |a|
  {
    if a == [] {
      assert a + b == b;
    } else {
      assert (a + b)[0] == a[0];
      assert (a + b)[1..] == a[1..] + b;
      FilterAppend(a[1..], b, keep);
    }
  }

  /** `xs` back to front. */
  function Reversed(xs: seq<Message>): (r: seq<Message>)
    ensures |r| == |xs|
    ensures forall i :: 0 <= i < |xs| ==> r[i] == xs[|xs| - 1 - i]
    ensures multiset(r) == multiset(xs)
  {
    if xs == [] then []
    else
      var n := |xs| - 1;
      assert xs == xs[..n] + [xs[n]];
      [xs[n]] + Reversed(xs[..n])
  }

  /**
   * What `ctx.channel.history(limit=None, after=after_date)` yields from a
   * channel listed oldest first: with a bound, the newer messages oldest
   * first; without one (`all`), the whole channel newest first, which is the
   * library's default order when no `after` is given.
   */
  function History(channel: seq<Message>, after: Option<int>): seq<Message>
  {
    match after
    case None => Reversed(channel)
    case Some(bound) => Filter(channel, NewerThan(bound))
  }

  /** The history's test under a bound: strictly newer than it. */
  function NewerThan(bound: int): Message -> bool
  {
    (m: Message) => m.createdAt > bound
  }

  /** `created_at` never decreases along `c`. */
  predicate Chronological(c: seq<Message>)
  {
    forall i, j :: 0 <= i <= j < |c| ==> c[i].createdAt <= c[j].createdAt
  }

  /** `created_at` never increases along `c`. */
  predicate NewestFirst(c: seq<Message>)
  {
    forall i, j :: 0 <= i <= j < |c| ==> c[i].createdAt >= c[j].createdAt
  }

  /** Filtering keeps a chronological list chronological. */
  lemma {:induction false} FilterChronological(xs: seq<Message>, keep: Message -> bool)
    requires Chronological(xs)
    ensures Chronological(Filter(xs, keep))
    decreases |xs|
  {
    if xs != [] {
      var rest := Filter(xs[1..], keep);
      FilterChronological(xs[1..], keep);
      forall x | x in rest ensures xs[0].createdAt <= x.createdAt {
        assert multiset(rest)[x] > 0;
        assert x in xs[1..];
      }
    }
  }

  /** Filtering keeps a newest-first list newest first. */
  lemma {:induction false} FilterNewestFirst(xs: seq<Message>, keep: Message -> bool)
    requires NewestFirst(xs)
    ensures NewestFirst(Filter(xs, keep))
    decreases |xs|
  {
    if xs != [] {
      var rest := Filter(xs[1..], keep);
      FilterNewestFirst(xs[1..], keep);
      forall x | x in rest ensures xs[0].createdAt >= x.createdAt {
        assert multiset(rest)[x] > 0;
        assert x in xs[1..];
      }
    }
  }

  /**
   * Without a bound the history runs newest first, and it is exactly the
   * channel back to front; with one it stays oldest first.
   */
  lemma HistoryOrder(channel: seq<Message>, after: Option<int>)
    requires Chronological(channel)
    ensures after.None? ==> NewestFirst(History(channel, after))
    ensures after.None? ==> forall i :: 0 <= i < |channel| ==> History(channel, after)[i] == channel[|channel| - 1 - i]
    ensures after.Some? ==> Chronological(History(channel, after))
  {
    if after.Some? {
      FilterChronological(channel, NewerThan(after.value));
    }
  }

  /** Without a bound (`all`), the history holds every message of the channel, as often as the channel does. */
  lemma HistoryUnbounded(channel: seq<Message>)
    ensures multiset(History(channel, None)) == multiset(channel)
  {
  }

  /** `[x for x in history if x.author.id == ctx.author.id]`. */
  function OwnMessages(history: seq<Message>, author: int): (r: seq<Message>)
  {
    Filter(history, AuthoredBy(author))
  }

  /** The selection's test: written by `author`. */
  function AuthoredBy(author: int): Message -> bool
  {
    (m: Message) => m.author == author
  }

  /** The messages the command works on: the invoker's messages after the bound. */
  function Selected(channel: seq<Message>, after: Option<int>, author: int): seq<Message>
  {
    OwnMessages(History(channel, after), author)
  }

  /**
   * Only the invoker's messages newer than the bound are selected, each as
   * often as the channel holds it, and no other message is.
   */
  lemma SelectedMessages(channel: seq<Message>, after: Option<int>, author: int, m: Message)
    ensures multiset(Selected(channel, after, author))[m]
         == if m.author == author && (after.None? || m.createdAt > after.value) then multiset(channel)[m] else 0
  {
    var history := History(channel, after);
    assert multiset(history)[m] == if after.None? || m.createdAt > after.value then multiset(channel)[m] else 0;
  }

  /**
   * The selection keeps the history's order: newest first for `all`, oldest
   * first under a bound.
   */
  lemma SelectedOrder(channel: seq<Message>, after: Option<int>, author: int)
    requires Chronological(channel)
    ensures after.None? ==> NewestFirst(Selected(channel, after, author))
    ensures after.Some? ==> Chronological(Selected(channel, after, author))
  {
    HistoryOrder(channel, after);
    if after.None? {
      FilterNewestFirst(History(channel, after), AuthoredBy(author));
    } else {
      FilterChronological(History(channel, after), AuthoredBy(author));
    }
  }

  /** The ids of a list of messages, in order. */
  function Ids(ms: seq<Message>): (r: seq<int>)
    ensures |r| == |ms|
    ensures forall i :: 0 <= i < |ms| ==> r[i] == ms[i].id
  {
    seq(|ms|, i requires 0 <= i < |ms| => ms[i].id)
  }

  /*
   * Chunking
   */

  /** The chunks in order, joined back together. */
  function Flatten<T>(css: seq<seq<T>>): seq<T>
  {
    if css == [] then [] else css[0] + Flatten(css[1..])
  }

  lemma {:induction false} FlattenSnoc<T>(css: seq<seq<T>>, c: seq<T>)
    ensures Flatten(css + [c]) == Flatten(css) + c
    decreases |css|
  {
    if css == [] {
      assert css + [c] == [c];
    } else {
      assert (css + [c])[0] == css[0];
      assert (css + [c])[1..] == css[1..] + [c];
      FlattenSnoc(css[1..], c);
    }
  }

  /** `[xs[i:i+100] for i in range(start, len(xs), 100)]`. */
  function ChunksFrom<T>(xs: seq<T>, start: nat): (cs: seq<seq<T>>)
    requires start <= |xs|
    decreases |xs| - start
    ensures Flatten(cs) == xs[start..]
    ensures forall k :: 0 <= k < |cs| ==> 0 < |cs[k]| <= ChunkSize
    ensures forall k :: 0 <= k < |cs| - 1 ==> |cs[k]| == ChunkSize
    ensures |cs| == (|xs| - start + ChunkSize - 1) / ChunkSize
  {
    if start == |xs| then []
    else
      var next := if start + ChunkSize <= |xs| then start + ChunkSize else |xs|;
      var rest := ChunksFrom(xs, next);
      assert PySlice(xs, start, start + ChunkSize) == xs[start..next];
      assert xs[start..] == xs[start..next] + xs[next..];
      [PySlice(xs, start, start + ChunkSize)] + rest
  }

  /**
   * `filtered_chunks`: the chunks partition the list in order, none is empty,
   * none holds more than 100, all but the last hold exactly 100, and there
   * are ceil(n / 100) of them.
   */
  function Chunks<T>(xs: seq<T>): (cs: seq<seq<T>>)
    ensures Flatten(cs) == xs
    ensures forall k :: 0 <= k < |cs| ==> 0 < |cs[k]| <= ChunkSize
    ensures forall k :: 0 <= k < |cs| - 1 ==> |cs[k]| == ChunkSize
    ensures |cs| == (|xs| + ChunkSize - 1) / ChunkSize
  {
    ChunksFrom(xs, 0)
  }

  /*
   * Routing a chunk
   */

  /** `m.created_at <= now - timedelta(days=14)`. */
  predicate IsOld(m: Message, now: int)
  {
    m.createdAt <= now - FourteenDays
  }

  /** The routing test: the chunk's first or last message is old; the messages between are not looked at. */
  predicate DeleteIndividually(c: seq<Message>, now: int)
    requires c != []
  {
    IsOld(c[0], now) || IsOld(c[|c| - 1], now)
  }

  /** Changing the time of any message strictly inside a chunk never changes its route. */
  lemma RouteIgnoresInterior(c: seq<Message>, now: int, i: nat, t: int)
    requires 0 < i < |c| - 1
    ensures DeleteIndividually(c[i := c[i].(createdAt := t)], now) == DeleteIndividually(c, now)
  {
  }

  /**
   * The consequence: a chunk whose ends are recent goes to one bulk call
   * even when a message between them is past the fourteen-day limit.
   */
  lemma OldInteriorGoesToBulk(author: int, now: int)
    ensures var c := [Message(1, author, now), Message(2, author, now - FourteenDays), Message(3, author, now)];
            !DeleteIndividually(c, now) && IsOld(c[1], now)
  {
  }

  /** `created_at` never decreases along `c`, or never increases along it. */
  predicate Monotone(c: seq<Message>)
  {
    Chronological(c) || NewestFirst(c)
  }

  /**
   * On a chunk in time order (either direction), as the channel history
   * returns them, the boundary test is exact: it holds iff some message of
   * the chunk is old.
   */
  lemma MonotoneRouteExact(c: seq<Message>, now: int)
    requires c != [] && Monotone(c)
    ensures DeleteIndividually(c, now) <==> exists k :: 0 <= k < |c| && IsOld(c[k], now)
  {
    if k :| 0 <= k < |c| && IsOld(c[k], now) {
      if Chronological(c) {
        assert c[0].createdAt <= c[k].createdAt;
      } else {
        assert c[|c| - 1].createdAt <= c[k].createdAt;
      }
    }
  }

  /*
   * What a run issues
   */

  /** One `DeleteOne` per message of `c`, in order. */
  function OneByOne(c: seq<Message>): (r: seq<Action>)
    ensures |r| == |c|
    ensures forall i :: 0 <= i < |c| ==> r[i] == DeleteOne(c[i].id)
  {
    seq(|c|, i requires 0 <= i < |c| => DeleteOne(c[i].id))
  }

  /** A chunk of `rpibot.py`: deleted message by message in order, or in one bulk call. */
  function SequentialChunk(c: seq<Message>, now: int): seq<Action>
    requires c != []
  {
    if DeleteIndividually(c, now) then OneByOne(c) else [DeleteBulk(Ids(c))]
  }

  /** Every chunk holds between 1 and 100 messages. */
  predicate WellSized(chunks: seq<seq<Message>>)
  {
    forall k :: 0 <= k < |chunks| ==> 0 < |chunks[k]| <= ChunkSize
  }

  /**
   * The calls of `rpibot.py` for a list of chunks, chunk by chunk; chunk `k`
   * is routed with the clock reading `clock(k + 1)`.
   */
  function SequentialPlan(chunks: seq<seq<Message>>, clock: nat -> int): (r: seq<Action>)
    requires WellSized(chunks)
    ensures forall a :: a in r ==> a.DeleteOne? || (a.DeleteBulk? && 0 < |a.ids| <= ChunkSize)
  {
    if chunks == [] then []
    else
      var n := |chunks| - 1;
      SequentialPlan(chunks[..n], clock) + SequentialChunk(chunks[n], clock(n + 1))
  }

  /** The sequential plan of the first `k + 1` chunks extends that of the first `k` by chunk `k`'s calls. */
  lemma SequentialPlanSnoc(chunks: seq<seq<Message>>, clock: nat -> int, k: nat)
    requires WellSized(chunks) && k < |chunks|
    ensures WellSized(chunks[..k]) && WellSized(chunks[..k + 1])
    ensures SequentialPlan(chunks[..k + 1], clock) == SequentialPlan(chunks[..k], clock) + SequentialChunk(chunks[k], clock(k + 1))
  {
    assert chunks[..k + 1][..k] == chunks[..k];
  }

  /** A chunk of the cogs: deleted by one gathered batch, or in one bulk call. */
  function GatheredChunk(c: seq<Message>, now: int): seq<Action>
    requires c != []
  {
    if DeleteIndividually(c, now) then [DeleteGathered(multiset(Ids(c)))] else [DeleteBulk(Ids(c))]
  }

  /** The calls of the cogs for a list of chunks, every chunk routed against the same reference time. */
  function GatheredPlan(chunks: seq<seq<Message>>, ref: int): (r: seq<Action>)
    requires WellSized(chunks)
    ensures |r| == |chunks|
    ensures forall a :: a in r ==> (a.DeleteBulk? && 0 < |a.ids| <= ChunkSize) || (a.DeleteGathered? && 0 < |a.batch| <= ChunkSize)
  {
    if chunks == [] then []
    else
      var n := |chunks| - 1;
      GatheredPlan(chunks[..n], ref) + GatheredChunk(chunks[n], ref)
  }

  /** The gathered plan of the first `k + 1` chunks extends that of the first `k` by chunk `k`'s call. */
  lemma GatheredPlanSnoc(chunks: seq<seq<Message>>, ref: int, k: nat)
    requires WellSized(chunks) && k < |chunks|
    ensures WellSized(chunks[..k]) && WellSized(chunks[..k + 1])
    ensures GatheredPlan(chunks[..k + 1], ref) == GatheredPlan(chunks[..k], ref) + GatheredChunk(chunks[k], ref)
  {
    assert chunks[..k + 1][..k] == chunks[..k];
  }

  /** The ids one call deletes. */
  function ActionIds(a: Action): multiset<int>
  {
    match a
    case DeleteOne(id) => multiset{id}
    case DeleteBulk(ids) => multiset(ids)
    case DeleteGathered(batch) => batch
  }

  /** Every id a trace deletes, with multiplicity. */
  function DeletedIds(trace: seq<Action>): multiset<int>
  {
    if trace == [] then multiset{}
    else DeletedIds(trace[..|trace| - 1]) + ActionIds(trace[|trace| - 1])
  }

  /** A trace without gathered batches, which therefore deletes in a definite order. */
  predicate Ordered(trace: seq<Action>)
  {
    forall i :: 0 <= i < |trace| ==> !trace[i].DeleteGathered?
  }

  /** The ids one single or bulk call deletes, in order. */
  function Order(a: Action): seq<int>
    requires !a.DeleteGathered?
  {
    if a.DeleteOne? then [a.id] else a.ids
  }

  /** The ids of an ordered trace in the order they are deleted. */
  function DeletionOrder(trace: seq<Action>): seq<int>
    requires Ordered(trace)
  {
    if trace == [] then []
    else DeletionOrder(trace[..|trace| - 1]) + Order(trace[|trace| - 1])
  }

  /** Two traces without gathered batches make one without. */
  lemma OrderedAppend(a: seq<Action>, b: seq<Action>)
    requires Ordered(a) && Ordered(b)
    ensures Ordered(a + b)
  {
    forall i | 0 <= i < |a + b| ensures !(a + b)[i].DeleteGathered? {
      if i >= |a| { assert (a + b)[i] == b[i - |a|]; }
    }
  }

  lemma {:induction false} DeletedIdsAppend(a: seq<Action>, b: seq<Action>)
    ensures DeletedIds(a + b) == DeletedIds(a) + DeletedIds(b)
    decreases |b|
  {
    if b == [] {
      assert a + b == a;
    } else {
      var n := |b| - 1;
      assert (a + b)[..|a + b| - 1] == a + b[..n];
      DeletedIdsAppend(a, b[..n]);
    }
  }

  lemma {:induction false} DeletionOrderAppend(a: seq<Action>, b: seq<Action>)
    requires Ordered(a) && Ordered(b)
    ensures Ordered(a + b)
    ensures DeletionOrder(a + b) == DeletionOrder(a) + DeletionOrder(b)
    decreases |b|
  {
    OrderedAppend(a, b);
    if b == [] {
      assert a + b == a;
    } else {
      var n := |b| - 1;
      var init, last := b[..n], b[n];
      assert Ordered(init) by {
        forall i | 0 <= i < |init| ensures !init[i].DeleteGathered? { assert init[i] == b[i]; }
      }
      DeletionOrderAppend(a, init);
      var ab := a + b;
      assert ab[..|ab| - 1] == a + init;
      assert ab[|ab| - 1] == last;
      var x, y, z := DeletionOrder(a), DeletionOrder(init), Order(last);
      assert DeletionOrder(ab) == (x + y) + z;
      assert DeletionOrder(b) == y + z;
      assert (x + y) + z == x + (y + z);
    }
  }

  lemma {:induction false} OneByOneOrder(c: seq<Message>)
    ensures Ordered(OneByOne(c))
    ensures DeletionOrder(OneByOne(c)) == Ids(c)
    decreases |c|
  {
    if c != [] {
      var n := |c| - 1;
      assert OneByOne(c)[..n] == OneByOne(c[..n]);
      OneByOneOrder(c[..n]);
      assert Ids(c) == Ids(c[..n]) + [c[n].id];
    }
  }

  lemma IdsAppend(a: seq<Message>, b: seq<Message>)
    ensures Ids(a + b) == Ids(a) + Ids(b)
  {
  }

  /** One chunk of `rpibot.py` deletes exactly its own messages, in order. */
  lemma SequentialChunkOrder(c: seq<Message>, now: int)
    requires c != []
    ensures Ordered(SequentialChunk(c, now))
    ensures DeletionOrder(SequentialChunk(c, now)) == Ids(c)
  {
    if DeleteIndividually(c, now) {
      OneByOneOrder(c);
    } else {
      var t := [DeleteBulk(Ids(c))];
      assert t[..0] == [];
      assert DeletionOrder(t) == DeletionOrder([]) + Ids(c);
    }
  }

  /** One chunk of the cogs deletes exactly its own messages. */
  lemma GatheredChunkIds(c: seq<Message>, now: int)
    requires c != []
    ensures DeletedIds(GatheredChunk(c, now)) == multiset(Ids(c))
  {
    var t := GatheredChunk(c, now);
    assert t[..0] == [];
    assert DeletedIds(t) == DeletedIds([]) + ActionIds(t[0]);
  }

  /** Splitting off the last chunk of a list of chunks. */
  lemma FlattenIdsSnoc(chunks: seq<seq<Message>>)
    requires chunks != []
    ensures Ids(Flatten(chunks)) == Ids(Flatten(chunks[..|chunks| - 1])) + Ids(chunks[|chunks| - 1])
  {
    var n := |chunks| - 1;
    assert chunks == chunks[..n] + [chunks[n]];
    FlattenSnoc(chunks[..n], chunks[n]);
    IdsAppend(Flatten(chunks[..n]), chunks[n]);
  }

  /**
   * `rpibot.py` deletes every selected message exactly once, in the order of
   * the list: chunk by chunk, and inside a chunk message by message.
   */
  lemma {:induction false} SequentialPlanOrder(chunks: seq<seq<Message>>, clock: nat -> int)
    requires WellSized(chunks)
    ensures Ordered(SequentialPlan(chunks, clock))
    ensures DeletionOrder(SequentialPlan(chunks, clock)) == Ids(Flatten(chunks))
    decreases |chunks|
  {
    if chunks != [] {
      var n := |chunks| - 1;
      SequentialPlanOrder(chunks[..n], clock);
      SequentialChunkOrder(chunks[n], clock(n + 1));
      DeletionOrderAppend(SequentialPlan(chunks[..n], clock), SequentialChunk(chunks[n], clock(n + 1)));
      FlattenIdsSnoc(chunks);
    }
  }

  /** The cogs delete every selected message exactly once (the order inside a gathered batch left open). */
  lemma {:induction false} GatheredPlanIds(chunks: seq<seq<Message>>, ref: int)
    requires WellSized(chunks)
    ensures DeletedIds(GatheredPlan(chunks, ref)) == multiset(Ids(Flatten(chunks)))
    decreases |chunks|
  {
    if chunks != [] {
      var n := |chunks| - 1;
      GatheredPlanIds(chunks[..n], ref);
      GatheredChunkIds(chunks[n], ref);
      DeletedIdsAppend(GatheredPlan(chunks[..n], ref), GatheredChunk(chunks[n], ref));
      FlattenIdsSnoc(chunks);
    }
  }

  /** The chunk at position `k` of a gathered plan is routed by its own boundary messages. */
  lemma GatheredPlanAt(chunks: seq<seq<Message>>, ref: int, k: nat)
    requires WellSized(chunks) && k < |chunks|
    ensures GatheredPlan(chunks, ref)[k]
         == if DeleteIndividually(chunks[k], ref) then DeleteGathered(multiset(Ids(chunks[k]))) else DeleteBulk(Ids(chunks[k]))
    decreases |chunks|
  {
    var n := |chunks| - 1;
    if k < n {
      GatheredPlanAt(chunks[..n], ref, k);
    }
  }
}
