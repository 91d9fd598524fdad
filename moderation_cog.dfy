/**
 * The `delete` command of `ModerationCog`, line for line the same algorithm as `GeneralCog`'s: the range argument and the fourteen-day cutoff are both measured
 * from the invoking message's `created_at` (`msg_time`), and the messages
 * of an individually deleted chunk are deleted together by `asyncio.gather`.
 */
module ModerationCog {
  import opened Wrappers
  import opened PyStr
  import opened Purge

  /**
   * `delete(ctx, rng)`: `channel` is the channel's history, `author` the
   * invoker and `msgTime` the invoking message's `created_at`. Returns the
   * reply and the delete calls, chunk by chunk.
   */
  method Delete(rng: string, parse: string -> Option<int>, channel: seq<Message>, author: int, msgTime: int)
    returns (reply: Reply, trace: seq<Action>)
    ensures ClassifyRange(rng, parse, msgTime).Reject? ==> reply == ClassifyRange(rng, parse, msgTime).reply && trace == []
    ensures ClassifyRange(rng, parse, msgTime).Proceed? ==>
              var selected := Selected(channel, ClassifyRange(rng, parse, msgTime).after, author);
              && reply == Done
              && trace == GatheredPlan(Chunks(selected), msgTime)
              && DeletedIds(trace) == multiset(Ids(selected))
              && forall k :: 0 <= k < |trace| ==>
                   trace[k] == if DeleteIndividually(Chunks(selected)[k], msgTime)
                               then DeleteGathered(multiset(Ids(Chunks(selected)[k])))
                               else DeleteBulk(Ids(Chunks(selected)[k]))
    ensures forall a :: a in trace ==> (a.DeleteBulk? && 0 < |a.ids| <= ChunkSize) || (a.DeleteGathered? && 0 < |a.batch| <= ChunkSize)
  {
    ghost var d := ClassifyRange(rng, parse, msgTime);
    var after: Option<int>;
    if rng == "" {
      assert d == Reject(UsageHint);
      return UsageHint, [];
    } else if Lower(rng) == "all" {
      after := None;
    } else if Lower(rng) == "me" {
      assert d == Reject(Refusal);
      return Refusal, [];
    } else {
      match parse(rng)
      case None =>
        assert d == Reject(UsageHint);
        return UsageHint, [];
      case Some(hours) =>
        after := Some(msgTime - hours);
    }
    assert d == Proceed(after);
    var history := History(channel, after);
    var filtered := OwnMessages(history, author);
    var chunks := Chunks(filtered);
    trace := DeleteChunks(chunks, msgTime);
    GatheredPlanIds(chunks, msgTime);
    forall k | 0 <= k < |trace|
      ensures trace[k] == if DeleteIndividually(chunks[k], msgTime)
                          then DeleteGathered(multiset(Ids(chunks[k])))
                          else DeleteBulk(Ids(chunks[k]))
    {
      GatheredPlanAt(chunks, msgTime, k);
    }
    reply := Done;
  }

  /** The `for c in filtered_chunks` loop, every chunk routed against `msgTime`. */
  method DeleteChunks(chunks: seq<seq<Message>>, msgTime: int) returns (trace: seq<Action>)
    requires WellSized(chunks)
    ensures trace == GatheredPlan(chunks, msgTime)
  {
    trace := [];
    var k := 0;
    while k < |chunks|
      invariant 0 <= k <= |chunks|
      invariant trace == GatheredPlan(chunks[..k], msgTime)
    {
      var c := chunks[k];
      GatheredPlanSnoc(chunks, msgTime, k);
      if c[0].createdAt <= msgTime - FourteenDays || c[|c| - 1].createdAt <= msgTime - FourteenDays {
        assert GatheredChunk(c, msgTime) == [DeleteGathered(multiset(Ids(c)))];
        trace := trace + [DeleteGathered(multiset(Ids(c)))];
      } else {
        assert GatheredChunk(c, msgTime) == [DeleteBulk(Ids(c))];
        trace := trace + [DeleteBulk(Ids(c))];
      }
      k := k + 1;
    }
    assert chunks[..k] == chunks;
  }

  /** How far the chunk loop gets: the calls made, and whether it raised. */
  datatype Attempt = Attempt(trace: seq<Action>, raised: bool)

  /**
   * The chunk loop as written: line 36 builds its coroutines from `m`, a name
   * bound nowhere in the method, so the first chunk routed to individual
   * deletion raises `NameError` before any of its messages is deleted, and
   * the exception leaves the command without the closing reply.
   */
  function PlanAsWritten(chunks: seq<seq<Message>>, msgTime: int): (a: Attempt)
    requires WellSized(chunks)
    ensures a.trace <= GatheredPlan(chunks, msgTime)
    ensures !a.raised <==> forall k :: 0 <= k < |chunks| ==> !DeleteIndividually(chunks[k], msgTime)
    ensures !a.raised ==> a.trace == GatheredPlan(chunks, msgTime)
    ensures forall x :: x in a.trace ==> x.DeleteBulk?
  {
    if chunks == [] then Attempt([], false)
    else
      var n := |chunks| - 1;
      var init := PlanAsWritten(chunks[..n], msgTime);
      assert forall k :: 0 <= k < n ==> chunks[..n][k] == chunks[k];
      if init.raised then init
      else if DeleteIndividually(chunks[n], msgTime) then Attempt(init.trace, true)
      else Attempt(init.trace + [DeleteBulk(Ids(chunks[n]))], false)
  }

  /** One message exactly fourteen days old: the written loop raises having deleted nothing, the intended one deletes it. */
  lemma UndefinedNameAbortsPurge(id: int, author: int, msgTime: int)
    ensures PlanAsWritten([[Message(id, author, msgTime - FourteenDays)]], msgTime) == Attempt([], true)
    ensures DeletedIds(GatheredPlan([[Message(id, author, msgTime - FourteenDays)]], msgTime)) == multiset{id}
  {
    var c := [Message(id, author, msgTime - FourteenDays)];
    assert [c][..0] == [];
    assert Ids(c) == [id];
    assert GatheredPlan([c], msgTime) == [DeleteGathered(multiset{id})];
    assert [DeleteGathered(multiset{id})][..0] == [];
  }
}
