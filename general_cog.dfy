/**
 * The `delete` command of `GeneralCog`: the range argument and the fourteen-day cutoff are both measured
 * from the invoking message's `created_at` (`msg_time`), and the messages
 * of an individually deleted chunk are deleted together by `asyncio.gather`.
 */
module GeneralCog {
  import opened Wrappers
  import opened PyStr
  import opened Purge

  /**
   * `delete(ctx, rng)`: `channel` is the channel's history, `author` the
   * invoker and `msgTime` the invoking message's `created_at`. Returns the
   * reply and the delete calls, chunk by chunk.
   */
  method Delete(rng: string, parse: string -> Option<int>, channel: seq<Message>, author: int, msgTime: int)
    returns (reply: Reply, trace: seq<Action>)
    ensures ClassifyRange(rng, parse, msgTime).Reject? ==> reply == ClassifyRange(rng, parse, msgTime).reply && trace == []
    ensures ClassifyRange(rng, parse, msgTime).Proceed? ==>
              var selected := Selected(channel, ClassifyRange(rng, parse, msgTime).after, author);
              && reply == Done
              && trace == GatheredPlan(Chunks(selected), msgTime)
              && DeletedIds(trace) == multiset(Ids(selected))
              && forall k :: 0 <= k < |trace| ==>
                   trace[k] == if DeleteIndividually(Chunks(selected)[k], msgTime)
                               then DeleteGathered(multiset(Ids(Chunks(selected)[k])))
                               else DeleteBulk(Ids(Chunks(selected)[k]))
    ensures forall a :: a in trace ==> (a.DeleteBulk? && 0 < |a.ids| <= ChunkSize) || (a.DeleteGathered? && 0 < |a.batch| <= ChunkSize)
  {
    ghost var d := ClassifyRange(rng, parse, msgTime);
    var after: Option<int>;
    if rng == "" {
      assert d == Reject(UsageHint);
      return UsageHint, [];
    } else if Lower(rng) == "all" {
      after := None;
    } else if Lower(rng) == "me" {
      assert d == Reject(Refusal);
      return Refusal, [];
    } else {
      match parse(rng)
      case None =>
        assert d == Reject(UsageHint);
        return UsageHint, [];
      case Some(hours) =>
        after := Some(msgTime - hours);
    }
    assert d == Proceed(after);
    var history := History(channel, after);
    var filtered := OwnMessages(history, author);
    var chunks := Chunks(filtered);
    trace := DeleteChunks(chunks, msgTime);
    GatheredPlanIds(chunks, msgTime);
    forall k | 0 <= k < |trace|
      ensures trace[k] == if DeleteIndividually(chunks[k], msgTime)
                          then DeleteGathered(multiset(Ids(chunks[k])))
                          else DeleteBulk(Ids(chunks[k]))
    {
      GatheredPlanAt(chunks, msgTime, k);
    }
    reply := Done;
  }

  /** The `for c in filtered_chunks` loop, every chunk routed against `msgTime`. */
  method DeleteChunks(chunks: seq<seq<Message>>, msgTime: int) returns (trace: seq<Action>)
    requires WellSized(chunks)
    ensures trace == GatheredPlan(chunks, msgTime)
  {
    trace := [];
    var k := 0;
    while k < |chunks|
      invariant 0 <= k <= |chunks|
      invariant trace == GatheredPlan(chunks[..k], msgTime)
    {
      var c := chunks[k];
      GatheredPlanSnoc(chunks, msgTime, k);
      if c[0].createdAt <= msgTime - FourteenDays || c[|c| - 1].createdAt <= msgTime - FourteenDays {
        assert GatheredChunk(c, msgTime) == [DeleteGathered(multiset(Ids(c)))];
        trace := trace + [DeleteGathered(multiset(Ids(c)))];
      } else {
        assert GatheredChunk(c, msgTime) == [DeleteBulk(Ids(c))];
        trace := trace + [DeleteBulk(Ids(c))];
      }
      k := k + 1;
    }
    assert chunks[..k] == chunks;
  }
}
