/**
 * The `delete` command of the bot's main file: the range argument measured
 * from the wall clock, chunks routed against a fresh clock reading each,
 * and the messages of an individually deleted chunk deleted one after the
 * other.
 */
module RpiBot {
  import opened Wrappers
  import opened PyStr
  import opened Purge

  /**
   * `delete(ctx, rng)`: `channel` is the channel's history, `author` the
   * invoker, and `clock(0)` the reading of `datetime.utcnow()` for the lower
   * bound, `clock(k + 1)` the one that routes chunk `k`. Returns the reply
   * and the delete calls, in the order they are awaited.
   */
  method Delete(rng: string, parse: string -> Option<int>, channel: seq<Message>, author: int, clock: nat -> int)
    returns (reply: Reply, trace: seq<Action>)
    ensures ClassifyRange(rng, parse, clock(0)).Reject? ==> reply == ClassifyRange(rng, parse, clock(0)).reply && trace == []
    ensures ClassifyRange(rng, parse, clock(0)).Proceed? ==>
              var selected := Selected(channel, ClassifyRange(rng, parse, clock(0)).after, author);
              && reply == Done
              && trace == SequentialPlan(Chunks(selected), clock)
              && Ordered(trace)
              && DeletionOrder(trace) == Ids(selected)
    ensures forall a :: a in trace ==> a.DeleteOne? || (a.DeleteBulk? && 0 < |a.ids| <= ChunkSize)
  {
    ghost var d := ClassifyRange(rng, parse, clock(0));
    var after: Option<int>;
    if rng == "" {
      assert d == Reject(UsageHint);
      return UsageHint, [];
    } else if Lower(rng) == "all" {
      after := None;
    } else if Lower(rng) == "me" {
      assert d == Reject(Refusal);
      return Refusal, [];
    } else {
      match parse(rng)
      case None =>
        assert d == Reject(UsageHint);
        return UsageHint, [];
      case Some(hours) =>
        after := Some(clock(0) - hours);
    }
    assert d == Proceed(after);
    var history := History(channel, after);
    var filtered := OwnMessages(history, author);
    var chunks := Chunks(filtered);
    trace := DeleteChunks(chunks, clock);
    SequentialPlanOrder(chunks, clock);
    reply := Done;
  }

  /** The `for c in filtered_chunks` loop, each chunk routed against its own clock reading. */
  method DeleteChunks(chunks: seq<seq<Message>>, clock: nat -> int) returns (trace: seq<Action>)
    requires WellSized(chunks)
    ensures trace == SequentialPlan(chunks, clock)
  {
    trace := [];
    var k := 0;
    while k < |chunks|
      invariant 0 <= k <= |chunks|
      invariant trace == SequentialPlan(chunks[..k], clock)
    {
      var c := chunks[k];
      SequentialPlanSnoc(chunks, clock, k);
      var now := clock(k + 1);
      ghost var before := trace;
      if c[0].createdAt <= now - FourteenDays || c[|c| - 1].createdAt <= now - FourteenDays {
        var calls := DeleteEach(c);
        assert SequentialChunk(c, now) == OneByOne(c);
        trace := trace + calls;
      } else {
        assert SequentialChunk(c, now) == [DeleteBulk(Ids(c))];
        trace := trace + [DeleteBulk(Ids(c))];
      }
      assert trace == before + SequentialChunk(c, now);
      k := k + 1;
    }
    assert chunks[..k] == chunks;
  }

  /** The `for m in c` loop: one `m.delete()` after the other. */
  method DeleteEach(c: seq<Message>) returns (calls: seq<Action>)
    ensures calls == OneByOne(c)
  {
    calls := [];
    var j := 0;
    while j < |c|
      invariant 0 <= j <= |c|
      invariant calls == OneByOne(c[..j])
    {
      calls := calls + [DeleteOne(c[j].id)];
      j := j + 1;
    }
    assert c[..j] == c;
  }
}
