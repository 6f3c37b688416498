/**
 * Flash messages: `flash` queues a `(category, message)` pair in the
 * session for the next request; `get_flashed_messages` drains the queue
 * once per request and keeps the drained list in the request context, so
 * that later calls in the same request see the same messages.
 */
module Flashes {
  import opened Wrappers

  /** One flashed message: the `(category, message)` tuple. */
  datatype Message = Message(category: string, text: string)

  /** What `get_flashed_messages` returns: the bare texts, or the pairs. */
  datatype FlashList = Texts(texts: seq<string>) | Pairs(pairs: seq<Message>)

  /** `[x[1] for x in flashes]`: the message texts, in order. */
  function MessagesOf(flashes: seq<Message>): (r: seq<string>)
    ensures |r| == |flashes|
    ensures forall k :: 0 <= k < |flashes| ==> r[k] == flashes[k].text
  {
    if flashes == [] then [] else [flashes[0].text] + MessagesOf(flashes[1..])
  }

  /** Projecting the texts commutes with appending to the queue. */
  lemma MessagesOfAppend(a: seq<Message>, b: seq<Message>)
    ensures MessagesOf(a + b) == MessagesOf(a) + MessagesOf(b)
  {
    assert forall k :: 0 <= k < |a| + |b| ==> MessagesOf(a + b)[k] == (MessagesOf(a) + MessagesOf(b))[k];
  }

  /**
   * The state `flash` and `get_flashed_messages` share: the session's
   * `_flashes` entry (`None` when the key is absent) and the request
   * context's `flashes` cache (`None` until the first read in the request).
   */
  class RequestContext {
    var sessionFlashes: Option<seq<Message>>
    var flashes: Option<seq<Message>>

    /** A new request: the session as the client sent it, nothing read yet. */
    constructor(sessionFlashes: Option<seq<Message>>)
      ensures this.sessionFlashes == sessionFlashes
      ensures flashes == None
    {
      this.sessionFlashes := sessionFlashes;
      flashes := None;
    }

    /** The messages waiting in the session (an absent key is an empty queue). */
    function Queued(): (r: seq<Message>)
      reads this
      ensures sessionFlashes.None? ==> r == []
      ensures sessionFlashes.Some? ==> r == sessionFlashes.value
    {
      sessionFlashes.GetOr([])
    }

    /**
     * `flash`: `session.setdefault('_flashes', []).append(...)` puts the
     * message at the end of the session queue; the context cache is not
     * touched, so a read earlier in this request does not see it.
     */
    method Flash(message: string, category: string := "message")
      modifies this
      ensures sessionFlashes == Some(old(Queued()) + [Message(category, message)])
      ensures flashes == old(flashes)
    {
      sessionFlashes := Some(Queued() + [Message(category, message)]);
    }

    /**
     * `get_flashed_messages`: the first call in a request pops the queue
     * out of the session into the cache; every call answers from the cache,
     * as pairs or as bare texts.
     */
    method GetFlashedMessages(withCategories: bool := false) returns (r: FlashList)
      modifies this
      ensures old(flashes).None? ==> flashes == Some(old(Queued())) && sessionFlashes == None
      ensures old(flashes).Some? ==> flashes == old(flashes) && sessionFlashes == old(sessionFlashes)
      ensures flashes.Some?
      ensures withCategories ==> r == Pairs(flashes.value)
      ensures !withCategories ==> r == Texts(MessagesOf(flashes.value))
    {
      if flashes.None? {
        flashes := Some(Queued());
        sessionFlashes := None;
      }
      if !withCategories {
        return Texts(MessagesOf(flashes.value));
      }
      return Pairs(flashes.value);
    }
  }

  /**
   * One request's life: messages already queued, one more flashed, then two
   * reads. Both reads return everything queued, in order, with the new
   * message last; the session queue is gone afterwards; a message flashed
   * after the first read is not among this request's messages and waits in
   * the session for the next request.
   */
  method FlashThenRead(pending: Option<seq<Message>>, category: string, text: string, later: string)
    returns (first: FlashList, second: FlashList, firstTexts: seq<string>, third: FlashList, left: Option<seq<Message>>)
    ensures first == Pairs(pending.GetOr([]) + [Message(category, text)])
    ensures second == first
    ensures firstTexts == MessagesOf(pending.GetOr([])) + [text]
    ensures third == first
    ensures left == Some([Message("message", later)])
  {
    var ctx := new RequestContext(pending);
    ctx.Flash(text, category);
    first := ctx.GetFlashedMessages(true);
    second := ctx.GetFlashedMessages(true);
    var plain := ctx.GetFlashedMessages();
    MessagesOfAppend(pending.GetOr([]), [Message(category, text)]);
    firstTexts := plain.texts;
    assert ctx.Queued() == [];
    ctx.Flash(later);
    assert [] + [Message("message", later)] == [Message("message", later)];
    third := ctx.GetFlashedMessages(true);
    left := ctx.sessionFlashes;
  }
}
