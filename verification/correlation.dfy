/**
 * The correlation record kept in the Redis hash: the proxy's own id for a
 * submission maps to the Airbrake notice id, or to the pending sentinel
 * "null" until Airbrake answers. The hash is modelled as a map; a failed read
 * is indistinguishable from an absent field.
 *
 * Also here: the classification of Airbrake's reply to a relayed notice, and
 * the sequence of store writes the submissions and replies cause.
 */
module Correlation {
  import opened Wrappers

  type Store = map<string, string>

  /** The value written when a submission is accepted. */
  const PendingSentinel := "null"

  /** The error text Airbrake answers with when the project is over its rate limit. */
  const RateLimitedText := "Project is rate limited."

  /** `HGET`: the field's value, if it is set. */
  function Get(store: Store, key: string): Option<string> {
    if key in store then Some(store[key]) else None
  }

  /** The write made when a submission is accepted: the new id maps to the sentinel. */
  function Pending(store: Store, id: string): (r: Store)
    ensures Get(r, id) == Some(PendingSentinel)
    ensures forall k :: k != id ==> Get(r, k) == Get(store, k)
    ensures r.Keys == store.Keys + {id}
  {
    store[id := PendingSentinel]
  }

  /** The `<notice>` element of an Airbrake reply: the texts of its `<id>` children. */
  datatype NoticeReply = NoticeReply(ids: seq<string>)

  /**
   * An Airbrake reply after XML parsing. `notice` is absent when the document
   * has no (or an empty) `<notice>` element; `error` is the text of a root
   * `<error>` element.
   * A parsed document has a single root, so at most one of the two is
   * present in practice; the datatype does not enforce this.
   */
  datatype AirbrakeDoc = AirbrakeDoc(notice: Option<NoticeReply>, error: Option<string>)

  /**
   * How the relay request ended: a complete reply body (which the parser may
   * not turn into a document at all), the socket timeout, or a transport error.
   */
  datatype AirbrakeReply = Answered(doc: Option<AirbrakeDoc>) | TimedOut | TransportFailed

  datatype Classification =
    | Stored(noticeId: string)
    | RateLimited
    | Malformed
    | Timeout
    | ConnectionError

  /** The first `<id>` of the notice is present and non-empty (a truthy string). */
  predicate CarriesNoticeId(doc: AirbrakeDoc) {
    doc.notice.Some? && 0 < |doc.notice.value.ids| && doc.notice.value.ids[0] != ""
  }

  /**
   * The outcome of relaying a notice to Airbrake. The notice id is checked
   * first, the rate-limit text second; any other document (or none) is
   * malformed.
   */
  function Classify(reply: AirbrakeReply): (c: Classification)
    ensures c.Stored? <==> reply.Answered? && reply.doc.Some? && CarriesNoticeId(reply.doc.value)
    ensures c.Stored? ==> c.noticeId == reply.doc.value.notice.value.ids[0] && c.noticeId != ""
    ensures c.RateLimited? <==>
      reply.Answered? && reply.doc.Some? && !CarriesNoticeId(reply.doc.value)
      && reply.doc.value.error == Some(RateLimitedText)
    ensures c.Malformed? <==> reply.Answered? && !c.Stored? && !c.RateLimited?
    ensures c.Timeout? <==> reply.TimedOut?
    ensures c.ConnectionError? <==> reply.TransportFailed?
  {
    match reply
    case TimedOut => Timeout
    case TransportFailed => ConnectionError
    case Answered(doc) =>
      if doc.Some? && CarriesNoticeId(doc.value) then Stored(doc.value.notice.value.ids[0])
      else if doc.Some? && doc.value.error == Some(RateLimitedText) then RateLimited
      else Malformed
  }

  /** The store write a classification causes: only a success writes, and only the submission's own field. */
  function Record(store: Store, id: string, c: Classification): (r: Store)
    ensures c.Stored? ==> Get(r, id) == Some(c.noticeId)
    ensures !c.Stored? ==> r == store
    ensures forall k :: k != id ==> Get(r, k) == Get(store, k)
  {
    if c.Stored? then store[id := c.noticeId] else store
  }

  /**
   * A reply carrying both a notice id and the rate-limit error is a success.
   * The parser yields a single root element, so Airbrake cannot send such a
   * document; the lemma records the order of the tests, not a possible reply.
   */
  lemma NoticeIdTakesPrecedence(ids: seq<string>)
    requires 0 < |ids| && ids[0] != ""
    ensures Classify(Answered(Some(AirbrakeDoc(Some(NoticeReply(ids)), Some(RateLimitedText))))) == Stored(ids[0])
  {
  }

  /** Whatever the reply, the submission's record ends as the sentinel or as the notice id Airbrake sent. */
  lemma ReplyLeavesSentinelOrNoticeId(store: Store, id: string, reply: AirbrakeReply)
    ensures var r := Record(Pending(store, id), id, Classify(reply));
      && (Get(r, id) == Some(PendingSentinel) || (reply.Answered? && Get(r, id) == Some(reply.doc.value.notice.value.ids[0])))
      && r.Keys == store.Keys + {id}
  {
  }

  /** The store writes the proxy makes: one on accepting a submission, one when Airbrake's reply is classified. */
  datatype StoreEvent = Submitted(uuid: string) | Relayed(uuid: string, reply: AirbrakeReply)

  /** One write: a submission makes its field pending, a reply writes its field only on success; no other field changes. */
  function Step(store: Store, e: StoreEvent): (r: Store)
    ensures forall k :: k != e.uuid ==> Get(r, k) == Get(store, k)
    ensures e.Submitted? ==> Get(r, e.uuid) == Some(PendingSentinel)
    ensures e.Relayed? && !Classify(e.reply).Stored? ==> r == store
    ensures e.Relayed? && Classify(e.reply).Stored? ==> Get(r, e.uuid) == Some(Classify(e.reply).noticeId)
  {
    match e
    case Submitted(id) => Pending(store, id)
    case Relayed(id, reply) => Record(store, id, Classify(reply))
  }

  /** No event is about `id`. */
  predicate Untouched(events: seq<StoreEvent>, id: string) {
    forall j :: 0 <= j < |events| ==> events[j].uuid != id
  }

  /** The store after the events, applied in order; a field no event is about keeps its value. */
  function Run(store: Store, events: seq<StoreEvent>): (r: Store)
    ensures forall k :: Untouched(events, k) ==> Get(r, k) == Get(store, k)
    decreases |events|
  {
    if |events| == 0 then store
    else Step(Run(store, events[..|events| - 1]), events[|events| - 1])
  }

  /** The events about one id, in their original order. */
  function Concerning(events: seq<StoreEvent>, id: string): (r: seq<StoreEvent>)
    ensures |r| <= |events|
    ensures forall k :: 0 <= k < |r| ==> r[k].uuid == id && r[k] in events
    decreases |events|
  {
    if |events| == 0 then []
    else
      var last := events[|events| - 1];
      Concerning(events[..|events| - 1], id) + (if last.uuid == id then [last] else [])
  }

  /** A step's effect on the written field depends only on that field's previous value. */
  lemma StepOnOwnField(m1: Store, m2: Store, e: StoreEvent)
    requires Get(m1, e.uuid) == Get(m2, e.uuid)
    ensures Get(Step(m1, e), e.uuid) == Get(Step(m2, e), e.uuid)
  {
  }

  /**
   * Records are independent: the value of any field after a run of events is
   * the value it gets from the events about that field alone.
   */
  lemma {:induction false} RecordsAreIndependent(store: Store, events: seq<StoreEvent>, id: string)
    ensures Get(Run(store, events), id) == Get(Run(store, Concerning(events, id)), id)
    decreases |events|
  {
    if |events| > 0 {
      var prefix := events[..|events| - 1];
      var last := events[|events| - 1];
      var c := Concerning(prefix, id);
      RecordsAreIndependent(store, prefix, id);
      if last.uuid == id {
        assert Concerning(events, id) == c + [last];
        assert (c + [last])[..|c + [last]| - 1] == c;
        StepOnOwnField(Run(store, prefix), Run(store, c), last);
      } else {
        assert Concerning(events, id) == c;
      }
    }
  }

  /** The value a finished relay leaves behind. */
  function Resolution(c: Classification): string {
    if c.Stored? then c.noticeId else PendingSentinel
  }

  /**
   * The life of one correlation record: untouched until its submission, the
   * sentinel after it, and after Airbrake's reply either still the sentinel
   * or the notice id — whatever other submissions interleave.
   */
  lemma RecordLifecycle(store: Store, events: seq<StoreEvent>, id: string)
    ensures Concerning(events, id) == [] ==> Get(Run(store, events), id) == Get(store, id)
    ensures Concerning(events, id) == [Submitted(id)] ==> Get(Run(store, events), id) == Some(PendingSentinel)
    ensures var h := Concerning(events, id);
      |h| == 2 && h[0] == Submitted(id) && h[1].Relayed? ==>
      Get(Run(store, events), id) == Some(Resolution(Classify(h[1].reply)))
  {
    RecordsAreIndependent(store, events, id);
    var h := Concerning(events, id);
    if |h| == 2 {
      assert h[..1] == [h[0]];
      assert h[..1][..0] == [];
    } else if |h| == 1 {
      assert h[..0] == [];
    }
  }
}
