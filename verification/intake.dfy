/**
 * The proxy's HTTP request handling, minus the sockets.
 *  - GET: the request path is reduced to a lookup key; a stored reply gives a
 *    303 redirect to Airbrake's locate page, anything else a 404.
 *  - any other method is a submission: the client immediately receives an
 *    Airbrake-style XML notice carrying a freshly generated id, and the id's
 *    record is set to pending.
 */
module Intake {
  import opened Wrappers
  import opened JsString
  import opened Correlation

  /** The lookup prefix removed from GET paths, and the length of a generated id. */
  const LocatePrefix := "/locate/"
  const KeyLength := 36

  /** Where a resolved lookup sends the client. */
  const RedirectBase := "https://airbrake.io/locate/"

  /** The placeholder of the acknowledgement template. */
  const IdPlaceholder := "{UUID}"

  /** `s.substring(0, n)`. */
  function Truncate(s: string, n: nat): (r: string)
    ensures |r| == if |s| <= n then |s| else n
    ensures r <= s
  {
    if |s| <= n then s else s[..n]
  }

  /**
   * The lookup key of a GET path: every "/locate/" removed, then every "/",
   * then cut to 36 characters. Any other text (a query string, say) is kept.
   */
  function LookupKey(path: string): (key: string)
    ensures |key| <= KeyLength
    ensures '/' !in key
  {
    var stripped := ReplaceAll(path, LocatePrefix, "");
    ReplaceAllIsLiteral(stripped, "/", "");
    RemoveCharIsWithout(stripped, '/');
    Truncate(ReplaceAll(stripped, "/", ""), KeyLength)
  }

  /** Reducing an already reduced key changes nothing. */
  lemma LookupKeyIdempotent(path: string)
    ensures LookupKey(LookupKey(path)) == LookupKey(path)
  {
    var key := LookupKey(path);
    NoOccurrenceWithoutFirstChar(key, LocatePrefix);
    ReplaceAllIsLiteral(key, LocatePrefix, "");
    ReplaceEveryWithoutMatch(key, LocatePrefix, "");
    NoOccurrenceWithoutFirstChar(key, "/");
    ReplaceAllIsLiteral(key, "/", "");
    ReplaceEveryWithoutMatch(key, "/", "");
  }

  /** The locate path of an id of at most 36 characters without "/" leads back to that id. */
  lemma LocatePathYieldsId(id: string)
    requires '/' !in id && |id| <= KeyLength
    ensures LookupKey(LocatePrefix + id) == id
  {
    ReplaceAllIsLiteral(LocatePrefix + id, LocatePrefix, "");
    ReplaceEveryAtPattern(LocatePrefix, id, "");
    NoOccurrenceWithoutFirstChar(id, LocatePrefix);
    ReplaceEveryWithoutMatch(id, LocatePrefix, "");
    assert "" + id == id;
    NoOccurrenceWithoutFirstChar(id, "/");
    ReplaceAllIsLiteral(id, "/", "");
    ReplaceEveryWithoutMatch(id, "/", "");
  }

  /** The answer to a GET lookup. */
  datatype LookupReply = SeeOther(location: string) | NotFound {
    function Status(): int {
      if SeeOther? then 303 else 404
    }
  }

  /**
   * The lookup decision on the stored reply (`None` when the field is unset
   * or the read failed). Any non-empty value redirects — the pending sentinel
   * "null" included, since it is a non-empty, truthy string.
   */
  function Decide(reply: Option<string>): (r: LookupReply)
    ensures r.SeeOther? <==> reply.Some? && reply.value != ""
    ensures r.SeeOther? ==> r.location == RedirectBase + reply.value
    ensures r.Status() == (if reply.Some? && reply.value != "" then 303 else 404)
  {
    if reply.Some? && reply.value != "" then SeeOther(RedirectBase + reply.value) else NotFound
  }

  /** The stored value can be read back off the redirect's location. */
  lemma RedirectNamesStoredValue(reply: Option<string>)
    requires Decide(reply).SeeOther?
    ensures Decide(reply).location[..|RedirectBase|] == RedirectBase
    ensures Decide(reply).location[|RedirectBase|..] == reply.value
    ensures Decide(reply).Status() == 303
  {
    var loc := Decide(reply).location;
    assert loc == RedirectBase + reply.value;
    assert loc[|RedirectBase|..] == reply.value;
  }

  /** A GET request against the store. */
  function HandleGet(store: Store, path: string): (r: LookupReply)
    ensures r.SeeOther? <==> LookupKey(path) in store && store[LookupKey(path)] != ""
    ensures r.SeeOther? ==> r.location == RedirectBase + store[LookupKey(path)]
  {
    Decide(Get(store, LookupKey(path)))
  }

  /**
   * A lookup while the relay is still pending redirects to ".../locate/null"
   * rather than answering 404.
   */
  lemma PendingLookupRedirectsToNull(store: Store, id: string)
    requires '/' !in id && |id| <= KeyLength
    ensures HandleGet(Pending(store, id), LocatePrefix + id) == SeeOther(RedirectBase + PendingSentinel)
  {
    LocatePathYieldsId(id);
  }

  /** After a successful relay the lookup redirects to the Airbrake notice. */
  lemma StoredLookupRedirectsToNotice(store: Store, id: string, reply: AirbrakeReply)
    requires '/' !in id && |id| <= KeyLength
    requires Classify(reply).Stored?
    ensures HandleGet(Record(Pending(store, id), id, Classify(reply)), LocatePrefix + id)
      == SeeOther(RedirectBase + Classify(reply).noticeId)
  {
    LocatePathYieldsId(id);
  }

  /** A field that is unset (or unreadable) gives 404. */
  lemma UnknownIdNotFound(store: Store, path: string)
    requires LookupKey(path) !in store
    ensures HandleGet(store, path).Status() == 404
  {
  }

  const AckHead := "<?xml version=\"1.0\"?><notice><id>"
  const AckTail := "</url></notice>"

  /** The text between the two placeholders: the end of `<id>` and the start of the locate URL. */
  function AckMiddle(hostname: string, port: nat): string {
    "</id><url>http://" + hostname + ":" + Decimal(port) + LocatePrefix
  }

  /** The acknowledgement template for the configured listen hostname and port. */
  function AckTemplate(hostname: string, port: nat): string {
    AckHead + (IdPlaceholder + (AckMiddle(hostname, port) + (IdPlaceholder + AckTail)))
  }

  lemma AckMiddleHasNoBrace(hostname: string, port: nat)
    requires '{' !in hostname
    ensures '{' !in AckMiddle(hostname, port)
    ensures AckMiddle(hostname, port)[0] == '<'
  {
    var d := Decimal(port);
    assert '{' !in d by {
      forall k | 0 <= k < |d| ensures d[k] != '{' { }
    }
  }

  /**
   * The body sent to the submitting client: every placeholder replaced by the
   * generated id. It carries the id twice, as the notice id and at the end of
   * the locate URL. (A hostname containing "{" could itself hold a
   * placeholder; an id containing "$" would be expanded by the runtime.)
   */
  function Acknowledgement(hostname: string, port: nat, id: string): (body: string)
    ensures '{' !in hostname && '$' !in id ==>
      body == AckHead + id + AckMiddle(hostname, port) + id + AckTail
  {
    var body := ReplaceAll(AckTemplate(hostname, port), IdPlaceholder, id);
    assert '{' !in hostname && '$' !in id ==>
      body == AckHead + id + AckMiddle(hostname, port) + id + AckTail
    by {
      if '{' !in hostname && '$' !in id {
        AckMiddleHasNoBrace(hostname, port);
        assert '{' !in AckHead && '{' !in AckTail;
        ReplaceTwoSlots(AckHead, AckMiddle(hostname, port), AckTail, IdPlaceholder, id);
      }
    }
    body
  }

  /**
   * With no "$" in the id and no "{" in the hostname, no placeholder survives
   * in the acknowledgement unless the id itself contains one.
   */
  lemma AcknowledgementHasNoPlaceholder(hostname: string, port: nat, id: string)
    requires '{' !in hostname && '$' !in id
    requires !Occurs(id, IdPlaceholder)
    ensures !Occurs(Acknowledgement(hostname, port, id), IdPlaceholder)
  {
    AckMiddleHasNoBrace(hostname, port);
    assert '{' !in AckHead && AckTail[0] == '<';
    TwoCopiesAddNoOccurrence(AckHead, id, AckMiddle(hostname, port), AckTail, IdPlaceholder);
  }

  /**
   * `head + x + mid + x + tail` has no occurrence of `pat` when `x` has none,
   * the fixed pieces lack its first character, and `mid` and `tail` start
   * with a character it never uses.
   */
  lemma TwoCopiesAddNoOccurrence(head: string, x: string, mid: string, tail: string, pat: string)
    requires 0 < |pat| && !Occurs(x, pat)
    requires pat[0] !in head && pat[0] !in mid && pat[0] !in tail
    requires 0 < |mid| && mid[0] !in pat && 0 < |tail| && tail[0] !in pat
    ensures !Occurs(head + x + mid + x + tail, pat)
  {
    NoOccurrenceWithoutFirstChar(head, pat);
    NoOccurrenceWithoutFirstChar(mid, pat);
    NoOccurrenceWithoutFirstChar(tail, pat);
    NoOccurrenceAcrossSeam(x, tail, pat);
    NoOccurrenceAcrossSeam(mid, x + tail, pat);
    NoOccurrenceAcrossSeam(x, mid + (x + tail), pat);
    NoOccurrenceAcrossSeam(head, x + (mid + (x + tail)), pat);
    assert head + x + mid + x + tail == head + (x + (mid + (x + tail)));
  }

  /** The URL in the acknowledgement, requested with GET, looks up the acknowledged id. */
  lemma AcknowledgedUrlLooksUpId(hostname: string, port: nat, id: string)
    requires '{' !in hostname && '$' !in id
    requires '/' !in id && |id| <= KeyLength
    ensures var ack := Acknowledgement(hostname, port, id);
      var urlEnd := |ack| - |AckTail|;
      && |LocatePrefix + id| + |AckTail| <= |ack|
      && ack[urlEnd - |LocatePrefix + id|..urlEnd] == LocatePrefix + id
      && LookupKey(ack[urlEnd - |LocatePrefix + id|..urlEnd]) == id
  {
    var ack := Acknowledgement(hostname, port, id);
    var loc := LocatePrefix + id;
    var urlStart := "</id><url>http://" + hostname + ":" + Decimal(port);
    assert AckMiddle(hostname, port) == urlStart + LocatePrefix;
    var before := AckHead + id + urlStart;
    assert ack == before + loc + AckTail;
    MiddleSlice(before, loc, AckTail);
    LocatePathYieldsId(id);
  }

  /** What accepting a submission produces. */
  datatype Acceptance = Acceptance(
    status: int,
    body: string,
    store: Store,
    relayPath: string,
    relayToSentry: bool)

  /**
   * Accepting a submission (a request with any method other than GET): 200
   * with the acknowledgement, the id's record set
   * to pending, the body relayed to Airbrake under the original request path,
   * and to Sentry too when a Sentry host is configured.
   */
  function Accept(store: Store, requestPath: string, id: string, hostname: string, port: nat, sentryHost: string): (a: Acceptance)
    ensures a.status == 200
    ensures Get(a.store, id) == Some(PendingSentinel)
    ensures forall k :: k != id ==> Get(a.store, k) == Get(store, k)
    ensures a.relayPath == requestPath
    ensures a.relayToSentry <==> sentryHost != ""
    ensures '{' !in hostname && '$' !in id ==>
      a.body == AckHead + id + AckMiddle(hostname, port) + id + AckTail
  {
    Acceptance(200, Acknowledgement(hostname, port, id), Pending(store, id), requestPath, sentryHost != "")
  }

  /** The proxy's answer to one request: a lookup for GET, a submission for every other method. */
  datatype Response = Lookup(reply: LookupReply) | Accepted(acceptance: Acceptance)

  /**
   * Dispatch on the request method `verb`. `id` is the freshly generated id,
   * used only by a submission.
   */
  function Handle(verb: string, store: Store, path: string, id: string, hostname: string, port: nat, sentryHost: string): (r: Response)
    ensures r.Lookup? <==> verb == "GET"
    ensures r.Lookup? ==> r.reply == HandleGet(store, path)
    ensures r.Accepted? ==> r.acceptance.store == Pending(store, id) && r.acceptance.relayPath == path
    ensures r.Accepted? ==> r.acceptance.status == 200 && (r.acceptance.relayToSentry <==> sentryHost != "")
    ensures r.Accepted? && '{' !in hostname && '$' !in id ==>
      r.acceptance.body == AckHead + id + AckMiddle(hostname, port) + id + AckTail
  {
    if verb == "GET" then Lookup(HandleGet(store, path))
    else Accepted(Accept(store, path, id, hostname, port, sentryHost))
  }
}
