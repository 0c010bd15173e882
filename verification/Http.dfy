/** The hardened JSON fetch of packages/providers/src/http.ts: bounded bodies, retries, and the
    conditional-request cache, whose presence nobody may notice in the answers. */
module Http {
  import opened Text
  import opened Wrappers

  type Byte = n: int | 0 <= n < 256

  /** A body without a stream is read as text, unbounded; a stream delivers chunks and may break. */
  datatype Body = NoStream(text: seq<Byte>) | Stream(chunks: seq<seq<Byte>>, breaks: bool)

  /** Header values already parsed: `None` stands for an absent or non-numeric one. */
  datatype Response = Response(status: int, contentLength: Option<int>, body: Body, etag: Option<JsString>,
                               retryAfter: Option<int>)

  datatype Reply = NetworkError | Got(response: Response)

  datatype Category = AuthRequired | RateLimited | RetryableProvider | InvalidPayload | PermanentConfig | NotFound

  datatype AppError = AppError(category: Category, retryAfterSeconds: Option<int>)

  // ----- Reading a bounded body -----

  datatype Read = Bytes(bytes: seq<Byte>) | TooLarge | Broken

  function Total(chunks: seq<seq<Byte>>): nat
    decreases |chunks|
  {
    if chunks == [] then 0 else Total(chunks[..|chunks| - 1]) + |chunks[|chunks| - 1]|
  }

  function Flatten(chunks: seq<seq<Byte>>): (bytes: seq<Byte>)
    ensures |bytes| == Total(chunks)
    decreases |chunks|
  {
    if chunks == [] then [] else Flatten(chunks[..|chunks| - 1]) + chunks[|chunks| - 1]
  }

  function ReadOutcome(response: Response, maxBytes: int): Read {
    if response.contentLength.Some? && response.contentLength.value > maxBytes then TooLarge
    else match response.body
         case NoStream(text) => Bytes(text)
         case Stream(chunks, breaks) =>
           if exists n :: 0 < n <= |chunks| && Total(chunks[..n]) > maxBytes then TooLarge
           else if breaks then Broken
           else Bytes(Flatten(chunks))
  }

  lemma {:induction false} TotalGrows(chunks: seq<seq<Byte>>, n: nat)
    requires n <= |chunks|
    ensures Total(chunks[..n]) <= Total(chunks)
    decreases |chunks|
  {
    if n < |chunks| {
      TotalGrows(chunks[..|chunks| - 1], n);
      assert chunks[..|chunks| - 1][..n] == chunks[..n];
    } else {
      assert chunks[..n] == chunks;
    }
  }

  /** The declared length, or the whole stream, is over the limit. */
  predicate Exceeds(response: Response, maxBytes: int) {
    || (response.contentLength.Some? && response.contentLength.value > maxBytes)
    || (response.body.Stream? && response.body.chunks != [] && Total(response.body.chunks) > maxBytes)
  }

  /** A body is refused exactly when it exceeds the limit, fails exactly when it breaks off before that,
      and is read whole otherwise. */
  lemma ReadsWhatFits(response: Response, maxBytes: int)
    ensures ReadOutcome(response, maxBytes) ==
            if Exceeds(response, maxBytes) then TooLarge
            else if response.body.NoStream? then Bytes(response.body.text)
            else if response.body.breaks then Broken
            else Bytes(Flatten(response.body.chunks))
  {
    if response.body.Stream? {
      var chunks := response.body.chunks;
      assert chunks[..|chunks|] == chunks;
      forall n | 0 < n <= |chunks|
        ensures Total(chunks[..n]) <= Total(chunks)
      {
        TotalGrows(chunks, n);
      }
    }
  }

  /** A streamed body comes back as exactly its chunks in order, never more than `maxBytes` of them. */
  method ReadBounded(response: Response, maxBytes: int) returns (r: Read)
    ensures r == ReadOutcome(response, maxBytes)
    ensures response.body.Stream? && r.Bytes? ==> r.bytes == Flatten(response.body.chunks)
    ensures response.body.Stream? && r.Bytes? && response.body.chunks != [] ==> |r.bytes| <= maxBytes
  {
    if response.contentLength.Some? && response.contentLength.value > maxBytes {
      return TooLarge;
    }
    match response.body {
      case NoStream(text) => return Bytes(text);
      case Stream(incoming, breaks) =>
        var chunks: seq<seq<Byte>> := [];
        var total := 0;
        while |chunks| < |incoming|
          invariant chunks <= incoming && total == Total(chunks)
          invariant forall n :: 0 < n <= |chunks| ==> Total(incoming[..n]) <= maxBytes
        {
          var value := incoming[|chunks|];
          total := total + |value|;
          assert incoming[..|chunks| + 1] == chunks + [value];
          assert (chunks + [value])[..|chunks|] == chunks;
          if total > maxBytes {
            assert Total(incoming[..|chunks| + 1]) > maxBytes;
            return TooLarge;
          }
          chunks := chunks + [value];
        }
        assert chunks == incoming == incoming[..|incoming|];
        if breaks {
          return Broken;
        }
        var merged := Merge(chunks, total);
        return Bytes(merged);
    }
  }

  /** The chunks copied one after the other into a buffer of their total length. */
  method Merge(chunks: seq<seq<Byte>>, total: nat) returns (bytes: seq<Byte>)
    requires total == Total(chunks)
    ensures bytes == Flatten(chunks)
  {
    var merged := new Byte[total](_ => 0);
    var offset := 0;
    for n := 0 to |chunks|
      invariant offset == Total(chunks[..n]) <= total
      invariant merged[..offset] == Flatten(chunks[..n])
    {
      var chunk := chunks[n];
      assert chunks[..n + 1][..n] == chunks[..n];
      TotalGrows(chunks, n + 1);
      ghost var before := merged[..offset];
      forall k | 0 <= k < |chunk| {
        merged[offset + k] := chunk[k];
      }
      assert merged[..offset] == before;
      assert merged[offset..offset + |chunk|] == chunk;
      assert merged[..offset + |chunk|] == before + chunk;
      offset := offset + |chunk|;
    }
    assert chunks[..|chunks|] == chunks;
    bytes := merged[..];
  }

  // ----- One attempt -----

  /** Decoded text: empty, not JSON, or a JSON value, where `null` is `None`. */
  datatype Parsed<J> = Empty | Malformed | Value(json: Option<J>)

  datatype Options = Options(get: bool, retries: int, maxBytes: int, allowStatuses: set<int>)

  datatype Entry<J> = Entry(etag: JsString, json: J)

  datatype FetchResult<J> = FetchResult(status: int, json: Option<J>, fromCache: bool)

  datatype Step<J> = Return(result: FetchResult<J>, store: Option<Entry<J>>) | Again | Throw(error: AppError) | Network

  function JsonOf<J>(parsed: Parsed<J>): Option<J> {
    if parsed.Value? then parsed.json else None
  }

  function Failure(category: Category): AppError {
    AppError(category, None)
  }

  function HandleAllowed<J>(response: Response, opts: Options, parse: seq<Byte> -> Parsed<J>): Step<J> {
    match ReadOutcome(response, opts.maxBytes)
    case TooLarge => Throw(Failure(InvalidPayload))
    case Broken => Network
    case Bytes(bytes) => Return(FetchResult(response.status, JsonOf(parse(bytes)), false), None)
  }

  function HandleRefused<J>(response: Response): Step<J> {
    if response.status == 401 || response.status == 403 then Throw(Failure(AuthRequired))
    else if response.status == 404 then Throw(Failure(NotFound))
    else match ReadOutcome(response, 4096)
         case TooLarge => Throw(Failure(InvalidPayload))
         case Broken => Network
         case Bytes(_) =>
           Throw(Failure(if response.status == 400 || response.status == 409 || response.status == 422
                         then InvalidPayload else RetryableProvider))
  }

  function HandleOk<J>(response: Response, opts: Options, caching: bool, parse: seq<Byte> -> Parsed<J>): Step<J> {
    match ReadOutcome(response, opts.maxBytes)
    case TooLarge => Throw(Failure(InvalidPayload))
    case Broken => Network
    case Bytes(bytes) =>
      if parse(bytes).Malformed? then Throw(Failure(InvalidPayload))
      else
        var json := JsonOf(parse(bytes));
        Return(FetchResult(response.status, json, false),
               if opts.get && response.etag.Some? && caching && json.Some?
               then Some(Entry(response.etag.value, json.value))
               else None)
  }

  /** The body of the `try` block. */
  function Handle<J>(reply: Reply, cached: Option<Entry<J>>, caching: bool, opts: Options,
                     parse: seq<Byte> -> Parsed<J>, attempt: nat): Step<J> {
    if reply.NetworkError? then Network
    else
      var response := reply.response;
      if response.status == 304 && cached.Some? then Return(FetchResult(200, Some(cached.value.json), true), None)
      else if 300 <= response.status < 400 then Throw(Failure(PermanentConfig))
      else if response.status in opts.allowStatuses then HandleAllowed(response, opts, parse)
      else if response.status == 429 || response.status >= 500 then
        if opts.get && attempt < opts.retries then Again
        else if response.status == 429 then Throw(AppError(RateLimited, response.retryAfter))
        else Throw(Failure(RetryableProvider))
      else if response.status >= 400 then HandleRefused(response)
      else HandleOk(response, opts, caching, parse)
  }

  // ----- The retry loop -----

  /** The reply to call number n made with the given If-None-Match value. */
  type Server = (nat, Option<JsString>) -> Reply

  datatype Fetched<J> = Fetched(result: Result<FetchResult<J>, AppError>, calls: nat, store: Option<Entry<J>>)

  function Condition<J>(cached: Option<Entry<J>>, opts: Options): Option<JsString> {
    if opts.get && cached.Some? then Some(cached.value.etag) else None
  }

  predicate Retries<J>(step: Step<J>, opts: Options, attempt: nat) {
    && opts.get && attempt < opts.retries
    && (step.Again? || step.Network? ||
        (step.Throw? &&
         (step.error.category == RetryableProvider ||
          (step.error.category == RateLimited && step.error.retryAfterSeconds.Some?))))
  }

  /** What is reported when an attempt ends the loop. */
  function Final<J>(step: Step<J>, attempt: nat): Fetched<J> {
    match step
    case Return(result, store) => Fetched(Ok(result), attempt + 1, store)
    case Throw(error) => Fetched(Err(error), attempt + 1, None)
    case _ => Fetched(Err(Failure(RetryableProvider)), attempt + 1, None)
  }

  function FetchFrom<J>(server: Server, cached: Option<Entry<J>>, caching: bool, opts: Options,
                        parse: seq<Byte> -> Parsed<J>, attempt: nat): Fetched<J>
    decreases opts.retries - attempt
  {
    var step := Handle(server(attempt, Condition(cached, opts)), cached, caching, opts, parse, attempt);
    if Retries(step, opts, attempt) then FetchFrom(server, cached, caching, opts, parse, attempt + 1)
    else Final(step, attempt)
  }

  /** Keys are `${method} ${url}`. */
  type Key = (bool, JsString)

  class EtagCache<J> {
    var entries: map<Key, Entry<J>>

    constructor ()
      ensures entries == map[]
    {
      entries := map[];
    }
  }

  function Lookup<J>(entries: map<Key, Entry<J>>, key: Key): Option<Entry<J>> {
    if key in entries then Some(entries[key]) else None
  }

  function Store<J>(entries: map<Key, Entry<J>>, key: Key, store: Option<Entry<J>>): map<Key, Entry<J>> {
    if store.Some? then entries[key := store.value] else entries
  }

  method FetchJson<J>(url: JsString, opts: Options, cache: EtagCache?<J>, server: Server, parse: seq<Byte> -> Parsed<J>)
    returns (result: Result<FetchResult<J>, AppError>, ghost calls: nat)
    modifies cache
    ensures var cached := if cache == null then None else Lookup(old(cache.entries), (opts.get, url));
            var fetched := FetchFrom(server, cached, cache != null, opts, parse, 0);
            && result == fetched.result && calls == fetched.calls
            && (cache != null ==> cache.entries == Store(old(cache.entries), (opts.get, url), fetched.store))
  {
    var key := (opts.get, url);
    var cached := if cache == null then None else Lookup(cache.entries, key);
    var condition := if opts.get && cached.Some? then Some(cached.value.etag) else None;
    var attempt: nat := 0;
    ghost var whole := FetchFrom(server, cached, cache != null, opts, parse, 0);
    while true
      invariant FetchFrom(server, cached, cache != null, opts, parse, attempt) == whole
      invariant cache != null ==> cache.entries == old(cache.entries)
      decreases opts.retries - attempt
    {
      var step := Handle(server(attempt, condition), cached, cache != null, opts, parse, attempt);
      if Retries(step, opts, attempt) {
        attempt := attempt + 1;
        continue;
      }
      calls := attempt + 1;
      match step {
        case Return(answer, store) =>
          if cache != null && store.Some? {
            cache.entries := cache.entries[key := store.value];
          }
          return Ok(answer), calls;
        case Throw(error) => return Err(error), calls;
        case _ => return Err(Failure(RetryableProvider)), calls;
      }
    }
  }

  // ----- What every reply leads to -----

  predicate Confirms<J>(response: Response, cached: Option<Entry<J>>) {
    response.status == 304 && cached.Some?
  }

  predicate Redirects(response: Response) { 300 <= response.status < 400 }

  /** A status whose body is the answer: a success, or one the caller allows. */
  predicate Answers(response: Response, opts: Options) {
    !Redirects(response) && (response.status < 300 || response.status in opts.allowStatuses)
  }

  /** Failures that pass: the network, a body that breaks off, 429 and 5xx, and client errors without a
      category of their own. */
  predicate Passing<J>(reply: Reply, cached: Option<Entry<J>>, opts: Options) {
    reply.NetworkError? ||
    var response := reply.response;
    if Confirms(response, cached) || Redirects(response) then false
    else if Answers(response, opts) then
      !Exceeds(response, opts.maxBytes) && response.body.Stream? && response.body.breaks
    else
      || response.status == 429 || response.status >= 500
      || (response.status !in {401, 403, 404} && !Exceeds(response, 4096) &&
          ((response.body.Stream? && response.body.breaks) || response.status !in {400, 409, 422}))
  }

  /** The bytes of a body that arrives whole. */
  function WholeBody(response: Response): seq<Byte> {
    match response.body
    case NoStream(text) => text
    case Stream(chunks, _) => Flatten(chunks)
  }

  /** No JSON for an empty body; and none for a malformed one, where that is tolerated. */
  ghost predicate Carries<J>(json: Option<J>, parsed: Parsed<J>) {
    if parsed.Value? then json == parsed.json else json == None
  }

  /** What the last reply makes the answer. */
  ghost predicate Settles<J>(reply: Reply, cached: Option<Entry<J>>, opts: Options, parse: seq<Byte> -> Parsed<J>,
                             result: Result<FetchResult<J>, AppError>) {
    if Passing(reply, cached, opts) then
      result == Err(if reply.Got? && !Answers(reply.response, opts) && reply.response.status == 429
                    then AppError(RateLimited, reply.response.retryAfter) else AppError(RetryableProvider, None))
    else
      var response := reply.response;
      if Confirms(response, cached) then result == Ok(FetchResult(200, Some(cached.value.json), true))
      else if Redirects(response) then result == Err(AppError(PermanentConfig, None))
      else if Answers(response, opts) then
        var parsed := parse(WholeBody(response));
        if Exceeds(response, opts.maxBytes) || (parsed.Malformed? && response.status !in opts.allowStatuses) then
          result == Err(AppError(InvalidPayload, None))
        else
          && result.Ok? && result.value.status == response.status && !result.value.fromCache
          && Carries(result.value.json, parsed)
      else if response.status in {401, 403} then result == Err(AppError(AuthRequired, None))
      else if response.status == 404 then result == Err(AppError(NotFound, None))
      else result == Err(AppError(InvalidPayload, None))
  }

  /** What is left in the cache: the JSON of a tagged success of a GET, if it is not null. */
  ghost predicate Leaves<J>(reply: Reply, caching: bool, opts: Options, result: Result<FetchResult<J>, AppError>,
                            store: Option<Entry<J>>) {
    if result.Ok? && !result.value.fromCache && result.value.json.Some? && opts.get && caching && reply.Got? &&
       reply.response.status !in opts.allowStatuses && reply.response.etag.Some?
    then store == Some(Entry(reply.response.etag.value, result.value.json.value))
    else store == None
  }

  lemma OneReplySettles<J>(reply: Reply, cached: Option<Entry<J>>, caching: bool, opts: Options,
                           parse: seq<Byte> -> Parsed<J>, attempt: nat)
    ensures var step := Handle(reply, cached, caching, opts, parse, attempt);
            && (Retries(step, opts, attempt) <==> Passing(reply, cached, opts) && opts.get && attempt < opts.retries)
            && (!Retries(step, opts, attempt) ==>
                  && Settles(reply, cached, opts, parse, Final(step, attempt).result)
                  && Leaves(reply, caching, opts, Final(step, attempt).result, Final(step, attempt).store))
  {
    if reply.Got? {
      ReadsWhatFits(reply.response, opts.maxBytes);
      ReadsWhatFits(reply.response, 4096);
    }
  }

  /** Against every server: the calls go on exactly while the replies are passing failures and tries are
      left, and the last reply alone settles the answer and what is cached. */
  lemma {:induction false} TheLastReplySettles<J>(server: Server, cached: Option<Entry<J>>, caching: bool,
      opts: Options, parse: seq<Byte> -> Parsed<J>, attempt: nat)
    ensures var fetched := FetchFrom(server, cached, caching, opts, parse, attempt);
            var tag := if opts.get && cached.Some? then Some(cached.value.etag) else None;
            var reply := (k: nat) => server(k, tag);
            && fetched.calls > attempt
            && (forall k :: attempt <= k < fetched.calls ==>
                  (k + 1 < fetched.calls <==> Passing(reply(k), cached, opts) && opts.get && k < opts.retries))
            && Settles(reply(fetched.calls - 1), cached, opts, parse, fetched.result)
            && Leaves(reply(fetched.calls - 1), caching, opts, fetched.result, fetched.store)
    decreases opts.retries - attempt
  {
    hide Handle, Settles, Leaves, Passing, Retries, Final;
    var reply := server(attempt, Condition(cached, opts));
    OneReplySettles(reply, cached, caching, opts, parse, attempt);
    if Retries(Handle(reply, cached, caching, opts, parse, attempt), opts, attempt) {
      TheLastReplySettles(server, cached, caching, opts, parse, attempt + 1);
    } else {
      FinalCalls(Handle(reply, cached, caching, opts, parse, attempt), attempt);
    }
  }

  lemma FinalCalls<J>(step: Step<J>, attempt: nat)
    ensures Final(step, attempt).calls == attempt + 1
  {
  }

  /** A GET makes at most retries + 1 calls; anything else makes exactly one. */
  lemma {:induction false} CallsAreBounded<J>(server: Server, cached: Option<Entry<J>>, caching: bool, opts: Options,
                                              parse: seq<Byte> -> Parsed<J>, attempt: nat)
    requires attempt == 0 || attempt <= opts.retries
    ensures var calls := FetchFrom(server, cached, caching, opts, parse, attempt).calls;
            && attempt < calls <= (if opts.retries > 0 then opts.retries else 0) + 1
            && (!opts.get ==> calls == attempt + 1)
    decreases opts.retries - attempt
  {
    var step := Handle(server(attempt, Condition(cached, opts)), cached, caching, opts, parse, attempt);
    if Retries(step, opts, attempt) {
      CallsAreBounded(server, cached, caching, opts, parse, attempt + 1);
    }
  }

  /** The answer is that of the first attempt whose outcome is not retried, and every attempt before
      it was. */
  lemma {:induction false} AnswersWithTheFirstFinalReply<J>(server: Server, cached: Option<Entry<J>>, caching: bool,
      opts: Options, parse: seq<Byte> -> Parsed<J>, attempt: nat)
    ensures var fetched := FetchFrom(server, cached, caching, opts, parse, attempt);
            var step := (k: nat) => Handle(server(k, Condition(cached, opts)), cached, caching, opts, parse, k);
            && fetched.calls > attempt
            && (forall k :: attempt <= k < fetched.calls - 1 ==> Retries(step(k), opts, k))
            && !Retries(step(fetched.calls - 1), opts, fetched.calls - 1)
            && fetched == Final(step(fetched.calls - 1), fetched.calls - 1)
    decreases opts.retries - attempt
  {
    var step := Handle(server(attempt, Condition(cached, opts)), cached, caching, opts, parse, attempt);
    if Retries(step, opts, attempt) {
      AnswersWithTheFirstFinalReply(server, cached, caching, opts, parse, attempt + 1);
    }
  }

  /** Which error replies a GET tries again. Besides 429 and 5xx, which the options name, these are
      replies whose body breaks off and all client errors without a category of their own, such as
      402 or 418, as long as their body fits in 4096 bytes. */
  lemma ErrorStatusesRetriedExactly<J>(response: Response, cached: Option<Entry<J>>, caching: bool, opts: Options,
                                       parse: seq<Byte> -> Parsed<J>, attempt: nat)
    requires opts.get && attempt < opts.retries
    requires response.status >= 400 && response.status !in opts.allowStatuses
    ensures Retries(Handle(Got(response), cached, caching, opts, parse, attempt), opts, attempt) <==>
            var read := ReadOutcome(response, 4096);
            || response.status == 429 || response.status >= 500
            || (response.status !in {401, 403, 404} &&
                (read.Broken? || (read.Bytes? && response.status !in {400, 409, 422})))
  {
  }

  /** No redirect is ever followed or returned, and no error status is returned unless the caller
      allowed it. */
  lemma {:induction false} OnlyExpectedStatusesAreReturned<J>(server: Server, cached: Option<Entry<J>>, caching: bool,
      opts: Options, parse: seq<Byte> -> Parsed<J>, attempt: nat)
    ensures var result := FetchFrom(server, cached, caching, opts, parse, attempt).result;
            result.Ok? ==>
              var status := result.value.status;
              && !(300 <= status < 400)
              && (status < 300 || status in opts.allowStatuses)
    decreases opts.retries - attempt
  {
    var step := Handle(server(attempt, Condition(cached, opts)), cached, caching, opts, parse, attempt);
    if Retries(step, opts, attempt) {
      OnlyExpectedStatusesAreReturned(server, cached, caching, opts, parse, attempt + 1);
    }
  }

  // ----- The cache is invisible -----

  const NOT_MODIFIED := Response(304, None, NoStream([]), None, None)

  /** A server that answers conditional requests as section 13.1.2 of RFC 9110 says: when the current
      representation has the given tag, 304 (section 15.4.5) takes the place of the 200. */
  function Conditional(origin: nat -> Reply): Server {
    (n: nat, condition: Option<JsString>) =>
      var reply := origin(n);
      if condition.Some? && reply.Got? && reply.response.status == 200 && reply.response.etag == condition
      then Got(NOT_MODIFIED) else reply
  }

  /** Entity tags identify content: every 200 response with a tag delivers the bytes of that tag, in
      full and within the limit; 304 is only ever an answer to a condition. */
  ghost predicate Identifies(origin: nat -> Reply, content: JsString -> seq<Byte>, opts: Options) {
    forall n :: origin(n).Got? ==>
      && origin(n).response.status != 304
      && (origin(n).response.status == 200 && origin(n).response.etag.Some? ==>
            ReadOutcome(origin(n).response, opts.maxBytes) == Bytes(content(origin(n).response.etag.value)))
  }

  /** The cached JSON is what the bytes of its tag parse to. */
  ghost predicate Coherent<J>(cached: Option<Entry<J>>, content: JsString -> seq<Byte>, parse: seq<Byte> -> Parsed<J>) {
    cached.Some? ==> parse(content(cached.value.etag)) == Value(Some(cached.value.json))
  }

  /** The same outcome, up to the marker that says where it came from. */
  predicate SameAnswer<J(==)>(a: Result<FetchResult<J>, AppError>, b: Result<FetchResult<J>, AppError>) {
    match (a, b)
    case (Ok(x), Ok(y)) => x.status == y.status && x.json == y.json
    case (Err(x), Err(y)) => x == y
    case _ => false
  }

  lemma NotModifiedEqualsFullReply<J>(response: Response, cached: Entry<J>, content: JsString -> seq<Byte>,
                                      opts: Options, parse: seq<Byte> -> Parsed<J>, attempt: nat)
    requires response.status == 200 && response.etag == Some(cached.etag)
    requires ReadOutcome(response, opts.maxBytes) == Bytes(content(cached.etag))
    requires Coherent(Some(cached), content, parse)
    ensures Handle<J>(Got(response), None, false, opts, parse, attempt) ==
            Return(FetchResult(200, Some(cached.json), false), None)
  {
  }

  lemma SameStep<J>(reply: Reply, cached: Option<Entry<J>>, opts: Options, parse: seq<Byte> -> Parsed<J>, attempt: nat)
    requires reply.Got? ==> reply.response.status != 304
    ensures var plain := Handle(reply, None, false, opts, parse, attempt);
            var caching := Handle(reply, cached, true, opts, parse, attempt);
            if plain.Return? then caching.Return? && caching.result == plain.result else caching == plain
  {
  }

  lemma StoredIsCoherent<J>(reply: Reply, cached: Option<Entry<J>>, content: JsString -> seq<Byte>, opts: Options,
                            parse: seq<Byte> -> Parsed<J>, attempt: nat)
    requires reply.Got? && reply.response.status == 200 && reply.response.etag.Some? ==>
               ReadOutcome(reply.response, opts.maxBytes) == Bytes(content(reply.response.etag.value))
    requires reply.Got? ==> reply.response.status == 200 || reply.response.etag.None? || reply.response.status >= 300
    ensures var step := Handle(reply, cached, true, opts, parse, attempt);
            step.Return? ==> Coherent(step.store, content, parse)
  {
  }

  /** Only 200 responses (and errors) carry tags: other successes would be cached under a tag no
      condition speaks about. */
  ghost predicate TagsOnlyOn200(origin: nat -> Reply) {
    forall n :: origin(n).Got? ==>
      origin(n).response.status == 200 || origin(n).response.etag.None? || origin(n).response.status >= 300
  }

  lemma {:induction false} CachedFetchRefinesPlainFrom<J>(origin: nat -> Reply, cached: Option<Entry<J>>,
      content: JsString -> seq<Byte>, opts: Options, parse: seq<Byte> -> Parsed<J>, attempt: nat)
    requires Identifies(origin, content, opts) && TagsOnlyOn200(origin) && Coherent(cached, content, parse)
    requires cached.Some? ==> opts.get
    ensures var caching := FetchFrom(Conditional(origin), cached, true, opts, parse, attempt);
            var plain := FetchFrom(Conditional(origin), None, false, opts, parse, attempt);
            && SameAnswer(caching.result, plain.result) && caching.calls == plain.calls
            && Coherent(caching.store, content, parse)
            && (caching.store.Some? ==> opts.get)
    decreases opts.retries - attempt
  {
    var reply := origin(attempt);
    var asked := Conditional(origin)(attempt, Condition(cached, opts));
    assert Conditional(origin)(attempt, Condition<J>(None, opts)) == reply;
    var plain := Handle<J>(reply, None, false, opts, parse, attempt);
    if asked == reply {
      SameStep(reply, cached, opts, parse, attempt);
      StoredIsCoherent(reply, cached, content, opts, parse, attempt);
      if Retries(plain, opts, attempt) {
        CachedFetchRefinesPlainFrom(origin, cached, content, opts, parse, attempt + 1);
      }
    } else {
      NotModifiedEqualsFullReply(reply.response, cached.value, content, opts, parse, attempt);
    }
  }

  // ----- Without the assumption that bodies arrive whole -----

  /** Entity tags identify what is delivered: whenever the body of a tagged 200 can be read, it is the
      tag's. It may break off or exceed the limit instead. */
  ghost predicate Honest(origin: nat -> Reply, content: JsString -> seq<Byte>, opts: Options) {
    forall n :: origin(n).Got? ==>
      && origin(n).response.status != 304
      && (origin(n).response.status == 200 && origin(n).response.etag.Some? ==>
            var read := ReadOutcome(origin(n).response, opts.maxBytes);
            read.Bytes? ==> read.bytes == content(origin(n).response.etag.value))
  }

  /** The resource does not change while the fetch lasts: all its successes are 200s with one tag. */
  ghost predicate Stable(origin: nat -> Reply, opts: Options, tag: JsString) {
    forall n ::
      origin(n).Got? && (origin(n).response.status < 300 || origin(n).response.status in opts.allowStatuses) ==>
      origin(n).response.status == 200 && origin(n).response.etag == Some(tag)
  }

  lemma {:induction false} StableSuccessIsTheContent<J>(origin: nat -> Reply, content: JsString -> seq<Byte>,
      opts: Options, parse: seq<Byte> -> Parsed<J>, tag: JsString, attempt: nat)
    requires Honest(origin, content, opts) && Stable(origin, opts, tag)
    ensures var result := FetchFrom<J>(Conditional(origin), None, false, opts, parse, attempt).result;
            result.Ok? ==> result.value.status == 200 && result.value.json == JsonOf(parse(content(tag)))
    decreases opts.retries - attempt
  {
    assert Conditional(origin)(attempt, Condition<J>(None, opts)) == origin(attempt);
    var step := Handle<J>(origin(attempt), None, false, opts, parse, attempt);
    if Retries(step, opts, attempt) {
      StableSuccessIsTheContent(origin, content, opts, parse, tag, attempt + 1);
    }
  }

  /** Over connections that may break bodies off: for a resource that is stable during the fetch, what
      succeeds without the cache succeeds with it, with the same JSON and no more calls. (It may also
      succeed where the plain fetch fails, since a 304 has no body to lose.) */
  lemma {:induction false} CacheKeepsSuccessesFrom<J>(origin: nat -> Reply, cached: Option<Entry<J>>,
      content: JsString -> seq<Byte>, opts: Options, parse: seq<Byte> -> Parsed<J>, tag: JsString, attempt: nat)
    requires Honest(origin, content, opts) && Stable(origin, opts, tag) && Coherent(cached, content, parse)
    requires cached.Some? ==> opts.get
    ensures var caching := FetchFrom(Conditional(origin), cached, true, opts, parse, attempt);
            var plain := FetchFrom(Conditional(origin), None, false, opts, parse, attempt);
            && (plain.result.Ok? ==> SameAnswer(caching.result, plain.result))
            && caching.calls <= plain.calls
            && Coherent(caching.store, content, parse)
            && (caching.store.Some? ==> opts.get)
    decreases opts.retries - attempt
  {
    var reply := origin(attempt);
    var asked := Conditional(origin)(attempt, Condition(cached, opts));
    assert Conditional(origin)(attempt, Condition<J>(None, opts)) == reply;
    var plain := Handle<J>(reply, None, false, opts, parse, attempt);
    if asked == reply {
      SameStep(reply, cached, opts, parse, attempt);
      if Retries(plain, opts, attempt) {
        CacheKeepsSuccessesFrom(origin, cached, content, opts, parse, tag, attempt + 1);
      }
    } else {
      StableSuccessIsTheContent(origin, content, opts, parse, tag, attempt);
      MoreCalls<J>(Conditional(origin), opts, parse, attempt);
    }
  }

  lemma {:induction false} MoreCalls<J>(server: Server, opts: Options, parse: seq<Byte> -> Parsed<J>, attempt: nat)
    ensures FetchFrom<J>(server, None, false, opts, parse, attempt).calls > attempt
    decreases opts.retries - attempt
  {
    var step := Handle<J>(server(attempt, Condition<J>(None, opts)), None, false, opts, parse, attempt);
    if Retries(step, opts, attempt) {
      MoreCalls<J>(server, opts, parse, attempt + 1);
    }
  }

  // ----- Runs of fetches sharing one cache -----

  /** A fetch of a resource whose origin behaves in some way while it lasts. */
  datatype Fetch = Fetch(url: JsString, opts: Options, origin: nat -> Reply)

  function CachedRun<J>(entries: map<Key, Entry<J>>, fetches: seq<Fetch>, parse: seq<Byte> -> Parsed<J>)
    : seq<Result<FetchResult<J>, AppError>>
    decreases |fetches|
  {
    if fetches == [] then []
    else
      var f := fetches[0];
      var key := (f.opts.get, f.url);
      var fetched := FetchFrom(Conditional(f.origin), Lookup(entries, key), true, f.opts, parse, 0);
      [fetched.result] + CachedRun(Store(entries, key, fetched.store), fetches[1..], parse)
  }

  function PlainRun<J>(fetches: seq<Fetch>, parse: seq<Byte> -> Parsed<J>): seq<Result<FetchResult<J>, AppError>> {
    if fetches == [] then []
    else
      [FetchFrom<J>(Conditional(fetches[0].origin), None, false, fetches[0].opts, parse, 0).result] +
      PlainRun(fetches[1..], parse)
  }

  /** Bytes of a resource under a tag. */
  type Content = JsString -> JsString -> seq<Byte>

  ghost predicate CoherentCache<J>(entries: map<Key, Entry<J>>, content: Content, parse: seq<Byte> -> Parsed<J>) {
    forall key :: key in entries ==> key.0 && Coherent(Some(entries[key]), content(key.1), parse)
  }

  /** Over any run of fetches, to any resources and with any errors and refusals in between, a shared
      cache changes no answer, as long as tagged replies that do arrive arrive whole. */
  lemma {:induction false} CacheIsInvisible<J>(entries: map<Key, Entry<J>>, fetches: seq<Fetch>, content: Content,
                                               parse: seq<Byte> -> Parsed<J>)
    requires CoherentCache(entries, content, parse)
    requires forall i :: 0 <= i < |fetches| ==>
               && Identifies(fetches[i].origin, content(fetches[i].url), fetches[i].opts)
               && TagsOnlyOn200(fetches[i].origin)
    ensures var caching, plain := CachedRun(entries, fetches, parse), PlainRun(fetches, parse);
            |caching| == |plain| == |fetches| && forall i :: 0 <= i < |fetches| ==> SameAnswer(caching[i], plain[i])
    decreases |fetches|
  {
    if fetches != [] {
      var f := fetches[0];
      var key := (f.opts.get, f.url);
      CachedFetchRefinesPlainFrom(f.origin, Lookup(entries, key), content(f.url), f.opts, parse, 0);
      var fetched := FetchFrom(Conditional(f.origin), Lookup(entries, key), true, f.opts, parse, 0);
      var entries' := Store(entries, key, fetched.store);
      assert CoherentCache(entries', content, parse);
      CacheIsInvisible(entries', fetches[1..], content, parse);
    }
  }

  /** ... and without that, over any run of fetches of resources that are stable while each lasts, it
      spoils no success. */
  lemma {:induction false} CacheSpoilsNoSuccess<J>(entries: map<Key, Entry<J>>, fetches: seq<Fetch>, content: Content,
                                                   parse: seq<Byte> -> Parsed<J>)
    requires CoherentCache(entries, content, parse)
    requires forall f :: f in fetches ==>
               Honest(f.origin, content(f.url), f.opts) && exists tag :: Stable(f.origin, f.opts, tag)
    ensures var caching, plain := CachedRun(entries, fetches, parse), PlainRun(fetches, parse);
            && |caching| == |plain| == |fetches|
            && forall i :: 0 <= i < |fetches| && plain[i].Ok? ==> SameAnswer(caching[i], plain[i])
    decreases |fetches|
  {
    if fetches != [] {
      var f := fetches[0];
      assert f in fetches;
      var tag :| Stable(f.origin, f.opts, tag);
      var key := (f.opts.get, f.url);
      CacheKeepsSuccessesFrom(f.origin, Lookup(entries, key), content(f.url), f.opts, parse, tag, 0);
      var fetched := FetchFrom(Conditional(f.origin), Lookup(entries, key), true, f.opts, parse, 0);
      var entries' := Store(entries, key, fetched.store);
      assert CoherentCache(entries', content, parse);
      CacheSpoilsNoSuccess(entries', fetches[1..], content, parse);
    }
  }

  /** The cache is used: a tagged, complete JSON answer to a GET is remembered, and while the tag stays
      the same, every later fetch gets that JSON from it in one call, without a body. */
  lemma UnchangedIsServedFromTheCache<J>(entries: map<Key, Entry<J>>, first: Fetch, again: Fetch,
                                         parse: seq<Byte> -> Parsed<J>)
    requires first.url == again.url && first.opts.get && again.opts.get
    requires var r := first.origin(0);
             && r.Got? && r.response.status == 200 && 200 !in first.opts.allowStatuses && r.response.etag.Some?
             && Lookup(entries, (true, first.url)).None?
             && !Exceeds(r.response, first.opts.maxBytes) && (r.response.body.Stream? ==> !r.response.body.breaks)
             && parse(WholeBody(r.response)).Value? && parse(WholeBody(r.response)).json.Some?
    requires var r := again.origin(0);
             r.Got? && r.response.status == 200 && r.response.etag == first.origin(0).response.etag
    ensures var json := parse(WholeBody(first.origin(0).response)).json;
            var key := (true, first.url);
            var one := FetchFrom(Conditional(first.origin), Lookup(entries, key), true, first.opts, parse, 0);
            var entries' := Store(entries, key, one.store);
            var two := FetchFrom(Conditional(again.origin), Lookup(entries', key), true, again.opts, parse, 0);
            && one.result == Ok(FetchResult(200, json, false)) && one.calls == 1
            && two.result == Ok(FetchResult(200, json, true)) && two.calls == 1
            && entries'.Keys == entries.Keys + {key}
  {
    ReadsWhatFits(first.origin(0).response, first.opts.maxBytes);
  }

  // ----- Fetches that overlap on one cache -----

  /** A fetch begins by looking up its entry and ends by storing what it got; others begin and end in
      between. */
  datatype Moment =
    | Begin(id: nat, fetch: Fetch)
    | End(id: nat)

  datatype InFlight<J> = InFlight(fetch: Fetch, cached: Option<Entry<J>>)

  datatype Shared<J> = Shared(entries: map<Key, Entry<J>>, flights: map<nat, InFlight<J>>)

  function KeyOf(f: Fetch): Key { (f.opts.get, f.url) }

  function Outcome<J>(flight: InFlight<J>, parse: seq<Byte> -> Parsed<J>): Fetched<J> {
    FetchFrom(Conditional(flight.fetch.origin), flight.cached, true, flight.fetch.opts, parse, 0)
  }

  function Plain<J>(f: Fetch, parse: seq<Byte> -> Parsed<J>): Result<FetchResult<J>, AppError> {
    FetchFrom<J>(Conditional(f.origin), None, false, f.opts, parse, 0).result
  }

  function After<J>(w: Shared<J>, m: Moment, parse: seq<Byte> -> Parsed<J>): Shared<J>
    requires m.End? ==> m.id in w.flights
  {
    match m
    case Begin(id, f) => w.(flights := w.flights[id := InFlight(f, Lookup(w.entries, KeyOf(f)))])
    case End(id) =>
      var flight := w.flights[id];
      Shared(Store(w.entries, KeyOf(flight.fetch), Outcome(flight, parse).store), w.flights - {id})
  }

  predicate Orderly<J>(w: Shared<J>, moments: seq<Moment>, parse: seq<Byte> -> Parsed<J>)
    decreases |moments|
  {
    moments != [] ==>
      && (moments[0].Begin? <==> moments[0].id !in w.flights)
      && Orderly(After(w, moments[0], parse), moments[1..], parse)
  }

  /** Every fetch that ends has the answer that it would have had without the cache. */
  predicate NoneDiffers<J(==)>(w: Shared<J>, moments: seq<Moment>, parse: seq<Byte> -> Parsed<J>)
    requires Orderly(w, moments, parse)
    decreases |moments|
  {
    moments != [] ==>
      && (moments[0].End? ==> var flight := w.flights[moments[0].id];
            SameAnswer(Outcome(flight, parse).result, Plain<J>(flight.fetch, parse)))
      && NoneDiffers(After(w, moments[0], parse), moments[1..], parse)
  }

  ghost predicate Whole(f: Fetch, content: Content) {
    Identifies(f.origin, content(f.url), f.opts) && TagsOnlyOn200(f.origin)
  }

  ghost predicate CoherentFlights<J>(w: Shared<J>, content: Content, parse: seq<Byte> -> Parsed<J>) {
    && CoherentCache(w.entries, content, parse)
    && forall id :: id in w.flights ==>
         var flight := w.flights[id];
         && Whole(flight.fetch, content) && Coherent(flight.cached, content(flight.fetch.url), parse)
         && (flight.cached.Some? ==> flight.fetch.opts.get)
  }

  lemma MomentKeepsCoherence<J>(w: Shared<J>, m: Moment, content: Content, parse: seq<Byte> -> Parsed<J>)
    requires CoherentFlights(w, content, parse) && (m.Begin? ==> Whole(m.fetch, content))
    requires m.End? ==> m.id in w.flights
    ensures CoherentFlights(After(w, m, parse), content, parse)
    ensures m.End? ==> SameAnswer(Outcome(w.flights[m.id], parse).result, Plain<J>(w.flights[m.id].fetch, parse))
  {
    if m.End? {
      var flight := w.flights[m.id];
      var f := flight.fetch;
      CachedFetchRefinesPlainFrom(f.origin, flight.cached, content(f.url), f.opts, parse, 0);
      hide FetchFrom, Identifies, TagsOnlyOn200, Coherent, SameAnswer;
    }
  }

  /** The same over every interleaving of fetches: an entry that was looked up before others stored
      theirs, or that overwrites a newer one, still changes no answer. */
  lemma {:induction false} OverlappingFetchesAreInvisible<J>(w: Shared<J>, moments: seq<Moment>, content: Content,
                                                             parse: seq<Byte> -> Parsed<J>)
    requires CoherentFlights(w, content, parse) && Orderly(w, moments, parse)
    requires forall m :: m in moments && m.Begin? ==> Whole(m.fetch, content)
    ensures NoneDiffers(w, moments, parse)
    decreases |moments|
  {
    if moments != [] {
      hide CoherentFlights, Whole, SameAnswer;
      assert moments[0] in moments;
      MomentKeepsCoherence(w, moments[0], content, parse);
      OverlappingFetchesAreInvisible(After(w, moments[0], parse), moments[1..], content, parse);
    }
  }
}
