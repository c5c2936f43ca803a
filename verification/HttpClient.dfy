/**
 * The HTTP client's retry, redirect and proxy authentication loop, without a cache and with
 * basic and digest authentication. The network's answers are scripts and event arguments.
 */
module HttpClient {
  import opened Util
  import opened HttpText
  import opened HttpParser

  const kMaxRedirects: nat := 5
  const HC_SEE_OTHER: nat := 303
  const HC_PROXY_AUTHENTICATION_REQUIRED: nat := 407
  const HC_INTERNAL_SERVER_ERROR: nat := 500

  datatype Verb = HV_GET | HV_POST | HV_PUT | HV_DELETE | HV_CONNECT | HV_HEAD
  datatype RedirectAction = REDIRECT_DEFAULT | REDIRECT_ALWAYS | REDIRECT_NEVER
  datatype AuthResult = HAR_RESPONSE | HAR_IGNORE | HAR_CREDENTIALS

  /** What the pool answers when asked for a connected stream. */
  datatype Stream = Refused | Opening | Open

  /** The part of a response the loop looks at; challenges are the proxy's authentication methods. */
  datatype Response = Response(scode: nat, location: bool, challenges: seq<string>)

  const NoResponse: Response := Response(HC_INTERNAL_SERVER_ERROR, false, [])

  datatype Phase = Idle | Resolving | Connecting | Sending | Receiving | Done

  /** How a lookup has ended, or a phase of the connection, and what has been received. */
  datatype Event = Event(ok: bool, err: HttpError, response: Response)

  predicate IsRedirection(code: nat) { 300 <= code < 400 }

  predicate IsInformational(code: nat) { 100 <= code < 200 }

  /** The first challenge for basic or digest authentication, in letters of any case. */
  predicate FirstSupported(challenges: seq<string>, k: nat)
    requires k < |challenges|
  {
    && (EqualsIgnoreCase(challenges[k], "basic") || EqualsIgnoreCase(challenges[k], "digest"))
    && forall i :: 0 <= i < k ==>
         !EqualsIgnoreCase(challenges[i], "basic") && !EqualsIgnoreCase(challenges[i], "digest")
  }

  predicate AnswersFirst(challenges: seq<string>, context: Option<string>) {
    context.Some?
    && exists k :: 0 <= k < |challenges| && FirstSupported(challenges, k) && context.value == challenges[k]
  }

  predicate IsSupported(scheme: string) { EqualsIgnoreCase(scheme, "basic") || EqualsIgnoreCase(scheme, "digest") }

  /** The basic and digest part of HttpAuthenticate: the verdict and the context afterwards. */
  function Authenticate(scheme: string, hasUser: bool, context: Option<string>): (r: (AuthResult, Option<string>))
    ensures r.0 == HAR_RESPONSE <==> context == None && hasUser && IsSupported(scheme)
    ensures r.0 == HAR_CREDENTIALS <==>
      IsSupported(scheme) && (context == Some(scheme) || (context == None && !hasUser))
    ensures r.1 == if r.0 == HAR_RESPONSE then Some(scheme) else context
  {
    if context.Some? && context.value != scheme then (HAR_IGNORE, context)
    else if IsSupported(scheme) then
      if context.Some? || !hasUser then (HAR_CREDENTIALS, context) else (HAR_RESPONSE, Some(scheme))
    else (HAR_IGNORE, context)
  }

  /** How many connections may follow the current one. */
  function Budget(retries: nat, redirects: nat, context: Option<string>, attempt: nat): nat
    requires redirects <= kMaxRedirects && attempt <= retries
  {
    ((kMaxRedirects - redirects) * 2 + (if context == None then 1 else 0)) * (retries + 1) + (retries - attempt)
  }

  /** The most connections one request can take: every redirect, with and without credentials, with all retries. */
  function MaxConnections(retries: nat): nat { (kMaxRedirects + 1) * 2 * (retries + 1) }

  lemma BudgetOfFresh(retries: nat)
    ensures 1 + Budget(retries, 0, None, 0) == MaxConnections(retries)
  {
    assert (kMaxRedirects * 2 + 1) * (retries + 1) + (retries + 1) == MaxConnections(retries);
  }

  lemma RedirectCosts(retries: nat, redirects: nat, context: Option<string>, attempt: nat)
    requires redirects < kMaxRedirects && attempt <= retries
    ensures 1 + Budget(retries, redirects + 1, None, 0) <= Budget(retries, redirects, context, attempt)
  {
    var k, n := (kMaxRedirects - redirects) * 2, retries + 1;
    assert (k - 1) * n + n == k * n;
    assert context == None ==> (k + 1) * n == k * n + n;
  }

  lemma CredentialsCost(retries: nat, redirects: nat, scheme: string, attempt: nat)
    requires redirects <= kMaxRedirects && attempt <= retries
    ensures 1 + Budget(retries, redirects, Some(scheme), 0) <= Budget(retries, redirects, None, attempt)
  {
    var k, n := (kMaxRedirects - redirects) * 2, retries + 1;
    assert (k + 1) * n == k * n + n;
  }

  lemma RetryCosts(retries: nat, redirects: nat, context: Option<string>, attempt: nat)
    requires redirects <= kMaxRedirects && attempt < retries
    ensures 1 + Budget(retries, redirects, context, attempt + 1) == Budget(retries, redirects, context, attempt)
  {
  }

  class HttpClient {
    const retries_: nat
    const redirect_action_: RedirectAction
    const httpsProxy: bool
    const hasUser: bool
    var phase_: Phase              // what base_ and resolver_ are doing
    var attempt_: nat
    var redirects_: nat
    var context_: Option<string>
    var unresolved_: bool          // server_ is still a name
    var verb_: Verb
    var hasDocument_: bool
    var response_: Response
    // Environment
    var streams_: seq<Stream>      // the pool's answers; an empty script opens slowly
    var rewinds_: seq<bool>        // whether the document rewinds; an empty script does
    var redirectUnresolved_: bool  // redirects lead to names rather than addresses
    var signals_: seq<HttpError>   // SignalHttpClientComplete
    // History
    var connections_: nat
    ghost var history_: seq<Event>   // the events of a request

    predicate Counted()
      reads this
    {
      redirects_ <= kMaxRedirects && attempt_ <= retries_
    }

    function Left(): nat
      requires Counted()
      reads this
    {
      Budget(retries_, redirects_, context_, attempt_)
    }

    /** Between events: connections made and still possible stay within the bound; one signal at most. */
    ghost predicate Valid()
      reads this
    {
      && Counted()
      && (phase_ == Idle ==> connections_ == 0 && redirects_ == 0 && context_ == None)
      && (phase_ == Resolving ==> connections_ + 1 + Left() <= MaxConnections(retries_) && unresolved_)
      && (phase_ != Idle ==> connections_ + Left() <= MaxConnections(retries_))
      && |signals_| == (if phase_ == Done then 1 else 0)
    }

    constructor (retries: nat, action: RedirectAction, httpsProxy: bool, hasUser: bool, unresolved: bool, verb: Verb,
                 hasDocument: bool, streams: seq<Stream>, rewinds: seq<bool>, redirectUnresolved: bool)
      ensures Valid() && phase_ == Idle && retries_ == retries && redirect_action_ == action
      ensures this.httpsProxy == httpsProxy && this.hasUser == hasUser && unresolved_ == unresolved
      ensures verb_ == verb && hasDocument_ == hasDocument && response_ == Response(500, false, [])
      ensures signals_ == [] && history_ == []
    {
      retries_, redirect_action_, this.httpsProxy, this.hasUser := retries, action, httpsProxy, hasUser;
      phase_, attempt_, redirects_, context_, unresolved_ := Idle, 0, 0, None, unresolved;
      verb_, hasDocument_, response_ := verb, hasDocument, NoResponse;
      streams_, rewinds_, redirectUnresolved_, signals_, connections_ := streams, rewinds, redirectUnresolved, [], 0;
      history_ := [];
    }

    predicate ShouldRedirect()
      reads this
    {
      && redirect_action_ != REDIRECT_NEVER && IsRedirection(response_.scode) && response_.location
      && redirects_ < kMaxRedirects
      && (redirect_action_ == REDIRECT_ALWAYS || response_.scode == HC_SEE_OTHER || verb_ == HV_HEAD || verb_ == HV_GET)
    }

    /** Nothing meaningful has come from the server, and there are attempts left. */
    predicate Retryable(err: HttpError)
      reads this
    {
      && err in {HE_DISCONNECTED, HE_CONNECT_FAILED, HE_SOCKET_ERROR}
      && response_.scode == HC_INTERNAL_SERVER_ERROR && attempt_ < retries_
    }

    /** What the pool will answer next. */
    function NextStream(): Stream
      reads `streams_
    {
      if streams_ == [] then Opening else streams_[0]
    }

    /** A connection was asked for: the name has to be resolved first, or the pool has answered. */
    twostate predicate Asked(unresolved: bool)
      reads this
    {
      var stream := old(NextStream());
      if unresolved then phase_ == Resolving && connections_ == old(connections_) && streams_ == old(streams_)
      else
        && connections_ > old(connections_)
        && (stream != Refused ==>
              && connections_ == old(connections_) + 1 && phase_ == (if stream == Open then Sending else Connecting)
              && streams_ == if old(streams_) == [] then [] else old(streams_)[1..])
    }

    /** The pool will not refuse the next connection. */
    predicate Granted()
      reads this
    {
      streams_ == [] || streams_[0] != Refused
    }

    twostate predicate SameRequest()
      reads this
    {
      && redirects_ == old(redirects_) && context_ == old(context_) && response_ == old(response_)
      && verb_ == old(verb_) && hasDocument_ == old(hasDocument_) && unresolved_ == old(unresolved_)
    }

    predicate Supported()
      reads `response_
    {
      hasUser && exists k :: 0 <= k < |response_.challenges| && FirstSupported(response_.challenges, k)
    }

    /** The request can be sent again: its document, if there is one, will rewind. */
    predicate Replayable()
      reads `hasDocument_, `rewinds_
    {
      !hasDocument_ || rewinds_ == [] || rewinds_[0]
    }

    /** Rewinds the request document, if there is one. */
    method Replay() returns (ok: bool)
      modifies `rewinds_
      ensures ok == old(Replayable())
      ensures rewinds_ == if !hasDocument_ || old(rewinds_) == [] then old(rewinds_) else old(rewinds_)[1..]
    {
      if !hasDocument_ || rewinds_ == [] { return true; }
      ok := rewinds_[0];
      rewinds_ := rewinds_[1..];
    }

    /** Begins the request, or begins it again after a redirect or a challenge. */
    method Start()
      requires phase_ !in {Resolving, Done} && redirects_ <= kMaxRedirects && signals_ == []
      requires connections_ + 1 + Budget(retries_, redirects_, context_, 0) <= MaxConnections(retries_)
      modifies this
      ensures history_ == old(history_)
      ensures Valid() && phase_ != Idle && Left() <= Budget(retries_, old(redirects_), old(context_), 0)
      ensures Asked(old(unresolved_))
      ensures old(unresolved_ || Granted()) ==> attempt_ == 0 && SameRequest()
      decreases Budget(retries_, redirects_, context_, 0), 3
    {
      attempt_ := 0;
      Connect();
    }

    /** Asks for a connection; a refusal is reported at once. */
    method Connect()
      requires Counted() && signals_ == [] && connections_ + 1 + Left() <= MaxConnections(retries_)
      modifies this
      ensures history_ == old(history_)
      ensures Valid() && phase_ != Idle && Left() <= old(Left())
      ensures Asked(old(unresolved_))
      ensures old(unresolved_ || Granted()) ==> attempt_ == old(attempt_) && SameRequest()
      // A refusal is a failed connection.
      ensures old(!unresolved_ && !Granted()) ==>
        var again, replays := old(response_.scode == 500 && attempt_ < retries_), old(Replayable());
        && (again && replays ==> connections_ >= old(connections_) + 2)
        && (again && !replays ==> phase_ == Done && signals_ == [HE_STREAM])
        && (!again ==> phase_ == Done && signals_ == [HE_CONNECT_FAILED])
      decreases Left(), 2
    {
      if unresolved_ {
        phase_ := Resolving;
        return;
      }
      var stream := if streams_ == [] then Opening else streams_[0];
      streams_ := if streams_ == [] then [] else streams_[1..];
      connections_ := connections_ + 1;
      phase_ := Connecting;
      match stream {
        case Refused => OnHttpComplete(HM_CONNECT, HE_CONNECT_FAILED);
        case Opening =>
        case Open => phase_ := Sending;
      }
    }

    /** The name lookup has finished. */
    method OnResolveResult(ok: bool)
      requires Valid() && phase_ == Resolving
      modifies this
      ensures history_ == old(history_)
      ensures Valid() && phase_ != Idle && Left() <= old(Left())
      // A failed lookup is a failed connection.
      ensures var again := old(response_.scode == 500 && attempt_ < retries_);
        var replays := old(!hasDocument_ || rewinds_ == [] || rewinds_[0]);
        && (ok ==> Asked(false))
        && (!ok && again && replays ==> Asked(true))
        && (!ok && again && !replays ==> phase_ == Done && signals_ == [HE_STREAM])
        && (!ok && !again ==> phase_ == Done && signals_ == [HE_CONNECT_FAILED])
    {
      if !ok {
        OnHttpComplete(HM_CONNECT, HE_CONNECT_FAILED);
      } else {
        unresolved_ := false;
        Connect();
      }
    }

    /**
     * What a final answer leads to, by its code. From 300 to 399, with a location and fewer than
     * five redirects made, it is followed: always, never, or for 303, GET and HEAD. For 407 from
     * an HTTPS proxy the first supported challenge is answered, once. Anything else is reported.
     */
    twostate predicate Answered()
      reads this
    {
      var code := old(response_.scode);
      var replays := old(!hasDocument_ || rewinds_ == [] || rewinds_[0]);
      var follow := 300 <= code <= 399 && old(response_.location) && old(redirects_) < 5
        && match redirect_action_ {
             case REDIRECT_ALWAYS => true
             case REDIRECT_NEVER => false
             case REDIRECT_DEFAULT => code == 303 || old(verb_) == HV_GET || old(verb_) == HV_HEAD
           };
      var answer := !follow && code == 407 && httpsProxy && hasUser && old(context_) == None
        && exists k :: 0 <= k < |old(response_).challenges| && FirstSupported(old(response_).challenges, k);
      if follow && (code == 303 || replays) then
        && Asked(old(redirectUnresolved_))
        && (old(redirectUnresolved_ || Granted()) ==>
              && redirects_ == old(redirects_) + 1 && context_ == None && attempt_ == 0
              && response_ == Response(500, false, [])
              && verb_ == (if code == 303 then HV_GET else old(verb_))
              && hasDocument_ == (code != 303 && old(hasDocument_)))
      else if answer && replays then
        && Asked(old(unresolved_))
        && (old(unresolved_ || Granted()) ==>
              && redirects_ == old(redirects_) && attempt_ == 0 && response_ == Response(500, false, [])
              && verb_ == old(verb_) && hasDocument_ == old(hasDocument_)
              && AnswersFirst(old(response_).challenges, context_))
      else
        && phase_ == Done && signals_ == [if follow || answer then HE_STREAM else HE_NONE]
        && connections_ == old(connections_)
    }

    /** SignalHttpClientComplete. */
    method Report(error: HttpError)
      modifies `phase_, `signals_
      ensures phase_ == Done && signals_ == old(signals_) + [error]
    {
      phase_ := Done;
      signals_ := signals_ + [error];
    }

    /** A final response is complete. */
    method OnResponse()
      requires Counted() && signals_ == [] && phase_ !in {Idle, Done}
        && connections_ + Left() <= MaxConnections(retries_)
      modifies this
      ensures history_ == old(history_)
      ensures Valid() && phase_ != Idle && Left() <= old(Left()) && (Left() < old(Left()) || phase_ == Done)
      ensures Answered() && connections_ >= old(connections_) && (phase_ == Resolving ==> unresolved_)
      decreases Left(), 0
    {
      hide Budget, MaxConnections, FirstSupported, AnswersFirst;
      var error := HE_NONE;
      if ShouldRedirect() {
        var replayed := FollowRedirect();
        if replayed {
          RedirectCosts(retries_, redirects_, context_, attempt_);
          redirects_ := redirects_ + 1;
          context_ := None;
          response_ := NoResponse;
          phase_ := Connecting;
          Start();
          return;
        }
        error := HE_STREAM;
      } else if response_.scode == HC_PROXY_AUTHENTICATION_REQUIRED && httpsProxy {
        var answered;
        answered, error := AnswerChallenge();
        if answered {
          response_ := NoResponse;
          phase_ := Connecting;
          Start();
          return;
        }
      }
      Report(error);
    }

    /** One of the connection's phases has ended. */
    method OnHttpComplete(mode: HttpMode, err: HttpError)
      requires Counted() && signals_ == [] && phase_ !in {Idle, Done}
        && connections_ + Left() <= MaxConnections(retries_)
      modifies this
      ensures history_ == old(history_)
      ensures Valid() && phase_ != Idle && Left() <= old(Left())
      // Each ending brings the request nearer to its own, except that informational responses may be many.
      ensures Left() < old(Left()) || phase_ == Done
        || (mode == HM_CONNECT && phase_ == Sending) || (mode != HM_CONNECT && phase_ == Receiving)
      ensures phase_ == Receiving && Left() == old(Left()) ==> mode == HM_SEND || IsInformational(old(response_).scode)
      // A connection that brought nothing is tried again, while there are attempts left.
      ensures var again := err in {HE_DISCONNECTED, HE_CONNECT_FAILED, HE_SOCKET_ERROR}
          && old(response_.scode == 500 && attempt_ < retries_);
        var replays := old(!hasDocument_ || rewinds_ == [] || rewinds_[0]);
        && (again && replays ==> Asked(old(unresolved_)))
        && (again && replays && old(unresolved_ || Granted()) ==> attempt_ == old(attempt_) + 1 && SameRequest())
        && (again && !replays ==> phase_ == Done && signals_ == [HE_STREAM] && connections_ == old(connections_))
        && (err != HE_NONE && !again ==> phase_ == Done && signals_ == [err] && connections_ == old(connections_))
      // The request is sent once connected; its answer is read, informational ones before the final one.
      ensures err == HE_NONE && mode == HM_CONNECT ==> phase_ == Sending && connections_ == old(connections_)
      ensures err == HE_NONE && mode == HM_SEND ==> phase_ == Receiving && connections_ == old(connections_)
      ensures err == HE_NONE && mode !in {HM_CONNECT, HM_SEND} && 100 <= old(response_.scode) < 200 ==>
        phase_ == Receiving && connections_ == old(connections_) && response_ == old(response_)
      // A final answer: followed, challenged or reported.
      ensures err == HE_NONE && mode !in {HM_CONNECT, HM_SEND} && !(100 <= old(response_.scode) < 200) ==> Answered()
      ensures connections_ >= old(connections_) && (phase_ == Resolving ==> unresolved_)
      decreases Left(), 1
    {
      hide Budget, MaxConnections, Answered;
      var error := err;
      if Retryable(err) {
        RetryCosts(retries_, redirects_, context_, attempt_);
        attempt_ := attempt_ + 1;
        var replayed := Replay();
        if replayed {
          Connect();
          return;
        }
        error := HE_STREAM;
      } else if err != HE_NONE {
      } else if mode == HM_CONNECT {
        phase_ := Sending;
        return;
      } else if mode == HM_SEND || IsInformational(response_.scode) {
        phase_ := Receiving;
        return;
      } else {
        OnResponse();
        return;
      }
      Report(error);
    }

    /** Points the request at the new location; a document must be sent again. */
    method FollowRedirect() returns (replayed: bool)
      modifies `unresolved_, `verb_, `hasDocument_, `rewinds_
      ensures response_.scode == HC_SEE_OTHER ==> replayed && verb_ == HV_GET && !hasDocument_
      ensures response_.scode != HC_SEE_OTHER ==> verb_ == old(verb_) && hasDocument_ == old(hasDocument_)
      ensures replayed == old(response_.scode == HC_SEE_OTHER || Replayable()) && unresolved_ == redirectUnresolved_
    {
      unresolved_ := redirectUnresolved_;
      if response_.scode == HC_SEE_OTHER {
        verb_ := HV_GET;
        hasDocument_ := false;
        replayed := true;
      } else {
        replayed := Replay();
      }
    }

    /** Goes through the proxy's challenges until one is answered or credentials prove useless. */
    method AnswerChallenge() returns (answered: bool, error: HttpError)
      requires Counted()
      modifies `context_, `rewinds_
      ensures Counted() && (answered || Left() <= old(Left()))
      ensures answered ==> 1 + Budget(retries_, redirects_, context_, 0) <= old(Left())
      ensures old(context_).Some? ==> !answered && context_ == old(context_)
      ensures answered ==> AnswersFirst(response_.challenges, context_)
      ensures answered <==> old(context_) == None && Supported() && old(Replayable())
      ensures error == if old(context_) == None && Supported() && !old(Replayable()) then HE_STREAM else HE_NONE
    {
      error := HE_NONE;
      for i := 0 to |response_.challenges|
        invariant Left() <= old(Left())
        invariant old(context_).Some? ==> context_ == old(context_)
        invariant context_ == None ==> old(context_) == None
        invariant old(context_) == None && context_ == None ==>
          && rewinds_ == old(rewinds_) && error == HE_NONE
          && (hasUser ==> forall k :: 0 <= k < i ==> !IsSupported(response_.challenges[k]))
        invariant old(context_).Some? ==> error == HE_NONE
        invariant old(context_) == None && context_.Some? ==> error == HE_STREAM && Supported() && !old(Replayable())
      {
        var (result, context) := Authenticate(response_.challenges[i], hasUser, context_);
        if result == HAR_RESPONSE {
          assert FirstSupported(response_.challenges, i);
          CredentialsCost(retries_, redirects_, context.value, attempt_);
        }
        context_ := context;
        if result == HAR_RESPONSE {
          var replayed := Replay();
          if replayed { return true, HE_NONE; }
          error := HE_STREAM;
        } else if result == HAR_CREDENTIALS {
          break;
        }
      }
      return false, error;
    }
  }

  // ---- Whole requests ----------------------------------------------------

  /** However a request goes, it takes so many connections at most, and is reported at most once. */
  lemma RequestIsBounded(c: HttpClient)
    requires c.Valid()
    ensures c.connections_ <= 6 * 2 * (c.retries_ + 1)
    ensures |c.signals_| <= 1
  {
    BudgetOfFresh(c.retries_);
  }

  /** One event ends what the client is waiting for; a request that is done is left alone. */
  method Handle(c: HttpClient, e: Event)
    requires c.Valid() && c.phase_ != Idle
    modifies c
    ensures c.Valid() && c.phase_ != Idle && c.history_ == old(c.history_) + [e]
    ensures old(c.phase_) == Done ==> c.phase_ == Done && c.signals_ == old(c.signals_)
    ensures old(c.phase_) == Resolving && e.ok ==> c.connections_ > old(c.connections_)
    ensures old(c.phase_) == Connecting && e.err == HE_NONE ==> c.phase_ == Sending
    ensures old(c.phase_) == Sending && e.err == HE_NONE ==> c.phase_ == Receiving
    // What has been received decides: success is reported at once, an informational answer waited out.
    ensures old(c.phase_) == Receiving && e.err == HE_NONE && 200 <= e.response.scode < 300 ==>
      c.phase_ == Done && c.signals_ == [HE_NONE]
    ensures old(c.phase_) == Receiving && e.err == HE_NONE && 100 <= e.response.scode < 200 ==>
      c.phase_ == Receiving && c.response_ == e.response
  {
    hide Budget, MaxConnections, AnswersFirst, FirstSupported;
    match c.phase_ {
      case Resolving => c.OnResolveResult(e.ok);
      case Connecting => c.OnHttpComplete(HM_CONNECT, e.err);
      case Sending => c.OnHttpComplete(HM_SEND, e.err);
      case Receiving =>
        c.response_ := e.response;
        c.OnHttpComplete(HM_RECV, e.err);
      case _ =>
    }
    c.history_ := c.history_ + [e];
  }

  /** A request from its start through any events: each ends what the client is waiting for. */
  method RunRequest(c: HttpClient, events: seq<Event>)
    requires c.Valid() && c.phase_ == Idle && c.history_ == []
    modifies c
    ensures c.Valid() && c.connections_ <= 6 * 2 * (c.retries_ + 1) && |c.signals_| <= 1
    ensures c.history_ == events && (c.phase_ == Done <==> |c.signals_| == 1)
  {
    BudgetOfFresh(c.retries_);
    c.Start();
    for i := 0 to |events|
      invariant c.Valid() && c.phase_ != Idle && c.history_ == events[..i]
    {
      Handle(c, events[i]);
    }
    RequestIsBounded(c);
  }
}
