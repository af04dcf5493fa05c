/** The audit-log read query of the admin screens: request validation, the
    filters it conjoins, the newest-first order, and the escaping of the
    actor search term for `LIKE`. Nothing here changes state. */
module AuditLog {
  import opened Common
  import opened SqlLike
  import opened Sorting

  /** An audit event as the query sees it. `actorStrings` are the strings
      an actor search compares against: the related user's name, email and
      username and the payload's actor name, email and username. */
  datatype AuditEvent = AuditEvent(
    id: int,
    eventType: string,
    conversationId: Option<int>,
    occurredAt: int,
    actorStrings: seq<string>)

  /** The query string; dates are instants in seconds (UTC). */
  datatype AuditRequest = AuditRequest(
    perPage: Input<int>,
    conversationId: Input<int>,
    eventType: Input<string>,
    occurredFrom: Input<int>,
    occurredTo: Input<int>,
    actor: Input<string>)

  /** The request fields a validation error is reported on. */
  datatype Field = PerPage | ConversationId | OccurredFrom | Actor

  const DefaultPerPage := 50
  const MaxPerPage := 200
  const MaxActorLength := 255
  const SecondsPerDay := 86400

  // ---------------------------------------------------------------------
  // Validation

  /** `per_page` is `sometimes|integer|min:1|max:200` (so an explicit null
      fails), `conversation_id` must name a known conversation, `actor` is
      at most 255 characters, and `occurred_from` must not be later than
      `occurred_to` when both are filled. */
  function ValidationErrors(req: AuditRequest, knownConversations: set<int>): set<Field>
  {
    (if req.perPage.Null? || (req.perPage.Given? && !(1 <= req.perPage.value <= MaxPerPage))
     then {PerPage} else {})
    + (if req.conversationId.Given? && req.conversationId.value !in knownConversations
       then {ConversationId} else {})
    + (if req.actor.Given? && !Blank(req.actor.value) && |req.actor.value| > MaxActorLength
       then {Actor} else {})
    + (if req.occurredFrom.Given? && req.occurredTo.Given? && req.occurredFrom.value > req.occurredTo.value
       then {OccurredFrom} else {})
  }

  // ---------------------------------------------------------------------
  // Days

  function StartOfDay(t: int): (r: int)
    ensures r <= t < r + SecondsPerDay && r % SecondsPerDay == 0
  {
    (t / SecondsPerDay) * SecondsPerDay
  }

  /** The last second of the day of `t`. */
  function EndOfDay(t: int): (r: int)
    ensures r - SecondsPerDay < t <= r && (r + 1) % SecondsPerDay == 0
  {
    StartOfDay(t) + SecondsPerDay - 1
  }

  function Day(t: int): int {
    t / SecondsPerDay
  }

  /** The date bounds are whole days: an instant passes the lower bound
      exactly when its day is not before the day of `from`, and the upper
      bound exactly when its day is not after the day of `to`. */
  lemma DayWindow(t: int, from: int, to: int)
    ensures t >= StartOfDay(from) <==> Day(t) >= Day(from)
    ensures t <= EndOfDay(to) <==> Day(t) <= Day(to)
  {
    var q, m := t / SecondsPerDay, t % SecondsPerDay;
    assert t == q * SecondsPerDay + m && 0 <= m < SecondsPerDay;
    var d, e := from / SecondsPerDay, to / SecondsPerDay;
    assert StartOfDay(from) == d * SecondsPerDay;
    assert EndOfDay(to) == e * SecondsPerDay + SecondsPerDay - 1;
    if q >= d {
      assert q * SecondsPerDay >= d * SecondsPerDay;
    } else {
      assert q * SecondsPerDay <= (d - 1) * SecondsPerDay;
    }
    if q <= e {
      assert q * SecondsPerDay <= e * SecondsPerDay;
    } else {
      assert q * SecondsPerDay >= (e + 1) * SecondsPerDay;
    }
  }

  // ---------------------------------------------------------------------
  // The actor search term

  function CountWildcards(s: string): (n: nat)
    ensures n <= |s|
  {
    if s == [] then 0 else (if IsWildcard(s[0]) then 1 else 0) + CountWildcards(s[1..])
  }

  /** `addcslashes($actor, '%_')`: a backslash before every `%` and `_`. */
  function EscapeLike(s: string): (r: string)
    ensures |r| == |s| + CountWildcards(s)
    ensures r != [] ==> !IsWildcard(r[0])
  {
    if s == [] then []
    else (if IsWildcard(s[0]) then ['\\', s[0]] else [s[0]]) + EscapeLike(s[1..])
  }

  /** Drops each backslash that directly precedes a `%` or `_`. */
  function DropEscapes(r: string): string {
    if r == [] then []
    else if |r| >= 2 && r[0] == '\\' && IsWildcard(r[1]) then [r[1]] + DropEscapes(r[2..])
    else [r[0]] + DropEscapes(r[1..])
  }

  /** Every `%` and `_` of the escaped term sits right after a backslash. */
  lemma {:induction false} EscapedWildcardsArePreceded(s: string)
    ensures forall i :: 0 <= i < |EscapeLike(s)| && IsWildcard(EscapeLike(s)[i]) ==>
              i > 0 && EscapeLike(s)[i - 1] == '\\'
    decreases |s|
  {
    if s != [] {
      EscapedWildcardsArePreceded(s[1..]);
      var head := if IsWildcard(s[0]) then ['\\', s[0]] else [s[0]];
      var r := EscapeLike(s);
      var tail := EscapeLike(s[1..]);
      assert r == head + tail;
      forall i | 0 <= i < |r| && IsWildcard(r[i]) ensures i > 0 && r[i - 1] == '\\' {
        if i < |head| {
          assert r[i] == head[i];
          assert IsWildcard(s[0]) && i == 1;
          assert r[0] == head[0] == '\\';
        } else {
          var k := i - |head|;
          assert r[i] == tail[k] && IsWildcard(tail[k]);
          assert r[i - 1] == tail[k - 1];
        }
      }
    }
  }

  /** Escaping only inserts: removing the inserted backslashes gives the
      term back, characters in order. */
  lemma {:induction false} EscapeLikeKeepsCharacters(s: string)
    ensures DropEscapes(EscapeLike(s)) == s
    decreases |s|
  {
    if s != [] {
      EscapeLikeKeepsCharacters(s[1..]);
      var tail := EscapeLike(s[1..]);
      if IsWildcard(s[0]) {
        assert EscapeLike(s) == ['\\', s[0]] + tail;
        assert (['\\', s[0]] + tail)[2..] == tail;
      } else {
        assert EscapeLike(s) == [s[0]] + tail;
        assert ([s[0]] + tail)[1..] == tail;
      }
    }
  }

  /** The evidently intended escape: `%`, `_` and the escape character
      `\` itself each get a backslash. */
  function EscapeLikeStrict(s: string): (r: string)
    ensures |r| >= |s|
  {
    if s == [] then []
    else (if IsWildcard(s[0]) || s[0] == '\\' then ['\\', s[0]] else [s[0]]) + EscapeLikeStrict(s[1..])
  }

  /** Reads an escaped term back: a backslash stands for the character
      after it. */
  function Unescape(r: string): string {
    if r == [] then []
    else if |r| >= 2 && r[0] == '\\' then [r[1]] + Unescape(r[2..])
    else [r[0]] + Unescape(r[1..])
  }

  /** The strict escape only inserts backslashes: reading it back gives the
      term, whatever characters it holds. */
  lemma {:induction false} StrictEscapeRoundTrip(s: string)
    ensures Unescape(EscapeLikeStrict(s)) == s
    decreases |s|
  {
    if s != [] {
      StrictEscapeRoundTrip(s[1..]);
      var tail := EscapeLikeStrict(s[1..]);
      if IsWildcard(s[0]) || s[0] == '\\' {
        assert EscapeLikeStrict(s) == ['\\', s[0]] + tail;
        assert (['\\', s[0]] + tail)[2..] == tail;
      } else {
        assert EscapeLikeStrict(s) == [s[0]] + tail;
        assert ([s[0]] + tail)[1..] == tail;
      }
    }
  }

  /** Read as a pattern, a strictly escaped term is its own characters. */
  lemma {:induction false} StrictEscapeTokens(s: string, rest: string)
    ensures Tokens(EscapeLikeStrict(s) + rest) == Lits(s) + Tokens(rest)
    decreases |s|
  {
    if s == [] {
      assert EscapeLikeStrict(s) + rest == rest;
    } else {
      StrictEscapeTokens(s[1..], rest);
      StrictEscapeStep(s, rest);
      LitsHead(s);
    }
  }

  /** The first character of a strictly escaped term reads as itself. */
  lemma StrictEscapeStep(s: string, rest: string)
    requires s != []
    ensures Tokens(EscapeLikeStrict(s) + rest) == [Lit(s[0])] + Tokens(EscapeLikeStrict(s[1..]) + rest)
  {
    var tail := EscapeLikeStrict(s[1..]) + rest;
    if IsWildcard(s[0]) || s[0] == '\\' {
      var p := ['\\', s[0]] + tail;
      assert EscapeLikeStrict(s) + rest == p;
      assert p[0] == '\\' && p[1] == s[0] && p[2..] == tail;
      TokensEscapedHead(p);
    } else {
      var p := [s[0]] + tail;
      assert EscapeLikeStrict(s) + rest == p;
      assert p[0] == s[0] && p[1..] == tail && HeadToken(s[0]) == Lit(s[0]);
      TokensUnescapedHead(p);
    }
  }

  /** The pattern the actor filter uses, built as the controller builds
      it: the term escaped by `addcslashes($actor, '%_')`, between `%`s. */
  function ActorPattern(actor: string): string {
    Wrapped(EscapeLike(actor))
  }

  /** The evidently intended pattern: the strictly escaped term between `%`s. */
  function IntendedActorPattern(actor: string): string {
    Wrapped(EscapeLikeStrict(actor))
  }

  /** The intended pattern finds exactly the strings that contain the
      actor term, whatever characters the term holds. */
  lemma IntendedActorPatternIsSubstringSearch(t: string, actor: string)
    ensures Like(t, IntendedActorPattern(actor)) <==> Contains(t, actor)
  {
    var e := EscapeLikeStrict(actor);
    assert Wrapped(e)[1..] == e + "%";
    StrictEscapeTokens(actor, "%");
    assert Tokens("%") == [AnyRun] + Tokens([]);
    assert Tokens(Wrapped(e)) == [AnyRun] + (Lits(actor) + [AnyRun]);
    ExactSubstring(t, actor);
  }

  /** On every term without a backslash the two escapes agree. */
  lemma {:induction false} EscapesAgreeWithoutBackslash(s: string)
    requires '\\' !in s
    ensures EscapeLike(s) == EscapeLikeStrict(s)
    decreases |s|
  {
    if s != [] {
      EscapesAgreeWithoutBackslash(s[1..]);
    }
  }

  /** For a term without a backslash, the pattern as written finds exactly
      the strings that contain the term: `%` and `_` in it are matched
      literally. */
  lemma ActorPatternWithoutBackslash(t: string, actor: string)
    requires '\\' !in actor
    ensures Like(t, ActorPattern(actor)) <==> Contains(t, actor)
  {
    EscapesAgreeWithoutBackslash(actor);
    IntendedActorPatternIsSubstringSearch(t, actor);
  }

  /** As written, the term `\` becomes the pattern `%\%`, whose `\%` is a
      literal `%`: it finds exactly the strings that end with `%`. */
  lemma BackslashActorMatchesTrailingPercent(t: string)
    ensures ActorPattern("\\") == "%\\%"
    ensures Like(t, ActorPattern("\\")) <==> |t| > 0 && t[|t| - 1] == '%'
  {
    assert EscapeLike("\\") == "\\";
    var p := ActorPattern("\\");
    assert p == "%\\%";
    assert Tokens(p) == [AnyRun] + [Lit('%')] by {
      assert p[1..] == "\\%";
      assert p[1..][2..] == [];
    }
    AnyRunPrefix(t, [Lit('%')]);
    assert [Lit('%')][1..] == [];
    forall k | 0 <= k <= |t|
      ensures MatchTokens(t[k..], [Lit('%')]) <==> k == |t| - 1 && t[|t| - 1] == '%'
    {
      if k == |t| - 1 {
        assert t[k..] == [t[k]];
        assert t[k..][1..] == [];
      } else if k < |t| - 1 {
        assert t[k..][1..] == t[k + 1..];
      }
    }
    assert Like(t, p) == MatchTokens(t, [AnyRun] + [Lit('%')]);
    if |t| > 0 && t[|t| - 1] == '%' {
      assert MatchTokens(t[|t| - 1..], [Lit('%')]);
    }
  }

  /** As written, the escape leaves `\` alone, so a term holding one is
      misread: the term `\` misses the string `\` itself, and finds `x%`
      and `%`, which do not contain it, but not `%a`. */
  lemma BackslashActorIsMisread()
    ensures Contains("\\", "\\") && !Like("\\", ActorPattern("\\"))
    ensures !Contains("x%", "\\") && Like("x%", ActorPattern("\\"))
    ensures !Contains("%", "\\") && Like("%", ActorPattern("\\"))
    ensures !Like("%a", ActorPattern("\\"))
  {
    assert OccursAt("\\", "\\", 0);
    BackslashActorMatchesTrailingPercent("\\");
    BackslashActorMatchesTrailingPercent("x%");
    BackslashActorMatchesTrailingPercent("%");
    BackslashActorMatchesTrailingPercent("%a");
    assert !OccursAt("x%", "\\", 0) && !OccursAt("x%", "\\", 1);
  }

  // ---------------------------------------------------------------------
  // Filters and order

  /** The conditions the query conjoins; `None` means no condition. */
  datatype Filters = Filters(
    conversationId: Option<int>,
    eventType: Option<string>,
    from: Option<int>,
    to: Option<int>,
    actorPattern: Option<string>)

  /** Which filters a validated request switches on: a conversation id
      that is given and not 0, an event type and an actor that are not
      PHP-empty, and any given date (widened to its whole day). */
  function FiltersOf(req: AuditRequest): Filters {
    Filters(
      if req.conversationId.Given? && req.conversationId.value != 0 then Some(req.conversationId.value) else None,
      if req.eventType.Given? && !PhpEmpty(req.eventType.value) then Some(req.eventType.value) else None,
      if req.occurredFrom.Given? then Some(StartOfDay(req.occurredFrom.value)) else None,
      if req.occurredTo.Given? then Some(EndOfDay(req.occurredTo.value)) else None,
      if req.actor.Given? && !PhpEmpty(req.actor.value) then Some(ActorPattern(req.actor.value)) else None)
  }

  predicate Selected(e: AuditEvent, f: Filters) {
    && (f.conversationId.Some? ==> e.conversationId == Some(f.conversationId.value))
    && (f.eventType.Some? ==> e.eventType == f.eventType.value)
    && (f.from.Some? ==> e.occurredAt >= f.from.value)
    && (f.to.Some? ==> e.occurredAt <= f.to.value)
    && (f.actorPattern.Some? ==> exists s | s in e.actorStrings :: Like(s, f.actorPattern.value))
  }

  /** `orderByDesc('occurred_at')->orderByDesc('id')`. */
  predicate NewerFirst(a: AuditEvent, b: AuditEvent) {
    a.occurredAt > b.occurredAt || (a.occurredAt == b.occurredAt && a.id >= b.id)
  }

  lemma NewerFirstIsTotalPreorder()
    ensures TotalPreorder(NewerFirst)
  {
  }

  /** With unique ids the order tells any two events apart. */
  lemma NewerFirstSeparatesEvents(events: seq<AuditEvent>)
    requires forall i, j :: 0 <= i < |events| && 0 <= j < |events| && events[i].id == events[j].id ==> i == j
    ensures forall x, y :: x in events && y in events && NewerFirst(x, y) && NewerFirst(y, x) ==> x == y
  {
  }

  // ---------------------------------------------------------------------
  // The query

  /** The filters echoed back with the page. */
  datatype EchoedFilters = EchoedFilters(
    conversationId: Option<int>,
    eventType: Option<string>,
    occurredFrom: Option<int>,
    occurredTo: Option<int>,
    actor: string)

  datatype AuditPage = AuditPage(perPage: int, events: seq<AuditEvent>, filters: EchoedFilters)

  /** `index`: validate, then list the selected events newest first. The
      page holds every selected event; splitting it into pages is left to
      the paginator. */
  function Index(req: AuditRequest, events: seq<AuditEvent>, knownConversations: set<int>)
    : (r: Result<AuditPage, set<Field>>)
    ensures r.Failure? <==> ValidationErrors(req, knownConversations) != {}
    ensures r.Failure? ==> r.error == ValidationErrors(req, knownConversations)
    ensures r.Success? ==>
              && 1 <= r.value.perPage <= MaxPerPage
              && (req.perPage.Absent? ==> r.value.perPage == DefaultPerPage)
              && (req.perPage.Given? ==> r.value.perPage == req.perPage.value)
              && SortedBy(r.value.events, NewerFirst)
              && forall e :: multiset(r.value.events)[e] ==
                   if Selected(e, FiltersOf(req)) then multiset(events)[e] else 0
  {
    var errs := ValidationErrors(req, knownConversations);
    if errs != {} then Failure(errs)
    else
      NewerFirstIsTotalPreorder();
      var f := FiltersOf(req);
      Success(AuditPage(
        req.perPage.OrElse(DefaultPerPage),
        SortBy(Filter(events, e => Selected(e, f)), NewerFirst),
        EchoedFilters(
          req.conversationId.ToOption(),
          req.eventType.ToOption(),
          req.occurredFrom.ToOption(),
          req.occurredTo.ToOption(),
          req.actor.OrElse(""))))
  }

  /** A `per_page` that is null or outside 1..200, a conversation id that
      names no conversation, and an actor term longer than 255 characters
      are each refused on their own field. */
  lemma InvalidParametersRejected(req: AuditRequest, events: seq<AuditEvent>, knownConversations: set<int>)
    ensures req.perPage.Null? || (req.perPage.Given? && !(1 <= req.perPage.value <= MaxPerPage)) ==>
              && Index(req, events, knownConversations).Failure?
              && PerPage in Index(req, events, knownConversations).error
    ensures req.conversationId.Given? && req.conversationId.value !in knownConversations ==>
              && Index(req, events, knownConversations).Failure?
              && ConversationId in Index(req, events, knownConversations).error
    ensures req.actor.Given? && |req.actor.value| > MaxActorLength && !Blank(req.actor.value) ==>
              && Index(req, events, knownConversations).Failure?
              && Actor in Index(req, events, knownConversations).error
  {
  }

  /** A request whose dates are reversed is refused, even within one day. */
  lemma ReversedDatesRejected(req: AuditRequest, events: seq<AuditEvent>, knownConversations: set<int>)
    requires req.occurredFrom.Given? && req.occurredTo.Given?
    requires req.occurredFrom.value > req.occurredTo.value
    ensures Index(req, events, knownConversations).Failure?
    ensures OccurredFrom in Index(req, events, knownConversations).error
  {
  }

  /** Every listed event meets each filter the request switches on: its
      conversation, its type, its day within the window, and an actor
      string that the actor pattern matches, one that contains the actor
      term whenever the term holds no backslash. */
  lemma ListedEventsMatch(req: AuditRequest, events: seq<AuditEvent>, knownConversations: set<int>)
    requires Index(req, events, knownConversations).Success?
    ensures forall e | e in Index(req, events, knownConversations).value.events ::
              && e in events
              && (req.conversationId.Given? && req.conversationId.value != 0 ==>
                    e.conversationId == Some(req.conversationId.value))
              && (req.eventType.Given? && !PhpEmpty(req.eventType.value) ==>
                    e.eventType == req.eventType.value)
              && (req.occurredFrom.Given? ==> Day(e.occurredAt) >= Day(req.occurredFrom.value))
              && (req.occurredTo.Given? ==> Day(e.occurredAt) <= Day(req.occurredTo.value))
              && (req.actor.Given? && !PhpEmpty(req.actor.value) ==>
                    exists s | s in e.actorStrings :: Like(s, ActorPattern(req.actor.value)))
              && (req.actor.Given? && !PhpEmpty(req.actor.value) && '\\' !in req.actor.value ==>
                    exists s | s in e.actorStrings :: Contains(s, req.actor.value))
  {
    var page := Index(req, events, knownConversations).value;
    forall e | e in page.events
      ensures && e in events
              && (req.occurredFrom.Given? ==> Day(e.occurredAt) >= Day(req.occurredFrom.value))
              && (req.occurredTo.Given? ==> Day(e.occurredAt) <= Day(req.occurredTo.value))
              && (req.actor.Given? && !PhpEmpty(req.actor.value) && '\\' !in req.actor.value ==>
                    exists s | s in e.actorStrings :: Contains(s, req.actor.value))
    {
      assert multiset(page.events)[e] > 0;
      assert Selected(e, FiltersOf(req));
      if req.occurredFrom.Given? || req.occurredTo.Given? {
        DayWindow(e.occurredAt, req.occurredFrom.OrElse(0), req.occurredTo.OrElse(0));
      }
      if req.actor.Given? && !PhpEmpty(req.actor.value) && '\\' !in req.actor.value {
        var s :| s in e.actorStrings && Like(s, ActorPattern(req.actor.value));
        ActorPatternWithoutBackslash(s, req.actor.value);
      }
    }
  }

  /** The order is total on events with distinct ids: any newest-first
      arrangement of the selected events is the listing itself. */
  lemma ListingOrderIsDeterministic(req: AuditRequest, events: seq<AuditEvent>,
                                    knownConversations: set<int>, other: seq<AuditEvent>)
    requires forall i, j :: 0 <= i < |events| && 0 <= j < |events| && events[i].id == events[j].id ==> i == j
    requires Index(req, events, knownConversations).Success?
    requires SortedBy(other, NewerFirst)
    requires multiset(other) == multiset(Index(req, events, knownConversations).value.events)
    ensures other == Index(req, events, knownConversations).value.events
  {
    var listed := Index(req, events, knownConversations).value.events;
    NewerFirstIsTotalPreorder();
    NewerFirstSeparatesEvents(events);
    forall x | x in listed ensures x in events {
      assert multiset(listed)[x] > 0;
    }
    assert Separates(listed, NewerFirst);
    SortedIsUnique(listed, other, NewerFirst);
  }

  /** The echoed filters: the conversation id as given (0 included) or
      null, and the actor as given or the empty string. */
  lemma EchoedFiltersShape(req: AuditRequest, events: seq<AuditEvent>, knownConversations: set<int>)
    requires Index(req, events, knownConversations).Success?
    ensures var echoed := Index(req, events, knownConversations).value.filters;
            && (echoed.conversationId.Some? <==> req.conversationId.Given?)
            && (req.conversationId.Given? ==> echoed.conversationId == Some(req.conversationId.value))
            && (!req.actor.Given? ==> echoed.actor == "")
            && (req.actor.Given? ==> echoed.actor == req.actor.value)
  {
  }
}
