/** The webhook registry of the admin API screens: a table of webhook
    subscriptions that the admin controller lists, creates, updates (with
    optional secret rotation) and deletes. */
module Webhooks {
  import opened Common
  import opened SqlLike
  import opened Sorting

  /** A secret as stored: the encrypted form of `plain`. The cipher itself
      is not modelled. */
  datatype Sealed = Sealed(plain: string)

  type Metadata = Option<map<string, string>>

  /** One row of the webhooks table. */
  datatype Webhook = Webhook(
    id: int,
    name: string,
    url: string,
    events: seq<string>,
    secret: Sealed,
    active: bool,
    metadata: Metadata,
    createdAt: int)

  const SecretPrefix := "whsk_"
  const SecretRandomLength := 48
  const DefaultPerPage := 50
  const MaxPerPage := 100

  predicate IsAlphaNumeric(c: char) {
    ('a' <= c <= 'z') || ('A' <= c <= 'Z') || ('0' <= c <= '9')
  }

  /** What the framework's random-string helper returns for length 48. */
  type RandomToken = s: string | |s| == SecretRandomLength && forall i :: 0 <= i < |s| ==> IsAlphaNumeric(s[i])
    witness seq(SecretRandomLength, _ => '0')

  /** The shape of every plaintext secret handed out. */
  predicate IsSecret(s: string) {
    && |s| == |SecretPrefix| + SecretRandomLength
    && s[..|SecretPrefix|] == SecretPrefix
    && forall i :: |SecretPrefix| <= i < |s| ==> IsAlphaNumeric(s[i])
  }

  /** `generateSecret`: the prefix followed by 48 random characters. */
  function GenerateSecret(random: RandomToken): (r: string)
    ensures IsSecret(r) && |r| == 53
    ensures r[|SecretPrefix|..] == random
  {
    SecretPrefix + random
  }

  /** Distinct random draws give distinct secrets. */
  lemma GenerateSecretInjective(a: RandomToken, b: RandomToken)
    requires GenerateSecret(a) == GenerateSecret(b)
    ensures a == b
  {
    assert GenerateSecret(a)[|SecretPrefix|..] == a;
  }

  predicate UniqueIds(rows: seq<Webhook>) {
    forall i, j :: 0 <= i < |rows| && 0 <= j < |rows| && rows[i].id == rows[j].id ==> i == j
  }

  predicate TableValid(rows: seq<Webhook>, nextId: int) {
    && 0 < nextId
    && UniqueIds(rows)
    && (forall i :: 0 <= i < |rows| ==> 0 < rows[i].id < nextId)
  }

  function KeyOf(row: Webhook): int {
    row.id
  }

  /** Route-model binding: the position of the webhook with key `id`. */
  function FindIndex(rows: seq<Webhook>, id: int): Option<nat> {
    FindKey(rows, KeyOf, id)
  }

  // ---------------------------------------------------------------------
  // Listing

  /** `max(1, min(per_page, 100))` with 50 when the parameter is missing
      (the parameter already cast to an integer). */
  function PageSize(perPage: Option<int>): (n: int)
    ensures 1 <= n <= MaxPerPage
    ensures perPage.None? ==> n == DefaultPerPage
    ensures perPage.Some? && 1 <= perPage.value <= MaxPerPage ==> n == perPage.value
    ensures perPage.Some? && perPage.value < 1 ==> n == 1
    ensures perPage.Some? && perPage.value > MaxPerPage ==> n == MaxPerPage
  {
    var requested := perPage.GetOr(DefaultPerPage);
    var capped := if requested < MaxPerPage then requested else MaxPerPage;
    if 1 < capped then capped else 1
  }

  /** The query string of `index`; a missing `search` or `event` reads as "". */
  datatype IndexRequest = IndexRequest(
    perPage: Option<int>,
    search: Option<string>,
    active: Option<bool>,
    event: Option<string>)

  datatype ListingFilters = ListingFilters(search: Option<string>, active: Option<bool>, event: Option<string>)

  datatype Listing = Listing(perPage: int, webhooks: seq<Webhook>, filters: ListingFilters)

  /** The conditions of the listing, after trimming the search and event. */
  predicate Listed(w: Webhook, search: string, active: Option<bool>, event: string) {
    && (search != "" ==> Like(w.name, Wrapped(search)) || Like(w.url, Wrapped(search)))
    && (active.Some? ==> w.active == active.value)
    && (event != "" ==> event in w.events)
  }

  /** `orderByDesc('created_at')`. */
  predicate NewestFirst(a: Webhook, b: Webhook) {
    a.createdAt >= b.createdAt
  }

  lemma NewestFirstIsTotalPreorder()
    ensures TotalPreorder(NewestFirst)
  {
  }

  /** `index`: the webhooks meeting every switched-on filter, newest first. */
  function Index(rows: seq<Webhook>, req: IndexRequest): (r: Listing)
    ensures r.perPage == PageSize(req.perPage) && 1 <= r.perPage <= MaxPerPage
    ensures SortedBy(r.webhooks, NewestFirst)
    ensures var search := Trim(req.search.GetOr(""));
            var event := Trim(req.event.GetOr(""));
            forall w :: multiset(r.webhooks)[w] ==
              if Listed(w, search, req.active, event) then multiset(rows)[w] else 0
    ensures r.filters.search.Some? <==> Trim(req.search.GetOr("")) != ""
    ensures r.filters.search.Some? ==> r.filters.search.value == Trim(req.search.GetOr(""))
    ensures r.filters.event.Some? <==> Trim(req.event.GetOr("")) != ""
    ensures r.filters.event.Some? ==> r.filters.event.value == Trim(req.event.GetOr(""))
    ensures r.filters.active == req.active
  {
    var search := Trim(req.search.GetOr(""));
    var event := Trim(req.event.GetOr(""));
    NewestFirstIsTotalPreorder();
    Listing(
      PageSize(req.perPage),
      SortBy(Filter(rows, w => Listed(w, search, req.active, event)), NewestFirst),
      ListingFilters(
        if search != "" then Some(search) else None,
        req.active,
        if event != "" then Some(event) else None))
  }

  /** A webhook is listed exactly when it is in the table and meets every
      filter of the request. */
  lemma IndexMembership(rows: seq<Webhook>, req: IndexRequest, w: Webhook)
    ensures w in Index(rows, req).webhooks <==>
              w in rows && Listed(w, Trim(req.search.GetOr("")), req.active, Trim(req.event.GetOr("")))
  {
    var listed := Index(rows, req).webhooks;
    assert w in listed <==> multiset(listed)[w] > 0;
    assert w in rows <==> multiset(rows)[w] > 0;
  }

  /** A search term free of `%`, `_` and `\` (the blank one included)
      keeps exactly the webhooks whose name or url contains it. */
  lemma PlainSearchIsSubstring(w: Webhook, search: string, active: Option<bool>, event: string)
    requires forall i :: 0 <= i < |search| ==> !IsWildcard(search[i]) && search[i] != '\\'
    ensures Listed(w, search, active, event) <==>
              && (search == "" || Contains(w.name, search) || Contains(w.url, search))
              && (active.Some? ==> w.active == active.value)
              && (event != "" ==> event in w.events)
  {
    RawPlainSearchIsSubstring(w.name, search);
    RawPlainSearchIsSubstring(w.url, search);
  }

  // ---------------------------------------------------------------------
  // Store and update

  /** The validated store request: name, url, the sanitized event list,
      the activation flag and the metadata. */
  datatype StoreInput = StoreInput(
    name: string,
    url: string,
    events: seq<string>,
    active: bool,
    metadata: Metadata)

  /** The validated update request: each attribute it provides, and
      whether it asks for a new secret. */
  datatype UpdateInput = UpdateInput(
    name: Option<string>,
    url: Option<string>,
    events: Option<seq<string>>,
    metadata: Option<Metadata>,
    active: Option<bool>,
    rotateSecret: bool)

  datatype WebhookError = NoEvents | NotFound

  datatype Created = Created(webhook: Webhook, plainSecret: string)

  datatype Updated = Updated(webhook: Webhook, plainSecret: Option<string>)

  /** The attributes an update fills, each `None` when not provided. */
  datatype Attributes = Attributes(
    name: Option<string>,
    url: Option<string>,
    events: Option<seq<string>>,
    metadata: Option<Metadata>,
    active: Option<bool>,
    secret: Option<Sealed>)
  {
    predicate IsEmpty() {
      name.None? && url.None? && events.None? && metadata.None? && active.None? && secret.None?
    }
  }

  const NoAttributes := Attributes(None, None, None, None, None, None)

  /** The attributes a valid update request provides. */
  function Requested(input: UpdateInput, random: RandomToken): Attributes {
    Attributes(
      input.name,
      input.url,
      input.events,
      input.metadata,
      input.active,
      if input.rotateSecret then Some(Sealed(GenerateSecret(random))) else None)
  }

  /** `fill`: the row with every provided attribute replaced. */
  function Fill(w: Webhook, a: Attributes): Webhook {
    w.(
      name := a.name.GetOr(w.name),
      url := a.url.GetOr(w.url),
      events := a.events.GetOr(w.events),
      metadata := a.metadata.GetOr(w.metadata),
      active := a.active.GetOr(w.active),
      secret := a.secret.GetOr(w.secret))
  }

  /** An update changes exactly the attributes it provides: the rest of
      the row, its key and creation time included, stays as it was; the
      stored secret changes exactly when rotation is asked for, and then
      seals a well-formed secret. */
  lemma UpdateChangesOnlyProvided(w: Webhook, input: UpdateInput, random: RandomToken)
    ensures var u := Fill(w, Requested(input, random));
            && u.id == w.id && u.createdAt == w.createdAt
            && (input.name.None? ==> u.name == w.name)
            && (input.name.Some? ==> u.name == input.name.value)
            && (input.url.None? ==> u.url == w.url)
            && (input.url.Some? ==> u.url == input.url.value)
            && (input.events.None? ==> u.events == w.events)
            && (input.events.Some? ==> u.events == input.events.value)
            && (input.metadata.None? ==> u.metadata == w.metadata)
            && (input.metadata.Some? ==> u.metadata == input.metadata.value)
            && (input.active.None? ==> u.active == w.active)
            && (input.active.Some? ==> u.active == input.active.value)
            && (!input.rotateSecret ==> u.secret == w.secret)
            && (input.rotateSecret ==> IsSecret(u.secret.plain))
  {
  }

  /** A request that provides nothing asks for no write, and filling no
      attributes would leave the row as it is. */
  lemma NothingProvidedNothingWritten(w: Webhook, input: UpdateInput, random: RandomToken)
    ensures Requested(input, random).IsEmpty() <==>
              input.name.None? && input.url.None? && input.events.None?
              && input.metadata.None? && input.active.None? && !input.rotateSecret
    ensures Fill(w, NoAttributes) == w
  {
  }

  // ---------------------------------------------------------------------
  // The controller over its table

  class WebhookRegistry {
    var rows: seq<Webhook>
    var nextId: int

    ghost predicate Valid()
      reads this
    {
      TableValid(rows, nextId)
    }

    constructor ()
      ensures Valid() && rows == [] && nextId == 1
    {
      rows := [];
      nextId := 1;
    }

    /** `ensureValidEvents`: an empty sanitized event list is refused. */
    static method EnsureValidEvents(events: seq<string>) returns (r: Option<WebhookError>)
      ensures r.Some? <==> events == []
      ensures r.Some? ==> r.value == NoEvents
    {
      if events == [] {
        return Some(NoEvents);
      }
      return None;
    }

    /** `store`: draw a secret, refuse an empty event list, create the row
        with the sealed secret and hand the plaintext back once. */
    method Store(input: StoreInput, random: RandomToken, now: int) returns (r: Result<Created, WebhookError>)
      requires Valid()
      modifies this
      ensures Valid()
      ensures input.events == [] ==> r == Failure(NoEvents) && rows == old(rows) && nextId == old(nextId)
      ensures input.events != [] ==>
                && r.Success?
                && IsSecret(r.value.plainSecret)
                && r.value.webhook == Webhook(old(nextId), input.name, input.url, input.events,
                                              Sealed(r.value.plainSecret), input.active, input.metadata, now)
                && rows == old(rows) + [r.value.webhook]
                && nextId == old(nextId) + 1
    {
      var secret := GenerateSecret(random);
      var invalid := EnsureValidEvents(input.events);
      if invalid.Some? {
        return Failure(invalid.value);
      }
      var webhook := Webhook(nextId, input.name, input.url, input.events, Sealed(secret),
                             input.active, input.metadata, now);
      AppendKeepsTableValid(rows, nextId, webhook);
      rows := rows + [webhook];
      nextId := nextId + 1;
      r := Success(Created(webhook, secret));
    }

    /** `update`: collect the provided attributes one by one (refusing an
        empty event list), rotate the secret when asked, and write the row
        only when some attribute was collected. */
    method Update(id: int, input: UpdateInput, random: RandomToken) returns (r: Result<Updated, WebhookError>)
      requires Valid()
      modifies this
      ensures Valid() && nextId == old(nextId)
      ensures FindIndex(old(rows), id).None? ==> r == Failure(NotFound) && rows == old(rows)
      ensures FindIndex(old(rows), id).Some? && input.events == Some([]) ==>
                r == Failure(NoEvents) && rows == old(rows)
      ensures FindIndex(old(rows), id).Some? && input.events != Some([]) ==>
                var i := FindIndex(old(rows), id).value;
                var requested := Requested(input, random);
                && (rows == if requested.IsEmpty() then old(rows)
                            else old(rows)[i := Fill(old(rows)[i], requested)])
                && r == Success(Updated(rows[i], if input.rotateSecret then Some(GenerateSecret(random)) else None))
    {
      var found := FindIndex(rows, id);
      if found.None? {
        return Failure(NotFound);
      }
      var i := found.value;
      var attributes := NoAttributes;
      var plainSecret: Option<string> := None;
      if input.name.Some? {
        attributes := attributes.(name := input.name);
      }
      assert attributes == NoAttributes.(name := input.name);
      if input.url.Some? {
        attributes := attributes.(url := input.url);
      }
      assert attributes == NoAttributes.(name := input.name, url := input.url);
      if input.events.Some? {
        var invalid := EnsureValidEvents(input.events.value);
        if invalid.Some? {
          return Failure(invalid.value);
        }
        attributes := attributes.(events := input.events);
      }
      assert attributes == NoAttributes.(name := input.name, url := input.url, events := input.events);
      if input.metadata.Some? {
        attributes := attributes.(metadata := input.metadata);
      }
      if input.active.Some? {
        attributes := attributes.(active := input.active);
      }
      assert attributes == Requested(input, random).(secret := None);
      if input.rotateSecret {
        var secret := GenerateSecret(random);
        plainSecret := Some(secret);
        attributes := attributes.(secret := Some(Sealed(secret)));
      }
      assert attributes == Requested(input, random);
      if !attributes.IsEmpty() {
        FillKeepsTableValid(rows, nextId, i, attributes);
        rows := rows[i := Fill(rows[i], attributes)];
      }
      r := Success(Updated(rows[i], plainSecret));
    }

    /** `destroy`: delete the row. */
    method Destroy(id: int) returns (r: Result<(), WebhookError>)
      requires Valid()
      modifies this
      ensures Valid() && nextId == old(nextId)
      ensures FindIndex(old(rows), id).None? ==> r == Failure(NotFound) && rows == old(rows)
      ensures FindIndex(old(rows), id).Some? ==>
                var i := FindIndex(old(rows), id).value;
                r == Success(()) && rows == old(rows)[..i] + old(rows)[i + 1..]
    {
      var found := FindIndex(rows, id);
      if found.None? {
        return Failure(NotFound);
      }
      var i := found.value;
      RemovalKeepsTableValid(rows, nextId, i);
      rows := rows[..i] + rows[i + 1..];
      r := Success(());
    }
  }

  /** Appending a row keyed by the next id keeps the table valid, and the
      new key was not in use. */
  lemma {:induction false} AppendKeepsTableValid(rows: seq<Webhook>, nextId: int, w: Webhook)
    requires TableValid(rows, nextId) && w.id == nextId
    ensures TableValid(rows + [w], nextId + 1)
    ensures forall j :: 0 <= j < |rows| ==> rows[j].id != w.id
  {
    var r := rows + [w];
    assert forall j :: 0 <= j < |rows| ==> r[j] == rows[j];
  }

  /** Filling attributes never changes a row's key, so the table stays valid. */
  lemma {:induction false} FillKeepsTableValid(rows: seq<Webhook>, nextId: int, i: nat, a: Attributes)
    requires i < |rows| && TableValid(rows, nextId)
    ensures TableValid(rows[i := Fill(rows[i], a)], nextId)
  {
    var r := rows[i := Fill(rows[i], a)];
    assert forall j :: 0 <= j < |r| ==> r[j].id == rows[j].id;
  }

  lemma RemovalKeepsTableValid(rows: seq<Webhook>, nextId: int, i: nat)
    requires i < |rows| && TableValid(rows, nextId)
    ensures var r := rows[..i] + rows[i + 1..];
            && TableValid(r, nextId)
            && (forall j :: 0 <= j < |r| ==> r[j].id != rows[i].id)
  {
    var r := rows[..i] + rows[i + 1..];
    assert forall j :: 0 <= j < |r| ==> r[j] == (if j < i then rows[j] else rows[j + 1]);
  }
}
